/**
  Vertex identifiers and their two text forms (src/id.rs).

  An `Id` is a fixed array of `ID_BYTES` bytes. Its `Display` form is the
  lowercase hexadecimal rendering of the bytes with no separators; its `Debug`
  form is `[xx, xx, xx, xx]`. Both are built on `ByteToHex`, which splits a byte
  into its two nibbles and turns each into an ASCII digit.
*/
module Ids {

  import opened Wrappers

  /** Rust's `u8`. */
  type byte = x: int | 0 <= x < 256

  /** Number of bytes in an identifier (`ID_BYTES`). */
  const ID_BYTES: nat := 4

  /** The contents of a `[u8; ID_BYTES]` array. */
  type IdBytes = s: seq<byte> | |s| == ID_BYTES witness [0, 0, 0, 0]

  /** An identifier: derived `PartialEq`/`Eq` compare the byte arrays. */
  datatype Id = Id(inner: IdBytes)
  {
    /** `AsRef<[u8; ID_BYTES]>`: the raw bytes. */
    function AsRef(): (bs: IdBytes)
      ensures Id(bs) == this
    {
      inner
    }
  }

  /** `Id::from`: wraps caller-supplied bytes, nothing generated. */
  function From(inner: IdBytes): (id: Id)
    ensures id.AsRef() == inner
  {
    Id(inner)
  }

  /** Two identifiers are equal exactly when their byte arrays are. */
  lemma EqualIffSameBytes(a: Id, b: Id)
    ensures a == b <==> a.AsRef() == b.AsRef()
  {
  }

  // ---------------------------------------------------------------------------
  // Hex digits
  // ---------------------------------------------------------------------------

  /** The characters `byte_to_hex` may produce: `0`-`9` and `a`-`f`. */
  predicate IsLowerHexDigit(c: char)
  {
    '0' <= c <= '9' || 'a' <= c <= 'f'
  }

  /** Reading a lowercase hex digit back as a number; the partner of `ToHex`. */
  function HexDigitValue(c: char): (d: nat)
    requires IsLowerHexDigit(c)
    ensures d < 16
    ensures c <= '9' <==> d < 10
  {
    if c <= '9' then c as int - '0' as int else c as int - 'a' as int + 10
  }

  /**
    `n >> 4`: the high nibble of a byte. On an unsigned byte a right shift by
    four is division by 16.
  */
  function Upper(n: byte): (u: byte)
    ensures u < 16
  {
    n / 16
  }

  /**
    `n & 0xF`: the low nibble of a byte. On an unsigned byte masking with
    `0xF` keeps the remainder by 16.
  */
  function Lower(n: byte): (l: byte)
    ensures l < 16
  {
    n % 16
  }

  /** The two nibbles put back together give the byte. */
  lemma NibblesRecompose(n: byte)
    ensures 16 * Upper(n) + Lower(n) == n
  {
  }

  /**
    The `to_hex` closure: 0..=9 become the character with code 48 + n, 10..=15
    the character with code 87 + n, and every other value reaches
    `unreachable!`, which is `None` here.
  */
  function ToHex(n: byte): (r: Option<char>)
    ensures r.Some? <==> n < 16
    ensures r.Some? ==> IsLowerHexDigit(r.value) && HexDigitValue(r.value) == n
  {
    if n <= 9 then Some((n + 48) as char)
    else if n <= 15 then Some((n + 87) as char)
    else None
  }

  /**
    `byte_to_hex`: two lowercase hex digits, high nibble first. The nibbles are
    always below 16, so the `unreachable!` arm of `to_hex` is never taken
    (the `.value` selections below are only well defined because of that).
  */
  function ByteToHex(n: byte): (r: seq<char>)
    ensures |r| == 2
    ensures IsLowerHexDigit(r[0]) && IsLowerHexDigit(r[1])
    ensures 16 * HexDigitValue(r[0]) + HexDigitValue(r[1]) == n
  {
    NibblesRecompose(n);
    [ToHex(Upper(n)).value, ToHex(Lower(n)).value]
  }

  /** Decoding a pair of hex digits; the inverse of `ByteToHex`. */
  function HexPairValue(c1: char, c2: char): (r: Option<byte>)
    ensures r.Some? <==> IsLowerHexDigit(c1) && IsLowerHexDigit(c2)
  {
    if IsLowerHexDigit(c1) && IsLowerHexDigit(c2)
    then Some(16 * HexDigitValue(c1) + HexDigitValue(c2))
    else None
  }

  /** The digits `ByteToHex` produces are never upper case. */
  lemma ByteToHexNoUpperCase(n: byte)
    ensures forall c | c in ByteToHex(n) :: !('A' <= c <= 'Z')
  {
  }

  /** Decoding the two characters of `ByteToHex(n)` gives back `n`. */
  lemma ByteToHexRoundTrip(n: byte)
    ensures HexPairValue(ByteToHex(n)[0], ByteToHex(n)[1]) == Some(n)
  {
  }

  /** Hence `ByteToHex` is injective. */
  lemma ByteToHexInjective(a: byte, b: byte)
    ensures ByteToHex(a) == ByteToHex(b) ==> a == b
  {
    ByteToHexRoundTrip(a);
    ByteToHexRoundTrip(b);
  }

  // ---------------------------------------------------------------------------
  // Display: bytes_to_hex
  // ---------------------------------------------------------------------------

  /** Every character of `s` is a lowercase hex digit. */
  predicate AllLowerHex(s: string)
  {
    forall i | 0 <= i < |s| :: IsLowerHexDigit(s[i])
  }

  /** `bytes_to_hex`: `byte_to_hex` over the bytes in order, flattened. */
  function BytesToHex(bs: seq<byte>): (s: string)
    ensures |s| == 2 * |bs|
    ensures AllLowerHex(s)
    ensures forall i | 0 <= i < |bs| ::
              s[2 * i] == ByteToHex(bs[i])[0] && s[2 * i + 1] == ByteToHex(bs[i])[1]
  {
    if bs == [] then []
    else
      var rest := BytesToHex(bs[1..]);
      HexDigitsAppend(ByteToHex(bs[0]), rest);
      ByteToHexThenBytes(bs, rest);
      ByteToHex(bs[0]) + rest
  }

  /** Joining two all-hex strings keeps every character a hex digit. */
  lemma HexDigitsAppend(a: string, b: string)
    requires AllLowerHex(a) && AllLowerHex(b)
    ensures AllLowerHex(a + b)
  {
    forall i | 0 <= i < |a + b| ensures IsLowerHexDigit((a + b)[i]) {
      if i >= |a| {
        assert (a + b)[i] == b[i - |a|];
      }
    }
  }

  /** The step of `BytesToHex`: the first pair of digits, then the rest. */
  lemma ByteToHexThenBytes(bs: seq<byte>, rest: string)
    requires bs != [] && |rest| == 2 * (|bs| - 1)
    requires forall i | 0 <= i < |bs| - 1 ::
               rest[2 * i] == ByteToHex(bs[1..][i])[0] && rest[2 * i + 1] == ByteToHex(bs[1..][i])[1]
    ensures forall i | 0 <= i < |bs| ::
              (ByteToHex(bs[0]) + rest)[2 * i] == ByteToHex(bs[i])[0]
              && (ByteToHex(bs[0]) + rest)[2 * i + 1] == ByteToHex(bs[i])[1]
  {
    var s := ByteToHex(bs[0]) + rest;
    forall i | 0 <= i < |bs|
      ensures s[2 * i] == ByteToHex(bs[i])[0] && s[2 * i + 1] == ByteToHex(bs[i])[1]
    {
      if i > 0 {
        var j := i - 1;
        assert bs[1..][j] == bs[i];
        assert s[2 * i] == rest[2 * j];
        assert s[2 * i + 1] == rest[2 * j + 1];
      }
    }
  }

  /** Reading a hex string back as bytes: `None` on odd length or a non-digit. */
  function HexToBytes(s: string): (r: Option<seq<byte>>)
    ensures r.Some? ==> 2 * |r.value| == |s|
    decreases |s|
  {
    if s == [] then Some([])
    else if |s| == 1 then None
    else match (HexPairValue(s[0], s[1]), HexToBytes(s[2..]))
      case (Some(b), Some(rest)) => Some([b] + rest)
      case _ => None
  }

  /** Decoding the `Display` text of any byte string gives the bytes back. */
  lemma {:induction false} BytesToHexRoundTrip(bs: seq<byte>)
    ensures HexToBytes(BytesToHex(bs)) == Some(bs)
  {
    if bs != [] {
      var s := BytesToHex(bs);
      assert s[2..] == BytesToHex(bs[1..]);
      BytesToHexRoundTrip(bs[1..]);
      ByteToHexRoundTrip(bs[0]);
      assert [bs[0]] + bs[1..] == bs;
    }
  }

  /** `Display for Id`: the bytes as 8 lowercase hex digits. */
  function Display(id: Id): (s: string)
    ensures |s| == 2 * ID_BYTES == 8
    ensures AllLowerHex(s)
    ensures HexToBytes(s) == Some(id.inner)
  {
    BytesToHexRoundTrip(id.inner);
    BytesToHex(id.inner)
  }

  /** Distinct identifiers have distinct `Display` texts. */
  lemma DisplayInjective(a: Id, b: Id)
    ensures Display(a) == Display(b) ==> a == b
  {
    BytesToHexRoundTrip(a.inner);
    BytesToHexRoundTrip(b.inner);
  }

  // ---------------------------------------------------------------------------
  // Debug: [xx, xx, xx, xx]
  // ---------------------------------------------------------------------------

  /** The pieces of `groups` with `sep` between neighbours and nowhere else. */
  function Join(groups: seq<string>, sep: string): string
  {
    if groups == [] then ""
    else if |groups| == 1 then groups[0]
    else groups[0] + sep + Join(groups[1..], sep)
  }

  /** Appending one more piece adds one separator, unless it is the first. */
  lemma {:induction false} JoinSnoc(groups: seq<string>, g: string, sep: string)
    ensures Join(groups + [g], sep) == if groups == [] then g else Join(groups, sep) + sep + g
  {
    if |groups| > 1 {
      assert (groups + [g])[1..] == groups[1..] + [g];
      JoinSnoc(groups[1..], g, sep);
    }
  }

  /** `byte_to_hex` of every byte, one two-character group per byte. */
  function HexGroups(bs: seq<byte>): (gs: seq<string>)
    ensures |gs| == |bs|
    ensures forall i | 0 <= i < |bs| :: gs[i] == ByteToHex(bs[i])
  {
    seq(|bs|, i requires 0 <= i < |bs| => ByteToHex(bs[i]))
  }

  /** The text `Debug for Id` writes: `[`, the groups separated by `", "`, `]`. */
  function DebugForm(bs: seq<byte>): string
  {
    "[" + Join(HexGroups(bs), ", ") + "]"
  }

  /**
    `Debug for Id`: writes `[`, then for each byte its two digits followed by
    `", "` unless it is the last byte (`i < ID_BYTES - 1`), then `]`.
  */
  method DebugFmt(id: Id) returns (out: string)
    ensures out == DebugForm(id.AsRef())
  {
    var bytes := id.AsRef();
    out := "[";
    for i := 0 to |bytes|
      invariant out == "[" + Join(HexGroups(bytes[..i]), ", ") + (if 0 < i < ID_BYTES then ", " else "")
    {
      var pair := ByteToHex(bytes[i]);
      DebugStep(bytes, i);
      out := out + [pair[0]];
      out := out + [pair[1]];
      if i < ID_BYTES - 1 {
        out := out + ", ";
      }
    }
    assert bytes[..|bytes|] == bytes;
    out := out + "]";
  }

  /** One more byte adds its group to the groups of the prefix before it. */
  lemma HexGroupsSnoc(bs: seq<byte>, i: nat)
    requires i < |bs|
    ensures HexGroups(bs[..i + 1]) == HexGroups(bs[..i]) + [ByteToHex(bs[i])]
  {
    assert bs[..i + 1][..i] == bs[..i];
  }

  /** The join after byte `i` is the join before it, a separator if any, and its group. */
  lemma DebugStep(bs: seq<byte>, i: nat)
    requires i < |bs|
    ensures Join(HexGroups(bs[..i + 1]), ", ")
         == Join(HexGroups(bs[..i]), ", ") + (if 0 < i then ", " else "") + ByteToHex(bs[i])
  {
    HexGroupsSnoc(bs, i);
    JoinSnoc(HexGroups(bs[..i]), ByteToHex(bs[i]), ", ");
  }

  /** Layout of a join of two-character pieces with a two-character separator. */
  lemma {:induction false} JoinPairsLayout(gs: seq<string>, sep: string)
    requires |gs| > 0 && |sep| == 2
    requires forall i | 0 <= i < |gs| :: |gs[i]| == 2
    ensures |Join(gs, sep)| == 4 * |gs| - 2
    ensures forall i | 0 <= i < |gs| ::
              Join(gs, sep)[4 * i] == gs[i][0] && Join(gs, sep)[4 * i + 1] == gs[i][1]
    ensures forall i | 0 <= i < |gs| - 1 ::
              Join(gs, sep)[4 * i + 2] == sep[0] && Join(gs, sep)[4 * i + 3] == sep[1]
  {
    if |gs| > 1 {
      var tail := gs[1..];
      JoinPairsLayout(tail, sep);
      var t := Join(tail, sep);
      var j := gs[0] + sep + t;
      assert Join(gs, sep) == j;
      forall i | 1 <= i < |gs|
        ensures j[4 * i] == gs[i][0] && j[4 * i + 1] == gs[i][1]
      {
        assert tail[i - 1] == gs[i];
        assert j[4 * i] == t[4 * (i - 1)];
        assert j[4 * i + 1] == t[4 * (i - 1) + 1];
      }
      forall i | 1 <= i < |gs| - 1
        ensures j[4 * i + 2] == sep[0] && j[4 * i + 3] == sep[1]
      {
        assert j[4 * i + 2] == t[4 * (i - 1) + 2];
        assert j[4 * i + 3] == t[4 * (i - 1) + 3];
      }
    }
  }

  /**
    The `Debug` text of a non-empty byte string: 4 characters per byte, the
    brackets at both ends, byte `i`'s digits at 1 + 4i and 2 + 4i, and
    `", "` after every byte but the last.
  */
  lemma DebugFormLayout(bs: seq<byte>)
    requires |bs| > 0
    ensures |DebugForm(bs)| == 4 * |bs|
    ensures DebugForm(bs)[0] == '[' && DebugForm(bs)[4 * |bs| - 1] == ']'
    ensures forall i | 0 <= i < |bs| ::
              DebugForm(bs)[4 * i + 1] == ByteToHex(bs[i])[0]
              && DebugForm(bs)[4 * i + 2] == ByteToHex(bs[i])[1]
    ensures forall i | 0 <= i < |bs| - 1 ::
              DebugForm(bs)[4 * i + 3] == ',' && DebugForm(bs)[4 * i + 4] == ' '
  {
    var gs := HexGroups(bs);
    JoinPairsLayout(gs, ", ");
    var j := Join(gs, ", ");
    var d := DebugForm(bs);
    assert d == "[" + j + "]";
    forall i | 0 <= i < |bs|
      ensures d[4 * i + 1] == ByteToHex(bs[i])[0] && d[4 * i + 2] == ByteToHex(bs[i])[1]
    {
      assert d[4 * i + 1] == j[4 * i];
      assert d[4 * i + 2] == j[4 * i + 1];
    }
    forall i | 0 <= i < |bs| - 1
      ensures d[4 * i + 3] == ',' && d[4 * i + 4] == ' '
    {
      assert d[4 * i + 3] == j[4 * i + 2];
      assert d[4 * i + 4] == j[4 * i + 3];
    }
  }

  /**
    For an identifier the `Debug` text is 16 characters, and its byte groups
    are the `Display` digits pair by pair.
  */
  lemma DebugAgreesWithDisplay(id: Id)
    ensures |DebugForm(id.inner)| == 16
    ensures forall i | 0 <= i < ID_BYTES ::
              DebugForm(id.inner)[4 * i + 1] == Display(id)[2 * i]
              && DebugForm(id.inner)[4 * i + 2] == Display(id)[2 * i + 1]
  {
    DebugFormLayout(id.inner);
  }

  /** The `Debug` text of an identifier written out: `[b0, b1, b2, b3]`. */
  lemma DebugFormOfId(id: Id)
    ensures DebugForm(id.inner)
         == "[" + ByteToHex(id.inner[0]) + ", " + ByteToHex(id.inner[1]) + ", "
                + ByteToHex(id.inner[2]) + ", " + ByteToHex(id.inner[3]) + "]"
  {
    var gs := HexGroups(id.inner);
    assert gs == [ByteToHex(id.inner[0]), ByteToHex(id.inner[1]), ByteToHex(id.inner[2]), ByteToHex(id.inner[3])];
    assert Join(gs[3..], ", ") == gs[3];
    assert Join(gs[2..], ", ") == gs[2] + ", " + gs[3] by { assert gs[2..][1..] == gs[3..]; }
    assert Join(gs[1..], ", ") == gs[1] + ", " + gs[2] + ", " + gs[3] by { assert gs[1..][1..] == gs[2..]; }
  }

  // ---------------------------------------------------------------------------
  // Derived ordering
  // ---------------------------------------------------------------------------

  /** Rust's `std::cmp::Ordering`. */
  datatype Ordering = Less | Equal | Greater

  /**
    Lexicographic comparison of byte strings, as slices and arrays compare:
    a proper prefix comes first (and `CompareBytesFirstDifference` shows that
    otherwise the first position where the strings differ decides).
  */
  function CompareBytes(a: seq<byte>, b: seq<byte>): (o: Ordering)
    ensures |a| < |b| && a == b[..|a|] ==> o == Less
    ensures |b| < |a| && b == a[..|b|] ==> o == Greater
  {
    if a == [] && b == [] then Equal
    else if a == [] then Less
    else if b == [] then Greater
    else if a[0] < b[0] then Less
    else if a[0] > b[0] then Greater
    else
      PrefixesAfterFirst(a, b);
      CompareBytes(a[1..], b[1..])
  }

  /** The first position where two byte strings differ decides their order. */
  lemma {:induction false} CompareBytesFirstDifference(a: seq<byte>, b: seq<byte>, i: nat)
    requires i < |a| && i < |b| && a[..i] == b[..i] && a[i] != b[i]
    ensures CompareBytes(a, b) == if a[i] < b[i] then Less else Greater
  {
    if i > 0 {
      assert a[0] == a[..i][0] && b[0] == b[..i][0];
      PrefixesAfterFirst(a, b);
      CompareBytesFirstDifference(a[1..], b[1..], i - 1);
    }
  }

  /** Equal prefixes of length `i` stay equal, one shorter, after dropping the first byte. */
  lemma PrefixesAfterFirst(a: seq<byte>, b: seq<byte>)
    requires a != [] && b != []
    ensures forall i | 1 <= i <= |a| && i <= |b| && a[..i] == b[..i] :: a[1..][..i - 1] == b[1..][..i - 1]
  {
    forall i | 1 <= i <= |a| && i <= |b| && a[..i] == b[..i]
      ensures a[1..][..i - 1] == b[1..][..i - 1]
    {
      assert a[1..][..i - 1] == a[..i][1..];
      assert b[1..][..i - 1] == b[..i][1..];
    }
  }

  /**
    The derived `Ord for Id`: compares the byte arrays. `Equal` exactly for
    equal identifiers, otherwise the first differing byte decides.
  */
  function Compare(a: Id, b: Id): (o: Ordering)
    ensures o == Equal <==> a == b
    ensures forall i | 0 <= i < ID_BYTES && a.inner[..i] == b.inner[..i] && a.inner[i] != b.inner[i] ::
              o == if a.inner[i] < b.inner[i] then Less else Greater
  {
    CompareBytesEqual(a.inner, b.inner);
    forall i | 0 <= i < ID_BYTES && a.inner[..i] == b.inner[..i] && a.inner[i] != b.inner[i]
      ensures CompareBytes(a.inner, b.inner) == if a.inner[i] < b.inner[i] then Less else Greater
    {
      CompareBytesFirstDifference(a.inner, b.inner, i);
    }
    CompareBytes(a.inner, b.inner)
  }

  /** `Equal` exactly for equal byte strings. */
  lemma {:induction false} CompareBytesEqual(a: seq<byte>, b: seq<byte>)
    ensures CompareBytes(a, b) == Equal <==> a == b
  {
    if a != [] && b != [] && a[0] == b[0] {
      CompareBytesEqual(a[1..], b[1..]);
      assert a == [a[0]] + a[1..] && b == [b[0]] + b[1..];
    }
  }

  /** Swapping the arguments reverses the result. */
  lemma {:induction false} CompareBytesFlip(a: seq<byte>, b: seq<byte>)
    ensures CompareBytes(a, b) == Less <==> CompareBytes(b, a) == Greater
  {
    if a != [] && b != [] && a[0] == b[0] {
      CompareBytesFlip(a[1..], b[1..]);
    }
  }

  /** `Less` is transitive. */
  lemma {:induction false} CompareBytesTransitive(a: seq<byte>, b: seq<byte>, c: seq<byte>)
    requires CompareBytes(a, b) == Less && CompareBytes(b, c) == Less
    ensures CompareBytes(a, c) == Less
  {
    if a != [] && b != [] && c != [] && a[0] == b[0] == c[0] {
      CompareBytesTransitive(a[1..], b[1..], c[1..]);
    }
  }

  /**
    The derived ordering of identifiers is a total order that agrees with
    equality: `Equal` exactly when the identifiers are equal, antisymmetric
    and transitive.
  */
  lemma CompareIsTotalOrder(a: Id, b: Id, c: Id)
    ensures Compare(a, b) == Equal <==> a == b
    ensures Compare(a, b) == Less <==> Compare(b, a) == Greater
    ensures Compare(a, b) == Less && Compare(b, c) == Less ==> Compare(a, c) == Less
  {
    CompareBytesEqual(a.inner, b.inner);
    CompareBytesFlip(a.inner, b.inner);
    if Compare(a, b) == Less && Compare(b, c) == Less {
      CompareBytesTransitive(a.inner, b.inner, c.inner);
    }
  }
}
