# Vertex graph core: identifiers and adjacency tables

A Dafny model of the core of a small Rust graph library (mibmo/graphs). The
library gives every vertex a 4-byte identifier and keeps, per vertex, a table
of directed edges from neighbour identifier to a shared handle on the
neighbour. Two parts are modelled:

- `Ids` (`id.dfy`, after `src/id.rs`): the identifier `Id` as a value wrapping
  exactly `ID_BYTES = 4` bytes, its derived equality and ordering, and its two
  text forms. `Display` writes the bytes as lowercase hexadecimal with no
  separators. `Debug` writes `[xx, xx, xx, xx]`. Both are built on
  `ByteToHex`, which splits a byte into its nibbles (`n >> 4`, `n & 0xF`) and
  turns each into an ASCII digit (code 48 + d for 0..9, 87 + d for 10..15).
  On an unsigned byte the shift is division by 16 and the mask the remainder
  by 16, and the model writes them so. The pure functions are Dafny functions. The `Debug` formatter, a loop that
  writes characters one by one, is the method `DebugFmt`, proved against the
  specification `DebugForm`. The decoders `HexDigitValue`, `HexPairValue` and
  `HexToBytes` are the inverses the round-trip lemmas use.
- `Vertices` (`vertex.dfy`, after `src/vertex.rs`): the class `Vertex<T>`
  (the inner record behind the `Arc<RwLock<..>>`; a Dafny reference is one
  shared handle) with a `const id`, its `value` and `edges: map<Id, Vertex<T>>`.
  `Connect` updates this vertex's map in place, `Link` is two `Connect`s.
  The iterator returned by `edges()` is the class `Edges<T>`, a cursor whose
  `guard` is the map as its read guard holds it. `CollectEdges` drains it.
  The object invariant `Vertex.Valid()` says that every key is the identifier
  of the vertex stored under it and that no key is the vertex's own
  identifier, so no self-loop exists.

`Wrappers` (`wrappers.dfy`) holds the `Option` type that stands for Rust's.

The `assert!` in `connect` panics when both identifiers are equal. Here
`Connect` returns `ok == false` in that case and changes nothing. In `Link` a
panic in the first `connect` means the second never runs.

`Edges::next` in the source refers to a field `values` that the struct does
not have (the field is commented out), so that method cannot compile as
written. The model follows the evident intent: `next` yields one handle per
map entry of the guarded map, each entry once, in no particular order.

## Model

| member | source | states |
|---|---|---|
| `Ids.Id.AsRef` | src/id.rs:37-41 | Wrapping the returned bytes again gives back the same identifier. |
| `Ids.From` | src/id.rs:18-20 | `Id::from(b).as_ref() == b`: the bytes are kept unchanged. |
| `Ids.EqualIffSameBytes` | src/id.rs:7-10 | Derived equality: two identifiers are equal exactly when their byte arrays are. |
| `Ids.Upper` | src/id.rs:69 | The high nibble `n >> 4` is always in 0..=15. |
| `Ids.Lower` | src/id.rs:70 | The low nibble `n & 0xF` is always in 0..=15. |
| `Ids.NibblesRecompose` | src/id.rs:69-70 | The two nibbles recombine to the byte: `16 * upper + lower == n`. |
| `Ids.ToHex` | src/id.rs:73-79 | The `to_hex` closure gives a digit exactly for 0..=15 (every other value is the `unreachable!` arm); the digit is `0`-`9` or `a`-`f` and reads back as the input. |
| `Ids.ByteToHex` | src/id.rs:68-82 | Exactly two lowercase hex digits, high nibble first, reading back as `n`; the `unreachable!` arm is never taken. |
| `Ids.ByteToHexNoUpperCase` | src/id.rs:68-82 | No upper-case letter is ever produced. |
| `Ids.ByteToHexRoundTrip` | src/id.rs:68-82 | Decoding the two digits of `byte_to_hex(n)` gives `n`. |
| `Ids.ByteToHexInjective` | src/id.rs:68-82 | Distinct bytes have distinct digit pairs. |
| `Ids.BytesToHex` | src/id.rs:64-66 | Twice as many characters as bytes, only lowercase hex digits, byte `i`'s two digits at positions `2i` and `2i + 1`. |
| `Ids.BytesToHexRoundTrip` | src/id.rs:64-66 | Decoding the hex string of any byte string gives the bytes back. |
| `Ids.Display` | src/id.rs:58-62 | The `Display` text of an identifier is exactly 8 lowercase hex digits and decodes back to the identifier's bytes. |
| `Ids.DisplayInjective` | src/id.rs:58-62 | Distinct identifiers have distinct `Display` texts. |
| `Ids.DebugFmt` | src/id.rs:43-56 | The formatter loop writes `[`, each byte's digits followed by `", "` except after the last byte, then `]`: exactly `DebugForm` of the bytes. |
| `Ids.DebugFormLayout` | src/id.rs:43-56 | The `Debug` text of `n > 0` bytes has `4n` characters, brackets at both ends, byte `i`'s digits at `4i + 1` and `4i + 2`, and `", "` after every byte but the last. |
| `Ids.DebugAgreesWithDisplay` | src/id.rs:43-62 | For an identifier the `Debug` text has 16 characters and its byte groups are the `Display` digits pair by pair. |
| `Ids.DebugFormOfId` | src/id.rs:43-56 | The `Debug` text of an identifier is `[b0, b1, b2, b3]` with each group the two digits of that byte. |
| `Ids.CompareBytes` | src/id.rs:7 | Derived lexicographic comparison of the byte arrays: a proper prefix comes first. |
| `Ids.CompareBytesFirstDifference` | src/id.rs:7 | The first position where two byte strings differ decides their order. |
| `Ids.Compare` | src/id.rs:7-10 | The derived `Ord` of identifiers: `Equal` exactly for equal identifiers, otherwise the first differing byte decides. |
| `Ids.CompareBytesEqual` | src/id.rs:7 | The derived lexicographic comparison answers `Equal` exactly for equal byte strings. |
| `Ids.CompareBytesFlip` | src/id.rs:7 | Swapping the arguments turns `Less` into `Greater` and back. |
| `Ids.CompareBytesTransitive` | src/id.rs:7 | `Less` is transitive. |
| `Ids.CompareIsTotalOrder` | src/id.rs:7-10 | The derived `Ord` of identifiers is a total order that agrees with equality. |
| `Vertices.Vertex.constructor` | src/vertex.rs:92-98 | A new vertex has the given identifier and value, an empty adjacency map, and satisfies the invariant. |
| `Vertices.Vertex.CopyInner` | src/vertex.rs:66-76 | `copy_inner` / `clone_inner` return the stored value. |
| `Vertices.Vertex.ConnectsTo` | src/vertex.rs:57-59 | Under the invariant, `connects_to(other)` holds exactly when some stored neighbour has `other`'s identifier, and never for the vertex's own identifier. |
| `Vertices.Vertex.ConnectedFrom` | src/vertex.rs:61-63 | `a.connected_from(b)` holds exactly when `b`'s map has an entry for `a`. |
| `Vertices.Vertex.Connect` | src/vertex.rs:48-55 | Fails exactly when the identifiers are equal, and then changes nothing; otherwise the map becomes the old map updated at `other.id` only, `connects_to(other)` and `other.connected_from(self)` hold, the key set gains `other.id` (no new key when already connected), the invariant is kept, `other` is unchanged, and only this vertex's `edges` is in the frame, so its identifier and value stay as they were. |
| `Vertices.Vertex.Link` | src/vertex.rs:42-45 | Fails exactly when the identifiers are equal, changing nothing; otherwise each map is updated at the other's identifier only, and both directions connect. |
| `Vertices.Vertex.Edges` | src/vertex.rs:36-39 | A new iterator over this vertex's current map with every entry still to come. |
| `Vertices.Edges.FromGuard` | src/vertex.rs:119-123 | The iterator starts with every key of the guarded map pending and nothing yielded. |
| `Vertices.Edges.Next` | src/vertex.rs:129-131 | `None` exactly when every entry has been yielded; otherwise a handle on one not-yet-yielded entry, the record stored under its own identifier, which is then no longer pending. |
| `Vertices.Vertex.CollectEdges` | src/vertex.rs:126-131 | Draining `edges()` yields one handle per map entry: as many handles as entries, each the record stored under its identifier, no identifier twice, every entry reached. |
| `Vertices.ConnectScenario` | src/vertex.rs:48-59 | After `a.connect(b)` with distinct identifiers, `a` has one edge and connects to `b`; `b` has none and does not connect to `a`. |
| `Vertices.LinkConnectScenario` | src/vertex.rs:42-55 | After `a.link(b)` and `b.connect(c)` with distinct identifiers, the edge counts are 1, 2 and 0. |

## Left out

- Vertices.Vertex.Connect: on equal identifiers the source's `assert!` panics and unwinds the calling thread; the model instead returns `ok == false`, with nothing changed, and the caller carries on.
- Vertices.Vertex.Link: when the first `connect` panics the source unwinds the calling thread before the second runs; the model returns `ok == false`, with neither map changed, and the caller carries on.
- Random identifier generation (`Id::new`, `Id::from_seed`, `Id::from_rng`, src/id.rs:13-34): the bytes come from a random number generator; identifiers are parameters of the `Vertex` constructor instead.
- Identifier collisions: nothing in the source prevents two vertices from drawing the same identifier; the scenario methods assume distinct identifiers, as the source's callers do.
- `Vertex::id` (src/vertex.rs:32-34): the identifier is the `const` field `id`, read directly; being a `const`, no method can write it.
- `Arc`, `RwLock`, lock guards and lock poisoning: each method runs as if it held its lock. The `Edges` iterator's read guard is modelled only by its `guard` being a snapshot of the map that cannot change under it.
- Reference counts and the cycles that mutual edges create: Dafny references are garbage collected.
- `fmt::Result` and `Formatter` error propagation: formatting is pure string construction.
- `Debug` for `Vertex` and `Inner` (src/vertex.rs:78-83, 101-111): it lists the map's keys in hash order; not modelled.
- Derived `Hash` and `Clone`/`Copy` of `Id` and `Vertex`: Dafny values are immutable and references are copied freely.
- `Vertices.Vertex.CopyInner` models `copy_inner` and `clone_inner` together: a clone of a Dafny value is the value itself.
- src/main.rs, the demonstration driver, is not part of this model.
