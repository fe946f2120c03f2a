/**
  Vertices and their adjacency tables (src/vertex.rs).

  A Rust `Vertex<T>` is a shared handle (`Arc<RwLock<Inner<T>>>`) to one inner
  record holding the vertex's identifier, its value and a map from neighbour
  identifier to a shared handle on the neighbour's record. Here a Dafny object
  reference plays the part of the shared handle, so the class `Vertex` is the
  inner record and every reference to it is one handle. Locking is not modelled:
  every method runs as if it held the lock it takes.
*/
module Vertices {

  import opened Wrappers
  import opened Ids

  class Vertex<T> {
    /** The identifier, fixed at construction: being a `const`, nothing can write it. */
    const id: Id
    /** The stored value; no operation of the vertex changes it. */
    var value: T
    /** Directed edges: neighbour identifier to the neighbour's record. */
    var edges: map<Id, Vertex<T>>

    /**
      The adjacency invariant: every key is the identifier of the vertex stored
      under it, and no key is this vertex's own identifier (no self-loop).
    */
    ghost predicate Valid()
      reads this
    {
      forall k | k in edges :: edges[k].id == k && k != id
    }

    /**
      `Vertex::new` with `Inner::new`: a fresh record holding `value` and no
      edges. The random identifier `Id::new()` draws is a parameter here.
    */
    constructor (id: Id, value: T)
      ensures Valid()
      ensures this.id == id && this.value == value && edges == map[]
    {
      this.id := id;
      this.value := value;
      edges := map[];
    }

    /** `copy_inner` / `clone_inner`: the stored value. */
    function CopyInner(): (v: T)
      reads this
      ensures v == value
    {
      value
    }

    /**
      `connects_to`: whether this vertex's map has an entry under `other`'s
      identifier. Under the invariant that is the same as having a neighbour
      with `other`'s identifier, and it never holds of this vertex's own one.
    */
    predicate ConnectsTo(other: Vertex<T>)
      reads this
      ensures Valid() ==> (ConnectsTo(other) <==> exists k | k in edges :: edges[k].id == other.id)
      ensures Valid() && ConnectsTo(other) ==> other.id != id
    {
      other.id in edges
    }

    /** `connected_from`: `other` has an edge to this vertex. */
    predicate ConnectedFrom(other: Vertex<T>)
      reads other
      ensures ConnectedFrom(other) <==> id in other.edges
    {
      other.ConnectsTo(this)
    }

    /**
      `connect`: `assert!` that the identifiers differ, then insert (or replace)
      the entry for `other` in this vertex's map only. A failed assertion is a
      panic; here it is `ok == false`, and nothing has changed.
    */
    method Connect(other: Vertex<T>) returns (ok: bool)
      requires Valid()
      modifies this`edges
      ensures Valid()
      ensures ok <==> id != other.id
      ensures !ok ==> edges == old(edges)
      ensures ok ==> edges == old(edges)[other.id := other]
      ensures ok ==> ConnectsTo(other) && other.ConnectedFrom(this)
      ensures ok ==> edges.Keys == old(edges.Keys) + {other.id}
      ensures ok ==> |edges| == |old(edges)| + (if old(ConnectsTo(other)) then 0 else 1)
      ensures other != this ==> unchanged(other)
    {
      if id == other.id {
        return false;
      }
      edges := edges[other.id := other];
      ok := true;
    }

    /**
      `link`: `self.connect(other)` then `other.connect(self)`. When the first
      call panics the second never runs.
    */
    method Link(other: Vertex<T>) returns (ok: bool)
      requires Valid() && other.Valid()
      modifies this`edges, other`edges
      ensures Valid() && other.Valid()
      ensures ok <==> id != other.id
      ensures !ok ==> edges == old(edges) && other.edges == old(other.edges)
      ensures ok ==> edges == old(edges)[other.id := other]
      ensures ok ==> other.edges == old(other.edges)[id := this]
      ensures ok ==> ConnectsTo(other) && other.ConnectsTo(this)
    {
      ok := Connect(other);
      if ok {
        var back := other.Connect(this);
      }
    }

    /**
      `edges`: an iterator over this vertex's neighbours. It holds the read
      guard, so it sees the map as it is now for its whole life.
    */
    method Edges() returns (it: Edges<T>)
      requires Valid()
      ensures fresh(it) && it.Valid()
      ensures it.guard == edges && it.pending == edges.Keys && it.yielded == []
    {
      it := new Edges.FromGuard(edges);
    }

    /**
      Draining `edges()`: one handle per map entry, each the record stored under
      its own identifier, no identifier twice, and every entry reached. So the
      number of handles (`edges().count()`) is the size of the map.
    */
    method CollectEdges() returns (vs: seq<Vertex<T>>)
      requires Valid()
      ensures |vs| == |edges|
      ensures forall i | 0 <= i < |vs| :: vs[i].id in edges && edges[vs[i].id] == vs[i]
      ensures forall i, j | 0 <= i < j < |vs| :: vs[i].id != vs[j].id
      ensures forall k | k in edges :: edges[k] in vs
    {
      var it := Edges();
      vs := [];
      while true
        invariant it.Valid() && it.guard == edges && vs == it.yielded
        decreases |it.pending|
      {
        var next := it.Next();
        match next
        case None =>
          break;
        case Some(v) =>
          vs := vs + [v];
      }
    }
  }

  /**
    The `Edges` iterator: a cursor over the adjacency map of one vertex, held
    under that vertex's read guard, yielding one handle per entry in no
    particular order.
  */
  class Edges<T> {
    /** The map as seen through the read guard; it cannot change under the iterator. */
    const guard: map<Id, Vertex<T>>
    /** Identifiers whose handles have not been yielded yet. */
    var pending: set<Id>
    /** The handles yielded so far, in order. */
    ghost var yielded: seq<Vertex<T>>

    /**
      Every entry of the guarded map is either still pending or has been
      yielded exactly once, as the handle stored under its identifier.
    */
    ghost predicate Valid()
      reads this
    {
      && pending <= guard.Keys
      && (forall k | k in guard :: guard[k].id == k)
      && |yielded| + |pending| == |guard|
      && (forall i | 0 <= i < |yielded| ::
            yielded[i].id in guard && guard[yielded[i].id] == yielded[i] && yielded[i].id !in pending)
      && (forall i, j | 0 <= i < j < |yielded| :: yielded[i].id != yielded[j].id)
      && (forall k | k in guard && k !in pending :: guard[k] in yielded)
    }

    /** `Edges::from_guard`: nothing yielded yet. */
    constructor FromGuard(guard: map<Id, Vertex<T>>)
      requires forall k | k in guard :: guard[k].id == k
      ensures Valid()
      ensures this.guard == guard && pending == guard.Keys && yielded == []
    {
      this.guard := guard;
      pending := guard.Keys;
      yielded := [];
    }

    /**
      `Iterator::next`: a handle on one entry not yet yielded, or `None` once
      every entry has been.
    */
    method Next() returns (r: Option<Vertex<T>>)
      requires Valid()
      modifies this`pending, this`yielded
      ensures Valid()
      ensures r.None? <==> old(pending) == {}
      ensures r.None? ==> pending == old(pending) && yielded == old(yielded)
      ensures r.Some? ==> r.value.id in old(pending) && r.value == guard[r.value.id]
      ensures r.Some? ==> pending == old(pending) - {r.value.id} && yielded == old(yielded) + [r.value]
    {
      if pending == {} {
        return None;
      }
      var k :| k in pending;
      pending := pending - {k};
      yielded := yielded + [guard[k]];
      r := Some(guard[k]);
    }
  }

  /**
    `A.connect(B)` on two new vertices with distinct identifiers: `A` has one
    edge and connects to `B`, `B` has none and does not connect to `A`.
  */
  method ConnectScenario<T>(ia: Id, a: T, ib: Id, b: T) returns (countA: nat, countB: nat, aToB: bool, bToA: bool)
    requires ia != ib
    ensures countA == 1 && countB == 0 && aToB && !bToA
  {
    var va := new Vertex(ia, a);
    var vb := new Vertex(ib, b);
    var ok := va.Connect(vb);
    var ea := va.CollectEdges();
    var eb := vb.CollectEdges();
    countA, countB := |ea|, |eb|;
    aToB, bToA := va.ConnectsTo(vb), vb.ConnectsTo(va);
  }

  /**
    `A.link(B)` then `B.connect(C)` on three new vertices with distinct
    identifiers: `A` has one edge, `B` two and `C` none.
  */
  method LinkConnectScenario<T>(ia: Id, a: T, ib: Id, b: T, ic: Id, c: T) returns (countA: nat, countB: nat, countC: nat)
    requires ia != ib && ib != ic && ia != ic
    ensures countA == 1 && countB == 2 && countC == 0
  {
    var va := new Vertex(ia, a);
    var vb := new Vertex(ib, b);
    var vc := new Vertex(ic, c);
    var linked := va.Link(vb);
    var ok := vb.Connect(vc);
    var ea := va.CollectEdges();
    var eb := vb.CollectEdges();
    var ec := vc.CollectEdges();
    countA, countB, countC := |ea|, |eb|, |ec|;
  }
}
