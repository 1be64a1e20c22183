/** Which aliases of one Perl scalar survive an import.  The importer registers a scalar
    only when it meets a reference to it and reads an element through its content alone, so
    the occurrences of one cell are copied one by one. */
module Aliases {
  import opened Wrappers
  import opened PerlData
  import opened SharedStore
  import opened SharedImport
  import opened ExactCopies

  /** The cell a walk of at least one step ends in. */
  function CellAt(heap: Heap, v: Value, path: seq<nat>): Option<Addr>
    requires Walk(heap, v, path).Some?
  {
    var o := Landing(heap, v, Root, path);
    if o.Slot? then SlotCell(heap, o.a, o.i) else None
  }

  lemma {:induction false} LandsInCell(heap: Heap, v: Value, slot: Origin, path: seq<nat>)
    requires path != [] && Walk(heap, v, path).Some?
    ensures var o := Landing(heap, v, slot, path);
      o.Slot? && SlotCell(heap, o.a, o.i).Some? && Walk(heap, v, path) == SlotValue(heap, o.a, o.i)
    decreases |path|
  {
    if |path| > 1 {
      LandsInCell(heap, SlotValue(heap, v.a, path[0]).value, Slot(v.a, path[0]), path[1..]);
    }
  }

  /** Two walks of at least one step that end in one cell. */
  ghost predicate OneCell(heap: Heap, v: Value, p: seq<nat>, q: seq<nat>) {
    && p != [] && q != [] && Walk(heap, v, p).Some? && Walk(heap, v, q).Some?
    && CellAt(heap, v, p) == CellAt(heap, v, q)
  }

  /** Two occurrences of one cell share a node exactly if it holds a reference or they are
      the same slot of the same referent. */
  lemma OccurrencesShareIff(heap: Heap, st: Store, v: Value, n: NodeId, p: seq<nat>, q: seq<nat>)
    requires ExactCopy(heap, st, v, n) && OneCell(heap, v, p, q)
    ensures NodeWalk(st.nodes, n, p) == NodeWalk(st.nodes, n, q) <==>
      Walk(heap, v, p).value.Ref? || Landing(heap, v, Root, p) == Landing(heap, v, Root, q)
  {
    LandsInCell(heap, v, Root, p);
    LandsInCell(heap, v, Root, q);
    SameNodeIffSameThing(heap, st, v, n, p, q);
  }

  /** Two different cells share a node exactly if both hold references to one referent. */
  lemma CellsMergeIff(heap: Heap, st: Store, v: Value, n: NodeId, p: seq<nat>, q: seq<nat>)
    requires ExactCopy(heap, st, v, n) && p != [] && q != []
    requires Walk(heap, v, p).Some? && Walk(heap, v, q).Some? && CellAt(heap, v, p) != CellAt(heap, v, q)
    ensures var w, x := Walk(heap, v, p).value, Walk(heap, v, q).value;
      NodeWalk(st.nodes, n, p) == NodeWalk(st.nodes, n, q) <==> w.Ref? && w == x
  {
    LandsInCell(heap, v, Root, p);
    LandsInCell(heap, v, Root, q);
    SameNodeIffSameThing(heap, st, v, n, p, q);
  }

  // ---- a condition on the heap

  lemma {:induction false} WalkOn(heap: Heap, v: Value, slot: Origin, path: seq<nat>, i: nat)
    requires Walk(heap, v, path).Some? && Walk(heap, v, path).value.Ref?
    requires SlotValue(heap, Walk(heap, v, path).value.a, i).Some?
    ensures var a := Walk(heap, v, path).value.a;
      && Walk(heap, v, path + [i]) == SlotValue(heap, a, i)
      && Landing(heap, v, slot, path + [i]) == Slot(a, i)
    decreases |path|
  {
    if path == [] {
      assert path + [i] == [i] && [i][1..] == [];
    } else {
      assert (path + [i])[0] == path[0] && (path + [i])[1..] == path[1..] + [i];
      WalkOn(heap, SlotValue(heap, v.a, path[0]).value, Slot(v.a, path[0]), path[1..], i);
    }
  }

  ghost predicate WalkedTo(heap: Heap, v: Value, a: Addr) {
    exists path :: Walk(heap, v, path) == Some(Ref(a))
  }

  /** What is reachable can be walked to. */
  lemma ReachedByWalk(heap: Heap, v: Value, a: Addr)
    requires Closed(heap) && InHeap(heap, v) && Reaches(heap, v, a)
    ensures WalkedTo(heap, v, a)
  {
    var xs := set x | x in heap.Keys && WalkedTo(heap, v, x);
    assert Walk(heap, v, []) == Some(v);
    assert v.a in xs;
    forall x, i: nat | x in xs && x in heap && SlotValue(heap, x, i).Some?
      ensures var w := SlotValue(heap, x, i).value; w.Ref? ==> w.a in xs
    {
      var path :| Walk(heap, v, path) == Some(Ref(x));
      WalkOn(heap, v, Root, path, i);
      assert SlotCell(heap, x, i).Some?;
      assert Walk(heap, v, path + [i]) == Some(SlotValue(heap, x, i).value);
    }
    assert ClosedSet(heap, xs);
  }

  /** No reachable cell that holds a plain scalar stands in two reachable slots. */
  ghost predicate PlainCellsApart(heap: Heap, v: Value) {
    forall a, i, b, j {:trigger SlotCell(heap, a, i), SlotCell(heap, b, j)} ::
      0 <= i && 0 <= j && Reaches(heap, v, a) && Reaches(heap, v, b) && SlotCell(heap, a, i).Some?
      && SlotCell(heap, a, i) == SlotCell(heap, b, j) && Content(heap, SlotCell(heap, a, i).value).Plain?
      ==> a == b && i == j
  }

  /** All occurrences of every cell share a node. */
  ghost predicate AliasesKept(heap: Heap, nodes: seq<Node>, v: Value, n: NodeId) {
    forall p, q :: OneCell(heap, v, p, q) ==> NodeWalk(nodes, n, p) == NodeWalk(nodes, n, q)
  }

  /** An import keeps every alias exactly if no plain cell stands in two reachable slots. */
  lemma AliasesKeptIff(heap: Heap, st: Store, v: Value, n: NodeId)
    requires Closed(heap) && InHeap(heap, v) && ExactCopy(heap, st, v, n)
    ensures AliasesKept(heap, st.nodes, v, n) <==> PlainCellsApart(heap, v)
  {
    if PlainCellsApart(heap, v) {
      forall p, q | OneCell(heap, v, p, q) ensures NodeWalk(st.nodes, n, p) == NodeWalk(st.nodes, n, q) {
        ApartKeeps(heap, st, v, n, p, q);
      }
    }
    if AliasesKept(heap, st.nodes, v, n) {
      forall a, i, b, j | 0 <= i && 0 <= j && Reaches(heap, v, a) && Reaches(heap, v, b)
        && SlotCell(heap, a, i).Some? && SlotCell(heap, a, i) == SlotCell(heap, b, j)
        && Content(heap, SlotCell(heap, a, i).value).Plain?
        ensures a == b && i == j
      {
        KeptApart(heap, st, v, n, a, i, b, j);
      }
    }
  }

  lemma ApartKeeps(heap: Heap, st: Store, v: Value, n: NodeId, p: seq<nat>, q: seq<nat>)
    requires ExactCopy(heap, st, v, n) && PlainCellsApart(heap, v) && OneCell(heap, v, p, q)
    ensures NodeWalk(st.nodes, n, p) == NodeWalk(st.nodes, n, q)
  {
    LandsInCell(heap, v, Root, p);
    LandsReachably(heap, st, v, n, p);
    LandsReachably(heap, st, v, n, q);
    OccurrencesShareIff(heap, st, v, n, p, q);
  }

  lemma KeptApart(heap: Heap, st: Store, v: Value, n: NodeId, a: Addr, i: nat, b: Addr, j: nat)
    requires Closed(heap) && InHeap(heap, v) && ExactCopy(heap, st, v, n) && AliasesKept(heap, st.nodes, v, n)
    requires Reaches(heap, v, a) && Reaches(heap, v, b) && SlotCell(heap, a, i).Some?
    requires SlotCell(heap, a, i) == SlotCell(heap, b, j) && Content(heap, SlotCell(heap, a, i).value).Plain?
    ensures a == b && i == j
  {
    var p := WalkToSlot(heap, v, a, i);
    var q := WalkToSlot(heap, v, b, j);
    LandsInCell(heap, v, Root, p);
    assert OneCell(heap, v, p, q);
    OccurrencesShareIff(heap, st, v, n, p, q);
  }

  lemma LandsReachably(heap: Heap, st: Store, v: Value, n: NodeId, p: seq<nat>)
    requires ExactCopy(heap, st, v, n) && p != [] && Walk(heap, v, p).Some?
    ensures var o := Landing(heap, v, Root, p); o.Slot? && Reaches(heap, v, o.a) && SlotCell(heap, o.a, o.i).Some?
  {
    LandsInCell(heap, v, Root, p);
    LandsAt(heap, st, v, n, Root, p);
  }

  lemma WalkToSlot(heap: Heap, v: Value, a: Addr, i: nat) returns (p: seq<nat>)
    requires Closed(heap) && InHeap(heap, v) && Reaches(heap, v, a) && SlotCell(heap, a, i).Some?
    ensures p != [] && Walk(heap, v, p).Some? && Landing(heap, v, Root, p) == Slot(a, i)
  {
    ReachedByWalk(heap, v, a);
    var path :| Walk(heap, v, path) == Some(Ref(a));
    WalkOn(heap, v, Root, path, i);
    p := path + [i];
  }

  // ---- an element and a reference to it

  /** The heap of [\@a, \$a[0]] with one scalar `s` in @a. */
  function ElementAndReference(s: Scalar): Heap {
    map[0 := Array(None, [Some(1), Some(2)]), 1 := Cell(None, Ref(3)), 2 := Cell(None, Ref(4)),
        3 := Array(None, [Some(4)]), 4 := Cell(None, Plain(s))]
  }

  /** It imports, but the element and the target of the reference, one cell, become two
      nodes. */
  lemma ElementAliasLost(s: Scalar, st: Store, n: NodeId)
    requires ExactCopy(ElementAndReference(s), st, Ref(0), n)
    ensures var heap := ElementAndReference(s);
      && Closed(heap) && !Bad(heap, Ref(0)) && OneCell(heap, Ref(0), [0, 0], [1, 0])
      && NodeWalk(st.nodes, n, [0, 0]) != NodeWalk(st.nodes, n, [1, 0])
  {
    ElementHeapIsFine(s);
    ElementOccursTwice(s);
    OccurrencesShareIff(ElementAndReference(s), st, Ref(0), n, [0, 0], [1, 0]);
  }

  lemma ElementHeapIsFine(s: Scalar)
    ensures Closed(ElementAndReference(s)) && !Bad(ElementAndReference(s), Ref(0))
  {
  }

  lemma ElementOccursTwice(s: Scalar)
    ensures var heap := ElementAndReference(s);
      && OneCell(heap, Ref(0), [0, 0], [1, 0]) && Walk(heap, Ref(0), [0, 0]) == Some(Plain(s))
      && Landing(heap, Ref(0), Root, [0, 0]) == Slot(3, 0) && Landing(heap, Ref(0), Root, [1, 0]) == Slot(4, 0)
  {
    var heap := ElementAndReference(s);
    assert heap[0].items[0] == Some(1) && heap[0].items[1] == Some(2);
    TwoSteps(heap, 0, 0, 3);
    TwoSteps(heap, 0, 1, 4);
  }

  /** A walk through slot `i` of `a`, which refers to `b`, into slot 0 of that. */
  lemma TwoSteps(heap: Heap, a: Addr, i: nat, b: Addr)
    requires a in heap && SlotValue(heap, a, i) == Some(Ref(b)) && b in heap && SlotValue(heap, b, 0).Some?
    ensures Walk(heap, Ref(a), [i, 0]) == SlotValue(heap, b, 0)
    ensures Landing(heap, Ref(a), Root, [i, 0]) == Slot(b, 0)
  {
    assert [i, 0][1..] == [0] && [0][1..] == [];
  }
}
