/** Perl data as the importer finds it: a heap of referents, possibly shared and cyclic. */
module PerlData {
  import opened Wrappers

  type Addr = nat

  datatype Scalar = Undef | Integer(iv: int) | Number(nv: real) | Text(pv: string, utf8: bool)

  /** A Perl value: a plain scalar, or a reference to something on the heap. */
  datatype Value = Plain(s: Scalar) | Ref(a: Addr)

  /** A scalar is a cell with an address of its own, also where it is an element of a
      container: an element and a reference to it name the same cell. */
  datatype Referent =
    | Hash(class_: Option<string>, entries: seq<(string, Addr)>) // in iteration order
    | Array(class_: Option<string>, items: seq<Option<Addr>>)    // None is a hole
    | Cell(class_: Option<string>, content: Value)
    | Regexp(class_: Option<string>, pattern: string)
    | Format(package: Option<string>, name: Option<string>)
    | Unsupported

  type Heap = map<Addr, Referent>

  /** The cell in slot `i` of a referent: of a hash entry, of an array element, or a scalar
      itself, which is its own only slot. */
  function SlotCell(heap: Heap, a: Addr, i: nat): Option<Addr> {
    if a !in heap then None else
    match heap[a]
    case Hash(_, es) => if i < |es| then Some(es[i].1) else None
    case Array(_, xs) => if i < |xs| then xs[i] else None
    case Cell(_, _) => if i == 0 then Some(a) else None
    case _ => None
  }

  /** What a cell holds; on a closed heap every slot has a cell. */
  function Content(heap: Heap, c: Addr): Value {
    if c in heap && heap[c].Cell? then heap[c].content else Plain(Undef)
  }

  function SlotValue(heap: Heap, a: Addr, i: nat): Option<Value> {
    var c := SlotCell(heap, a, i);
    if c.Some? then Some(Content(heap, c.value)) else None
  }

  ghost predicate InHeap(heap: Heap, v: Value) {
    v.Ref? ==> v.a in heap
  }

  /** Slots have cells, and every reference on the heap points to something on it. */
  ghost predicate Closed(heap: Heap) {
    forall a, i {:trigger SlotCell(heap, a, i)} :: a in heap && 0 <= i && SlotCell(heap, a, i).Some? ==>
      var c := SlotCell(heap, a, i).value;
      c in heap && heap[c].Cell? && InHeap(heap, heap[c].content)
  }

  /** A set of addresses that no reference leads out of. */
  ghost predicate ClosedSet(heap: Heap, xs: set<Addr>) {
    forall a, i {:trigger SlotValue(heap, a, i)} :: a in xs && a in heap && 0 <= i && SlotValue(heap, a, i).Some?
      ==> var v := SlotValue(heap, a, i).value; v.Ref? ==> v.a in xs
  }

  /** Address `a` can be reached from `v`: it is in every closed set `v` leads into. */
  ghost predicate Reaches(heap: Heap, v: Value, a: Addr) {
    v.Ref? && forall xs :: ClosedSet(heap, xs) && v.a in xs ==> a in xs
  }

  /** What share() can copy. */
  predicate Supported(r: Referent) {
    !r.Unsupported? && (r.Format? ==> r.package.Some? && r.name.Some?)
  }

  lemma ReachesSelf(heap: Heap, a: Addr)
    ensures Reaches(heap, Ref(a), a)
  {
  }

  lemma ReachesThrough(heap: Heap, a: Addr, i: nat, b: Addr)
    requires a in heap && SlotValue(heap, a, i).Some?
    requires Reaches(heap, SlotValue(heap, a, i).value, b)
    ensures Reaches(heap, Ref(a), b)
  {
  }
}

/** The C-backed graph (GoRoutineShared.h) with the heap of nodes as an explicit store:
    a node pointer is an index into it. */
module SharedStore {
  import opened Wrappers
  import opened PerlData

  type NodeId = nat

  datatype Kind = KUndef | KInt | KNum | KText | KHash | KArray | KScalarRef | KRegexp | KFormat

  datatype Node = Node(
    kind: Kind, iv: int, nv: real, pv: string, utf8: bool, class_: Option<string>,
    entries: seq<(string, NodeId)>, items: seq<Option<NodeId>>, target: Option<NodeId>)

  /** dd_shared_node_clear, and a newly allocated node. */
  const CLEARED := Node(KUndef, 0, 0.0, "", false, None, [], [], None)

  /** dd_shared_import_scalar on a cleared node. */
  function ScalarNode(s: Scalar): Node {
    match s
    case Undef => CLEARED
    case Integer(i) => CLEARED.(kind := KInt, iv := i)
    case Number(x) => CLEARED.(kind := KNum, nv := x)
    case Text(t, u) => CLEARED.(kind := KText, pv := t, utf8 := u)
  }

  /** dd_shared_set_class ignores a missing and an empty name. */
  function ClassOf(c: Option<string>): Option<string> {
    if c == Some("") then None else c
  }

  /** What a node stands for: the imported value itself, a referent, or the plain scalar
      in one slot of a referent.  It is recorded for the proof only. */
  datatype Origin = Root | Of(a: Addr) | Slot(a: Addr, i: nat)

  /** `done` holds the referents whose copy is finished; those on the recursion stack are
      registered in `table` but not done. */
  datatype Store = Store(nodes: seq<Node>, origin: seq<Origin>, table: map<Addr, NodeId>, done: set<Addr>)

  ghost predicate Shape(heap: Heap, st: Store) {
    && |st.origin| == |st.nodes|
    && (forall a :: a in st.table ==> a in heap && st.table[a] < |st.nodes| && st.origin[st.table[a]] == Of(a))
    && (forall a :: a in st.done ==> a in st.table)
  }

  ghost predicate Ok(heap: Heap, st: Store) {
    Shape(heap, st) && forall b :: b in st.done ==> Matches(heap, st, b)
  }

  /** Node `n` stands for value `v` found in `slot`: a copy of its own for a plain scalar,
      the node of the referent for a reference. */
  ghost predicate Child(st: Store, v: Value, n: NodeId, slot: Origin) {
    && n < |st.nodes| == |st.origin|
    && match v
       case Plain(s) => st.nodes[n] == ScalarNode(s) && st.origin[n] == slot
       case Ref(b) => b in st.table && st.table[b] == n
  }

  ghost predicate EntryMatches(heap: Heap, st: Store, a: Addr, i: nat, e: (string, Addr), n: (string, NodeId)) {
    n.0 == e.0 && Child(st, Content(heap, e.1), n.1, Slot(a, i))
  }

  ghost predicate EntriesMatch(heap: Heap, st: Store, a: Addr, es: seq<(string, Addr)>, ns: seq<(string, NodeId)>) {
    |ns| == |es| && forall i :: 0 <= i < |es| ==> EntryMatches(heap, st, a, i, es[i], ns[i])
  }

  ghost predicate ItemMatches(heap: Heap, st: Store, a: Addr, i: nat, c: Option<Addr>, n: Option<NodeId>) {
    c.Some? == n.Some? && (c.Some? ==> Child(st, Content(heap, c.value), n.value, Slot(a, i)))
  }

  ghost predicate ItemsMatch(heap: Heap, st: Store, a: Addr, xs: seq<Option<Addr>>, ns: seq<Option<NodeId>>) {
    |ns| == |xs| && forall i :: 0 <= i < |xs| ==> ItemMatches(heap, st, a, i, xs[i], ns[i])
  }

  /** The node of referent `a` has its kind, class, text, keys and holes, and a matching
      node in every slot. */
  ghost predicate Matches(heap: Heap, st: Store, a: Addr)
    requires Shape(heap, st) && a in st.table
  {
    var node := st.nodes[st.table[a]];
    match heap[a]
    case Hash(c, es) =>
      && node == CLEARED.(kind := KHash, class_ := ClassOf(c), entries := node.entries)
      && EntriesMatch(heap, st, a, es, node.entries)
    case Array(c, xs) =>
      && node == CLEARED.(kind := KArray, class_ := ClassOf(c), items := node.items)
      && ItemsMatch(heap, st, a, xs, node.items)
    case Cell(c, v) =>
      && node == CLEARED.(kind := KScalarRef, class_ := ClassOf(c), target := node.target)
      && node.target.Some? && Child(st, v, node.target.value, Slot(a, 0))
    case Regexp(c, p) => node == CLEARED.(kind := KRegexp, class_ := ClassOf(c), pv := p)
    case Format(p, f) => p.Some? && f.Some? && node == CLEARED.(kind := KFormat, pv := p.value + "::" + f.value)
    case Unsupported => false
  }

  /** `st'` extends `st`: nodes are added, new referents registered and finished, and no
      node that was there changes, except `open`. */
  ghost predicate Grows(st: Store, st': Store, open: Option<NodeId>) {
    && |st.nodes| == |st.origin| && |st'.nodes| == |st'.origin|
    && |st.nodes| <= |st'.nodes|
    && (forall n :: 0 <= n < |st.nodes| && Some(n) != open ==>
          st'.nodes[n] == st.nodes[n] && st'.origin[n] == st.origin[n])
    && (forall a :: a in st.table ==>
          a in st'.table && st'.table[a] == st.table[a] && (a in st'.done <==> a in st.done))
  }

  lemma GrowsOn(was: Store, st: Store, st': Store, open: Option<NodeId>, more: Option<NodeId>)
    requires Grows(was, st, open) && Grows(st, st', more) 
    requires more.None? || more == open || more.value >= |was.nodes|
    ensures Grows(was, st', open)
  {
  }

  lemma ChildKept(st: Store, st': Store, open: Option<NodeId>, v: Value, n: NodeId, slot: Origin)
    requires Grows(st, st', open) && !slot.Of?
    requires open.Some? ==> open.value < |st.nodes| && st.origin[open.value].Of?
    requires Child(st, v, n, slot)
    ensures Child(st', v, n, slot)
  {
  }

  /** Growing, or changing the node of another referent, keeps the copy of `b`. */
  lemma MatchesKept(heap: Heap, st: Store, st': Store, open: Option<NodeId>, b: Addr)
    requires Shape(heap, st) && Shape(heap, st') && Grows(st, st', open)
    requires open.Some? ==> open.value < |st.nodes| && st.origin[open.value].Of? && st.origin[open.value].a != b
    requires b in st.table && Matches(heap, st, b)
    ensures Matches(heap, st', b)
  {
  }

  lemma MatchesWhateverDone(heap: Heap, st: Store, st': Store, b: Addr)
    requires Shape(heap, st) && Shape(heap, st') && st' == st.(done := st'.done)
    requires b in st.table && Matches(heap, st, b)
    ensures Matches(heap, st', b)
  {
    forall v: Value, n: NodeId, o: Origin ensures Child(st, v, n, o) == Child(st', v, n, o) {}
  }

  /** Adding a node at the end. */
  lemma AllocOk(heap: Heap, st: Store, nd: Node, o: Origin)
    requires Ok(heap, st)
    ensures var st' := st.(nodes := st.nodes + [nd], origin := st.origin + [o]); Ok(heap, st') && Grows(st, st', None)
  {
    var st' := st.(nodes := st.nodes + [nd], origin := st.origin + [o]);
    forall b | b in st'.done ensures Matches(heap, st', b) { MatchesKept(heap, st, st', None, b); }
  }

  /** Registering referent `a`. */
  lemma RegisterOk(heap: Heap, st: Store, a: Addr, n: NodeId)
    requires Ok(heap, st) && a in heap && a !in st.table && n < |st.nodes| && st.origin[n] == Of(a)
    ensures var st' := st.(table := st.table[a := n]); Ok(heap, st') && Grows(st, st', None)
  {
    var st' := st.(table := st.table[a := n]);
    forall b | b in st'.done ensures Matches(heap, st', b) { MatchesKept(heap, st, st', None, b); }
  }

  /** Filling in the node of an unfinished referent. */
  lemma FillOk(heap: Heap, st: Store, a: Addr, nd: Node)
    requires Ok(heap, st) && a in st.table && a !in st.done
    ensures var n := st.table[a]; var st' := st.(nodes := st.nodes[n := nd]);
            Ok(heap, st') && Grows(st, st', Some(n))
  {
    var st' := st.(nodes := st.nodes[st.table[a] := nd]);
    forall b | b in st'.done ensures Matches(heap, st', b) { MatchesKept(heap, st, st', Some(st.table[a]), b); }
  }

  /** Calling a referent finished that was not yet registered in `was`. */
  lemma FinishOk(heap: Heap, was: Store, st: Store, open: Option<NodeId>, a: Addr, v: Value)
    requires Ok(heap, st) && a in st.table && Matches(heap, st, a) && a !in was.table
    requires Grows(was, st, open) && Imported(heap, was, st, v, {a})
    ensures var st' := st.(done := st.done + {a});
            Ok(heap, st') && Grows(was, st', open) && Imported(heap, was, st', v, {})
  {
    var st' := st.(done := st.done + {a});
    forall b | b in st'.done ensures Matches(heap, st', b) {
      MatchesWhateverDone(heap, st, st', b);
    }
  }

  /** What an import of `v` has to have done: everything registered since `was`, apart from
      `open`, is finished, and is reachable from `v`. */
  ghost predicate Imported(heap: Heap, was: Store, st: Store, v: Value, open: set<Addr>) {
    forall b :: b in st.table && b !in was.table ==> (b in st.done || b in open) && Reaches(heap, v, b)
  }

  /** Importing a child serves its parent. */
  lemma ImportedThrough(heap: Heap, was: Store, st: Store, st1: Store, a: Addr, i: nat)
    requires Grows(st, st1, None)
    requires a in heap && SlotValue(heap, a, i).Some?
    requires Imported(heap, was, st, Ref(a), {a}) && Imported(heap, st, st1, SlotValue(heap, a, i).value, {})
    ensures Imported(heap, was, st1, Ref(a), {a})
  {
    forall b | b in st1.table && b !in was.table ensures Reaches(heap, Ref(a), b) && (b in st1.done || b == a) {
      if b !in st.table { ReachesThrough(heap, a, i, b); }
      else { assert b in st.done || b == a; }
    }
  }

  lemma ReferentGrows(heap: Heap, was: Store, a: Addr, n: NodeId, st1: Store)
    requires Ok(heap, was) && a in heap && a !in was.table && n < |was.nodes| && was.origin[n] == Of(a)
    requires Grows(was.(table := was.table[a := n]), st1, Some(n))
    ensures Grows(was, st1, Some(n))
  {
    RegisterOk(heap, was, a, n);
    GrowsOn(was, was.(table := was.table[a := n]), st1, Some(n), Some(n));
  }

  /** Register `a`, copy its contents, call it finished: an import of a reference to it. */
  lemma ReferentDone(heap: Heap, was: Store, a: Addr, n: NodeId, st1: Store)
    requires Ok(heap, was) && a in heap && a !in was.table && n < |was.nodes| && was.origin[n] == Of(a)
    requires var st := was.(table := was.table[a := n]);
             Ok(heap, st1) && Grows(st, st1, Some(n)) && Imported(heap, st, st1, Ref(a), {a}) && Matches(heap, st1, a)
    ensures var st2 := st1.(done := st1.done + {a});
            Ok(heap, st2) && Grows(was, st2, Some(n)) && Imported(heap, was, st2, Ref(a), {})
            && Child(st2, Ref(a), n, Root)
  {
    var st := was.(table := was.table[a := n]);
    ReachesSelf(heap, a);
    RegisterOk(heap, was, a, n);
    GrowsOn(was, st, st1, Some(n), Some(n));
    forall b | b in st1.table && b !in was.table ensures Reaches(heap, Ref(a), b) && (b in st1.done || b == a) {
      assert b == a || (b in st1.table && b !in st.table);
    }
    FinishOk(heap, was, st1, Some(n), a, Ref(a));
  }

  /** What both containers' loops keep about referent `a` under construction. */
  ghost predicate Building(heap: Heap, was: Store, st: Store, a: Addr) {
    && a in was.table && a in st.table && a in heap && a !in was.done && a !in st.done
    && Ok(heap, st) && Grows(was, st, Some(was.table[a])) && Imported(heap, was, st, Ref(a), {a})
  }

  /** A child was imported into slot `i`, and then the node of `a` was filled in further. */
  lemma BuildOn(heap: Heap, was: Store, st: Store, st1: Store, a: Addr, i: nat, nd: Node)
    requires Building(heap, was, st, a) && SlotValue(heap, a, i).Some?
    requires Ok(heap, st1) && Grows(st, st1, None) && Imported(heap, st, st1, SlotValue(heap, a, i).value, {})
    ensures var st2 := st1.(nodes := st1.nodes[st1.table[a] := nd]);
            Building(heap, was, st2, a) && Grows(st1, st2, Some(st1.table[a]))
  {
    var n := st1.table[a];
    FillOk(heap, st1, a, nd);
    ImportedThrough(heap, was, st, st1, a, i);
    GrowsOn(was, st, st1, Some(n), None);
    GrowsOn(was, st1, st1.(nodes := st1.nodes[n := nd]), Some(n), Some(n));
  }

  lemma BuildStart(heap: Heap, was: Store, a: Addr, nd: Node)
    requires Ok(heap, was) && a in was.table && a !in was.done
    ensures Building(heap, was, was.(nodes := was.nodes[was.table[a] := nd]), a)
  {
    FillOk(heap, was, a, nd);
  }

  /** How far the copy of hash `a` has come after `i` entries. */
  ghost predicate HashUpTo(heap: Heap, was: Store, st: Store, a: Addr, i: nat) {
    && Building(heap, was, st, a) && heap[a].Hash? && i <= |heap[a].entries|
    && var node := st.nodes[st.table[a]];
       && node == CLEARED.(kind := KHash, class_ := ClassOf(heap[a].class_), entries := node.entries)
       && |node.entries| == i
       && (forall j :: 0 <= j < i ==> EntryMatches(heap, st, a, j, heap[a].entries[j], node.entries[j]))
  }

  lemma HashStart(heap: Heap, was: Store, a: Addr)
    requires Ok(heap, was) && a in was.table && a !in was.done && heap[a].Hash? && was.nodes[was.table[a]] == CLEARED
    ensures var nd := CLEARED.(kind := KHash, class_ := ClassOf(heap[a].class_));
            HashUpTo(heap, was, was.(nodes := was.nodes[was.table[a] := nd]), a, 0)
  {
    BuildStart(heap, was, a, CLEARED.(kind := KHash, class_ := ClassOf(heap[a].class_)));
  }

  lemma HashEnd(heap: Heap, was: Store, st: Store, a: Addr)
    requires a in heap && heap[a].Hash? && HashUpTo(heap, was, st, a, |heap[a].entries|)
    ensures Ok(heap, st) && Grows(was, st, Some(was.table[a])) && a !in st.done
    ensures Matches(heap, st, a) && Imported(heap, was, st, Ref(a), {a})
  {
  }

  lemma HashNext(heap: Heap, was: Store, st: Store, st1: Store, a: Addr, i: nat, child: NodeId)
    requires HashUpTo(heap, was, st, a, i) && i < |heap[a].entries|
    requires Ok(heap, st1) && Grows(st, st1, None)
    requires Imported(heap, st, st1, Content(heap, heap[a].entries[i].1), {})
    requires Child(st1, Content(heap, heap[a].entries[i].1), child, Slot(a, i))
    ensures var node := st1.nodes[st1.table[a]];
            var nd := node.(entries := node.entries + [(heap[a].entries[i].0, child)]);
            HashUpTo(heap, was, st1.(nodes := st1.nodes[st1.table[a] := nd]), a, i + 1)
  {
    var es, n := heap[a].entries, st1.table[a];
    var node := st1.nodes[n];
    var node' := node.(entries := node.entries + [(es[i].0, child)]);
    var st2 := st1.(nodes := st1.nodes[n := node']);
    BuildOn(heap, was, st, st1, a, i, node');
    EntriesNext(heap, st, st1, st2, a, es, node.entries, child, n);
  }

  lemma EntriesNext(heap: Heap, st: Store, st1: Store, st2: Store, a: Addr,
                    es: seq<(string, Addr)>, ns: seq<(string, NodeId)>, child: NodeId, n: NodeId)
    requires Grows(st, st1, None) && Grows(st1, st2, Some(n)) && n < |st1.nodes| && st1.origin[n].Of?
    requires |ns| < |es| && forall j :: 0 <= j < |ns| ==> EntryMatches(heap, st, a, j, es[j], ns[j])
    requires Child(st1, Content(heap, es[|ns|].1), child, Slot(a, |ns|))
    ensures var ns' := ns + [(es[|ns|].0, child)];
            forall j :: 0 <= j < |ns'| ==> EntryMatches(heap, st2, a, j, es[j], ns'[j])
  {
    var ns' := ns + [(es[|ns|].0, child)];
    forall j | 0 <= j < |ns'| ensures EntryMatches(heap, st2, a, j, es[j], ns'[j]) {
      if j < |ns| {
        assert ns'[j] == ns[j] && EntryMatches(heap, st, a, j, es[j], ns[j]);
        ChildKept(st, st1, None, Content(heap, es[j].1), ns[j].1, Slot(a, j));
      }
      ChildKept(st1, st2, Some(n), Content(heap, es[j].1), ns'[j].1, Slot(a, j));
    }
  }

  /** How far the copy of array `a` has come after `i` elements. */
  ghost predicate ArrayUpTo(heap: Heap, was: Store, st: Store, a: Addr, i: nat) {
    && Building(heap, was, st, a) && heap[a].Array? && i <= |heap[a].items|
    && var node := st.nodes[st.table[a]];
       && node == CLEARED.(kind := KArray, class_ := ClassOf(heap[a].class_), items := node.items)
       && |node.items| == |heap[a].items|
       && (forall j :: 0 <= j < i ==> ItemMatches(heap, st, a, j, heap[a].items[j], node.items[j]))
       && (forall j :: i <= j < |node.items| ==> node.items[j] == None)
  }

  lemma ArrayStart(heap: Heap, was: Store, a: Addr)
    requires Ok(heap, was) && a in was.table && a !in was.done && heap[a].Array? && was.nodes[was.table[a]] == CLEARED
    ensures var nd := CLEARED.(kind := KArray, class_ := ClassOf(heap[a].class_),
                               items := seq(|heap[a].items|, _ => None));
            ArrayUpTo(heap, was, was.(nodes := was.nodes[was.table[a] := nd]), a, 0)
  {
    var nd := CLEARED.(kind := KArray, class_ := ClassOf(heap[a].class_), items := seq(|heap[a].items|, _ => None));
    BuildStart(heap, was, a, nd);
  }

  lemma ArrayEnd(heap: Heap, was: Store, st: Store, a: Addr)
    requires a in heap && heap[a].Array? && ArrayUpTo(heap, was, st, a, |heap[a].items|)
    ensures Ok(heap, st) && Grows(was, st, Some(was.table[a])) && a !in st.done
    ensures Matches(heap, st, a) && Imported(heap, was, st, Ref(a), {a})
  {
  }

  /** A hole takes no work. */
  lemma ArraySkip(heap: Heap, was: Store, st: Store, a: Addr, i: nat)
    requires ArrayUpTo(heap, was, st, a, i) && i < |heap[a].items| && heap[a].items[i].None?
    ensures ArrayUpTo(heap, was, st, a, i + 1)
  {
  }

  lemma ArrayNext(heap: Heap, was: Store, st: Store, st1: Store, a: Addr, i: nat, child: NodeId)
    requires ArrayUpTo(heap, was, st, a, i) && i < |heap[a].items| && heap[a].items[i].Some?
    requires Ok(heap, st1) && Grows(st, st1, None)
    requires Imported(heap, st, st1, Content(heap, heap[a].items[i].value), {})
    requires Child(st1, Content(heap, heap[a].items[i].value), child, Slot(a, i))
    ensures var node := st1.nodes[st1.table[a]];
            i < |node.items| &&
            var nd := node.(items := node.items[i := Some(child)]);
            ArrayUpTo(heap, was, st1.(nodes := st1.nodes[st1.table[a] := nd]), a, i + 1)
  {
    var xs, n := heap[a].items, st1.table[a];
    var node := st1.nodes[n];
    var node' := node.(items := node.items[i := Some(child)]);
    var st2 := st1.(nodes := st1.nodes[n := node']);
    BuildOn(heap, was, st, st1, a, i, node');
    forall j | 0 <= j < i + 1 ensures ItemMatches(heap, st2, a, j, xs[j], node'.items[j]) {
      if xs[j].Some? {
        if j < i {
          assert ItemMatches(heap, st, a, j, xs[j], node.items[j]);
          ChildKept(st, st1, None, Content(heap, xs[j].value), node.items[j].value, Slot(a, j));
        }
        ChildKept(st1, st2, Some(n), Content(heap, xs[j].value), node'.items[j].value, Slot(a, j));
      } else {
        assert ItemMatches(heap, st, a, j, xs[j], node.items[j]);
      }
    }
  }
}
