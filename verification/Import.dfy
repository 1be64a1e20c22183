/** dd_shared_import_value: the recursive copy of a Perl data graph. */
module SharedImport {
  import opened Wrappers
  import opened PerlData
  import opened SharedStore

  datatype Entry = Entry(source: Addr, node: NodeId)

  /** The import map: pairwise distinct sources, and exactly what `table` knows. */
  ghost predicate MapOk(entries: seq<Entry>, table: map<Addr, NodeId>) {
    && (forall k :: 0 <= k < |entries| ==> entries[k].source in table && table[entries[k].source] == entries[k].node)
    && (forall j, k :: 0 <= j < k < |entries| ==> entries[j].source != entries[k].source)
    && (forall a :: a in table ==> exists k :: 0 <= k < |entries| && entries[k].source == a)
  }

  lemma MapAdd(entries: seq<Entry>, table: map<Addr, NodeId>, source: Addr, node: NodeId)
    requires MapOk(entries, table) && source !in table
    ensures MapOk(entries + [Entry(source, node)], table[source := node])
  {
    var entries', table' := entries + [Entry(source, node)], table[source := node];
    forall a | a in table' ensures exists k :: 0 <= k < |entries'| && entries'[k].source == a {
      if a == source {
        assert entries'[|entries|].source == a;
      } else {
        var k :| 0 <= k < |entries| && entries[k].source == a;
        assert entries'[k].source == a;
      }
    }
  }

  ghost predicate Bad(heap: Heap, v: Value) {
    exists b :: b in heap && Reaches(heap, v, b) && !Supported(heap[b])
  }

  lemma BadThrough(heap: Heap, a: Addr, i: nat)
    requires a in heap && SlotValue(heap, a, i).Some? && Bad(heap, SlotValue(heap, a, i).value)
    ensures Bad(heap, Ref(a))
  {
    var b :| b in heap && Reaches(heap, SlotValue(heap, a, i).value, b) && !Supported(heap[b]);
    ReachesThrough(heap, a, i, b);
  }

  lemma FewerLeft(heap: Heap, st: Store, st': Store, open: Option<NodeId>)
    requires Grows(st, st', open)
    ensures |heap.Keys - st'.table.Keys| <= |heap.Keys - st.table.Keys|
    ensures (exists a :: a in heap && a in st'.table && a !in st.table) ==>
      |heap.Keys - st'.table.Keys| < |heap.Keys - st.table.Keys|
  {
    var rest, rest' := heap.Keys - st.table.Keys, heap.Keys - st'.table.Keys;
    assert rest == rest' + (rest * st'.table.Keys);
    if a :| a in heap && a in st'.table && a !in st.table {
      assert a in rest * st'.table.Keys;
    }
  }

  class Importer {
    const heap: Heap
    var nodes: seq<Node>
    var entries: seq<Entry>       // dd_shared_import_map, searched from the front
    ghost var origin: seq<Origin>
    ghost var table: map<Addr, NodeId>
    ghost var done: set<Addr>

    ghost function View(): Store
      reads this
    {
      Store(nodes, origin, table, done)
    }

    ghost predicate Valid()
      reads this
    {
      Ok(heap, View()) && MapOk(entries, table)
    }

    /** Start with the nodes that exist already and an empty map. */
    constructor (heap: Heap, nodes: seq<Node>)
      ensures Valid() && this.heap == heap && this.nodes == nodes && table == map[] && done == {}
    {
      this.heap, this.nodes, entries := heap, nodes, [];
      origin, table, done := seq(|nodes|, _ => Root), map[], {};
    }

    method Find(source: Addr) returns (node: Option<NodeId>)
      requires MapOk(entries, table)
      ensures node == if source in table then Some(table[source]) else None
    {
      for k := 0 to |entries|
        invariant forall j :: 0 <= j < k ==> entries[j].source != source
      {
        if entries[k].source == source { return Some(entries[k].node); }
      }
      return None;
    }

    method Add(source: Addr, node: NodeId)
      requires Valid() && source in heap && source !in table
      requires node < |nodes| && origin[node] == Of(source)
      modifies this`entries, this`table
      ensures Valid() && View() == old(View()).(table := old(table)[source := node])
      ensures |heap.Keys - table.Keys| < |heap.Keys - old(table).Keys|
    {
      RegisterOk(heap, View(), source, node);
      FewerLeft(heap, View(), View().(table := table[source := node]), None);
      MapAdd(entries, table, source, node);
      entries := entries + [Entry(source, node)];
      table := table[source := node];
    }

    /** The destination node of an import: the preferred one or a new one, cleared.  A
        preferred node is given only with an empty map. */
    method Take(preferred: Option<NodeId>, ghost what: Origin) returns (node: NodeId)
      requires Valid() && (preferred.Some? ==> preferred.value < |nodes| && table == map[])
      modifies this`nodes, this`origin
      ensures Valid() && Grows(old(View()), View(), preferred)
      ensures table == old(table) && done == old(done)
      ensures node < |nodes| && nodes[node] == CLEARED && origin[node] == what
      ensures if preferred.Some? then node == preferred.value else
        node == |old(nodes)| && View() == old(View()).(nodes := old(nodes) + [CLEARED], origin := old(origin) + [what])
    {
      if preferred.Some? {
        node := preferred.value;
        nodes := nodes[node := CLEARED];
        origin := origin[node := what];
      } else {
        AllocOk(heap, View(), CLEARED, what);
        node := |nodes|;
        nodes := nodes + [CLEARED];
        origin := origin + [what];
      }
    }

    /** dd_shared_import_value.  The referents not yet registered are the measure, so it
        ends on every finite heap, cyclic or not. */
    method ImportValue(v: Value, preferred: Option<NodeId>, ghost slot: Origin) returns (r: Option<NodeId>)
      requires Valid() && Closed(heap) && InHeap(heap, v) && !slot.Of?
      requires preferred.Some? ==> preferred.value < |nodes| && table == map[]
      modifies this
      ensures Valid() && Grows(old(View()), View(), preferred)
      ensures r.Some? ==>
        && Child(View(), v, r.value, slot) && Imported(heap, old(View()), View(), v, {})
        && (preferred.Some? ==> r == preferred)
      ensures r.None? ==> Bad(heap, v)
      decreases |heap.Keys - table.Keys|, 1
    {
      if v.Plain? {
        ghost var was := View();
        var node := Take(preferred, slot);
        nodes := nodes[node := ScalarNode(v.s)];
        if preferred.None? {
          AllocOk(heap, was, ScalarNode(v.s), slot);
          assert nodes == was.nodes + [ScalarNode(v.s)];
        }
        return Some(node);
      }
      r := Find(v.a);
      if r.None? {
        ReachesSelf(heap, v.a);
        var node := Take(preferred, Of(v.a));
        if Supported(heap[v.a]) {
          r := ImportReferent(v.a, node);
        }
      }
    }

    /** A referent met for the first time is registered before its contents are visited. */
    method ImportReferent(a: Addr, node: NodeId) returns (r: Option<NodeId>)
      requires Valid() && Closed(heap) && a in heap && a !in table && Supported(heap[a])
      requires node < |nodes| && nodes[node] == CLEARED && origin[node] == Of(a)
      modifies this
      ensures Valid() && Grows(old(View()), View(), Some(node))
      ensures r.Some? ==>
        r == Some(node) && Child(View(), Ref(a), node, Root) && Imported(heap, old(View()), View(), Ref(a), {})
      ensures r.None? ==> Bad(heap, Ref(a))
      decreases |heap.Keys - table.Keys|, 0
    {
      ghost var was := View();
      Add(a, node);
      r := ImportContents(a, node, was);
    }

    method ImportContents(a: Addr, node: NodeId, ghost was: Store) returns (r: Option<NodeId>)
      requires Valid() && Closed(heap) && a in heap && Supported(heap[a])
      requires Ok(heap, was) && a !in was.table && View() == was.(table := was.table[a := node])
      requires node < |nodes| && nodes[node] == CLEARED && origin[node] == Of(a)
      modifies this
      ensures Valid() && Grows(was, View(), Some(node))
      ensures r.Some? ==>
        r == Some(node) && Child(View(), Ref(a), node, Root) && Imported(heap, was, View(), Ref(a), {})
      ensures r.None? ==> Bad(heap, Ref(a))
      decreases |heap.Keys - table.Keys|, 5
    {
      r := CopyContents(a, node);
      ReferentGrows(heap, was, a, node, View());
      if r.Some? {
        ReferentDone(heap, was, a, node, View());
        done := done + {a};
      }
    }

    method CopyContents(a: Addr, node: NodeId) returns (r: Option<NodeId>)
      requires Valid() && Closed(heap) && a in table && a !in done && table[a] == node && nodes[node] == CLEARED
      requires Supported(heap[a])
      modifies this
      ensures Valid() && Grows(old(View()), View(), Some(node)) && a !in done
      ensures r.Some? ==>
        && r == Some(node) && Matches(heap, View(), a) && Imported(heap, old(View()), View(), Ref(a), {a})
      ensures r.None? ==> Bad(heap, Ref(a))
      decreases |heap.Keys - table.Keys|, 4
    {
      match heap[a]
      case Hash(_, _) => r := ImportHash(a, node);
      case Array(_, _) => r := ImportArray(a, node);
      case Cell(_, _) => r := ImportTarget(a, node);
      case Regexp(c, pattern) => r := FillText(a, node, KRegexp, pattern, ClassOf(c));
      case Format(package, name) => r := FillText(a, node, KFormat, package.value + "::" + name.value, None);
    }

    /** A regular expression or format: a leaf with text. */
    method FillText(a: Addr, node: NodeId, kind: Kind, text: string, class_: Option<string>) returns (r: Option<NodeId>)
      requires Valid() && a in table && a !in done && table[a] == node && nodes[node] == CLEARED
      requires match heap[a]
               case Regexp(c, p) => kind == KRegexp && text == p && class_ == ClassOf(c)
               case Format(p, f) =>
                 kind == KFormat && p.Some? && f.Some? && text == p.value + "::" + f.value && class_.None?
               case _ => false
      modifies this`nodes
      ensures Valid() && Grows(old(View()), View(), Some(node)) && a !in done
      ensures r == Some(node) && Matches(heap, View(), a) && Imported(heap, old(View()), View(), Ref(a), {a})
    {
      FillOk(heap, View(), a, CLEARED.(kind := kind, pv := text, class_ := class_));
      nodes := nodes[node := nodes[node].(kind := kind, pv := text, class_ := class_)];
      return Some(node);
    }

    /** The entries of hash `a`, whose node has just been registered and cleared. */
    method ImportHash(a: Addr, node: NodeId) returns (r: Option<NodeId>)
      requires Valid() && Closed(heap) && a in table && a !in done && table[a] == node && nodes[node] == CLEARED
      requires heap[a].Hash?
      modifies this
      ensures Valid() && Grows(old(View()), View(), Some(node)) && a !in done
      ensures r.Some? ==>
        && r == Some(node) && Matches(heap, View(), a) && Imported(heap, old(View()), View(), Ref(a), {a})
      ensures r.None? ==> Bad(heap, Ref(a))
      decreases |heap.Keys - table.Keys|, 3
    {
      ghost var was := View();
      HashStart(heap, was, a);
      nodes := nodes[node := nodes[node].(kind := KHash, class_ := ClassOf(heap[a].class_))];
      for i := 0 to |heap[a].entries|
        invariant MapOk(entries, table) && HashUpTo(heap, was, View(), a, i)
      {
        FewerLeft(heap, was, View(), Some(node));
        var ok := ImportEntry(a, node, i, was);
        if !ok { return None; }
      }
      HashEnd(heap, was, View(), a);
      return Some(node);
    }

    /** One entry: the key is copied, the value imported. */
    method ImportEntry(a: Addr, node: NodeId, i: nat, ghost was: Store) returns (ok: bool)
      requires MapOk(entries, table) && Closed(heap) && HashUpTo(heap, was, View(), a, i) && table[a] == node
      requires i < |heap[a].entries|
      modifies this
      ensures MapOk(entries, table)
      ensures ok ==> HashUpTo(heap, was, View(), a, i + 1)
      ensures !ok ==> Ok(heap, View()) && Grows(was, View(), Some(node)) && a !in done && Bad(heap, Ref(a))
      decreases |heap.Keys - table.Keys|, 2
    {
      ghost var st := View();
      var (key, cell) := heap[a].entries[i];
      var value := Content(heap, cell);
      assert SlotValue(heap, a, i) == Some(value);
      var child := ImportValue(value, None, Slot(a, i));
      if child.None? {
        BadThrough(heap, a, i);
        GrowsOn(was, st, View(), Some(node), None);
        return false;
      }
      HashNext(heap, was, st, View(), a, i, child.value);
      nodes := nodes[node := nodes[node].(entries := nodes[node].entries + [(key, child.value)])];
      return true;
    }

    /** The elements of array `a`; a hole stays a hole. */
    method ImportArray(a: Addr, node: NodeId) returns (r: Option<NodeId>)
      requires Valid() && Closed(heap) && a in table && a !in done && table[a] == node && nodes[node] == CLEARED
      requires heap[a].Array?
      modifies this
      ensures Valid() && Grows(old(View()), View(), Some(node)) && a !in done
      ensures r.Some? ==>
        && r == Some(node) && Matches(heap, View(), a) && Imported(heap, old(View()), View(), Ref(a), {a})
      ensures r.None? ==> Bad(heap, Ref(a))
      decreases |heap.Keys - table.Keys|, 3
    {
      ghost var was := View();
      var size := |heap[a].items|;
      ArrayStart(heap, was, a);
      nodes := nodes[node := nodes[node].(
        kind := KArray, class_ := ClassOf(heap[a].class_), items := seq(size, _ => None))];
      for i := 0 to size
        invariant MapOk(entries, table) && ArrayUpTo(heap, was, View(), a, i)
      {
        if heap[a].items[i].Some? {
          FewerLeft(heap, was, View(), Some(node));
          var ok := ImportItem(a, node, i, was);
          if !ok { return None; }
        } else {
          ArraySkip(heap, was, View(), a, i);
        }
      }
      ArrayEnd(heap, was, View(), a);
      return Some(node);
    }

    method ImportItem(a: Addr, node: NodeId, i: nat, ghost was: Store) returns (ok: bool)
      requires MapOk(entries, table) && Closed(heap) && ArrayUpTo(heap, was, View(), a, i) && table[a] == node
      requires i < |heap[a].items| && heap[a].items[i].Some?
      modifies this
      ensures MapOk(entries, table)
      ensures ok ==> ArrayUpTo(heap, was, View(), a, i + 1)
      ensures !ok ==> Ok(heap, View()) && Grows(was, View(), Some(node)) && a !in done && Bad(heap, Ref(a))
      decreases |heap.Keys - table.Keys|, 2
    {
      ghost var st := View();
      var value := Content(heap, heap[a].items[i].value);
      assert SlotValue(heap, a, i) == Some(value);
      var child := ImportValue(value, None, Slot(a, i));
      if child.None? {
        BadThrough(heap, a, i);
        GrowsOn(was, st, View(), Some(node), None);
        return false;
      }
      ArrayNext(heap, was, st, View(), a, i, child.value);
      nodes := nodes[node := nodes[node].(items := nodes[node].items[i := child])];
      return true;
    }

    /** The scalar a scalar reference points to. */
    method ImportTarget(a: Addr, node: NodeId) returns (r: Option<NodeId>)
      requires Valid() && Closed(heap) && a in table && a !in done && table[a] == node && nodes[node] == CLEARED
      requires heap[a].Cell?
      modifies this
      ensures Valid() && Grows(old(View()), View(), Some(node)) && a !in done
      ensures r.Some? ==>
        && r == Some(node) && Matches(heap, View(), a) && Imported(heap, old(View()), View(), Ref(a), {a})
      ensures r.None? ==> Bad(heap, Ref(a))
      decreases |heap.Keys - table.Keys|, 2
    {
      ghost var was := View();
      FillOk(heap, was, a, CLEARED.(kind := KScalarRef, class_ := ClassOf(heap[a].class_)));
      nodes := nodes[node := nodes[node].(kind := KScalarRef, class_ := ClassOf(heap[a].class_))];
      ghost var st := View();
      assert SlotValue(heap, a, 0) == Some(heap[a].content);
      FewerLeft(heap, was, st, Some(node));
      var child := ImportValue(heap[a].content, None, Slot(a, 0));
      ghost var st1 := View();
      GrowsOn(was, st, st1, Some(node), None);
      if child.None? {
        BadThrough(heap, a, 0);
        return None;
      }
      ImportedThrough(heap, was, st, st1, a, 0);
      FillOk(heap, st1, a, nodes[node].(target := child));
      nodes := nodes[node := nodes[node].(target := child)];
      GrowsOn(was, st1, View(), Some(node), Some(node));
      ChildKept(st1, View(), Some(node), heap[a].content, child.value, Slot(a, 0));
      return Some(node);
    }
  }
}

/** What a successful import amounts to. */
module ExactCopies {
  import opened Wrappers
  import opened PerlData
  import opened SharedStore
  import opened SharedImport

  /** `st` holds an exact relabelled copy, at node `n`, of all that `v` reaches. */
  ghost predicate ExactCopy(heap: Heap, st: Store, v: Value, n: NodeId) {
    && Shape(heap, st) && Child(st, v, n, Root)
    && (forall a :: a in st.table <==> Reaches(heap, v, a))
    && (forall a :: a in st.table ==> Matches(heap, st, a))
  }

  /** dd_shared_import_into: replace one node of an existing graph.  It fails exactly when
      something that cannot be shared is reachable, and touches no other node. */
  method ImportInto(heap: Heap, nodes: seq<Node>, dest: NodeId, v: Value)
    returns (ok: bool, nodes': seq<Node>, ghost st: Store)
    requires Closed(heap) && InHeap(heap, v) && dest < |nodes|
    ensures ok <==> !Bad(heap, v)
    ensures ok ==> st.nodes == nodes' && ExactCopy(heap, st, v, dest)
    ensures |nodes| <= |nodes'|
    ensures forall n :: 0 <= n < |nodes| && n != dest ==> nodes'[n] == nodes[n]
  {
    var importer := new Importer(heap, nodes);
    ghost var was := importer.View();
    var r := importer.ImportValue(v, Some(dest), Root);
    ok, nodes', st := r.Some?, importer.nodes, importer.View();
    if ok { AllCopied(heap, was, st, v, dest); }
  }

  lemma AllCopied(heap: Heap, was: Store, st: Store, v: Value, n: NodeId)
    requires Closed(heap) && was.table == map[]
    requires Ok(heap, st) && Imported(heap, was, st, v, {}) && Child(st, v, n, Root)
    ensures ExactCopy(heap, st, v, n) && !Bad(heap, v)
  {
    forall a | a in st.table ensures Matches(heap, st, a) { assert a in st.done; }
    assert ClosedSet(heap, st.table.Keys) by {
      forall a, i: nat | a in st.table.Keys && SlotValue(heap, a, i).Some?
        ensures var w := SlotValue(heap, a, i).value; w.Ref? ==> w.a in st.table
      {
        var m := SlotMatches(heap, st, a, i);
      }
    }
    forall a | Reaches(heap, v, a) ensures a in st.table && Supported(heap[a]) {
      assert v.a in st.table.Keys;
      assert a in st.table.Keys;
      assert Matches(heap, st, a);
    }
  }

  /** The node in slot `i` of a node. */
  function NodeSlot(node: Node, i: nat): Option<NodeId> {
    match node.kind
    case KHash => if i < |node.entries| then Some(node.entries[i].1) else None
    case KArray => if i < |node.items| then node.items[i] else None
    case KScalarRef => if i == 0 then node.target else None
    case _ => None
  }

  /** A finished copy has a node in a slot exactly when the referent has a value there. */
  lemma SlotMatches(heap: Heap, st: Store, a: Addr, i: nat) returns (m: Option<NodeId>)
    requires Shape(heap, st) && a in st.table && Matches(heap, st, a)
    ensures m == NodeSlot(st.nodes[st.table[a]], i) && m.Some? == SlotValue(heap, a, i).Some?
    ensures m.Some? ==> Child(st, SlotValue(heap, a, i).value, m.value, Slot(a, i))
  {
    m := NodeSlot(st.nodes[st.table[a]], i);
    if heap[a].Array? && i < |heap[a].items| {
      assert ItemMatches(heap, st, a, i, heap[a].items[i], st.nodes[st.table[a]].items[i]);
    } else if heap[a].Hash? && i < |heap[a].entries| {
      assert EntryMatches(heap, st, a, i, heap[a].entries[i], st.nodes[st.table[a]].entries[i]);
    }
  }

  /** Follow references through the slots named by `path`. */
  function Walk(heap: Heap, v: Value, path: seq<nat>): Option<Value>
    decreases |path|
  {
    if path == [] then Some(v)
    else if v.Plain? || v.a !in heap || SlotValue(heap, v.a, path[0]).None? then None
    else Walk(heap, SlotValue(heap, v.a, path[0]).value, path[1..])
  }

  function NodeWalk(nodes: seq<Node>, n: NodeId, path: seq<nat>): Option<NodeId>
    decreases |path|
  {
    if path == [] then Some(n)
    else if n >= |nodes| || NodeSlot(nodes[n], path[0]).None? then None
    else NodeWalk(nodes, NodeSlot(nodes[n], path[0]).value, path[1..])
  }

  /** The slot in which a walk from `slot` ends. */
  function Landing(heap: Heap, v: Value, slot: Origin, path: seq<nat>): Origin
    requires Walk(heap, v, path).Some?
    decreases |path|
  {
    if path == [] then slot
    else Landing(heap, SlotValue(heap, v.a, path[0]).value, Slot(v.a, path[0]), path[1..])
  }

  lemma {:induction false} WalksAgree(heap: Heap, st: Store, v: Value, n: NodeId, slot: Origin, path: seq<nat>)
    requires Shape(heap, st) && (forall a :: a in st.table ==> Matches(heap, st, a))
    requires Child(st, v, n, slot)
    ensures Walk(heap, v, path).Some? == NodeWalk(st.nodes, n, path).Some?
    ensures Walk(heap, v, path).Some? ==>
      Child(st, Walk(heap, v, path).value, NodeWalk(st.nodes, n, path).value, Landing(heap, v, slot, path))
    decreases |path|
  {
    if path != [] {
      if v.Ref? {
        var m := SlotMatches(heap, st, v.a, path[0]);
        if m.Some? {
          WalksAgree(heap, st, SlotValue(heap, v.a, path[0]).value, m.value, Slot(v.a, path[0]), path[1..]);
        }
      } else {
        assert NodeSlot(ScalarNode(v.s), path[0]).None?;
      }
    }
  }

  // ---- reading nodes

  /** The scalar a node holds, by its type and the payload that goes with it. */
  function ScalarOf(node: Node): Option<Scalar> {
    match node.kind
    case KUndef => Some(Undef)
    case KInt => Some(Integer(node.iv))
    case KNum => Some(Number(node.nv))
    case KText => Some(Text(node.pv, node.utf8))
    case _ => None
  }

  /** A class name as a node keeps it: a missing and an empty one are the same. */
  ghost predicate SameClass(kept: Option<string>, class_: Option<string>) {
    if class_.None? || class_.value == "" then kept.None? else kept == class_
  }

  /** A node reads as a referent: its type, class and text, the keys in their order, the
      length and the holes. */
  ghost predicate ReadsAs(node: Node, r: Referent) {
    match r
    case Hash(c, es) =>
      && node.kind == KHash && SameClass(node.class_, c)
      && |node.entries| == |es| && forall i :: 0 <= i < |es| ==> node.entries[i].0 == es[i].0
    case Array(c, xs) =>
      && node.kind == KArray && SameClass(node.class_, c)
      && |node.items| == |xs| && forall i :: 0 <= i < |xs| ==> (node.items[i].None? <==> xs[i].None?)
    case Cell(c, _) => node.kind == KScalarRef && SameClass(node.class_, c) && node.target.Some?
    case Regexp(c, p) => node.kind == KRegexp && SameClass(node.class_, c) && node.pv == p
    case Format(p, f) =>
      node.kind == KFormat && node.class_.None? && p.Some? && f.Some? && node.pv == p.value + "::" + f.value
    case Unsupported => false
  }

  lemma ScalarReadsBack(s: Scalar)
    ensures ScalarOf(ScalarNode(s)) == Some(s)
  {
  }

  lemma MatchingReadsAs(heap: Heap, st: Store, a: Addr)
    requires Shape(heap, st) && a in st.table && Matches(heap, st, a)
    ensures ReadsAs(st.nodes[st.table[a]], heap[a])
  {
    var node := st.nodes[st.table[a]];
    match heap[a]
    case Hash(_, es) =>
      forall i | 0 <= i < |es| ensures node.entries[i].0 == es[i].0 {
        assert EntryMatches(heap, st, a, i, es[i], node.entries[i]);
      }
    case Array(_, xs) =>
      forall i | 0 <= i < |xs| ensures node.items[i].None? <==> xs[i].None? {
        assert ItemMatches(heap, st, a, i, xs[i], node.items[i]);
      }
    case _ =>
  }

  /** Every walk through the source exists in the copy and the other way round, and ends in a
      node that reads as what it ends in: the scalar, or the referent. */
  lemma CopyLooksTheSame(heap: Heap, st: Store, v: Value, n: NodeId, path: seq<nat>)
    requires ExactCopy(heap, st, v, n)
    ensures Walk(heap, v, path).Some? == NodeWalk(st.nodes, n, path).Some?
    ensures Walk(heap, v, path).Some? ==>
      var w, m := Walk(heap, v, path).value, NodeWalk(st.nodes, n, path).value;
      m < |st.nodes| &&
      match w
      case Plain(s) => ScalarOf(st.nodes[m]) == Some(s) && st.nodes[m].class_.None?
      case Ref(a) => a in heap && a in st.table && st.table[a] == m && ReadsAs(st.nodes[m], heap[a])
  {
    WalksAgree(heap, st, v, n, Root, path);
    if Walk(heap, v, path).Some? {
      match Walk(heap, v, path).value
      case Plain(s) => ScalarReadsBack(s);
      case Ref(a) => MatchingReadsAs(heap, st, a);
    }
  }

  /** A referent of another type, or a format without a package or a name. */
  ghost predicate Unshareable(r: Referent) {
    r.Unsupported? || (r.Format? && (r.package.None? || r.name.None?))
  }

  /** What makes an import fail, said of the heap. */
  lemma BadMeans(heap: Heap, v: Value)
    ensures Bad(heap, v) <==> exists a :: a in heap && Reaches(heap, v, a) && Unshareable(heap[a])
  {
  }

  /** Two walks end in one node exactly when they end in references to one referent, or in
      the very same slot holding a plain scalar.  Which aliases of one cell that keeps is
      settled in module Aliases. */
  lemma SameNodeIffSameThing(heap: Heap, st: Store, v: Value, n: NodeId, p: seq<nat>, q: seq<nat>)
    requires ExactCopy(heap, st, v, n)
    requires Walk(heap, v, p).Some? && Walk(heap, v, q).Some?
    ensures var w, x := Walk(heap, v, p).value, Walk(heap, v, q).value;
            NodeWalk(st.nodes, n, p) == NodeWalk(st.nodes, n, q)
            <==> if w.Ref? && x.Ref? then w.a == x.a
                 else w.Plain? && x.Plain? && Landing(heap, v, Root, p) == Landing(heap, v, Root, q)
  {
    WalksAgree(heap, st, v, n, Root, p);
    WalksAgree(heap, st, v, n, Root, q);
    LandsInSlot(heap, v, Root, p);
    LandsInSlot(heap, v, Root, q);
    var w, x := Walk(heap, v, p).value, Walk(heap, v, q).value;
    if w.Plain? && x.Plain? && Landing(heap, v, Root, p) == Landing(heap, v, Root, q) {
      SameSlotSameNode(heap, st, v, n, p, q);
    }
  }

  lemma {:induction false} LandsInSlot(heap: Heap, v: Value, slot: Origin, path: seq<nat>)
    requires Walk(heap, v, path).Some? && !slot.Of?
    ensures !Landing(heap, v, slot, path).Of?
    decreases |path|
  {
    if path != [] {
      LandsInSlot(heap, SlotValue(heap, v.a, path[0]).value, Slot(v.a, path[0]), path[1..]);
    }
  }

  /** The last step decides: a walk landing in slot (a, i) ends in that slot of a's node. */
  lemma {:induction false} LandsAt(heap: Heap, st: Store, v: Value, n: NodeId, slot: Origin, path: seq<nat>)
    requires Shape(heap, st) && (forall a :: a in st.table ==> Matches(heap, st, a))
    requires Child(st, v, n, slot) && path != [] && Walk(heap, v, path).Some?
    ensures var o := Landing(heap, v, slot, path);
            o.Slot? && o.a in st.table && NodeWalk(st.nodes, n, path) == NodeSlot(st.nodes[st.table[o.a]], o.i)
    decreases |path|
  {
    var m := SlotMatches(heap, st, v.a, path[0]);
    var w := SlotValue(heap, v.a, path[0]).value;
    if |path| > 1 {
      LandsAt(heap, st, w, m.value, Slot(v.a, path[0]), path[1..]);
    }
  }

  lemma SameSlotSameNode(heap: Heap, st: Store, v: Value, n: NodeId, p: seq<nat>, q: seq<nat>)
    requires ExactCopy(heap, st, v, n)
    requires Walk(heap, v, p).Some? && Walk(heap, v, q).Some?
    requires Landing(heap, v, Root, p) == Landing(heap, v, Root, q)
    ensures NodeWalk(st.nodes, n, p) == NodeWalk(st.nodes, n, q)
  {
    if p != [] { LandsAt(heap, st, v, n, Root, p); }
    if q != [] { LandsAt(heap, st, v, n, Root, q); }
  }
}
