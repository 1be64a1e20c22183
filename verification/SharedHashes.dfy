/** Shared hashes: entries in insertion order, looked up by the bytes of their keys. */
module SharedHashSpec {
  import opened Wrappers
  import opened Bytes

  type Key = seq<Byte>

  datatype Entry<N> = Entry(key: Key, node: N)

  ghost predicate Distinct<N>(es: seq<Entry<N>>) {
    forall i, j :: 0 <= i < j < |es| ==> es[i].key != es[j].key
  }

  /** The first entry with a key; their number if there is none. */
  function Index<N>(es: seq<Entry<N>>, key: Key): (i: nat)
    ensures i <= |es|
  {
    if es == [] || es[0].key == key then 0 else 1 + Index(es[1..], key)
  }

  function Lookup<N>(es: seq<Entry<N>>, key: Key): Option<N> {
    var i := Index(es, key);
    if i < |es| then Some(es[i].node) else None
  }

  /** Replace the node under a key, or add an entry at the end. */
  function Store<N>(es: seq<Entry<N>>, key: Key, node: N): seq<Entry<N>> {
    var i := Index(es, key);
    if i < |es| then es[i := es[i].(node := node)] else es + [Entry(key, node)]
  }

  /** The node under a key, put there if there is none. */
  function Ensure<N>(es: seq<Entry<N>>, key: Key, spare: N): (seq<Entry<N>>, N) {
    var i := Index(es, key);
    if i < |es| then (es, es[i].node) else (es + [Entry(key, spare)], spare)
  }

  function Delete<N>(es: seq<Entry<N>>, key: Key): (seq<Entry<N>>, Option<N>) {
    var i := Index(es, key);
    if i < |es| then (es[..i] + es[i + 1..], Some(es[i].node)) else (es, None)
  }

  function Keys<N>(es: seq<Entry<N>>): (ks: seq<Key>)
    ensures |ks| == |es| && forall i :: 0 <= i < |es| ==> ks[i] == es[i].key
  {
    seq(|es|, i requires 0 <= i < |es| => es[i].key)
  }
}

/** A shared hash is a map from keys to nodes whose keys keep the order they came in. */
module OrderedMaps {
  import opened Wrappers
  import opened Bytes
  import opened SharedHashSpec

  /** The map; with distinct keys the order of the entries does not matter for it. */
  ghost function AsMap<N>(es: seq<Entry<N>>): (m: map<Key, N>) {
    if es == [] then map[] else AsMap(es[1..])[es[0].key := es[0].node]
  }

  lemma {:induction false} IndexIs<N>(es: seq<Entry<N>>, key: Key)
    ensures var i := Index(es, key);
      (forall j :: 0 <= j < i ==> es[j].key != key) && (i < |es| ==> es[i].key == key)
  {
    if es != [] && es[0].key != key {
      IndexIs(es[1..], key);
      forall j | 0 <= j < Index(es, key) ensures es[j].key != key {
        if j > 0 { assert es[j] == es[1..][j - 1]; }
      }
    }
  }

  lemma IndexUnique<N>(es: seq<Entry<N>>, key: Key, i: nat)
    requires i <= |es| && (forall j :: 0 <= j < i ==> es[j].key != key) && (i < |es| ==> es[i].key == key)
    ensures Index(es, key) == i
  {
    IndexIs(es, key);
  }

  lemma {:induction false} AsMapIs<N>(es: seq<Entry<N>>)
    ensures forall k :: k in AsMap(es) <==> Index(es, k) < |es|
    ensures forall k :: k in AsMap(es) ==> AsMap(es)[k] == es[Index(es, k)].node
  {
    if es != [] { AsMapIs(es[1..]); }
  }

  /** Looking up an entry is looking it up in the map. */
  lemma LookupIs<N>(es: seq<Entry<N>>, key: Key)
    ensures Lookup(es, key) == if key in AsMap(es) then Some(AsMap(es)[key]) else None
  {
    AsMapIs(es);
  }

  lemma StoreIndex<N>(es: seq<Entry<N>>, key: Key, node: N, k: Key)
    ensures Index(Store(es, key, node), k) ==
      if k == key || Index(es, k) < |es| then Index(es, k) else |Store(es, key, node)|
  {
    IndexIs(es, key);
    IndexIs(es, k);
    var after := Store(es, key, node);
    IndexUnique(after, k, if k == key || Index(es, k) < |es| then Index(es, k) else |after|);
  }

  lemma StoreLooksUp<N>(es: seq<Entry<N>>, key: Key, node: N, k: Key)
    ensures Lookup(Store(es, key, node), k) == if k == key then Some(node) else Lookup(es, k)
  {
    IndexIs(es, key);
    IndexIs(es, k);
    StoreIndex(es, key, node, k);
  }

  lemma StoreKeepsOrder<N>(es: seq<Entry<N>>, key: Key, node: N)
    requires Distinct(es)
    ensures Distinct(Store(es, key, node))
    ensures Keys(Store(es, key, node)) == if Lookup(es, key).Some? then Keys(es) else Keys(es) + [key]
  {
    IndexIs(es, key);
  }

  /** A map is what looking up finds. */
  lemma MapFromLookups<N>(es: seq<Entry<N>>, m: map<Key, N>)
    requires forall k :: Lookup(es, k) == if k in m then Some(m[k]) else None
    ensures AsMap(es) == m
  {
    forall k ensures (k in AsMap(es) <==> k in m) && (k in m ==> AsMap(es)[k] == m[k]) {
      LookupIs(es, k);
    }
  }

  /** Storing updates the map at one key, keeps the keys distinct and in order, and puts a
      new key last. */
  lemma StoreUpdates<N>(es: seq<Entry<N>>, key: Key, node: N)
    requires Distinct(es)
    ensures Distinct(Store(es, key, node)) && AsMap(Store(es, key, node)) == AsMap(es)[key := node]
    ensures Keys(Store(es, key, node)) == if key in AsMap(es) then Keys(es) else Keys(es) + [key]
  {
    StoreKeepsOrder(es, key, node);
    var m := AsMap(es)[key := node];
    forall k ensures Lookup(Store(es, key, node), k) == if k in m then Some(m[k]) else None {
      StoreLooksUp(es, key, node, k);
      LookupIs(es, k);
    }
    MapFromLookups(Store(es, key, node), m);
    LookupIs(es, key);
  }

  /** Ensuring a key is storing what is already there, or else the spare node. */
  lemma EnsureIsStore<N>(es: seq<Entry<N>>, key: Key, spare: N)
    ensures var node := if Lookup(es, key).Some? then Lookup(es, key).value else spare;
      Ensure(es, key, spare) == (Store(es, key, node), node)
  {
    var i := Index(es, key);
    if i < |es| { assert es[i := es[i]] == es; }
  }

  lemma DeleteIndex<N>(es: seq<Entry<N>>, key: Key, k: Key)
    requires Distinct(es) && Index(es, key) < |es|
    ensures var after := Delete(es, key).0; var i := Index(es, k);
      Index(after, k) == if k == key then |after| else if i > Index(es, key) then i - 1 else i
  {
    IndexIs(es, key);
    IndexIs(es, k);
    var d, i := Index(es, key), Index(es, k);
    var after := Delete(es, key).0;
    assert forall j :: 0 <= j < |after| ==> after[j] == if j < d then es[j] else es[j + 1];
    IndexUnique(after, k, if k == key then |after| else if i > d then i - 1 else i);
  }

  lemma DeleteLooksUp<N>(es: seq<Entry<N>>, key: Key, k: Key)
    requires Distinct(es)
    ensures Lookup(Delete(es, key).0, k) == if k == key then None else Lookup(es, k)
  {
    IndexIs(es, key);
    IndexIs(es, k);
    if Index(es, key) < |es| { DeleteIndex(es, key, k); }
  }

  lemma DeleteKeepsOrder<N>(es: seq<Entry<N>>, key: Key)
    requires Distinct(es)
    ensures var after := Delete(es, key).0; var i := Index(es, key);
      Distinct(after) && Keys(after) == if i < |es| then Keys(es)[..i] + Keys(es)[i + 1..] else Keys(es)
  {
    var d := Index(es, key);
    if d < |es| {
      WithoutIsDistinct(es, d);
      KeysWithout(es, d);
    }
  }

  lemma KeysWithout<N>(es: seq<Entry<N>>, d: nat)
    requires d < |es|
    ensures Keys(es[..d] + es[d + 1..]) == Keys(es)[..d] + Keys(es)[d + 1..]
  {
  }

  lemma WithoutIsDistinct<N>(es: seq<Entry<N>>, d: nat)
    requires Distinct(es) && d < |es|
    ensures Distinct(es[..d] + es[d + 1..])
  {
    var after := es[..d] + es[d + 1..];
    assert forall j :: 0 <= j < |after| ==> after[j] == if j < d then es[j] else es[j + 1];
  }

  /** Deleting removes one key from the map and from the order, and returns its node. */
  lemma DeleteRemoves<N>(es: seq<Entry<N>>, key: Key)
    requires Distinct(es)
    ensures var (after, was) := Delete(es, key); var i := Index(es, key);
      && Distinct(after) && AsMap(after) == AsMap(es) - {key} && was == Lookup(es, key)
      && Keys(after) == if i < |es| then Keys(es)[..i] + Keys(es)[i + 1..] else Keys(es)
  {
    DeleteKeepsOrder(es, key);
    var m := AsMap(es) - {key};
    forall k ensures Lookup(Delete(es, key).0, k) == if k in m then Some(m[k]) else None {
      DeleteLooksUp(es, key, k);
      LookupIs(es, k);
    }
    MapFromLookups(Delete(es, key).0, m);
  }

  // ---- whole runs

  datatype Op<N> = Put(key: Key, node: N) | Make(key: Key, spare: N) | Drop(key: Key) | Clear

  function Apply<N>(es: seq<Entry<N>>, op: Op<N>): seq<Entry<N>> {
    match op
    case Put(key, node) => Store(es, key, node)
    case Make(key, spare) => Ensure(es, key, spare).0
    case Drop(key) => Delete(es, key).0
    case Clear => []
  }

  ghost function Meaning<N>(m: map<Key, N>, op: Op<N>): map<Key, N> {
    match op
    case Put(key, node) => m[key := node]
    case Make(key, spare) => if key in m then m else m[key := spare]
    case Drop(key) => m - {key}
    case Clear => map[]
  }

  function Run<N>(es: seq<Entry<N>>, ops: seq<Op<N>>): seq<Entry<N>>
    decreases |ops|
  {
    if ops == [] then es else Run(Apply(es, ops[0]), ops[1..])
  }

  ghost function MeaningOfRun<N>(m: map<Key, N>, ops: seq<Op<N>>): map<Key, N>
    decreases |ops|
  {
    if ops == [] then m else MeaningOfRun(Meaning(m, ops[0]), ops[1..])
  }

  lemma OpMeans<N>(es: seq<Entry<N>>, op: Op<N>)
    requires Distinct(es)
    ensures Distinct(Apply(es, op)) && AsMap(Apply(es, op)) == Meaning(AsMap(es), op)
  {
    match op
    case Put(key, node) => StoreUpdates(es, key, node);
    case Make(key, spare) =>
      EnsureIsStore(es, key, spare);
      LookupIs(es, key);
      if key !in AsMap(es) { StoreUpdates(es, key, spare); }
    case Drop(key) => DeleteRemoves(es, key);
    case Clear =>
  }

  /** Any run of operations means what it does to the map, and keys stay distinct. */
  lemma {:induction false} RunMeans<N>(es: seq<Entry<N>>, ops: seq<Op<N>>)
    requires Distinct(es)
    ensures Distinct(Run(es, ops)) && AsMap(Run(es, ops)) == MeaningOfRun(AsMap(es), ops)
    decreases |ops|
  {
    if ops != [] {
      OpMeans(es, ops[0]);
      RunMeans(Apply(es, ops[0]), ops[1..]);
    }
  }
}

/** The operations in place. */
module SharedHashNative {
  import opened Wrappers
  import opened Bytes
  import opened SharedHashSpec
  import opened OrderedMaps
  import SharedArraySpec

  /** The entries in a run of used slots. */
  ghost function Used<N>(slots: seq<Option<Entry<N>>>): (es: seq<Entry<N>>)
    requires forall i :: 0 <= i < |slots| ==> slots[i].Some?
    ensures |es| == |slots| && forall i :: 0 <= i < |es| ==> slots[i] == Some(es[i])
  {
    seq(|slots|, i requires 0 <= i < |slots| => slots[i].value)
  }

  lemma UsedWithout<N>(slots: seq<Option<Entry<N>>>, rest: seq<Option<Entry<N>>>, index: nat)
    requires index < |slots| && rest == slots[..index] + slots[index + 1..]
    requires forall i :: 0 <= i < |slots| ==> slots[i].Some?
    ensures forall i :: 0 <= i < |rest| ==> rest[i].Some?
    ensures Used(rest) == Used(slots)[..index] + Used(slots)[index + 1..]
  {
  }

  class SharedHash<N> {
    var entries: array<Option<Entry<N>>>
    var count: nat

    ghost predicate Valid() reads this, entries {
      count <= entries.Length && forall i :: 0 <= i < count ==> entries[i].Some?
    }

    ghost function View(): (es: seq<Entry<N>>)
      reads this, entries
      requires Valid()
      ensures |es| == count && forall i :: 0 <= i < count ==> entries[i] == Some(es[i])
    {
      Used(entries[..count])
    }

    constructor ()
      ensures Valid() && fresh(entries) && View() == []
    {
      entries := new Option<Entry<N>>[0];
      count := 0;
    }

    method Reserve(need: nat)
      requires Valid()
      modifies this`entries
      ensures Valid() && (entries == old(entries) || fresh(entries)) && View() == old(View())
      ensures entries.Length == SharedArraySpec.Grown(old(entries.Length), need)
    {
      if need <= entries.Length { return; }
      var cap := if entries.Length != 0 then entries.Length * 2 else 8;
      while cap < need
        invariant cap > 0 && cap >= entries.Length
        invariant SharedArraySpec.Doubled(cap, need) == SharedArraySpec.Grown(entries.Length, need)
        decreases need - cap
      {
        cap := cap * 2;
      }
      var larger := new Option<Entry<N>>[cap](i => None);
      for i := 0 to entries.Length
        invariant entries == old(entries)
        invariant forall k :: 0 <= k < i ==> larger[k] == entries[k]
      {
        larger[i] := entries[i];
      }
      entries := larger;
    }

    /** The index of a key, or -1. */
    method Find(key: Key) returns (index: int)
      requires Valid()
      ensures index == if Index(View(), key) < count then Index(View(), key) else -1
    {
      for i := 0 to count
        invariant forall j :: 0 <= j < i ==> View()[j].key != key
      {
        if entries[i].value.key == key {
          IndexUnique(View(), key, i);
          return i;
        }
      }
      IndexUnique(View(), key, count);
      index := -1;
    }

    method Get(key: Key) returns (node: Option<N>)
      requires Valid()
      ensures node == Lookup(View(), key)
    {
      var index := Find(key);
      node := if index >= 0 then Some(entries[index].value.node) else None;
    }

    method Append(key: Key, node: N)
      requires Valid()
      modifies this, entries
      ensures Valid() && (entries == old(entries) || fresh(entries)) && View() == old(View()) + [Entry(key, node)]
    {
      Reserve(count + 1);
      entries[count] := Some(Entry(key, node));
      count := count + 1;
    }

    method Store(key: Key, node: N)
      requires Valid()
      modifies this, entries
      ensures Valid() && (entries == old(entries) || fresh(entries))
      ensures View() == SharedHashSpec.Store(old(View()), key, node)
    {
      var index := Find(key);
      if index >= 0 {
        entries[index] := Some(Entry(entries[index].value.key, node));
      } else {
        Append(key, node);
      }
    }

    method Ensure(key: Key, spare: N) returns (node: N)
      requires Valid()
      modifies this, entries
      ensures Valid() && (entries == old(entries) || fresh(entries))
      ensures View() == SharedHashSpec.Ensure(old(View()), key, spare).0
      ensures node == SharedHashSpec.Ensure(old(View()), key, spare).1
    {
      var index := Find(key);
      if index >= 0 { return entries[index].value.node; }
      Append(key, spare);
      node := spare;
    }

    method Delete(key: Key) returns (was: Option<N>)
      requires Valid()
      modifies this`count, entries
      ensures Valid()
      ensures View() == SharedHashSpec.Delete(old(View()), key).0
      ensures was == SharedHashSpec.Delete(old(View()), key).1
    {
      was := None;
      var index := Find(key);
      if index >= 0 {
        was := Some(entries[index].value.node);
        RemoveAt(index);
      }
    }

    method RemoveAt(index: nat)
      requires Valid() && index < count
      modifies this`count, entries
      ensures Valid() && View() == old(View())[..index] + old(View())[index + 1..]
    {
      ghost var slots := entries[..count];
      MoveDown(index);
      count := count - 1;
      UsedWithout(slots, entries[..count], index);
    }

    /** Later entries move one place down. */
    method MoveDown(index: nat)
      requires index < count <= entries.Length
      modifies entries
      ensures entries[..count - 1] == old(entries[..index] + entries[index + 1..count])
    {
      ghost var all := entries[..];
      for i := index + 1 to count
        invariant forall k :: 0 <= k < index ==> entries[k] == all[k]
        invariant forall k :: index <= k < i - 1 ==> entries[k] == all[k + 1]
        invariant forall k :: i - 1 <= k < |all| ==> entries[k] == all[k]
      {
        entries[i - 1] := entries[i];
      }
    }

    method Clear()
      requires Valid()
      modifies this
      ensures Valid() && fresh(entries) && View() == []
    {
      entries := new Option<Entry<N>>[0];
      count := 0;
    }

    method KeyList() returns (keys: seq<Key>)
      requires Valid()
      ensures keys == Keys(View())
    {
      keys := [];
      for i := 0 to count
        invariant keys == Keys(View())[..i]
      {
        keys := keys + [entries[i].value.key];
      }
    }
  }
}
