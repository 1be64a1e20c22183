/** Shared arrays as values: a block of slots, some past the array's size, and every
    operation on them. */
module SharedArraySpec {
  import opened Wrappers

  /** `None` in a slot is a null pointer: a hole, or a slot that was never used. */
  datatype Arr<N> = Arr(slots: seq<Option<N>>, size: nat)

  ghost predicate Fits<N>(a: Arr<N>) { a.size <= |a.slots| }

  function Empty<N>(): Arr<N> { Arr([], 0) }

  function Holes<N>(n: nat): (s: seq<Option<N>>)
    ensures |s| == n && forall i :: 0 <= i < n ==> s[i] == None
  {
    seq(n, i => None)
  }

  /** The first of cap, 2 cap, 4 cap ... that suffices. */
  function Doubled(cap: nat, need: nat): (c: nat)
    requires cap > 0
    ensures c >= need && c >= cap
    decreases need - cap
  {
    if cap >= need then cap else Doubled(cap * 2, need)
  }

  function Grown(capacity: nat, need: nat): (c: nat)
    ensures c >= need && c >= capacity
  {
    if need <= capacity then capacity else Doubled(if capacity != 0 then capacity * 2 else 8, need)
  }

  function Reserve<N>(a: Arr<N>, need: nat): (b: Arr<N>)
    ensures |b.slots| >= need && |b.slots| >= |a.slots| && b.size == a.size
  {
    a.(slots := a.slots + Holes(Grown(|a.slots|, need) - |a.slots|))
  }

  datatype Op<N> =
    | Store(at: nat, node: N)
    | Ensure(at: nat, spare: N)
    | Delete(index: int)
    | Push(node: N)
    | Unshift(node: N)
    | Pop
    | Shift
    | Clear
    | Resize(n: nat)

  function Fetch<N>(a: Arr<N>, index: int): Option<N>
    requires Fits(a)
  {
    if 0 <= index < a.size then a.slots[index] else None
  }

  function StoreAt<N>(a: Arr<N>, at: nat, node: N): Arr<N> {
    var b := Reserve(a, at + 1);
    Arr(b.slots[at := Some(node)], if at >= a.size then at + 1 else a.size)
  }

  /** The node in a slot, put there if the slot was empty. */
  function EnsureAt<N>(a: Arr<N>, at: nat, spare: N): (Arr<N>, N) {
    var b := Reserve(a, at + 1);
    var node := if b.slots[at].Some? then b.slots[at].value else spare;
    (Arr(b.slots[at := Some(node)], if at >= a.size then at + 1 else a.size), node)
  }

  function Apply<N>(a: Arr<N>, op: Op<N>): (Arr<N>, Option<N>)
    requires Fits(a)
  {
    match op
    case Store(at, node) => (StoreAt(a, at, node), None)
    case Ensure(at, spare) => (EnsureAt(a, at, spare).0, Some(EnsureAt(a, at, spare).1))
    case Delete(index) =>
      if 0 <= index < a.size then (a.(slots := a.slots[index := None]), a.slots[index]) else (a, None)
    case Push(node) =>
      var b := Reserve(a, a.size + 1);
      (Arr(b.slots[a.size := Some(node)], a.size + 1), None)
    case Unshift(node) =>
      var b := Reserve(a, a.size + 1);
      (Arr([Some(node)] + b.slots[..a.size] + b.slots[a.size + 1..], a.size + 1), None)
    case Pop =>
      if a.size > 0 then (Arr(a.slots[a.size - 1 := None], a.size - 1), a.slots[a.size - 1]) else (a, None)
    case Shift =>
      if a.size > 0 then (Arr(a.slots[1..a.size] + [None] + a.slots[a.size..], a.size - 1), a.slots[0]) else (a, None)
    case Clear => (Arr(Holes(|a.slots|), 0), None)
    case Resize(n) =>
      var b := Reserve(a, n);
      (Arr(if n > a.size then b.slots[..a.size] + Holes(n - a.size) + b.slots[n..] else b.slots, n), None)
  }

  function Run<N>(a: Arr<N>, ops: seq<Op<N>>): (b: Arr<N>)
    requires Fits(a)
    ensures Fits(b)
    decreases |ops|
  {
    if ops == [] then a else
    ApplyFits(a, ops[0]);
    Run(Apply(a, ops[0]).0, ops[1..])
  }

  lemma ApplyFits<N>(a: Arr<N>, op: Op<N>)
    requires Fits(a)
    ensures Fits(Apply(a, op).0)
  {
  }
}

/** A shared array is a sparse sequence, as long as nothing is left behind past its end. */
module SparseSequences {
  import opened Wrappers
  import opened SharedArraySpec

  // ---- sparse sequences

  function Padded<N>(s: seq<Option<N>>, n: nat): seq<Option<N>> {
    if n <= |s| then s else s + Holes(n - |s|)
  }

  /** What each operation means. */
  function Meaning<N>(s: seq<Option<N>>, op: Op<N>): (seq<Option<N>>, Option<N>) {
    match op
    case Store(at, node) => (Padded(s, at + 1)[at := Some(node)], None)
    case Ensure(at, spare) =>
      var node := if at < |s| && s[at].Some? then s[at].value else spare;
      (Padded(s, at + 1)[at := Some(node)], Some(node))
    case Delete(index) => if 0 <= index < |s| then (s[index := None], s[index]) else (s, None)
    case Push(node) => (s + [Some(node)], None)
    case Unshift(node) => ([Some(node)] + s, None)
    case Pop => if s == [] then (s, None) else (s[..|s| - 1], s[|s| - 1])
    case Shift => if s == [] then (s, None) else (s[1..], s[0])
    case Clear => ([], None)
    case Resize(n) => (if n <= |s| then s[..n] else Padded(s, n), None)
  }

  function MeaningOfRun<N>(s: seq<Option<N>>, ops: seq<Op<N>>): seq<Option<N>>
    decreases |ops|
  {
    if ops == [] then s else MeaningOfRun(Meaning(s, ops[0]).0, ops[1..])
  }

  // ---- the refinement

  function Contents<N>(a: Arr<N>): seq<Option<N>>
    requires Fits(a)
  {
    a.slots[..a.size]
  }

  /** Every slot at or past the size is empty. */
  ghost predicate Clean<N>(a: Arr<N>) {
    Fits(a) && forall i :: a.size <= i < |a.slots| ==> a.slots[i] == None
  }

  lemma GrowingOpMeans<N>(a: Arr<N>, op: Op<N>)
    requires Clean(a) && (op.Store? || op.Ensure? || op.Resize?)
    ensures Fits(Apply(a, op).0)
    ensures Contents(Apply(a, op).0) == Meaning(Contents(a), op).0 && Apply(a, op).1 == Meaning(Contents(a), op).1
  {
    var s, t := Contents(Apply(a, op).0), Meaning(Contents(a), op).0;
    assert |s| == |t| && forall i :: 0 <= i < |s| ==> s[i] == t[i];
  }

  lemma MovingOpMeans<N>(a: Arr<N>, op: Op<N>)
    requires Clean(a) && !(op.Store? || op.Ensure? || op.Resize?)
    ensures Fits(Apply(a, op).0)
    ensures Contents(Apply(a, op).0) == Meaning(Contents(a), op).0 && Apply(a, op).1 == Meaning(Contents(a), op).1
  {
    var s, t := Contents(Apply(a, op).0), Meaning(Contents(a), op).0;
    assert |s| == |t| && forall i :: 0 <= i < |s| ==> s[i] == t[i];
  }

  lemma OpMeans<N>(a: Arr<N>, op: Op<N>)
    requires Clean(a)
    ensures Fits(Apply(a, op).0)
    ensures Contents(Apply(a, op).0) == Meaning(Contents(a), op).0 && Apply(a, op).1 == Meaning(Contents(a), op).1
  {
    if op.Store? || op.Ensure? || op.Resize? { GrowingOpMeans(a, op); } else { MovingOpMeans(a, op); }
  }

  /** An operation leaves the array clean unless it shrinks it by elements that are there. */
  ghost predicate Drops<N>(s: seq<Option<N>>, op: Op<N>) {
    op.Resize? && exists i :: op.n <= i < |s| && s[i].Some?
  }

  lemma CleanUnlessDropped<N>(a: Arr<N>, op: Op<N>)
    requires Clean(a)
    ensures Clean(Apply(a, op).0) <==> !Drops(Contents(a), op)
  {
    if op.Resize? { ResizeClean(a, op.n); }
  }

  lemma ResizeClean<N>(a: Arr<N>, n: nat)
    requires Clean(a)
    ensures Clean(Apply(a, Resize(n)).0) <==> !Drops(Contents(a), Op<N>.Resize(n))
  {
    var b := Apply(a, Resize(n)).0;
    assert forall i :: n <= i < a.size ==> b.slots[i] == a.slots[i];
    assert forall i :: n <= i && a.size <= i < |b.slots| ==> b.slots[i] == None;
    assert forall i :: 0 <= i < a.size ==> Contents(a)[i] == a.slots[i];
  }

  /** What is left behind past the end comes back as an element. */
  lemma LeftoverReturns<N>(a: Arr<N>, k: nat, some: N)
    requires Fits(a) && a.size <= k < |a.slots| && a.slots[k].Some?
    ensures Fits(Apply(a, Store(k + 1, some)).0)
    ensures Contents(Apply(a, Store(k + 1, some)).0) != Meaning(Contents(a), Store(k + 1, some)).0
  {
    var op := Store(k + 1, some);
    var s, t := Contents(Apply(a, op).0), Meaning(Contents(a), op).0;
    assert s[k] == a.slots[k] && t[k] == None;
  }

  ghost predicate Means<N>(a: Arr<N>, op: Op<N>)
    requires Fits(a)
  {
    ApplyFits(a, op);
    Contents(Apply(a, op).0) == Meaning(Contents(a), op).0
  }

  /** Every operation means what it should on exactly the clean arrays. */
  lemma MeantIffClean<N(!new)>(a: Arr<N>, some: N)
    requires Fits(a)
    ensures Clean(a) <==> forall op :: Means(a, op)
  {
    if Clean(a) {
      forall op ensures Means(a, op) { OpMeans(a, op); }
    } else {
      var k: nat :| a.size <= k < |a.slots| && a.slots[k].Some?;
      LeftoverReturns(a, k, some);
      assert !Means(a, Store(k + 1, some));
    }
  }

  /** So an operation on a clean array can be followed by any other exactly if it drops
      nothing. */
  lemma FollowedByAnyIff<N(!new)>(a: Arr<N>, op: Op<N>, some: N)
    requires Clean(a)
    ensures Fits(Apply(a, op).0)
    ensures (forall next :: Means(Apply(a, op).0, next)) <==> !Drops(Contents(a), op)
  {
    ApplyFits(a, op);
    CleanUnlessDropped(a, op);
    MeantIffClean(Apply(a, op).0, some);
  }

  // ---- what operations undo

  /** Fetching reads the contents; outside them there is nothing. */
  lemma FetchReadsContents<N>(a: Arr<N>, index: int)
    requires Fits(a)
    ensures Fetch(a, index) == if 0 <= index < |Contents(a)| then Contents(a)[index] else None
  {
  }

  /** What a store puts in a slot is fetched from there; other elements stay; the gap up to it
      is holes. */
  lemma StoreThenFetch<N>(a: Arr<N>, at: nat, node: N, k: int)
    requires Clean(a)
    ensures Fits(Apply(a, Store(at, node)).0)
    ensures Fetch(Apply(a, Store(at, node)).0, k) == if k == at then Some(node) else Fetch(a, k)
  {
    OpMeans(a, Store(at, node));
    FetchReadsContents(a, k);
    FetchReadsContents(Apply(a, Store(at, node)).0, k);
  }

  /** Ensuring twice gives the same node. */
  lemma EnsureTwice<N>(a: Arr<N>, at: nat, x: N, y: N)
    requires Clean(a)
    ensures var (b, r) := Apply(a, Ensure(at, x));
      Fits(b) && r.Some? && Apply(b, Ensure(at, y)).1 == r && Fetch(b, at) == r
    ensures Fetch(a, at).Some? ==> Apply(a, Ensure(at, x)).1 == Fetch(a, at)
    ensures Fetch(a, at).None? ==> Apply(a, Ensure(at, x)).1 == Some(x)
  {
  }

  lemma DeleteThenFetch<N>(a: Arr<N>, index: int, k: int)
    requires Clean(a)
    ensures var (b, was) := Apply(a, Delete(index));
      Fits(b) && b.size == a.size && was == Fetch(a, index) && Fetch(b, k) == if k == index then None else Fetch(a, k)
  {
  }

  /** Clearing leaves nothing, not even behind. */
  lemma ClearEmpties<N>(a: Arr<N>)
    requires Fits(a)
    ensures var b := Apply(a, Clear).0; Clean(b) && Contents(b) == [] && |b.slots| == |a.slots|
  {
  }

  /** Resizing keeps the elements below the new size, and the new ones are holes. */
  lemma ResizeThenFetch<N>(a: Arr<N>, n: nat, k: int)
    requires Fits(a)
    ensures var b := Apply(a, Resize(n)).0; Fits(b) && b.size == n && Fetch(b, k) == if k < n then Fetch(a, k) else None
  {
  }

  lemma PopUndoesPush<N>(a: Arr<N>, node: N)
    requires Clean(a)
    ensures var b := Apply(a, Push(node)).0; Fits(b) && b.size == a.size + 1 && Apply(b, Pop).1 == Some(node)
    ensures Fits(Apply(Apply(a, Push(node)).0, Pop).0)
    ensures Contents(Apply(Apply(a, Push(node)).0, Pop).0) == Contents(a)
  {
    OpMeans(a, Push(node));
    CleanUnlessDropped(a, Push(node));
    OpMeans(Apply(a, Push(node)).0, Pop);
    assert (Contents(a) + [Some(node)])[..|Contents(a)|] == Contents(a);
  }

  lemma ShiftUndoesUnshift<N>(a: Arr<N>, node: N)
    requires Clean(a)
    ensures var b := Apply(a, Unshift(node)).0; Fits(b) && b.size == a.size + 1 && Apply(b, Shift).1 == Some(node)
    ensures Fits(Apply(Apply(a, Unshift(node)).0, Shift).0)
    ensures Contents(Apply(Apply(a, Unshift(node)).0, Shift).0) == Contents(a)
  {
    OpMeans(a, Unshift(node));
    CleanUnlessDropped(a, Unshift(node));
    OpMeans(Apply(a, Unshift(node)).0, Shift);
    assert ([Some(node)] + Contents(a))[1..] == Contents(a);
  }

  /** A grown block is the least of 8, 16, 32 ... or of the old one's doubles that suffices. */
  lemma GrownIs(capacity: nat, need: nat) returns (k: nat)
    ensures need <= capacity ==> Grown(capacity, need) == capacity
    ensures need > capacity ==>
      var first := if capacity == 0 then 8 else 2 * capacity;
      Grown(capacity, need) == first * Power2(k) && (k == 0 || first * Power2(k - 1) < need)
  {
    k := 0;
    if need > capacity { k := DoubledIs(if capacity == 0 then 8 else 2 * capacity, need); }
  }

  function Power2(k: nat): (p: nat)
    ensures p >= 1
  {
    if k == 0 then 1 else 2 * Power2(k - 1)
  }

  lemma {:induction false} DoubledIs(cap: nat, need: nat) returns (k: nat)
    requires cap > 0
    ensures Doubled(cap, need) == cap * Power2(k) && (k == 0 || cap * Power2(k - 1) < need)
    decreases need - cap
  {
    if cap >= need {
      k := 0;
    } else {
      var j := DoubledIs(cap * 2, need);
      k := j + 1;
      assert cap * Power2(k) == cap * 2 * Power2(j);
      if j > 0 { assert cap * Power2(j) == cap * 2 * Power2(j - 1); }
    }
  }

  /** No operation of the run shrinks the sequence by elements that are there. */
  ghost predicate NoDrops<N>(s: seq<Option<N>>, ops: seq<Op<N>>)
    decreases |ops|
  {
    ops != [] ==> !Drops(s, ops[0]) && NoDrops(Meaning(s, ops[0]).0, ops[1..])
  }

  /** A run from a clean array that drops nothing means what its operations mean. */
  lemma {:induction false} RunMeans<N>(a: Arr<N>, ops: seq<Op<N>>)
    requires Clean(a) && NoDrops(Contents(a), ops)
    ensures Clean(Run(a, ops)) && Contents(Run(a, ops)) == MeaningOfRun(Contents(a), ops)
    decreases |ops|
  {
    if ops != [] {
      OpMeans(a, ops[0]);
      CleanUnlessDropped(a, ops[0]);
      RunMeans(Apply(a, ops[0]).0, ops[1..]);
    }
  }

  function ThreePushed<N>(x: N, y: N, z: N): Arr<N> {
    Apply(Apply(Apply(Empty(), Push(x)).0, Push(y)).0, Push(z)).0
  }

  lemma ThreePushedIs<N>(x: N, y: N, z: N)
    ensures ThreePushed(x, y, z) == Arr([Some(x), Some(y), Some(z)] + Holes(5), 3)
  {
    var a := Apply(Empty(), Push(x)).0;
    assert Grown(0, 1) == 8;
    assert a.slots == [Some(x)] + Holes(7);
    var b := Apply(a, Push(y)).0;
    assert b.slots == [Some(x), Some(y)] + Holes(6);
    var c := Apply(b, Push(z)).0;
    assert c.slots == [Some(x), Some(y), Some(z)] + Holes(5);
  }

  /** After a drop it need not: three elements, shrunk to one; storing at index 2 then brings
      the second element back where a hole should be. */
  lemma DroppedElementReturns<N>(x: N, y: N, z: N)
    ensures var a := ThreePushed(x, y, z);
      && Contents(a) == [Some(x), Some(y), Some(z)]
      && Contents(Apply(Apply(a, Resize(1)).0, Store(2, x)).0) == [Some(x), Some(y), Some(x)]
      && Meaning(Meaning(Contents(a), Resize(1)).0, Store(2, x)).0 == [Some(x), None, Some(x)]
  {
    ThreePushedIs(x, y, z);
    var a := ThreePushed(x, y, z);
    var b := Apply(a, Resize(1)).0;
    assert b.slots == a.slots && b.size == 1;
    var c := Apply(b, Store(2, x)).0;
    assert c.slots[0] == Some(x) && c.slots[1] == Some(y) && c.slots[2] == Some(x);
    var s := Meaning(Contents(a), Resize(1)).0;
    assert s == [Some(x)];
  }
}

/** The operations in place, on a block that is replaced by a larger one as needed. */
module SharedArrayNative {
  import opened Wrappers
  import opened SharedArraySpec

  lemma FrontAdded<N>(a: Arr<N>, front: Option<N>, slots: seq<Option<N>>)
    requires a.size < |a.slots| && slots == [front] + (a.slots[..a.size] + a.slots[a.size + 1..])
    ensures slots == [front] + a.slots[..a.size] + a.slots[a.size + 1..]
  {
  }

  class SharedArray<N> {
    var items: array<Option<N>>
    var size: nat

    ghost predicate Valid() reads this { size <= items.Length }

    ghost function View(): (a: Arr<N>)
      reads this, items
      requires Valid()
      ensures Fits(a)
    {
      Arr(items[..], size)
    }

    constructor ()
      ensures Valid() && fresh(items) && View() == Empty()
    {
      items := new Option<N>[0];
      size := 0;
    }

    method Reserve(need: nat)
      requires Valid()
      modifies this`items
      ensures Valid() && (items == old(items) || fresh(items))
      ensures View() == SharedArraySpec.Reserve(old(View()), need)
    {
      if need <= items.Length {
        assert items[..] + Holes(0) == items[..];
        return;
      }
      var cap := if items.Length != 0 then items.Length * 2 else 8;
      while cap < need
        invariant cap > 0 && cap >= items.Length && Doubled(cap, need) == Grown(items.Length, need)
        decreases need - cap
      {
        cap := cap * 2;
      }
      var larger := new Option<N>[cap](i => None);
      for i := 0 to items.Length
        invariant items == old(items)
        invariant larger[..i] == items[..i]
        invariant forall k :: i <= k < cap ==> larger[k] == None
      {
        larger[i] := items[i];
      }
      assert larger[..] == larger[..items.Length] + Holes(cap - items.Length);
      items := larger;
    }

    method Fetch(index: int) returns (r: Option<N>)
      requires Valid()
      ensures r == SharedArraySpec.Fetch(View(), index)
    {
      r := if 0 <= index < size then items[index] else None;
    }

    method Exists(index: int) returns (r: bool)
      requires Valid()
      ensures r <==> SharedArraySpec.Fetch(View(), index).Some?
    {
      r := 0 <= index < size && items[index] != None;
    }

    /** A negative index is refused. */
    method Store(index: int, node: N) returns (ok: bool)
      requires Valid()
      modifies this, items
      ensures Valid() && ok == (index >= 0) && (items == old(items) || fresh(items))
      ensures View() == if ok then Apply(old(View()), Op.Store(index, node)).0 else old(View())
    {
      if index < 0 { return false; }
      Reserve(index + 1);
      if index >= size { size := index + 1; }
      items[index] := Some(node);
      ok := true;
    }

    /** The node at an index, made if the slot is empty; a negative index is refused. */
    method Ensure(index: int, spare: N) returns (node: Option<N>)
      requires Valid()
      modifies this, items
      ensures Valid() && node.Some? == (index >= 0) && (items == old(items) || fresh(items))
      ensures if index >= 0 then (View(), node) == Apply(old(View()), Op.Ensure(index, spare))
              else View() == old(View())
    {
      if index < 0 { return None; }
      Reserve(index + 1);
      if index >= size { size := index + 1; }
      ghost var was := items[..];
      if items[index] == None { items[index] := Some(spare); }
      node := items[index];
      assert items[..] == was[index := node];
    }

    method Delete(index: int) returns (was: Option<N>)
      requires Valid()
      modifies items
      ensures Valid() && (View(), was) == Apply(old(View()), Op.Delete(index))
    {
      was := None;
      if 0 <= index < size {
        was := items[index];
        items[index] := None;
      }
    }

    method Push(node: N) returns (count: nat)
      requires Valid()
      modifies this, items
      ensures Valid() && count == size && (items == old(items) || fresh(items))
      ensures View() == Apply(old(View()), Op.Push(node)).0
    {
      Reserve(size + 1);
      items[size] := Some(node);
      size := size + 1;
      count := size;
    }

    method Unshift(node: N) returns (count: nat)
      requires Valid()
      modifies this, items
      ensures Valid() && count == size && (items == old(items) || fresh(items))
      ensures View() == Apply(old(View()), Op.Unshift(node)).0
    {
      Reserve(size + 1);
      ghost var was := View();
      MoveUp();
      items[0] := Some(node);
      assert items[..] == [items[0]] + items[1..];
      FrontAdded(was, Some(node), items[..]);
      size := size + 1;
      count := size;
    }

    /** Every element one slot up, from the last one down. */
    method MoveUp()
      requires Valid() && size < items.Length
      modifies items
      ensures items[1..] == old(items[..size] + items[size + 1..])
    {
      ghost var was := items[..];
      var i := size;
      while i > 0
        invariant 0 <= i <= size
        invariant items[..i] == was[..i]
        invariant forall k :: i < k <= size ==> items[k] == was[k - 1]
        invariant forall k :: size < k < |was| ==> items[k] == was[k]
      {
        items[i] := items[i - 1];
        i := i - 1;
      }
    }

    method Pop() returns (was: Option<N>)
      requires Valid()
      modifies this`size, items
      ensures Valid() && (View(), was) == Apply(old(View()), Op.Pop)
    {
      was := None;
      if size > 0 {
        was := items[size - 1];
        items[size - 1] := None;
        size := size - 1;
      }
    }

    method Shift() returns (first: Option<N>)
      requires Valid()
      modifies this`size, items
      ensures Valid() && (View(), first) == Apply(old(View()), Op.Shift)
    {
      first := None;
      if size > 0 {
        ghost var was := items[..];
        first := items[0];
        for i := 1 to size
          invariant Valid() && size == old(size) && first == was[0]
          invariant forall k :: 0 <= k < i - 1 ==> items[k] == was[k + 1]
          invariant forall k :: i - 1 <= k < |was| ==> items[k] == was[k]
        {
          items[i - 1] := items[i];
        }
        size := size - 1;
        items[size] := None;
        assert items[..] == was[1..size + 1] + [None] + was[size + 1..];
      }
    }

    method Clear()
      requires Valid()
      modifies this`size, items
      ensures Valid() && View() == Apply(old(View()), Op.Clear).0
    {
      for i := 0 to items.Length
        invariant Valid() && size == old(size)
        invariant forall k :: 0 <= k < i ==> items[k] == None
      {
        items[i] := None;
      }
      size := 0;
      assert items[..] == Holes(items.Length);
    }

    /** Empty the slots from the size up to `n`. */
    method EmptySlots(n: nat)
      requires size <= n <= items.Length
      modifies items
      ensures items[..] == old(items[..size]) + Holes(n - size) + old(items[n..])
    {
      ghost var was := items[..];
      for i := size to n
        invariant items[..size] == was[..size] && items[n..] == was[n..]
        invariant forall k :: size <= k < i ==> items[k] == None
      {
        items[i] := None;
      }
      assert items[..] == items[..size] + items[size..n] + items[n..];
    }

    /** Growing empties the slots that become elements; shrinking empties nothing. */
    method Resize(n: nat)
      requires Valid()
      modifies this, items
      ensures Valid() && (items == old(items) || fresh(items)) && View() == Apply(old(View()), Op.Resize(n)).0
    {
      Reserve(n);
      if n > size { EmptySlots(n); }
      size := n;
    }
  }
}
