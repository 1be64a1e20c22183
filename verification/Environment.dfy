/** The environment of a child process: the parent's with overrides merged in. */
module Environment {
  import opened Wrappers
  import opened Bytes

  const EQUALS: Byte := B('=')

  /** A scalar value of the override hash. */
  datatype Scalar = Undefined | Reference | Plain(bytes: seq<Byte>)

  datatype Override = Override(key: seq<Byte>, value: Scalar)

  /** The env option: absent, no hash reference, or the entries in the hash's own order. */
  datatype EnvOption = Absent | NotAHash | Overrides(entries: seq<Override>)

  datatype EnvError = NoHashReference | BadKey | BadValue | NulInValue

  datatype Result<+T> = Ok(value: T) | Err(error: EnvError)

  predicate Contains(s: seq<Byte>, b: Byte) { exists i :: 0 <= i < |s| && s[i] == b }

  predicate KeyOk(key: seq<Byte>) { key != [] && !Contains(key, EQUALS) && !Contains(key, 0) }

  /** What is wrong with an entry, in the order the checks are made. */
  function Check(o: Override): Option<EnvError> {
    if !KeyOk(o.key) then Some(BadKey)
    else if !o.value.Plain? then Some(BadValue)
    else if Contains(o.value.bytes, 0) then Some(NulInValue)
    else None
  }

  function Assignment(key: seq<Byte>, value: seq<Byte>): seq<Byte> { key + [EQUALS] + value }

  /** `entry` assigns to `key`. */
  predicate Assigns(entry: seq<Byte>, key: seq<Byte>) {
    |key| < |entry| && entry[..|key|] == key && entry[|key|] == EQUALS
  }

  /** The first entry that assigns to `key`; their number if there is none. */
  function FirstIndex(env: seq<seq<Byte>>, key: seq<Byte>): (i: nat)
    ensures i <= |env|
  {
    if env == [] || Assigns(env[0], key) then 0 else 1 + FirstIndex(env[1..], key)
  }

  /** What the child finds under `key`. */
  function Lookup(env: seq<seq<Byte>>, key: seq<Byte>): Option<seq<Byte>> {
    var i := FirstIndex(env, key);
    if i < |env| && Assigns(env[i], key) then Some(env[i][|key| + 1..]) else None
  }

  function Put(env: seq<seq<Byte>>, key: seq<Byte>, value: seq<Byte>): seq<seq<Byte>> {
    var i := FirstIndex(env, key);
    if i < |env| then env[i := Assignment(key, value)] else env + [Assignment(key, value)]
  }

  /** All overrides up to the first bad entry. */
  function Merge(env: seq<seq<Byte>>, entries: seq<Override>): Result<seq<seq<Byte>>> {
    if entries == [] then Ok(env) else
    var last := entries[|entries| - 1];
    var before := Merge(env, entries[..|entries| - 1]);
    if before.Err? then before
    else if Check(last).Some? then Err(Check(last).value)
    else Ok(Put(before.value, last.key, last.value.bytes))
  }

  // ---- what is said in bytes

  /** Which entries are good, and what is wrong with the others. */
  lemma ChecksAre(o: Override)
    ensures Check(o) == Some(BadKey) <==> o.key == [] || Contains(o.key, 0x3D) || Contains(o.key, 0)
    ensures Check(o) == Some(BadValue) <==>
      o.key != [] && !Contains(o.key, 0x3D) && !Contains(o.key, 0) && !o.value.Plain?
    ensures Check(o) == Some(NulInValue) <==>
      && o.key != [] && !Contains(o.key, 0x3D) && !Contains(o.key, 0)
      && o.value.Plain? && Contains(o.value.bytes, 0)
    ensures Check(o) == None || Check(o) == Some(BadKey) || Check(o) == Some(BadValue) || Check(o) == Some(NulInValue)
  {
  }

  /** The child finds `value` under `key` exactly if some entry spells key, equals sign and
      value, and no entry before it begins with key and equals sign. */
  lemma LookupIs(env: seq<seq<Byte>>, key: seq<Byte>, value: seq<Byte>)
    ensures Lookup(env, key) == Some(value) <==>
      exists i :: 0 <= i < |env| && env[i] == key + Ascii("=") + value
        && forall j :: 0 <= j < i ==> !(key + Ascii("=") <= env[j])
  {
    FirstIndexIs(env, key);
    forall j | 0 <= j < |env| ensures Assigns(env[j], key) <==> key + Ascii("=") <= env[j] {
      AssignsIsPrefix(env[j], key);
    }
    var k := FirstIndex(env, key);
    if k < |env| { assert env[k] == key + Ascii("=") + env[k][|key| + 1..]; }
    forall i | 0 <= i < |env| && env[i] == key + Ascii("=") + value
        && forall j :: 0 <= j < i ==> !(key + Ascii("=") <= env[j])
      ensures Lookup(env, key) == Some(value)
    {
      assert key + Ascii("=") <= env[i];
      FirstIndexUnique(env, key, i);
      assert env[i][|key| + 1..] == value;
    }
  }

  lemma AssignsIsPrefix(entry: seq<Byte>, key: seq<Byte>)
    ensures Assigns(entry, key) <==> key + Ascii("=") <= entry
  {
    if |key| < |entry| { assert entry[..|key| + 1] == entry[..|key|] + [entry[|key|]]; }
  }

  // ---- one override

  lemma {:induction false} FirstIndexIs(env: seq<seq<Byte>>, key: seq<Byte>)
    ensures var i := FirstIndex(env, key);
      && (forall j :: 0 <= j < i ==> !Assigns(env[j], key))
      && (i < |env| ==> Assigns(env[i], key))
  {
    if env != [] && !Assigns(env[0], key) {
      FirstIndexIs(env[1..], key);
      var i := FirstIndex(env, key);
      forall j | 0 <= j < i ensures !Assigns(env[j], key) {
        if j > 0 { assert env[j] == env[1..][j - 1]; }
      }
    }
  }

  lemma FirstIndexUnique(env: seq<seq<Byte>>, key: seq<Byte>, i: nat)
    requires i <= |env| && (forall j :: 0 <= j < i ==> !Assigns(env[j], key)) && (i < |env| ==> Assigns(env[i], key))
    ensures FirstIndex(env, key) == i
  {
    FirstIndexIs(env, key);
  }

  /** An assignment is to its own key only, among the keys without an equals sign. */
  lemma AssignsOwn(key: seq<Byte>, value: seq<Byte>, other: seq<Byte>)
    requires !Contains(key, EQUALS) && !Contains(other, EQUALS)
    ensures Assigns(Assignment(key, value), other) <==> other == key
  {
    var entry := Assignment(key, value);
    assert entry[..|key|] == key && entry[|key|] == EQUALS;
    assert |other| < |key| ==> key[|other|] == entry[|other|];
    assert |key| < |other| < |entry| ==> entry[..|other|][|key|] == EQUALS;
  }

  lemma PutLooksUp(env: seq<seq<Byte>>, key: seq<Byte>, value: seq<Byte>, other: seq<Byte>)
    requires !Contains(key, EQUALS) && !Contains(other, EQUALS)
    ensures Lookup(Put(env, key, value), other) == if other == key then Some(value) else Lookup(env, other)
  {
    FirstIndexIs(env, key);
    FirstIndexIs(env, other);
    AssignsOwn(key, value, other);
    var put, k, o := Put(env, key, value), FirstIndex(env, key), FirstIndex(env, other);
    if other == key {
      FirstIndexUnique(put, other, k);
      assert Assignment(key, value)[|key| + 1..] == value;
    } else {
      if k < |env| { AssignedOnce(env[k], key, other); }
      var there := if o == |env| then |put| else o;
      FirstIndexUnique(put, other, there);
    }
  }

  /** No entry assigns to two keys without an equals sign. */
  lemma AssignedOnce(entry: seq<Byte>, key: seq<Byte>, other: seq<Byte>)
    requires Assigns(entry, key) && !Contains(key, EQUALS) && !Contains(other, EQUALS) && other != key
    ensures !Assigns(entry, other)
  {
    assert entry == Assignment(key, entry[|key| + 1..]);
    AssignsOwn(key, entry[|key| + 1..], other);
  }

  // ---- all overrides

  predicate Distinct(entries: seq<Override>) {
    forall i, j :: 0 <= i < j < |entries| ==> entries[i].key != entries[j].key
  }

  /** The override of a key, if there is one. */
  function Overridden(entries: seq<Override>, key: seq<Byte>): Option<seq<Byte>> {
    if entries == [] then None else
    var last := entries[|entries| - 1];
    if last.key == key && last.value.Plain? then Some(last.value.bytes)
    else Overridden(entries[..|entries| - 1], key)
  }

  lemma {:induction false} OverriddenIs(entries: seq<Override>, i: nat)
    requires Distinct(entries) && i < |entries| && entries[i].value.Plain?
    ensures Overridden(entries, entries[i].key) == Some(entries[i].value.bytes)
  {
    if i < |entries| - 1 { OverriddenIs(entries[..|entries| - 1], i); }
  }

  lemma {:induction false} NotOverridden(entries: seq<Override>, key: seq<Byte>)
    requires forall i :: 0 <= i < |entries| ==> entries[i].key != key
    ensures Overridden(entries, key) == None
  {
    if entries != [] { NotOverridden(entries[..|entries| - 1], key); }
  }

  ghost predicate FirstBad(entries: seq<Override>, i: int) {
    0 <= i < |entries| && Check(entries[i]).Some? && forall j :: 0 <= j < i ==> Check(entries[j]) == None
  }

  /** The merge fails exactly when some entry is bad, with the complaint of the first one. */
  lemma {:induction false} FirstBadEntryDecides(env: seq<seq<Byte>>, entries: seq<Override>)
    ensures Merge(env, entries).Ok? <==> forall i :: 0 <= i < |entries| ==> Check(entries[i]) == None
    ensures forall i :: FirstBad(entries, i) ==> Merge(env, entries) == Err(Check(entries[i]).value)
  {
    if entries != [] {
      var init := entries[..|entries| - 1];
      FirstBadEntryDecides(env, init);
      assert forall i :: 0 <= i < |init| ==> init[i] == entries[i];
      forall i | FirstBad(entries, i) ensures Merge(env, entries) == Err(Check(entries[i]).value) {
        if i < |init| { assert FirstBad(init, i); }
      }
    }
  }

  /** For every key, the child finds the override if there is one and the parent's value
      otherwise, whatever duplicates or prefixes the parent's entries hold. */
  lemma {:induction false} LookupAfterMerge(env: seq<seq<Byte>>, entries: seq<Override>, key: seq<Byte>)
    requires Merge(env, entries).Ok? && !Contains(key, EQUALS)
    ensures Lookup(Merge(env, entries).value, key) ==
      if Overridden(entries, key).Some? then Overridden(entries, key) else Lookup(env, key)
  {
    if entries != [] {
      var init, last := entries[..|entries| - 1], entries[|entries| - 1];
      LookupAfterMerge(env, init, key);
      PutLooksUp(Merge(env, init).value, last.key, last.value.bytes, key);
    }
  }

  ghost predicate Untouched(entry: seq<Byte>, entries: seq<Override>) {
    forall k :: 0 <= k < |entries| ==> !Assigns(entry, entries[k].key)
  }

  /** Entries keep their places, and one that assigns to no overridden key is left as it was. */
  lemma {:induction false} OthersKeepTheirPlaces(env: seq<seq<Byte>>, entries: seq<Override>)
    requires Merge(env, entries).Ok?
    ensures var merged := Merge(env, entries).value;
      && |env| <= |merged| <= |env| + |entries|
      && forall i :: 0 <= i < |env| && Untouched(env[i], entries) ==> merged[i] == env[i]
  {
    if entries != [] {
      var init, last := entries[..|entries| - 1], entries[|entries| - 1];
      OthersKeepTheirPlaces(env, init);
      FirstIndexIs(Merge(env, init).value, last.key);
      forall i | 0 <= i < |env| && Untouched(env[i], entries) ensures Merge(env, entries).value[i] == env[i] {
        assert forall k :: 0 <= k < |init| ==> init[k] == entries[k];
        assert Untouched(env[i], init);
      }
    }
  }

  /** Distinct valid overrides: each is found under its key, every other key as before. */
  lemma EveryOverrideFound(env: seq<seq<Byte>>, entries: seq<Override>)
    requires Distinct(entries) && Merge(env, entries).Ok?
    ensures var merged := Merge(env, entries).value;
      && (forall i :: 0 <= i < |entries| ==>
            entries[i].value.Plain? && Lookup(merged, entries[i].key) == Some(entries[i].value.bytes))
      && (forall key :: !Contains(key, EQUALS) && (forall i :: 0 <= i < |entries| ==> entries[i].key != key)
            ==> Lookup(merged, key) == Lookup(env, key))
  {
    var merged := Merge(env, entries).value;
    FirstBadEntryDecides(env, entries);
    forall i | 0 <= i < |entries|
      ensures entries[i].value.Plain? && Lookup(merged, entries[i].key) == Some(entries[i].value.bytes)
    {
      assert Check(entries[i]) == None;
      LookupAfterMerge(env, entries, entries[i].key);
      OverriddenIs(entries, i);
    }
    forall key | !Contains(key, EQUALS) && (forall i :: 0 <= i < |entries| ==> entries[i].key != key)
      ensures Lookup(merged, key) == Lookup(env, key)
    {
      LookupAfterMerge(env, entries, key);
      NotOverridden(entries, key);
    }
  }

  // ---- the vector of pointers

  class Vector {
    const slots: array<Option<seq<Byte>>>
    var count: nat

    ghost predicate Valid() reads this, slots {
      count < slots.Length && forall i :: 0 <= i < count ==> slots[i].Some?
    }

    /** The strings of the vector. */
    ghost function Entries(): (env: seq<seq<Byte>>)
      reads this, slots
      requires Valid()
    {
      seq(count, i requires 0 <= i < count reads this, slots requires Valid() => slots[i].value)
    }

    constructor (capacity: nat)
      requires capacity > 0
      ensures Valid() && fresh(slots) && slots.Length == capacity && count == 0 && Entries() == []
    {
      slots := new Option<seq<Byte>>[capacity](i => None);
      count := 0;
    }

    method Append(entry: seq<Byte>)
      requires Valid() && count + 1 < slots.Length
      modifies this`count, slots
      ensures Valid() && count == old(count) + 1 && Entries() == old(Entries()) + [entry]
    {
      slots[count] := Some(entry);
      count := count + 1;
    }

    /** Replace the first entry that assigns to `key`, or append. */
    method Assign(key: seq<Byte>, value: seq<Byte>)
      requires Valid() && count + 1 < slots.Length
      modifies this`count, slots
      ensures Valid() && count <= old(count) + 1 && Entries() == Put(old(Entries()), key, value)
    {
      var i := 0;
      while i < count && !Assigns(slots[i].value, key)
        invariant i <= count
        invariant forall j :: 0 <= j < i ==> !Assigns(Entries()[j], key)
      {
        i := i + 1;
      }
      FirstIndexUnique(Entries(), key, i);
      if i < count { slots[i] := Some(Assignment(key, value)); } else { Append(Assignment(key, value)); }
    }
  }

  /** What the child is started with: the parent's own vector or a new one. */
  datatype ChildEnv = Inherited | Own(vector: Vector)

  method ChildEnvironment(environ: seq<seq<Byte>>, option: EnvOption) returns (r: Result<ChildEnv>)
    ensures option.Absent? ==> r == Ok(Inherited)
    ensures option.NotAHash? ==> r == Err(NoHashReference)
    ensures option.Overrides? && Merge(environ, option.entries).Err? ==> r == Err(Merge(environ, option.entries).error)
    ensures option.Overrides? && Merge(environ, option.entries).Ok? ==>
      && r.Ok? && r.value.Own? && r.value.vector.Valid()
      && r.value.vector.Entries() == Merge(environ, option.entries).value
      && r.value.vector.slots.Length == |environ| + |option.entries| + 1
      && r.value.vector.slots[r.value.vector.count] == None
  {
    if option.Absent? { return Ok(Inherited); }
    if option.NotAHash? { return Err(NoHashReference); }
    var entries := option.entries;
    var v := CopyParent(environ, |environ| + |option.entries| + 1);
    var bad := ApplyOverrides(environ, option.entries, v);
    if bad.Some? { return Err(bad.value); }
    v.slots[v.count] := None;
    r := Ok(Own(v));
  }

  method CopyParent(environ: seq<seq<Byte>>, capacity: nat) returns (v: Vector)
    requires |environ| < capacity
    ensures fresh(v) && fresh(v.slots) && v.Valid() && v.slots.Length == capacity
    ensures v.count == |environ| && v.Entries() == environ
  {
    v := new Vector(capacity);
    for i := 0 to |environ|
      invariant v.Valid() && fresh(v) && fresh(v.slots) && v.slots.Length == capacity
      invariant v.count == i && v.Entries() == environ[..i]
    {
      v.Append(environ[i]);
    }
  }

  /** Put every override in its place, up to the first bad entry. */
  method ApplyOverrides(ghost environ: seq<seq<Byte>>, entries: seq<Override>, v: Vector)
    returns (bad: Option<EnvError>)
    requires v.Valid() && v.Entries() == environ && v.count == |environ| && v.slots.Length == |environ| + |entries| + 1
    modifies v, v.slots
    ensures v.Valid()
    ensures Merge(environ, entries) == if bad == None then Ok(v.Entries()) else Err(bad.value)
  {
    for i := 0 to |entries|
      invariant v.Valid() && v.count <= |environ| + i && Merge(environ, entries[..i]) == Ok(v.Entries())
    {
      assert entries[..i + 1][..i] == entries[..i];
      bad := Check(entries[i]);
      if bad.Some? {
        MergeStops(environ, entries, i);
        return;
      }
      v.Assign(entries[i].key, entries[i].value.bytes);
    }
    assert entries[..|entries|] == entries;
    bad := None;
  }

  lemma MergeStops(env: seq<seq<Byte>>, entries: seq<Override>, i: nat)
    requires i < |entries| && Merge(env, entries[..i]).Ok? && Check(entries[i]).Some?
    ensures Merge(env, entries) == Err(Check(entries[i]).value)
  {
    FirstBadEntryDecides(env, entries[..i]);
    assert forall j :: 0 <= j < i ==> entries[..i][j] == entries[j];
    assert FirstBad(entries, i);
    FirstBadEntryDecides(env, entries);
  }
}
