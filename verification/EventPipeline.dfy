/** Click events from the printer, through a byte stream cut anywhere, to the reader. */
module EventPipeline {
  import opened Wrappers
  import opened Bytes
  import opened JsonGrammar
  import opened JsonParser
  import opened JsonTheorems
  import opened JsonEmit
  import opened Framing
  import JsonNative

  // ---- the printer

  class Output {
    var written: seq<Byte>

    constructor ()
      ensures written == []
    {
      written := [];
    }

    method Write(bytes: seq<Byte>)
      modifies this
      ensures written == old(written) + bytes
    {
      written := written + bytes;
    }

    method EmitByte(b: Byte)
      modifies this
      ensures written == old(written) + CharText(EmitChar(b))
    {
      if b == B('"') { Write([B('\\'), B('"')]); }
      else if b == B('\\') { Write([B('\\'), B('\\')]); }
      else if b == 10 { Write([B('\\'), B('n')]); }
      else if b == 13 { Write([B('\\'), B('r')]); }
      else if b == 9 { Write([B('\\'), B('t')]); }
      else if b < 0x20 { Write([B('\\'), B('u'), B('0'), B('0'), HexByte(b / 16), HexByte(b % 16)]); }
      else { Write([b]); }
    }

    /** Every byte up to the NUL. */
    method EmitBody(memory: seq<Byte>)
      modifies this
      ensures written == old(written) + StillToWrite(memory, 0)
    {
      ghost var goal := written + StillToWrite(memory, 0);
      var i := 0;
      while i < |memory| && memory[i] != 0
        invariant i <= |memory| && written + StillToWrite(memory, i) == goal
        decreases |memory| - i
      {
        StillToWriteStep(memory, i);
        Assoc(written, CharText(EmitChar(memory[i])), StillToWrite(memory, i + 1));
        EmitByte(memory[i]);
        i := i + 1;
      }
      NothingToWrite(memory, i);
    }

    /** Write the C string at the start of `memory`. */
    method EmitString(memory: seq<Byte>)
      modifies this
      ensures written == old(written) + EmitText(CStr(memory))
    {
      Write(QUOTE);
      EmitBody(memory);
      Write(QUOTE);
      assert memory[0..] == memory;
      Around(old(written), CharsText(EmitChars(CStr(memory))));
    }

    /** An item without a name is not announced. */
    method EmitClick(name: Option<seq<Byte>>)
      modifies this
      ensures written == old(written) + if name.Some? then ClickText(CStr(name.value)) else []
    {
      if name == None { return; }
      Write(Ascii("{\"event\":\"click\",\"name\":"));
      EmitString(name.value);
      Write(Ascii("}") + [LF]);
      Regroup(old(written), Ascii("{\"event\":\"click\",\"name\":"), EmitText(CStr(name.value)), Ascii("}"), [LF]);
    }
  }

  lemma Around(before: seq<Byte>, text: seq<Byte>)
    ensures before + QUOTE + text + QUOTE == before + (QUOTE + (text + QUOTE))
  {
  }

  lemma Regroup(before: seq<Byte>, a: seq<Byte>, b: seq<Byte>, c: seq<Byte>, d: seq<Byte>)
    ensures before + a + b + (c + d) == before + (a + b + c + d)
  {
  }

  /** What is written from index `i` of a C string. */
  function StillToWrite(memory: seq<Byte>, i: nat): seq<Byte>
    requires i <= |memory|
  {
    CharsText(EmitChars(CStr(memory[i..])))
  }

  lemma StillToWriteStep(memory: seq<Byte>, i: nat)
    requires i < |memory| && memory[i] != 0
    ensures StillToWrite(memory, i) == CharText(EmitChar(memory[i])) + StillToWrite(memory, i + 1)
  {
    EmitStep(CStr(memory[i..]));
    assert memory[i..][1..] == memory[i + 1..];
  }

  lemma NothingToWrite(memory: seq<Byte>, i: nat)
    requires i <= |memory| && (i < |memory| ==> memory[i] == 0)
    ensures StillToWrite(memory, i) == []
  {
  }

  // ---- the reader of an event

  /** The value of the first pair with a key. */
  function Get(v: JValue, key: seq<Byte>): Option<JValue> {
    if v.JObject? then Lookup(v.pairs, key) else None
  }

  function Lookup(pairs: seq<Pair>, key: seq<Byte>): Option<JValue> {
    if pairs == [] then None else if pairs[0].key == key then Some(pairs[0].value) else Lookup(pairs[1..], key)
  }

  /** The first pair with a key counts; without one there is nothing. */
  lemma {:induction false} LookupIsFirst(pairs: seq<Pair>, key: seq<Byte>)
    ensures Lookup(pairs, key).None? <==> forall i :: 0 <= i < |pairs| ==> pairs[i].key != key
    ensures forall i :: IsFirst(pairs, key, i) ==> Lookup(pairs, key) == Some(pairs[i].value)
  {
    if pairs != [] {
      LookupIsFirst(pairs[1..], key);
      assert forall i :: 0 < i < |pairs| ==> pairs[i] == pairs[1..][i - 1];
      forall i | IsFirst(pairs, key, i) ensures Lookup(pairs, key) == Some(pairs[i].value) {
        if i > 0 { assert IsFirst(pairs[1..], key, i - 1); }
      }
    }
  }

  ghost predicate IsFirst(pairs: seq<Pair>, key: seq<Byte>, i: int) {
    0 <= i < |pairs| && pairs[i].key == key && forall j :: 0 <= j < i ==> pairs[j].key != key
  }

  function GetString(v: JValue, key: seq<Byte>): Option<seq<Byte>> {
    var found := Get(v, key);
    if found.Some? && found.value.JString? then Some(found.value.s) else None
  }

  /** The name a posted line announces. */
  function Announced(line: seq<Byte>): Option<seq<Byte>> {
    var v := Parse(CStr(line));
    if v.Some? && GetString(v.value, EventKey()) == Some(Click()) then GetString(v.value, NameKey()) else None
  }

  // ---- the round trip

  /** The stream that announces these names. */
  function Clicks(names: seq<seq<Byte>>): seq<Byte> { Unlines(ClickLines(names)) }

  function ClickLines(names: seq<seq<Byte>>): seq<seq<Byte>> {
    seq(|names|, i requires 0 <= i < |names| => ClickLine(names[i]))
  }

  ghost predicate AllNulFree(names: seq<seq<Byte>>) { forall i :: 0 <= i < |names| ==> NulFree(names[i]) }

  /** An event is one line: no newline or NUL in it and no carriage return at its end. */
  lemma ClickIsALine(name: seq<Byte>)
    ensures NoLf(ClickLine(name)) && NulFree(ClickLine(name)) && StripCr(ClickLine(name)) == ClickLine(name)
  {
    EmitIsPrintable(name);
    ClickPrefix();
    assert forall i :: 0 <= i < |ClickLine(name)| ==> ClickLine(name)[i] >= 0x20;
  }

  lemma LineAnnounces(name: seq<Byte>)
    requires NulFree(name)
    ensures Announced(ClickLine(name)) == Some(name)
  {
    ClickIsALine(name);
    CStrUnique(ClickLine(name), ClickLine(name));
    ClickParses(name);
    var pairs := ClickValue(name).pairs;
    assert EventKey()[0] != NameKey()[0];
    assert Lookup(pairs[1..], NameKey()) == Some(JString(name));
  }

  /** Whatever the read boundaries, the lines of the stream announce the same names in the
      same order, and nothing is left over. */
  lemma NamesComeThrough(names: seq<seq<Byte>>, chunks: seq<seq<Byte>>)
    requires AllNulFree(names) && Concat(chunks) == Clicks(names)
    ensures var lines := Lines(Concat(chunks));
      |lines| == |names| && forall i :: 0 <= i < |names| ==> Announced(lines[i]) == Some(names[i])
    ensures Tail(Concat(chunks)) == []
  {
    var raw := ClickLines(names);
    forall i | 0 <= i < |names|
      ensures NoLf(raw[i]) && StripCr(raw[i]) == raw[i] && Announced(raw[i]) == Some(names[i])
    {
      ClickIsALine(names[i]);
      LineAnnounces(names[i]);
    }
    SplitIsUnique(raw, []);
    assert Unlines(raw) + [] == Unlines(raw);
  }

  lemma ClicksGrow(names: seq<seq<Byte>>, name: seq<Byte>)
    ensures Clicks(names + [name]) == Clicks(names) + ClickText(name)
  {
    assert ClickLines(names + [name]) == ClickLines(names) + [ClickLine(name)];
  }

  method Hear(line: seq<Byte>) returns (name: Option<seq<Byte>>)
    ensures name == Announced(line)
  {
    var v := JsonNative.ParseText(line);
    if v == None || GetString(v.value, EventKey()) != Some(Click()) { return None; }
    name := GetString(v.value, NameKey());
  }

  /** The printer's own loops. */
  method Announce(names: seq<seq<Byte>>) returns (written: seq<Byte>)
    requires AllNulFree(names)
    ensures written == Clicks(names)
  {
    var out := new Output();
    for i := 0 to |names|
      invariant fresh(out) && out.written == Clicks(names[..i])
    {
      CStrUnique(names[i], names[i]);
      ClicksGrow(names[..i], names[i]);
      assert names[..i + 1] == names[..i] + [names[i]];
      out.EmitClick(Some(names[i]));
    }
    assert names[..|names|] == names;
    written := out.written;
  }

  /** The reader's own loops, on the stream cut anywhere. */
  method Listen(ghost names: seq<seq<Byte>>, chunks: seq<seq<Byte>>) returns (heard: seq<Option<seq<Byte>>>)
    requires AllNulFree(names) && Concat(chunks) == Clicks(names)
    ensures |heard| == |names| && forall i :: 0 <= i < |names| ==> heard[i] == Some(names[i])
  {
    var lines, _ := ReadAll(chunks);
    NamesComeThrough(names, chunks);
    heard := [];
    for i := 0 to |lines|
      invariant |heard| == i && forall j :: 0 <= j < i ==> heard[j] == Announced(lines[j])
    {
      var name := Hear(lines[i]);
      heard := heard + [name];
    }
  }

  /** Cut a stream into reads of the given sizes, and the rest. */
  function Cut(s: seq<Byte>, sizes: seq<nat>): seq<seq<Byte>>
    decreases |sizes|
  {
    if sizes == [] then [s] else
    var k := if sizes[0] <= |s| then sizes[0] else |s|;
    [s[..k]] + Cut(s[k..], sizes[1..])
  }

  lemma {:induction false} CutIsWhole(s: seq<Byte>, sizes: seq<nat>)
    ensures Concat(Cut(s, sizes)) == s
    decreases |sizes|
  {
    if sizes == [] {
      assert [s][1..] == [];
      assert s + [] == s;
    } else {
      var k := if sizes[0] <= |s| then sizes[0] else |s|;
      CutIsWhole(s[k..], sizes[1..]);
      assert Cut(s, sizes)[1..] == Cut(s[k..], sizes[1..]);
      assert s[..k] + s[k..] == s;
    }
  }

  /** Print, cut, read, parse: every name is heard, in order, whatever the cuts. */
  method Relay(names: seq<seq<Byte>>, sizes: seq<nat>) returns (heard: seq<Option<seq<Byte>>>)
    requires AllNulFree(names)
    ensures |heard| == |names| && forall i :: 0 <= i < |names| ==> heard[i] == Some(names[i])
  {
    var written := Announce(names);
    CutIsWhole(written, sizes);
    heard := Listen(names, Cut(written, sizes));
  }
}
