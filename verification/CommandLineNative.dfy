/** Building the command line in a block whose size is computed beforehand. */
module CommandLineNative {
  import opened Bytes
  import opened CommandLine
  import opened OutBuffers

  /** The block: room for every byte doubled, a space, two quotes and a spare byte for each
      argument, and the terminator. */
  function Capacity(args: seq<seq<Byte>>): nat {
    if args == [] then 1 else Capacity(args[..|args| - 1]) + 2 * |args[|args| - 1]| + 4
  }

  function TotalLength(args: seq<seq<Byte>>): nat {
    if args == [] then 0 else |args[0]| + TotalLength(args[1..])
  }

  lemma {:induction false} TotalGrows(args: seq<seq<Byte>>, arg: seq<Byte>)
    ensures TotalLength(args + [arg]) == TotalLength(args) + |arg|
  {
    if args == [] {
      assert [arg][1..] == [];
    } else {
      assert (args + [arg])[0] == args[0] && (args + [arg])[1..] == args[1..] + [arg];
      TotalGrows(args[1..], arg);
    }
  }

  /** Twice the bytes of the arguments, four more for each, and one. */
  lemma {:induction false} CapacityIs(args: seq<seq<Byte>>)
    ensures Capacity(args) == 1 + 4 * |args| + 2 * TotalLength(args)
    decreases |args|
  {
    if args != [] {
      var init, last := args[..|args| - 1], args[|args| - 1];
      CapacityIs(init);
      TotalGrows(init, last);
      assert init + [last] == args;
    }
  }

  lemma {:induction false} EscapedBound(arg: seq<Byte>, i: nat, quote: bool)
    requires i <= |arg|
    ensures |Escaped(arg, i, quote)| <= 2 * (|arg| - i)
    decreases |arg| - i
  {
    var n := Slashes(arg, i);
    if i + n < |arg| { EscapedBound(arg, i + n + 1, quote); }
  }

  lemma {:induction false} OthersGrow(args: seq<seq<Byte>>, arg: seq<Byte>)
    ensures Others(args + [arg]) == Others(args) + ([B(' ')] + Quoted(arg))
  {
    var all := args + [arg];
    if args == [] {
      assert all == [arg] && all[1..] == [];
      Assoc([B(' ')], Quoted(arg), Others(all[1..]));
    } else {
      assert all[0] == args[0] && all[1..] == args[1..] + [arg];
      OthersGrow(args[1..], arg);
      Assoc(Quoted(args[0]), Others(args[1..]), [B(' ')] + Quoted(arg));
      Assoc([B(' ')], Quoted(args[0]) + Others(args[1..]), [B(' ')] + Quoted(arg));
    }
  }

  /** The bytes one more argument adds. */
  function Added(arg: seq<Byte>, first: bool): seq<Byte> {
    (if first then [] else [B(' ')]) + Quoted(arg)
  }

  lemma LineGrow(args: seq<seq<Byte>>, arg: seq<Byte>)
    ensures Line(args + [arg]) == Line(args) + Added(arg, args == [])
  {
    var all := args + [arg];
    if args == [] {
      assert all == [arg] && all[1..] == [];
      Assoc([], [], Quoted(arg));
    } else {
      assert all[0] == args[0] && all[1..] == args[1..] + [arg];
      OthersGrow(args[1..], arg);
      Assoc(Quoted(args[0]), Others(args[1..]), [B(' ')] + Quoted(arg));
    }
  }

  lemma AddedBound(arg: seq<Byte>, first: bool)
    ensures |Quoted(arg)| <= 2 * |arg| + 2 && |Added(arg, first)| <= 2 * |arg| + 3
  {
    EscapedBound(arg, 0, NeedsQuotes(arg));
  }

  /** The line and its terminator fit the block. */
  lemma {:induction false} LineFits(args: seq<seq<Byte>>)
    ensures |Line(args)| + 1 <= Capacity(args)
    decreases |args|
  {
    if args != [] {
      var init, last := args[..|args| - 1], args[|args| - 1];
      assert init + [last] == args;
      LineFits(init);
      LineFitsStep(init, last);
    }
  }

  lemma LineFitsStep(args: seq<seq<Byte>>, arg: seq<Byte>)
    requires |Line(args)| + 1 <= Capacity(args)
    ensures |Line(args + [arg])| + 1 <= Capacity(args + [arg])
  {
    LineGrow(args, arg);
    AddedBound(arg, args == []);
    assert (args + [arg])[..|args|] == args;
  }

  lemma {:induction false} CapacityGrows(args: seq<seq<Byte>>, n: nat)
    requires n <= |args|
    ensures Capacity(args[..n]) <= Capacity(args)
    decreases |args|
  {
    if n == |args| {
      assert args[..n] == args;
    } else {
      var init := args[..|args| - 1];
      assert args[..n] == init[..n];
      CapacityGrows(init, n);
    }
  }

  method PutSlashes(out: OutBuffer, n: nat)
    requires out.Valid() && n <= out.Room()
    modifies out`used, out.block
    ensures out.Valid() && out.Written() == old(out.Written()) + Repeat(n)
  {
    var left: nat := n;
    while left > 0
      invariant 0 <= left <= n && out.Valid() && left <= out.Room()
      invariant out.Written() + Repeat(left) == old(out.Written()) + Repeat(n)
    {
      Assoc(out.Written(), [SLASH], Repeat(left - 1));
      left := left - 1;
      out.Put(SLASH);
    }
    assert out.Written() + [] == out.Written();
  }

  /** Two backslashes for each one counted. */
  method PutTwice(out: OutBuffer, slashes: nat)
    requires out.Valid() && 2 * slashes <= out.Room()
    modifies out`used, out.block
    ensures out.Valid() && out.Written() == old(out.Written()) + Repeat(2 * slashes)
  {
    var left: nat := slashes;
    while left > 0
      invariant 0 <= left <= slashes && out.Valid() && 2 * left <= out.Room()
      invariant out.Written() + Repeat(2 * left) == old(out.Written()) + Repeat(2 * slashes)
    {
      Assoc(out.Written(), [SLASH], Repeat(2 * left - 1));
      Assoc(out.Written() + [SLASH], [SLASH], Repeat(2 * left - 2));
      left := left - 1;
      out.Put(SLASH);
      out.Put(SLASH);
    }
    assert out.Written() + [] == out.Written();
  }

  /** The argument between its quotes. */
  method WriteEscaped(out: OutBuffer, arg: seq<Byte>, quote: bool)
    requires out.Valid() && |Escaped(arg, 0, quote)| <= out.Room()
    modifies out`used, out.block
    ensures out.Valid() && out.Written() == old(out.Written()) + Escaped(arg, 0, quote)
  {
    var slashes := 0;
    ghost var goal := out.Written() + Escaped(arg, 0, quote);
    for i := 0 to |arg|
      invariant out.Valid() && slashes <= i && Slashes(arg, i - slashes) == slashes + Slashes(arg, i)
      invariant |goal| <= out.block.Length && out.Written() + Escaped(arg, i - slashes, quote) == goal
    {
      if arg[i] == SLASH {
        slashes := slashes + 1;
        continue;
      }
      WriteByte(out, arg, i, slashes, quote);
      slashes := 0;
    }
    if quote { PutTwice(out, slashes); } else { PutSlashes(out, slashes); }
  }

  /** The byte at `i` and the backslashes counted before it. */
  method WriteByte(out: OutBuffer, arg: seq<Byte>, i: nat, slashes: nat, ghost quote: bool)
    requires slashes <= i < |arg| && arg[i] != SLASH && Slashes(arg, i - slashes) == slashes
    requires out.Valid() && |Escaped(arg, i - slashes, quote)| <= out.Room()
    modifies out`used, out.block
    ensures out.Valid()
    ensures out.Written() + Escaped(arg, i + 1, quote) == old(out.Written()) + Escaped(arg, i - slashes, quote)
  {
    EscapedStep(arg, i - slashes, i, quote);
    Assoc(out.Written(), Head(arg, i - slashes), Escaped(arg, i + 1, quote));
    WriteHead(out, slashes, arg[i]);
  }

  method WriteHead(out: OutBuffer, slashes: nat, b: Byte)
    requires out.Valid() && (if b == QUOTE then 2 * slashes + 1 else slashes) + 1 <= out.Room()
    modifies out`used, out.block
    ensures out.Valid()
    ensures out.Written() == old(out.Written()) + (Repeat(if b == QUOTE then 2 * slashes + 1 else slashes) + [b])
  {
    if b == QUOTE {
      RepeatTwice(2 * slashes, 1);
      assert Repeat(1) == [SLASH];
      Assoc(out.Written(), Repeat(2 * slashes), [SLASH]);
      PutTwice(out, slashes);
      out.Put(SLASH);
    } else {
      PutSlashes(out, slashes);
    }
    Assoc(old(out.Written()), Repeat(if b == QUOTE then 2 * slashes + 1 else slashes), [b]);
    out.Put(b);
  }

  method WriteArg(out: OutBuffer, arg: seq<Byte>, first: bool)
    requires out.Valid() && |Quoted(arg)| + 1 <= out.Room()
    modifies out`used, out.block
    ensures out.Valid() && out.Written() == old(out.Written()) + Added(arg, first)
  {
    if first {
      WriteQuoted(out, arg);
      assert [] + Quoted(arg) == Quoted(arg);
    } else {
      out.Put(B(' '));
      WriteQuoted(out, arg);
      Assoc(old(out.Written()), [B(' ')], Quoted(arg));
    }
  }

  method WriteQuoted(out: OutBuffer, arg: seq<Byte>)
    requires out.Valid() && |Quoted(arg)| <= out.Room()
    modifies out`used, out.block
    ensures out.Valid() && out.Written() == old(out.Written()) + Quoted(arg)
  {
    var quote := NeedsQuotes(arg);
    if quote { out.Put(QUOTE); }
    WriteEscaped(out, arg, quote);
    if quote {
      out.Put(QUOTE);
      Wrap(old(out.Written()), Escaped(arg, 0, true));
    }
  }

  lemma Wrap(a: seq<Byte>, b: seq<Byte>)
    ensures a + ([QUOTE] + (b + [QUOTE])) == a + [QUOTE] + b + [QUOTE]
  {
  }

  lemma EscapedStep(arg: seq<Byte>, start: nat, i: nat, quote: bool)
    requires start <= i < |arg| && arg[i] != SLASH && Slashes(arg, start) == i - start
    ensures Escaped(arg, start, quote) == Head(arg, start) + Escaped(arg, i + 1, quote)
    ensures Head(arg, start) == Repeat(if arg[i] == QUOTE then 2 * (i - start) + 1 else i - start) + [arg[i]]
  {
  }

  /** The line and its terminator, in a block that is never overrun: every store above is
      within bounds. */
  method BuildCommandLine(args: seq<seq<Byte>>) returns (line: array<Byte>)
    ensures fresh(line) && line.Length == Capacity(args) && |Line(args)| < line.Length
    ensures line[..|Line(args)|] == Line(args) && line[|Line(args)|] == 0
  {
    var capacity := ComputeCapacity(args);
    var buffer := new OutBuffer(capacity);
    for i := 0 to |args|
      invariant buffer.Valid() && fresh(buffer) && fresh(buffer.block) && buffer.block.Length == capacity
      invariant buffer.Written() == Line(args[..i])
    {
      BuildStep(args, i);
      WriteArg(buffer, args[i], i == 0);
    }
    assert args[..|args|] == args;
    LineFits(args);
    buffer.Terminate();
    line := buffer.block;
    assert line[..|Line(args)|] == Line(args);
  }

  method ComputeCapacity(args: seq<seq<Byte>>) returns (capacity: nat)
    ensures capacity == Capacity(args)
  {
    capacity := 1;
    for i := 0 to |args|
      invariant capacity == Capacity(args[..i])
    {
      assert args[..i + 1][..i] == args[..i];
      capacity := capacity + |args[i]| * 2 + 4;
    }
    assert args[..|args|] == args;
  }

  /** Before an argument is written there is room for it, a space and the terminator. */
  lemma BuildStep(args: seq<seq<Byte>>, i: nat)
    requires i < |args|
    ensures |Line(args[..i])| + |Quoted(args[i])| + 2 <= Capacity(args)
    ensures Line(args[..i + 1]) == Line(args[..i]) + Added(args[i], i == 0)
  {
    var before := args[..i];
    assert args[..i + 1] == before + [args[i]] && args[..i + 1][..i] == before;
    LineGrow(before, args[i]);
    LineFits(before);
    AddedBound(args[i], i == 0);
    CapacityGrows(args, i + 1);
  }

  // ---- what the child sees

  lemma {:induction false} EscapedNulFree(arg: seq<Byte>, i: nat, quote: bool)
    requires i <= |arg| && NulFree(arg)
    ensures NulFree(Escaped(arg, i, quote))
    decreases |arg| - i
  {
    var n := Slashes(arg, i);
    RepeatHasNoQuote(n);
    RepeatHasNoQuote(2 * n);
    RepeatHasNoQuote(2 * n + 1);
    if i + n < |arg| { EscapedNulFree(arg, i + n + 1, quote); }
  }

  lemma AddedNulFree(arg: seq<Byte>, first: bool)
    requires NulFree(arg)
    ensures NulFree(Added(arg, first))
  {
    EscapedNulFree(arg, 0, NeedsQuotes(arg));
  }

  lemma {:induction false} LineNulFree(args: seq<seq<Byte>>)
    requires forall i :: 0 <= i < |args| ==> NulFree(args[i])
    ensures NulFree(Line(args))
    decreases |args|
  {
    if args != [] {
      var init, last := args[..|args| - 1], args[|args| - 1];
      LineNulFree(init);
      LineNulFreeStep(init, last);
      assert init + [last] == args;
    }
  }

  lemma LineNulFreeStep(args: seq<seq<Byte>>, arg: seq<Byte>)
    requires NulFree(Line(args)) && NulFree(arg)
    ensures NulFree(Line(args + [arg]))
  {
    AddedNulFree(arg, args == []);
    NulFreeParts(Line(args), Added(arg, args == []));
    LineGrow(args, arg);
  }

  lemma NulFreeParts(a: seq<Byte>, b: seq<Byte>)
    requires NulFree(a) && NulFree(b)
    ensures NulFree(a + b)
  {
  }

  /** The child reads the block up to its terminator, the first word as a program name.  The
      list is never empty and holds no NUL; it arrives exactly if that name is a safe one. */
  method PassArguments(args: seq<seq<Byte>>, rule: DoubledQuote) returns (received: seq<seq<Byte>>)
    requires args != [] && forall i :: 0 <= i < |args| ==> NulFree(args[i])
    ensures received == args <==> SafeName(args[0])
  {
    var line := BuildCommandLine(args);
    LineNulFree(args);
    CStrUnique(line[..], Line(args));
    ProgramReadsBack(args, rule);
    received := SplitProgram(CStr(line[..]), rule);
  }
}
