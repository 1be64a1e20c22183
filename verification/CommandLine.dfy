/** The Windows command line of a child process, and the rules by which the child splits it
    into arguments again. */
module CommandLine {
  import opened Bytes

  const SLASH: Byte := B('\\')
  const QUOTE: Byte := B('"')

  // ---- how the line is built

  predicate NeedsQuotes(arg: seq<Byte>) {
    arg == [] || exists i :: 0 <= i < |arg| && CallsForQuotes(arg[i])
  }

  predicate CallsForQuotes(b: Byte) {
    b == B(' ') || b == B('\t') || b == B('\n') || b == 11 || b == QUOTE
  }

  /** The number of backslashes from index `i` on. */
  function Slashes(s: seq<Byte>, i: nat): (n: nat)
    requires i <= |s|
    ensures i + n <= |s|
    decreases |s| - i
  {
    if i < |s| && s[i] == SLASH then 1 + Slashes(s, i + 1) else 0
  }

  function Repeat(n: nat): (s: seq<Byte>)
    ensures |s| == n
  {
    if n == 0 then [] else [SLASH] + Repeat(n - 1)
  }

  /** The argument from index `i` on: backslashes double before a quote, and in a quoted
      argument also at its end. */
  function Escaped(arg: seq<Byte>, i: nat, quote: bool): seq<Byte>
    requires i <= |arg|
    decreases |arg| - i
  {
    var n := Slashes(arg, i);
    if i + n == |arg| then Repeat(if quote then 2 * n else n)
    else Head(arg, i) + Escaped(arg, i + n + 1, quote)
  }

  /** A run of backslashes and the byte after it. */
  function Head(arg: seq<Byte>, i: nat): seq<Byte>
    requires i <= |arg| && i + Slashes(arg, i) < |arg|
  {
    Run(Slashes(arg, i), arg[i + Slashes(arg, i)])
  }

  function Run(n: nat, b: Byte): seq<Byte> {
    Repeat(if b == QUOTE then 2 * n + 1 else n) + [b]
  }

  function Quoted(arg: seq<Byte>): seq<Byte> {
    if NeedsQuotes(arg) then [QUOTE] + (Escaped(arg, 0, true) + [QUOTE]) else Escaped(arg, 0, false)
  }

  /** The arguments from the second on, each behind a space. */
  function Others(args: seq<seq<Byte>>): seq<Byte> {
    if args == [] then [] else [B(' ')] + (Quoted(args[0]) + Others(args[1..]))
  }

  function Line(args: seq<seq<Byte>>): seq<Byte> {
    if args == [] then [] else Quoted(args[0]) + Others(args[1..])
  }

  // ---- how it is split

  /** What a second quote right after a closing one does, besides standing for a quote: the
      two conventions of Microsoft's C runtimes. */
  datatype DoubledQuote = StaysQuoted | EndsQuoted

  predicate Blank(b: Byte) { b == B(' ') || b == B('\t') }

  datatype Arg = Arg(value: seq<Byte>, end: nat)

  function Prepend(s: seq<Byte>, a: Arg): Arg { Arg(s + a.value, a.end) }

  /** One argument from position `p` on: 2n backslashes before a quote stand for n and the
      quote delimits, 2n + 1 stand for n and a literal quote, others stand for themselves. */
  function ReadArg(line: seq<Byte>, p: nat, quoted: bool, rule: DoubledQuote): (a: Arg)
    requires p <= |line|
    ensures p <= a.end <= |line|
    ensures p < |line| && !Blank(line[p]) ==> p < a.end
    decreases |line| - p
  {
    var n := Slashes(line, p);
    var e := p + n;
    if e == |line| || (!quoted && Blank(line[e])) then Arg(Repeat(n), e)
    else if line[e] != QUOTE then Prepend(Repeat(n) + [line[e]], ReadArg(line, e + 1, quoted, rule))
    else if n % 2 == 1 then Prepend(Repeat(n / 2) + [QUOTE], ReadArg(line, e + 1, quoted, rule))
    else if quoted && e + 1 < |line| && line[e + 1] == QUOTE then
      Prepend(Repeat(n / 2) + [QUOTE], ReadArg(line, e + 2, rule == StaysQuoted, rule))
    else Prepend(Repeat(n / 2), ReadArg(line, e + 1, !quoted, rule))
  }

  function SkipBlanks(line: seq<Byte>, p: nat): (q: nat)
    requires p <= |line|
    ensures p <= q <= |line| && (q < |line| ==> !Blank(line[q]))
    decreases |line| - p
  {
    if p < |line| && Blank(line[p]) then SkipBlanks(line, p + 1) else p
  }

  function SplitFrom(line: seq<Byte>, p: nat, rule: DoubledQuote): seq<seq<Byte>>
    requires p <= |line|
    decreases |line| - p
  {
    var q := SkipBlanks(line, p);
    if q == |line| then [] else
    var a := ReadArg(line, q, false, rule);
    [a.value] + SplitFrom(line, a.end, rule)
  }

  function Split(line: seq<Byte>, rule: DoubledQuote): seq<seq<Byte>> { SplitFrom(line, 0, rule) }

  // ---- the round trip

  predicate EndsArg(line: seq<Byte>, p: nat) { p == |line| || (p < |line| && Blank(line[p])) }

  lemma {:induction false} SlashesAt(line: seq<Byte>, p: nat, n: nat)
    requires At(line, p, Repeat(n)) && (p + n == |line| || line[p + n] != SLASH)
    ensures Slashes(line, p) == n
    decreases n
  {
    if n > 0 {
      AtParts(line, p, [SLASH], Repeat(n - 1));
      AtIndex(line, p, [SLASH], 0);
      SlashesAt(line, p + 1, n - 1);
    }
  }

  lemma {:induction false} SlashesEnd(s: seq<Byte>, i: nat)
    requires i <= |s|
    ensures var n := Slashes(s, i); s[i..i + n] == Repeat(n) && (i + n < |s| ==> s[i + n] != SLASH)
    decreases |s| - i
  {
    if i < |s| && s[i] == SLASH {
      SlashesEnd(s, i + 1);
      assert s[i..i + Slashes(s, i)] == [SLASH] + s[i + 1..i + Slashes(s, i)];
    }
  }

  lemma ByteStep(line: seq<Byte>, p: nat, n: nat, m: nat, quoted: bool, rule: DoubledQuote)
    requires p + n + 1 == m <= |line| && Slashes(line, p) == n
    requires line[p + n] != QUOTE && (quoted || !Blank(line[p + n]))
    ensures ReadArg(line, p, quoted, rule).value == Repeat(n) + [line[p + n]] + ReadArg(line, m, quoted, rule).value
    ensures ReadArg(line, p, quoted, rule).end == ReadArg(line, m, quoted, rule).end
  {
  }

  lemma QuoteStep(line: seq<Byte>, p: nat, n: nat, m: nat, quoted: bool, rule: DoubledQuote)
    requires p + 2 * n + 2 == m <= |line| && Slashes(line, p) == 2 * n + 1 && line[m - 1] == QUOTE
    ensures ReadArg(line, p, quoted, rule).value == Repeat(n) + [QUOTE] + ReadArg(line, m, quoted, rule).value
    ensures ReadArg(line, p, quoted, rule).end == ReadArg(line, m, quoted, rule).end
  {
  }

  lemma RunStands(line: seq<Byte>, p: nat, n: nat, b: Byte)
    requires At(line, p, Repeat(n) + [b]) && b != SLASH
    ensures p + n < |line| && line[p + n] == b && Slashes(line, p) == n
  {
    AtParts(line, p, Repeat(n), [b]);
    AtIndex(line, p + n, [b], 0);
    SlashesAt(line, p, n);
  }

  /** An even number of backslashes and the closing quote. */
  lemma ReadClosing(line: seq<Byte>, p: nat, n: nat, rule: DoubledQuote)
    requires At(line, p, Repeat(2 * n)) && p + 2 * n < |line| && line[p + 2 * n] == QUOTE
    requires EndsArg(line, p + 2 * n + 1)
    ensures var a := ReadArg(line, p, true, rule); a.value == Repeat(n) && a.end == p + 2 * n + 1
  {
    SlashesAt(line, p, 2 * n);
    var e := p + 2 * n + 1;
    ReadEnd(line, e, 0, rule);
    assert Repeat(n) + Repeat(0) == Repeat(n);
  }

  /** The backslashes at the end of an argument. */
  lemma ReadEnd(line: seq<Byte>, p: nat, n: nat, rule: DoubledQuote)
    requires At(line, p, Repeat(n)) && EndsArg(line, p + n)
    ensures var a := ReadArg(line, p, false, rule); a.value == Repeat(n) && a.end == p + n
  {
    SlashesAt(line, p, n);
  }

  /** An argument is its runs of backslashes and the bytes after them. */
  lemma ArgParts(arg: seq<Byte>, i: nat)
    requires i <= |arg|
    ensures var n := Slashes(arg, i);
      if i + n == |arg| then arg[i..] == Repeat(n)
      else arg[i + n] != SLASH && arg[i..] == Repeat(n) + [arg[i + n]] + arg[i + n + 1..]
  {
    var n := Slashes(arg, i);
    SlashesEnd(arg, i);
    assert arg[i..] == arg[i..i + n] + arg[i + n..];
  }

  /** A run of backslashes and the byte after it, read back. */
  lemma RunReads(line: seq<Byte>, p: nat, n: nat, b: Byte, m: nat, quoted: bool, rule: DoubledQuote)
    requires b != SLASH && (quoted || !CallsForQuotes(b)) && At(line, p, Run(n, b)) && m == p + |Run(n, b)|
    ensures m <= |line|
    ensures ReadArg(line, p, quoted, rule).value == Repeat(n) + [b] + ReadArg(line, m, quoted, rule).value
    ensures ReadArg(line, p, quoted, rule).end == ReadArg(line, m, quoted, rule).end
  {
    if b == QUOTE {
      RunStands(line, p, 2 * n + 1, b);
      QuoteStep(line, p, n, m, quoted, rule);
    } else {
      RunStands(line, p, n, b);
      ByteStep(line, p, n, m, quoted, rule);
    }
  }

  /** If the rest of an argument reads back from `m` on, so does the argument from its run on. */
  lemma RestReads(line: seq<Byte>, p: nat, arg: seq<Byte>, i: nat, m: nat, quoted: bool, rule: DoubledQuote)
    requires i <= |arg| && i + Slashes(arg, i) < |arg| && (quoted || !NeedsQuotes(arg))
    requires At(line, p, Head(arg, i)) && m == p + |Head(arg, i)| <= |line|
    requires ReadArg(line, m, quoted, rule).value == arg[i + Slashes(arg, i) + 1..]
    ensures ReadArg(line, p, quoted, rule).value == arg[i..]
    ensures ReadArg(line, p, quoted, rule).end == ReadArg(line, m, quoted, rule).end
  {
    var n := Slashes(arg, i);
    ArgParts(arg, i);
    RunReads(line, p, n, arg[i + n], m, quoted, rule);
  }

  /** Where an escaped argument ends: at its closing quote, or at the end of the line or a
      blank; and the position after it. */
  predicate Closes(line: seq<Byte>, e: nat, quoted: bool) {
    if quoted then e < |line| && line[e] == QUOTE && EndsArg(line, e + 1) else EndsArg(line, e)
  }

  function After(e: nat, quoted: bool): nat { if quoted then e + 1 else e }

  /** The last backslashes of an argument. */
  lemma LastReads(line: seq<Byte>, p: nat, n: nat, quoted: bool, rule: DoubledQuote)
    requires At(line, p, Repeat(if quoted then 2 * n else n)) && Closes(line, p + if quoted then 2 * n else n, quoted)
    ensures ReadArg(line, p, quoted, rule).value == Repeat(n)
    ensures ReadArg(line, p, quoted, rule).end == After(p + if quoted then 2 * n else n, quoted)
  {
    if quoted { ReadClosing(line, p, n, rule); } else { ReadEnd(line, p, n, rule); }
  }

  /** An escaped argument reads back to its end at `e`. */
  lemma {:induction false} EscapedReads(line: seq<Byte>, p: nat, arg: seq<Byte>, i: nat, e: nat, quoted: bool,
                                        rule: DoubledQuote)
    requires i <= |arg| && (quoted || !NeedsQuotes(arg))
    requires At(line, p, Escaped(arg, i, quoted)) && e == p + |Escaped(arg, i, quoted)| && Closes(line, e, quoted)
    ensures ReadArg(line, p, quoted, rule).value == arg[i..]
    ensures ReadArg(line, p, quoted, rule).end == After(e, quoted)
    decreases |arg| - i
  {
    var n := Slashes(arg, i);
    if i + n == |arg| {
      ArgParts(arg, i);
      LastReads(line, p, n, quoted, rule);
    } else {
      var m := EscapedParts(line, p, arg, i, e, quoted);
      EscapedReads(line, m, arg, i + n + 1, e, quoted, rule);
      RestReads(line, p, arg, i, m, quoted, rule);
    }
  }

  /** The head of an escaped argument ends at `m`, where its rest begins. */
  lemma EscapedParts(line: seq<Byte>, p: nat, arg: seq<Byte>, i: nat, e: nat, quoted: bool) returns (m: nat)
    requires i <= |arg| && i + Slashes(arg, i) < |arg|
    requires At(line, p, Escaped(arg, i, quoted)) && e == p + |Escaped(arg, i, quoted)|
    ensures At(line, p, Head(arg, i)) && m == p + |Head(arg, i)| <= |line|
    ensures var rest := Escaped(arg, i + Slashes(arg, i) + 1, quoted); At(line, m, rest) && e == m + |rest|
  {
    var head := Head(arg, i);
    m := p + |head|;
    AtParts(line, p, head, Escaped(arg, i + Slashes(arg, i) + 1, quoted));
  }

  lemma ReadBack(line: seq<Byte>, p: nat, arg: seq<Byte>, q: nat, rule: DoubledQuote)
    requires At(line, p, Quoted(arg)) && q == p + |Quoted(arg)| && EndsArg(line, q)
    ensures p < |line| && !Blank(line[p])
    ensures ReadArg(line, p, false, rule).value == arg && ReadArg(line, p, false, rule).end == q
  {
    assert arg[0..] == arg;
    if NeedsQuotes(arg) {
      OpensQuoted(line, p, Escaped(arg, 0, true), rule);
      EscapedReads(line, p + 1, arg, 0, q - 1, true, rule);
    } else {
      EscapedReads(line, p, arg, 0, q, false, rule);
      PlainStart(line, p, arg);
    }
  }

  lemma PlainStart(line: seq<Byte>, p: nat, arg: seq<Byte>)
    requires !NeedsQuotes(arg) && At(line, p, Escaped(arg, 0, false))
    ensures p < |line| && !Blank(line[p])
  {
    FirstByte(arg);
    AtIndex(line, p, Escaped(arg, 0, false), 0);
  }

  lemma OpensQuoted(line: seq<Byte>, p: nat, inner: seq<Byte>, rule: DoubledQuote)
    requires At(line, p, [QUOTE] + (inner + [QUOTE]))
    ensures p + 1 + |inner| < |line| && At(line, p + 1, inner) && line[p + 1 + |inner|] == QUOTE
    ensures !Blank(line[p])
    ensures var a, rest := ReadArg(line, p, false, rule), ReadArg(line, p + 1, true, rule);
      a.value == rest.value && a.end == rest.end
  {
    AtParts(line, p, [QUOTE], inner + [QUOTE]);
    AtIndex(line, p, [QUOTE], 0);
    AtParts(line, p + 1, inner, [QUOTE]);
    AtIndex(line, p + 1 + |inner|, [QUOTE], 0);
    SlashesAt(line, p, 0);
  }

  lemma FirstByte(arg: seq<Byte>)
    requires !NeedsQuotes(arg)
    ensures Escaped(arg, 0, false) != [] && Escaped(arg, 0, false)[0] == arg[0] && !Blank(arg[0])
  {
    assert !CallsForQuotes(arg[0]);
  }

  /** One argument of the line, with the blank or end behind it at `q`. */
  lemma SplitStep(line: seq<Byte>, p: nat, arg: seq<Byte>, q: nat, rule: DoubledQuote)
    requires At(line, p, Quoted(arg)) && q == p + |Quoted(arg)| && EndsArg(line, q)
    ensures p < |line| && !Blank(line[p])
    ensures SplitFrom(line, p, rule) == [arg] + SplitFrom(line, q, rule)
  {
    ReadBack(line, p, arg, q, rule);
    SplitOne(line, p, rule);
  }

  lemma SplitOne(line: seq<Byte>, p: nat, rule: DoubledQuote)
    requires p < |line| && !Blank(line[p])
    ensures var a := ReadArg(line, p, false, rule); SplitFrom(line, p, rule) == [a.value] + SplitFrom(line, a.end, rule)
  {
  }

  lemma SplitSkips(line: seq<Byte>, p: nat, rule: DoubledQuote)
    requires p + 1 < |line| && Blank(line[p]) && !Blank(line[p + 1])
    ensures SplitFrom(line, p, rule) == SplitFrom(line, p + 1, rule)
  {
    assert SkipBlanks(line, p + 1) == p + 1;
    assert SkipBlanks(line, p) == p + 1;
  }

  lemma OthersStart(line: seq<Byte>, q: nat, rest: seq<seq<Byte>>)
    requires At(line, q, Others(rest)) && q + |Others(rest)| == |line|
    ensures EndsArg(line, q)
  {
    if rest != [] { AtIndex(line, q, Others(rest), 0); }
  }

  lemma {:induction false} OthersReadBack(line: seq<Byte>, p: nat, args: seq<seq<Byte>>, rule: DoubledQuote)
    requires At(line, p, Others(args)) && p + |Others(args)| == |line|
    ensures SplitFrom(line, p, rule) == args
    decreases |args|
  {
    if args != [] {
      var q := OthersParts(line, p, args);
      OthersStart(line, q, args[1..]);
      SplitStep(line, p + 1, args[0], q, rule);
      SplitSkips(line, p, rule);
      OthersReadBack(line, q, args[1..], rule);
      assert args == [args[0]] + args[1..];
    }
  }

  lemma OthersParts(line: seq<Byte>, p: nat, args: seq<seq<Byte>>) returns (q: nat)
    requires args != [] && At(line, p, Others(args)) && p + |Others(args)| == |line|
    ensures p < |line| && Blank(line[p]) && q == p + 1 + |Quoted(args[0])| && At(line, p + 1, Quoted(args[0]))
    ensures At(line, q, Others(args[1..])) && q + |Others(args[1..])| == |line|
  {
    q := WordParts(line, p, Quoted(args[0]), Others(args[1..]));
  }

  lemma WordParts(line: seq<Byte>, p: nat, word: seq<Byte>, rest: seq<Byte>) returns (q: nat)
    requires At(line, p, [B(' ')] + (word + rest))
    ensures p < |line| && Blank(line[p]) && q == p + 1 + |word| && At(line, p + 1, word) && At(line, q, rest)
  {
    AtParts(line, p, [B(' ')], word + rest);
    AtIndex(line, p, [B(' ')], 0);
    AtParts(line, p + 1, word, rest);
    q := p + 1 + |word|;
  }

  /** The first word of a line, and where the others begin. */
  lemma LineParts(args: seq<seq<Byte>>, q: nat)
    requires args != [] && q == |Quoted(args[0])|
    ensures var line := Line(args);
      && At(line, 0, Quoted(args[0])) && At(line, q, Others(args[1..])) && q + |Others(args[1..])| == |line|
      && EndsArg(line, q)
  {
    AtParts(Line(args), 0, Quoted(args[0]), Others(args[1..]));
    OthersStart(Line(args), q, args[1..]);
  }

  lemma WordAndOthers(line: seq<Byte>, arg: seq<Byte>, rest: seq<seq<Byte>>, q: nat, rule: DoubledQuote)
    requires q == |Quoted(arg)| && At(line, 0, Quoted(arg)) && EndsArg(line, q)
    requires At(line, q, Others(rest)) && q + |Others(rest)| == |line|
    ensures SplitFrom(line, 0, rule) == [arg] + rest
  {
    SplitStep(line, 0, arg, q, rule);
    OthersReadBack(line, q, rest, rule);
  }

  /** Splitting the line gives back every argument, under either convention. */
  lemma SplitUndoesLine(args: seq<seq<Byte>>, rule: DoubledQuote)
    ensures Split(Line(args), rule) == args
  {
    if args != [] {
      LineParts(args, |Quoted(args[0])|);
      WordAndOthers(Line(args), args[0], args[1..], |Quoted(args[0])|, rule);
      assert args == [args[0]] + args[1..];
    }
  }

  // ---- the program name

  /** The first word by the rule for program names: quotes toggle, backslashes are ordinary. */
  function ReadName(line: seq<Byte>, p: nat, quoted: bool): (a: Arg)
    requires p <= |line|
    ensures p <= a.end <= |line|
    decreases |line| - p
  {
    if p == |line| || (!quoted && Blank(line[p])) then Arg([], p)
    else if line[p] == QUOTE then ReadName(line, p + 1, !quoted)
    else Prepend([line[p]], ReadName(line, p + 1, quoted))
  }

  function SplitProgram(line: seq<Byte>, rule: DoubledQuote): seq<seq<Byte>> {
    var name := ReadName(line, 0, false);
    [name.value] + SplitFrom(line, name.end, rule)
  }

  ghost predicate HasQuote(s: seq<Byte>) { exists i :: 0 <= i < |s| && s[i] == QUOTE }

  lemma {:induction false} NamesHaveNoQuote(line: seq<Byte>, p: nat, quoted: bool)
    requires p <= |line|
    ensures !HasQuote(ReadName(line, p, quoted).value)
    decreases |line| - p
  {
    if p < |line| {
      if line[p] == QUOTE { NamesHaveNoQuote(line, p + 1, !quoted); }
      else if quoted || !Blank(line[p]) { NamesHaveNoQuote(line, p + 1, quoted); }
    }
  }

  /** Bytes that neither delimit nor toggle are copied. */
  lemma {:induction false} NameCopies(line: seq<Byte>, p: nat, s: seq<Byte>, e: nat, quoted: bool)
    requires At(line, p, s) && e == p + |s| && !HasQuote(s) && (quoted || forall i :: 0 <= i < |s| ==> !Blank(s[i]))
    ensures ReadName(line, p, quoted).value == s + ReadName(line, e, quoted).value
    ensures ReadName(line, p, quoted).end == ReadName(line, e, quoted).end
    decreases |s|
  {
    if s != [] {
      var b, rest := s[0], s[1..];
      assert s == [b] + rest && b != QUOTE;
      AtParts(line, p, [b], rest);
      assert forall i {:trigger rest[i]} :: 0 <= i < |rest| ==> rest[i] == s[i + 1];
      NameCopies(line, p + 1, rest, e, quoted);
      NameCopiesByte(line, p, b, quoted);
      Assoc([b], rest, ReadName(line, e, quoted).value);
    }
  }

  lemma NameCopiesByte(line: seq<Byte>, p: nat, b: Byte, quoted: bool)
    requires At(line, p, [b]) && b != QUOTE && (quoted || !Blank(b))
    ensures ReadName(line, p, quoted).value == [b] + ReadName(line, p + 1, quoted).value
    ensures ReadName(line, p, quoted).end == ReadName(line, p + 1, quoted).end
  {
    AtIndex(line, p, [b], 0);
  }

  ghost predicate EndsWithSlash(arg: seq<Byte>) { arg != [] && arg[|arg| - 1] == SLASH }

  /** Without a quote inside, an argument is written as it is, apart from the backslashes
      doubled at the end of a quoted one. */
  lemma {:induction false} EscapedIsArg(arg: seq<Byte>, i: nat, quote: bool) returns (k: nat)
    requires i <= |arg| && !HasQuote(arg)
    ensures Escaped(arg, i, quote) == arg[i..] + Repeat(k)
    ensures k > 0 <==> quote && i < |arg| && EndsWithSlash(arg)
    decreases |arg| - i
  {
    var n := Slashes(arg, i);
    if i + n == |arg| {
      k := EndIsArg(arg, i, quote);
    } else {
      k := EscapedIsArg(arg, i + n + 1, quote);
      StepIsArg(arg, i, quote, k);
    }
  }

  lemma EndIsArg(arg: seq<Byte>, i: nat, quote: bool) returns (k: nat)
    requires i <= |arg| && i + Slashes(arg, i) == |arg|
    ensures Escaped(arg, i, quote) == arg[i..] + Repeat(k)
    ensures k > 0 <==> quote && i < |arg| && EndsWithSlash(arg)
  {
    var n := Slashes(arg, i);
    k := if quote then n else 0;
    ArgParts(arg, i);
    RepeatTwice(n, k);
    if n > 0 { LastOfRepeat(arg[i..], n); }
  }

  lemma StepIsArg(arg: seq<Byte>, i: nat, quote: bool, k: nat)
    requires i <= |arg| && i + Slashes(arg, i) < |arg| && !HasQuote(arg)
    requires var j := i + Slashes(arg, i) + 1;
      Escaped(arg, j, quote) == arg[j..] + Repeat(k) && (k > 0 <==> quote && j < |arg| && EndsWithSlash(arg))
    ensures Escaped(arg, i, quote) == arg[i..] + Repeat(k)
    ensures k > 0 <==> quote && EndsWithSlash(arg)
  {
    var n := Slashes(arg, i);
    var b, rest := arg[i + n], arg[i + n + 1..];
    ArgParts(arg, i);
    assert b != QUOTE && Head(arg, i) == Repeat(n) + [b];
    Assoc(Repeat(n) + [b], rest, Repeat(k));
  }

  lemma {:induction false} RepeatTwice(m: nat, n: nat)
    ensures Repeat(m + n) == Repeat(m) + Repeat(n)
  {
    if m > 0 { RepeatTwice(m - 1, n); }
  }

  lemma {:induction false} LastOfRepeat(s: seq<Byte>, n: nat)
    requires n > 0 && s == Repeat(n)
    ensures s[n - 1] == SLASH
  {
    if n > 1 { LastOfRepeat(s[1..], n - 1); }
  }

  lemma {:induction false} RepeatHasNoQuote(n: nat)
    ensures forall i :: 0 <= i < n ==> Repeat(n)[i] == SLASH
  {
    if n > 0 { RepeatHasNoQuote(n - 1); }
  }

  /** How a program name without a quote reads back: it gains the doubled backslashes. */
  lemma NameReadsBack(line: seq<Byte>, arg: seq<Byte>) returns (k: nat)
    requires At(line, 0, Quoted(arg)) && EndsArg(line, |Quoted(arg)|) && !HasQuote(arg)
    ensures ReadName(line, 0, false).value == arg + Repeat(k) && ReadName(line, 0, false).end == |Quoted(arg)|
    ensures k > 0 <==> NeedsQuotes(arg) && EndsWithSlash(arg)
  {
    k := EscapedIsArg(arg, 0, NeedsQuotes(arg));
    assert arg[0..] == arg;
    NoQuoteAdded(arg, k);
    if NeedsQuotes(arg) {
      QuotedNameReads(line, arg + Repeat(k));
    } else {
      assert arg + Repeat(k) == arg;
      PlainNameReads(line, arg);
    }
  }

  lemma NoQuoteAdded(arg: seq<Byte>, k: nat)
    requires !HasQuote(arg)
    ensures !HasQuote(arg + Repeat(k))
  {
    RepeatHasNoQuote(k);
  }

  lemma QuotedNameReads(line: seq<Byte>, body: seq<Byte>)
    requires At(line, 0, [QUOTE] + (body + [QUOTE])) && EndsArg(line, 2 + |body|) && !HasQuote(body)
    ensures ReadName(line, 0, false).value == body && ReadName(line, 0, false).end == 2 + |body|
  {
    AtParts(line, 0, [QUOTE], body + [QUOTE]);
    AtIndex(line, 0, [QUOTE], 0);
    AtParts(line, 1, body, [QUOTE]);
    AtIndex(line, 1 + |body|, [QUOTE], 0);
    NameCopies(line, 1, body, 1 + |body|, true);
    NameEnds(line, 2 + |body|);
    assert ReadName(line, 1 + |body|, true).value == [];
  }

  lemma PlainNameReads(line: seq<Byte>, arg: seq<Byte>)
    requires At(line, 0, arg) && EndsArg(line, |arg|) && !HasQuote(arg) && !NeedsQuotes(arg)
    ensures ReadName(line, 0, false).value == arg && ReadName(line, 0, false).end == |arg|
  {
    assert forall i :: 0 <= i < |arg| ==> !CallsForQuotes(arg[i]);
    NameCopies(line, 0, arg, |arg|, false);
    NameEnds(line, |arg|);
  }

  lemma NameEnds(line: seq<Byte>, p: nat)
    requires EndsArg(line, p)
    ensures ReadName(line, p, false).value == [] && ReadName(line, p, false).end == p
  {
  }

  ghost predicate SafeName(arg: seq<Byte>) {
    !HasQuote(arg) && !(NeedsQuotes(arg) && EndsWithSlash(arg))
  }

  lemma NameReadsBackIff(line: seq<Byte>, arg: seq<Byte>)
    requires At(line, 0, Quoted(arg)) && EndsArg(line, |Quoted(arg)|)
    ensures ReadName(line, 0, false).value == arg <==> SafeName(arg)
    ensures SafeName(arg) ==> ReadName(line, 0, false).end == |Quoted(arg)|
  {
    if HasQuote(arg) {
      NamesHaveNoQuote(line, 0, false);
    } else {
      var k := NameReadsBack(line, arg);
      if k == 0 { assert arg + Repeat(k) == arg; }
    }
  }

  /** Read as a program and its arguments, the line gives back the list exactly if the
      program's name holds no quote and is not a quoted name that ends in a backslash. */
  lemma ProgramReadsBack(args: seq<seq<Byte>>, rule: DoubledQuote)
    requires args != []
    ensures SplitProgram(Line(args), rule) == args <==> SafeName(args[0])
  {
    LineParts(args, |Quoted(args[0])|);
    NameAndOthers(Line(args), args[0], args[1..], |Quoted(args[0])|, rule);
    assert args == [args[0]] + args[1..];
  }

  lemma NameAndOthers(line: seq<Byte>, arg: seq<Byte>, rest: seq<seq<Byte>>, q: nat, rule: DoubledQuote)
    requires q == |Quoted(arg)| && At(line, 0, Quoted(arg)) && EndsArg(line, q)
    requires At(line, q, Others(rest)) && q + |Others(rest)| == |line|
    ensures SplitProgram(line, rule) == [arg] + rest <==> SafeName(arg)
  {
    NameReadsBackIff(line, arg);
    OthersReadBack(line, q, rest, rule);
    assert SplitProgram(line, rule)[0] == ReadName(line, 0, false).value;
  }

  /** A directory with a blank and a final backslash is quoted, and does not come back. */
  lemma UnsafeNameLost(rule: DoubledQuote)
    ensures var name := Ascii("a b\\"); !SafeName(name) && SplitProgram(Line([name]), rule) != [name]
  {
    var name := Ascii("a b\\");
    assert CallsForQuotes(name[1]);
    ProgramReadsBack([name], rule);
  }
}

/** Building and splitting, said in bytes. */
module CommandLineMeaning {
  import opened Bytes
  import opened CommandLine

  /** A space, a tab, a newline, a vertical tab or a quote stands in it. */
  ghost predicate HoldsSpecial(arg: seq<Byte>) {
    exists i :: 0 <= i < |arg| && (arg[i] == 0x20 || 0x09 <= arg[i] <= 0x0B || arg[i] == 0x22)
  }

  /** The empty argument and those with such a byte are put in quotes, no others. */
  lemma QuotedWhen(arg: seq<Byte>)
    ensures Quoted(arg) != [] && (Quoted(arg)[0] == 0x22 <==> arg == [] || HoldsSpecial(arg))
  {
    if !NeedsQuotes(arg) {
      FirstByte(arg);
      assert forall i :: 0 <= i < |arg| ==> !CallsForQuotes(arg[i]);
    } else if arg != [] {
      var i :| 0 <= i < |arg| && CallsForQuotes(arg[i]);
      assert arg[i] == 0x20 || 0x09 <= arg[i] <= 0x0B || arg[i] == 0x22;
    }
  }

  /** An argument that needs no quotes is written as it is. */
  lemma PlainIsCopied(arg: seq<Byte>)
    requires !NeedsQuotes(arg)
    ensures Quoted(arg) == arg
  {
    assert forall i :: 0 <= i < |arg| ==> !CallsForQuotes(arg[i]);
    var k := EscapedIsArg(arg, 0, false);
    assert arg[0..] == arg && Repeat(0) == [];
  }

  /** A quote that follows a closing one stands for itself, and the two conventions differ in
      whether the word is still quoted after it. */
  lemma DoubledQuoteReads(line: seq<Byte>, p: nat, rule: DoubledQuote)
    requires p + 2 <= |line| && line[p] == 0x22 && line[p + 1] == 0x22
    ensures var a, rest := ReadArg(line, p, true, rule), ReadArg(line, p + 2, rule.StaysQuoted?, rule);
      a.value == [0x22] + rest.value && a.end == rest.end
  {
  }

  lemma TwoWords(line: seq<Byte>, x: seq<Byte>, y: seq<Byte>, q: nat, rule: DoubledQuote)
    requires At(line, 0, Quoted(x)) && q == |Quoted(x)| && q < |line| && Blank(line[q])
    requires At(line, q + 1, Quoted(y)) && q + 1 + |Quoted(y)| == |line|
    ensures Split(line, rule) == [x, y]
  {
    SplitStep(line, 0, x, q, rule);
    SplitStep(line, q + 1, y, |line|, rule);
    SplitSkips(line, q, rule);
    assert SplitFrom(line, |line|, rule) == [];
  }

  /** A space or a tab between two plain words separates them. */
  lemma BlankSeparates(x: seq<Byte>, y: seq<Byte>, b: Byte, rule: DoubledQuote)
    requires !NeedsQuotes(x) && !NeedsQuotes(y) && (b == 0x20 || b == 0x09)
    ensures Split(x + ([b] + y), rule) == [x, y]
  {
    PlainIsCopied(x);
    PlainIsCopied(y);
    SeparatedParts(x, y, b);
    TwoWords(x + ([b] + y), x, y, |x|, rule);
  }

  lemma SeparatedParts(x: seq<Byte>, y: seq<Byte>, b: Byte)
    ensures var line := x + ([b] + y);
      At(line, 0, x) && line[|x|] == b && At(line, |x| + 1, y) && |line| == |x| + 1 + |y|
  {
  }
}
