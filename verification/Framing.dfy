/** Lines out of a byte stream that arrives in arbitrary pieces. */
module Framing {
  import opened Bytes

  const LF: Byte := 10
  const CR: Byte := 13

  // ---- the split of a stream

  /** The complete lines of a stream, and the bytes after the last newline. */
  function RawLines(s: seq<Byte>): seq<seq<Byte>> {
    if s == [] then [] else
    var init := s[..|s| - 1];
    if s[|s| - 1] == LF then RawLines(init) + [Tail(init)] else RawLines(init)
  }

  function Tail(s: seq<Byte>): seq<Byte> {
    if s == [] || s[|s| - 1] == LF then [] else Tail(s[..|s| - 1]) + [s[|s| - 1]]
  }

  function StripCr(line: seq<Byte>): seq<Byte> {
    if line != [] && line[|line| - 1] == CR then StripCr(line[..|line| - 1]) else line
  }

  function Stripped(lines: seq<seq<Byte>>): (r: seq<seq<Byte>>)
    ensures |r| == |lines| && forall i :: 0 <= i < |r| ==> r[i] == StripCr(lines[i])
  {
    seq(|lines|, i requires 0 <= i < |lines| => StripCr(lines[i]))
  }

  /** What is posted for a stream. */
  function Lines(s: seq<Byte>): seq<seq<Byte>> { Stripped(RawLines(s)) }

  function Concat(pieces: seq<seq<Byte>>): seq<Byte> {
    if pieces == [] then [] else pieces[0] + Concat(pieces[1..])
  }

  /** Every line with its newline. */
  function Unlines(lines: seq<seq<Byte>>): seq<Byte> {
    if lines == [] then [] else Unlines(lines[..|lines| - 1]) + lines[|lines| - 1] + [0x0A]
  }

  ghost predicate NoLf(s: seq<Byte>) { forall i :: 0 <= i < |s| ==> s[i] != 0x0A }

  ghost predicate AreLines(lines: seq<seq<Byte>>) { forall i :: 0 <= i < |lines| ==> NoLf(lines[i]) }

  /** Nothing is lost or invented. */
  lemma {:induction false} SplitIsExact(s: seq<Byte>)
    ensures Unlines(RawLines(s)) + Tail(s) == s
  {
    if s != [] {
      var init, last := s[..|s| - 1], s[|s| - 1];
      SplitIsExact(init);
      assert init + [last] == s;
      if last == LF {
        UnlinesGrow(RawLines(init), Tail(init));
      } else {
        Assoc(Unlines(RawLines(init)), Tail(init), [last]);
      }
    }
  }

  lemma UnlinesGrow(lines: seq<seq<Byte>>, line: seq<Byte>)
    ensures Unlines(lines + [line]) == Unlines(lines) + line + [0x0A]
  {
    assert (lines + [line])[..|lines|] == lines;
  }

  /** No line holds a newline. */
  lemma {:induction false} SplitIsClean(s: seq<Byte>)
    ensures AreLines(RawLines(s)) && NoLf(Tail(s))
  {
    if s != [] { SplitIsClean(s[..|s| - 1]); }
  }

  lemma {:induction false} SplitTail(s: seq<Byte>, t: seq<Byte>)
    requires NoLf(t)
    ensures RawLines(s + t) == RawLines(s) && Tail(s + t) == Tail(s) + t
  {
    if t == [] {
      assert s + t == s;
    } else {
      var init := t[..|t| - 1];
      SplitTail(s, init);
      assert (s + t)[..|s + t| - 1] == s + init;
      assert Tail(s) + t == Tail(s) + init + [t[|t| - 1]];
    }
  }

  /** The split is the only one: newline-free lines and a newline-free rest that spell the
      stream are its lines and its tail. */
  lemma {:induction false} SplitIsUnique(lines: seq<seq<Byte>>, t: seq<Byte>)
    requires AreLines(lines) && NoLf(t)
    ensures RawLines(Unlines(lines) + t) == lines && Tail(Unlines(lines) + t) == t
  {
    var s := Unlines(lines);
    if lines != [] {
      var init := lines[..|lines| - 1];
      var last := lines[|lines| - 1];
      SplitIsUnique(init, last);
      assert s[..|s| - 1] == Unlines(init) + last;
      assert lines == init + [last];
    }
    SplitTail(s, t);
  }

  /** What has been seen may be forgotten except for the tail. */
  lemma {:induction false} SplitResumes(a: seq<Byte>, b: seq<Byte>)
    ensures RawLines(a + b) == RawLines(a) + RawLines(Tail(a) + b) && Tail(a + b) == Tail(Tail(a) + b)
  {
    if b == [] {
      SplitIsClean(a);
      SplitTail([], Tail(a));
      assert [] + Tail(a) == Tail(a);
      assert a + b == a && Tail(a) + b == Tail(a);
    } else {
      var init := b[..|b| - 1];
      SplitResumes(a, init);
      assert (a + b)[..|a + b| - 1] == a + init;
      assert (Tail(a) + b)[..|Tail(a) + b| - 1] == Tail(a) + init;
    }
  }

  lemma {:induction false} RawLinesGrow(s: seq<Byte>, b: Byte)
    ensures RawLines(s + [b]) == if b == LF then RawLines(s) + [Tail(s)] else RawLines(s)
    ensures Tail(s + [b]) == if b == LF then [] else Tail(s) + [b]
  {
    assert (s + [b])[..|s|] == s;
  }

  lemma StrippedParts(a: seq<seq<Byte>>, b: seq<seq<Byte>>)
    ensures Stripped(a + b) == Stripped(a) + Stripped(b)
  {
  }

  ghost predicate AllCr(s: seq<Byte>) { forall i :: 0 <= i < |s| ==> s[i] == 0x0D }

  /** A line without its trailing carriage returns: only those are cut off, and all of them. */
  lemma {:induction false} StripCrIs(line: seq<Byte>)
    ensures var r := StripCr(line);
      r <= line && AllCr(line[|r|..]) && (r != [] ==> r[|r| - 1] != 0x0D)
  {
    if line != [] && line[|line| - 1] == CR {
      var init := line[..|line| - 1];
      StripCrIs(init);
      var r := StripCr(init);
      assert line[|r|..] == init[|r|..] + [CR];
    }
  }

  /** And it is the only such prefix. */
  lemma {:induction false} StripCrUnique(line: seq<Byte>, r: seq<Byte>)
    requires r <= line && AllCr(line[|r|..]) && (r != [] ==> r[|r| - 1] != 0x0D)
    ensures StripCr(line) == r
  {
    StripCrIs(line);
    var s := StripCr(line);
    assert forall i {:trigger line[i]} :: |s| <= i < |line| ==> line[|s|..][i - |s|] == line[i];
    assert forall i {:trigger line[i]} :: |r| <= i < |line| ==> line[|r|..][i - |r|] == line[i];
    assert s != [] ==> s[|s| - 1] == line[|s| - 1];
    assert r != [] ==> r[|r| - 1] == line[|r| - 1];
  }

  /** One byte of a scan. */
  lemma ScanStep(s: seq<Byte>, b: Byte)
    ensures Lines(s + [b]) == if b == LF then Lines(s) + [StripCr(Tail(s))] else Lines(s)
    ensures Tail(s + [b]) == if b == LF then [] else Tail(s) + [b]
  {
    RawLinesGrow(s, b);
    StrippedParts(RawLines(s), [Tail(s)]);
  }

  lemma {:induction false} ConcatSnoc(pieces: seq<seq<Byte>>, piece: seq<Byte>)
    ensures Concat(pieces + [piece]) == Concat(pieces) + piece
  {
    if pieces != [] {
      assert (pieces + [piece])[1..] == pieces[1..] + [piece];
      ConcatSnoc(pieces[1..], piece);
    }
  }

  // ---- the reader

  class LineReader {
    var buf: array<Byte>
    var len: nat
    var posted: seq<seq<Byte>>

    ghost predicate Valid() reads this, buf {
      len <= buf.Length && (buf.Length > 0 ==> len < buf.Length && buf[len] == 0)
    }

    ghost function Pending(): seq<Byte> reads this, buf requires Valid() { buf[..len] }

    constructor ()
      ensures Valid() && fresh(buf) && Pending() == [] && posted == []
    {
      buf := new Byte[0];
      len := 0;
      posted := [];
    }

    /** Make room for `n` more bytes and a NUL. */
    method Reserve(n: nat)
      requires Valid()
      modifies this`buf
      ensures len + n + 1 <= buf.Length && (buf == old(buf) || fresh(buf)) && buf[..len] == old(buf[..len])
    {
      if len + n + 1 <= buf.Length { return; }
      var cap := if buf.Length != 0 then buf.Length else 8192;
      while len + n + 1 > cap
        invariant 0 < cap && buf.Length <= cap
        decreases len + n + 1 - cap
      {
        cap := cap * 2;
      }
      var larger := new Byte[cap](i => 0);
      for i := 0 to len
        invariant buf == old(buf)
        invariant larger[..i] == buf[..i]
      {
        larger[i] := buf[i];
      }
      buf := larger;
    }

    /** A line without its trailing carriage returns. */
    method Post(start: nat, end: nat)
      requires Valid() && start <= end <= len
      modifies this`posted
      ensures posted == old(posted) + [StripCr(buf[start..end])]
    {
      var stop := end;
      while stop > start && buf[stop - 1] == CR
        invariant start <= stop <= end
        invariant StripCr(buf[start..end]) == StripCr(buf[start..stop])
      {
        assert buf[start..stop][..stop - start - 1] == buf[start..stop - 1];
        stop := stop - 1;
      }
      posted := posted + [buf[start..stop]];
    }

    /** Move the bytes from `start` on to the front. */
    method Drop(start: nat)
      requires Valid() && start <= len && 0 < buf.Length
      modifies this`len, buf
      ensures Valid() && Pending() == old(buf[start..len])
    {
      var rest := len - start;
      for i := 0 to rest
        invariant len == old(len)
        invariant buf[..i] == old(buf[start..start + i])
        invariant buf[start + i..len] == old(buf[start + i..len])
      {
        assert buf[start + i] == buf[start + i..len][0] == old(buf[start + i..len])[0];
        buf[i] := buf[start + i];
      }
      len := rest;
      buf[len] := 0;
    }

    /** One successful read: the lines it completes are posted and the rest is kept. */
    method Feed(chunk: seq<Byte>)
      requires Valid()
      modifies this, buf
      ensures Valid() && (buf == old(buf) || fresh(buf))
      ensures posted == old(posted) + Lines(old(Pending()) + chunk)
      ensures Pending() == Tail(old(Pending()) + chunk)
    {
      Reserve(|chunk|);
      Append(chunk);
      var start := Scan();
      if start > 0 { Drop(start); }
    }

    /** Post every complete line and return where the unterminated one begins. */
    method Scan() returns (start: nat)
      requires Valid()
      modifies this`posted
      ensures start <= len && Tail(Pending()) == buf[start..len]
      ensures posted == old(posted) + Lines(Pending())
    {
      start := 0;
      ghost var seen: seq<Byte>, line: seq<Byte> := [], [];
      for i := 0 to len
        invariant start <= i && seen == buf[..i] && line == buf[start..i] && Tail(seen) == line
        invariant posted == old(posted) + Lines(seen)
      {
        ScanStep(seen, buf[i]);
        ghost var was := seen;
        seen, line := seen + [buf[i]], if buf[i] == LF then [] else line + [buf[i]];
        start := ScanByte(start, i);
        assert Lines(seen) == if buf[i] == LF then Lines(was) + [StripCr(Tail(was))] else Lines(was);
      }
    }

    /** One byte of the scan: a newline ends the line that began at `start`. */
    method ScanByte(start: nat, i: nat) returns (next: nat)
      requires Valid() && start <= i < len
      modifies this`posted
      ensures next == if buf[i] == LF then i + 1 else start
      ensures posted == if buf[i] == LF then old(posted) + [StripCr(buf[start..i])] else old(posted)
    {
      next := start;
      if buf[i] == LF {
        Post(start, i);
        next := i + 1;
      }
    }

    method Append(chunk: seq<Byte>)
      requires len + |chunk| + 1 <= buf.Length
      modifies this`len, buf
      ensures Valid() && Pending() == old(buf[..len]) + chunk
    {
      for i := 0 to |chunk|
        invariant len == old(len)
        invariant buf[..len + i] == old(buf[..len]) + chunk[..i]
      {
        buf[len + i] := chunk[i];
      }
      len := len + |chunk|;
      buf[len] := 0;
    }
  }

  /** Reading to the end of the stream: whatever the boundaries of the reads, the lines of
      the whole stream are posted, and its unterminated tail is left in the buffer. */
  method ReadAll(chunks: seq<seq<Byte>>) returns (posted: seq<seq<Byte>>, left: seq<Byte>)
    ensures posted == Lines(Concat(chunks)) && left == Tail(Concat(chunks))
  {
    var reader := new LineReader();
    for i := 0 to |chunks|
      invariant reader.Valid() && fresh(reader) && fresh(reader.buf)
      invariant reader.posted == Lines(Concat(chunks[..i])) && reader.Pending() == Tail(Concat(chunks[..i]))
    {
      assert chunks[..i + 1] == chunks[..i] + [chunks[i]];
      ConcatSnoc(chunks[..i], chunks[i]);
      SplitResumes(Concat(chunks[..i]), chunks[i]);
      StrippedParts(RawLines(Concat(chunks[..i])), RawLines(Tail(Concat(chunks[..i])) + chunks[i]));
      reader.Feed(chunks[i]);
    }
    assert chunks[..|chunks|] == chunks;
    posted := reader.posted;
    left := reader.buf[..reader.len];
  }
}
