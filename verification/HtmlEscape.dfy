/** The three HTML escapers: what an escaped text is, and that it can be read back. */
module HtmlEscape {
  import opened Wrappers
  import opened Bytes

  /** Escaping for element content, or for a quoted attribute. */
  datatype Context = Body | Attribute

  /** The entity of a sensitive byte; None for a byte that is copied. */
  function Entity(b: Byte, c: Context): Option<seq<Byte>> {
    if b == B('&') then Some(Ascii("&amp;"))
    else if b == B('<') then Some(Ascii("&lt;"))
    else if b == B('>') then Some(Ascii("&gt;"))
    else if c == Attribute && b == B('"') then Some(Ascii("&quot;"))
    else if c == Attribute && b == B('\'') then Some(Ascii("&#39;"))
    else None
  }

  predicate Sensitive(b: Byte, c: Context) { Entity(b, c).Some? }

  function Escaped(b: Byte, c: Context): (r: seq<Byte>)
    ensures 1 <= |r| <= Widest(c)
  {
    if Entity(b, c).Some? then Entity(b, c).value else [b]
  }

  function Widest(c: Context): nat { if c == Body then 5 else 6 }

  function Escape(s: seq<Byte>, c: Context): seq<Byte> {
    if s == [] then [] else Escaped(s[0], c) + Escape(s[1..], c)
  }

  // ---- reading back

  /** The byte an entity at the front stands for and the entity's length. */
  function Reference(t: seq<Byte>): Option<(Byte, nat)> {
    if At(t, 0, Ascii("&amp;")) then Some((B('&'), 5))
    else if At(t, 0, Ascii("&lt;")) then Some((B('<'), 4))
    else if At(t, 0, Ascii("&gt;")) then Some((B('>'), 4))
    else if At(t, 0, Ascii("&quot;")) then Some((B('"'), 6))
    else if At(t, 0, Ascii("&#39;")) then Some((B('\''), 5))
    else None
  }

  function Unescape(t: seq<Byte>): seq<Byte>
    decreases |t|
  {
    if t == [] then [] else
    match Reference(t)
    case Some((b, n)) => if n <= |t| then [b] + Unescape(t[n..]) else t
    case None => [t[0]] + Unescape(t[1..])
  }

  /** Which of the five entities stands at the front is decided by the bytes after the '&'. */
  lemma EntityRead(b: Byte, c: Context, rest: seq<Byte>)
    ensures var t := Escaped(b, c) + rest;
      if Sensitive(b, c) then Reference(t) == Some((b, |Escaped(b, c)|)) else Reference(t) == None
  {
    var e := Escaped(b, c);
    var t := e + rest;
    assert At(t, 0, e);
    assert forall i :: 0 <= i < |e| ==> t[i] == e[i];
    EntityOnly(t, Ascii("&amp;"));
    EntityOnly(t, Ascii("&lt;"));
    EntityOnly(t, Ascii("&gt;"));
    EntityOnly(t, Ascii("&quot;"));
    EntityOnly(t, Ascii("&#39;"));
  }

  lemma EntityOnly(t: seq<Byte>, e: seq<Byte>)
    requires |e| >= 3
    ensures At(t, 0, e) ==> |t| >= 3 && t[0] == e[0] && t[1] == e[1] && t[2] == e[2]
  {
  }

  /** Unescaping undoes both escapers on every input. */
  lemma {:induction false} UnescapeUndoesEscape(s: seq<Byte>, c: Context)
    ensures Unescape(Escape(s, c)) == s
  {
    if s != [] {
      var e, rest := Escaped(s[0], c), Escape(s[1..], c);
      EntityRead(s[0], c, rest);
      assert (e + rest)[|e|..] == rest;
      UnescapeUndoesEscape(s[1..], c);
    }
  }

  // ---- what an escaped text looks like

  /** The bytes that must not be left in a text of either kind. */
  ghost predicate Forbidden(b: Byte, c: Context) {
    b == 0x3C || b == 0x3E || (c == Attribute && (b == 0x22 || b == 0x27))
  }

  /** The entities a text of either kind may hold. */
  function Entities(c: Context): seq<seq<Byte>> {
    [Ascii("&amp;"), Ascii("&lt;"), Ascii("&gt;")] + if c == Attribute then [Ascii("&quot;"), Ascii("&#39;")] else []
  }

  ghost predicate BeginsEntity(t: seq<Byte>, i: nat, c: Context) {
    exists k :: 0 <= k < |Entities(c)| && At(t, i, Entities(c)[k])
  }

  /** None of the forbidden bytes is left, and every '&' (0x26) begins an entity. */
  ghost predicate Clean(t: seq<Byte>, c: Context) {
    forall i :: 0 <= i < |t| ==> !Forbidden(t[i], c) && (t[i] == 0x26 ==> BeginsEntity(t, i, c))
  }

  lemma {:induction false} EscapeIsClean(s: seq<Byte>, c: Context)
    ensures Clean(Escape(s, c), c)
  {
    if s != [] {
      EscapeIsClean(s[1..], c);
      EscapedIsClean(s[0], c);
      CleanParts(Escaped(s[0], c), Escape(s[1..], c), c);
    }
  }

  lemma EscapedIsClean(b: Byte, c: Context)
    ensures Clean(Escaped(b, c), c)
  {
    var e := Escaped(b, c);
    if Sensitive(b, c) {
      var k := WhichEntity(b, c);
      assert At(e, 0, Entities(c)[k]);
    }
  }

  /** An escaped byte is one of the entities, and holds nothing forbidden and no second '&'. */
  lemma WhichEntity(b: Byte, c: Context) returns (k: nat)
    requires Sensitive(b, c)
    ensures k < |Entities(c)| && Escaped(b, c) == Entities(c)[k]
    ensures var e := Escaped(b, c);
      forall i :: 0 <= i < |e| ==> !Forbidden(e[i], c) && (i > 0 ==> e[i] != 0x26)
  {
    k := if b == 0x26 then 0 else if b == 0x3C then 1 else if b == 0x3E then 2 else if b == 0x22 then 3 else 4;
  }

  lemma CleanParts(t: seq<Byte>, u: seq<Byte>, c: Context)
    requires Clean(t, c) && Clean(u, c)
    ensures Clean(t + u, c)
  {
    forall i | 0 <= i < |t + u|
      ensures !Forbidden((t + u)[i], c) && ((t + u)[i] == 0x26 ==> BeginsEntity(t + u, i, c))
    {
      var part, j := if i < |t| then t else u, if i < |t| then i else i - |t|;
      assert part[j] == (t + u)[i];
      if part[j] == 0x26 {
        var k :| 0 <= k < |Entities(c)| && At(part, j, Entities(c)[k]);
        EntityKept(t, u, i, Entities(c)[k]);
      }
    }
  }

  lemma EntityKept(t: seq<Byte>, u: seq<Byte>, i: nat, e: seq<Byte>)
    requires if i < |t| then At(t, i, e) else At(u, i - |t|, e)
    ensures At(t + u, i, e)
  {
  }

  /** Exactly the '&' and the forbidden bytes are escaped; any other byte is copied. */
  lemma OthersAreCopied(b: Byte, c: Context)
    ensures Sensitive(b, c) <==> b == 0x26 || Forbidden(b, c)
    ensures !(b == 0x26 || Forbidden(b, c)) ==> Escape([b], c) == [b]
  {
    assert [b][1..] == [] && Escape([], c) == [];
  }

  /** How long the longest entity is. */
  function Longest(c: Context): nat {
    match c
    case Body => 5
    case Attribute => 6
  }

  /** The byte with the longest entity. */
  function Costliest(c: Context): Byte {
    match c
    case Body => 0x26
    case Attribute => 0x22
  }

  /** The output is at most five (in an attribute six) times as long, and exactly that long
      only for a run of ampersands (quotes); it is as long as the input only if nothing had
      to be escaped. */
  lemma {:induction false} EscapeBound(s: seq<Byte>, c: Context)
    ensures |s| <= |Escape(s, c)| <= Longest(c) * |s|
    ensures |Escape(s, c)| == Longest(c) * |s| <==> forall i :: 0 <= i < |s| ==> s[i] == Costliest(c)
    ensures |Escape(s, c)| == |s| <==> forall i :: 0 <= i < |s| ==> s[i] != 0x26 && !Forbidden(s[i], c)
  {
    if s != [] {
      EscapeBound(s[1..], c);
      OthersAreCopied(s[0], c);
      EscapedBound(s[0], c);
      assert forall i :: 0 < i < |s| ==> s[i] == s[1..][i - 1];
    }
  }

  lemma EscapedBound(b: Byte, c: Context)
    ensures 1 <= |Escaped(b, c)| <= Longest(c)
    ensures |Escaped(b, c)| == Longest(c) <==> b == Costliest(c)
    ensures |Escaped(b, c)| == 1 <==> !Sensitive(b, c)
  {
  }

  lemma {:induction false} EscapeParts(s: seq<Byte>, t: seq<Byte>, c: Context)
    ensures Escape(s + t, c) == Escape(s, c) + Escape(t, c)
  {
    if s == [] {
      assert s + t == t;
    } else {
      EscapeParts(s[1..], t, c);
      assert (s + t)[0] == s[0] && (s + t)[1..] == s[1..] + t;
      Assoc(Escaped(s[0], c), Escape(s[1..], c), Escape(t, c));
    }
  }

  lemma {:induction false} PlainSpan(s: seq<Byte>, c: Context)
    requires forall i :: 0 <= i < |s| ==> !Sensitive(s[i], c)
    ensures Escape(s, c) == s
  {
    if s != [] { PlainSpan(s[1..], c); }
  }
}

module HtmlEscapeNative {
  import opened Wrappers
  import opened Bytes
  import opened OutBuffers
  import opened HtmlEscape

  /** The largest length a Perl string can have. */
  const STRLEN_MAX: nat := 0xFFFF_FFFF_FFFF_FFFF

  datatype Scalar = Undefined | Reference | Text(bytes: seq<Byte>, utf8: bool, tainted: bool)

  datatype Outcome = NotAScalar | TooLarge | Done(text: Scalar)

  /** What every escaper returns: the flags of the input are kept. */
  function Expected(input: Scalar, c: Context): Outcome {
    match input
    case Undefined => Done(Text([], false, false))
    case Reference => NotAScalar
    case Text(bytes, utf8, tainted) =>
      if |bytes| > (STRLEN_MAX - 1) / Widest(c) then TooLarge else Done(Text(Escape(bytes, c), utf8, tainted))
  }

  /** An input is refused exactly if its block of 5n + 1 or 6n + 1 bytes would have a length
      beyond 64 bits. */
  lemma RefusedIff(bytes: seq<Byte>, utf8: bool, tainted: bool, c: Context)
    ensures Expected(Text(bytes, utf8, tainted), c) == TooLarge <==>
      (if c == Body then 5 else 6) * |bytes| + 1 > 0xFFFF_FFFF_FFFF_FFFF
  {
  }

  /** The block for an accepted input: its length can be represented. */
  method NewTarget(n: nat, c: Context) returns (target: OutBuffer)
    requires n <= (STRLEN_MAX - 1) / Widest(c)
    ensures fresh(target) && fresh(target.block) && target.Valid() && target.Written() == []
    ensures target.block.Length == n * Widest(c) + 1 <= STRLEN_MAX
  {
    target := new OutBuffer(n * Widest(c) + 1);
  }

  lemma EscapeStep(s: seq<Byte>, i: nat, c: Context)
    requires i < |s|
    ensures Escape(s[..i + 1], c) == Escape(s[..i], c) + Escaped(s[i], c)
  {
    EscapeParts(s[..i], [s[i]], c);
    assert s[..i + 1] == s[..i] + [s[i]];
  }

  method PutEscaped(target: OutBuffer, b: Byte, c: Context)
    requires target.Valid() && Widest(c) <= target.Room()
    modifies target`used, target.block
    ensures target.Valid() && target.Written() == old(target.Written()) + Escaped(b, c)
  {
    var e := Entity(b, c);
    if e.Some? { target.PutAll(e.value); } else { target.Put(b); }
  }

  /** One byte at a time. */
  method EscapeBytes(input: Scalar, c: Context) returns (r: Outcome)
    ensures r == Expected(input, c)
    ensures input.Undefined? ==> r == Done(Text([], false, false))
    ensures input.Reference? ==> r == NotAScalar
    ensures input.Text? && r.Done? ==> r.text == Text(Escape(input.bytes, c), input.utf8, input.tainted)
  {
    if input.Undefined? { return Done(Text([], false, false)); }
    if input.Reference? { return NotAScalar; }
    var source := input.bytes;
    if |source| > (STRLEN_MAX - 1) / Widest(c) { return TooLarge; }
    var target := NewTarget(|source|, c);
    for i := 0 to |source|
      invariant target.Valid() && fresh(target) && fresh(target.block)
      invariant target.block.Length == |source| * Widest(c) + 1 && target.used <= i * Widest(c)
      invariant target.Written() == Escape(source[..i], c)
    {
      EscapeStep(source, i, c);
      PutEscaped(target, source[i], c);
    }
    assert source[..|source|] == source;
    target.Terminate();
    r := Done(Text(target.block[..target.used], input.utf8, input.tainted));
  }

  /** The first place of a byte from `from` on. */
  method Find(s: seq<Byte>, from: nat, b: Byte) returns (at: Option<nat>)
    requires from <= |s|
    ensures at.Some? ==> from <= at.value < |s| && s[at.value] == b
    ensures forall i :: from <= i < (if at.Some? then at.value else |s|) ==> s[i] != b
  {
    for i := from to |s|
      invariant forall j :: from <= j < i ==> s[j] != b
    {
      if s[i] == b { return Some(i); }
    }
    at := None;
  }

  /** The first sensitive byte from `cursor` on: the least of three searches. */
  method FindSensitive(s: seq<Byte>, cursor: nat) returns (first: Option<nat>)
    requires cursor <= |s|
    ensures first.Some? ==> cursor <= first.value < |s| && Sensitive(s[first.value], Body)
    ensures forall i :: cursor <= i < (if first.Some? then first.value else |s|) ==> !Sensitive(s[i], Body)
  {
    var amp := Find(s, cursor, B('&'));
    var lt := Find(s, cursor, B('<'));
    var gt := Find(s, cursor, B('>'));
    first := amp;
    if first == None || (lt.Some? && lt.value < first.value) { first := lt; }
    if first == None || (gt.Some? && gt.value < first.value) { first := gt; }
  }

  /** Span by span, for element content: the same result on every input. */
  method EscapeSpans(input: Scalar) returns (r: Outcome)
    ensures r == Expected(input, Body)
    ensures input.Undefined? ==> r == Done(Text([], false, false))
    ensures input.Reference? ==> r == NotAScalar
    ensures input.Text? && r.Done? ==> r.text == Text(Escape(input.bytes, Body), input.utf8, input.tainted)
  {
    if input.Undefined? { return Done(Text([], false, false)); }
    if input.Reference? { return NotAScalar; }
    var source := input.bytes;
    if |source| > (STRLEN_MAX - 1) / 5 { return TooLarge; }
    var target := NewTarget(|source|, Body);
    var cursor := 0;
    while cursor < |source|
      invariant cursor <= |source| && target.Valid() && fresh(target) && fresh(target.block)
      invariant target.block.Length == |source| * 5 + 1 && target.used <= cursor * 5
      invariant target.Written() == Escape(source[..cursor], Body)
    {
      cursor := EscapeSpan(source, cursor, target);
    }
    assert source[..cursor] == source;
    target.Terminate();
    r := Done(Text(target.block[..target.used], input.utf8, input.tainted));
  }

  /** One turn of the loop: a span and the sensitive byte that ends it, if there is one. */
  method EscapeSpan(source: seq<Byte>, cursor: nat, target: OutBuffer) returns (next: nat)
    requires cursor < |source| && target.Valid() && target.block.Length == |source| * 5 + 1
    requires target.used <= cursor * 5 && target.Written() == Escape(source[..cursor], Body)
    modifies target`used, target.block
    ensures cursor < next <= |source| && target.Valid()
    ensures target.used <= next * 5 && target.Written() == Escape(source[..next], Body)
  {
    var first := FindSensitive(source, cursor);
    var stop := if first.Some? then first.value else |source|;
    SpanStep(source, cursor, stop);
    target.PutAll(source[cursor..stop]);
    if first == None { return stop; }
    EscapeStep(source, stop, Body);
    target.PutAll(Ascii(if source[stop] == B('&') then "&amp;" else if source[stop] == B('<') then "&lt;" else "&gt;"));
    next := stop + 1;
  }

  /** A span without sensitive bytes is copied. */
  lemma SpanStep(s: seq<Byte>, cursor: nat, stop: nat)
    requires cursor <= stop <= |s| && forall i :: cursor <= i < stop ==> !Sensitive(s[i], Body)
    ensures Escape(s[..stop], Body) == Escape(s[..cursor], Body) + s[cursor..stop]
  {
    var span := s[cursor..stop];
    assert s[..stop] == s[..cursor] + span;
    EscapeParts(s[..cursor], span, Body);
    PlainSpan(span, Body);
  }
}
