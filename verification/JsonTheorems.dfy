/** The parser accepts exactly the grammar and returns what the text denotes. */
module JsonTheorems {
  import opened Wrappers
  import opened Bytes
  import opened JsonGrammar
  import opened JsonParser

  const QUOTE: seq<Byte> := [B('"')]

  // ---- strings

  /** The bytes at the start of a text position, spelled out. */
  lemma AtChars(s: seq<Byte>, p: nat, cs: seq<SChar>)
    requires CharsOk(cs) && At(s, p, CharsText(cs) + QUOTE)
    ensures p < |s|
    ensures cs == [] ==> s[p] == B('"')
    ensures cs != [] ==>
      At(s, p, CharText(cs[0])) && At(s, p + |CharText(cs[0])|, CharsText(cs[1..]) + QUOTE)
  {
    if cs == [] {
      AtIndex(s, p, CharsText(cs) + QUOTE, 0);
    } else {
      var t := CharText(cs[0]);
      assert CharsText(cs) + QUOTE == t + (CharsText(cs[1..]) + QUOTE);
      AtParts(s, p, t, CharsText(cs[1..]) + QUOTE);
    }
  }

  /** The text of one character, read byte by byte. */
  lemma AtChar(s: seq<Byte>, p: nat, c: SChar)
    requires SCharOk(c) && At(s, p, CharText(c))
    ensures p < |s|
    ensures match c
            case Raw(b) => s[p] == b
            case Esc(e) => p + 2 <= |s| && s[p] == B('\\') && s[p + 1] == e
            case Uni(h) => p + 6 <= |s| && s[p] == B('\\') && s[p + 1] == B('u') && s[p + 2..p + 6] == h
  {
    AtIndex(s, p, CharText(c), 0);
    if !c.Raw? { AtIndex(s, p, CharText(c), 1); }
    if c.Uni? {
      AtSlice(s, p, CharText(c));
      assert s[p..p + 6][2..] == s[p + 2..p + 6];
    }
  }

  /** At the text of `cs`, with its closing quote, the next six bytes are a low surrogate
      escape exactly when the first character of `cs` is one. */
  lemma LowFollowsIff(s: seq<Byte>, p: nat, cs: seq<SChar>)
    requires CharsOk(cs) && At(s, p, CharsText(cs) + QUOTE)
    ensures LowFollows(s, p) <==> StartsLow(cs)
  {
    AtChars(s, p, cs);
    if cs != [] { AtChar(s, p, cs[0]); }
  }

  /** A byte, an escape or a Unicode escape that begins no surrogate pair. */
  lemma OneComplete(s: seq<Byte>, p: nat, c: SChar)
    requires SCharOk(c) && At(s, p, CharText(c))
    requires c.Uni? && HighSurrogate(Hex(c.h)) ==> !LowFollows(s, p + 6)
    ensures p < |s| && s[p] != B('"') && ParseChar(s, p).Parsed? && ParseChar(s, p).end == p + |CharText(c)|
    ensures ParseChar(s, p).value ==
      match c case Raw(b) => OneByte(b) case Esc(e) => OneByte(EscByte(e).value) case Uni(h) => Point(Hex(h))
  {
    AtChar(s, p, c);
  }

  lemma TwoComplete(s: seq<Byte>, p: nat, h: seq<Byte>, low: seq<Byte>)
    requires SCharOk(Uni(h)) && At(s, p, CharText(Uni(h))) && HighSurrogate(Hex(h))
    requires SCharOk(Uni(low)) && At(s, p + 6, CharText(Uni(low))) && LowSurrogate(Hex(low))
    ensures p < |s| && s[p] != B('"') && ParseChar(s, p).Parsed? && ParseChar(s, p).end == p + 12
    ensures ParseChar(s, p).value == Point(Combine(Hex(h), Hex(low)))
  {
    AtChar(s, p, Uni(h));
    AtChar(s, p + 6, Uni(low));
  }

  /** The text behind the first piece, which stands at `q`. */
  lemma CharsRest(s: seq<Byte>, p: nat, cs: seq<SChar>, n: nat) returns (q: nat)
    requires CharsOk(cs) && cs != [] && At(s, p, CharsText(cs) + QUOTE) && FirstPiece(cs).1 == n
    ensures At(s, q, CharsText(cs[n..]) + QUOTE) && q + |CharsText(cs[n..])| == p + |CharsText(cs)|
    ensures q == p + if n == 2 then 12 else |CharText(cs[0])|
    ensures At(s, p, CharText(cs[0])) && (n == 2 ==> At(s, p + 6, CharText(cs[1])))
    ensures n == 1 && cs[0].Uni? && HighSurrogate(Hex(cs[0].h)) ==> !LowFollows(s, p + 6)
  {
    AtChars(s, p, cs);
    q := p + |CharText(cs[0])|;
    LowFollowsIff(s, q, cs[1..]);
    if n == 2 {
      AtChars(s, q, cs[1..]);
      assert cs[1..][1..] == cs[2..];
      q := p + 12;
    }
  }

  /** One parsed piece is the first piece of the written characters, and the rest of them
      stand at `q`. */
  lemma CharComplete(s: seq<Byte>, p: nat, cs: seq<SChar>, n: nat) returns (q: nat)
    requires CharsOk(cs) && cs != [] && At(s, p, CharsText(cs) + QUOTE) && FirstPiece(cs).1 == n
    ensures p < |s| && s[p] != B('"')
    ensures ParseChar(s, p).Parsed? && ParseChar(s, p).value == FirstPiece(cs).0 && ParseChar(s, p).end == q
    ensures At(s, q, CharsText(cs[n..]) + QUOTE) && q + |CharsText(cs[n..])| == p + |CharsText(cs)|
  {
    q := CharsRest(s, p, cs, n);
    if n == 2 { TwoComplete(s, p, cs[0].h, cs[1].h); } else { OneComplete(s, p, cs[0]); }
  }

  lemma CompleteStep(s: seq<Byte>, p: nat, cs: seq<SChar>)
    requires CharsOk(cs) && cs != [] && p < |s| && s[p] != B('"') && ParseChar(s, p).Parsed?
    requires ParseChar(s, p).value == FirstPiece(cs).0
    requires var rest := ParseChars(s, ParseChar(s, p).end);
      rest.Parsed? && rest.value == Decode(cs[FirstPiece(cs).1..])
    ensures var r := ParseChars(s, p);
      r.Parsed? && r.value == Decode(cs) && r.end == ParseChars(s, ParseChar(s, p).end).end
  {
  }

  lemma {:induction false} CharsComplete(s: seq<Byte>, p: nat, cs: seq<SChar>)
    requires CharsOk(cs) && At(s, p, CharsText(cs) + QUOTE)
    ensures var r := ParseChars(s, p); r.Parsed? && r.value == Decode(cs) && r.end == p + |CharsText(cs)| + 1
    decreases |cs|
  {
    if cs == [] {
      AtChars(s, p, cs);
    } else {
      var n := FirstPiece(cs).1;
      var q := CharComplete(s, p, cs, n);
      CharsComplete(s, q, cs[n..]);
      CompleteStep(s, p, cs);
    }
  }

  lemma StringComplete(s: seq<Byte>, p: nat, cs: seq<SChar>)
    requires CharsOk(cs) && At(s, p, StringText(cs))
    ensures var r := ParseString(s, p); r.Parsed? && r.value == CStr(Decode(cs)) && r.end == p + |StringText(cs)|
  {
    AtParts(s, p, QUOTE, CharsText(cs) + QUOTE);
    AtIndex(s, p, QUOTE, 0);
    CharsComplete(s, p + 1, cs);
  }

  /** One more written character in front. */
  lemma OneMore(s: seq<Byte>, p: nat, c: SChar, rest: seq<SChar>)
    requires At(s, p, CharText(c)) && At(s, p + |CharText(c)|, CharsText(rest) + QUOTE)
    ensures At(s, p, CharsText([c] + rest) + QUOTE)
    ensures CharsText([c] + rest) == CharText(c) + CharsText(rest)
  {
    AtParts(s, p, CharText(c), CharsText(rest) + QUOTE);
    assert ([c] + rest)[1..] == rest;
    assert CharsText([c] + rest) + QUOTE == CharText(c) + (CharsText(rest) + QUOTE);
  }

  lemma TwoMore(s: seq<Byte>, p: nat, c: SChar, d: SChar, rest: seq<SChar>)
    requires At(s, p, CharText(c)) && At(s, p + |CharText(c)|, CharText(d))
    requires At(s, p + |CharText(c)| + |CharText(d)|, CharsText(rest) + QUOTE)
    ensures At(s, p, CharsText([c] + ([d] + rest)) + QUOTE)
    ensures |CharsText([c] + ([d] + rest))| == |CharText(c)| + |CharText(d)| + |CharsText(rest)|
  {
    var more := [d] + rest;
    OneMore(s, p + |CharText(c)|, d, rest);
    OneMore(s, p, c, more);
  }

  lemma UniAt(s: seq<Byte>, p: nat)
    requires p + 6 <= |s| && s[p] == B('\\') && s[p + 1] == B('u')
    ensures At(s, p, CharText(Uni(s[p + 2..p + 6])))
  {
  }

  /** The written characters behind one parsed piece. */
  lemma CharSound(s: seq<Byte>, p: nat, rest: seq<SChar>) returns (first: seq<SChar>)
    requires p < |s| && s[p] != B('"') && ParseChar(s, p).Parsed?
    requires CharsOk(rest) && At(s, ParseChar(s, p).end, CharsText(rest) + QUOTE)
    ensures CharsOk(first) && first != [] && FirstPiece(first + rest) == (ParseChar(s, p).value, |first|)
    ensures At(s, p, CharsText(first + rest) + QUOTE)
    ensures p + |CharsText(first + rest)| == ParseChar(s, p).end + |CharsText(rest)|
  {
    if s[p] == B('\\') && EscByte(s[p + 1]).None? && ParseChar(s, p).end != p + 6 {
      first := SurrogatesSound(s, p, rest);
    } else {
      var c := OneCharSound(s, p);
      first := [c];
      if c.Uni? { LowFollowsIff(s, p + 6, rest); }
      OneDecodes(c, rest);
      OneMore(s, p, c, rest);
    }
  }

  /** A byte, an escape or a Unicode escape by itself. */
  lemma OneCharSound(s: seq<Byte>, p: nat) returns (c: SChar)
    requires p < |s| && s[p] != B('"') && ParseChar(s, p).Parsed?
    requires s[p] == B('\\') && EscByte(s[p + 1]).None? ==> ParseChar(s, p).end == p + 6
    ensures SCharOk(c) && At(s, p, CharText(c)) && ParseChar(s, p).end == p + |CharText(c)|
    ensures match c
            case Raw(b) => ParseChar(s, p).value == OneByte(b)
            case Esc(e) => ParseChar(s, p).value == OneByte(EscByte(e).value)
            case Uni(h) => ParseChar(s, p).value == Point(Hex(h)) && !(HighSurrogate(Hex(h)) && LowFollows(s, p + 6))
  {
    if s[p] != B('\\') {
      c := Raw(s[p]);
    } else if EscByte(s[p + 1]).Some? {
      c := Esc(s[p + 1]);
    } else {
      c := Uni(s[p + 2..p + 6]);
      UniAt(s, p);
    }
  }

  lemma OneDecodes(c: SChar, rest: seq<SChar>)
    requires SCharOk(c) && CharsOk(rest) && !(c.Uni? && HighSurrogate(Hex(c.h)) && StartsLow(rest))
    ensures CharsOk([c] + rest)
    ensures FirstPiece([c] + rest) ==
      (match c case Raw(b) => OneByte(b) case Esc(e) => OneByte(EscByte(e).value) case Uni(h) => Point(Hex(h)), 1)
  {
    assert ([c] + rest)[1..] == rest;
  }

  lemma SurrogatesDecode(h: seq<Byte>, low: seq<Byte>, rest: seq<SChar>)
    requires SCharOk(Uni(h)) && SCharOk(Uni(low)) && CharsOk(rest)
    requires HighSurrogate(Hex(h)) && LowSurrogate(Hex(low))
    ensures CharsOk([Uni(h), Uni(low)] + rest)
    ensures FirstPiece([Uni(h), Uni(low)] + rest) == (Point(Combine(Hex(h), Hex(low))), 2)
  {
    assert ([Uni(h), Uni(low)] + rest)[1..] == [Uni(low)] + rest;
  }

  /** A surrogate pair. */
  lemma SurrogatesSound(s: seq<Byte>, p: nat, rest: seq<SChar>) returns (first: seq<SChar>)
    requires p < |s| && s[p] == B('\\') && ParseChar(s, p).Parsed? && ParseChar(s, p).end == p + 12
    requires CharsOk(rest) && At(s, p + 12, CharsText(rest) + QUOTE)
    ensures CharsOk(first) && |first| == 2 && FirstPiece(first + rest) == (ParseChar(s, p).value, 2)
    ensures At(s, p, CharsText(first + rest) + QUOTE) && |CharsText(first + rest)| == 12 + |CharsText(rest)|
  {
    var h, low := s[p + 2..p + 6], s[p + 8..p + 12];
    first := [Uni(h), Uni(low)];
    SurrogatesDecode(h, low, rest);
    UniAt(s, p);
    UniAt(s, p + 6);
    TwoMore(s, p, Uni(h), Uni(low), rest);
    assert first + rest == [Uni(h)] + ([Uni(low)] + rest);
  }

  lemma {:induction false} CharsSound(s: seq<Byte>, p: nat) returns (cs: seq<SChar>)
    requires p <= |s| && ParseChars(s, p).Parsed?
    ensures CharsOk(cs) && Decode(cs) == ParseChars(s, p).value
    ensures p + |CharsText(cs)| + 1 == ParseChars(s, p).end && At(s, p, CharsText(cs) + QUOTE)
    decreases |s| - p
  {
    if s[p] == B('"') {
      cs := [];
    } else {
      var rest := CharsSound(s, ParseChar(s, p).end);
      var first := CharSound(s, p, rest);
      cs := first + rest;
      assert cs[|first|..] == rest;
    }
  }

  lemma StringSound(s: seq<Byte>, p: nat) returns (cs: seq<SChar>)
    requires p <= |s| && ParseString(s, p).Parsed?
    ensures CharsOk(cs) && CStr(Decode(cs)) == ParseString(s, p).value
    ensures ParseString(s, p).end == p + |StringText(cs)| && At(s, p, StringText(cs))
  {
    cs := CharsSound(s, p + 1);
    assert s[p..p + 1] == QUOTE;
    AtParts(s, p, QUOTE, CharsText(cs) + QUOTE);
  }

  // ---- white space

  lemma {:induction false} SkipExact(s: seq<Byte>, p: nat, ws: Ws)
    requires At(s, p, ws) && WsOk(ws) && (p + |ws| < |s| ==> !IsWs(s[p + |ws|]))
    ensures Skip(s, p) == p + |ws|
    decreases |ws|
  {
    if ws != [] {
      AtIndex(s, p, ws, 0);
      assert ws == [ws[0]] + ws[1..];
      AtParts(s, p, [ws[0]], ws[1..]);
      SkipExact(s, p + 1, ws[1..]);
    }
  }

  /** White space between `p` and the byte at `p + |ws|`, which ends it. */
  lemma SkipTo(s: seq<Byte>, p: nat, ws: Ws, rest: seq<Byte>)
    requires WsOk(ws) && rest != [] && !IsWs(rest[0]) && At(s, p, ws + rest)
    ensures Skip(s, p) == p + |ws| && p + |ws| < |s| && s[p + |ws|] == rest[0] && At(s, p + |ws|, rest)
  {
    AtParts(s, p, ws, rest);
    AtIndex(s, p + |ws|, rest, 0);
    SkipExact(s, p, ws);
  }

  lemma SkipTwice(s: seq<Byte>, p: nat)
    requires p <= |s|
    ensures Skip(s, Skip(s, p)) == Skip(s, p)
  {
    SkipExact(s, Skip(s, p), []);
  }

  lemma ValueSkips(s: seq<Byte>, p: nat)
    requires p <= |s|
    ensures ParseValue(s, Skip(s, p)) == ParseValue(s, p)
  {
    SkipTwice(s, p);
  }

  // ---- values

  /** A spelled-out value begins with a byte that is neither white space nor closes a
      container. */
  lemma TextStart(t: Tree)
    ensures Text(t) != [] && !IsWs(Text(t)[0]) && Text(t)[0] != B(']') && Text(t)[0] != B('}')
  {
  }

  /** The three literals are told apart by their first byte. */
  lemma LiteralComplete(s: seq<Byte>, p: nat, q: nat, t: seq<Byte>)
    requires p <= |s| && Skip(s, p) == q && At(s, q, t)
    requires t == Ascii("true") || t == Ascii("false") || t == Ascii("null")
    ensures ParseValue(s, p) ==
      Parsed(if t == Ascii("true") then JBool(true) else if t == Ascii("false") then JBool(false) else JNull, q + |t|)
  {
    AtIndex(s, q, t, 0);
    if At(s, q, Ascii("true")) { AtIndex(s, q, Ascii("true"), 0); }
    if At(s, q, Ascii("false")) { AtIndex(s, q, Ascii("false"), 0); }
  }

  lemma {:induction false} ValueComplete(s: seq<Byte>, p: nat, ws: Ws, t: Tree)
    requires TreeOk(t) && WsOk(ws) && At(s, p, ws + Text(t))
    ensures var r := ParseValue(s, p); r.Parsed? && r.value == Denote(t) && r.end == p + |ws| + |Text(t)|
    decreases t, 1
  {
    var q := p + |ws|;
    TextStart(t);
    SkipTo(s, p, ws, Text(t));
    match t
    case TNull => LiteralComplete(s, p, q, Text(t));
    case TBool(b) => LiteralComplete(s, p, q, Text(t));
    case TString(cs) => StringComplete(s, q, cs); IsStringAt(s, q);
    case TEmptyArray(inner) => EmptyArrayComplete(s, q, inner); IsArrayAt(s, q);
    case TEmptyObject(inner) => EmptyObjectComplete(s, q, inner); IsObjectAt(s, q);
    case TArray(es) => ArrayComplete(s, q, es); IsArrayAt(s, q);
    case TObject(ms) => ObjectComplete(s, q, ms); IsObjectAt(s, q);
  }

  lemma IsStringAt(s: seq<Byte>, q: nat)
    requires q < |s| && s[q] == B('"') && ParseString(s, q).Parsed?
    ensures ParseAt(s, q) == Parsed(JString(ParseString(s, q).value), ParseString(s, q).end)
  {
  }

  lemma IsArrayAt(s: seq<Byte>, q: nat)
    requires q < |s| && s[q] == B('[')
    ensures ParseAt(s, q) == ParseArray(s, q)
  {
  }

  lemma IsObjectAt(s: seq<Byte>, q: nat)
    requires q < |s| && s[q] == B('{')
    ensures ParseAt(s, q) == ParseObject(s, q)
  {
  }

  lemma EmptyArrayComplete(s: seq<Byte>, q: nat, ws: Ws)
    requires WsOk(ws) && At(s, q, [B('[')] + (ws + [B(']')]))
    ensures var r := ParseArray(s, q); r.Parsed? && r.value == JArray([]) && r.end == q + |ws| + 2
  {
    AtParts(s, q, [B('[')], ws + [B(']')]);
    SkipTo(s, q + 1, ws, [B(']')]);
  }

  lemma EmptyObjectComplete(s: seq<Byte>, q: nat, ws: Ws)
    requires WsOk(ws) && At(s, q, [B('{')] + (ws + [B('}')]))
    ensures var r := ParseObject(s, q); r.Parsed? && r.value == JObject([]) && r.end == q + |ws| + 2
  {
    AtParts(s, q, [B('{')], ws + [B('}')]);
    SkipTo(s, q + 1, ws, [B('}')]);
  }

  // ---- arrays

  /** One element or member of a list, the white space after it and the byte that follows. */
  lemma ListParts(s: seq<Byte>, p: nat, head: seq<Byte>, after: Ws, last: seq<Byte>)
    requires WsOk(after) && last != [] && !IsWs(last[0]) && At(s, p, head + (after + last))
    ensures At(s, p, head) && Skip(s, p + |head|) == p + |head| + |after|
    ensures At(s, p + |head| + |after|, last) && s[p + |head| + |after|] == last[0]
  {
    AtParts(s, p, head, after + last);
    SkipTo(s, p + |head|, after, last);
  }

  /** The parts of a spelled-out element list with its closing bracket; `q` is where its
      first element and the white space after it end. */
  lemma ElemsParts(s: seq<Byte>, p: nat, es: Elems) returns (q: nat)
    requires ElemsOk(es) && At(s, p, ElemsText(es) + [B(']')])
    ensures At(s, p, es.before + Text(es.tree)) && p < |s|
    ensures q == p + |es.before| + |Text(es.tree)| + |es.after| < |s|
    ensures Skip(s, p + |es.before| + |Text(es.tree)|) == q
    ensures es.LastElem? ==> s[q] == B(']') && p + |ElemsText(es)| == q
    ensures es.MoreElems? ==>
      && s[q] == B(',') && At(s, q + 1, ElemsText(es.rest) + [B(']')])
      && p + |ElemsText(es)| == q + 1 + |ElemsText(es.rest)|
  {
    var head := es.before + Text(es.tree);
    var last := if es.MoreElems? then [B(',')] + (ElemsText(es.rest) + [B(']')]) else [B(']')];
    q := p + |head| + |es.after|;
    assert ElemsText(es) + [B(']')] == head + (es.after + last);
    ListParts(s, p, head, es.after, last);
    if es.MoreElems? { AtParts(s, q, [B(',')], ElemsText(es.rest) + [B(']')]); }
  }

  lemma ItemsSkip(s: seq<Byte>, p: nat)
    requires p <= |s|
    ensures ParseItems(s, Skip(s, p)) == ParseItems(s, p)
  {
    ValueSkips(s, p);
  }

  lemma ItemsLast(s: seq<Byte>, p: nat, q: nat)
    requires p <= |s| && ParseValue(s, p).Parsed? && Skip(s, ParseValue(s, p).end) == q
    requires q < |s| && s[q] == B(']')
    ensures var r := ParseItems(s, p); r.Parsed? && r.value == [ParseValue(s, p).value] && r.end == q + 1
  {
    ItemsAfterLast(s, ParseValue(s, p).value, ParseValue(s, p).end, q);
  }

  lemma ItemsAfterLast(s: seq<Byte>, first: JValue, e: nat, q: nat)
    requires e <= |s| && Skip(s, e) == q < |s| && s[q] == B(']')
    ensures var r := ItemsAfter(s, first, e); r.Parsed? && r.value == [first] && r.end == q + 1
  {
  }

  lemma ItemsMore(s: seq<Byte>, p: nat, q: nat)
    requires p <= |s| && ParseValue(s, p).Parsed? && Skip(s, ParseValue(s, p).end) == q
    requires q < |s| && s[q] == B(',') && ParseItems(s, q + 1).Parsed?
    ensures var r, rest := ParseItems(s, p), ParseItems(s, q + 1);
      r.Parsed? && r.value == [ParseValue(s, p).value] + rest.value && r.end == rest.end
  {
    ItemsAfterMore(s, ParseValue(s, p).value, ParseValue(s, p).end, q);
  }

  lemma ItemsAfterMore(s: seq<Byte>, first: JValue, e: nat, q: nat)
    requires e <= |s| && Skip(s, e) == q < |s| && s[q] == B(',') && ParseItems(s, q + 1).Parsed?
    ensures var r, rest := ItemsAfter(s, first, e), ParseItems(s, q + 1);
      r.Parsed? && r.value == [first] + rest.value && r.end == rest.end
  {
  }

  lemma {:induction false} ElemsComplete(s: seq<Byte>, p: nat, es: Elems)
    requires ElemsOk(es) && At(s, p, ElemsText(es) + [B(']')])
    ensures var r := ParseItems(s, p); r.Parsed? && r.value == ElemValues(es) && r.end == p + |ElemsText(es)| + 1
    decreases es, 2
  {
    var q := ElemsParts(s, p, es);
    ValueComplete(s, p, es.before, es.tree);
    if es.MoreElems? {
      ElemsComplete(s, q + 1, es.rest);
      ItemsMore(s, p, q);
    } else {
      ItemsLast(s, p, q);
    }
  }

  /** Entering a non-empty array. */
  lemma ArrayEnter(s: seq<Byte>, q: nat)
    requires q < |s| && ParseItems(s, q + 1).Parsed?
    requires Skip(s, q + 1) < |s| && s[Skip(s, q + 1)] != B(']')
    ensures var r, items := ParseArray(s, q), ParseItems(s, q + 1);
      r.Parsed? && r.value == JArray(items.value) && r.end == items.end
  {
    ItemsSkip(s, q + 1);
  }

  lemma ElemsStart(s: seq<Byte>, p: nat, es: Elems)
    requires ElemsOk(es) && At(s, p, ElemsText(es) + [B(']')])
    ensures p <= |s| && Skip(s, p) < |s| && s[Skip(s, p)] != B(']')
  {
    var _ := ElemsParts(s, p, es);
    TextStart(es.tree);
    SkipTo(s, p, es.before, Text(es.tree));
  }

  lemma {:induction false} ArrayComplete(s: seq<Byte>, q: nat, es: Elems)
    requires ElemsOk(es) && At(s, q, [B('[')] + (ElemsText(es) + [B(']')]))
    ensures var r := ParseArray(s, q);
      r.Parsed? && r.value == JArray(ElemValues(es)) && r.end == q + |ElemsText(es)| + 2
    decreases es, 3
  {
    AtParts(s, q, [B('[')], ElemsText(es) + [B(']')]);
    ElemsComplete(s, q + 1, es);
    ElemsStart(s, q + 1, es);
    ArrayEnter(s, q);
  }

  // ---- objects

  /** The parts of a spelled-out member list with its closing brace; `q` is where its first
      member and the white space after it end. */
  lemma MembersParts(s: seq<Byte>, p: nat, ms: Members) returns (q: nat)
    requires MembersOk(ms) && At(s, p, MembersText(ms) + [B('}')])
    ensures At(s, p, PairText(ms.member)) && p < |s|
    ensures Skip(s, p + |PairText(ms.member)|) == q < |s|
    ensures ms.LastMember? ==> s[q] == B('}') && p + |MembersText(ms)| == q
    ensures ms.MoreMembers? ==>
      && s[q] == B(',') && At(s, q + 1, MembersText(ms.rest) + [B('}')])
      && p + |MembersText(ms)| == q + 1 + |MembersText(ms.rest)|
  {
    var head := PairText(ms.member);
    q := p + |head| + |ms.member.after|;
    if ms.MoreMembers? {
      var rest := MembersText(ms.rest);
      assert MembersText(ms) == head + (ms.member.after + ([B(',')] + rest));
      MoreTextAssoc(head, ms.member.after, B(','), rest, B('}'));
      ListParts(s, p, head, ms.member.after, [B(',')] + (rest + [B('}')]));
      AtParts(s, q, [B(',')], rest + [B('}')]);
    } else {
      Assoc(head, ms.member.after, [B('}')]);
      ListParts(s, p, head, ms.member.after, [B('}')]);
    }
  }

  lemma MoreTextAssoc(head: seq<Byte>, after: seq<Byte>, comma: Byte, rest: seq<Byte>, close: Byte)
    ensures head + (after + ([comma] + rest)) + [close] == head + (after + ([comma] + (rest + [close])))
  {
  }

  /** The parts of a spelled-out pair, cut at its key and its colon. */
  lemma PairParts(s: seq<Byte>, p: nat, beforeKey: Ws, key: seq<Byte>, afterKey: Ws, value: seq<Byte>)
    requires WsOk(beforeKey) && key != [] && key[0] == B('"') && WsOk(afterKey)
    requires At(s, p, beforeKey + (key + (afterKey + ([B(':')] + value))))
    ensures var k := p + |beforeKey|; var a := k + |key|; var c := a + |afterKey|;
      && Skip(s, p) == k && k < |s| && s[k] == B('"') && At(s, k, key) && a <= |s|
      && Skip(s, a) == c && c < |s| && s[c] == B(':') && At(s, c + 1, value)
  {
    var rest := afterKey + ([B(':')] + value);
    SkipTo(s, p, beforeKey, key + rest);
    ColonParts(s, p + |beforeKey|, key, afterKey, value);
  }

  lemma ColonParts(s: seq<Byte>, k: nat, key: seq<Byte>, afterKey: Ws, value: seq<Byte>)
    requires WsOk(afterKey) && At(s, k, key + (afterKey + ([B(':')] + value)))
    ensures var a := k + |key|; var c := a + |afterKey|;
      && At(s, k, key) && a <= |s| && Skip(s, a) == c && c < |s| && s[c] == B(':') && At(s, c + 1, value)
  {
    ListParts(s, k, key, afterKey, [B(':')] + value);
    AtParts(s, k + |key| + |afterKey|, [B(':')], value);
  }

  lemma KeyComplete(s: seq<Byte>, p: nat, k: nat, key: seq<SChar>, c: nat)
    requires CharsOk(key) && p <= |s| && Skip(s, p) == k && At(s, k, StringText(key))
    requires Skip(s, k + |StringText(key)|) == c && c < |s| && s[c] == B(':')
    ensures var r := ParseKey(s, p); r.Parsed? && r.value == CStr(Decode(key)) && r.end == c + 1
  {
    StringComplete(s, k, key);
    KeyStep(s, p, k, c);
  }

  lemma KeyStep(s: seq<Byte>, p: nat, k: nat, c: nat)
    requires p <= |s| && Skip(s, p) == k && ParseString(s, k).Parsed?
    requires Skip(s, ParseString(s, k).end) == c && c < |s| && s[c] == B(':')
    ensures var r := ParseKey(s, p); r.Parsed? && r.value == ParseString(s, k).value && r.end == c + 1
  {
  }

  lemma PairStep(s: seq<Byte>, p: nat)
    requires p <= |s| && ParseKey(s, p).Parsed? && ParseValue(s, ParseKey(s, p).end).Parsed?
    ensures var v := ParseValue(s, ParseKey(s, p).end);
      var r := ParsePair(s, p);
      r.Parsed? && r.value == Pair(ParseKey(s, p).value, v.value) && r.end == v.end
  {
  }

  /** One key and its value. */
  lemma {:induction false} PairComplete(s: seq<Byte>, p: nat, m: Member)
    requires MemberOk(m) && At(s, p, PairText(m))
    ensures var r := ParsePair(s, p); r.Parsed? && r.value == PairValue(m) && r.end == p + |PairText(m)|
    decreases m, 1
  {
    PairParts(s, p, m.beforeKey, StringText(m.key), m.afterKey, m.before + Text(m.tree));
    var k := p + |m.beforeKey|;
    var c := k + |StringText(m.key)| + |m.afterKey|;
    KeyComplete(s, p, k, m.key, c);
    ValueComplete(s, c + 1, m.before, m.tree);
    PairStep(s, p);
  }

  lemma PairsLast(s: seq<Byte>, p: nat, q: nat)
    requires p <= |s| && ParsePair(s, p).Parsed? && Skip(s, ParsePair(s, p).end) == q
    requires q < |s| && s[q] == B('}')
    ensures var r := ParsePairs(s, p); r.Parsed? && r.value == [ParsePair(s, p).value] && r.end == q + 1
  {
    PairsAfterLast(s, ParsePair(s, p).value, ParsePair(s, p).end, q);
  }

  lemma PairsAfterLast(s: seq<Byte>, first: Pair, e: nat, q: nat)
    requires e <= |s| && Skip(s, e) == q < |s| && s[q] == B('}')
    ensures var r := PairsAfter(s, first, e); r.Parsed? && r.value == [first] && r.end == q + 1
  {
  }

  lemma PairsMore(s: seq<Byte>, p: nat, q: nat)
    requires p <= |s| && ParsePair(s, p).Parsed? && Skip(s, ParsePair(s, p).end) == q
    requires q < |s| && s[q] == B(',') && ParsePairs(s, q + 1).Parsed?
    ensures var r, rest := ParsePairs(s, p), ParsePairs(s, q + 1);
      r.Parsed? && r.value == [ParsePair(s, p).value] + rest.value && r.end == rest.end
  {
    PairsAfterMore(s, ParsePair(s, p).value, ParsePair(s, p).end, q);
  }

  lemma PairsAfterMore(s: seq<Byte>, first: Pair, e: nat, q: nat)
    requires e <= |s| && Skip(s, e) == q < |s| && s[q] == B(',') && ParsePairs(s, q + 1).Parsed?
    ensures var r, rest := PairsAfter(s, first, e), ParsePairs(s, q + 1);
      r.Parsed? && r.value == [first] + rest.value && r.end == rest.end
  {
  }

  /** The value of a member list, from its first pair on. */
  lemma MembersStep(s: seq<Byte>, p: nat, ms: Members, q: nat, r: Parsed<seq<Pair>>)
    requires MembersOk(ms) && p <= |s| && ParsePair(s, p).Parsed? && ParsePair(s, p).value == PairValue(ms.member)
    requires Skip(s, ParsePair(s, p).end) == q < |s| && r == ParsePairs(s, p)
    requires ms.LastMember? ==> s[q] == B('}')
    requires ms.MoreMembers? ==>
      s[q] == B(',') && ParsePairs(s, q + 1).Parsed? && ParsePairs(s, q + 1).value == MemberValues(ms.rest)
    ensures r.Parsed? && r.value == MemberValues(ms)
    ensures r.end == if ms.LastMember? then q + 1 else ParsePairs(s, q + 1).end
  {
    if ms.MoreMembers? { PairsMore(s, p, q); } else { PairsLast(s, p, q); }
  }

  /** The first pair of a member list and the brace or comma at `q` behind it. */
  lemma {:induction false} MembersFront(s: seq<Byte>, p: nat, ms: Members, e: nat) returns (q: nat)
    requires MembersOk(ms) && At(s, p, MembersText(ms) + [B('}')]) && e == p + |MembersText(ms)| + 1
    ensures p <= |s| && ParsePair(s, p).Parsed? && ParsePair(s, p).value == PairValue(ms.member)
    ensures Skip(s, ParsePair(s, p).end) == q < |s|
    ensures ms.LastMember? ==> s[q] == B('}') && e == q + 1
    ensures ms.MoreMembers? ==> s[q] == B(',') && At(s, q + 1, MembersText(ms.rest) + [B('}')])
    ensures ms.MoreMembers? ==> e == q + 1 + |MembersText(ms.rest)| + 1
    decreases ms, 1
  {
    q := MembersParts(s, p, ms);
    PairComplete(s, p, ms.member);
  }

  lemma {:induction false} MembersComplete(s: seq<Byte>, p: nat, ms: Members, e: nat, r: Parsed<seq<Pair>>)
    requires MembersOk(ms) && At(s, p, MembersText(ms) + [B('}')]) && e == p + |MembersText(ms)| + 1
    requires r == ParsePairs(s, p)
    ensures r.Parsed? && r.value == MemberValues(ms) && r.end == e
    decreases ms, 2
  {
    var q := MembersFront(s, p, ms, e);
    if ms.MoreMembers? { MembersComplete(s, q + 1, ms.rest, e, ParsePairs(s, q + 1)); }
    MembersStep(s, p, ms, q, r);
  }

  lemma PairsSkip(s: seq<Byte>, p: nat)
    requires p <= |s|
    ensures ParsePairs(s, Skip(s, p)) == ParsePairs(s, p)
  {
    SkipTwice(s, p);
    assert ParseKey(s, Skip(s, p)) == ParseKey(s, p);
    assert ParsePair(s, Skip(s, p)) == ParsePair(s, p);
  }

  /** Entering a non-empty object. */
  lemma ObjectEnter(s: seq<Byte>, q: nat)
    requires q < |s| && ParsePairs(s, q + 1).Parsed?
    requires Skip(s, q + 1) < |s| && s[Skip(s, q + 1)] != B('}')
    ensures var r, pairs := ParseObject(s, q), ParsePairs(s, q + 1);
      r.Parsed? && r.value == JObject(pairs.value) && r.end == pairs.end
  {
    PairsSkip(s, q + 1);
  }

  lemma MembersStart(s: seq<Byte>, p: nat, ms: Members)
    requires MembersOk(ms) && At(s, p, MembersText(ms) + [B('}')])
    ensures p <= |s| && Skip(s, p) < |s| && s[Skip(s, p)] == B('"')
  {
    var _ := MembersParts(s, p, ms);
    var m := ms.member;
    PairParts(s, p, m.beforeKey, StringText(m.key), m.afterKey, m.before + Text(m.tree));
  }

  lemma {:induction false} ObjectComplete(s: seq<Byte>, q: nat, ms: Members)
    requires MembersOk(ms) && At(s, q, [B('{')] + (MembersText(ms) + [B('}')]))
    ensures var r := ParseObject(s, q);
      r.Parsed? && r.value == JObject(MemberValues(ms)) && r.end == q + |MembersText(ms)| + 2
    decreases ms, 3
  {
    AtParts(s, q, [B('{')], MembersText(ms) + [B('}')]);
    MembersComplete(s, q + 1, ms, q + |MembersText(ms)| + 2, ParsePairs(s, q + 1));
    MembersStart(s, q + 1, ms);
    ObjectEnter(s, q);
  }

  // ---- every accepted text is spelled by a tree

  lemma {:induction false} SkipSound(s: seq<Byte>, p: nat) returns (ws: Ws)
    requires p <= |s|
    ensures WsOk(ws) && At(s, p, ws) && p + |ws| == Skip(s, p)
    decreases |s| - p
  {
    ws := [];
    if p < |s| && IsWs(s[p]) {
      var rest := SkipSound(s, p + 1);
      ws := [s[p]] + rest;
      AtParts(s, p, [s[p]], rest);
    }
  }

  lemma ListJoin(s: seq<Byte>, p: nat, head: seq<Byte>, after: seq<Byte>, last: seq<Byte>)
    requires At(s, p, head) && At(s, p + |head|, after) && At(s, p + |head| + |after|, last)
    ensures At(s, p, head + (after + last))
  {
    AtParts(s, p, head, after + last);
    AtParts(s, p + |head|, after, last);
  }

  lemma ByteAt(s: seq<Byte>, p: nat)
    requires p < |s|
    ensures At(s, p, [s[p]])
  {
    assert s[p..p + 1] == [s[p]];
  }

  lemma WrapAt(s: seq<Byte>, p: nat, inner: seq<Byte>)
    requires p < |s| && At(s, p + 1, inner)
    ensures At(s, p, [s[p]] + inner)
  {
    AtParts(s, p, [s[p]], inner);
  }

  /** A byte, white space and a closing byte. */
  lemma EmptyJoin(s: seq<Byte>, p: nat, ws: Ws)
    requires p < |s| && At(s, p + 1, ws) && p + 1 + |ws| < |s|
    ensures At(s, p, [s[p]] + (ws + [s[p + 1 + |ws|]]))
  {
    ByteAt(s, p);
    ByteAt(s, p + 1 + |ws|);
    ListJoin(s, p, [s[p]], ws, [s[p + 1 + |ws|]]);
  }

  lemma {:induction false} ValueSound(s: seq<Byte>, p: nat) returns (ws: Ws, t: Tree)
    requires p <= |s| && ParseValue(s, p).Parsed?
    ensures WsOk(ws) && TreeOk(t) && At(s, p, ws + Text(t))
    ensures Denote(t) == ParseValue(s, p).value && ParseValue(s, p).end == p + |ws| + |Text(t)|
    decreases |s| - p, 3
  {
    ws := SkipSound(s, p);
    t := TreeSound(s, p + |ws|);
    AtParts(s, p, ws, Text(t));
  }

  lemma {:induction false} TreeSound(s: seq<Byte>, q: nat) returns (t: Tree)
    requires q <= |s| && ParseAt(s, q).Parsed?
    ensures TreeOk(t) && At(s, q, Text(t))
    ensures Denote(t) == ParseAt(s, q).value && ParseAt(s, q).end == q + |Text(t)|
    decreases |s| - q, 2
  {
    if s[q] == B('{') {
      IsObjectAt(s, q);
      t := ObjectSound(s, q);
    } else if s[q] == B('[') {
      IsArrayAt(s, q);
      t := ArraySound(s, q);
    } else if s[q] == B('"') {
      IsStringAt(s, q);
      var cs := StringSound(s, q);
      t := TString(cs);
    } else {
      t := if At(s, q, Ascii("true")) then TBool(true) else if At(s, q, Ascii("false")) then TBool(false) else TNull;
    }
  }

  lemma {:induction false} ArraySound(s: seq<Byte>, p: nat) returns (t: Tree)
    requires p < |s| && s[p] == B('[') && ParseArray(s, p).Parsed?
    ensures TreeOk(t) && At(s, p, Text(t))
    ensures Denote(t) == ParseArray(s, p).value && ParseArray(s, p).end == p + |Text(t)|
    decreases |s| - p, 1
  {
    var ws := SkipSound(s, p + 1);
    var q := p + 1 + |ws|;
    if q < |s| && s[q] == B(']') {
      t := TEmptyArray(ws);
      EmptyJoin(s, p, ws);
    } else {
      ItemsSkip(s, p + 1);
      var es := ItemsSound(s, p + 1);
      t := TArray(es);
      WrapAt(s, p, ElemsText(es) + [B(']')]);
    }
  }

  lemma LastElemSound(s: seq<Byte>, p: nat, before: Ws, t: Tree, after: Ws) returns (es: Elems)
    requires WsOk(before) && TreeOk(t) && WsOk(after)
    requires At(s, p, before + Text(t)) && At(s, p + |before + Text(t)|, after)
    requires At(s, p + |before + Text(t)| + |after|, [B(']')])
    ensures ElemsOk(es) && At(s, p, ElemsText(es) + [B(']')]) && ElemValues(es) == [Denote(t)]
    ensures |ElemsText(es)| == |before + Text(t)| + |after|
  {
    es := LastElem(before, t, after);
    var head := before + Text(t);
    ListJoin(s, p, head, after, [B(']')]);
    assert ElemsText(es) + [B(']')] == head + (after + [B(']')]);
  }

  lemma MoreElemsSound(s: seq<Byte>, p: nat, before: Ws, t: Tree, after: Ws, rest: Elems) returns (es: Elems)
    requires WsOk(before) && TreeOk(t) && WsOk(after) && ElemsOk(rest)
    requires At(s, p, before + Text(t)) && At(s, p + |before + Text(t)|, after)
    requires var q := p + |before + Text(t)| + |after|;
      At(s, q, [B(',')]) && At(s, q + 1, ElemsText(rest) + [B(']')])
    ensures ElemsOk(es) && At(s, p, ElemsText(es) + [B(']')]) && ElemValues(es) == [Denote(t)] + ElemValues(rest)
    ensures |ElemsText(es)| == |before + Text(t)| + |after| + 1 + |ElemsText(rest)|
  {
    es := MoreElems(before, t, after, rest);
    var head := before + Text(t);
    var last := [B(',')] + (ElemsText(rest) + [B(']')]);
    AtParts(s, p + |head| + |after|, [B(',')], ElemsText(rest) + [B(']')]);
    ListJoin(s, p, head, after, last);
    assert ElemsText(es) + [B(']')] == head + (after + last);
  }

  lemma {:induction false} ItemsSound(s: seq<Byte>, p: nat) returns (es: Elems)
    requires p <= |s| && ParseItems(s, p).Parsed?
    ensures ElemsOk(es) && At(s, p, ElemsText(es) + [B(']')])
    ensures ElemValues(es) == ParseItems(s, p).value && ParseItems(s, p).end == p + |ElemsText(es)| + 1
    decreases |s| - p, 4
  {
    var before, t := ValueSound(s, p);
    var e := ParseValue(s, p).end;
    var after := SkipSound(s, e);
    var q := e + |after|;
    ByteAt(s, q);
    if s[q] == B(']') {
      ItemsLast(s, p, q);
      es := LastElemSound(s, p, before, t, after);
    } else {
      ItemsMore(s, p, q);
      var rest := ItemsSound(s, q + 1);
      es := MoreElemsSound(s, p, before, t, after, rest);
    }
  }

  lemma {:induction false} ObjectSound(s: seq<Byte>, p: nat) returns (t: Tree)
    requires p < |s| && s[p] == B('{') && ParseObject(s, p).Parsed?
    ensures TreeOk(t) && At(s, p, Text(t))
    ensures Denote(t) == ParseObject(s, p).value && ParseObject(s, p).end == p + |Text(t)|
    decreases |s| - p, 1
  {
    var ws := SkipSound(s, p + 1);
    var q := p + 1 + |ws|;
    if q < |s| && s[q] == B('}') {
      t := TEmptyObject(ws);
      EmptyJoin(s, p, ws);
    } else {
      PairsSkip(s, p + 1);
      var ms := PairsSound(s, p + 1, ParsePairs(s, p + 1));
      t := TObject(ms);
      WrapAt(s, p, MembersText(ms) + [B('}')]);
    }
  }

  /** A key and its colon. */
  lemma KeySound(s: seq<Byte>, p: nat) returns (before: Ws, key: seq<SChar>, after: Ws)
    requires p <= |s| && ParseKey(s, p).Parsed?
    ensures WsOk(before) && CharsOk(key) && WsOk(after)
    ensures ParseKey(s, p).value == CStr(Decode(key))
    ensures ParseKey(s, p).end == p + |before| + |StringText(key)| + |after| + 1
    ensures At(s, p, before + (StringText(key) + (after + [B(':')])))
  {
    before := SkipSound(s, p);
    var k := p + |before|;
    key := StringSound(s, k);
    var text := StringText(key);
    after := SkipSound(s, k + |text|);
    ByteAt(s, k + |text| + |after|);
    ListJoin(s, k, text, after, [B(':')]);
    AtParts(s, p, before, text + (after + [B(':')]));
  }

  lemma {:induction false} MemberSound(s: seq<Byte>, p: nat, after: Ws) returns (m: Member)
    requires p <= |s| && ParsePair(s, p).Parsed? && WsOk(after)
    ensures MemberOk(m) && m.after == after && At(s, p, PairText(m))
    ensures PairValue(m) == ParsePair(s, p).value && ParsePair(s, p).end == p + |PairText(m)|
    decreases |s| - p, 4
  {
    var beforeKey, key, afterKey := KeySound(s, p);
    var c := ParseKey(s, p).end;
    var before, t := ValueSound(s, c);
    m := Member(beforeKey, key, afterKey, before, t, after);
    var head := beforeKey + (StringText(key) + (afterKey + [B(':')]));
    AtParts(s, p, head, before + Text(t));
    assert PairText(m) == head + (before + Text(t));
  }

  lemma LastMemberSound(s: seq<Byte>, p: nat, m: Member, q: nat) returns (ms: Members)
    requires MemberOk(m) && At(s, p, PairText(m)) && At(s, p + |PairText(m)|, m.after)
    requires q == p + |PairText(m)| + |m.after| < |s| && s[q] == B('}')
    ensures MembersOk(ms) && At(s, p, MembersText(ms) + [B('}')]) && MemberValues(ms) == [PairValue(m)]
    ensures p + |MembersText(ms)| == q
  {
    ms := LastMember(m);
    ByteAt(s, q);
    ListJoin(s, p, PairText(m), m.after, [B('}')]);
    Assoc(PairText(m), m.after, [B('}')]);
  }

  lemma MoreMembersSound(s: seq<Byte>, p: nat, m: Member, q: nat, rest: Members) returns (ms: Members)
    requires MemberOk(m) && MembersOk(rest) && At(s, p, PairText(m)) && At(s, p + |PairText(m)|, m.after)
    requires q == p + |PairText(m)| + |m.after| < |s| && s[q] == B(',') && At(s, q + 1, MembersText(rest) + [B('}')])
    ensures MembersOk(ms) && At(s, p, MembersText(ms) + [B('}')])
    ensures MemberValues(ms) == [PairValue(m)] + MemberValues(rest)
    ensures p + |MembersText(ms)| == q + 1 + |MembersText(rest)|
  {
    ms := MoreMembers(m, rest);
    ByteAt(s, q);
    MoreJoin(s, p, PairText(m), m.after, q, MembersText(rest), B('}'));
  }

  /** A list item, the white space after it, the comma at `q` and the rest of the list. */
  lemma MoreJoin(s: seq<Byte>, p: nat, head: seq<Byte>, after: seq<Byte>, q: nat, rest: seq<Byte>, close: Byte)
    requires At(s, p, head) && At(s, p + |head|, after) && q == p + |head| + |after| < |s|
    requires At(s, q + 1, rest + [close])
    ensures At(s, p, head + (after + ([s[q]] + rest)) + [close])
  {
    ByteAt(s, q);
    AtParts(s, q, [s[q]], rest + [close]);
    ListJoin(s, p, head, after, [s[q]] + (rest + [close]));
    MoreTextAssoc(head, after, s[q], rest, close);
  }

  /** What an accepted list of pairs starts with: a pair up to `e`, and at `q` the brace or a
      comma and more pairs. */
  lemma PairsInvert(s: seq<Byte>, p: nat, r: Parsed<seq<Pair>>) returns (e: nat, q: nat)
    requires p <= |s| && r == ParsePairs(s, p) && r.Parsed?
    ensures ParsePair(s, p).Parsed? && ParsePair(s, p).end == e <= |s| && q == Skip(s, e) < |s|
    ensures s[q] == B('}') || (s[q] == B(',') && ParsePairs(s, q + 1).Parsed?)
    ensures s[q] == B('}') ==> r.value == [ParsePair(s, p).value] && r.end == q + 1
    ensures s[q] == B(',') ==>
      r.value == [ParsePair(s, p).value] + ParsePairs(s, q + 1).value && r.end == ParsePairs(s, q + 1).end
  {
    e := ParsePair(s, p).end;
    q := Skip(s, e);
  }

  /** The written pair in front of an accepted list, and what stands behind it. */
  lemma {:induction false} PairsFront(s: seq<Byte>, p: nat, r: Parsed<seq<Pair>>) returns (m: Member, q: nat)
    requires p <= |s| && r == ParsePairs(s, p) && r.Parsed?
    ensures MemberOk(m) && At(s, p, PairText(m)) && At(s, p + |PairText(m)|, m.after)
    ensures q == p + |PairText(m)| + |m.after| < |s|
    ensures s[q] == B('}') || (s[q] == B(',') && ParsePairs(s, q + 1).Parsed?)
    ensures s[q] == B('}') ==> r.value == [PairValue(m)] && r.end == q + 1
    ensures s[q] == B(',') ==>
      r.value == [PairValue(m)] + ParsePairs(s, q + 1).value && r.end == ParsePairs(s, q + 1).end
    decreases |s| - p, 5
  {
    var e;
    e, q := PairsInvert(s, p, r);
    var after := SkipSound(s, e);
    m := MemberSound(s, p, after);
  }

  lemma {:induction false} PairsSound(s: seq<Byte>, p: nat, r: Parsed<seq<Pair>>) returns (ms: Members)
    requires p <= |s| && r == ParsePairs(s, p) && r.Parsed?
    ensures MembersOk(ms) && At(s, p, MembersText(ms) + [B('}')])
    ensures MemberValues(ms) == r.value && r.end == p + |MembersText(ms)| + 1
    decreases |s| - p, 6
  {
    var m, q := PairsFront(s, p, r);
    if s[q] == B('}') {
      ms := LastMemberSound(s, p, m, q);
    } else {
      var more := ParsePairs(s, q + 1);
      var rest := PairsSound(s, q + 1, more);
      ms := MoreMembersSound(s, p, m, q, rest);
      assert r.value == [PairValue(m)] + more.value;
    }
  }

  // ---- whole texts

  /** White space, a tree and white space spell out `s`. */
  ghost predicate Spells(s: seq<Byte>, before: Ws, t: Tree, after: Ws) {
    WsOk(before) && TreeOk(t) && WsOk(after) && s == before + Text(t) + after
  }

  /** A text is accepted with value `v` exactly when some tree of the grammar spells it and
      denotes `v`. */
  lemma AcceptsGrammar(s: seq<Byte>, v: JValue)
    ensures Parse(s) == Some(v) <==>
      exists before, t, after :: Spells(s, before, t, after) && Denote(t) == v
  {
    if Parse(s) == Some(v) {
      var before, t := ValueSound(s, 0);
      var after := SkipSound(s, |before| + |Text(t)|);
      AtParts(s, 0, before + Text(t), after);
      assert Spells(s, before, t, after);
    }
    forall before, t, after | Spells(s, before, t, after) && Denote(t) == v ensures Parse(s) == Some(v) {
      SpelledIsAccepted(s, before, t, after);
    }
  }

  lemma SpelledIsAccepted(s: seq<Byte>, before: Ws, t: Tree, after: Ws)
    requires Spells(s, before, t, after)
    ensures Parse(s) == Some(Denote(t))
  {
    assert At(s, 0, before + Text(t) + after);
    AtParts(s, 0, before + Text(t), after);
    ValueComplete(s, 0, before, t);
    SkipExact(s, |before + Text(t)|, after);
  }

  /** So no text has two meanings. */
  lemma OneMeaning(s: seq<Byte>, b1: Ws, t1: Tree, a1: Ws, b2: Ws, t2: Tree, a2: Ws)
    requires Spells(s, b1, t1, a1) && Spells(s, b2, t2, a2)
    ensures Denote(t1) == Denote(t2)
  {
    SpelledIsAccepted(s, b1, t1, a1);
    SpelledIsAccepted(s, b2, t2, a2);
  }
}
