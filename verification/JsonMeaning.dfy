/** What strings and literals mean, said in bytes: the tables of section 7 of RFC 8259 and of
    section 3 of RFC 3629, read out of arbitrary texts. */
module JsonMeaning {
  import opened Wrappers
  import opened Bytes
  import opened JsonGrammar
  import opened JsonParser
  import opened JsonTheorems

  // ---- strings of one or two written characters

  /** A string of `cs` anywhere in a text. */
  lemma StringReads(cs: seq<SChar>, before: seq<Byte>, after: seq<Byte>)
    requires CharsOk(cs)
    ensures var r := ParseString(before + StringText(cs) + after, |before|);
      r.Parsed? && r.value == CStr(Decode(cs)) && r.end == |before| + |StringText(cs)|
  {
    StandsBetween(before, StringText(cs), after);
    StringComplete(before + StringText(cs) + after, |before|, cs);
  }

  lemma StandsBetween(before: seq<Byte>, text: seq<Byte>, after: seq<Byte>)
    ensures At(before + text + after, |before|, text)
  {
  }

  lemma OneDecoded(c: SChar)
    requires SCharOk(c)
    ensures Decode([c]) == match c
                           case Raw(b) => [b]
                           case Esc(e) => [EscByte(e).value]
                           case Uni(h) => Utf8(Hex(h))
  {
    assert [c][1..] == [] && Decode([]) == [];
  }

  /** The byte an escape stands for; only these eight letters and `u` may follow a backslash. */
  function Escaped(e: Byte): Option<Byte> {
    if e == 0x22 then Some(0x22)
    else if e == 0x5C then Some(0x5C)
    else if e == 0x2F then Some(0x2F)
    else if e == 0x62 then Some(0x08)
    else if e == 0x66 then Some(0x0C)
    else if e == 0x6E then Some(0x0A)
    else if e == 0x72 then Some(0x0D)
    else if e == 0x74 then Some(0x09)
    else None
  }

  /** A string that is one escape reads as its byte, anywhere in a text; any other letter but
      `u` is refused. */
  lemma EscapesRead(e: Byte, before: seq<Byte>, after: seq<Byte>)
    requires e != 0x75
    ensures var r := ParseString(before + [0x22, 0x5C, e, 0x22] + after, |before|);
      if Escaped(e).Some? then r.Parsed? && r.value == [Escaped(e).value] && r.end == |before| + 4 else r.NoParse?
  {
    var text := [0x22, 0x5C, e, 0x22];
    var s, p := before + text + after, |before|;
    if Escaped(e).Some? {
      var cs := [Esc(e)];
      assert StringText(cs) == text by { assert cs[1..] == [] && CharsText(cs) == [0x5C, e] + []; }
      StringReads(cs, before, after);
      OneDecoded(Esc(e));
      OneByteString(Escaped(e).value);
    } else {
      assert s[p] == 0x22 && s[p + 1] == 0x5C && s[p + 2] == e;
      assert ParseChar(s, p + 1).NoParse?;
      assert ParseChars(s, p + 1).NoParse?;
    }
  }

  lemma OneByteString(b: Byte)
    requires b != 0
    ensures CStr([b]) == [b]
  {
    CStrUnique([b], [b]);
  }

  // ---- digits

  /** The sixteen digits, in either case; nothing else is one. */
  lemma DigitsAre(b: Byte, n: nat)
    ensures HexVal(b) == Some(n) <==>
      n < 16 && (b == Ascii("0123456789abcdef")[n] || b == Ascii("0123456789ABCDEF")[n])
  {
  }

  /** Four digits are weighed by sixteens. */
  lemma FourWeighed(h: seq<Byte>, a: nat, b: nat, c: nat, d: nat)
    requires |h| == 4 && HexVal(h[0]) == Some(a) && HexVal(h[1]) == Some(b)
    requires HexVal(h[2]) == Some(c) && HexVal(h[3]) == Some(d)
    ensures HexOk(h) && Hex(h) == a * 0x1000 + b * 0x100 + c * 0x10 + d
  {
    assert h[..3][..2] == h[..2] && h[..2][..1] == h[..1] && h[..1][..0] == [];
    assert Hex(h[..1]) == a;
    assert Hex(h[..2]) == a * 16 + b;
    assert Hex(h[..3]) == (a * 16 + b) * 16 + c;
  }

  // ---- code points

  /** The shortest form: one, two, three or four bytes by the size of the code point, the
      first byte giving the number and the others being continuations. */
  lemma Utf8Shortest(cp: nat)
    requires cp <= 0x10FFFF
    ensures |Utf8(cp)| == if cp < 0x80 then 1 else if cp < 0x800 then 2 else if cp < 0x10000 then 3 else 4
    ensures forall i :: 0 < i < |Utf8(cp)| ==> 0x80 <= Utf8(cp)[i] < 0xC0
    ensures var b := Utf8(cp)[0];
      if |Utf8(cp)| == 1 then b < 0x80 else if |Utf8(cp)| == 2 then 0xC0 <= b < 0xE0
      else if |Utf8(cp)| == 3 then 0xE0 <= b < 0xF0 else 0xF0 <= b < 0xF8
    ensures cp != 0 ==> NulFree(Utf8(cp))
  {
  }

  lemma Utf8ReadsWhole(cp: nat)
    requires 0 < cp <= 0x10FFFF
    ensures CStr(Utf8(cp)) == Utf8(cp) && Utf8First(Utf8(cp)) == Some((cp, |Utf8(cp)|))
  {
    Utf8Shortest(cp);
    CStrUnique(Utf8(cp), Utf8(cp));
    Utf8ReadsBack(cp, []);
    assert Utf8(cp) + [] == Utf8(cp);
  }

  /** A Unicode escape by itself reads, anywhere in a text, as the bytes of its code point. */
  lemma UnicodeReads(h: seq<Byte>, before: seq<Byte>, after: seq<Byte>)
    requires SCharOk(Uni(h)) && Hex(h) != 0
    ensures var r := ParseString(before + StringText([Uni(h)]) + after, |before|);
      r.Parsed? && Utf8First(r.value) == Some((Hex(h), |r.value|)) && r.end == |before| + 8
  {
    StringReads([Uni(h)], before, after);
    OneDecoded(Uni(h));
    Utf8ReadsWhole(Hex(h));
    assert [Uni(h)][1..] == [];
    assert |CharsText([Uni(h)])| == 6;
  }

  /** The two halves of a code point beyond the first 64K combine to it. */
  lemma HalvesCombine(cp: nat)
    requires 0x10000 <= cp <= 0x10FFFF
    ensures var hi, lo := 0xD800 + (cp - 0x10000) / 0x400, 0xDC00 + (cp - 0x10000) % 0x400;
      HighSurrogate(hi) && LowSurrogate(lo) && Combine(hi, lo) == cp
  {
  }

  lemma TwoDecoded(h: seq<Byte>, low: seq<Byte>)
    requires SCharOk(Uni(h)) && SCharOk(Uni(low)) && HighSurrogate(Hex(h)) && LowSurrogate(Hex(low))
    ensures Decode([Uni(h), Uni(low)]) == Utf8(Combine(Hex(h), Hex(low)))
  {
    var cs := [Uni(h), Uni(low)];
    assert cs[1..] == [Uni(low)] && cs[2..] == [] && Decode([]) == [];
    assert FirstPiece(cs) == (Point(Combine(Hex(h), Hex(low))), 2);
  }

  /** An escaped surrogate pair reads, anywhere in a text, as the four bytes of the code point
      whose halves it writes. */
  lemma PairReads(cp: nat, h: seq<Byte>, low: seq<Byte>, before: seq<Byte>, after: seq<Byte>)
    requires 0x10000 <= cp <= 0x10FFFF && SCharOk(Uni(h)) && SCharOk(Uni(low))
    requires Hex(h) == 0xD800 + (cp - 0x10000) / 0x400 && Hex(low) == 0xDC00 + (cp - 0x10000) % 0x400
    ensures var r := ParseString(before + StringText([Uni(h), Uni(low)]) + after, |before|);
      r.Parsed? && |r.value| == 4 && Utf8First(r.value) == Some((cp, 4)) && r.end == |before| + 14
  {
    HalvesCombine(cp);
    StringReads([Uni(h), Uni(low)], before, after);
    TwoDecoded(h, low);
    Utf8ReadsWhole(cp);
    Utf8Shortest(cp);
    PairIsTwelveLong(h, low);
  }

  lemma PairIsTwelveLong(h: seq<Byte>, low: seq<Byte>)
    requires |h| == 4 && |low| == 4
    ensures |CharsText([Uni(h), Uni(low)])| == 12
  {
    assert [Uni(h), Uni(low)][1..] == [Uni(low)] && [Uni(low)][1..] == [];
    assert |CharsText([Uni(low)])| == 6;
  }

  /** U+1F600, the escaped pair D83D DE00, is F0 9F 98 80, and U+20AC is E2 82 AC. */
  lemma TwoCodePoints()
    ensures Combine(0xD83D, 0xDE00) == 0x1F600 && Utf8(0x1F600) == [0xF0, 0x9F, 0x98, 0x80]
    ensures Utf8(0x20AC) == [0xE2, 0x82, 0xAC]
  {
  }

  // ---- white space and literals

  /** The four bytes that may stand before and after a value. */
  lemma WhiteSpaceIs(b: Byte)
    ensures IsWs(b) <==> b == 0x20 || b == 0x09 || b == 0x0A || b == 0x0D
  {
  }

  /** A tree by itself. */
  lemma TreeReads(t: Tree)
    requires TreeOk(t)
    ensures Parse(Text(t)) == Some(Denote(t))
  {
    assert Text(t) == [] + Text(t) + [];
    SpelledIsAccepted(Text(t), [], t, []);
  }

  lemma LiteralsMean()
    ensures Parse(Ascii("true")) == Some(JBool(true)) && Parse(Ascii("false")) == Some(JBool(false))
    ensures Parse(Ascii("null")) == Some(JNull)
    ensures Parse(Ascii("[]")) == Some(JArray([])) && Parse(Ascii("{}")) == Some(JObject([]))
  {
    TreeReads(TBool(true));
    TreeReads(TBool(false));
    TreeReads(TNull);
    TreeReads(TEmptyArray([]));
    TreeReads(TEmptyObject([]));
    assert Text(TEmptyArray([])) == Ascii("[]") && Text(TEmptyObject([])) == Ascii("{}");
  }
}
