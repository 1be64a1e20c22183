/** The string printer and the click event. */
module JsonEmit {
  import opened Wrappers
  import opened Bytes
  import opened JsonGrammar
  import opened JsonParser
  import opened JsonTheorems

  /** A lower-case hexadecimal digit. */
  function HexByte(n: nat): (b: Byte)
    requires n < 16
    ensures HexVal(b) == Some(n) && b >= 0x20
  {
    if n < 10 then B('0') + n else B('a') + n - 10
  }

  /** How one byte of a string is written. */
  function EmitChar(b: Byte): (c: SChar)
    ensures SCharOk(c)
  {
    if b == B('"') || b == B('\\') then Esc(b)
    else if b == 10 then Esc(B('n'))
    else if b == 13 then Esc(B('r'))
    else if b == 9 then Esc(B('t'))
    else if b < 0x20 then Uni([B('0'), B('0'), HexByte(b / 16), HexByte(b % 16)])
    else Raw(b)
  }

  function EmitChars(s: seq<Byte>): (cs: seq<SChar>)
    ensures |cs| == |s| && CharsOk(cs)
  {
    seq(|s|, i requires 0 <= i < |s| => EmitChar(s[i]))
  }

  lemma EmitStep(s: seq<Byte>)
    requires s != []
    ensures EmitChars(s)[0] == EmitChar(s[0]) && EmitChars(s)[1..] == EmitChars(s[1..])
  {
  }

  /** A written byte is one piece, and it stands for itself. */
  lemma EmitPiece(s: seq<Byte>)
    requires s != []
    ensures var (piece, n) := FirstPiece(EmitChars(s)); n == 1 && PieceBytes(piece) == [s[0]]
  {
    var c := EmitChar(s[0]);
    if c.Uni? {
      LastTwoDigits(c.h, s[0] / 16, s[0] % 16);
      assert Hex(c.h) == s[0];
    }
  }

  lemma LastTwoDigits(h: seq<Byte>, x: nat, y: nat)
    requires x < 16 && y < 16 && h == [B('0'), B('0'), HexByte(x), HexByte(y)]
    ensures HexOk(h) && Hex(h) == x * 16 + y
  {
    HexStep(h[..3], HexByte(y), y);
    HexStep(h[..2], HexByte(x), x);
    HexStep(h[..1], B('0'), 0);
    HexStep([], B('0'), 0);
    assert h[..3] + [HexByte(y)] == h && h[..2] + [HexByte(x)] == h[..3];
    assert h[..1] + [B('0')] == h[..2] && [] + [B('0')] == h[..1];
  }

  lemma HexStep(h: seq<Byte>, b: Byte, n: nat)
    requires HexOk(h) && HexVal(b) == Some(n)
    ensures HexOk(h + [b]) && Hex(h + [b]) == Hex(h) * 16 + n
  {
    assert (h + [b])[..|h|] == h;
  }

  lemma {:induction false} DecodeEmit(s: seq<Byte>)
    ensures Decode(EmitChars(s)) == s
  {
    if s != [] {
      EmitPiece(s);
      EmitStep(s);
      DecodeEmit(s[1..]);
    }
  }

  /** How the bytes are spelled that are not written as they are. */
  lemma EmitSpells(b: Byte)
    ensures b == 0x22 ==> CharText(EmitChar(b)) == Ascii("\\\"")
    ensures b == 0x5C ==> CharText(EmitChar(b)) == Ascii("\\\\")
    ensures b == 0x0A ==> CharText(EmitChar(b)) == Ascii("\\n")
    ensures b == 0x0D ==> CharText(EmitChar(b)) == Ascii("\\r")
    ensures b == 0x09 ==> CharText(EmitChar(b)) == Ascii("\\t")
    ensures b < 0x20 && b != 0x0A && b != 0x0D && b != 0x09 ==>
      CharText(EmitChar(b)) == Ascii("\\u00") + [Ascii("0123456789abcdef")[b / 16], Ascii("0123456789abcdef")[b % 16]]
    ensures b >= 0x20 && b != 0x22 && b != 0x5C ==> CharText(EmitChar(b)) == [b]
  {
  }

  /** Nothing below a space is ever written: no newline, no carriage return, no NUL. */
  lemma {:induction false} EmitIsPrintable(s: seq<Byte>)
    ensures forall i :: 0 <= i < |CharsText(EmitChars(s))| ==> CharsText(EmitChars(s))[i] >= 0x20
  {
    if s != [] {
      EmitStep(s);
      EmitIsPrintable(s[1..]);
    }
  }

  function EmitText(s: seq<Byte>): seq<Byte> { StringText(EmitChars(s)) }

  /** From the middle of any text a printed string reads back up to its first NUL, so it
      reads back unchanged exactly if it has none; reading stops right behind it. */
  lemma StringRoundTrip(s: seq<Byte>, before: seq<Byte>, after: seq<Byte>)
    ensures var r := ParseString(before + EmitText(s) + after, |before|);
      r.Parsed? && r.value == CStr(s) && r.end == |before| + |EmitText(s)| && (r.value == s <==> NulFree(s))
  {
    PrintedStandsAt(before, EmitText(s), after);
    StringComplete(before + EmitText(s) + after, |before|, EmitChars(s));
    DecodeEmit(s);
    CStrIs(s);
    if NulFree(s) { CStrUnique(s, s); }
  }

  lemma PrintedStandsAt(before: seq<Byte>, text: seq<Byte>, after: seq<Byte>)
    ensures At(before + text + after, |before|, text)
  {
  }

  // ---- the click event

  function EventKey(): seq<Byte> { Ascii("event") }
  function NameKey(): seq<Byte> { Ascii("name") }
  function Click(): seq<Byte> { Ascii("click") }

  /** The bytes of one event without the newline that ends it. */
  function ClickLine(name: seq<Byte>): seq<Byte> {
    Ascii("{\"event\":\"click\",\"name\":") + EmitText(name) + Ascii("}")
  }

  function ClickText(name: seq<Byte>): seq<Byte> { ClickLine(name) + [10] }

  function ClickValue(name: seq<Byte>): JValue {
    JObject([Pair(EventKey(), JString(Click())), Pair(NameKey(), JString(name))])
  }

  /** Letters written as they are. */
  function RawChars(s: seq<Byte>): (cs: seq<SChar>)
    ensures Plain(s) ==> CharsOk(cs)
  {
    seq(|s|, i requires 0 <= i < |s| => Raw(s[i]))
  }

  /** A key and a string, without white space. */
  function StringMember(key: seq<SChar>, cs: seq<SChar>): Member {
    Member([], key, [], [], TString(cs), [])
  }

  function TwoMembers(m: Member, n: Member): Tree { TObject(MoreMembers(m, LastMember(n))) }

  function ClickTree(name: seq<Byte>): Tree {
    TwoMembers(StringMember(RawChars(EventKey()), RawChars(Click())),
               StringMember(RawChars(NameKey()), EmitChars(name)))
  }

  ghost predicate Plain(s: seq<Byte>) {
    forall i :: 0 <= i < |s| ==> s[i] != B('"') && s[i] != B('\\') && s[i] >= 0x20
  }

  lemma {:induction false} PlainText(s: seq<Byte>)
    requires Plain(s)
    ensures CharsOk(RawChars(s)) && CharsText(RawChars(s)) == s && Decode(RawChars(s)) == s && CStr(s) == s
  {
    if s != [] {
      assert RawChars(s)[1..] == RawChars(s[1..]);
      PlainText(s[1..]);
    }
  }

  lemma StringMemberText(key: seq<SChar>, cs: seq<SChar>)
    ensures PairText(StringMember(key, cs)) == StringText(key) + ([B(':')] + StringText(cs))
  {
    JoinEmpty(StringText(key), [B(':')], StringText(cs));
  }

  lemma JoinEmpty(a: seq<Byte>, b: seq<Byte>, c: seq<Byte>)
    ensures [] + (a + ([] + (b + ([] + c)))) == a + (b + c)
  {
  }

  lemma StringMemberValue(key: seq<SChar>, cs: seq<SChar>)
    requires CharsOk(key) && CharsOk(cs)
    ensures MemberOk(StringMember(key, cs))
    ensures PairValue(StringMember(key, cs)) == Pair(CStr(Decode(key)), JString(CStr(Decode(cs))))
  {
  }

  lemma TwoMembersAre(m: Member, n: Member)
    requires MemberOk(m) && MemberOk(n) && m.after == n.after == []
    ensures TreeOk(TwoMembers(m, n)) && Denote(TwoMembers(m, n)) == JObject([PairValue(m), PairValue(n)])
  {
    assert MemberValues(LastMember(n)) == [PairValue(n)];
  }

  /** The text of an object of two strings. */
  lemma TwoMembersText(k: seq<SChar>, v: seq<SChar>, l: seq<SChar>, w: seq<SChar>)
    ensures Text(TwoMembers(StringMember(k, v), StringMember(l, w))) ==
      [B('{')] + ((StringText(k) + ([B(':')] + StringText(v)))
        + ([B(',')] + (StringText(l) + ([B(':')] + StringText(w)))) + [B('}')])
  {
    StringMemberText(k, v);
    StringMemberText(l, w);
    PlainMembersText(StringMember(k, v), StringMember(l, w));
  }

  lemma PlainMembersText(m: Member, n: Member)
    requires m.after == n.after == []
    ensures MembersText(MoreMembers(m, LastMember(n))) == PairText(m) + ([B(',')] + PairText(n))
  {
    assert MembersText(LastMember(n)) == PairText(n) + [] == PairText(n);
    assert [] + ([B(',')] + PairText(n)) == [B(',')] + PairText(n);
  }

  /** The fixed bytes of an event, cut at its quotes. */
  lemma ClickPrefix()
    ensures Ascii("{\"event\":\"click\",\"name\":") ==
      [B('{')] + (QUOTE + EventKey() + QUOTE + [B(':')] + QUOTE + Click() + QUOTE) + [B(',')]
        + (QUOTE + NameKey() + QUOTE) + [B(':')]
  {
  }

  lemma ClickTreeText(name: seq<Byte>)
    ensures Text(ClickTree(name)) == ClickLine(name)
  {
    FixedTexts();
    TwoMembersText(RawChars(EventKey()), RawChars(Click()), RawChars(NameKey()), EmitChars(name));
    ClickPrefix();
    ClickJoin(EventKey(), Click(), NameKey(), EmitText(name));
  }

  lemma FixedTexts()
    ensures StringText(RawChars(EventKey())) == QUOTE + (EventKey() + QUOTE)
    ensures StringText(RawChars(NameKey())) == QUOTE + (NameKey() + QUOTE)
    ensures StringText(RawChars(Click())) == QUOTE + (Click() + QUOTE)
  {
    PlainStringText(NameKey());
    PlainStringText(EventKey());
    PlainStringText(Click());
  }

  lemma PlainStringText(s: seq<Byte>)
    requires Plain(s)
    ensures StringText(RawChars(s)) == QUOTE + (s + QUOTE)
  {
    PlainText(s);
  }

  lemma PlainString(s: seq<Byte>)
    requires Plain(s)
    ensures CharsOk(RawChars(s)) && CStr(Decode(RawChars(s))) == s
  {
    PlainText(s);
  }

  lemma EmittedString(s: seq<Byte>)
    requires NulFree(s)
    ensures CStr(Decode(EmitChars(s))) == s
  {
    DecodeEmit(s);
    CStrUnique(s, s);
  }

  /** What an object of two strings denotes. */
  lemma TwoStringsDenote(k: seq<SChar>, v: seq<SChar>, l: seq<SChar>, w: seq<SChar>)
    requires CharsOk(k) && CharsOk(v) && CharsOk(l) && CharsOk(w)
    ensures var t := TwoMembers(StringMember(k, v), StringMember(l, w));
      TreeOk(t) && Denote(t) == JObject(
        [Pair(CStr(Decode(k)), JString(CStr(Decode(v)))), Pair(CStr(Decode(l)), JString(CStr(Decode(w))))])
  {
    StringMemberValue(k, v);
    StringMemberValue(l, w);
    TwoMembersAre(StringMember(k, v), StringMember(l, w));
  }

  lemma ClickTreeDenotes(name: seq<Byte>)
    requires NulFree(name)
    ensures TreeOk(ClickTree(name)) && Denote(ClickTree(name)) == ClickValue(name)
  {
    PlainString(EventKey());
    PlainString(NameKey());
    PlainString(Click());
    EmittedString(name);
    TwoStringsDenote(RawChars(EventKey()), RawChars(Click()), RawChars(NameKey()), EmitChars(name));
  }

  lemma ClickJoin(event: seq<Byte>, click: seq<Byte>, key: seq<Byte>, name: seq<Byte>)
    ensures [B('{')] + (((QUOTE + (event + QUOTE)) + ([B(':')] + (QUOTE + (click + QUOTE))))
        + ([B(',')] + ((QUOTE + (key + QUOTE)) + ([B(':')] + name))) + [B('}')])
      == [B('{')] + (QUOTE + event + QUOTE + [B(':')] + QUOTE + click + QUOTE) + [B(',')]
        + (QUOTE + key + QUOTE) + [B(':')] + name + [B('}')]
  {
  }

  /** The printed event is a text of the grammar and parses to the event it announces. */
  lemma ClickParses(name: seq<Byte>)
    requires NulFree(name)
    ensures Parse(ClickLine(name)) == Some(ClickValue(name))
  {
    ClickTreeText(name);
    ClickTreeDenotes(name);
    assert ClickLine(name) == [] + ClickLine(name) + [];
    SpelledIsAccepted(ClickLine(name), [], ClickTree(name), []);
  }
}
