/** The JSON grammar of section 2 of RFC 8259 without numbers, as concrete syntax trees:
    `Text` spells a tree out and `Denote` gives its value.  Strings are those of section 7
    except that raw control bytes are allowed. */
module JsonGrammar {
  import opened Wrappers
  import opened Bytes

  datatype JValue =
    | JNull
    | JBool(b: bool)
    | JString(s: seq<Byte>)
    | JArray(items: seq<JValue>)
    | JObject(pairs: seq<Pair>)

  datatype Pair = Pair(key: seq<Byte>, value: JValue)

  /** One character of a string as written. */
  datatype SChar = Raw(b: Byte) | Esc(e: Byte) | Uni(h: seq<Byte>)

  type Ws = seq<Byte>

  datatype Tree =
    | TNull
    | TBool(b: bool)
    | TString(cs: seq<SChar>)
    | TEmptyArray(ws: Ws)
    | TArray(elems: Elems)
    | TEmptyObject(ws: Ws)
    | TObject(members: Members)

  datatype Elems =
    | LastElem(before: Ws, tree: Tree, after: Ws)
    | MoreElems(before: Ws, tree: Tree, after: Ws, rest: Elems)

  datatype Members =
    | LastMember(member: Member)
    | MoreMembers(member: Member, rest: Members)

  datatype Member = Member(beforeKey: Ws, key: seq<SChar>, afterKey: Ws, before: Ws, tree: Tree, after: Ws)

  // ---- well-formedness

  predicate IsWs(b: Byte) { b == 32 || b == 9 || b == 13 || b == 10 }

  predicate WsOk(ws: Ws) { forall i :: 0 <= i < |ws| ==> IsWs(ws[i]) }

  /** The value of a hexadecimal digit of either case. */
  function HexVal(b: Byte): Option<nat> {
    if B('0') <= b <= B('9') then Some(b - B('0'))
    else if B('a') <= b <= B('f') then Some(10 + b - B('a'))
    else if B('A') <= b <= B('F') then Some(10 + b - B('A'))
    else None
  }

  predicate HexOk(h: seq<Byte>) { forall i :: 0 <= i < |h| ==> HexVal(h[i]).Some? }

  function EscByte(e: Byte): Option<Byte> {
    if e == B('"') || e == B('\\') || e == B('/') then Some(e)
    else if e == B('b') then Some(8)
    else if e == B('f') then Some(12)
    else if e == B('n') then Some(10)
    else if e == B('r') then Some(13)
    else if e == B('t') then Some(9)
    else None
  }

  predicate SCharOk(c: SChar) {
    match c
    case Raw(b) => b != B('"') && b != B('\\')
    case Esc(e) => EscByte(e).Some?
    case Uni(h) => |h| == 4 && HexOk(h)
  }

  predicate CharsOk(cs: seq<SChar>) { forall i :: 0 <= i < |cs| ==> SCharOk(cs[i]) }

  predicate TreeOk(t: Tree) {
    match t
    case TString(cs) => CharsOk(cs)
    case TEmptyArray(ws) => WsOk(ws)
    case TArray(es) => ElemsOk(es)
    case TEmptyObject(ws) => WsOk(ws)
    case TObject(ms) => MembersOk(ms)
    case _ => true
  }

  predicate ElemsOk(es: Elems) {
    WsOk(es.before) && TreeOk(es.tree) && WsOk(es.after) && (es.MoreElems? ==> ElemsOk(es.rest))
  }

  predicate MembersOk(ms: Members) {
    MemberOk(ms.member) && (ms.MoreMembers? ==> MembersOk(ms.rest))
  }

  predicate MemberOk(m: Member) {
    WsOk(m.beforeKey) && CharsOk(m.key) && WsOk(m.afterKey) && WsOk(m.before) && TreeOk(m.tree) && WsOk(m.after)
  }

  // ---- spelling

  function CharText(c: SChar): seq<Byte> {
    match c
    case Raw(b) => [b]
    case Esc(e) => [B('\\'), e]
    case Uni(h) => [B('\\'), B('u')] + h
  }

  function CharsText(cs: seq<SChar>): seq<Byte> {
    if cs == [] then [] else CharText(cs[0]) + CharsText(cs[1..])
  }

  function StringText(cs: seq<SChar>): seq<Byte> {
    [B('"')] + (CharsText(cs) + [B('"')])
  }

  function Text(t: Tree): seq<Byte>
    decreases t
  {
    match t
    case TNull => Ascii("null")
    case TBool(b) => if b then Ascii("true") else Ascii("false")
    case TString(cs) => StringText(cs)
    case TEmptyArray(ws) => [B('[')] + (ws + [B(']')])
    case TArray(es) => [B('[')] + (ElemsText(es) + [B(']')])
    case TEmptyObject(ws) => [B('{')] + (ws + [B('}')])
    case TObject(ms) => [B('{')] + (MembersText(ms) + [B('}')])
  }

  function ElemsText(es: Elems): seq<Byte>
    decreases es
  {
    var first := es.before + Text(es.tree);
    if es.MoreElems? then first + (es.after + ([B(',')] + ElemsText(es.rest))) else first + es.after
  }

  /** One member without the white space after its value. */
  function PairText(m: Member): seq<Byte>
    decreases m
  {
    m.beforeKey + (StringText(m.key) + (m.afterKey + ([B(':')] + (m.before + Text(m.tree)))))
  }

  function MembersText(ms: Members): seq<Byte>
    decreases ms
  {
    var first := PairText(ms.member);
    if ms.MoreMembers? then first + (ms.member.after + ([B(',')] + MembersText(ms.rest))) else first + ms.member.after
  }

  // ---- meaning

  /** The number hexadecimal digits write, most significant first. */
  function Hex(h: seq<Byte>): (n: nat)
    requires HexOk(h)
    ensures |h| <= 4 ==> n < (if |h| == 0 then 1 else if |h| == 1 then 0x10 else if |h| == 2 then 0x100
                              else if |h| == 3 then 0x1000 else 0x10000)
  {
    if h == [] then 0 else Hex(h[..|h| - 1]) * 16 + HexVal(h[|h| - 1]).value
  }

  predicate HighSurrogate(cp: nat) { 0xD800 <= cp <= 0xDBFF }

  predicate LowSurrogate(cp: nat) { 0xDC00 <= cp <= 0xDFFF }

  function Combine(hi: nat, lo: nat): (cp: nat)
    requires HighSurrogate(hi) && LowSurrogate(lo)
    ensures 0x10000 <= cp <= 0x10FFFF
  {
    0x10000 + (hi - 0xD800) * 0x400 + (lo - 0xDC00)
  }

  /** The UTF-8 form of a code point (section 3 of RFC 3629).  An unpaired surrogate gets
      the three-byte form its number calls for. */
  function Utf8(cp: nat): (out: seq<Byte>)
    requires cp <= 0x10FFFF
    ensures 1 <= |out| <= 4
  {
    if cp <= 0x7F then [cp]
    else if cp <= 0x7FF then [0xC0 + cp / 64, 0x80 + cp % 64]
    else if cp <= 0xFFFF then [0xE0 + cp / 4096, 0x80 + cp / 64 % 64, 0x80 + cp % 64]
    else [0xF0 + cp / 262144, 0x80 + cp / 4096 % 64, 0x80 + cp / 64 % 64, 0x80 + cp % 64]
  }

  /** Read one code point back, by the ranges of the first byte. */
  function Utf8First(s: seq<Byte>): Option<(int, nat)> {
    if |s| >= 1 && s[0] < 0x80 then Some((s[0], 1))
    else if |s| >= 2 && 0xC0 <= s[0] < 0xE0 && Following(s[1]) then Some((Six(s[0] - 0xC0, s[1]), 2))
    else if |s| >= 3 && 0xE0 <= s[0] < 0xF0 && Following(s[1]) && Following(s[2]) then
      Some((Six(Six(s[0] - 0xE0, s[1]), s[2]), 3))
    else if |s| >= 4 && 0xF0 <= s[0] < 0xF8 && Following(s[1]) && Following(s[2]) && Following(s[3]) then
      Some((Six(Six(Six(s[0] - 0xF0, s[1]), s[2]), s[3]), 4))
    else None
  }

  predicate Following(b: Byte) { 0x80 <= b < 0xC0 }

  /** Append the six payload bits of a following byte. */
  function Six(high: int, b: int): int { high * 64 + (b - 0x80) }

  lemma Utf8ReadsBack(cp: nat, rest: seq<Byte>)
    requires cp <= 0x10FFFF
    ensures Utf8First(Utf8(cp) + rest) == Some((cp, |Utf8(cp)|))
  {
    assert cp / 4096 == cp / 64 / 64 && cp / 262144 == cp / 64 / 64 / 64;
    assert Six(cp / 64, 0x80 + cp % 64) == cp;
    assert Six(cp / 64 / 64, 0x80 + cp / 64 % 64) == cp / 64;
    assert Six(cp / 64 / 64 / 64, 0x80 + cp / 4096 % 64) == cp / 64 / 64;
  }

  /** What one or two written characters stand for: a byte, or a code point. */
  datatype Piece = OneByte(b: Byte) | Point(cp: nat)

  function PieceBytes(p: Piece): seq<Byte>
    requires p.Point? ==> p.cp <= 0x10FFFF
  {
    match p
    case OneByte(b) => [b]
    case Point(cp) => Utf8(cp)
  }

  predicate StartsLow(cs: seq<SChar>)
    requires CharsOk(cs)
  {
    |cs| > 0 && cs[0].Uni? && LowSurrogate(Hex(cs[0].h))
  }

  /** The first piece of a string and the number of written characters it takes: two for
      a surrogate pair. */
  function FirstPiece(cs: seq<SChar>): (r: (Piece, nat))
    requires CharsOk(cs) && cs != []
    ensures 1 <= r.1 <= |cs| && (r.0.Point? ==> r.0.cp <= 0x10FFFF)
  {
    match cs[0]
    case Raw(b) => (OneByte(b), 1)
    case Esc(e) => (OneByte(EscByte(e).value), 1)
    case Uni(h) =>
      if HighSurrogate(Hex(h)) && StartsLow(cs[1..]) then (Point(Combine(Hex(h), Hex(cs[1].h))), 2)
      else (Point(Hex(h)), 1)
  }

  /** The bytes a string denotes. */
  function Decode(cs: seq<SChar>): seq<Byte>
    requires CharsOk(cs)
  {
    if cs == [] then [] else
    var (piece, n) := FirstPiece(cs);
    PieceBytes(piece) + Decode(cs[n..])
  }

  /** A parsed string is handed on as a C string, so a \u0000 ends it. */
  function Denote(t: Tree): JValue
    requires TreeOk(t)
  {
    match t
    case TNull => JNull
    case TBool(b) => JBool(b)
    case TString(cs) => JString(CStr(Decode(cs)))
    case TEmptyArray(_) => JArray([])
    case TArray(es) => JArray(ElemValues(es))
    case TEmptyObject(_) => JObject([])
    case TObject(ms) => JObject(MemberValues(ms))
  }

  function ElemValues(es: Elems): seq<JValue>
    requires ElemsOk(es)
  {
    if es.MoreElems? then [Denote(es.tree)] + ElemValues(es.rest) else [Denote(es.tree)]
  }

  function MemberValues(ms: Members): seq<Pair>
    requires MembersOk(ms)
  {
    var first := PairValue(ms.member);
    if ms.MoreMembers? then [first] + MemberValues(ms.rest) else [first]
  }

  function PairValue(m: Member): Pair
    requires MemberOk(m)
  {
    Pair(CStr(Decode(m.key)), Denote(m.tree))
  }
}
