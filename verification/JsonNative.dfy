/** The parser as the program runs it: a cursor that moves through the text, a growing
    string buffer, and an error flag that stays set while partial values are handed back. */
module JsonNative {
  import opened Wrappers
  import opened Bytes
  import opened JsonGrammar
  import opened JsonParser
  import opened JsonTheorems

  /** `whole` is what `rest` becomes once `done` is put in front of it. */
  ghost predicate Resumes<T>(whole: Parsed<seq<T>>, done: seq<T>, rest: Parsed<seq<T>>) {
    && (whole.Parsed? <==> rest.Parsed?)
    && (rest.Parsed? ==> whole.value == done + rest.value && whole.end == rest.end)
  }

  /** A growing buffer of bytes kept NUL-terminated. */
  class StringBuffer {
    var buf: array<Byte>
    var len: nat

    ghost predicate Valid() reads this, buf {
      len + 1 <= buf.Length && buf[len] == 0
    }

    ghost function Contents(): seq<Byte> reads this, buf requires Valid() { buf[..len] }

    constructor ()
      ensures Valid() && fresh(buf) && Contents() == []
    {
      buf := new Byte[64](i => 0);
      len := 0;
    }

    /** Move the contents and their NUL to a larger block. */
    method Grow(cap: nat)
      requires Valid() && cap > buf.Length
      modifies this`buf
      ensures Valid() && fresh(buf) && buf.Length == cap && Contents() == old(Contents())
    {
      var larger := new Byte[cap](i => 0);
      for i := 0 to len + 1
        invariant buf == old(buf)
        invariant larger[..i] == buf[..i]
      {
        larger[i] := buf[i];
      }
      assert larger[..len] == larger[..len + 1][..len] == buf[..len];
      buf := larger;
    }

    method AppendByte(c: Byte)
      requires Valid()
      modifies this, buf
      ensures Valid() && (buf == old(buf) || fresh(buf)) && Contents() == old(Contents()) + [c]
    {
      if len + 2 > buf.Length { Grow(buf.Length * 2); }
      buf[len] := c;
      len := len + 1;
      buf[len] := 0;
    }

    method AppendUtf8(cp: nat)
      requires Valid() && cp <= 0x10FFFF
      modifies this, buf
      ensures Valid() && (buf == old(buf) || fresh(buf)) && Contents() == old(Contents()) + Utf8(cp)
    {
      var out := Utf8(cp);
      if len + |out| + 1 > buf.Length {
        var cap := buf.Length;
        while len + |out| + 1 > cap
          invariant cap >= buf.Length > 0
          invariant cap == buf.Length ==> len + |out| + 1 > cap
        {
          cap := cap * 2;
        }
        Grow(cap);
      }
      for i := 0 to |out|
        invariant len == old(len) && len + |out| + 1 <= buf.Length
        invariant buf == old(buf) || fresh(buf)
        invariant buf[..len + i] == old(Contents()) + out[..i]
      {
        buf[len + i] := out[i];
      }
      len := len + |out|;
      buf[len] := 0;
    }
  }

  /** -1 for a byte that is no hexadecimal digit. */
  function HexDigit(b: Byte): (v: int)
    ensures HexVal(b) == if v >= 0 then Some(v) else None
  {
    if B('0') <= b <= B('9') then b - B('0')
    else if B('a') <= b <= B('f') then 10 + b - B('a')
    else if B('A') <= b <= B('F') then 10 + b - B('A')
    else -1
  }

  /** Four digits in a row, each weighed by its place; None when one is missing. */
  method FourDigits(s: seq<Byte>, p: nat) returns (v: Option<nat>)
    requires p + 4 <= |s|
    ensures v == if HexOk(s[p..p + 4]) then Some(Hex(s[p..p + 4])) else None
  {
    var h0, h1, h2, h3 := HexDigit(s[p]), HexDigit(s[p + 1]), HexDigit(s[p + 2]), HexDigit(s[p + 3]);
    FourPlaces(s, p);
    if h0 < 0 || h1 < 0 || h2 < 0 || h3 < 0 { return None; }
    v := Some(h0 * 4096 + h1 * 256 + h2 * 16 + h3);
  }

  lemma FourPlaces(s: seq<Byte>, p: nat)
    requires p + 4 <= |s|
    ensures var h := s[p..p + 4];
      && (HexOk(h) <==>
            HexDigit(s[p]) >= 0 && HexDigit(s[p + 1]) >= 0 && HexDigit(s[p + 2]) >= 0 && HexDigit(s[p + 3]) >= 0)
      && (HexOk(h) ==>
            Hex(h) == HexDigit(s[p]) * 4096 + HexDigit(s[p + 1]) * 256 + HexDigit(s[p + 2]) * 16 + HexDigit(s[p + 3]))
  {
    var h := s[p..p + 4];
    assert h == [s[p], s[p + 1], s[p + 2], s[p + 3]];
    if HexOk(h) {
      assert h[..3] == [s[p], s[p + 1], s[p + 2]];
      assert h[..3][..2] == [s[p], s[p + 1]];
      assert h[..3][..2][..1] == [s[p]];
      assert h[..3][..2][..1][..0] == [];
      assert Hex(h[..3][..2][..1]) == HexDigit(s[p]);
      assert Hex(h[..3][..2]) == HexDigit(s[p]) * 16 + HexDigit(s[p + 1]);
    }
  }

  /** What a parsing method promises: unless an error was recorded before, it returns the
      parsed value at its end, and otherwise records an error. */
  ghost predicate Reports<T>(r: Parsed<T>, was: bool, error: bool, value: T, p: nat) {
    if was then error else
    if r.Parsed? then !error && value == r.value && p == r.end else error
  }

  datatype Separator = Comma | Closing | Neither

  function SeparatorAt(s: seq<Byte>, q: nat, close: Byte): (sep: Separator)
    requires close != B(',')
    ensures sep == Comma <==> q < |s| && s[q] == B(',')
    ensures sep == Closing <==> q < |s| && s[q] == close
  {
    if q < |s| && s[q] == B(',') then Comma else if q < |s| && s[q] == close then Closing else Neither
  }

  class JParser {
    const text: seq<Byte>
    var p: nat
    var error: bool

    ghost predicate Valid() reads this { p <= |text| }

    constructor (text: seq<Byte>)
      ensures Valid() && this.text == text && p == 0 && !error
    {
      this.text := text;
      p := 0;
      error := false;
    }

    method SkipSpace()
      requires Valid()
      modifies this`p
      ensures Valid() && p == Skip(text, old(p))
    {
      while p < |text| && IsWs(text[p])
        invariant Valid() && p >= old(p) && Skip(text, p) == Skip(text, old(p))
      {
        p := p + 1;
      }
    }

    /** The escape after a `\\u` has been read: its code point, or None. */
    method ReadUnicode() returns (cp: Option<nat>)
      requires Valid() && p >= 2 && text[p - 2] == B('\\') && text[p - 1] == B('u')
      modifies this`p
      ensures Valid() && p >= old(p)
      ensures var r := ParseChar(text, old(p) - 2);
        if r.Parsed? then r.value.Point? && cp.Some? && cp.value == r.value.cp && p == r.end else cp == None
    {
      if |text| - p < 4 { return None; }
      cp := FourDigits(text, p);
      if cp == None { return None; }
      p := p + 4;
      if HighSurrogate(cp.value) && |text| - p >= 6 && text[p] == B('\\') && text[p + 1] == B('u') {
        var low := FourDigits(text, p + 2);
        if low.Some? && LowSurrogate(low.value) {
          cp := Some(Combine(cp.value, low.value));
          p := p + 6;
        }
      }
    }

    /** One character of a string: a byte, an escape or a surrogate pair.  `ok` is false
        where the loop below it breaks off. */
    method ReadChar(out: StringBuffer) returns (ok: bool)
      requires Valid() && out.Valid() && p < |text| && text[p] != B('"')
      modifies this`p, out, out.buf
      ensures Valid() && out.Valid() && p > old(p) && (out.buf == old(out.buf) || fresh(out.buf))
      ensures ok == ParseChar(text, old(p)).Parsed?
      ensures ok ==> p == ParseChar(text, old(p)).end
      ensures ok ==> out.Contents() == old(out.Contents()) + PieceBytes(ParseChar(text, old(p)).value)
    {
      var c := text[p];
      p := p + 1;
      if c == B('\\') {
        if p >= |text| { return false; }
        var e := text[p];
        p := p + 1;
        if e == B('"') || e == B('\\') || e == B('/') { c := e; }
        else if e == B('b') { c := 8; }
        else if e == B('f') { c := 12; }
        else if e == B('n') { c := 10; }
        else if e == B('r') { c := 13; }
        else if e == B('t') { c := 9; }
        else if e == B('u') {
          var cp := ReadUnicode();
          if cp == None { return false; }
          out.AppendUtf8(cp.value);
          return true;
        }
        else { return false; }
      }
      out.AppendByte(c);
      ok := true;
    }

    method ReadString() returns (r: Option<seq<Byte>>)
      requires Valid()
      modifies this
      ensures Valid() && p >= old(p)
      ensures !(old(p) < |text| && text[old(p)] == B('"')) ==> r == None && p == old(p) && error == old(error)
      ensures var s := ParseString(text, old(p));
        if s.Parsed? then r == Some(s.value) && p == s.end && error == old(error)
        else r == None && (old(p) < |text| && text[old(p)] == B('"') ==> error)
    {
      if p >= |text| || text[p] != B('"') { return None; }
      p := p + 1;
      var out := new StringBuffer();
      ghost var whole := ParseChars(text, p);
      while p < |text|
        invariant Valid() && old(p) < p && error == old(error) && fresh(out) && fresh(out.buf) && out.Valid()
        invariant Resumes(whole, out.Contents(), ParseChars(text, p))
        decreases |text| - p
      {
        if text[p] == B('"') {
          p := p + 1;
          EndsAtNul(out.buf[..], out.len);
          assert out.buf[..][..out.len] == out.Contents() == out.Contents() + [];
          return Some(CStr(out.buf[..]));
        }
        CharResumes(whole, text, p, out.Contents());
        var ok := ReadChar(out);
        if !ok { break; }
      }
      error := true;
      r := None;
    }

    /** What follows a list item: a comma, the closing byte or neither. */
    method ReadSeparator(close: Byte) returns (sep: Separator)
      requires Valid() && close != B(',')
      modifies this`p
      ensures Valid() && p >= old(p) && sep == SeparatorAt(text, Skip(text, old(p)), close)
      ensures p == Skip(text, old(p)) + if sep == Neither then 0 else 1
    {
      SkipSpace();
      sep := SeparatorAt(text, p, close);
      if sep != Neither { p := p + 1; }
    }

    /** One turn of the item loop: a value and what follows it. */
    method ReadElement(items: seq<JValue>, ghost whole: Parsed<seq<JValue>>)
      returns (more: seq<JValue>, sep: Separator)
      requires Valid() && p < |text| && (!error ==> Resumes(whole, items, ParseItems(text, p)))
      modifies this
      ensures Valid() && p >= old(p) && (old(error) ==> error) && (sep == Comma ==> p > old(p))
      ensures !old(error) && (error || sep == Neither) ==> whole.NoParse?
      ensures !error && sep == Comma ==> Resumes(whole, more, ParseItems(text, Skip(text, p)))
      ensures !error && sep == Closing ==> whole.Parsed? && whole.value == more && whole.end == p
      decreases |text| - p, 5
    {
      if !error { ItemResumes(whole, text, p, items, ParseValue(text, p)); }
      var item := ReadValue();
      if item == None { return items, Neither; }
      more := items + [item.value];
      sep := ReadSeparator(B(']'));
    }

    /** A value is handed back even when an item fails. */
    method ReadArray() returns (v: JValue)
      requires Valid() && p < |text| && text[p] == B('[')
      modifies this
      ensures Valid() && p > old(p) && Reports(ParseArray(text, old(p)), old(error), error, v, p)
      decreases |text| - p, 1
    {
      ItemsOpen(text, p);
      var items := [];
      p := p + 1;
      SkipSpace();
      if p < |text| && text[p] == B(']') {
        p := p + 1;
        return JArray(items);
      }
      ghost var whole := ParseItems(text, p);
      while p < |text|
        invariant Valid() && p > old(p) && (old(error) ==> error)
        invariant if error then old(error) || whole.NoParse? else Resumes(whole, items, ParseItems(text, p))
        decreases |text| - p
      {
        var sep;
        items, sep := ReadElement(items, whole);
        if sep == Closing { return JArray(items); }
        if sep == Neither { break; }
        SkipSpace();
      }
      error := true;
      v := JArray(items);
    }

    /** A key and its colon. */
    method ReadKey() returns (key: Option<seq<Byte>>)
      requires Valid()
      modifies this
      ensures Valid() && p >= old(p) && (key.Some? ==> p > old(p)) && (old(error) ==> error)
      ensures var k := ParseKey(text, old(p));
        if k.Parsed? then error == old(error) && key.Some? && key.value == k.value && p == k.end else key == None
    {
      SkipSpace();
      key := ReadString();
      if key == None { return; }
      SkipSpace();
      if p >= |text| || text[p] != B(':') { return None; }
      p := p + 1;
    }

    /** A key, its colon and a value; None where the member loop breaks off. */
    method ReadPair() returns (r: Option<Pair>)
      requires Valid() && p < |text|
      modifies this
      ensures Valid() && p >= old(p) && (r.Some? ==> p > old(p)) && (old(error) ==> error)
      ensures !old(error) ==>
        var s := ParsePair(text, old(p));
        if s.Parsed? then !error && r.Some? && r.value == s.value && p == s.end else error || r == None
      decreases |text| - p, 4
    {
      var key := ReadKey();
      if key == None { return None; }
      SkipSpace();
      var value := ReadValue();
      if value == None { return None; }
      r := Some(Pair(key.value, value.value));
    }

    /** One turn of the member loop: a pair and what follows it. */
    method ReadMember(pairs: seq<Pair>, ghost whole: Parsed<seq<Pair>>) returns (more: seq<Pair>, sep: Separator)
      requires Valid() && p < |text| && (!error ==> Resumes(whole, pairs, ParsePairs(text, p)))
      modifies this
      ensures Valid() && p >= old(p) && (old(error) ==> error) && (sep == Comma ==> p > old(p))
      ensures !old(error) && (error || sep == Neither) ==> whole.NoParse?
      ensures !error && sep == Comma ==> Resumes(whole, more, ParsePairs(text, p))
      ensures !error && sep == Closing ==> whole.Parsed? && whole.value == more && whole.end == p
      decreases |text| - p, 5
    {
      if !error { PairResumes(whole, text, p, pairs, ParsePair(text, p)); }
      var pair := ReadPair();
      if pair == None { return pairs, Neither; }
      more := pairs + [pair.value];
      sep := ReadSeparator(B('}'));
    }

    method ReadObject() returns (v: JValue)
      requires Valid() && p < |text| && text[p] == B('{')
      modifies this
      ensures Valid() && p > old(p) && Reports(ParseObject(text, old(p)), old(error), error, v, p)
      decreases |text| - p, 1
    {
      PairsOpen(text, p);
      var pairs := [];
      p := p + 1;
      SkipSpace();
      if p < |text| && text[p] == B('}') {
        p := p + 1;
        return JObject(pairs);
      }
      ghost var whole := ParsePairs(text, p);
      while p < |text|
        invariant Valid() && p > old(p) && (old(error) ==> error)
        invariant if error then old(error) || whole.NoParse? else Resumes(whole, pairs, ParsePairs(text, p))
        decreases |text| - p
      {
        var sep;
        pairs, sep := ReadMember(pairs, whole);
        if sep == Closing { return JObject(pairs); }
        if sep == Neither { break; }
      }
      error := true;
      v := JObject(pairs);
    }

    method ReadValue() returns (r: Option<JValue>)
      requires Valid()
      modifies this
      ensures Valid() && p >= old(p) && (r.Some? ==> p > old(p)) && (old(error) ==> error)
      ensures !old(error) ==>
        var v := ParseValue(text, old(p));
        if v.Parsed? then !error && r.Some? && r.value == v.value && p == v.end else error || r == None
      decreases |text| - p, 2
    {
      SkipSpace();
      if p >= |text| { return None; }
      if text[p] == B('{') {
        var v := ReadObject();
        return Some(v);
      }
      if text[p] == B('[') {
        var v := ReadArray();
        return Some(v);
      }
      if text[p] == B('"') {
        var s := ReadString();
        if s == None { return None; }
        return Some(JString(s.value));
      }
      if At(text, p, Ascii("true")) { p := p + 4; return Some(JBool(true)); }
      if At(text, p, Ascii("false")) { p := p + 5; return Some(JBool(false)); }
      if At(text, p, Ascii("null")) { p := p + 4; return Some(JNull); }
      error := true;
      r := None;
    }
  }

  /** One more character of a string that is being read. */
  lemma CharResumes(whole: Parsed<seq<Byte>>, s: seq<Byte>, p: nat, done: seq<Byte>)
    requires p < |s| && s[p] != B('"') && Resumes(whole, done, ParseChars(s, p))
    ensures var c := ParseChar(s, p);
      if c.Parsed? then Resumes(whole, done + PieceBytes(c.value), ParseChars(s, c.end)) else whole.NoParse?
  {
    var c := ParseChar(s, p);
    if c.Parsed? && ParseChars(s, c.end).Parsed? {
      var rest := ParseChars(s, c.end).value;
      assert done + (PieceBytes(c.value) + rest) == done + PieceBytes(c.value) + rest;
    }
  }

  /** A reader of the finished buffer sees its contents up to their first NUL. */
  lemma {:induction false} EndsAtNul(s: seq<Byte>, len: nat)
    requires len < |s| && s[len] == 0
    ensures CStr(s) == CStr(s[..len])
  {
    if len > 0 {
      EndsAtNul(s[1..], len - 1);
      assert s[1..][..len - 1] == s[..len][1..];
    }
  }

  lemma ResumesMore<T>(whole: Parsed<seq<T>>, done: seq<T>, v: T, now: Parsed<seq<T>>, next: Parsed<seq<T>>)
    requires Resumes(whole, done, now) && (now.Parsed? <==> next.Parsed?)
    requires next.Parsed? ==> now.value == [v] + next.value && now.end == next.end
    ensures Resumes(whole, done + [v], next)
  {
    if next.Parsed? { assert done + ([v] + next.value) == done + [v] + next.value; }
  }

  lemma ItemsOpen(s: seq<Byte>, p: nat)
    requires p < |s| && s[p] == B('[')
    ensures var q := Skip(s, p + 1); var r := ParseArray(s, p);
      if q < |s| && s[q] == B(']') then r.Parsed? && r.value == JArray([]) && r.end == q + 1
      else var items := ParseItems(s, q);
        if items.Parsed? then r.Parsed? && r.value == JArray(items.value) && r.end == items.end else r.NoParse?
  {
  }

  /** One item `v` of an array that is being read. */
  lemma ItemResumes(whole: Parsed<seq<JValue>>, s: seq<Byte>, p: nat, done: seq<JValue>, v: Parsed<JValue>)
    requires p <= |s| && Resumes(whole, done, ParseItems(s, p)) && v == ParseValue(s, p)
    ensures v.NoParse? ==> whole.NoParse?
    ensures v.Parsed? ==>
      var q := Skip(s, v.end);
      match SeparatorAt(s, q, B(']'))
      case Comma => Resumes(whole, done + [v.value], ParseItems(s, Skip(s, q + 1)))
      case Closing => whole.Parsed? && whole.value == done + [v.value] && whole.end == q + 1
      case Neither => whole.NoParse?
  {
    if v.Parsed? {
      ItemAfterResumes(whole, s, v.value, v.end, done);
      if SeparatorAt(s, Skip(s, v.end), B(']')) == Comma { ItemsSkip(s, Skip(s, v.end) + 1); }
    }
  }

  lemma ItemAfterResumes(whole: Parsed<seq<JValue>>, s: seq<Byte>, first: JValue, e: nat, done: seq<JValue>)
    requires e <= |s| && Resumes(whole, done, ItemsAfter(s, first, e))
    ensures var q := Skip(s, e);
      match SeparatorAt(s, q, B(']'))
      case Comma => Resumes(whole, done + [first], ParseItems(s, q + 1))
      case Closing => whole.Parsed? && whole.value == done + [first] && whole.end == q + 1
      case Neither => whole.NoParse?
  {
    var q := Skip(s, e);
    if SeparatorAt(s, q, B(']')) == Comma {
      ResumesMore(whole, done, first, ItemsAfter(s, first, e), ParseItems(s, q + 1));
    }
  }

  lemma PairsOpen(s: seq<Byte>, p: nat)
    requires p < |s| && s[p] == B('{')
    ensures var q := Skip(s, p + 1); var r := ParseObject(s, p);
      if q < |s| && s[q] == B('}') then r.Parsed? && r.value == JObject([]) && r.end == q + 1
      else var pairs := ParsePairs(s, q);
        if pairs.Parsed? then r.Parsed? && r.value == JObject(pairs.value) && r.end == pairs.end else r.NoParse?
  {
  }

  /** One pair `v` of an object that is being read. */
  lemma PairResumes(whole: Parsed<seq<Pair>>, s: seq<Byte>, p: nat, done: seq<Pair>, v: Parsed<Pair>)
    requires p <= |s| && Resumes(whole, done, ParsePairs(s, p)) && v == ParsePair(s, p)
    ensures v.NoParse? ==> whole.NoParse?
    ensures v.Parsed? ==>
      var q := Skip(s, v.end);
      match SeparatorAt(s, q, B('}'))
      case Comma => Resumes(whole, done + [v.value], ParsePairs(s, q + 1))
      case Closing => whole.Parsed? && whole.value == done + [v.value] && whole.end == q + 1
      case Neither => whole.NoParse?
  {
    if v.Parsed? { PairAfterResumes(whole, s, v.value, v.end, done); }
  }

  lemma PairAfterResumes(whole: Parsed<seq<Pair>>, s: seq<Byte>, first: Pair, e: nat, done: seq<Pair>)
    requires e <= |s| && Resumes(whole, done, PairsAfter(s, first, e))
    ensures var q := Skip(s, e);
      match SeparatorAt(s, q, B('}'))
      case Comma => Resumes(whole, done + [first], ParsePairs(s, q + 1))
      case Closing => whole.Parsed? && whole.value == done + [first] && whole.end == q + 1
      case Neither => whole.NoParse?
  {
    var q := Skip(s, e);
    if SeparatorAt(s, q, B('}')) == Comma {
      ResumesMore(whole, done, first, PairsAfter(s, first, e), ParsePairs(s, q + 1));
    }
  }

  /** The whole of j_parse, on the bytes of a C string. */
  method ParseText(s: seq<Byte>) returns (r: Option<JValue>)
    ensures r == Parse(CStr(s))
  {
    var ps := new JParser(CStr(s));
    var v := ps.ReadValue();
    ps.SkipSpace();
    if v == None || ps.p != |ps.text| || ps.error { return None; }
    r := v;
  }
}
