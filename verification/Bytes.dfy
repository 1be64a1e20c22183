/** Bytes, ASCII literals and C strings. */
module Bytes {

  type Byte = x: int | 0 <= x < 256

  function B(c: char): Byte
    requires c < 128 as char
  {
    c as int
  }

  /** The bytes of an ASCII literal. */
  function Ascii(s: string): (r: seq<Byte>)
    requires forall i :: 0 <= i < |s| ==> s[i] < 128 as char
    ensures |r| == |s| && forall i :: 0 <= i < |s| ==> r[i] == B(s[i])
  {
    seq(|s|, i requires 0 <= i < |s| => B(s[i]))
  }

  ghost predicate NulFree(s: seq<Byte>) {
    forall i :: 0 <= i < |s| ==> s[i] != 0
  }

  /** What a reader of a NUL-terminated string sees of these bytes. */
  function CStr(s: seq<Byte>): seq<Byte> {
    if s == [] || s[0] == 0 then [] else [s[0]] + CStr(s[1..])
  }

  /** It is the text before the first NUL. */
  lemma {:induction false} CStrIs(s: seq<Byte>)
    ensures var r := CStr(s); NulFree(r) && r <= s && (|r| < |s| ==> s[|r|] == 0)
  {
    if s != [] && s[0] != 0 { CStrIs(s[1..]); }
  }

  lemma {:induction false} CStrUnique(s: seq<Byte>, r: seq<Byte>)
    requires NulFree(r) && r <= s && (|r| < |s| ==> s[|r|] == 0)
    ensures CStr(s) == r
  {
    if s != [] && s[0] != 0 {
      assert r[0] == s[0];
      CStrUnique(s[1..], r[1..]);
    }
  }

  lemma Assoc(a: seq<Byte>, b: seq<Byte>, c: seq<Byte>)
    ensures a + (b + c) == (a + b) + c
  {
  }

  /** Text `t` stands at position `p` of `s`. */
  predicate At(s: seq<Byte>, p: nat, t: seq<Byte>) {
    p + |t| <= |s| && forall i {:trigger t[i]} :: 0 <= i < |t| ==> s[p + i] == t[i]
  }

  lemma AtIndex(s: seq<Byte>, p: nat, t: seq<Byte>, i: nat)
    requires At(s, p, t) && i < |t|
    ensures p + i < |s| && s[p + i] == t[i]
  {
  }

  lemma AtSlice(s: seq<Byte>, p: nat, t: seq<Byte>)
    ensures At(s, p, t) <==> p + |t| <= |s| && s[p..p + |t|] == t
  {
    if p + |t| <= |s| && s[p..p + |t|] == t {
      forall i | 0 <= i < |t| ensures s[p + i] == t[i] { assert s[p..p + |t|][i] == t[i]; }
    }
  }

  lemma AtParts(s: seq<Byte>, p: nat, t: seq<Byte>, u: seq<Byte>)
    ensures At(s, p, t + u) <==> At(s, p, t) && At(s, p + |t|, u)
  {
    if At(s, p, t + u) {
      forall i | 0 <= i < |t| ensures s[p + i] == t[i] { assert (t + u)[i] == t[i]; }
      forall i | 0 <= i < |u| ensures s[p + |t| + i] == u[i] { assert (t + u)[|t| + i] == u[i]; }
    }
  }
}
