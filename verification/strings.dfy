/** String helpers with the semantics of the JavaScript built-ins the
    source relies on (`includes`, `startsWith`, `join`, `trim`, number
    printing and ASCII case folding in case-insensitive regular expressions). */
module Strings {

  /** `s.startsWith(p)`. */
  predicate IsPrefix(p: string, s: string) {
    |p| <= |s| && s[..|p|] == p
  }

  /** `s.includes(sub)`: `sub` occurs somewhere in `s` (the empty string
      occurs everywhere). */
  predicate Contains(s: string, sub: string)
    decreases |s|
  {
    IsPrefix(sub, s) || (|s| > 0 && Contains(s[1..], sub))
  }

  lemma {:induction false} ContainsAfter(p: string, s: string, sub: string)
    requires Contains(s, sub)
    ensures Contains(p + s, sub)
    decreases |p|
  {
    if |p| > 0 {
      assert (p + s)[1..] == p[1..] + s;
      ContainsAfter(p[1..], s, sub);
    } else {
      assert p + s == s;
    }
  }

  lemma {:induction false} ContainsBefore(s: string, q: string, sub: string)
    requires Contains(s, sub)
    ensures Contains(s + q, sub)
    decreases |s|
  {
    if IsPrefix(sub, s) {
      assert (s + q)[..|sub|] == s[..|sub|];
    } else {
      assert (s + q)[1..] == s[1..] + q;
      ContainsBefore(s[1..], q, sub);
    }
  }

  /** `p + sub + q` contains `sub`: the fact every "message names the
      value" property of the model reduces to. */
  lemma ContainsInfix(p: string, sub: string, q: string)
    ensures Contains(p + sub + q, sub)
  {
    assert IsPrefix(sub, sub + q) by {
      assert (sub + q)[..|sub|] == sub;
    }
    assert Contains(sub + q, sub);
    ContainsAfter(p, sub + q, sub);
    assert p + sub + q == p + (sub + q);
  }

  /** `parts.join(sep)`. */
  function Join(parts: seq<string>, sep: string): string {
    if |parts| == 0 then ""
    else if |parts| == 1 then parts[0]
    else parts[0] + sep + Join(parts[1..], sep)
  }

  /** Where part `j` starts in `Join(parts, sep)`: every earlier part is
      followed by one separator. */
  function JoinOffset(parts: seq<string>, sep: string, j: nat): nat
    requires j <= |parts|
  {
    if j == 0 then 0 else |parts[0]| + |sep| + JoinOffset(parts[1..], sep, j - 1)
  }

  /** The layout of a joined string: part `j` sits at its offset, and a
      separator follows every part but the last, where the text ends. */
  lemma {:induction false} JoinParts(parts: seq<string>, sep: string, j: nat)
    requires j < |parts|
    ensures var o := JoinOffset(parts, sep, j);
            var t := Join(parts, sep);
            && OccursAt(t, o, parts[j])
            && (j + 1 < |parts| ==> OccursAt(t, o + |parts[j]|, sep))
            && (j + 1 == |parts| ==> o + |parts[j]| == |t|)
    decreases j
  {
    var t := Join(parts, sep);
    if |parts| == 1 {
      assert t == parts[0];
    } else {
      var rest := Join(parts[1..], sep);
      var head := parts[0] + sep;
      assert t == head + rest;
      if j == 0 {
        assert t[..|parts[0]|] == parts[0];
        assert t[|parts[0]|..|parts[0]| + |sep|] == sep;
      } else {
        JoinParts(parts[1..], sep, j - 1);
        var o' := JoinOffset(parts[1..], sep, j - 1);
        assert parts[1..][j - 1] == parts[j];
        OccursAfter(head, rest, o', parts[j]);
        if j + 1 < |parts| {
          OccursAfter(head, rest, o' + |parts[j]|, sep);
        }
      }
    }
  }

  /** The same layout behind a fixed head. */
  lemma JoinPartsAfter(head: string, parts: seq<string>, sep: string, j: nat)
    requires j < |parts|
    ensures var o := |head| + JoinOffset(parts, sep, j);
            var t := head + Join(parts, sep);
            && OccursAt(t, o, parts[j])
            && (j + 1 < |parts| ==> OccursAt(t, o + |parts[j]|, sep))
            && (j + 1 == |parts| ==> o + |parts[j]| == |t|)
  {
    JoinParts(parts, sep, j);
    var o := JoinOffset(parts, sep, j);
    var joined := Join(parts, sep);
    OccursAfter(head, joined, o, parts[j]);
    if j + 1 < |parts| {
      OccursAfter(head, joined, o + |parts[j]|, sep);
    }
  }

  /** Part `j` of a joined string behind a head. */
  lemma JoinPartAt(out: string, head: string, parts: seq<string>, sep: string, j: nat)
    requires out == head + Join(parts, sep)
    requires j < |parts|
    ensures OccursAt(out, |head| + JoinOffset(parts, sep, j), parts[j])
  {
    JoinPartsAfter(head, parts, sep, j);
  }

  /** The last part of a joined string behind a head ends it. */
  lemma JoinEndAt(out: string, head: string, parts: seq<string>, sep: string)
    requires out == head + Join(parts, sep)
    requires |parts| > 0
    ensures |head| + JoinOffset(parts, sep, |parts| - 1) + |parts[|parts| - 1]| == |out|
  {
    JoinPartsAfter(head, parts, sep, |parts| - 1);
  }

  /** The separator after part `j` of a joined string behind a head. */
  lemma JoinSeparatorAfter(out: string, head: string, parts: seq<string>, sep: string, j: nat)
    requires out == head + Join(parts, sep)
    requires j + 1 < |parts|
    ensures OccursAt(out, |head| + JoinOffset(parts, sep, j) + |parts[j]|, sep)
  {
    JoinPartsAfter(head, parts, sep, j);
  }

  /** `s` occurs in `t` starting at offset `o`. */
  predicate OccursAt(t: string, o: nat, s: string) {
    o + |s| <= |t| && t[o..o + |s|] == s
  }

  /** An occurrence in `b` is one in `a + b`, shifted by `|a|`. */
  lemma OccursAfter(a: string, b: string, o: nat, s: string)
    requires OccursAt(b, o, s)
    ensures OccursAt(a + b, |a| + o, s)
  {
    var u := (a + b)[|a| + o..|a| + o + |s|];
    assert forall k :: 0 <= k < |u| ==> u[k] == b[o + k];
  }

  function DigitChar(d: nat): char
    requires d < 10
  {
    "0123456789"[d]
  }

  /** Decimal printing of a non-negative integer, as in a template literal. */
  function NatToString(n: nat): string
    decreases n
  {
    if n < 10 then [DigitChar(n)] else NatToString(n / 10) + [DigitChar(n % 10)]
  }

  /** Decimal printing of an integer, as in a template literal. */
  function IntToString(n: int): string {
    if n < 0 then "-" + NatToString(-n) else NatToString(n)
  }

  /** ASCII lower-casing, which is what the `i` flag of a regular
      expression applies to the letters of `http`, `https` and `file`. */
  function LowerAscii(c: char): char {
    if 'A' <= c <= 'Z' then (c as int - 'A' as int + 'a' as int) as char else c
  }

  /** `/^p/i.test(s)` for a pattern `p` made of plain characters. */
  predicate StartsWithIgnoreCase(s: string, p: string) {
    |p| <= |s| && forall i :: 0 <= i < |p| ==> LowerAscii(s[i]) == LowerAscii(p[i])
  }

  /** The characters `String.prototype.trim` removes: white space and
      line terminators. */
  predicate IsJsWhiteSpace(c: char) {
    c in {'\t', '\n', '\U{B}', '\U{C}', '\r', ' ', '\U{A0}', '\U{1680}',
          '\U{2000}', '\U{2001}', '\U{2002}', '\U{2003}', '\U{2004}', '\U{2005}',
          '\U{2006}', '\U{2007}', '\U{2008}', '\U{2009}', '\U{200A}', '\U{2028}',
          '\U{2029}', '\U{202F}', '\U{205F}', '\U{3000}', '\U{FEFF}'}
  }

  /** `s.trim() === ''`. */
  predicate IsBlank(s: string) {
    forall i :: 0 <= i < |s| ==> IsJsWhiteSpace(s[i])
  }

  /** `s.trimStart()`. */
  function TrimStart(s: string): (r: string)
    ensures |r| <= |s| && r == s[|s| - |r|..]
    ensures IsBlank(s[..|s| - |r|])
    ensures |r| > 0 ==> !IsJsWhiteSpace(r[0])
    decreases |s|
  {
    if |s| > 0 && IsJsWhiteSpace(s[0]) then
      var r := TrimStart(s[1..]);
      assert s[1..][..|s| - 1 - |r|] == s[1..|s| - |r|];
      r
    else s
  }

  /** `s.trimEnd()`. */
  function TrimEnd(s: string): (r: string)
    ensures |r| <= |s| && r == s[..|r|]
    ensures IsBlank(s[|r|..])
    ensures |r| > 0 ==> !IsJsWhiteSpace(r[|r| - 1])
    decreases |s|
  {
    if |s| > 0 && IsJsWhiteSpace(s[|s| - 1]) then
      var r := TrimEnd(s[..|s| - 1]);
      assert s[..|s| - 1][|r|..] == s[|r|..|s| - 1];
      r
    else s
  }

  /** `s.trim()`: empty exactly for a blank string. */
  function Trim(s: string): (r: string)
    ensures r == "" <==> IsBlank(s)
    ensures |r| > 0 ==> !IsJsWhiteSpace(r[0]) && !IsJsWhiteSpace(r[|r| - 1])
  {
    var t := TrimStart(s);
    var r := TrimEnd(t);
    assert r == "" ==> IsBlank(t) by {
      if r == "" { assert t[|r|..] == t; }
    }
    assert IsBlank(t) ==> t == "";
    assert t == "" ==> s[..|s| - |t|] == s;
    assert IsBlank(s) ==> t == "";
    r
  }
}
