/**
  String operations the pipeline relies on: whitespace trimming, ASCII
  upper-casing, substring search and the code-point ordering that Python
  uses to compare and sort strings.
 */
module Text {

  /** Python's `str.isspace()`: the code points Python treats as whitespace. */
  predicate IsSpace(c: char) {
    ('\t' <= c <= '\r') || ('\U{001C}' <= c <= ' ') ||
    c == '\U{0085}' || c == '\U{00A0}' || c == '\U{1680}' ||
    ('\U{2000}' <= c <= '\U{200A}') || c == '\U{2028}' || c == '\U{2029}' ||
    c == '\U{202F}' || c == '\U{205F}' || c == '\U{3000}'
  }

  predicate AllSpace(s: string) {
    forall i :: 0 <= i < |s| ==> IsSpace(s[i])
  }

  /** Drops leading whitespace: the result is a suffix of `s`, everything cut is
      whitespace, and the result does not start with whitespace. */
  function StripLeft(s: string): (r: string)
    ensures |r| <= |s| && r == s[|s| - |r|..]
    ensures AllSpace(s[..|s| - |r|])
    ensures r == [] || !IsSpace(r[0])
  {
    if s != [] && IsSpace(s[0]) then
      var t := s[1..];
      var r := StripLeft(t);
      assert s[..|s| - |r|] == [s[0]] + t[..|t| - |r|];
      r
    else s
  }

  /** Drops trailing whitespace: the result is a prefix of `s`, everything cut is
      whitespace, and the result does not end with whitespace. */
  function StripRight(s: string): (r: string)
    ensures |r| <= |s| && r == s[..|r|]
    ensures AllSpace(s[|r|..])
    ensures r == [] || !IsSpace(r[|r| - 1])
  {
    if s != [] && IsSpace(s[|s| - 1]) then
      var t := s[..|s| - 1];
      var r := StripRight(t);
      assert s[|r|..] == t[|r|..] + [s[|s| - 1]];
      r
    else s
  }

  /** Python's `str.strip()` with no argument; `StripSplit` and `StripPadded`
      show it is exactly what is left of `s` after cutting the whitespace at
      both ends. */
  function Strip(s: string): (r: string)
    ensures |r| <= |s|
    ensures r == [] || (!IsSpace(r[0]) && !IsSpace(r[|r| - 1]))
    ensures r == [] <==> AllSpace(s)
  {
    var l := StripLeft(s);
    var r := StripRight(l);
    assert r == [] ==> AllSpace(s) by {
      if r == [] {
        assert s == s[..|s| - |l|] + l;
        assert l == l[|r|..];
      }
    }
    r
  }

  /** Putting one more whitespace character in front keeps the split. */
  lemma ConsSpace(c: char, lead: string, r: string, t: string)
    requires IsSpace(c) && AllSpace(lead) && t == lead + r
    ensures [c] + t == ([c] + lead) + r && AllSpace([c] + lead)
  {
    assert forall k :: 0 < k <= |lead| ==> ([c] + lead)[k] == lead[k - 1];
  }

  /** Putting one more whitespace character behind keeps the split. */
  lemma SnocSpace(c: char, trail: string, r: string, t: string)
    requires IsSpace(c) && AllSpace(trail) && t == r + trail
    ensures t + [c] == r + (trail + [c]) && AllSpace(trail + [c])
  {
    assert forall k :: 0 <= k < |trail| ==> (trail + [c])[k] == trail[k];
  }

  /** `StripLeft` only cuts whitespace. */
  lemma {:induction false} StripLeftSplit(s: string) returns (lead: string)
    ensures s == lead + StripLeft(s) && AllSpace(lead)
  {
    if s != [] && IsSpace(s[0]) {
      var t := s[1..];
      var rest := StripLeftSplit(t);
      ConsSpace(s[0], rest, StripLeft(t), t);
      lead := [s[0]] + rest;
      assert s == [s[0]] + t;
    } else {
      lead := [];
      assert s == [] + s;
    }
  }

  /** `StripRight` only cuts whitespace. */
  lemma {:induction false} StripRightSplit(s: string) returns (trail: string)
    ensures s == StripRight(s) + trail && AllSpace(trail)
  {
    if s != [] && IsSpace(s[|s| - 1]) {
      var t := s[..|s| - 1];
      var rest := StripRightSplit(t);
      SnocSpace(s[|s| - 1], rest, StripRight(t), t);
      trail := rest + [s[|s| - 1]];
      assert s == t + [s[|s| - 1]];
    } else {
      trail := [];
      assert s == s + [];
    }
  }

  /** Concatenation regrouped to the left. */
  lemma Regroup(a: string, b: string, c: string, s: string)
    requires s == a + (b + c)
    ensures s == a + b + c
  {
  }

  /** `Strip` only cuts whitespace: `s` is the result with some whitespace
      before it and some after it. */
  lemma StripSplit(s: string) returns (lead: string, trail: string)
    ensures s == lead + Strip(s) + trail && AllSpace(lead) && AllSpace(trail)
  {
    var l := StripLeft(s);
    lead := StripLeftSplit(s);
    trail := StripRightSplit(l);
    Regroup(lead, StripRight(l), trail, s);
  }

  /** Leading whitespace is all that `StripLeft` removes. */
  lemma {:induction false} StripLeftSkips(lead: string, x: string)
    requires AllSpace(lead) && (x == [] || !IsSpace(x[0]))
    ensures StripLeft(lead + x) == x
  {
    if lead == [] {
      assert lead + x == x;
    } else {
      assert (lead + x)[0] == lead[0];
      assert (lead + x)[1..] == lead[1..] + x;
      StripLeftSkips(lead[1..], x);
    }
  }

  /** Trailing whitespace is all that `StripRight` removes. */
  lemma {:induction false} StripRightSkips(x: string, trail: string)
    requires AllSpace(trail) && (x == [] || !IsSpace(x[|x| - 1]))
    ensures StripRight(x + trail) == x
    decreases |trail|
  {
    if trail == [] {
      assert x + trail == x;
    } else {
      var t := x + trail;
      assert t[|t| - 1] == trail[|trail| - 1];
      assert t[..|t| - 1] == x + trail[..|trail| - 1];
      StripRightSkips(x, trail[..|trail| - 1]);
    }
  }

  /** The cut is unique: text that neither starts nor ends with whitespace,
      padded with whitespace on both sides, strips back to itself. */
  lemma StripPadded(lead: string, m: string, trail: string)
    requires AllSpace(lead) && AllSpace(trail)
    requires m == [] || (!IsSpace(m[0]) && !IsSpace(m[|m| - 1]))
    ensures Strip(lead + m + trail) == m
  {
    var s := lead + m + trail;
    if m == [] {
      assert AllSpace(s) by {
        assert s == lead + trail;
        forall k | 0 <= k < |s| ensures IsSpace(s[k]) {
          if k < |lead| {
            assert s[k] == lead[k];
          } else {
            assert s[k] == trail[k - |lead|];
          }
        }
      }
    } else {
      assert s == lead + (m + trail);
      assert (m + trail)[0] == m[0];
      StripLeftSkips(lead, m + trail);
      StripRightSkips(m, trail);
    }
  }

  /** Stripping twice is the same as stripping once. */
  lemma StripIdempotent(s: string)
    ensures Strip(Strip(s)) == Strip(s)
  {
    var r := Strip(s);
    assert StripLeft(r) == r;
    assert StripRight(r) == r;
  }

  /** Python's `str.upper()` on one character, for the ASCII letters. */
  function UpperChar(c: char): char {
    if 'a' <= c <= 'z' then (c as int - 32) as char else c
  }

  predicate IsLowerAscii(c: char) { 'a' <= c <= 'z' }

  /** Python's `str.upper()`, restricted to ASCII letters. */
  function Upper(s: string): (r: string)
    ensures |r| == |s|
    ensures forall i :: 0 <= i < |s| ==> !IsLowerAscii(r[i])
    ensures forall i :: 0 <= i < |s| && !IsLowerAscii(s[i]) ==> r[i] == s[i]
    ensures forall i :: 0 <= i < |s| && IsLowerAscii(s[i]) ==> r[i] as int == s[i] as int - 32
  {
    seq(|s|, i requires 0 <= i < |s| => UpperChar(s[i]))
  }

  /** Text without lower-case letters is its own upper case. */
  lemma UpperOfUpper(s: string)
    requires forall k :: 0 <= k < |s| ==> !IsLowerAscii(s[k])
    ensures Upper(s) == s
  {
  }

  /** Upper-casing twice is the same as upper-casing once. */
  lemma UpperIdempotent(s: string)
    ensures Upper(Upper(s)) == Upper(s)
  {
  }

  /** Python's `p in s` for strings: `p` occurs as a contiguous substring of `s`. */
  predicate Contains(s: string, p: string) {
    exists i :: 0 <= i <= |s| - |p| && p <= s[i..]
  }

  /** Python's `s.endswith(p)` */
  predicate EndsWith(s: string, p: string) {
    |p| <= |s| && s[|s| - |p|..] == p
  }

  /** A string that ends with `p` contains `p`, so a suffix test adds nothing to a
      substring test. */
  lemma EndsWithContains(s: string, p: string)
    requires EndsWith(s, p)
    ensures Contains(s, p)
  {
    assert p <= s[|s| - |p|..];
  }

  /** Python's `a < b` on strings: lexicographic order on code points. */
  predicate Less(a: string, b: string)
    decreases |a|
  {
    if a == [] then b != []
    else if b == [] then false
    else a[0] < b[0] || (a[0] == b[0] && Less(a[1..], b[1..]))
  }

  predicate LessOrEqual(a: string, b: string) {
    a == b || Less(a, b)
  }

  lemma {:induction false} LessIrreflexive(a: string)
    ensures !Less(a, a)
  {
    if a != [] {
      LessIrreflexive(a[1..]);
    }
  }

  lemma {:induction false} LessTransitive(a: string, b: string, c: string)
    requires Less(a, b) && Less(b, c)
    ensures Less(a, c)
    decreases |a|
  {
    if a != [] && a[0] == b[0] && b[0] == c[0] {
      LessTransitive(a[1..], b[1..], c[1..]);
    }
  }

  lemma {:induction false} LessTotal(a: string, b: string)
    ensures Less(a, b) || a == b || Less(b, a)
    decreases |a|
  {
    if a != [] && b != [] && a[0] == b[0] {
      LessTotal(a[1..], b[1..]);
      if a[1..] == b[1..] {
        assert a == [a[0]] + a[1..] && b == [b[0]] + b[1..];
      }
    }
  }

  lemma LessAsymmetric(a: string, b: string)
    requires Less(a, b)
    ensures !Less(b, a)
  {
    if Less(b, a) {
      LessTransitive(a, b, a);
      LessIrreflexive(a);
    }
  }

  lemma LessOrEqualTransitive(a: string, b: string, c: string)
    requires LessOrEqual(a, b) && LessOrEqual(b, c)
    ensures LessOrEqual(a, c)
  {
    if a != b && b != c {
      LessTransitive(a, b, c);
    }
  }

  /** A common prefix does not change the comparison. */
  lemma {:induction false} LessCommonPrefix(p: string, a: string, b: string)
    ensures Less(p + a, p + b) <==> Less(a, b)
  {
    if p != [] {
      assert (p + a)[0] == p[0] == (p + b)[0];
      assert (p + a)[1..] == p[1..] + a;
      assert (p + b)[1..] == p[1..] + b;
      LessCommonPrefix(p[1..], a, b);
    } else {
      assert p + a == a && p + b == b;
    }
  }

  /** When neither string is a prefix of the other, the comparison is decided
      inside both, so whatever follows them does not change it. */
  lemma {:induction false} LessIgnoresSuffix(a: string, b: string, x: string, y: string)
    requires !(a <= b) && !(b <= a)
    ensures Less(a + x, b + y) <==> Less(a, b)
    decreases |a|
  {
    assert a != [] && b != [];
    if a[0] == b[0] {
      assert (a + x)[1..] == a[1..] + x;
      assert (b + y)[1..] == b[1..] + y;
      LessIgnoresSuffix(a[1..], b[1..], x, y);
    }
  }
}
