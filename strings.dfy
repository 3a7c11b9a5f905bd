/** The few Python `str` operations the help desk uses, on strings of code
    points: `startswith`, `endswith`, `strip()` and `replace`. */
module Strings {

  /** `s.startswith(prefix)`. */
  predicate StartsWith(s: string, prefix: string)
  {
    |prefix| <= |s| && s[..|prefix|] == prefix
  }

  /** `s.endswith(suffix)`. */
  predicate EndsWith(s: string, suffix: string)
  {
    |suffix| <= |s| && s[|s| - |suffix|..] == suffix
  }

  /** The characters `str.strip()` with no argument removes (CPython's
      whitespace set). No lemma below depends on which characters are in it. */
  predicate IsSpace(c: char)
  {
    || ('\t' <= c <= '\r')
    || ('\U{001C}' <= c <= ' ')
    || c == '\U{0085}' || c == '\U{00A0}' || c == '\U{1680}'
    || ('\U{2000}' <= c <= '\U{200A}')
    || c == '\U{2028}' || c == '\U{2029}' || c == '\U{202F}'
    || c == '\U{205F}' || c == '\U{3000}'
  }

  predicate AllSpace(s: string)
  {
    forall i :: 0 <= i < |s| ==> IsSpace(s[i])
  }

  /** Number of whitespace characters at the front of `s`. */
  function LeadingSpace(s: string): (n: nat)
    ensures n <= |s|
    ensures AllSpace(s[..n])
    ensures n < |s| ==> !IsSpace(s[n])
  {
    if |s| > 0 && IsSpace(s[0]) then
      var m := LeadingSpace(s[1..]);
      assert s[..1 + m] == [s[0]] + s[1..][..m];
      1 + m
    else 0
  }

  /** Number of whitespace characters at the back of `s`. */
  function TrailingSpace(s: string): (n: nat)
    ensures n <= |s|
    ensures forall i :: |s| - n <= i < |s| ==> IsSpace(s[i])
    ensures n < |s| ==> !IsSpace(s[|s| - n - 1])
  {
    if |s| > 0 && IsSpace(s[|s| - 1]) then
      var m := TrailingSpace(s[..|s| - 1]);
      1 + m
    else 0
  }

  /** A string is stripped when it neither starts nor ends with whitespace. */
  predicate Stripped(s: string)
  {
    s == [] || (!IsSpace(s[0]) && !IsSpace(s[|s| - 1]))
  }

  /** `s.strip()`: the piece of `s` left once the whitespace around it is cut
      off. The result is a stripped slice of `s` with only whitespace on
      either side of it (StripUnique shows this determines it). */
  function Strip(s: string): (r: string)
    ensures |r| <= |s|
    ensures Stripped(r)
    ensures exists i :: 0 <= i <= |s| - |r| && s[i..i + |r|] == r && AllSpace(s[..i]) && AllSpace(s[i + |r|..])
  {
    var lead := LeadingSpace(s);
    var t := s[lead..];
    var trail := TrailingSpace(t);
    var r := t[..|t| - trail];
    StripParts(s, lead, t, trail, r);
    r
  }

  /** The pieces `Strip` cuts `s` into: whitespace, the result, whitespace. */
  lemma StripParts(s: string, lead: nat, t: string, trail: nat, r: string)
    requires lead == LeadingSpace(s) && t == s[lead..]
    requires trail == TrailingSpace(t) && r == t[..|t| - trail]
    ensures lead + |r| <= |s| && Stripped(r)
    ensures s[lead..lead + |r|] == r && AllSpace(s[..lead]) && AllSpace(s[lead + |r|..])
  {
    var middle, tail := s[lead..lead + |r|], s[lead + |r|..];
    forall k | 0 <= k < |r| ensures middle[k] == r[k] {
      assert r[k] == t[k];
    }
    forall k | 0 <= k < |tail| ensures IsSpace(tail[k]) {
      assert tail[k] == t[|t| - trail + k];
    }
    if r != [] {
      assert r[0] == t[0];
      assert r[|r| - 1] == t[|t| - trail - 1];
    }
  }

  /** `strip()` never introduces a character: one absent from `s` is absent
      from `Strip(s)`. */
  lemma StripKeepsAbsentChar(s: string, c: char)
    requires forall i :: 0 <= i < |s| ==> s[i] != c
    ensures forall i :: 0 <= i < |Strip(s)| ==> Strip(s)[i] != c
  {
    var r := Strip(s);
    var k :| 0 <= k <= |s| - |r| && s[k..k + |r|] == r && AllSpace(s[..k]) && AllSpace(s[k + |r|..]);
    forall i | 0 <= i < |r| ensures r[i] != c {
      assert r[i] == s[k + i];
    }
  }

  /** Whitespace around a stripped string is exactly what `strip()` removes. */
  lemma StripUnique(a: string, r: string, b: string)
    requires AllSpace(a) && AllSpace(b) && Stripped(r)
    ensures Strip(a + r + b) == r
  {
    var s := a + r + b;
    var lead := LeadingSpace(s);
    if r == [] {
      assert AllSpace(s) by {
        forall i | 0 <= i < |s| ensures IsSpace(s[i]) {
          if i < |a| { assert s[i] == a[i]; } else { assert s[i] == b[i - |a|]; }
        }
      }
      assert lead == |s|;
    } else {
      assert s[|a|] == r[0];
      assert lead == |a|;
      var t := s[lead..];
      assert t == r + b;
      var trail := TrailingSpace(t);
      assert t[|r| - 1] == r[|r| - 1];
      assert trail == |b|;
      assert t[..|t| - trail] == r;
    }
  }

  /** `strip()` leaves a stripped string as it is. */
  lemma StripKeepsStripped(s: string)
    requires Stripped(s)
    ensures Strip(s) == s
  {
    StripUnique([], s, []);
    assert [] + s + [] == s;
  }

  /** `strip()` is idempotent. */
  lemma StripIdempotent(s: string)
    ensures Strip(Strip(s)) == Strip(s)
  {
    StripKeepsStripped(Strip(s));
  }

  /** `s.replace(pat, rep)`: scanning left to right, every occurrence of `pat`
      that does not overlap an earlier replaced one becomes `rep`. An empty
      `pat` puts `rep` before every character and at the end. */
  function ReplaceAll(s: string, pat: string, rep: string): (r: string)
    ensures pat != [] && rep == [] ==> |r| <= |s|
    decreases |s|
  {
    if pat == [] then
      if s == [] then rep else rep + [s[0]] + ReplaceAll(s[1..], pat, rep)
    else if |s| < |pat| then s
    else if s[..|pat|] == pat then rep + ReplaceAll(s[|pat|..], pat, rep)
    else [s[0]] + ReplaceAll(s[1..], pat, rep)
  }

  /** A front part holding no character that can start `pat` passes through
      `replace` untouched. */
  lemma {:induction false} ReplaceAllKeepsPrefix(x: string, y: string, pat: string, rep: string)
    requires pat != []
    requires forall i :: 0 <= i < |x| ==> x[i] != pat[0]
    ensures ReplaceAll(x + y, pat, rep) == x + ReplaceAll(y, pat, rep)
    decreases |x|
  {
    if x == [] {
      assert x + y == y;
    } else {
      var s := x + y;
      assert s[0] == x[0];
      assert s[1..] == x[1..] + y;
      ReplaceAllSkipsChar(s, pat, rep);
      ReplaceAllKeepsPrefix(x[1..], y, pat, rep);
      assert x == [x[0]] + x[1..];
      JoinAssoc([x[0]], x[1..], ReplaceAll(y, pat, rep));
    }
  }

  /** A first character that cannot start `pat` is copied as it is. */
  lemma ReplaceAllSkipsChar(s: string, pat: string, rep: string)
    requires pat != [] && |s| > 0 && s[0] != pat[0]
    ensures ReplaceAll(s, pat, rep) == [s[0]] + ReplaceAll(s[1..], pat, rep)
  {
    if |s| < |pat| {
      ReplaceAllShort(s[1..], pat, rep);
      assert s == [s[0]] + s[1..];
    } else {
      assert s[..|pat|] != pat by { assert s[..|pat|][0] == s[0]; }
    }
  }

  /** An occurrence of `pat` at the front is replaced, and the scan goes on
      after it. */
  lemma ReplaceAllAtMatch(pat: string, rest: string, rep: string)
    requires pat != []
    ensures ReplaceAll(pat + rest, pat, rep) == rep + ReplaceAll(rest, pat, rep)
  {
    assert (pat + rest)[..|pat|] == pat;
    assert (pat + rest)[|pat|..] == rest;
  }

  /** Concatenation regroups; the solver does not always find this alone. */
  lemma JoinAssoc(a: string, b: string, c: string)
    ensures a + b + c == a + (b + c)
  {
  }

  /** A string shorter than a non-empty pattern is left as it is. */
  lemma ReplaceAllShort(s: string, pat: string, rep: string)
    requires pat != [] && |s| < |pat|
    ensures ReplaceAll(s, pat, rep) == s
  {
  }
}
