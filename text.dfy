/**
 * The Python string operations the backend relies on, over `seq<char>`:
 * `lower`, `strip`, `in` (substring), `endswith`, `replace(p, "")`,
 * `split(c)[0]`, `split(c)[-1]`, `lstrip(c)`, `isdigit` and slicing.
 * Case mapping covers ASCII letters only; whitespace is Python's
 * `isspace` restricted to code points below 256.
 */
module Text {

  predicate IsUpper(c: char) { 'A' <= c <= 'Z' }

  function LowerChar(c: char): char {
    if IsUpper(c) then (c as int + 32) as char else c
  }

  /** `s.lower()` */
  function Lower(s: string): (r: string)
    ensures |r| == |s|
    ensures forall i :: 0 <= i < |s| ==> r[i] == LowerChar(s[i])
  {
    seq(|s|, i requires 0 <= i < |s| => LowerChar(s[i]))
  }

  lemma LowerIdempotent(s: string)
    ensures Lower(Lower(s)) == Lower(s)
  {
  }

  /** Python's `str.isspace` for code points below 256. */
  predicate IsSpace(c: char) {
    c == ' ' || ('\t' <= c <= '\r') || ('\U{1C}' <= c <= '\U{1F}') || c == '\U{85}' || c == '\U{A0}'
  }

  function TrimStart(s: string): string
  {
    if |s| > 0 && IsSpace(s[0]) then TrimStart(s[1..]) else s
  }

  function TrimEnd(s: string): string
  {
    if |s| > 0 && IsSpace(s[|s| - 1]) then TrimEnd(s[..|s| - 1]) else s
  }

  /** `s.strip()` */
  function Strip(s: string): string {
    TrimEnd(TrimStart(s))
  }

  predicate AllSpace(s: string) {
    forall i :: 0 <= i < |s| ==> IsSpace(s[i])
  }

  /** No whitespace at either end. */
  predicate Trimmed(s: string) {
    |s| == 0 || (!IsSpace(s[0]) && !IsSpace(s[|s| - 1]))
  }

  lemma {:induction false} TrimStartOfPadded(a: string, s: string)
    requires AllSpace(a)
    requires |s| == 0 || !IsSpace(s[0])
    ensures TrimStart(a + s) == s
    decreases |a|
  {
    if |a| > 0 {
      assert (a + s)[1..] == a[1..] + s;
      TrimStartOfPadded(a[1..], s);
    }
  }

  lemma {:induction false} TrimEndOfPadded(s: string, b: string)
    requires AllSpace(b)
    requires |s| == 0 || !IsSpace(s[|s| - 1])
    ensures TrimEnd(s + b) == s
    decreases |b|
  {
    if |b| > 0 {
      assert (s + b)[..|s + b| - 1] == s + b[..|b| - 1];
      TrimEndOfPadded(s, b[..|b| - 1]);
    }
  }

  /** Stripping removes exactly the surrounding whitespace. */
  lemma StripOfPadded(a: string, s: string, b: string)
    requires AllSpace(a) && AllSpace(b) && Trimmed(s)
    ensures Strip(a + s + b) == s
  {
    assert a + s + b == a + (s + b);
    if |s| > 0 {
      assert (s + b)[0] == s[0];
      TrimStartOfPadded(a, s + b);
      TrimEndOfPadded(s, b);
    } else {
      assert a + s + b == a + b;
      TrimStartOfPadded(a + b, "");
      assert a + b + "" == a + b;
    }
  }

  /** The number of leading whitespace characters. */
  function LeadingSpaces(s: string): (n: nat)
    ensures n <= |s|
  {
    if |s| > 0 && IsSpace(s[0]) then 1 + LeadingSpaces(s[1..]) else 0
  }

  /** The number of trailing whitespace characters. */
  function TrailingSpaces(s: string): (n: nat)
    ensures n <= |s|
  {
    if |s| > 0 && IsSpace(s[|s| - 1]) then 1 + TrailingSpaces(s[..|s| - 1]) else 0
  }

  lemma {:induction false} TrimStartShape(s: string)
    ensures AllSpace(s[..LeadingSpaces(s)])
    ensures TrimStart(s) == s[LeadingSpaces(s)..]
    ensures |TrimStart(s)| == 0 || !IsSpace(TrimStart(s)[0])
    decreases |s|
  {
    if |s| > 0 && IsSpace(s[0]) {
      TrimStartShape(s[1..]);
      var k := LeadingSpaces(s[1..]);
      assert s[..k + 1] == [s[0]] + s[1..][..k];
      assert s[1..][k..] == s[k + 1..];
    }
  }

  lemma {:induction false} TrimEndShape(s: string)
    ensures AllSpace(s[|s| - TrailingSpaces(s)..])
    ensures TrimEnd(s) == s[..|s| - TrailingSpaces(s)]
    ensures |TrimEnd(s)| == 0 || !IsSpace(TrimEnd(s)[|TrimEnd(s)| - 1])
    decreases |s|
  {
    if |s| > 0 && IsSpace(s[|s| - 1]) {
      var p := s[..|s| - 1];
      TrimEndShape(p);
      var k := |p| - TrailingSpaces(p);
      assert s[k..] == p[k..] + [s[|s| - 1]];
      assert p[..k] == s[..k];
    }
  }

  /** `strip()` leaves no whitespace at either end and only drops whitespace. */
  lemma StripShape(s: string)
    ensures Trimmed(Strip(s))
    ensures exists a, b :: AllSpace(a) && AllSpace(b) && s == a + Strip(s) + b
  {
    TrimStartShape(s);
    var t := TrimStart(s);
    TrimEndShape(t);
    var k := LeadingSpaces(s);
    var m := |t| - TrailingSpaces(t);
    var a, u, b := s[..k], t[..m], t[m..];
    assert s == a + t;
    assert t == u + b;
    assert s == a + u + b;
    if |u| > 0 {
      assert u[0] == t[0];
    }
  }

  lemma StripIdempotent(s: string)
    ensures Strip(Strip(s)) == Strip(s)
  {
    StripShape(s);
    StripOfPadded("", Strip(s), "");
    assert "" + Strip(s) + "" == Strip(s);
  }

  /** `sub in s` */
  predicate Contains(s: string, sub: string)
  {
    if sub <= s then true
    else if |s| == 0 then false
    else Contains(s[1..], sub)
  }

  /** `s.endswith(suffix)` */
  predicate EndsWith(s: string, suffix: string) {
    |suffix| <= |s| && s[|s| - |suffix|..] == suffix
  }

  /**
   * `s.replace(pat, "")`: scanning left to right, every non-overlapping
   * occurrence of `pat` is deleted.
   */
  function RemoveAll(s: string, pat: string): string
    requires |pat| > 0
    decreases |s|
  {
    if |s| < |pat| then s
    else if pat <= s then RemoveAll(s[|pat|..], pat)
    else [s[0]] + RemoveAll(s[1..], pat)
  }

  lemma {:induction false} RemoveAllShape(s: string, pat: string)
    requires |pat| > 0
    ensures |RemoveAll(s, pat)| <= |s|
    ensures forall c :: c in RemoveAll(s, pat) ==> c in s
    decreases |s|
  {
    if |s| < |pat| {
    } else if pat <= s {
      RemoveAllShape(s[|pat|..], pat);
      forall c | c in RemoveAll(s, pat) ensures c in s {
        assert c in s[|pat|..];
      }
    } else {
      RemoveAllShape(s[1..], pat);
      forall c | c in RemoveAll(s, pat) ensures c in s {
        if c != s[0] {
          assert c in RemoveAll(s[1..], pat);
          assert c in s[1..];
        }
      }
    }
  }

  /** A string with no occurrence of the pattern is left as it is. */
  lemma {:induction false} RemoveAllAbsent(s: string, pat: string)
    requires |pat| > 0
    requires !Contains(s, pat)
    ensures RemoveAll(s, pat) == s
    decreases |s|
  {
    if |s| >= |pat| {
      RemoveAllAbsent(s[1..], pat);
      assert [s[0]] + s[1..] == s;
    }
  }

  /** `s.split(c)[-1]`: the text after the last `c`, or all of `s`. */
  function AfterLast(s: string, c: char): string
  {
    if |s| == 0 then ""
    else if s[|s| - 1] == c then ""
    else AfterLast(s[..|s| - 1], c) + [s[|s| - 1]]
  }

  lemma {:induction false} AfterLastShape(s: string, c: char)
    ensures c !in AfterLast(s, c)
    ensures |AfterLast(s, c)| <= |s|
    ensures s[|s| - |AfterLast(s, c)|..] == AfterLast(s, c)
    ensures |AfterLast(s, c)| == |s| || s[|s| - |AfterLast(s, c)| - 1] == c
    decreases |s|
  {
    if |s| > 0 && s[|s| - 1] != c {
      var p := s[..|s| - 1];
      AfterLastShape(p, c);
      var r := AfterLast(p, c);
      var k := |p| - |r|;
      assert AfterLast(s, c) == r + [s[|s| - 1]];
      assert s == p + [s[|s| - 1]];
      assert s[k..] == p[k..] + [s[|s| - 1]];
      if k > 0 {
        assert s[k - 1] == p[k - 1];
      }
    }
  }

  /** `s.split(c)[0]`: the text before the first `c`, or all of `s`. */
  function BeforeFirst(s: string, c: char): string
  {
    if |s| == 0 || s[0] == c then "" else [s[0]] + BeforeFirst(s[1..], c)
  }

  /** `s.lstrip(c)` */
  function TrimStartChar(s: string, c: char): string
  {
    if |s| > 0 && s[0] == c then TrimStartChar(s[1..], c) else s
  }

  predicate IsDigit(c: char) { '0' <= c <= '9' }

  /** `s.isdigit()` for ASCII digits: non-empty and digits only. */
  predicate IsDigits(s: string) {
    |s| > 0 && forall i :: 0 <= i < |s| ==> IsDigit(s[i])
  }

  /** `s[:n]` */
  function Take<T>(s: seq<T>, n: nat): seq<T> {
    if n <= |s| then s[..n] else s
  }
}
