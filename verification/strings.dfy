/** The parts of Go's `strings` package and of its decimal formatting that the
    core relies on. Strings are sequences of characters. */
module Strings {

  /** `pat` occurs in `s` starting at index `i`. */
  predicate OccursAt(s: string, pat: string, i: int) {
    0 <= i && i + |pat| <= |s| && s[i..i + |pat|] == pat
  }

  predicate Contains(s: string, pat: string) {
    exists i | 0 <= i <= |s| - |pat| :: OccursAt(s, pat, i)
  }

  /** No occurrence of `pat` in `a + b` starts inside `a` and ends inside `b`. */
  predicate NoneAcross(a: string, b: string, pat: string) {
    forall p | |a| - |pat| < p < |a| :: !OccursAt(a + b, pat, p)
  }

  /** The first index at or after `k` where `pat` occurs in `s`, or -1. */
  function IndexFrom(s: string, pat: string, k: nat): (r: int)
    ensures r == -1 || (k <= r && OccursAt(s, pat, r))
    ensures forall j :: k <= j && (r == -1 || j < r) ==> !OccursAt(s, pat, j)
    decreases |s| - k
  {
    if k + |pat| > |s| then -1
    else if s[k..k + |pat|] == pat then k
    else IndexFrom(s, pat, k + 1)
  }

  /** Go's `strings.Index`: the first index where `pat` occurs in `s`, or -1. */
  function Index(s: string, pat: string): (r: int)
    ensures r == -1 <==> !Contains(s, pat)
    ensures r != -1 ==> OccursAt(s, pat, r) && forall j :: 0 <= j < r ==> !OccursAt(s, pat, j)
  {
    IndexFrom(s, pat, 0)
  }

  /** Go's `strings.Count` for a non-empty pattern: the occurrences found by
      scanning from the left, each search resuming after the previous match. */
  function Count(s: string, pat: string): nat
    requires |pat| > 0
    decreases |s|
  {
    if |s| < |pat| then 0
    else if s[..|pat|] == pat then 1 + Count(s[|pat|..], pat)
    else Count(s[1..], pat)
  }

  /** Go's `strings.Replace(s, pat, repl, -1)`, alias `strings.ReplaceAll`, for
      a non-empty pattern: every match found by the same left-to-right scan
      as `Count` is replaced. */
  function ReplaceAll(s: string, pat: string, repl: string): string
    requires |pat| > 0
    decreases |s|
  {
    if |s| < |pat| then s
    else if s[..|pat|] == pat then repl + ReplaceAll(s[|pat|..], pat, repl)
    else [s[0]] + ReplaceAll(s[1..], pat, repl)
  }

  /** The number of times the character `c` appears in `s`. */
  function CountChar(s: string, c: char): nat
    decreases |s|
  {
    if |s| == 0 then 0
    else (if s[0] == c then 1 else 0) + CountChar(s[1..], c)
  }

  /** `parts` joined with `sep` between consecutive parts. */
  function Join(parts: seq<string>, sep: char): string
    decreases |parts|
  {
    if |parts| == 0 then ""
    else if |parts| == 1 then parts[0]
    else parts[0] + [sep] + Join(parts[1..], sep)
  }

  /** Go's `strings.Split` with a one-character separator. */
  function Split(s: string, sep: char): (parts: seq<string>)
    ensures |parts| == CountChar(s, sep) + 1
    ensures forall i :: 0 <= i < |parts| ==> sep !in parts[i]
    ensures Join(parts, sep) == s
    decreases |s|
  {
    if |s| == 0 then [""]
    else
      var rest := Split(s[1..], sep);
      if s[0] == sep then
        assert s == [sep] + Join(rest, sep);
        [""] + rest
      else
        var parts := [[s[0]] + rest[0]] + rest[1..];
        assert parts[1..] == rest[1..];
        parts
  }

  /** ASCII lower-casing of one character. */
  function LowerChar(c: char): char {
    if 'A' <= c <= 'Z' then (c as int + 32) as char else c
  }

  /** Go's `strings.ToLower` restricted to ASCII letters. */
  function ToLower(s: string): string {
    seq(|s|, i requires 0 <= i < |s| => LowerChar(s[i]))
  }

  function DigitChar(d: nat): char
    requires d < 10
  {
    "0123456789"[d]
  }

  function NatToString(n: nat): (r: string)
    ensures |r| > 0 && forall i :: 0 <= i < |r| ==> '0' <= r[i] <= '9'
    decreases n
  {
    if n < 10 then [DigitChar(n)] else NatToString(n / 10) + [DigitChar(n % 10)]
  }

  /** Go's `%d` verb: decimal digits, led by '-' when `n` is negative. */
  function IntToString(n: int): (r: string)
    ensures |r| > 0 && forall i :: 0 <= i < |r| ==> r[i] == '-' || '0' <= r[i] <= '9'
  {
    if n < 0 then "-" + NatToString(-n) else NatToString(n)
  }

  /* ---- lemmas ---- */

  /** The value of a string of decimal digits. */
  function DigitsValue(s: string): int
    decreases |s|
  {
    if |s| == 0 then 0 else 10 * DigitsValue(s[..|s| - 1]) + (s[|s| - 1] as int - '0' as int)
  }

  /** Reading back the digits `%d` writes gives the number. */
  lemma {:induction false} NatToStringRoundTrip(n: nat)
    ensures DigitsValue(NatToString(n)) == n
    decreases n
  {
    var r := NatToString(n);
    if n >= 10 {
      NatToStringRoundTrip(n / 10);
      assert r[..|r| - 1] == NatToString(n / 10);
    }
  }

  lemma {:induction false} ShiftOccurs(s: string, pat: string, k: nat, j: int)
    requires k <= |s|
    ensures OccursAt(s[k..], pat, j) <==> 0 <= j && OccursAt(s, pat, j + k)
  {
    if 0 <= j && j + |pat| <= |s| - k {
      assert s[k..][j..j + |pat|] == s[j + k..j + k + |pat|];
    }
  }

  lemma {:induction false} NoneAcrossShift(a: string, b: string, pat: string, k: nat)
    requires k <= |a| && NoneAcross(a, b, pat)
    ensures NoneAcross(a[k..], b, pat)
  {
    assert a[k..] + b == (a + b)[k..];
    forall p | |a[k..]| - |pat| < p < |a[k..]|
      ensures !OccursAt(a[k..] + b, pat, p)
    {
      ShiftOccurs(a + b, pat, k, p);
    }
  }

  /** A string without the pattern counts no occurrence of it. */
  lemma {:induction false} CountNone(s: string, pat: string)
    requires |pat| > 0 && !Contains(s, pat)
    ensures Count(s, pat) == 0
    decreases |s|
  {
    if |s| >= |pat| {
      assert !OccursAt(s, pat, 0);
      forall j ensures !OccursAt(s[1..], pat, j) { ShiftOccurs(s, pat, 1, j); }
      CountNone(s[1..], pat);
    }
  }

  /** Replacing a pattern that does not occur changes nothing. */
  lemma {:induction false} ReplaceNone(s: string, pat: string, repl: string)
    requires |pat| > 0 && !Contains(s, pat)
    ensures ReplaceAll(s, pat, repl) == s
    decreases |s|
  {
    if |s| >= |pat| {
      assert !OccursAt(s, pat, 0);
      forall j ensures !OccursAt(s[1..], pat, j) { ShiftOccurs(s, pat, 1, j); }
      ReplaceNone(s[1..], pat, repl);
      assert s == [s[0]] + s[1..];
    }
  }

  /** Neither part holds the pattern and no occurrence straddles the seam. */
  lemma ContainsConcat(a: string, b: string, pat: string)
    requires !Contains(a, pat) && !Contains(b, pat) && NoneAcross(a, b, pat)
    ensures !Contains(a + b, pat)
  {
    forall p | OccursAt(a + b, pat, p) ensures false {
      if p + |pat| <= |a| {
        assert (a + b)[p..p + |pat|] == a[p..p + |pat|];
        assert OccursAt(a, pat, p);
      } else if p >= |a| {
        assert (a + b)[p..p + |pat|] == b[p - |a|..p - |a| + |pat|];
        assert OccursAt(b, pat, p - |a|);
      }
    }
  }

  /** Counting distributes over a seam no occurrence straddles. */
  lemma {:induction false} CountConcat(a: string, b: string, pat: string)
    requires |pat| > 0 && NoneAcross(a, b, pat)
    ensures Count(a + b, pat) == Count(a, pat) + Count(b, pat)
    decreases |a|
  {
    if |a| == 0 {
      assert a + b == b;
    } else if |a| >= |pat| && a[..|pat|] == pat {
      assert (a + b)[..|pat|] == pat;
      assert (a + b)[|pat|..] == a[|pat|..] + b;
      NoneAcrossShift(a, b, pat, |pat|);
      CountConcat(a[|pat|..], b, pat);
    } else if |a + b| >= |pat| {
      if |a| < |pat| {
        assert !OccursAt(a + b, pat, 0);
      } else {
        assert (a + b)[..|pat|] == a[..|pat|];
      }
      assert (a + b)[1..] == a[1..] + b;
      NoneAcrossShift(a, b, pat, 1);
      CountConcat(a[1..], b, pat);
    }
  }

  /** Replacing distributes over a seam no occurrence straddles. */
  lemma {:induction false} ReplaceConcat(a: string, b: string, pat: string, repl: string)
    requires |pat| > 0 && NoneAcross(a, b, pat)
    ensures ReplaceAll(a + b, pat, repl) == ReplaceAll(a, pat, repl) + ReplaceAll(b, pat, repl)
    decreases |a|
  {
    if |a| == 0 {
      assert a + b == b;
    } else if |a| >= |pat| && a[..|pat|] == pat {
      assert (a + b)[..|pat|] == pat;
      assert (a + b)[|pat|..] == a[|pat|..] + b;
      NoneAcrossShift(a, b, pat, |pat|);
      ReplaceConcat(a[|pat|..], b, pat, repl);
    } else if |a + b| < |pat| {
      ReplaceNoneShort(a, pat, repl);
      ReplaceNoneShort(b, pat, repl);
    } else {
      ReplaceStep(a, b, pat, repl);
    }
  }

  /** The seam case where `a + b` does not start with the pattern. */
  lemma {:induction false} ReplaceStep(a: string, b: string, pat: string, repl: string)
    requires |pat| > 0 && NoneAcross(a, b, pat) && |a| > 0 && |a + b| >= |pat|
    requires !(|a| >= |pat| && a[..|pat|] == pat)
    ensures ReplaceAll(a + b, pat, repl) == ReplaceAll(a, pat, repl) + ReplaceAll(b, pat, repl)
    decreases |a|, 0
  {
    if |a| < |pat| {
      assert !OccursAt(a + b, pat, 0);
    } else {
      assert (a + b)[..|pat|] == a[..|pat|];
    }
    var tail := a[1..] + b;
    assert (a + b)[1..] == tail;
    assert ReplaceAll(a + b, pat, repl) == [a[0]] + ReplaceAll(tail, pat, repl);
    NoneAcrossShift(a, b, pat, 1);
    ReplaceConcat(a[1..], b, pat, repl);
    if |a| < |pat| {
      ReplaceNoneShort(a, pat, repl);
      ReplaceNoneShort(a[1..], pat, repl);
      assert [a[0]] + a[1..] == a;
    } else {
      assert ReplaceAll(a, pat, repl) == [a[0]] + ReplaceAll(a[1..], pat, repl);
    }
  }

  lemma ReplaceNoneShort(s: string, pat: string, repl: string)
    requires 0 < |pat| && |s| < |pat|
    ensures ReplaceAll(s, pat, repl) == s
  {
  }

  /** Replacing one character by another is a pointwise map. */
  lemma {:induction false} ReplaceCharPointwise(s: string, a: char, b: char)
    ensures |ReplaceAll(s, [a], [b])| == |s|
    ensures forall i :: 0 <= i < |s| ==> ReplaceAll(s, [a], [b])[i] == (if s[i] == a then b else s[i])
    decreases |s|
  {
    if |s| > 0 {
      ReplaceCharPointwise(s[1..], a, b);
      var r := ReplaceAll(s, [a], [b]);
      assert r == (if s[..1] == [a] then [b] else [s[0]]) + ReplaceAll(s[1..], [a], [b]);
      forall i | 0 < i < |s| ensures r[i] == (if s[i] == a then b else s[i]) {
        assert s[1..][i - 1] == s[i];
      }
    }
  }

  lemma {:induction false} CountCharConcat(a: string, b: string, c: char)
    ensures CountChar(a + b, c) == CountChar(a, c) + CountChar(b, c)
    decreases |a|
  {
    if |a| > 0 {
      assert (a + b)[1..] == a[1..] + b;
      CountCharConcat(a[1..], b, c);
    } else {
      assert a + b == b;
    }
  }

  /** Concatenation regrouped to the left. */
  lemma Regroup<T>(a: seq<T>, b: seq<T>, c: seq<T>)
    ensures a + (b + c) == a + b + c
  {
  }

  /** A string without the separator splits into itself alone. */
  lemma {:induction false} SplitNone(s: string, sep: char)
    requires sep !in s
    ensures Split(s, sep) == [s]
  {
    var parts := Split(s, sep);
    assert CountChar(s, sep) == 0 by { CountCharAbsent(s, sep); }
    assert |parts| == 1;
  }

  lemma {:induction false} CountCharAbsent(s: string, c: char)
    requires c !in s
    ensures CountChar(s, c) == 0
    decreases |s|
  {
    if |s| > 0 {
      assert s[0] != c;
      assert forall k :: 0 <= k < |s| - 1 ==> s[1..][k] == s[k + 1];
      CountCharAbsent(s[1..], c);
    }
  }

  /** Splitting at the first separator peels off the text before it. */
  lemma {:induction false} SplitFirst(x: string, y: string, sep: char)
    requires sep !in x
    ensures Split(x + [sep] + y, sep) == [x] + Split(y, sep)
    decreases |x|
  {
    var s := x + [sep] + y;
    if |x| == 0 {
      assert s[1..] == y;
    } else {
      assert s[1..] == x[1..] + [sep] + y;
      assert sep !in x[1..] by {
        assert forall k :: 0 <= k < |x| - 1 ==> x[1..][k] == x[k + 1];
      }
      SplitFirst(x[1..], y, sep);
      assert [x[0]] + x[1..] == x;
    }
  }
}
