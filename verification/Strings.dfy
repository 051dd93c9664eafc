/** Substrings, classes of characters and decimal numbers. */
module Strings {
  /** `t` occurs in `s` at `i`. */
  predicate OccursAt(s: string, t: string, i: int) {
    0 <= i && i + |t| <= |s| && s[i..i + |t|] == t
  }

  predicate Contains(s: string, t: string) {
    exists i :: 0 <= i <= |s| && OccursAt(s, t, i)
  }

  /** One text contains another if it is that with something before and after it. */
  lemma ContainsExactly(s: string, t: string)
    ensures Contains(s, t) <==> exists before: string, after: string :: s == before + t + after
  {
    if i :| 0 <= i <= |s| && OccursAt(s, t, i) {
      assert s == s[..i] + t + s[i + |t|..];
    }
    if before: string, after: string :| s == before + t + after {
      assert OccursAt(s, t, |before|);
    }
  }

  predicate All(p: char -> bool, s: string) {
    forall i :: 0 <= i < |s| ==> p(s[i])
  }

  /** The length of the longest prefix in the class. */
  function Span(p: char -> bool, s: string): (n: nat)
    ensures n <= |s|
  {
    if s != [] && p(s[0]) then 1 + Span(p, s[1..]) else 0
  }

  lemma {:induction false} SpanIsAll(p: char -> bool, s: string)
    ensures All(p, s[..Span(p, s)])
  {
    if s != [] && p(s[0]) {
      SpanIsAll(p, s[1..]);
      assert s[..Span(p, s)] == [s[0]] + s[1..][..Span(p, s[1..])];
    }
  }

  lemma {:induction false} SpanFinds(p: char -> bool, m: string, y: string)
    requires All(p, m) && (y == [] || !p(y[0]))
    ensures Span(p, m + y) == |m|
    ensures (m + y)[..|m|] == m && (m + y)[|m|..] == y
  {
    if m == [] {
      assert m + y == y;
    } else {
      assert (m + y)[1..] == m[1..] + y;
      SpanFinds(p, m[1..], y);
    }
  }

  // ---------- decimal numbers ----------

  predicate IsDigit(c: char) { '0' <= c <= '9' }

  function Digit(d: nat): char
    requires d < 10
  {
    (d + '0' as int) as char
  }

  function ShowNat(n: nat): string {
    if n < 10 then [Digit(n)] else ShowNat(n / 10) + [Digit(n % 10)]
  }

  function DigitsValue(s: string): nat
    requires All(IsDigit, s)
  {
    if s == [] then 0
    else
      assert IsDigit(s[|s| - 1]);
      10 * DigitsValue(s[..|s| - 1]) + (s[|s| - 1] as int - '0' as int)
  }

  lemma {:induction false} DigitsReadBack(n: nat)
    ensures ShowNat(n) != [] && All(IsDigit, ShowNat(n)) && DigitsValue(ShowNat(n)) == n
  {
    if n >= 10 {
      DigitsReadBack(n / 10);
      var s := ShowNat(n);
      assert s[..|s| - 1] == ShowNat(n / 10);
      assert s[|s| - 1] == Digit(n % 10);
    }
  }
}
