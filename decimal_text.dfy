/**
 * Canonical decimal text of a natural number: the digits `str(n)` in Python
 * and `ItoA`/`DecimalCounter` in the server produce, with no leading zeros.
 */
module DecimalText {

  predicate IsDigit(c: char) { '0' <= c <= '9' }

  predicate AllDigits(s: seq<char>) { forall i :: 0 <= i < |s| ==> IsDigit(s[i]) }

  /** A non-empty digit string without a leading zero (except "0" itself). */
  predicate Canonical(s: seq<char>)
  {
    |s| >= 1 && AllDigits(s) && (|s| > 1 ==> s[0] != '0')
  }

  function DigitChar(d: nat): (c: char)
    requires d < 10
    ensures IsDigit(c)
  {
    ('0' as int + d) as char
  }

  function DigitValue(c: char): (d: nat)
    requires IsDigit(c)
    ensures d < 10 && DigitChar(d) == c
  {
    c as int - '0' as int
  }

  function Pow10(k: nat): (p: nat)
    ensures p >= 1
  {
    if k == 0 then 1 else 10 * Pow10(k - 1)
  }

  /** The decimal text of n. */
  function Text(n: nat): (s: seq<char>)
    ensures Canonical(s)
    ensures n < 10 <==> |s| == 1
  {
    if n < 10 then [DigitChar(n)] else Text(n / 10) + [DigitChar(n % 10)]
  }

  /** The number a digit string denotes (leading zeros allowed). */
  function Value(s: seq<char>): (n: nat)
    requires AllDigits(s)
    ensures n < Pow10(|s|)
  {
    if |s| == 0 then 0 else 10 * Value(s[..|s| - 1]) + DigitValue(s[|s| - 1])
  }

  /** Reading the text of n gives n back. */
  lemma {:induction false} ValueOfText(n: nat)
    ensures Value(Text(n)) == n
  {
    if n >= 10 {
      var s := Text(n);
      assert s[..|s| - 1] == Text(n / 10);
      ValueOfText(n / 10);
    }
  }

  /** Every canonical digit string is the text of the number it denotes. */
  lemma {:induction false} TextOfValue(s: seq<char>)
    requires Canonical(s)
    ensures Text(Value(s)) == s
  {
    var n := Value(s);
    if |s| == 1 {
      assert n == DigitValue(s[0]);
    } else {
      var p := s[..|s| - 1];
      assert Canonical(p);
      LeadingDigitBound(p);
      assert n == 10 * Value(p) + DigitValue(s[|s| - 1]);
      assert n / 10 == Value(p) && n % 10 == DigitValue(s[|s| - 1]);
      TextOfValue(p);
      assert s == p + [s[|s| - 1]];
    }
  }

  /** A canonical string of length k >= 2 denotes a number of at least 10^(k-1). */
  lemma {:induction false} LeadingDigitBound(s: seq<char>)
    requires Canonical(s)
    ensures |s| > 1 ==> Value(s) >= Pow10(|s| - 1)
    ensures Value(s) >= 1 || s == "0"
  {
    if |s| > 1 {
      var p := s[..|s| - 1];
      assert Canonical(p);
      LeadingDigitBound(p);
      if |p| == 1 {
        assert Value(p) == DigitValue(p[0]) >= 1;
      }
    } else {
      if Value(s) == 0 {
        assert DigitValue(s[0]) == 0;
        assert s == "0";
      }
    }
  }

  /** The text of n has at most k digits exactly when n < 10^k. */
  lemma {:induction false} TextLength(n: nat, k: nat)
    requires k >= 1
    ensures |Text(n)| <= k <==> n < Pow10(k)
  {
    ValueOfText(n);
    LeadingDigitBound(Text(n));
    var m := |Text(n)|;
    if m <= k {
      Pow10Monotone(m, k);
    } else {
      Pow10Monotone(k, m - 1);
    }
  }

  lemma {:induction false} Pow10Monotone(a: nat, b: nat)
    requires a <= b
    ensures Pow10(a) <= Pow10(b)
    decreases b
  {
    if a < b {
      Pow10Monotone(a, b - 1);
    }
  }

  /** Distinct numbers have distinct texts. */
  lemma TextInjective(m: nat, n: nat)
    requires Text(m) == Text(n)
    ensures m == n
  {
    ValueOfText(m);
    ValueOfText(n);
  }
}
