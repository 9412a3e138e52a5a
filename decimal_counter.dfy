/**
 * `DecimalCounter` from the server's itoa header: the decimal text of a
 * counter kept in an 11-character buffer and incremented in place, the last
 * digit first, with a carry through trailing nines and a one-digit growth
 * when every digit was a nine.
 */
module DecimalCounterModel {
  import opened DecimalText

  /** `kBufSize`: the ten digits of the largest uint32 plus one. */
  const BUF_SIZE: nat := 11

  predicate AllNines(s: seq<char>)
  {
    forall i :: 0 <= i < |s| ==> s[i] == '9'
  }

  function Zeros(m: nat): (z: seq<char>)
    ensures |z| == m && AllDigits(z)
  {
    seq(m, _ => '0')
  }

  /** The digit one above `c`. */
  function NextDigit(c: char): (r: char)
    requires IsDigit(c) && c < '9'
    ensures IsDigit(r) && r != '0' && DigitValue(r) == DigitValue(c) + 1
  {
    (c as int + 1) as char
  }

  /**
   * The decimal successor of a digit string, digit by digit from the right:
   * a last digit below nine goes up by one; a nine becomes a zero and the
   * carry moves left; a carry out of the first digit becomes a leading one.
   */
  function Succ(s: seq<char>): (r: seq<char>)
    requires AllDigits(s)
    ensures AllDigits(r)
  {
    if |s| == 0 then "1"
    else if s[|s| - 1] != '9' then s[..|s| - 1] + [NextDigit(s[|s| - 1])]
    else Succ(s[..|s| - 1]) + "0"
  }

  /** The position of the last digit that is not a nine: where the carry stops. */
  function LastNonNine(s: seq<char>): (k: nat)
    requires !AllNines(s)
    ensures k < |s| && s[k] != '9' && AllNines(s[k + 1..])
  {
    if s[|s| - 1] != '9' then |s| - 1
    else
      var k := LastNonNine(s[..|s| - 1]);
      assert s[k + 1..] == s[..|s| - 1][k + 1..] + [s[|s| - 1]];
      k
  }

  /** The carry stops at the only non-nine followed by nines alone. */
  lemma LastNonNineUnique(s: seq<char>, k: nat)
    requires k < |s| && s[k] != '9' && AllNines(s[k + 1..])
    ensures !AllNines(s) && LastNonNine(s) == k
  {
  }

  /**
   * Where the carry stops, the successor raises that digit, turns the nines
   * after it into zeros and leaves every digit before it alone.
   */
  lemma {:induction false} SuccCarry(s: seq<char>, k: nat)
    requires AllDigits(s) && k < |s| && s[k] != '9' && AllNines(s[k + 1..])
    ensures s[k] < '9' && Succ(s) == s[..k] + [NextDigit(s[k])] + Zeros(|s| - k - 1)
    decreases |s|
  {
    if k < |s| - 1 {
      var t := s[..|s| - 1];
      assert s[|s| - 1] == s[k + 1..][|s| - k - 2];
      assert t[k + 1..] == s[k + 1..|s| - 1];
      assert t[..k] == s[..k];
      SuccCarry(t, k);
      assert Zeros(|s| - k - 2) + "0" == Zeros(|s| - k - 1);
    }
  }

  /** When every digit is a nine, the successor is a one followed by as many zeros. */
  lemma {:induction false} SuccRollover(s: seq<char>)
    requires AllDigits(s) && AllNines(s)
    ensures Succ(s) == "1" + Zeros(|s|)
    decreases |s|
  {
    if |s| > 0 {
      SuccRollover(s[..|s| - 1]);
      assert Zeros(|s| - 1) + "0" == Zeros(|s|);
    }
  }

  /** The successor grows by one digit exactly on a rollover. */
  lemma SuccLength(s: seq<char>)
    requires AllDigits(s)
    ensures |Succ(s)| == if AllNines(s) then |s| + 1 else |s|
  {
    if AllNines(s) {
      SuccRollover(s);
    } else {
      SuccCarry(s, LastNonNine(s));
    }
  }

  /** The successor denotes one more than the string. */
  lemma {:induction false} SuccValue(s: seq<char>)
    requires AllDigits(s)
    ensures Value(Succ(s)) == Value(s) + 1
    decreases |s|
  {
    var r := Succ(s);
    if |s| == 0 {
      assert r[..0] == [];
    } else if s[|s| - 1] != '9' {
      assert r[..|r| - 1] == s[..|s| - 1];
    } else {
      var t := s[..|s| - 1];
      SuccValue(t);
      assert r[..|r| - 1] == Succ(t);
    }
  }

  /** The successor of the text of n is the text of n + 1. */
  lemma SuccText(n: nat)
    ensures Succ(Text(n)) == Text(n + 1)
  {
    var s := Text(n);
    var r := Succ(s);
    SuccValue(s);
    ValueOfText(n);
    assert Canonical(r) by {
      if AllNines(s) {
        SuccRollover(s);
        assert r[0] == '1';
      } else {
        var k := LastNonNine(s);
        SuccCarry(s, k);
        if k == 0 {
          assert r[0] == NextDigit(s[0]);
        } else {
          assert r[0] == s[0];
        }
      }
    }
    TextOfValue(r);
  }

  /** The text grows by one digit exactly when the old value was all nines. */
  lemma GrowthOnlyOnRollover(m: nat)
    ensures |Text(m + 1)| == if AllNines(Text(m)) then |Text(m)| + 1 else |Text(m)|
  {
    SuccText(m);
    SuccLength(Text(m));
  }

  /** The digits of `rest` still to be written: none once it reaches zero. */
  function Leading(rest: nat): seq<char>
  {
    if rest == 0 then [] else Text(rest)
  }

  /** Writing the lowest digit of `rest` leaves the digits of `rest / 10` to go. */
  lemma LeadingStep(rest: nat)
    requires rest > 0
    ensures Leading(rest) == Leading(rest / 10) + [DigitChar(rest % 10)]
  {
  }

  /** One pass of the digit loop: the lowest digit of `rest` moves to the written part. */
  lemma WriteStep(text: seq<char>, rest: nat, digits: seq<char>)
    requires rest > 0 && text == Leading(rest) + digits
    ensures text == Leading(rest / 10) + ([DigitChar(rest % 10)] + digits)
    ensures |digits| < |text|
  {
    LeadingStep(rest);
  }

  /** The widest uint32 text fits the buffer with one character to spare. */
  lemma Uint32Digits(start: nat)
    requires start < 0x1_0000_0000
    ensures |Text(start)| <= BUF_SIZE - 1
  {
    assert Pow10(2) == 100;
    assert Pow10(4) == 10000 by { assert Pow10(3) == 1000; }
    assert Pow10(6) == 1000000 by { assert Pow10(5) == 100000; }
    assert Pow10(8) == 100000000 by { assert Pow10(7) == 10000000; }
    assert Pow10(10) == 10000000000 by { assert Pow10(9) == 1000000000; }
    TextLength(start, BUF_SIZE - 1);
  }

  /**
   * As written, `operator++` on a full buffer of eleven nines carries through
   * every digit and then shifts the text one place right: the successor has
   * twelve characters, one more than the buffer holds, so the `memmove` and
   * `++_end` run past `_buf + kBufSize`.
   */
  lemma {:induction false} FullBufferRolloverOverflows(s: seq<char>)
    requires |s| == BUF_SIZE && AllDigits(s) && AllNines(s)
    ensures |Succ(s)| == BUF_SIZE + 1
    ensures Succ(s) == "1" + Zeros(BUF_SIZE)
  {
    SuccRollover(s);
  }

  class DecimalCounter {
    /** `_buf`; the text is `buf[..size]`, `size` standing for `_end - _buf`. */
    var buf: array<char>
    var size: nat
    /** The number the text spells. */
    ghost var n: nat

    ghost predicate Valid()
      reads this, buf
    {
      buf.Length == BUF_SIZE && 1 <= size <= BUF_SIZE && buf[..size] == Text(n)
    }

    /** `DecimalCounter()`: the text "0". */
    constructor()
      ensures Valid() && fresh(buf) && n == 0 && size == 1
    {
      buf := new char[BUF_SIZE];
      size := 1;
      n := 0;
      new;
      buf[0] := '0';
    }

    /** `DecimalCounter(start)`: "0" for zero, otherwise the digits moved to the front. */
    constructor FromUint32(start: nat)
      requires start < 0x1_0000_0000
      ensures Valid() && fresh(buf) && n == start && size <= BUF_SIZE - 1
    {
      buf := new char[BUF_SIZE];
      n := start;
      size := 1;
      new;
      if start == 0 {
        buf[0] := '0';
        return;
      }
      Uint32Digits(start);
      var p := WriteDigits(buf, start);
      var len := BUF_SIZE - 1 - p;
      if p != 0 {
        MoveToFront(buf, p, len);
      }
      size := len;
    }

    /** `size()`: the number of characters of the text. */
    function Size(): (r: nat)
      reads this, buf
      requires Valid()
      ensures r == |Text(n)| && 1 <= r <= BUF_SIZE
    {
      size
    }

    /** `data()` read as `StringData`: the decimal text of the counter. */
    function Data(): (r: seq<char>)
      reads this, buf
      requires Valid()
      ensures r == Text(n)
    {
      buf[..size]
    }

    /**
     * Prefix `operator++`.  The rollover of eleven nines would write a
     * twelfth character past the buffer, so that one state is excluded.
     */
    method Increment()
      requires Valid() && !(size == BUF_SIZE && AllNines(buf[..size]))
      modifies this, buf
      ensures Valid() && buf == old(buf) && n == old(n) + 1
      ensures buf[..size] == Succ(old(buf[..size]))
    {
      size := IncrementDigits(buf, size);
      SuccText(n);
      n := n + 1;
    }
  }

  /**
   * The body of `operator++` on the digits `a[..len]`: the carry loop, then
   * either the raised digit or the shift that makes room for a leading '1'.
   */
  method IncrementDigits(a: array<char>, len: nat) returns (newLen: nat)
    requires len <= a.Length && AllDigits(a[..len]) && !(len == a.Length && AllNines(a[..len]))
    modifies a
    ensures newLen == (if AllNines(old(a[..len])) then len + 1 else len)
    ensures a[..newLen] == Succ(old(a[..len]))
  {
    ghost var s0 := a[..len];
    var p := CarryNines(a, len);
    if p >= 0 {
      ghost var carried := a[..len];
      RaiseStep(s0, p);
      assert a[p] == carried[p];
      a[p] := NextDigit(a[p]);
      assert a[..len] == carried[p := NextDigit(s0[p])];
      SuccCarry(s0, p);
      newLen := len;
    } else {
      ShiftInOne(a, len);
      SuccRollover(s0);
      newLen := len + 1;
    }
  }

  /**
   * The digit loop of `DecimalCounter(start)`: the digits of `start` are
   * written right to left, ending before the buffer's last slot; `p` is
   * where the first digit landed.
   */
  method WriteDigits(a: array<char>, start: nat) returns (p: nat)
    requires a.Length == BUF_SIZE && 0 < start && |Text(start)| <= BUF_SIZE - 1
    modifies a
    ensures p < BUF_SIZE - 1 && a[p..BUF_SIZE - 1] == Text(start)
  {
    p := BUF_SIZE - 1;
    var rest := start;
    ghost var digits: seq<char> := [];
    while rest > 0
      invariant 0 <= p <= BUF_SIZE - 1 && |digits| == BUF_SIZE - 1 - p
      invariant a[p..BUF_SIZE - 1] == digits
      invariant Text(start) == Leading(rest) + digits
    {
      WriteStep(Text(start), rest, digits);
      ghost var written := a[p..BUF_SIZE - 1];
      p := p - 1;
      a[p] := DigitChar(rest % 10);
      assert a[p + 1..BUF_SIZE - 1] == written;
      assert a[p..BUF_SIZE - 1] == [a[p]] + a[p + 1..BUF_SIZE - 1];
      digits := [a[p]] + digits;
      rest := rest / 10;
    }
  }

  /** The `memmove` of the constructor: `len` characters from `p` to the front. */
  method MoveToFront(a: array<char>, p: nat, len: nat)
    requires 0 < p && p + len <= a.Length
    modifies a
    ensures a[..len] == old(a[p..p + len])
  {
    ghost var digits := a[p..p + len];
    var i := 0;
    while i < len
      invariant 0 <= i <= len
      invariant forall k :: 0 <= k < i ==> a[k] == digits[k]
      invariant forall k :: i <= k < len ==> a[p + k] == digits[k]
    {
      a[i] := a[p + i];
      i := i + 1;
    }
    assert a[..len] == digits;
  }

  /**
   * The carry loop of `operator++`: trailing nines become zeros, from the
   * last digit leftwards; `p` is where it stopped, -1 when every digit was a nine.
   */
  method CarryNines(a: array<char>, len: nat) returns (p: int)
    requires len <= a.Length
    modifies a
    ensures -1 <= p < len && AllNines(old(a[..len])[p + 1..])
    ensures a[..len] == old(a[..len])[..p + 1] + Zeros(len - p - 1)
    ensures p >= 0 ==> a[p] != '9'
    ensures p < 0 ==> AllNines(old(a[..len])) && a[..len] == Zeros(len)
  {
    ghost var s0 := a[..len];
    p := len - 1;
    while p >= 0 && a[p] == '9'
      invariant -1 <= p < len
      invariant a[..len] == s0[..p + 1] + Zeros(len - p - 1)
      invariant AllNines(s0[p + 1..])
      decreases p
    {
      ClearStep(s0, p);
      a[p] := '0';
      p := p - 1;
    }
    if p < 0 {
      assert s0 == s0[0..];
      assert a[..len] == Zeros(len);
    }
  }

  /** The rollover of `operator++`: the zeros move one place right under a leading '1'. */
  method ShiftInOne(a: array<char>, len: nat)
    requires len < a.Length && a[..len] == Zeros(len)
    modifies a
    ensures a[..len + 1] == "1" + Zeros(len)
  {
    var i := len;
    while i > 0
      invariant 0 <= i <= len
      invariant a[..len] == Zeros(len) && (i < len ==> a[len] == '0')
    {
      a[i] := a[i - 1];
      i := i - 1;
    }
    a[0] := '1';
    assert a[..len + 1] == Zeros(len + 1)[0 := '1'];
  }

  /** A nine under the carry becomes a zero. */
  lemma ClearStep(s: seq<char>, p: nat)
    requires p < |s| && (s[..p + 1] + Zeros(|s| - p - 1))[p] == '9' && AllNines(s[p + 1..])
    ensures s[p] == '9' && AllNines(s[p..])
    ensures (s[..p + 1] + Zeros(|s| - p - 1))[p := '0'] == s[..p] + Zeros(|s| - p)
  {
    assert s[p..] == [s[p]] + s[p + 1..];
  }

  /** Where the carry stops, the digit goes up by one. */
  lemma RaiseStep(s: seq<char>, p: nat)
    requires AllDigits(s) && p < |s| && (s[..p + 1] + Zeros(|s| - p - 1))[p] != '9'
    ensures s[p] != '9' && s[p] < '9'
    ensures (s[..p + 1] + Zeros(|s| - p - 1))[p] == s[p]
    ensures (s[..p + 1] + Zeros(|s| - p - 1))[p := NextDigit(s[p])] == s[..p] + [NextDigit(s[p])] + Zeros(|s| - p - 1)
  {
  }

  /** Counting up from 4294967295, the largest uint32, keeps ten digits. */
  method CountPastUint32() returns (text: seq<char>)
    ensures text == Text(4294967296)
  {
    var c := new DecimalCounter.FromUint32(4294967295);
    c.Increment();
    text := c.Data();
  }
}
