/**
 * The config server's coalescer parameters: `set` takes a BSON element
 * (from `setParameter`), `setFromString` a command-line string, and each
 * stores the value only when it passes the parameter's checks.
 */
module CoalescerParameters {
  import opened Wrappers
  import opened Bytes
  import opened DecimalText
  import opened ErrorCodes

  /**
   * The BSON element given to `set`, by type.  A double is carried as its
   * value truncated toward zero, which is what the C++ conversions keep; a
   * NumberDecimal as its value rounded to the nearest integer, ties to even,
   * which is what Decimal128's integer conversions keep.
   */
  datatype ParamValue =
    | BoolValue(b: bool)
    | Int32Value(i: int)
    | Int64Value(l: int)
    | DoubleValue(truncated: int)
    | DecimalValue(rounded: int)
    | OtherValue

  /** `BSONElement::isNumber`. */
  predicate IsNumber(e: ParamValue)
  {
    e.Int32Value? || e.Int64Value? || e.DoubleValue? || e.DecimalValue?
  }

  /** The number the element holds, exactly. */
  function Numeric(e: ParamValue): int
    requires IsNumber(e)
  {
    match e
    case Int32Value(i) => i
    case Int64Value(l) => l
    case DoubleValue(t) => t
    case DecimalValue(d) => d
  }

  /**
   * `numberInt()`: a NumberLong is narrowed to 32 bits by a C++ cast; a
   * double out of the int range converts to INT_MIN, as x86's conversion
   * does, and so does a decimal, whose conversion reports it as invalid.
   */
  function NumberInt(e: ParamValue): (r: int)
    requires IsNumber(e)
    ensures InInt32(r)
  {
    match e
    case Int32Value(i) => WrapInt32(i)
    case Int64Value(l) => WrapInt32(l)
    case DoubleValue(t) => if InInt32(t) then t else INT32_MIN
    case DecimalValue(d) => if InInt32(d) then d else INT32_MIN
  }

  /** `numberLong()`: exact for the integer types; an out-of-range double or decimal becomes INT64_MIN. */
  function NumberLong(e: ParamValue): (r: int)
    requires IsNumber(e)
  {
    match e
    case Int32Value(i) => i
    case Int64Value(l) => l
    case DoubleValue(t) => if InInt64(t) then t else INT64_MIN
    case DecimalValue(d) => if InInt64(d) then d else INT64_MIN
  }

  // ---------------------------------------------------------------------
  // std::stoi / std::stoll
  // ---------------------------------------------------------------------

  /** `isspace` in the C locale. */
  predicate IsSpace(c: char)
  {
    c == ' ' || c == '\t' || c == '\n' || c == '\r' || c as int == 11 || c as int == 12
  }

  /** The number of leading white-space characters. */
  function SpacePrefix(s: string): (n: nat)
    ensures n <= |s|
    ensures forall i :: 0 <= i < n ==> IsSpace(s[i])
    ensures n < |s| ==> !IsSpace(s[n])
  {
    if |s| == 0 || !IsSpace(s[0]) then 0 else 1 + SpacePrefix(s[1..])
  }

  /** The length of the leading run of digits. */
  function DigitPrefix(s: string): (n: nat)
    ensures n <= |s|
    ensures AllDigits(s[..n])
    ensures n < |s| ==> !IsDigit(s[n])
  {
    if |s| == 0 || !IsDigit(s[0]) then 0
    else
      var n := 1 + DigitPrefix(s[1..]);
      assert s[..n] == [s[0]] + s[1..][..n - 1];
      n
  }

  /**
   * The integer `strtol`/`strtoll` read in base 10: white space, an optional
   * sign, then the longest run of digits; None when there is no digit.
   * What follows the digits is ignored.
   */
  function LeadingInteger(s: string): (r: Option<int>)
  {
    var rest := s[SpacePrefix(s)..];
    var signed := |rest| > 0 && (rest[0] == '-' || rest[0] == '+');
    var body := if signed then rest[1..] else rest;
    var n := DigitPrefix(body);
    if n == 0 then None
    else
      var magnitude: int := Value(body[..n]);
      Some(if signed && rest[0] == '-' then -magnitude else magnitude)
  }

  /** `std::stoi`: invalid_argument without digits, out_of_range outside int; both caught as BadValue. */
  function Stoi(s: string): (r: Result<int, ErrorCode>)
  {
    match LeadingInteger(s)
    case None => Err(BadValue)
    case Some(v) => if InInt32(v) then Ok(v) else Err(BadValue)
  }

  /** `std::stoll`: the same over the long long range. */
  function Stoll(s: string): (r: Result<int, ErrorCode>)
  {
    match LeadingInteger(s)
    case None => Err(BadValue)
    case Some(v) => if InInt64(v) then Ok(v) else Err(BadValue)
  }

  lemma {:induction false} DigitPrefixOfDigits(a: string, t: string)
    requires AllDigits(a)
    requires |t| == 0 || !IsDigit(t[0])
    ensures DigitPrefix(a + t) == |a|
    decreases |a|
  {
    if |a| > 0 {
      assert (a + t)[1..] == a[1..] + t;
      DigitPrefixOfDigits(a[1..], t);
    } else {
      assert a + t == t;
    }
  }

  /**
   * A decimal number followed by anything that does not start with a digit
   * is read as that number: "12abc" is 12.
   */
  lemma LeadingIntegerOfText(n: nat, t: string)
    requires |t| == 0 || !IsDigit(t[0])
    ensures LeadingInteger(Text(n) + t) == Some(n)
  {
    var s := Text(n) + t;
    assert s[0] == Text(n)[0];
    assert SpacePrefix(s) == 0;
    assert s[0..] == s;
    DigitPrefixOfDigits(Text(n), t);
    assert s[..|Text(n)|] == Text(n);
    ValueOfText(n);
  }

  /** Text with no digit after the optional spaces and sign is rejected. */
  lemma LeadingIntegerNeedsDigit(s: string)
    requires var rest := s[SpacePrefix(s)..];
             var body := if |rest| > 0 && (rest[0] == '-' || rest[0] == '+') then rest[1..] else rest;
             |body| == 0 || !IsDigit(body[0])
    ensures LeadingInteger(s) == None
    ensures Stoi(s) == Err(BadValue) && Stoll(s) == Err(BadValue)
  {
  }

  // ---------------------------------------------------------------------
  // Validators
  // ---------------------------------------------------------------------

  /** `CoalescerEnabledParameter::set`: only a Bool element is accepted. */
  function CheckBool(e: ParamValue): (r: Result<bool, ErrorCode>)
  {
    if e.BoolValue? then Ok(e.b) else Err(TypeMismatch)
  }

  /** `CoalescerEnabledParameter::setFromString`: "true"/"1" and "false"/"0" only. */
  function BoolFromString(s: string): (r: Result<bool, ErrorCode>)
  {
    if s == "true" || s == "1" then Ok(true)
    else if s == "false" || s == "0" then Ok(false)
    else Err(BadValue)
  }

  /** The string form accepts exactly four spellings and rejects every other string with BadValue. */
  lemma BoolFromStringExact(s: string)
    ensures BoolFromString(s) == Ok(true) <==> s == "true" || s == "1"
    ensures BoolFromString(s) == Ok(false) <==> s == "false" || s == "0"
    ensures BoolFromString(s).Err? <==> s !in {"true", "1", "false", "0"}
    ensures BoolFromString(s).Err? ==> BoolFromString(s).error == BadValue
  {
  }

  /**
   * `CoalescerIntParameter::set` as written: the element is read with
   * `numberInt()`, so a NumberLong is narrowed to 32 bits before the range check.
   */
  function CheckIntAsWritten(e: ParamValue, lo: int, hi: int): (r: Result<int, ErrorCode>)
  {
    if !IsNumber(e) then Err(TypeMismatch)
    else
      var v := NumberInt(e);
      if v < lo || v > hi then Err(BadValue) else Ok(v)
  }

  /** `CoalescerIntParameter::set` with the range checked against the element's full value. */
  function CheckInt(e: ParamValue, lo: int, hi: int): (r: Result<int, ErrorCode>)
  {
    if !IsNumber(e) then Err(TypeMismatch)
    else
      var v := Numeric(e);
      if v < lo || v > hi then Err(BadValue) else Ok(v)
  }

  /**
   * As written, NumberLong(4294967301) is accepted as window 5, because its
   * low 32 bits are 5; checked against its full value it is out of range.
   */
  lemma IntParameterTruncates()
    ensures CheckIntAsWritten(Int64Value(4294967301), 1, 1000) == Ok(5)
    ensures CheckInt(Int64Value(4294967301), 1, 1000) == Err(BadValue)
  {
    assert 4294967301 % TWO_32 == 5;
  }

  /**
   * The corrected check: non-numbers are a TypeMismatch, and a number is
   * accepted exactly when its own value lies in [lo, hi], which is then the
   * stored value.  On values that fit in an int it agrees with the code as
   * written.
   */
  lemma CheckIntMeaning(e: ParamValue, lo: int, hi: int)
    requires InInt32(lo) && InInt32(hi)
    ensures CheckInt(e, lo, hi) == Err(TypeMismatch) <==> !IsNumber(e)
    ensures CheckInt(e, lo, hi).Ok? <==> IsNumber(e) && lo <= Numeric(e) <= hi
    ensures CheckInt(e, lo, hi).Ok? ==> CheckInt(e, lo, hi).value == Numeric(e)
    ensures IsNumber(e) && InInt32(Numeric(e)) ==> CheckIntAsWritten(e, lo, hi) == CheckInt(e, lo, hi)
  {
  }

  /** `CoalescerIntParameter::setFromString`: `std::stoi`, then the range check. */
  function IntFromString(s: string, lo: int, hi: int): (r: Result<int, ErrorCode>)
  {
    match Stoi(s)
    case Err(code) => Err(code)
    case Ok(v) => if v < lo || v > hi then Err(BadValue) else Ok(v)
  }

  /**
   * A string is accepted exactly when its leading integer lies in [lo, hi];
   * every failure is BadValue.
   */
  lemma IntFromStringMeaning(s: string, lo: int, hi: int)
    requires InInt32(lo) && InInt32(hi)
    ensures IntFromString(s, lo, hi).Ok? <==> LeadingInteger(s).Some? && lo <= LeadingInteger(s).value <= hi
    ensures IntFromString(s, lo, hi).Ok? ==> IntFromString(s, lo, hi).value == LeadingInteger(s).value
    ensures IntFromString(s, lo, hi).Err? ==> IntFromString(s, lo, hi).error == BadValue
  {
  }

  /** "12abc" sets a window of 12 ms; "abc" is refused. */
  lemma IntFromStringPrefix()
    ensures IntFromString("12abc", 1, 1000) == Ok(12)
    ensures IntFromString("abc", 1, 1000) == Err(BadValue)
  {
    assert "12abc" == Text(12) + "abc" by {
      assert Text(12) == Text(1) + [DigitChar(2)];
    }
    LeadingIntegerOfText(12, "abc");
    LeadingIntegerNeedsDigit("abc");
  }

  const MIN_VERSION_GAP: int := 1
  const MAX_VERSION_GAP: int := 100000

  /** `CoalescerMaxVersionGapParameter::set`: `numberLong()`, then 1..100000. */
  function CheckVersionGap(e: ParamValue): (r: Result<int, ErrorCode>)
  {
    if !IsNumber(e) then Err(TypeMismatch)
    else
      var v := NumberLong(e);
      if v < MIN_VERSION_GAP || v > MAX_VERSION_GAP then Err(BadValue) else Ok(v)
  }

  /** `CoalescerMaxVersionGapParameter::setFromString`: `std::stoll`, then 1..100000. */
  function VersionGapFromString(s: string): (r: Result<int, ErrorCode>)
  {
    match Stoll(s)
    case Err(code) => Err(code)
    case Ok(v) => if v < MIN_VERSION_GAP || v > MAX_VERSION_GAP then Err(BadValue) else Ok(v)
  }

  /**
   * Whichever way it is set, the version gap only ever takes a value in
   * 1..100000, and a 64-bit integer element is judged on its full value.
   */
  lemma VersionGapRange(e: ParamValue, s: string)
    ensures CheckVersionGap(e).Ok? ==> MIN_VERSION_GAP <= CheckVersionGap(e).value <= MAX_VERSION_GAP
    ensures VersionGapFromString(s).Ok? ==> MIN_VERSION_GAP <= VersionGapFromString(s).value <= MAX_VERSION_GAP
    ensures VersionGapFromString(s).Ok? <==>
              LeadingInteger(s).Some? && MIN_VERSION_GAP <= LeadingInteger(s).value <= MAX_VERSION_GAP
    ensures (e.Int32Value? || e.Int64Value?) ==>
              (CheckVersionGap(e).Ok? <==> MIN_VERSION_GAP <= Numeric(e) <= MAX_VERSION_GAP)
  {
  }

  // ---------------------------------------------------------------------
  // The parameters and their stored values
  // ---------------------------------------------------------------------

  /** `configQueryCoalescerEnabled`. */
  class EnabledParameter {
    var value: bool

    constructor()
      ensures !value
    {
      value := false;
    }

    method Set(e: ParamValue) returns (st: Status)
      modifies this
      ensures st == (if e.BoolValue? then Success else Failure(TypeMismatch))
      ensures value == (if e.BoolValue? then e.b else old(value))
    {
      var r := CheckBool(e);
      if r.Err? {
        return Failure(r.error);
      }
      value := r.value;
      st := Success;
    }

    method SetFromString(s: string) returns (st: Status)
      modifies this
      ensures st.Success? <==> BoolFromString(s).Ok?
      ensures st.Failure? ==> st.code == BadValue && value == old(value)
      ensures st.Success? ==> value == BoolFromString(s).value
    {
      var r := BoolFromString(s);
      if r.Err? {
        return Failure(r.error);
      }
      value := r.value;
      st := Success;
    }
  }

  /** A `CoalescerIntParameter<var, lo, hi>` instance. */
  class IntParameter {
    const lo: int
    const hi: int
    var value: int

    predicate Valid()
      reads this
    {
      lo <= value <= hi
    }

    /** Ranges of the three instances: window 1..1000 (5), maxWait 10..60000 (100), maxWaiters 1..100000 (1000). */
    constructor(lo: int, hi: int, initial: int)
      requires lo <= initial <= hi
      ensures Valid()
      ensures this.lo == lo && this.hi == hi && value == initial
    {
      this.lo, this.hi := lo, hi;
      value := initial;
    }

    method Set(e: ParamValue) returns (st: Status)
      requires Valid()
      modifies this
      ensures Valid()
      ensures st.Success? <==> CheckInt(e, lo, hi).Ok?
      ensures st.Failure? ==> st.code == CheckInt(e, lo, hi).error && value == old(value)
      ensures st.Success? ==> value == Numeric(e)
    {
      var r := CheckInt(e, lo, hi);
      if r.Err? {
        return Failure(r.error);
      }
      value := r.value;
      st := Success;
    }

    method SetFromString(s: string) returns (st: Status)
      requires Valid()
      modifies this
      ensures Valid()
      ensures st.Success? <==> IntFromString(s, lo, hi).Ok?
      ensures st.Failure? ==> st.code == BadValue && value == old(value)
      ensures st.Success? ==> value == LeadingInteger(s).value
    {
      var r := IntFromString(s, lo, hi);
      if r.Err? {
        return Failure(r.error);
      }
      value := r.value;
      st := Success;
    }
  }

  /** `configQueryCoalescerMaxVersionGap`. */
  class VersionGapParameter {
    var value: int

    predicate Valid()
      reads this
    {
      MIN_VERSION_GAP <= value <= MAX_VERSION_GAP
    }

    constructor()
      ensures Valid() && value == 500
    {
      value := 500;
    }

    method Set(e: ParamValue) returns (st: Status)
      requires Valid()
      modifies this
      ensures Valid()
      ensures st.Success? <==> CheckVersionGap(e).Ok?
      ensures st.Failure? ==> st.code == CheckVersionGap(e).error && value == old(value)
      ensures st.Success? ==> value == NumberLong(e)
    {
      var r := CheckVersionGap(e);
      if r.Err? {
        return Failure(r.error);
      }
      value := r.value;
      st := Success;
    }

    method SetFromString(s: string) returns (st: Status)
      requires Valid()
      modifies this
      ensures Valid()
      ensures st.Success? <==> VersionGapFromString(s).Ok?
      ensures st.Failure? ==> st.code == BadValue && value == old(value)
      ensures st.Success? ==> value == LeadingInteger(s).value
    {
      var r := VersionGapFromString(s);
      if r.Err? {
        return Failure(r.error);
      }
      value := r.value;
      st := Success;
    }
  }
}
