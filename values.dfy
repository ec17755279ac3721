/**
 * ConfigValue: the value object returned by a lookup. It wraps one string,
 * where the empty string stands for "not found", and converts it on demand.
 */
module Values {
  import opened Text

  newtype Int32 = x: int | -0x8000_0000 <= x < 0x8000_0000
  newtype Int64 = x: int | -0x8000_0000_0000_0000 <= x < 0x8000_0000_0000_0000

  predicate IsDigit(c: char) {
    '0' <= c <= '9'
  }

  /** The longest prefix of s made of decimal digits (where strtol stops). */
  function DigitRun(s: string): (d: string)
    ensures |d| <= |s| && d == s[..|d|]
    ensures forall i :: 0 <= i < |d| ==> IsDigit(d[i])
    ensures |d| < |s| ==> !IsDigit(s[|d|])
  {
    if s != [] && IsDigit(s[0]) then
      var d := DigitRun(s[1..]);
      assert [s[0]] + d == s[..|d| + 1];
      [s[0]] + d
    else []
  }

  /** The number a string of decimal digits denotes. */
  function DecimalValue(d: string): int
    requires forall i :: 0 <= i < |d| ==> IsDigit(d[i])
  {
    if d == [] then 0 else DecimalValue(d[..|d| - 1]) * 10 + (d[|d| - 1] as int - '0' as int)
  }

  /**
   * The number strtol reads in base 10, before its range check: leading
   * whitespace is skipped, then an optional sign, then the longest run of
   * digits; text that does not start that way reads as 0.
   */
  function ParseDecimal(s: string): int {
    var t := LTrimCopy(s);
    if t != [] && t[0] == '-' then -DecimalValue(DigitRun(t[1..]))
    else if t != [] && t[0] == '+' then DecimalValue(DigitRun(t[1..]))
    else DecimalValue(DigitRun(t))
  }

  /** strtol's range check: out-of-range values become LONG_MIN or LONG_MAX. */
  function Saturate64(n: int): Int64 {
    if n < -0x8000_0000_0000_0000 then -0x8000_0000_0000_0000
    else if n >= 0x8000_0000_0000_0000 then 0x7FFF_FFFF_FFFF_FFFF
    else n as Int64
  }

  /** The conversion of a 64-bit long to a 32-bit int: keep the low 32 bits, two's complement. */
  function Truncate32(n: Int64): Int32 {
    var m := (n as int) % 0x1_0000_0000;
    (if m >= 0x8000_0000 then m - 0x1_0000_0000 else m) as Int32
  }

  datatype ConfigValue = ConfigValue(value: string) {

    /** asString: the wrapped text, or defValue when there is none. */
    function AsString(defValue: string := ""): string {
      if value == [] then defValue else value
    }

    /** asInt32: std::atoi of the wrapped text, or defValue when there is none. */
    function AsInt32(defValue: Int32 := 0): Int32 {
      if value == [] then defValue else Truncate32(Saturate64(ParseDecimal(value)))
    }

    /** asInt64: std::atol of the wrapped text, or defValue when there is none. */
    function AsInt64(defValue: Int64 := 0): Int64 {
      if value == [] then defValue else Saturate64(ParseDecimal(value))
    }
  }

  /**
   * The accessors return the supplied default exactly when the wrapped value
   * is empty: then every accessor yields its default, and otherwise no
   * accessor's result depends on the default.
   */
  lemma DefaultExactlyWhenEmpty(cv: ConfigValue, s1: string, s2: string, a1: Int32, a2: Int32, b1: Int64, b2: Int64)
    ensures cv.value == [] ==> cv.AsString(s1) == s1 && cv.AsInt32(a1) == a1 && cv.AsInt64(b1) == b1
    ensures cv.value != [] ==> cv.AsString(s1) == cv.value
    ensures cv.value != [] ==> cv.AsInt32(a1) == cv.AsInt32(a2) && cv.AsInt64(b1) == cv.AsInt64(b2)
  {
  }

  /** Called without an argument, asString falls back to "" and the integer accessors to 0. */
  lemma DefaultArguments(cv: ConfigValue)
    requires cv.value == []
    ensures cv.AsString() == "" && cv.AsInt32() == 0 && cv.AsInt64() == 0
  {
  }

  /** The decimal digits of n, most significant first. */
  function Digits(n: nat): (d: string)
    ensures d != []
    ensures forall i :: 0 <= i < |d| ==> IsDigit(d[i])
  {
    var last := ['0' + (n % 10) as char];
    if n < 10 then last else Digits(n / 10) + last
  }

  /** The decimal text of x, with a leading '-' when x is negative. */
  function Render(x: int): string {
    if x < 0 then "-" + Digits(-x) else Digits(x)
  }

  lemma {:induction false} DecimalValueOfDigits(n: nat)
    ensures DecimalValue(Digits(n)) == n
  {
    var d := Digits(n);
    if n >= 10 {
      assert d[..|d| - 1] == Digits(n / 10);
      DecimalValueOfDigits(n / 10);
    }
  }

  lemma DigitRunAll(d: string)
    requires forall i :: 0 <= i < |d| ==> IsDigit(d[i])
    ensures DigitRun(d) == d
  {
  }

  /** Reading back the decimal text of any integer gives that integer. */
  lemma ParseRender(x: int)
    ensures ParseDecimal(Render(x)) == x
  {
    var t := Render(x);
    var d := if x < 0 then Digits(-x) else Digits(x);
    assert !IsSpace(t[0]);
    assert LTrimCopy(t) == t;
    if x < 0 {
      assert t[1..] == d;
    }
    DigitRunAll(d);
    DecimalValueOfDigits(if x < 0 then -x else x);
  }

  lemma Truncate32InRange(n: Int64)
    requires -0x8000_0000 <= n < 0x8000_0000
    ensures Truncate32(n) as int == n as int
  {
    var m := (n as int) % 0x1_0000_0000;
    if n < 0 {
      assert m == n as int + 0x1_0000_0000;
    } else {
      assert m == n as int;
    }
  }

  /** asInt64 reads back any in-range integer written in decimal, whatever the default. */
  lemma Int64RoundTrip(x: int, b: Int64)
    requires -0x8000_0000_0000_0000 <= x < 0x8000_0000_0000_0000
    ensures ConfigValue(Render(x)).AsInt64(b) as int == x
  {
    ParseRender(x);
  }

  /** asInt32 reads back any in-range integer written in decimal, whatever the default. */
  lemma Int32RoundTrip(x: int, a: Int32)
    requires -0x8000_0000 <= x < 0x8000_0000
    ensures ConfigValue(Render(x)).AsInt32(a) as int == x
  {
    ParseRender(x);
    Truncate32InRange(x as Int64);
  }

  /** Text that does not start (after blanks) with a sign or a digit reads as 0, as with "abc". */
  lemma NonNumericIsZero(cv: ConfigValue, a: Int32, b: Int64)
    requires cv.value != []
    requires var t := LTrimCopy(cv.value); t == [] || (t[0] != '-' && t[0] != '+' && !IsDigit(t[0]))
    ensures cv.AsInt32(a) == 0 && cv.AsInt64(b) == 0
  {
  }
}
