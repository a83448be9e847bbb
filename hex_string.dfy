/**
 * `to_hex_string` and `from_hex_string` of helpers.hpp, which format and parse a
 * value of an integral type T in base 16 with `std::to_chars` and `std::from_chars`
 * (sections 20.19.2 [charconv.to.chars] and 20.19.3 [charconv.from.chars] of ISO C++20).
 * Values are unbounded integers; T's range is checked explicitly.
 */
module HexString {
  import opened Options

  type ByteCount = n: nat | n >= 1 witness 1

  /** An integral type T: `sizeof(T)` and `std::is_signed<T>`. */
  datatype IntType = IntType(size: ByteCount, signed: bool)

  function Pow16(k: nat): (r: nat)
    ensures r >= 1
  {
    if k == 0 then 1 else 16 * Pow16(k - 1)
  }

  /** The number of values of T: 256^sizeof(T) = 16^(2 sizeof(T)). */
  function Span(t: IntType): nat {
    Pow16(2 * t.size)
  }

  function Min(t: IntType): int {
    if t.signed then -(Span(t) / 2) else 0
  }

  function Max(t: IntType): int {
    if t.signed then Span(t) / 2 - 1 else Span(t) - 1
  }

  predicate InRange(t: IntType, x: int) {
    Min(t) <= x <= Max(t)
  }

  /** The size of the buffer `to_hex_string` writes into. */
  function BufferSize(t: IntType): nat {
    if t.signed then 2 * t.size + 1 else 2 * t.size
  }

  function Abs(x: int): nat {
    if x < 0 then -x else x
  }

  // ---------------------------------------------------------------------------
  // Digits

  predicate IsLowerHexDigit(c: char) {
    ('0' <= c <= '9') || ('a' <= c <= 'f')
  }

  /** A base-16 digit in either case, as `from_chars` accepts it. */
  predicate IsHexDigit(c: char) {
    ('0' <= c <= '9') || ('a' <= c <= 'f') || ('A' <= c <= 'F')
  }

  predicate AllHexDigits(s: string) {
    forall i :: 0 <= i < |s| ==> IsHexDigit(s[i])
  }

  function DigitValue(c: char): (d: nat)
    requires IsHexDigit(c)
    ensures d < 16
  {
    if '0' <= c <= '9' then c as int - '0' as int
    else if 'a' <= c <= 'f' then c as int - 'a' as int + 10
    else c as int - 'A' as int + 10
  }

  /** The lowercase digit `to_chars` writes for `d`. */
  function DigitChar(d: nat): (c: char)
    requires d < 16
    ensures IsLowerHexDigit(c) && IsHexDigit(c) && DigitValue(c) == d
  {
    if d < 10 then ('0' as int + d) as char else ('a' as int + d - 10) as char
  }

  /** The value of a string of base-16 digits, most significant first. */
  function Value(s: string): nat
    requires AllHexDigits(s)
  {
    if |s| == 0 then 0 else Value(s[..|s| - 1]) * 16 + DigitValue(s[|s| - 1])
  }

  /**
   * The digits of `n` in base 16: lowercase, without redundant leading zeros
   * ("0" for zero), and denoting `n`.
   */
  function HexDigits(n: nat): (r: string)
    ensures |r| >= 1
    ensures forall i :: 0 <= i < |r| ==> IsLowerHexDigit(r[i])
    ensures AllHexDigits(r)
    ensures r[0] == '0' <==> n == 0
    ensures n == 0 ==> r == "0"
    ensures Value(r) == n
    decreases n
  {
    if n < 16 then [DigitChar(n)]
    else
      var r := HexDigits(n / 16) + [DigitChar(n % 16)];
      assert r[..|r| - 1] == HexDigits(n / 16);
      r
  }

  /** The k-digit bound: a value below 16^k needs at most k digits. */
  lemma {:induction false} DigitsLength(n: nat, k: nat)
    requires k >= 1 && n < Pow16(k)
    ensures |HexDigits(n)| <= k
  {
    if n >= 16 {
      assert k >= 2;
      DigitsLength(n / 16, k - 1);
    }
  }

  // ---------------------------------------------------------------------------
  // Formatting: [charconv.to.chars]

  /** The representation `to_chars` gives `x` in base 16: '-' for negatives, then the digits. */
  function HexText(x: int): (r: string)
    ensures |r| >= 1
    ensures r[0] == '-' <==> x < 0
    ensures var m := if x < 0 then r[1..] else r;
      && |m| >= 1
      && (forall i :: 0 <= i < |m| ==> IsLowerHexDigit(m[i]))
      && (|m| > 1 ==> m[0] != '0')
      && Value(m) == Abs(x)
  {
    if x < 0 then
      var d := HexDigits(-x);
      assert (['-'] + d)[1..] == d;
      ['-'] + d
    else HexDigits(x)
  }

  /**
   * `to_chars(first, first + capacity, x, 16)`: the characters written, or None
   * (`errc::value_too_large`) when they do not fit.
   */
  function ToChars(capacity: nat, x: int): (r: Option<string>)
    ensures r.Some? <==> |HexText(x)| <= capacity
  {
    if |HexText(x)| <= capacity then Some(HexText(x)) else None
  }

  /** Every value of T fits the buffer: at most 2 sizeof(T) digits, plus one for a sign. */
  lemma BufferIsLargeEnough(t: IntType, x: int)
    requires InRange(t, x)
    ensures |HexText(x)| <= BufferSize(t)
  {
    DigitsLength(Abs(x), 2 * t.size);
  }

  /** The digits that follow the sign, if any. */
  function Magnitude(r: string): string {
    if |r| > 0 && r[0] == '-' then r[1..] else r
  }

  /**
   * `to_hex_string<T>(x)`: the string made of the characters `to_chars` wrote. It is
   * no longer than the buffer, starts with '-' exactly for negative values, and the
   * rest is the canonical lowercase base-16 form of |x|.
   */
  function ToHexString(t: IntType, x: int): (r: string)
    requires InRange(t, x)
    ensures |r| <= BufferSize(t)
    ensures (|r| > 0 && r[0] == '-') <==> x < 0
    ensures !t.signed ==> '-' !in r
    ensures var m := Magnitude(r);
      && |m| >= 1
      && (forall i :: 0 <= i < |m| ==> IsLowerHexDigit(m[i]))
      && AllHexDigits(m)
      && (|m| > 1 ==> m[0] != '0')
      && Value(m) == Abs(x)
  {
    BufferIsLargeEnough(t, x);
    var r := ToChars(BufferSize(t), x).value;
    assert x < 0 ==> Magnitude(r) == HexDigits(-x);
    r
  }

  // ---------------------------------------------------------------------------
  // Parsing: [charconv.from.chars]

  /** The length of the longest prefix of base-16 digits. */
  function DigitRun(s: string): (k: nat)
    ensures k <= |s|
    ensures forall i :: 0 <= i < k ==> IsHexDigit(s[i])
    ensures k < |s| ==> !IsHexDigit(s[k])
  {
    if |s| == 0 || !IsHexDigit(s[0]) then 0 else 1 + DigitRun(s[1..])
  }

  /** The value with magnitude `mag`, negated when `neg`. */
  function Signed(neg: bool, mag: nat): int {
    if neg then -(mag as int) else mag
  }

  /** What `from_chars` reports: the value and the characters read, or an error. */
  datatype FromCharsResult = Parsed(value: int, consumed: nat) | InvalidArgument | OutOfRange(consumed: nat)

  /**
   * `from_chars(first, last, value, 16)` for T: an optional '-' (signed T only),
   * then the longest run of digits in either case; no whitespace, '+' or "0x".
   * Without a digit, `errc::invalid_argument`; a value outside T,
   * `errc::result_out_of_range`. In both cases `value` is not written.
   */
  function FromChars(t: IntType, s: string): (r: FromCharsResult)
    ensures r.InvalidArgument? <==>
      !(|s| > 0 && IsHexDigit(s[0])) && !(t.signed && |s| > 1 && s[0] == '-' && IsHexDigit(s[1]))
    ensures r.Parsed? ==> InRange(t, r.value)
    ensures r.Parsed? && r.value < 0 ==> t.signed && s[0] == '-'
    ensures r.Parsed? || r.OutOfRange? ==>
      && 1 <= r.consumed <= |s|
      && var sign := if t.signed && s[0] == '-' then 1 else 0;
      && sign < r.consumed
      && (forall i :: sign <= i < r.consumed ==> IsHexDigit(s[i]))
      && (r.consumed < |s| ==> !IsHexDigit(s[r.consumed]))
      && AllHexDigits(s[sign..r.consumed])
      && var v := Signed(sign == 1, Value(s[sign..r.consumed]));
      && (r.Parsed? <==> InRange(t, v))
      && (r.Parsed? ==> r.value == v)
  {
    var neg := t.signed && |s| > 0 && s[0] == '-';
    var body := if neg then s[1..] else s;
    var k := DigitRun(body);
    var sign := if neg then 1 else 0;
    if k == 0 then InvalidArgument
    else
      assert body[..k] == s[sign..sign + k];
      var v := Signed(neg, Value(body[..k]));
      if InRange(t, v) then Parsed(v, sign + k) else OutOfRange(sign + k)
  }

  /**
   * `from_hex_string<T>(s)`: the parsed value, or None where `from_chars` leaves
   * the uninitialised `result` unwritten and its value is indeterminate.
   */
  function FromHexString(t: IntType, s: string): (r: Option<int>)
    ensures r.Some? ==> InRange(t, r.value)
    ensures !(|s| > 0 && IsHexDigit(s[0])) && !(t.signed && |s| > 1 && s[0] == '-' && IsHexDigit(s[1]))
            ==> r.None?
    ensures r.Some? && r.value < 0 ==> t.signed && |s| > 0 && s[0] == '-'
    ensures var sign := if t.signed && |s| > 0 && s[0] == '-' then 1 else 0;
      var k := DigitRun(s[sign..]);
      k >= 1 ==>
        var v := Signed(sign == 1, Value(s[sign..sign + k]));
        r == (if InRange(t, v) then Some(v) else None)
  {
    match FromChars(t, s)
    case Parsed(v, _) => Some(v)
    case _ => None
  }

  lemma {:induction false} DigitRunOfDigits(d: string, rest: string)
    requires AllHexDigits(d)
    requires rest == [] || !IsHexDigit(rest[0])
    ensures DigitRun(d + rest) == |d|
    ensures (d + rest)[..|d|] == d
  {
    var s := d + rest;
    assert forall i :: 0 <= i < |d| ==> s[i] == d[i];
    assert |d| < |s| ==> s[|d|] == rest[0];
  }

  /** Parsing a sign (where T admits one), digits, and a non-digit terminator. */
  lemma {:induction false} ParseBody(t: IntType, neg: bool, s: string, m: string, rest: string)
    requires neg ==> t.signed
    requires |m| >= 1 && AllHexDigits(m)
    requires DigitRun(m + rest) == |m| && (m + rest)[..|m|] == m
    requires s == (if neg then "-" + (m + rest) else m + rest)
    requires InRange(t, Signed(neg, Value(m)))
    ensures FromHexString(t, s) == Some(Signed(neg, Value(m)))
  {
    if neg {
      assert s[0] == '-' && s[1..] == m + rest;
    } else {
      assert s[0] == m[0];
    }
  }

  /** `to_hex_string` writes exactly what `to_chars` produces for the value. */
  lemma ToHexStringIsHexText(t: IntType, x: int)
    requires InRange(t, x)
    ensures ToHexString(t, x) == HexText(x)
  {
    BufferIsLargeEnough(t, x);
  }

  /** The text of `x` followed by `rest` is an optional '-', the digits of |x|, then `rest`. */
  lemma HexTextThen(x: int, rest: string)
    ensures HexText(x) + rest == (if x < 0 then "-" + (HexDigits(Abs(x)) + rest) else HexDigits(Abs(x)) + rest)
  {
    if x < 0 {
      assert HexText(x) == "-" + HexDigits(-x);
    }
  }

  /** Parsing the base-16 text of a value of T, then a non-digit, gives the value. */
  lemma {:induction false} ParseHexText(t: IntType, x: int, rest: string)
    requires InRange(t, x)
    requires rest == [] || !IsHexDigit(rest[0])
    ensures FromHexString(t, HexText(x) + rest) == Some(x)
  {
    var m := HexDigits(Abs(x));
    DigitRunOfDigits(m, rest);
    HexTextThen(x, rest);
    assert Signed(x < 0, Value(m)) == x;
    ParseBody(t, x < 0, HexText(x) + rest, m, rest);
  }

  /**
   * Round trip with a terminator: parsing what `to_hex_string` wrote, followed by
   * anything that does not start with a digit, gives the value back.
   */
  lemma RoundTripWithSuffix(t: IntType, x: int, rest: string)
    requires InRange(t, x)
    requires rest == [] || !IsHexDigit(rest[0])
    ensures FromHexString(t, ToHexString(t, x) + rest) == Some(x)
  {
    ToHexStringIsHexText(t, x);
    ParseHexText(t, x, rest);
  }

  /** Round trip: `from_hex_string<T>(to_hex_string<T>(x)) == x` for every value of T. */
  lemma RoundTrip(t: IntType, x: int)
    requires InRange(t, x)
    ensures FromHexString(t, ToHexString(t, x)) == Some(x)
  {
    RoundTripWithSuffix(t, x, []);
    assert ToHexString(t, x) + [] == ToHexString(t, x);
  }

  /** The lowercase form of a digit. */
  function LowerDigit(c: char): (l: char)
    requires IsHexDigit(c)
    ensures IsHexDigit(l) && DigitValue(l) == DigitValue(c)
  {
    if 'A' <= c <= 'F' then (c as int - 'A' as int + 'a' as int) as char else c
  }

  /** Digits in either case have the same value. */
  lemma {:induction false} ValueIgnoresCase(s: string, l: string)
    requires AllHexDigits(s) && |l| == |s|
    requires forall i :: 0 <= i < |s| ==> l[i] == LowerDigit(s[i])
    ensures AllHexDigits(l) && Value(l) == Value(s)
  {
    if |s| > 0 {
      ValueIgnoresCase(s[..|s| - 1], l[..|l| - 1]);
    }
  }

  /** Digits are read in either case, up to the width of T. */
  lemma FromHexStringReadsEitherCase()
    ensures FromHexString(IntType(1, false), "FF") == Some(255)
    ensures FromHexString(IntType(1, false), "ff") == Some(255)
  {
    assert Pow16(2) == 256;
    assert "FF"[..2] == "FF";
    assert "FF"[..1] == "F";
    assert "ff"[..2] == "ff";
    assert "ff"[..1] == "f";
  }

  /**
   * No result for unsigned T: "100" is out of range, and in "-1" the '-' is not
   * admitted, so no digit starts the input (`errc::invalid_argument`).
   */
  lemma FromHexStringRejectsOutOfRange()
    ensures FromHexString(IntType(1, false), "100") == None
    ensures FromHexString(IntType(1, false), "-1") == None
  {
    assert Pow16(2) == 256;
    assert "100"[..3] == "100";
    assert "100"[..2] == "10";
    assert "100"[..1] == "1";
    assert "10"[..1] == "1";
    assert Value("1") == 1;
    assert Value("10") == 16;
    assert Value("100") == 256;
  }

  /** A signed T reads a leading '-', down to its minimum. */
  lemma FromHexStringReadsMinimum()
    ensures FromHexString(IntType(1, true), "-80") == Some(-128)
  {
    assert Pow16(2) == 256;
    assert "-80"[1..] == "80";
    assert "80"[..2] == "80";
    assert "80"[..1] == "8";
    assert Value("8") == 8;
    assert Value("80") == 128;
  }

  /** Parsing stops at the first non-digit; without a digit there is no result. */
  lemma FromHexStringStopsAtNonDigit()
    ensures FromHexString(IntType(4, false), "0x1f") == Some(0)
    ensures FromHexString(IntType(4, true), "-") == None
    ensures FromHexString(IntType(4, true), "") == None
  {
    assert Pow16(8) == 4294967296;
    assert "0x1f"[..1] == "0";
    assert "0x1f"[1..] == "x1f";
    assert !IsHexDigit('x');
    assert DigitRun("0x1f") == 1;
    assert Value("0") == 0;
  }
}
