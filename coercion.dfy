/**
 * Field coercion: the type switches of models/article.go that turn a
 * loosely typed request value (a Go `interface{}`) into an `int`.
 *
 * Go's `int` is 64 bits wide here. Dafny's `int` is unbounded, so the one
 * place where the width shows -- `com.StrTo(s).MustInt()`, which is
 * `strconv.ParseInt(s, 10, 0)` with the error dropped -- states it
 * explicitly: the unsigned scan stops at 2^64 - 1, and the signed result is
 * clamped to the 64-bit range.
 */
module Coercion {
  import opened Wrappers

  const MinInt64: int := -0x8000_0000_0000_0000
  const MaxInt64: int := 0x7fff_ffff_ffff_ffff
  const MaxUint64: int := 0xffff_ffff_ffff_ffff

  type Pos = n: int | n > 0 witness 1

  /**
   * A value as JSON decoding into `map[string]interface{}` (or Go code
   * filling such a map) produces it. A float64 is a dyadic rational, so it
   * is held exactly as `num / den`; NaN and infinities never come out of a
   * JSON decoder. A JSON array keeps only its length, which is all the
   * validation rules look at.
   */
  datatype Value =
    | NullV
    | BoolV(b: bool)
    | IntV(i: int)
    | FloatV(num: int, den: Pos)
    | StrV(s: string)
    | ListV(len: nat)
    | ObjectV

  /** The value stored under `key`; a missing key reads as Go's nil. */
  function Param(params: map<string, Value>, key: string): (v: Value)
    ensures key !in params ==> v == NullV
    ensures key in params ==> v == params[key]
  {
    if key in params then params[key] else NullV
  }

  predicate IsDigit(c: char) {
    '0' <= c <= '9'
  }

  predicate AllDigits(s: string) {
    forall i :: 0 <= i < |s| ==> IsDigit(s[i])
  }

  /** The value of a string of decimal digits, most significant first. */
  function DigitsValue(s: string): nat
    requires AllDigits(s)
    decreases |s|
  {
    if s == [] then 0 else DigitsValue(s[..|s| - 1]) * 10 + (s[|s| - 1] as int - '0' as int)
  }

  /** Whether the string starts with a `+` or `-` sign. */
  predicate Signed(s: string) {
    |s| > 0 && (s[0] == '+' || s[0] == '-')
  }

  /** The text after an optional leading sign. */
  function Unsigned(s: string): (u: string)
    ensures |u| <= |s|
  {
    if Signed(s) then s[1..] else s
  }

  /**
   * The longest run of decimal digits at the start of `s`: the digits
   * `ParseUint` accumulates before it meets anything else.
   */
  function LeadingDigits(s: string): (run: string)
    ensures AllDigits(run) && |run| <= |s| && run == s[..|run|]
    ensures |run| < |s| ==> !IsDigit(s[|run|])
    decreases |s|
  {
    if s != [] && IsDigit(s[0]) then [s[0]] + LeadingDigits(s[1..]) else []
  }

  /**
   * The syntax check of `strconv.ParseInt(s, 10, _)`: an optional `+` or
   * `-`, then one or more decimal digits and nothing else. `None` is the
   * syntax error; `Some(n)` is the exact value before the range check.
   */
  function ParseDecimal(s: string): (r: Option<int>)
    ensures r.Some? ==> |s| > 0
    ensures r.None? <==> Unsigned(s) == [] || !AllDigits(Unsigned(s))
  {
    var neg := |s| > 0 && s[0] == '-';
    var digits := Unsigned(s);
    if digits == [] || !AllDigits(digits) then None
    else
      var v: int := DigitsValue(digits);
      Some(if neg then -v else v)
  }

  /**
   * `ParseUint`'s range error: the digits it reads, one at a time, exceed
   * 2^64 - 1 before it reaches the end of the digit run. It stops there,
   * so a character after the run that is not a digit is never seen.
   */
  predicate Overflows(s: string) {
    DigitsValue(LeadingDigits(Unsigned(s))) > MaxUint64
  }

  /** The range check of `ParseInt` with bit size 64: out of range yields the nearest bound. */
  function Clamp64(n: int): (r: int)
    ensures MinInt64 <= r <= MaxInt64
    ensures MinInt64 <= n <= MaxInt64 ==> r == n
    ensures n < MinInt64 ==> r == MinInt64
    ensures n > MaxInt64 ==> r == MaxInt64
  {
    if n < MinInt64 then MinInt64 else if n > MaxInt64 then MaxInt64 else n
  }

  /**
   * `com.StrTo(s).MustInt()`, that is `strconv.ParseInt(s, 10, 0)` with the
   * error dropped: a range error in the digit run gives the bound of the
   * sign, whatever follows; otherwise a syntax error gives 0, and a
   * well-formed number its value clamped to 64 bits.
   */
  function MustInt(s: string): (r: int)
    ensures MinInt64 <= r <= MaxInt64
    ensures Overflows(s) ==> r == (if |s| > 0 && s[0] == '-' then MinInt64 else MaxInt64)
    ensures !Overflows(s) && ParseDecimal(s).None? ==> r == 0
  {
    if Overflows(s) then
      (if |s| > 0 && s[0] == '-' then MinInt64 else MaxInt64)
    else
      match ParseDecimal(s)
      case None => 0
      case Some(n) => Clamp64(n)
  }

  /** Go's conversion `int(f)` of a float: truncation toward zero (Dafny's `/` floors for a positive divisor). */
  function TruncTowardZero(num: int, den: Pos): (r: int)
  {
    if num >= 0 then num / den else -((-num) / den)
  }

  /**
   * The type switch of models/article.go: an int passes through, a string
   * goes through `MustInt`, a float64 is truncated, and any other type
   * (including a missing key, which is nil) leaves the caller's default.
   */
  function CoerceInt(v: Value, default: int): int
  {
    match v
    case IntV(i) => i
    case StrV(s) => MustInt(s)
    case FloatV(num, den) => TruncTowardZero(num, den)
    case _ => default
  }

  /** Whether the type switch has a case for this value's dynamic type. */
  predicate IsNumeric(v: Value) {
    v.IntV? || v.StrV? || v.FloatV?
  }

  // ----- decimal rendering (strconv.Itoa), the partner of MustInt -----

  function DigitChar(d: int): char
    requires 0 <= d < 10
  {
    ('0' as int + d) as char
  }

  /** The decimal digits of a natural number, without leading zeros. */
  function Digits(n: nat): (s: string)
    decreases n
  {
    if n < 10 then [DigitChar(n)] else Digits(n / 10) + [DigitChar(n % 10)]
  }

  /** `strconv.Itoa(n)`. */
  function Itoa(n: int): string {
    if n < 0 then "-" + Digits(-n) else Digits(n)
  }

  lemma {:induction false} DigitsRoundTrip(n: nat)
    ensures |Digits(n)| > 0 && AllDigits(Digits(n))
    ensures DigitsValue(Digits(n)) == n
    decreases n
  {
    if n >= 10 {
      DigitsRoundTrip(n / 10);
      var s := Digits(n);
      assert s[..|s| - 1] == Digits(n / 10);
    }
  }

  /** A string of digits is its own leading run. */
  lemma {:induction false} LeadingDigitsOfDigits(s: string)
    requires AllDigits(s)
    ensures LeadingDigits(s) == s
    decreases |s|
  {
    if s != [] {
      LeadingDigitsOfDigits(s[1..]);
    }
  }

  /** Parsing what `Itoa` prints gives the number back: decimal strings and ints agree. */
  lemma MustIntItoa(n: int)
    requires MinInt64 <= n <= MaxInt64
    ensures MustInt(Itoa(n)) == n
  {
    var s := Itoa(n);
    var m: nat := if n < 0 then -n else n;
    var d := Digits(m);
    DigitsRoundTrip(m);
    assert Unsigned(s) == d by {
      if n < 0 {
        assert s[1..] == d;
      }
    }
    assert !Overflows(s) by {
      LeadingDigitsOfDigits(d);
    }
    assert ParseDecimal(s) == Some(n);
  }

  /**
   * A string that is not an optional sign followed by decimal digits reads
   * as 0, provided its leading digits stay within 2^64 - 1.
   */
  lemma MustIntRejectsNonDigit(s: string, k: int)
    requires 0 <= k < |s| && !IsDigit(s[k])
    requires k > 0 || (s[0] != '+' && s[0] != '-')
    requires !Overflows(s)
    ensures MustInt(s) == 0
  {
    var digits := Unsigned(s);
    if Signed(s) {
      assert digits[k - 1] == s[k];
    } else {
      assert digits[k] == s[k];
    }
  }

  /**
   * A run of digits above 2^64 - 1 decides the result before anything after
   * it is read: after an optional sign and followed by any text that does
   * not start with a digit, it reads as the 64-bit bound of that sign, not
   * as a syntax error.
   */
  lemma OverflowBeforeJunk(sign: string, digits: string, rest: string)
    requires sign == "" || sign == "+" || sign == "-"
    requires |digits| > 0 && AllDigits(digits) && DigitsValue(digits) > MaxUint64
    requires rest == [] || !IsDigit(rest[0])
    ensures MustInt(sign + (digits + rest)) == if sign == "-" then MinInt64 else MaxInt64
  {
    var u := digits + rest;
    var s := sign + u;
    assert Unsigned(s) == u && (s[0] == '-' <==> sign == "-") by {
      if sign == "" {
        assert s == u && s[0] == digits[0];
      } else {
        assert s[1..] == u;
      }
    }
    assert Overflows(s) by {
      LeadingDigitsAppend(digits, rest);
    }
  }

  /** The leading run of digits followed by text that does not start with a digit is those digits. */
  lemma {:induction false} LeadingDigitsAppend(digits: string, rest: string)
    requires AllDigits(digits)
    requires rest == [] || !IsDigit(rest[0])
    ensures LeadingDigits(digits + rest) == digits
    decreases |digits|
  {
    if digits == [] {
      assert digits + rest == rest;
    } else {
      assert (digits + rest)[1..] == digits[1..] + rest;
      LeadingDigitsAppend(digits[1..], rest);
    }
  }

  /** Euclidean division of a natural number by a positive one, as products. */
  lemma FloorDivBounds(a: nat, den: Pos)
    ensures 0 <= a / den
    ensures (a / den) * den <= a < (a / den) * den + den
  {
    assert a == (a / den) * den + a % den;
  }

  /** `int(f)` drops the fraction: the result is the integer part of `num / den`, with the sign of `num`. */
  lemma TruncTowardZeroBounds(num: int, den: Pos)
    ensures var r := TruncTowardZero(num, den);
      (num >= 0 ==> 0 <= r && r * den <= num < r * den + den) &&
      (num < 0 ==> r <= 0 && r * den - den < num <= r * den)
  {
    if num >= 0 {
      FloorDivBounds(num, den);
    } else {
      var q := (-num) / den;
      FloorDivBounds(-num, den);
      assert (-q) * den == -(q * den);
    }
  }

  /**
   * The three numeric encodings of one number coerce to it: the int `n`,
   * the string `Itoa(n)` and the float `n.0`. A value the switch does not
   * handle yields the default.
   */
  lemma CoercionAgrees(n: int, default: int)
    requires MinInt64 <= n <= MaxInt64
    ensures CoerceInt(IntV(n), default) == n
    ensures CoerceInt(StrV(Itoa(n)), default) == n
    ensures CoerceInt(FloatV(n, 1), default) == n
    ensures forall v :: !IsNumeric(v) ==> CoerceInt(v, default) == default
  {
    var s := Itoa(n);
    assert CoerceInt(StrV(s), default) == n by {
      MustIntItoa(n);
    }
    assert CoerceInt(FloatV(n, 1), default) == n by {
      assert TruncTowardZero(n, 1) == n;
    }
  }
}
