/**
 * Decimal integers as the modelled programs read and print them: the
 * standard library's `from_str` for the integer types (`str::parse::<i32>()`,
 * `str::parse::<usize>()`) and the `{}` formatting of an unsigned integer.
 */
module Decimal {
  import opened Wrappers

  const I32_MIN: int := -0x8000_0000
  const I32_MAX: int := 0x7FFF_FFFF
  const USIZE_MAX: int := 0xFFFF_FFFF_FFFF_FFFF

  /** The kinds of `ParseIntError` that integer parsing reports. */
  datatype IntErrorKind = Empty | InvalidDigit | PosOverflow | NegOverflow

  /** The text `ParseIntError`'s `Display` produces for each kind. */
  function Message(k: IntErrorKind): string
  {
    match k
    case Empty => "cannot parse integer from empty string"
    case InvalidDigit => "invalid digit found in string"
    case PosOverflow => "number too large to fit in target type"
    case NegOverflow => "number too small to fit in target type"
  }

  predicate IsDigit(c: char)
  {
    '0' <= c <= '9'
  }

  function DigitValue(c: char): (d: nat)
    requires IsDigit(c)
    ensures d < 10
  {
    (c as int) - ('0' as int)
  }

  function DigitChar(d: nat): (c: char)
    requires d < 10
    ensures IsDigit(c) && DigitValue(c) == d
  {
    (('0' as int) + d) as char
  }

  /** Decimal rendering of a natural number, as `format!("{}", n)` prints it. */
  function NatToString(n: nat): (s: string)
    ensures |s| > 0
    ensures forall i :: 0 <= i < |s| ==> IsDigit(s[i])
    decreases n
  {
    if n < 10 then [DigitChar(n)] else NatToString(n / 10) + [DigitChar(n % 10)]
  }

  /**
   * The digit loop of integer parsing: left to right, each character is first
   * checked to be a digit, then the running value is multiplied by ten and the
   * digit added (subtracted for a negative number); leaving the target range
   * stops with an overflow error at once.
   */
  function Accumulate(digits: string, acc: int, negative: bool, min: int, max: int): Result<int, IntErrorKind>
    decreases |digits|
  {
    if digits == [] then Ok(acc)
    else if !IsDigit(digits[0]) then Err(InvalidDigit)
    else
      var next := if negative then acc * 10 - DigitValue(digits[0]) else acc * 10 + DigitValue(digits[0]);
      if negative && next < min then Err(NegOverflow)
      else if !negative && next > max then Err(PosOverflow)
      else Accumulate(digits[1..], next, negative, min, max)
  }

  /**
   * `from_str` for an integer type with range [min, max]: an optional `+`
   * (or `-` when the type is signed) followed by the digits; a lone sign is an
   * invalid digit, and so is `-` for an unsigned type.
   */
  function ParseInteger(s: string, min: int, max: int): (r: Result<int, IntErrorKind>)
    requires min <= 0 <= max
    ensures r.Ok? ==> min <= r.value <= max
    ensures r == Err(Empty) <==> s == []
  {
    if s == [] then Err(Empty)
    else if (s[0] == '+' || s[0] == '-') && |s| == 1 then Err(InvalidDigit)
    else if s[0] == '+' then AccumulateRange(s[1..], 0, false, min, max); Accumulate(s[1..], 0, false, min, max)
    else if s[0] == '-' && min < 0 then AccumulateRange(s[1..], 0, true, min, max); Accumulate(s[1..], 0, true, min, max)
    else AccumulateRange(s, 0, false, min, max); Accumulate(s, 0, false, min, max)
  }

  function ParseI32(s: string): Result<int, IntErrorKind>
  {
    ParseInteger(s, I32_MIN, I32_MAX)
  }

  function ParseUsize(s: string): Result<int, IntErrorKind>
  {
    ParseInteger(s, 0, USIZE_MAX)
  }

  lemma {:induction false} AccumulateRange(digits: string, acc: int, negative: bool, min: int, max: int)
    requires min <= acc <= max
    requires if negative then acc <= 0 else acc >= 0
    ensures Accumulate(digits, acc, negative, min, max) != Err(Empty)
    ensures Accumulate(digits, acc, negative, min, max).Ok? ==> min <= Accumulate(digits, acc, negative, min, max).value <= max
    decreases |digits|
  {
    if digits != [] && IsDigit(digits[0]) {
      var next := if negative then acc * 10 - DigitValue(digits[0]) else acc * 10 + DigitValue(digits[0]);
      if !(negative && next < min) && !(!negative && next > max) {
        AccumulateRange(digits[1..], next, negative, min, max);
      }
    }
  }

  /** Parsing a string in two pieces is parsing the first, then carrying on from its value. */
  lemma {:induction false} AccumulateAppend(a: string, b: string, acc: int, negative: bool, min: int, max: int)
    ensures Accumulate(a + b, acc, negative, min, max) ==
            match Accumulate(a, acc, negative, min, max)
            case Ok(v) => Accumulate(b, v, negative, min, max)
            case Err(e) => Err(e)
    decreases |a|
  {
    if a != [] {
      assert (a + b)[0] == a[0];
      assert (a + b)[1..] == a[1..] + b;
      if IsDigit(a[0]) {
        var next := if negative then acc * 10 - DigitValue(a[0]) else acc * 10 + DigitValue(a[0]);
        AccumulateAppend(a[1..], b, next, negative, min, max);
      }
    } else {
      assert a + b == b;
    }
  }

  lemma {:induction false} AccumulateNatToString(n: nat, negative: bool, min: int, max: int)
    requires if negative then min + n <= 0 else n <= max
    ensures Accumulate(NatToString(n), 0, negative, min, max) == Ok(if negative then -(n as int) else n)
    decreases n
  {
    var d := DigitChar(n % 10);
    if n < 10 {
      assert NatToString(n)[1..] == [];
    } else {
      AccumulateNatToString(n / 10, negative, min, max);
      AccumulateAppend(NatToString(n / 10), [d], 0, negative, min, max);
      assert [d][1..] == [];
    }
  }

  /** Printing a value of the target type and parsing it back gives the value. */
  lemma ParseNatToString(n: nat, min: int, max: int)
    requires min <= 0 <= max && n <= max
    ensures ParseInteger(NatToString(n), min, max) == Ok(n)
  {
    AccumulateNatToString(n, false, min, max);
  }

  /** The same for a negative number written with a leading `-` (signed types only). */
  lemma ParseNegatedNatToString(n: nat, min: int, max: int)
    requires min < 0 <= max && min + n <= 0
    ensures ParseInteger("-" + NatToString(n), min, max) == Ok(-(n as int))
  {
    AccumulateNatToString(n, true, min, max);
    assert ("-" + NatToString(n))[1..] == NatToString(n);
  }

  lemma {:induction false} AccumulateNonDigit(digits: string, k: nat, acc: int, negative: bool, min: int, max: int)
    requires k < |digits| && !IsDigit(digits[k])
    ensures Accumulate(digits, acc, negative, min, max).Err?
    decreases k
  {
    if k > 0 && IsDigit(digits[0]) {
      var next := if negative then acc * 10 - DigitValue(digits[0]) else acc * 10 + DigitValue(digits[0]);
      AccumulateNonDigit(digits[1..], k - 1, next, negative, min, max);
    }
  }

  /** A character that is neither a digit nor the leading sign makes parsing fail. */
  lemma ParseRejectsNonDigit(s: string, k: nat, min: int, max: int)
    requires min <= 0 <= max
    requires k < |s| && !IsDigit(s[k])
    requires k == 0 ==> s[0] != '+' && s[0] != '-'
    ensures ParseInteger(s, min, max).Err?
  {
    if s[0] == '+' || (s[0] == '-' && min < 0) {
      if |s| > 1 {
        AccumulateNonDigit(s[1..], k - 1, 0, s[0] == '-', min, max);
      }
    } else {
      AccumulateNonDigit(s, k, 0, false, min, max);
    }
  }
}
