/** Rust's `str::parse::<i32>` (decimal `from_str_radix`) and the `Display`
    of an `i32`, which the decoder and the response writer use. */
module RustInt {
  import opened Models

  /** The kind carried by Rust's `ParseIntError`. */
  datatype IntErrorKind = Empty | InvalidDigit | PosOverflow | NegOverflow

  predicate IsDigit(c: char) {
    '0' <= c <= '9'
  }

  function DigitValue(c: char): (d: int)
    ensures 0 <= d <= 9
  {
    if IsDigit(c) then c as int - '0' as int else 0
  }

  predicate AllDigits(s: string) {
    forall i :: 0 <= i < |s| ==> IsDigit(s[i])
  }

  /** The number an ASCII decimal numeral denotes, last digit lowest. */
  function DecimalValue(ds: string): int {
    if ds == [] then 0 else DecimalValue(ds[..|ds| - 1]) * 10 + DigitValue(ds[|ds| - 1])
  }

  /** The digits of a literal, after an optional leading sign. */
  function Unsigned(s: string): string {
    if |s| > 0 && (s[0] == '+' || s[0] == '-') then s[1..] else s
  }

  predicate IsNegative(s: string) {
    |s| > 0 && s[0] == '-'
  }

  function SignedValue(s: string): int {
    if IsNegative(s) then -DecimalValue(Unsigned(s)) else DecimalValue(Unsigned(s))
  }

  /** What `parse::<i32>` accepts: an optional `+` or `-`, then at least one
      ASCII digit and nothing else, denoting a value within the `i32` range. */
  predicate IsI32Literal(s: string) {
    && |Unsigned(s)| > 0
    && AllDigits(Unsigned(s))
    && I32_MIN <= SignedValue(s) <= I32_MAX
  }

  /** The digit loop of `from_str_radix`, left to right: a non-digit is
      `InvalidDigit`, an accumulator leaving the range is an overflow. */
  function ParseDigits(ds: string, positive: bool, acc: int): Result<int, IntErrorKind>
    requires if positive then 0 <= acc <= I32_MAX else I32_MIN <= acc <= 0
  {
    if ds == [] then Ok(acc)
    else if !IsDigit(ds[0]) then Err(InvalidDigit)
    else if positive then
      var next := acc * 10 + DigitValue(ds[0]);
      if next > I32_MAX then Err(PosOverflow) else ParseDigits(ds[1..], positive, next)
    else
      var next := acc * 10 - DigitValue(ds[0]);
      if next < I32_MIN then Err(NegOverflow) else ParseDigits(ds[1..], positive, next)
  }

  /** `s.parse::<i32>()`. */
  function ParseI32(s: string): Result<i32, IntErrorKind> {
    if s == [] then Err(Empty)
    else if (s[0] == '+' || s[0] == '-') && |s| == 1 then Err(InvalidDigit)
    else
      match ParseDigits(Unsigned(s), s[0] != '-', 0)
      case Err(kind) => Err(kind)
      case Ok(v) =>
        ParseDigitsInRange(Unsigned(s), s[0] != '-', 0);
        Ok(v as i32)
  }

  /** The left-to-right reading of a numeral starting from `acc`. */
  function Horner(acc: int, ds: string): int
    decreases ds
  {
    if ds == [] then acc else Horner(acc * 10 + DigitValue(ds[0]), ds[1..])
  }

  lemma {:induction false} HornerAtLeast(acc: int, ds: string)
    requires acc >= 0
    ensures Horner(acc, ds) >= acc
    decreases ds
  {
    if ds != [] {
      HornerAtLeast(acc * 10 + DigitValue(ds[0]), ds[1..]);
    }
  }

  lemma {:induction false} HornerSnoc(acc: int, ds: string, c: char)
    ensures Horner(acc, ds + [c]) == Horner(acc, ds) * 10 + DigitValue(c)
    decreases ds
  {
    if ds != [] {
      assert (ds + [c])[1..] == ds[1..] + [c];
      HornerSnoc(acc * 10 + DigitValue(ds[0]), ds[1..], c);
    }
  }

  lemma {:induction false} HornerIsDecimal(ds: string)
    ensures Horner(0, ds) == DecimalValue(ds)
  {
    if ds != [] {
      var init := ds[..|ds| - 1];
      assert ds == init + [ds[|ds| - 1]];
      HornerIsDecimal(init);
      HornerSnoc(0, init, ds[|ds| - 1]);
    }
  }

  lemma {:induction false} ParseDigitsInRange(ds: string, positive: bool, acc: int)
    requires if positive then 0 <= acc <= I32_MAX else I32_MIN <= acc <= 0
    ensures ParseDigits(ds, positive, acc).Ok? ==> I32_MIN <= ParseDigits(ds, positive, acc).value <= I32_MAX
  {
    if ds != [] && IsDigit(ds[0]) {
      var next := if positive then acc * 10 + DigitValue(ds[0]) else acc * 10 - DigitValue(ds[0]);
      if I32_MIN <= next <= I32_MAX {
        ParseDigitsInRange(ds[1..], positive, next);
      }
    }
  }

  /** The positive digit loop succeeds exactly on digit strings whose value,
      read on from `acc`, stays at most `I32_MAX`, and yields that value. */
  lemma {:induction false} ParsePositive(ds: string, acc: int)
    requires 0 <= acc <= I32_MAX
    ensures ParseDigits(ds, true, acc).Ok? <==> AllDigits(ds) && Horner(acc, ds) <= I32_MAX
    ensures ParseDigits(ds, true, acc).Ok? ==> ParseDigits(ds, true, acc).value == Horner(acc, ds)
  {
    if ds != [] && IsDigit(ds[0]) {
      var next := acc * 10 + DigitValue(ds[0]);
      assert AllDigits(ds) <==> AllDigits(ds[1..]) by {
        assert forall i :: 1 <= i < |ds| ==> ds[i] == ds[1..][i - 1];
      }
      if next > I32_MAX {
        HornerAtLeast(next, ds[1..]);
      } else {
        ParsePositive(ds[1..], next);
      }
    }
  }

  /** The negative digit loop: the mirror image, down to `I32_MIN`. */
  lemma {:induction false} ParseNegative(ds: string, acc: int)
    requires I32_MIN <= acc <= 0
    ensures ParseDigits(ds, false, acc).Ok? <==> AllDigits(ds) && -Horner(-acc, ds) >= I32_MIN
    ensures ParseDigits(ds, false, acc).Ok? ==> ParseDigits(ds, false, acc).value == -Horner(-acc, ds)
  {
    if ds != [] && IsDigit(ds[0]) {
      var next := acc * 10 - DigitValue(ds[0]);
      assert -next == -acc * 10 + DigitValue(ds[0]);
      assert AllDigits(ds) <==> AllDigits(ds[1..]) by {
        assert forall i :: 1 <= i < |ds| ==> ds[i] == ds[1..][i - 1];
      }
      if next < I32_MIN {
        HornerAtLeast(-next, ds[1..]);
      } else {
        ParseNegative(ds[1..], next);
      }
    }
  }

  /** `parse::<i32>` accepts exactly the `i32` literals and yields the value
      they denote. */
  lemma ParseI32Accepts(s: string)
    ensures ParseI32(s).Ok? <==> IsI32Literal(s)
    ensures ParseI32(s).Ok? ==> ParseI32(s).value as int == SignedValue(s)
  {
    if s != [] && !((s[0] == '+' || s[0] == '-') && |s| == 1) {
      var ds := Unsigned(s);
      HornerIsDecimal(ds);
      if s[0] == '-' {
        ParseNegative(ds, 0);
      } else {
        ParsePositive(ds, 0);
      }
    }
  }

  /** The error kinds of the two inputs that have no digits at all. */
  lemma ParseI32NoDigits(s: string)
    requires s == [] || s == "+" || s == "-"
    ensures ParseI32(s) == if s == [] then Err(Empty) else Err(InvalidDigit)
  {
  }

  /** `Display` of a natural number: its decimal digits, no leading zeros. */
  function NatToString(n: nat): (s: string)
    ensures |s| > 0 && AllDigits(s)
    ensures DecimalValue(s) == n
  {
    var last := [('0' as int + n % 10) as char];
    if n < 10 then last else NatToString(n / 10) + last
  }

  /** `Display` of an `i32`: a `-` before the digits of a negative value. */
  function I32ToString(x: int): string {
    if x < 0 then "-" + NatToString(-x) else NatToString(x)
  }

  /** Parsing what `Display` wrote gives back the number. */
  lemma ParseDisplayed(x: i32)
    ensures ParseI32(I32ToString(x as int)) == Ok(x)
  {
    var s := I32ToString(x as int);
    DisplayedIsLiteral(x as int);
    ParseI32Accepts(s);
  }

  /** What `Display` writes is an `i32` literal for the same value. */
  lemma DisplayedIsLiteral(x: int)
    requires I32_MIN <= x <= I32_MAX
    ensures IsI32Literal(I32ToString(x)) && SignedValue(I32ToString(x)) == x
  {
    var s := I32ToString(x);
    if x < 0 {
      var ds := NatToString(-x);
      assert s == "-" + ds;
      assert Unsigned(s) == ds;
    } else {
      var ds := NatToString(x);
      assert IsDigit(ds[0]);
      assert Unsigned(s) == ds;
    }
  }

  /** What `Display` of an `i32` writes holds neither a tab nor a newline. */
  lemma I32ToStringPlain(x: int)
    ensures '\t' !in I32ToString(x) && '\n' !in I32ToString(x)
  {
    var ds := NatToString(if x < 0 then -x else x);
    assert forall i :: 0 <= i < |ds| ==> IsDigit(ds[i]);
    if x < 0 {
      assert I32ToString(x) == "-" + ds;
    }
  }
}
