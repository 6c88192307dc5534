/** The bignumber.js values and operations the utilities rely on: NaN and the
    infinities beside exact finite decimals, comparison with a power of ten,
    division by one, and `toFixed` rendering. The library is assumed to run
    with its default configuration (DECIMAL_PLACES 20, ROUNDING_MODE
    ROUND_HALF_UP). */
module BigNumber {
  import opened Common
  import opened Decimal
  import opened Text

  /** A bignumber.js value. */
  datatype BigNum = NaN | Infinite(negative: bool) | Finite(d: Dec)

  /** The value behind the string "0". */
  const Zero: BigNum := Finite(Dec(0, 0))

  /** Number.MAX_SAFE_INTEGER: `shiftedBy` throws for a shift outside
      [-MaxSafeInteger, MaxSafeInteger]. */
  const MaxSafeInteger: int := 9007199254740991

  /** The library's MAX (1E9): `decimalPlaces` and `toFixed` throw for a
      digit count outside [0, MaxDecimalPlaces]. */
  const MaxDecimalPlaces: int := 1000000000

  /** DECIMAL_PLACES: `div` rounds its quotient to this many places. */
  const DivisionPlaces: nat := 20

  /** `isZero()`. */
  predicate IsZero(x: BigNum) {
    x.Finite? && x.d.m == 0
  }

  /** `x.gte(10^k)`; NaN compares false with everything. */
  predicate GtePow10(x: BigNum, k: nat) {
    match x
    case NaN => false
    case Infinite(negative) => !negative
    case Finite(d) => d.m >= Pow10(k) * Pow10(d.e)
  }

  /** `x.div(10^k)`: exact division, then rounding half-up to
      DECIMAL_PLACES places; the special values are unchanged. */
  function DivPow10(x: BigNum, k: nat): BigNum {
    match x
    case Finite(d) => Finite(RoundHalfUp(Dec(d.m, d.e + k), DivisionPlaces))
    case _ => x
  }

  /** `x.toFixed(dp)`: "NaN" and "[-]Infinity" for the special values, else a
      '-' when the value is negative (even when it rounds to zero), the
      integer digits of the value rounded half-up to dp places and, for
      dp > 0, a '.' and exactly dp fraction digits. */
  function ToFixed(x: BigNum, dp: nat): string {
    match x
    case NaN => "NaN"
    case Infinite(negative) => (if negative then "-" else "") + "Infinity"
    case Finite(d) =>
      var q := Abs(ScaledHalfUp(d, dp));
      (if d.m < 0 then "-" else "") + UnsignedFixed(q, dp)
  }

  /** The numeral of q / 10^dp with exactly dp fraction digits. */
  function UnsignedFixed(q: nat, dp: nat): string {
    var p := Pow10(dp);
    ModBound(q, p);
    NatToDigits(q / p) + (if dp == 0 then "" else "." + PaddedDigits(q % p, dp))
  }

  /** Reads a numeral with exactly dp fraction digits back as its value
      times 10^dp. */
  function ParseFixed(s: string, dp: nat): Option<int> {
    if |s| > 0 && s[0] == '-' then
      match ParseUnsignedFixed(s[1..], dp)
      case Some(v) => Some(-v)
      case None => None
    else
      ParseUnsignedFixed(s, dp)
  }

  function ParseUnsignedFixed(s: string, dp: nat): Option<int> {
    if dp == 0 then
      if |s| > 0 && AllDigits(s) then Some(DigitsValue(s)) else None
    else if |s| >= dp + 2 then
      ParseParts(s[..|s| - dp - 1], s[|s| - dp - 1], s[|s| - dp..], dp)
    else
      None
  }

  /** The integer digits, the point and the fraction digits of a numeral
      with dp > 0 fraction digits. */
  function ParseParts(whole: string, point: char, frac: string, dp: nat): Option<int> {
    if point == '.' && AllDigits(whole) && AllDigits(frac) then
      Some(DigitsValue(whole) * Pow10(dp) + DigitsValue(frac))
    else
      None
  }

  lemma {:induction false} UnsignedFixedReadsBack(q: nat, dp: nat)
    ensures |UnsignedFixed(q, dp)| > 0 && IsDigit(UnsignedFixed(q, dp)[0])
    ensures ParseUnsignedFixed(UnsignedFixed(q, dp), dp) == Some(q)
  {
    var p := Pow10(dp);
    ModBound(q, p);
    var whole, frac := q / p, q % p;
    DivMod(q, p);
    var i := NatToDigits(whole);
    assert DigitsValue(i) == whole;
    if dp == 0 {
      assert UnsignedFixed(q, dp) == i;
    } else {
      var f := PaddedDigits(frac, dp);
      assert DigitsValue(f) == frac;
      assert UnsignedFixed(q, dp) == i + "." + f;
      JoinedReadsBack(i, f, dp);
      assert whole * p + frac == q;
    }
  }

  /** Integer digits, a '.' and dp fraction digits read back as the integer
      part times 10^dp plus the fraction digits. */
  lemma JoinedReadsBack(i: string, f: string, dp: nat)
    requires |i| > 0 && AllDigits(i) && AllDigits(f) && |f| == dp > 0
    ensures |i + "." + f| > 0 && IsDigit((i + "." + f)[0])
    ensures ParseUnsignedFixed(i + "." + f, dp) == Some(DigitsValue(i) * Pow10(dp) + DigitsValue(f))
  {
    var u := i + "." + f;
    var n := |i|;
    assert u[..n] == i;
    assert u[n + 1..] == f;
    assert u[0] == i[0];
    PartsReadBack(u, i, f, dp);
  }

  /** A numeral made of digits i, a '.' and dp digits f reads back as i's
      value times 10^dp plus f's value. */
  lemma PartsReadBack(u: string, i: string, f: string, dp: nat)
    requires |i| > 0 && AllDigits(i) && AllDigits(f) && |f| == dp > 0
    requires |u| == |i| + dp + 1 && u[..|i|] == i && u[|i|] == '.' && u[|i| + 1..] == f
    ensures ParseUnsignedFixed(u, dp) == Some(DigitsValue(i) * Pow10(dp) + DigitsValue(f))
  {
  }

  /** What `toFixed(dp)` prints for a finite value reads back as that value
      rounded half-up to dp places: its digits are ScaledHalfUp(d, dp), whose
      contract states the rounding. */
  lemma ToFixedReadsBack(d: Dec, dp: nat)
    ensures ParseFixed(ToFixed(Finite(d), dp), dp) == Some(ScaledHalfUp(d, dp))
  {
    var q := ScaledHalfUp(d, dp);
    var u := UnsignedFixed(Abs(q), dp);
    UnsignedFixedReadsBack(Abs(q), dp);
    if d.m < 0 {
      assert ToFixed(Finite(d), dp) == "-" + u;
      assert ("-" + u)[1..] == u;
    } else {
      assert ToFixed(Finite(d), dp) == u;
    }
  }
}
