/** utils/maths.ts: scaling token amounts between display and base units, and
    the guard that flags a large swing in voting power. */
module Maths {
  import opened Common
  import opened Decimal
  import opened BigNumber

  /** The number of fraction digits `shiftDigits` keeps when none is given. */
  const DefaultDecimalPlaces: int := 6

  /** The swing, in whole percentage points, above which a change is unsafe. */
  const UnsafeSwing: int := 30

  /** bignumber.js's argument checks: `shiftedBy` and `decimalPlaces` throw
      when these fail. */
  predicate ShiftArgumentsValid(places: int, dp: int) {
    -MaxSafeInteger <= places <= MaxSafeInteger && 0 <= dp <= MaxDecimalPlaces
  }

  /** `shiftDigits(num, places, decimalPlaces)`: num times 10^places, cut
      toward zero to `decimalPlaces` (default 6) fraction digits. A NaN
      result or a thrown argument error is caught and gives "0"; an infinite
      num is passed through. The value returned is the one the result string
      denotes. */
  function ShiftDigits(num: BigNum, places: int, decimalPlaces: Option<int>): (r: BigNum)
    ensures !r.NaN?
    ensures num.NaN? ==> r == Zero
    ensures !ShiftArgumentsValid(places, decimalPlaces.GetOr(DefaultDecimalPlaces)) ==> r == Zero
    ensures ShiftArgumentsValid(places, decimalPlaces.GetOr(DefaultDecimalPlaces)) ==>
      (num.Infinite? ==> r == num) &&
      (num.Finite? ==>
        var dp: nat := decimalPlaces.GetOr(DefaultDecimalPlaces);
        var x := Shift(num.d, places);
        && r.Finite?
        && r.d.e <= dp
        && RoundsDown(Units(r.d, dp), x.m * Pow10(dp), Pow10(x.e)))
  {
    var dp := decimalPlaces.GetOr(DefaultDecimalPlaces);
    if !ShiftArgumentsValid(places, dp) then
      Zero  // the argument check throws; the catch returns '0'
    else
      match num
      case NaN => Zero
      case Infinite(_) => num
      case Finite(d) => Finite(RoundDown(Shift(d, places), dp))
  }

  lemma ShiftOfSameValue(a: Dec, b: Dec, p: int)
    requires SameValue(a, b)
    ensures SameValue(Shift(a, p), Shift(b, p))
  {
    var sa, sb := Shift(a, p), Shift(b, p);
    if p < 0 {
      Pow10Add(a.e, -p);
      Pow10Add(b.e, -p);
      MulAssoc(a.m, Pow10(b.e), Pow10(-p));
      MulAssoc(b.m, Pow10(a.e), Pow10(-p));
    } else {
      var k := Pow10(p);
      var a', b' := Dec(a.m * k, a.e), Dec(b.m * k, b.e);
      assert SameValue(sa, a') by { MulAssoc(a.m, k, Pow10(sa.e)); }
      assert SameValue(a', b') by {
        MulAssoc(a.m, k, Pow10(b.e));
        MulAssoc(a.m, Pow10(b.e), k);
        MulAssoc(b.m, k, Pow10(a.e));
        MulAssoc(b.m, Pow10(a.e), k);
      }
      assert SameValue(b', sb) by { MulAssoc(b.m, k, Pow10(sb.e)); }
      SameValueTransitive(sa, a', b');
      SameValueTransitive(sa, b', sb);
    }
  }

  lemma ShiftBack(d: Dec, p: nat)
    ensures SameValue(Shift(Shift(d, p), -(p as int)), d)
  {
    var s := Shift(d, p);
    var t := Shift(s, -(p as int));
    assert t == Dec(s.m, s.e + p);
    Pow10Add(s.e, p);
    MulAssoc(d.m, Pow10(s.e), Pow10(p));
    MulAssoc(d.m, Pow10(p), Pow10(s.e));
  }

  lemma ShiftKeepsFit(d: Dec, p: nat, k: nat)
    requires FitsPlaces(d, k)
    ensures FitsPlaces(Shift(d, p), k)
  {
    var s := Shift(d, p);
    var pe, pk, ps, pp := Pow10(d.e), Pow10(k), Pow10(s.e), Pow10(p);
    var c := (d.m * pk) / pe;
    ModZero(d.m * pk, pe);
    calc {
      (s.m * pk) * pe;
      == { MulAssoc(s.m, pk, pe); MulAssoc(s.m, pe, pk); }
      (s.m * pe) * pk;
      == (d.m * pp * ps) * pk;
      == { MulAssoc(d.m, pp, ps); MulAssoc(d.m, pp * ps, pk); MulAssoc(d.m, pk, pp * ps); }
      (d.m * pk) * (pp * ps);
      == (c * pe) * (pp * ps);
      == { MulAssoc(c, pe, pp * ps); MulAssoc(c, pp * ps, pe); }
      (c * (pp * ps)) * pe;
    }
    MulCancel(s.m * pk, c * (pp * ps), pe);
    MulAssoc(c, pp, ps);
    MultipleModZero(c * pp, ps);
  }

  /** Scaling an amount of at most six fraction digits up by `places` and
      back down again returns the same value: nothing is cut on the way. */
  lemma ShiftDigitsRoundTrip(num: Dec, places: nat)
    requires FitsPlaces(num, 6)
    requires places <= MaxSafeInteger
    ensures var r := ShiftDigits(ShiftDigits(Finite(num), places, None), -(places as int), None);
      r.Finite? && SameValue(r.d, num)
  {
    var s := Shift(num, places);
    ShiftKeepsFit(num, places, 6);
    var r1 := RoundDown(s, 6);
    assert ShiftDigits(Finite(num), places, None) == Finite(r1);
    var t := Shift(r1, -(places as int));
    ShiftOfSameValue(r1, s, -(places as int));
    ShiftBack(num, places);
    SameValueTransitive(t, Shift(s, -(places as int)), num);
    assert SameValue(num, t) by {
      assert num.m * Pow10(t.e) == t.m * Pow10(num.e);
    }
    FitsPlacesSameValue(num, t, 6);
    var r2 := RoundDown(t, 6);
    assert ShiftDigits(Finite(r1), -(places as int), None) == Finite(r2);
    SameValueTransitive(r2, t, num);
  }

  /** `parseNumberToBigInt(v, maxDigits)`: a non-finite v gives 0; otherwise
      v is rounded with `toFixed(maxDigits)` (half-up, the library default)
      and the rounded value is scaled by 10^maxDigits to a count of base
      units. A maxDigits outside [0, 1E9] makes `toFixed` throw, and nothing
      catches it. */
  function ParseNumberToBigInt(v: BigNum, maxDigits: int): (r: Completion<int>)
    ensures !v.Finite? ==> r == Normal(0)
    ensures v.Finite? && !(0 <= maxDigits <= MaxDecimalPlaces) ==> r == Thrown
    ensures v.Finite? && 0 <= maxDigits <= MaxDecimalPlaces ==>
      && r.Normal?
      && RoundsHalfUp(r.value, v.d.m * Pow10(maxDigits), Pow10(v.d.e))
      && (FitsPlaces(v.d, maxDigits) ==> r.value * Pow10(v.d.e) == v.d.m * Pow10(maxDigits))
  {
    if !v.Finite? then
      Normal(0)
    else if !(0 <= maxDigits <= MaxDecimalPlaces) then
      Thrown
    else
      // amount.toFixed(maxDigits), read back and scaled by 10^maxDigits
      var rounded := ToFixed(v, maxDigits);
      ToFixedReadsBack(v.d, maxDigits);
      ParseExact(v.d, maxDigits);
      match ParseFixed(rounded, maxDigits)
      case Some(units) => Normal(units)
      case None => Thrown
  }

  lemma ParseExact(d: Dec, k: nat)
    ensures FitsPlaces(d, k) ==> ScaledHalfUp(d, k) * Pow10(d.e) == d.m * Pow10(k)
  {
    if FitsPlaces(d, k) {
      var c := (d.m * Pow10(k)) / Pow10(d.e);
      ModZero(d.m * Pow10(k), Pow10(d.e));
      HalfUpOfMultiple(ScaledHalfUp(d, k), c, Pow10(d.e));
    }
  }

  /** `parseNumberToBigInt("1.2345678", 6)` is 1234568: the seventh digit
      rounds the sixth up, it is not cut off. */
  lemma ParseNumberToBigIntRoundsHalfUp()
    ensures ParseNumberToBigInt(Finite(Dec(12345678, 7)), 6) == Normal(1234568)
  {
    var r := ParseNumberToBigInt(Finite(Dec(12345678, 7)), 6);
    assert Pow10(6) == 1000000 && Pow10(7) == 10000000;
    assert RoundsHalfUp(r.value, 12345678000000, 10000000);
    var p := r.value * 10000000;
    assert -10000000 <= 2 * (12345678000000 - p) < 10000000;
    assert 1234567 < r.value < 1234569 by {
      if r.value <= 1234567 { MulLe(r.value, 1234567, 10000000); }
      if r.value >= 1234569 { MulLe(1234569, r.value, 10000000); }
    }
  }

  /** A `calculateIsUnsafe` argument: one whose `Number(...)` is NaN, or an
      integer (a number or a numeric string). */
  datatype PowerArg = NotANumber | Integer(n: int)

  /** `BigInt(Number.isNaN(Number(x)) ? 0 : x)`. */
  function ToVotingPower(x: PowerArg): int {
    match x
    case NotANumber => 0
    case Integer(n) => n
  }

  /** `(vp * 100n) / total` with BigInt's truncating division. */
  function Percentage(vp: int, total: int): (pct: int)
    requires total != 0
    ensures RoundsDown(pct, if total > 0 then vp * 100 else -(vp * 100), Abs(total))
  {
    TruncDiv(vp * 100, total)
  }

  /** `calculateIsUnsafe(newPower, currentPower, totalVP)`. */
  function CalculateIsUnsafe(newPower: PowerArg, currentPower: PowerArg, totalVP: PowerArg): (unsafe: bool)
    ensures ToVotingPower(totalVP) == 0 ==>
      (unsafe <==> ToVotingPower(newPower) != ToVotingPower(currentPower))
    ensures ToVotingPower(totalVP) != 0 ==>
      (unsafe <==> Abs(Percentage(ToVotingPower(newPower), ToVotingPower(totalVP))
                       - Percentage(ToVotingPower(currentPower), ToVotingPower(totalVP))) > UnsafeSwing)
  {
    var newVP := ToVotingPower(newPower);
    var currentVP := ToVotingPower(currentPower);
    var total := ToVotingPower(totalVP);
    if total == 0 then
      newVP != currentVP
    else
      var currentPercentage := Percentage(currentVP, total);
      var newPercentage := Percentage(newVP, total);
      var change := if newPercentage > currentPercentage
        then newPercentage - currentPercentage
        else currentPercentage - newPercentage;
      change > UnsafeSwing
  }

  /** The guard does not depend on which of the two powers is the new one,
      and an unchanged power is always safe. */
  lemma CalculateIsUnsafeSymmetric(a: PowerArg, b: PowerArg, total: PowerArg)
    ensures CalculateIsUnsafe(a, b, total) == CalculateIsUnsafe(b, a, total)
    ensures !CalculateIsUnsafe(a, a, total)
  {
  }

  /** A 30-point swing is still safe; 31 points is not. */
  lemma CalculateIsUnsafeBoundary()
    ensures !CalculateIsUnsafe(Integer(40), Integer(10), Integer(100))
    ensures CalculateIsUnsafe(Integer(41), Integer(10), Integer(100))
    ensures CalculateIsUnsafe(Integer(80), Integer(10), Integer(100))
    ensures CalculateIsUnsafe(Integer(100), Integer(50), Integer(0))
    ensures !CalculateIsUnsafe(Integer(50), Integer(50), Integer(100))
    ensures !CalculateIsUnsafe(NotANumber, Integer(0), Integer(100))
  {
  }

  lemma PercentageGap(hi: int, lo: int, t: int)
    requires t > 0 && hi >= 0 && lo >= 0
    ensures var ph, pl := Percentage(hi, t), Percentage(lo, t);
      && (ph - pl > UnsafeSwing ==> (hi - lo) * 100 > UnsafeSwing * t)
      && ((hi - lo) * 100 >= (UnsafeSwing + 1) * t ==> ph - pl > UnsafeSwing)
  {
    var ph, pl := Percentage(hi, t), Percentage(lo, t);
    assert ph * t - pl * t == (ph - pl) * t;
    if ph - pl > UnsafeSwing {
      MulLe(UnsafeSwing, ph - pl - 1, t);
      assert (ph - pl - 1) * t == ph * t - pl * t - t;
    }
    if (hi - lo) * 100 >= (UnsafeSwing + 1) * t && ph - pl <= UnsafeSwing {
      MulLe(ph - pl, UnsafeSwing, t);
    }
  }

  /** For non-negative powers and a positive total the guard brackets the
      exact swing: an unsafe verdict means the powers differ by more than 30%
      of the total, and a difference of at least 31% is always unsafe. The
      truncation to whole percentages blurs only the band in between. */
  lemma CalculateIsUnsafeBrackets(newVP: int, currentVP: int, total: int)
    requires total > 0 && newVP >= 0 && currentVP >= 0
    ensures CalculateIsUnsafe(Integer(newVP), Integer(currentVP), Integer(total)) ==>
      Abs(newVP - currentVP) * 100 > UnsafeSwing * total
    ensures Abs(newVP - currentVP) * 100 >= (UnsafeSwing + 1) * total ==>
      CalculateIsUnsafe(Integer(newVP), Integer(currentVP), Integer(total))
  {
    var pn, pc := Percentage(newVP, total), Percentage(currentVP, total);
    var unsafe := CalculateIsUnsafe(Integer(newVP), Integer(currentVP), Integer(total));
    assert unsafe <==> Abs(pn - pc) > UnsafeSwing;
    if newVP >= currentVP {
      PercentageMonotone(newVP, currentVP, total);
      PercentageGap(newVP, currentVP, total);
    } else {
      PercentageMonotone(currentVP, newVP, total);
      PercentageGap(currentVP, newVP, total);
    }
  }

  lemma PercentageMonotone(hi: int, lo: int, t: int)
    requires t > 0 && hi >= lo >= 0
    ensures Percentage(hi, t) >= Percentage(lo, t)
  {
    var ph, pl := Percentage(hi, t), Percentage(lo, t);
    if ph < pl {
      MulLe(ph + 1, pl, t);
    }
  }
}
