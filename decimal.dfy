/** Exact decimal arithmetic as bignumber.js performs it: a finite value is an
    integer coefficient over a power of ten, and the library's rounding modes
    are stated as relations between a rounded integer and a fraction. */
module Decimal {
  import opened Common

  function Pow10(n: nat): (r: nat)
    ensures r >= 1
  {
    if n == 0 then 1 else 10 * Pow10(n - 1)
  }

  lemma {:induction false} Pow10Add(a: nat, b: nat)
    ensures Pow10(a + b) == Pow10(a) * Pow10(b)
  {
    if a > 0 {
      Pow10Add(a - 1, b);
      MulAssoc(10, Pow10(a - 1), Pow10(b));
    }
  }

  lemma Pow10Monotone(a: nat, b: nat)
    requires a <= b
    ensures Pow10(a) <= Pow10(b)
  {
    Pow10Add(a, b - a);
    MulLe(1, Pow10(b - a), Pow10(a));
  }

  // Elementary facts of integer multiplication and division, stated one at a
  // time so that the solver never has to search for them.

  lemma MulAssoc(x: int, y: int, c: int)
    ensures (x * y) * c == x * (y * c)
  {
  }

  lemma MulLe(x: int, y: int, c: int)
    requires x <= y && c >= 0
    ensures x * c <= y * c
  {
  }

  lemma MulLt(x: int, y: int, c: int)
    requires x < y && c > 0
    ensures x * c < y * c
  {
  }

  lemma MulCancel(x: int, y: int, c: int)
    requires c > 0 && x * c == y * c
    ensures x == y
  {
  }

  lemma DivBounds(x: int, y: int)
    requires y > 0
    ensures 0 <= x - (x / y) * y < y
    ensures x >= 0 ==> x / y >= 0
  {
  }

  lemma ModBound(x: int, y: int)
    requires y > 0
    ensures 0 <= x % y < y
    ensures x >= 0 ==> x / y >= 0
  {
  }

  lemma DivMod(x: int, y: int)
    requires y > 0
    ensures x == (x / y) * y + x % y
  {
  }

  lemma ModZero(x: int, y: int)
    requires y > 0
    ensures x % y == 0 <==> x == (x / y) * y
  {
  }

  lemma MultipleModZero(c: int, y: int)
    requires y > 0
    ensures (c * y) % y == 0
  {
    var q, r := (c * y) / y, (c * y) % y;
    assert c * y == q * y + r && 0 <= r < y;
    assert (c - q) * y == r;
    if c - q >= 1 {
      MulLe(1, c - q, y);
    } else if c - q <= -1 {
      MulLe(c - q, -1, y);
    }
  }

  /** q is num / den rounded toward zero (JavaScript BigInt `/`, bignumber.js
      ROUND_DOWN): q * den lies between zero and num and is less than one den
      away from num. */
  ghost predicate RoundsDown(q: int, num: int, den: int)
    requires den > 0
  {
    var p := q * den;
    && (num >= 0 ==> 0 <= p <= num < p + den)
    && (num < 0 ==> p - den < num <= p <= 0)
  }

  /** q is num / den rounded to the nearest integer, ties away from zero
      (bignumber.js ROUND_HALF_UP). */
  ghost predicate RoundsHalfUp(q: int, num: int, den: int)
    requires den > 0
  {
    var p := q * den;
    && (num >= 0 ==> -den <= 2 * (num - p) < den)
    && (num < 0 ==> -den < 2 * (num - p) <= den)
  }

  lemma ScaleRoundsDown(q: int, num: int, den: int, c: int)
    requires den > 0 && c > 0
    requires RoundsDown(q, num, den)
    ensures RoundsDown(q, num * c, den * c)
  {
    var p := q * den;
    MulAssoc(q, den, c);
    if num >= 0 {
      MulLe(0, p, c);
      MulLe(p, num, c);
      MulLt(num, p + den, c);
      MulLe(0, num, c);
    } else {
      MulLt(p - den, num, c);
      MulLe(num, p, c);
      MulLe(p, 0, c);
      MulLt(num, 0, c);
    }
  }

  lemma ScaleRoundsHalfUp(q: int, num: int, den: int, c: int)
    requires den > 0 && c > 0
    requires RoundsHalfUp(q, num, den)
    ensures RoundsHalfUp(q, num * c, den * c)
  {
    var p := q * den;
    MulAssoc(q, den, c);
    var t := 2 * (num - p);
    assert 2 * (num * c - p * c) == t * c;
    if num >= 0 {
      MulLe(-den, t, c);
      MulLt(t, den, c);
      MulLe(0, num, c);
    } else {
      MulLt(-den, t, c);
      MulLe(t, den, c);
      MulLt(num, 0, c);
    }
  }

  /** An exact multiple rounds to itself: the half-up rounding of c * den / den
      is c. */
  lemma HalfUpOfMultiple(q: int, c: int, den: int)
    requires den > 0
    requires RoundsHalfUp(q, c * den, den)
    ensures q == c
  {
    assert c * den - q * den == (c - q) * den;
    SmallMultiple(c - q, den);
  }

  /** Integer division rounding toward zero, as JavaScript's BigInt `/` does
      for every combination of signs. */
  function TruncDiv(a: int, b: int): (q: int)
    requires b != 0
    ensures RoundsDown(q, if b > 0 then a else -a, Abs(b))
  {
    var n := Abs(a) / Abs(b);
    DivBounds(Abs(a), Abs(b));
    MulLe(0, n, Abs(b));
    var q := if (a < 0) == (b < 0) then n else -n;
    assert q * Abs(b) == if (a < 0) == (b < 0) then n * Abs(b) else -(n * Abs(b));
    q
  }

  /** a / b rounded half away from zero. */
  function HalfUpDiv(a: int, b: int): (q: int)
    requires b > 0
    ensures RoundsHalfUp(q, a, b)
    ensures (a >= 0 ==> q >= 0) && (a <= 0 ==> q <= 0)
  {
    var n := (2 * Abs(a) + b) / (2 * b);
    DivBounds(2 * Abs(a) + b, 2 * b);
    assert n * (2 * b) == 2 * (n * b);
    var q := if a < 0 then -n else n;
    assert q * b == if a < 0 then -(n * b) else n * b;
    q
  }

  /** A finite decimal: the value m / 10^e. */
  datatype Dec = Dec(m: int, e: nat)

  /** a and b denote the same number. */
  ghost predicate SameValue(a: Dec, b: Dec) {
    a.m * Pow10(b.e) == b.m * Pow10(a.e)
  }

  /** The value of d has at most k digits after the decimal point. */
  ghost predicate FitsPlaces(d: Dec, k: nat) {
    (d.m * Pow10(k)) % Pow10(d.e) == 0
  }

  /** The value of d times 10^k, an integer when d has at most k places. */
  function Units(d: Dec, k: nat): int
    requires d.e <= k
  {
    d.m * Pow10(k - d.e)
  }

  lemma SameValueTransitive(a: Dec, b: Dec, c: Dec)
    requires SameValue(a, b) && SameValue(b, c)
    ensures SameValue(a, c)
  {
    var pa, pb, pc := Pow10(a.e), Pow10(b.e), Pow10(c.e);
    calc {
      (a.m * pc) * pb;
      == { MulAssoc(a.m, pc, pb); MulAssoc(a.m, pb, pc); }
      (a.m * pb) * pc;
      == (b.m * pa) * pc;
      == { MulAssoc(b.m, pa, pc); MulAssoc(b.m, pc, pa); }
      (b.m * pc) * pa;
      == (c.m * pb) * pa;
      == { MulAssoc(c.m, pb, pa); MulAssoc(c.m, pa, pb); }
      (c.m * pa) * pb;
    }
    MulCancel(a.m * pc, c.m * pa, pb);
  }

  lemma FitsPlacesSameValue(a: Dec, b: Dec, k: nat)
    requires SameValue(a, b) && FitsPlaces(a, k)
    ensures FitsPlaces(b, k)
  {
    var pa, pb, pk := Pow10(a.e), Pow10(b.e), Pow10(k);
    var c := (a.m * pk) / pa;
    ModZero(a.m * pk, pa);
    calc {
      (b.m * pk) * pa;
      == { MulAssoc(b.m, pk, pa); MulAssoc(b.m, pa, pk); }
      (b.m * pa) * pk;
      == (a.m * pb) * pk;
      == { MulAssoc(a.m, pb, pk); MulAssoc(a.m, pk, pb); }
      (a.m * pk) * pb;
      == (c * pa) * pb;
      == { MulAssoc(c, pa, pb); MulAssoc(c, pb, pa); }
      (c * pb) * pa;
    }
    MulCancel(b.m * pk, c * pb, pa);
    MultipleModZero(c, pb);
  }

  /** A decimal with e fraction digits fits any k >= e places. */
  lemma FitsMorePlaces(d: Dec, k: nat)
    requires d.e <= k
    ensures FitsPlaces(d, k)
  {
    Pow10Add(k - d.e, d.e);
    MulAssoc(d.m, Pow10(k - d.e), Pow10(d.e));
    MultipleModZero(d.m * Pow10(k - d.e), Pow10(d.e));
  }

  /** bignumber.js `shiftedBy(places)`: the value times 10^places, exactly. */
  function Shift(d: Dec, places: int): (r: Dec)
    ensures places >= 0 ==> r.m * Pow10(d.e) == d.m * Pow10(places) * Pow10(r.e)
    ensures places < 0 ==> r.m * Pow10(d.e) * Pow10(-places) == d.m * Pow10(r.e)
  {
    if places < 0 then
      Pow10Add(d.e, -places);
      MulAssoc(d.m, Pow10(d.e), Pow10(-places));
      Dec(d.m, d.e - places)
    else if places <= d.e then
      Pow10Add(d.e - places, places);
      MulAssoc(d.m, Pow10(d.e - places), Pow10(places));
      MulAssoc(d.m, Pow10(places), Pow10(d.e - places));
      Dec(d.m, d.e - places)
    else
      Pow10Add(places - d.e, d.e);
      MulAssoc(d.m, Pow10(places - d.e), Pow10(d.e));
      Dec(d.m * Pow10(places - d.e), 0)
  }

  lemma SmallMultiple(k: int, u: int)
    requires u > 0 && -u < k * u < u
    ensures k == 0
  {
    if k >= 1 {
      MulLe(1, k, u);
    } else if k <= -1 {
      MulLe(k, -1, u);
    }
  }

  /** `decimalPlaces(dp, ROUND_DOWN)`: keep dp places, cutting toward zero. */
  function RoundDown(d: Dec, dp: nat): (r: Dec)
    ensures r.e <= dp
    ensures RoundsDown(Units(r, dp), d.m * Pow10(dp), Pow10(d.e))
    ensures FitsPlaces(d, dp) ==> SameValue(r, d)
  {
    if d.e <= dp then
      UnitsExact(d, dp);
      d
    else
      var u := Pow10(d.e - dp);
      var q := TruncDiv(d.m, u);
      Pow10Add(d.e - dp, dp);
      ScaleRoundsDown(q, d.m, u, Pow10(dp));
      RoundDownExact(d, dp, q);
      Dec(q, dp)
  }

  lemma UnitsExact(d: Dec, dp: nat)
    requires d.e <= dp
    ensures Units(d, dp) * Pow10(d.e) == d.m * Pow10(dp)
    ensures RoundsDown(Units(d, dp), d.m * Pow10(dp), Pow10(d.e))
    ensures RoundsHalfUp(Units(d, dp), d.m * Pow10(dp), Pow10(d.e))
    ensures (d.m >= 0 ==> Units(d, dp) >= 0) && (d.m <= 0 ==> Units(d, dp) <= 0)
  {
    UnitsValue(d, dp);
    ExactRounds(Units(d, dp), Pow10(d.e));
  }

  lemma UnitsValue(d: Dec, dp: nat)
    requires d.e <= dp
    ensures Units(d, dp) * Pow10(d.e) == d.m * Pow10(dp)
    ensures (d.m >= 0 ==> Units(d, dp) >= 0) && (d.m <= 0 ==> Units(d, dp) <= 0)
  {
    var a := dp - d.e;
    var k, p := Pow10(a), Pow10(d.e);
    assert Units(d, dp) == d.m * k;
    if d.m >= 0 { MulLe(0, d.m, k); } else { MulLe(d.m, 0, k); }
    Pow10Add(a, d.e);
    assert Pow10(dp) == k * p;
    MulAssoc(d.m, k, p);
  }

  /** A multiple of den is its own rounding, either way. */
  lemma ExactRounds(q: int, den: int)
    requires den > 0
    ensures RoundsDown(q, q * den, den) && RoundsHalfUp(q, q * den, den)
    ensures (q >= 0 ==> q * den >= 0) && (q < 0 ==> q * den < 0)
  {
    if q >= 0 { MulLe(0, q, den); } else { MulLt(q, 0, den); }
  }

  lemma RoundDownExact(d: Dec, dp: nat, q: int)
    requires d.e > dp
    requires Pow10(d.e) == Pow10(d.e - dp) * Pow10(dp)
    requires RoundsDown(q, d.m, Pow10(d.e - dp))
    ensures FitsPlaces(d, dp) ==> SameValue(Dec(q, dp), d)
  {
    if FitsPlaces(d, dp) {
      var u, p, pe := Pow10(d.e - dp), Pow10(dp), Pow10(d.e);
      var c := (d.m * p) / pe;
      ModZero(d.m * p, pe);
      MulAssoc(c, u, p);
      MulCancel(d.m, c * u, p);
      assert (c - q) * u == d.m - q * u;
      SmallMultiple(c - q, u);
      assert q * pe == d.m * p;
      assert Pow10(Dec(q, dp).e) == p;
    }
  }

  /** The value of d times 10^dp, rounded half away from zero: the digits that
      `toFixed(dp)` prints. */
  function ScaledHalfUp(d: Dec, dp: nat): (q: int)
    ensures RoundsHalfUp(q, d.m * Pow10(dp), Pow10(d.e))
    ensures (d.m >= 0 ==> q >= 0) && (d.m <= 0 ==> q <= 0)
  {
    if d.e <= dp then
      UnitsExact(d, dp);
      Units(d, dp)
    else
      var u := Pow10(d.e - dp);
      var q := HalfUpDiv(d.m, u);
      Pow10Add(d.e - dp, dp);
      ScaleRoundsHalfUp(q, d.m, u, Pow10(dp));
      q
  }

  /** `decimalPlaces(dp, ROUND_HALF_UP)`, the rounding that `div` applies to
      its quotient with DECIMAL_PLACES = dp. */
  function RoundHalfUp(d: Dec, dp: nat): (r: Dec)
    ensures r.e <= dp
    ensures RoundsHalfUp(Units(r, dp), d.m * Pow10(dp), Pow10(d.e))
  {
    if d.e <= dp then
      UnitsExact(d, dp);
      d
    else
      Dec(ScaledHalfUp(d, dp), dp)
  }
}
