/** utils/format.ts: magnitude suffixes for large amounts, display names for
    denoms, and amounts in display units. */
module Format {
  import opened Common
  import opened Decimal
  import opened Text
  import opened BigNumber
  import opened Seqs
  import opened ChainTypes
  import Maths

  /** SUFFIXES: each threshold 10^k with its suffix, largest first. */
  const Suffixes: seq<(nat, string)> := [(18, "QT"), (15, "Q"), (12, "T"), (9, "B"), (6, "M")]

  /** The position in SUFFIXES of the first threshold num reaches. */
  function SuffixIndex(num: BigNum): Option<nat> {
    FindIndex(Suffixes, ReachesThreshold(num))
  }

  /** `num.gte(n)` for a table entry [n, s]. */
  function ReachesThreshold(num: BigNum): ((nat, string)) -> bool {
    (entry: (nat, string)) => GtePow10(num, entry.0)
  }

  /** `formatLargeNumber(num, significantDigits)`. A `significantDigits`
      outside [0, 1E9] makes the final `toFixed` throw. */
  function FormatLargeNumber(num: BigNum, significantDigits: int): Completion<string> {
    if IsZero(num) then
      Normal("0")
    else
      match SuffixIndex(num)
      case Some(i) =>
        Normal(ToFixed(DivPow10(num, Suffixes[i].0), 2) + Suffixes[i].1)
      case None =>
        if 0 <= significantDigits <= MaxDecimalPlaces then
          Normal(ToFixed(num, significantDigits))
        else
          Thrown
  }

  lemma GteDown(x: BigNum, a: nat, b: nat)
    requires b <= a && GtePow10(x, a)
    ensures GtePow10(x, b)
  {
    if x.Finite? {
      Pow10Monotone(b, a);
      MulLe(Pow10(b), Pow10(a), Pow10(x.d.e));
    }
  }

  /** Every zero, however many decimal places it carries (the display
      amount of a zero balance has six), is written "0" before any threshold
      is tried. */
  lemma FormatLargeNumberZero(num: BigNum, sd: int)
    requires IsZero(num)
    ensures FormatLargeNumber(num, sd) == Normal("0")
  {
  }

  /** Non-finite values are not caught. NaN and -Infinity reach no
      threshold and fall through to `toFixed(significantDigits)`, which
      prints "NaN" and "-Infinity" or throws for a digit count outside
      [0, 1E9]. */
  lemma FormatLargeNumberNaNOrNegativeInfinity(num: BigNum, sd: int)
    requires num.NaN? || num == Infinite(true)
    ensures FormatLargeNumber(num, sd) ==
      if 0 <= sd <= MaxDecimalPlaces then Normal(if num.NaN? then "NaN" else "-Infinity") else Thrown
  {
    assert SuffixIndex(num).None?;
    assert !IsZero(num);
    if 0 <= sd <= MaxDecimalPlaces {
      assert FormatLargeNumber(num, sd) == Normal(ToFixed(num, sd));
      assert ToFixed(num, sd) == if num.NaN? then "NaN" else "-Infinity";
    }
  }

  /** +Infinity reaches the first threshold and is written "InfinityQT". */
  lemma FormatLargeNumberPositiveInfinity(num: BigNum, sd: int)
    requires num == Infinite(false)
    ensures FormatLargeNumber(num, sd) == Normal("InfinityQT")
  {
    FindIndexFirst(Suffixes, ReachesThreshold(num), 0);
    assert !IsZero(num);
    assert SuffixIndex(num) == Some(0);
    assert DivPow10(num, Suffixes[0].0) == num;
    assert ToFixed(num, 2) == "Infinity";
    assert Suffixes[0].1 == "QT";
    assert "Infinity" + "QT" == "InfinityQT";
  }

  /** The suffix is fixed by magnitude alone: a value in [10^k, 10^(k+3))
      for a threshold 10^k of the table (or at least 10^18 for "QT") is
      divided by 10^k, printed with two decimals and given k's suffix. */
  lemma FormatLargeNumberByMagnitude(num: BigNum, i: nat, sd: int)
    requires i < |Suffixes| && !IsZero(num)
    requires GtePow10(num, Suffixes[i].0)
    requires i > 0 ==> !GtePow10(num, Suffixes[i].0 + 3)
    ensures FormatLargeNumber(num, sd) == Normal(ToFixed(DivPow10(num, Suffixes[i].0), 2) + Suffixes[i].1)
  {
    if i > 0 {
      SuffixesDescending(i);
      NoThresholdFrom(num, Suffixes[i].0 + 3);
    }
    FindIndexFirst(Suffixes, ReachesThreshold(num), i);
  }

  /** Every threshold before entry i is at least 1000 times entry i's. */
  lemma SuffixesDescending(i: nat)
    requires 0 < i < |Suffixes|
    ensures forall j | 0 <= j < i :: Suffixes[j].0 >= Suffixes[i].0 + 3
  {
  }

  /** A value below 10^k reaches no threshold of at least 10^k. */
  lemma NoThresholdFrom(num: BigNum, k: nat)
    requires !GtePow10(num, k)
    ensures forall j | 0 <= j < |Suffixes| && Suffixes[j].0 >= k :: !ReachesThreshold(num)(Suffixes[j])
  {
    forall j | 0 <= j < |Suffixes| && Suffixes[j].0 >= k
      ensures !GtePow10(num, Suffixes[j].0)
    {
      if GtePow10(num, Suffixes[j].0) {
        GteDown(num, Suffixes[j].0, k);
      }
    }
  }

  /** Conversely, a suffix other than "QT" is only given to a value whose
      quotient by the threshold lies in [1, 1000); "QT" to one of at least
      10^18. */
  lemma FormatLargeNumberQuotientRange(num: BigNum)
    requires SuffixIndex(num).Some?
    ensures var k := Suffixes[SuffixIndex(num).value].0;
      && GtePow10(num, k)
      && (SuffixIndex(num).value > 0 ==> !GtePow10(num, k + 3))
  {
    var i := SuffixIndex(num).value;
    if i > 0 {
      assert Suffixes[i - 1].0 == Suffixes[i].0 + 3;
    }
  }

  /** Below 10^6, negatives included, no suffix is given: the value is
      printed with `significantDigits` decimals. */
  lemma FormatLargeNumberBelowMillion(d: Dec, sd: int)
    requires d.m != 0 && d.m < Pow10(6) * Pow10(d.e)
    ensures FormatLargeNumber(Finite(d), sd) ==
      if 0 <= sd <= MaxDecimalPlaces then Normal(ToFixed(Finite(d), sd)) else Thrown
  {
    var num := Finite(d);
    NoThresholdFrom(num, 6);
    assert SuffixIndex(num) == None;
  }

  lemma ToFixedNonNegative(d: Dec, dp: nat, q: nat)
    requires d.m >= 0 && ScaledHalfUp(d, dp) == q
    ensures ToFixed(Finite(d), dp) == UnsignedFixed(q, dp)
  {
  }

  /** A value equal to a threshold takes that threshold's suffix and is
      written "1.00" before it: 10^9 is "1.00B", 10^6 is "1.00M". */
  lemma FormatLargeNumberAtThreshold(i: nat, sd: int)
    requires i < |Suffixes|
    ensures FormatLargeNumber(Finite(Dec(Pow10(Suffixes[i].0), 0)), sd) == Normal("1.00" + Suffixes[i].1)
  {
    var k := Suffixes[i].0;
    var num := Finite(Dec(Pow10(k), 0));
    assert GtePow10(num, k);
    if i > 0 {
      Pow10Add(k, 3);
      assert Pow10(3) == 1000;
      assert !GtePow10(num, k + 3);
    }
    FormatLargeNumberByMagnitude(num, i, sd);
    var x := Dec(Pow10(k), k);
    assert DivPow10(num, k) == Finite(x);
    UnitQuotientText(x);
  }

  /** 10^k / 10^k is written "1.00" by `toFixed(2)`. */
  lemma UnitQuotientText(x: Dec)
    requires x.m == Pow10(x.e)
    ensures ToFixed(Finite(x), 2) == "1.00"
  {
    assert x.m * Pow10(2) == 100 * Pow10(x.e) by {
      assert Pow10(2) == 100;
    }
    HalfUpOfMultiple(ScaledHalfUp(x, 2), 100, Pow10(x.e));
    ToFixedNonNegative(x, 2, 100);
    HundredText();
  }

  lemma HundredText()
    ensures UnsignedFixed(100, 2) == "1.00"
  {
    assert Pow10(2) == 100;
    assert NatToDigits(1) == "1";
    assert PaddedDigits(0, 2) == "00";
  }

  /** The instances 10^9 and 10^6, for every `significantDigits`. The value
      is a parameter so that the verifier does not evaluate the whole
      function on a literal. */
  lemma FormatLargeNumberBillion(num: BigNum, sd: int)
    requires num == Finite(Dec(1000000000, 0))
    ensures FormatLargeNumber(num, sd) == Normal("1.00B")
  {
    assert Pow10(Suffixes[3].0) == 1000000000;
    FormatLargeNumberAtThreshold(3, sd);
    assert "1.00" + Suffixes[3].1 == "1.00B";
  }

  lemma FormatLargeNumberMillion(num: BigNum, sd: int)
    requires num == Finite(Dec(1000000, 0))
    ensures FormatLargeNumber(num, sd) == Normal("1.00M")
  {
    assert Pow10(Suffixes[4].0) == 1000000;
    FormatLargeNumberAtThreshold(4, sd);
    assert "1.00" + Suffixes[4].1 == "1.00M";
  }

  /** 999999, just below the smallest threshold, is printed whole. */
  lemma FormatLargeNumberJustBelowMillion()
    ensures FormatLargeNumber(Finite(Dec(999999, 0)), 0) == Normal("999999")
  {
    var d := Dec(999999, 0);
    assert Pow10(6) == 1000000;
    FormatLargeNumberBelowMillion(d, 0);
    WholeNumberText();
  }

  /** 999999 prints as "999999" with no places. */
  lemma WholeNumberText()
    ensures ToFixed(Finite(Dec(999999, 0)), 0) == "999999"
  {
    var d := Dec(999999, 0);
    assert ScaledHalfUp(d, 0) == 999999;
    ToFixedNonNegative(d, 0, 999999);
    assert UnsignedFixed(999999, 0) == "999999" by {
      assert NatToDigits(999999) == "999999";
    }
  }

  /* ---- formatDenom ---- */

  const FactoryPrefix: string := "factory/"

  /** `denom.replace(/^factory\/[^/]+\//, '')`: drops one leading
      "factory/<creator>/" whose creator is non-empty and holds no '/'.
      Either nothing is removed, or exactly such a prefix is. */
  function StripFactoryPrefix(denom: string): (r: string)
    ensures |r| <= |denom| && r == denom[|denom| - |r|..]
    ensures !StartsWith(denom, FactoryPrefix) ==> r == denom
    ensures r != denom ==>
      var n := |denom| - |r|;
      && StartsWith(denom, FactoryPrefix)
      && |FactoryPrefix| + 2 <= n
      && denom[n - 1] == '/'
      && '/' !in denom[|FactoryPrefix|..n - 1]
  {
    if StartsWith(denom, FactoryPrefix) then
      var j := SlashFrom(denom, |FactoryPrefix|);
      if |FactoryPrefix| < j < |denom| then
        assert forall c | c in denom[|FactoryPrefix|..j] :: c != '/';
        denom[j + 1..]
      else denom
    else denom
  }

  /** The converse: every "factory/<creator>/" prefix is removed, whatever
      follows it. */
  lemma StripFactoryMatch(creator: string, rest: string)
    requires creator != [] && '/' !in creator
    ensures StripFactoryPrefix(FactoryPrefix + creator + "/" + rest) == rest
  {
    var denom := FactoryPrefix + creator + "/" + rest;
    var n := |FactoryPrefix|;
    var j := n + |creator|;
    assert denom[..n] == FactoryPrefix;
    forall k | n <= k < j
      ensures denom[k] != '/'
    {
      assert denom[k] == creator[k - n];
    }
    assert denom[j] == '/';
    SlashFromFirst(denom, n, j);
    assert denom[j + 1..] == rest;
  }

  /** `formatDenom(denom)`: strips a factory prefix, then resolves an IBC
      denom through the asset lookup (keyed by the denom as given), or turns
      a micro-unit denom "u<name>" into "<NAME>". */
  function FormatDenom(denom: string, lookup: AssetLookup): string {
    var clean := StripFactoryPrefix(denom);
    if StartsWith(clean, IbcPrefix) then
      match lookup(denom)
      case Some(asset) => ToUpper(asset.display)
      case None => clean
    else if StartsWith(clean, "u") then
      ToUpper(clean[1..])
    else
      clean
  }

  /** A micro-unit denom loses its 'u' and is upper-cased: "umfx" is "MFX". */
  lemma FormatDenomMicroUnit(name: string, lookup: AssetLookup)
    ensures FormatDenom("u" + name, lookup) == ToUpper(name)
  {
    var denom := "u" + name;
    assert !StartsWith(denom, FactoryPrefix) by { assert denom[0] == 'u'; }
    assert !StartsWith(denom, IbcPrefix) by { assert denom[0] == 'u'; }
    assert StartsWith(denom, "u");
    assert denom[1..] == name;
  }

  /** A factory denom is shown as its cleaned remainder: the creator
      disappears and the remainder is formatted as if given alone, unless it
      is an IBC denom (the lookup is keyed by the whole denom) or carries a
      second factory prefix. */
  lemma FormatDenomFactory(creator: string, rest: string, lookup: AssetLookup)
    requires creator != [] && '/' !in creator
    requires !StartsWith(rest, IbcPrefix) && !StartsWith(rest, FactoryPrefix)
    ensures FormatDenom(FactoryPrefix + creator + "/" + rest, lookup) == FormatDenom(rest, lookup)
  {
    StripFactoryMatch(creator, rest);
  }

  /** An IBC denom behind a factory prefix is still resolved, but under the
      whole denom, not the cleaned one. */
  lemma FormatDenomFactoryIbc(creator: string, hash: string, lookup: AssetLookup)
    requires creator != [] && '/' !in creator
    ensures var denom := FactoryPrefix + creator + "/" + IbcPrefix + hash;
      FormatDenom(denom, lookup) ==
        match lookup(denom)
        case Some(asset) => ToUpper(asset.display)
        case None => IbcPrefix + hash
  {
    StripFactoryMatch(creator, IbcPrefix + hash);
    assert FactoryPrefix + creator + "/" + (IbcPrefix + hash) == FactoryPrefix + creator + "/" + IbcPrefix + hash;
    assert StartsWith(IbcPrefix + hash, IbcPrefix);
  }

  /** Every denom that is an IBC denom once its factory prefix is stripped
      is resolved through the lookup, keyed by the denom as given: the
      asset's display upper-cased, or the cleaned denom when the lookup has
      no entry. */
  lemma FormatDenomIbc(denom: string, lookup: AssetLookup)
    requires StartsWith(StripFactoryPrefix(denom), IbcPrefix)
    ensures FormatDenom(denom, lookup) ==
      match lookup(denom)
      case Some(asset) => ToUpper(asset.display)
      case None => StripFactoryPrefix(denom)
  {
  }

  /** A plain "ibc/<hash>" denom is shown as its asset's display name
      upper-cased, or unchanged when the lookup has no entry. */
  lemma FormatDenomPlainIbc(hash: string, lookup: AssetLookup)
    ensures FormatDenom(IbcPrefix + hash, lookup) ==
      match lookup(IbcPrefix + hash)
      case Some(asset) => ToUpper(asset.display)
      case None => IbcPrefix + hash
  {
    var denom := IbcPrefix + hash;
    assert !StartsWith(denom, FactoryPrefix) by { assert denom[0] == 'i'; }
    assert StartsWith(denom, IbcPrefix);
    FormatDenomIbc(denom, lookup);
  }

  /** A denom that is neither a factory, IBC nor micro-unit denom is shown
      unchanged, with its case kept. */
  lemma FormatDenomOther(denom: string, lookup: AssetLookup)
    requires !StartsWith(denom, FactoryPrefix) && !StartsWith(denom, IbcPrefix)
    requires !StartsWith(denom, "u")
    ensures FormatDenom(denom, lookup) == denom
  {
  }

  /** An upper-cased name is a fixed point: it cannot start with "factory/",
      "ibc/" or "u", so every upper-cased result of `FormatDenom` formats to
      itself. */
  lemma FormatDenomUpperFixed(name: string, lookup: AssetLookup)
    ensures FormatDenom(ToUpper(name), lookup) == ToUpper(name)
  {
    var s := ToUpper(name);
    ToUpperIdempotent(name);
    if |s| > 0 {
      assert !('a' <= s[0] <= 'z');
      assert !StartsWith(s, FactoryPrefix) by { assert FactoryPrefix[0] == 'f'; }
      assert !StartsWith(s, IbcPrefix) by { assert IbcPrefix[0] == 'i'; }
      assert !StartsWith(s, "u") by { assert "u"[0] == 'u'; }
      assert StripFactoryPrefix(s) == s;
    }
  }

  /** `formatDenom` is idempotent when the cleaned denom carries no second
      factory prefix and the lookup answers the cleaned denom as it answered
      the original one. */
  lemma FormatDenomIdempotent(denom: string, lookup: AssetLookup)
    requires StripFactoryPrefix(StripFactoryPrefix(denom)) == StripFactoryPrefix(denom)
    requires lookup(StripFactoryPrefix(denom)) == lookup(denom)
    ensures FormatDenom(FormatDenom(denom, lookup), lookup) == FormatDenom(denom, lookup)
  {
    var clean := StripFactoryPrefix(denom);
    if StartsWith(clean, IbcPrefix) {
      match lookup(denom)
      case Some(asset) => FormatDenomUpperFixed(asset.display, lookup);
      case None =>
    } else if StartsWith(clean, "u") {
      FormatDenomUpperFixed(clean[1..], lookup);
    }
  }

  /** Without those conditions it is not: a doubly prefixed factory denom
      ("factory/a/factory/b/c") loses one prefix per application, so a
      second application changes the result again. */
  lemma FormatDenomNestedFactory(a: string, b: string, rest: string, lookup: AssetLookup)
    requires a != [] && '/' !in a && b != [] && '/' !in b
    requires !StartsWith(rest, IbcPrefix) && !StartsWith(rest, FactoryPrefix) && !StartsWith(rest, "u")
    ensures var once := FormatDenom(FactoryPrefix + a + "/" + FactoryPrefix + b + "/" + rest, lookup);
      && once == FactoryPrefix + b + "/" + rest
      && FormatDenom(once, lookup) == rest
      && FormatDenom(once, lookup) != once
  {
    var inner := FactoryPrefix + b + "/" + rest;
    StripFactoryMatch(a, inner);
    assert FactoryPrefix + a + "/" + inner == FactoryPrefix + a + "/" + FactoryPrefix + b + "/" + rest;
    assert inner[0] == 'f';
    assert !StartsWith(inner, IbcPrefix) && !StartsWith(inner, "u");
    StripFactoryMatch(b, rest);
  }

  /* ---- formatAmount ---- */

  /** The exponent `formatAmount` divides by: `denom_units[1].exponent` of
      the first metadata whose base is the denom, or 6 when the metadata,
      the entry or the unit is missing or the exponent is 0. */
  function DisplayExponent(denom: string, metadata: Option<seq<Metadata>>): (e: int)
    ensures e != 0
    ensures metadata.None? ==> e == 6
    ensures metadata.Some? && e != 6 ==>
      exists i | 0 <= i < |metadata.value| ::
        && metadata.value[i].base == denom
        && |metadata.value[i].denomUnits| >= 2
        && metadata.value[i].denomUnits[1].exponent == e
    ensures metadata.Some? && (forall i | 0 <= i < |metadata.value| :: metadata.value[i].base != denom) ==> e == 6
    ensures metadata.Some? ==>
      forall i | 0 <= i < |metadata.value| && metadata.value[i].base == denom &&
                 (forall j | 0 <= j < i :: metadata.value[j].base != denom) ::
        e == UnitExponentOr6(metadata.value[i].denomUnits)
  {
    match metadata
    case None => 6
    case Some(ms) =>
      match FindIndex(ms, (m: Metadata) => m.base == denom)
      case None => 6
      case Some(i) => UnitExponentOr6(ms[i].denomUnits)
  }

  /** `denom_units[1]?.exponent || 6`. */
  function UnitExponentOr6(units: seq<DenomUnit>): int {
    if |units| >= 2 && units[1].exponent != 0 then units[1].exponent else 6
  }

  /** `formatAmount(amount, denom, metadata)`: the base-unit amount shown in
      display units, `shiftDigits(amount, -exponent)`. */
  function FormatAmount(amount: BigNum, denom: string, metadata: Option<seq<Metadata>>): BigNum {
    Maths.ShiftDigits(amount, -DisplayExponent(denom, metadata), None)
  }

  /** For an exponent of 1 to 6, the display amount of an integer count of
      base units is exact: `parseNumberToBigInt` with that exponent turns it
      back into the same count. */
  lemma FormatAmountRoundTrip(units: int, denom: string, metadata: Option<seq<Metadata>>)
    requires 1 <= DisplayExponent(denom, metadata) <= 6
    ensures Maths.ParseNumberToBigInt(FormatAmount(Finite(Dec(units, 0)), denom, metadata),
                                      DisplayExponent(denom, metadata)) == Normal(units)
  {
    var e: nat := DisplayExponent(denom, metadata);
    var x := Shift(Dec(units, 0), -(e as int));
    assert x == Dec(units, e);
    FitsMorePlaces(x, 6);
    var r := RoundDown(x, 6);
    assert FormatAmount(Finite(Dec(units, 0)), denom, metadata) == Finite(r);
    FitsMorePlaces(x, e);
    FitsPlacesSameValue(x, r, e);
    var v := Maths.ParseNumberToBigInt(Finite(r), e).value;
    assert v * Pow10(r.e) == r.m * Pow10(e);
    assert r.m * Pow10(e) == units * Pow10(r.e);
    MulCancel(v, units, Pow10(r.e));
  }
}
