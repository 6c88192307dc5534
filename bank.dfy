/** pages/bank.tsx, the `combinedBalances` memo: the core balances, the
    resolved balances and the token-factory metadata merged into the list the
    token list shows, with the chain's own token first. */
module Bank {
  import opened Common
  import opened Text
  import opened Seqs
  import opened ChainTypes

  /** The base denom of the chain's own token, and its display denom. */
  const CoreMfxDenom: string := "umfx"
  const MfxDenom: string := "mfx"

  predicate IsCoreMfx(c: Coin) {
    c.denom == CoreMfxDenom
  }

  predicate IsNotCoreMfx(c: Coin) {
    !IsCoreMfx(c)
  }

  predicate IsMfx(c: Coin) {
    c.denom == MfxDenom
  }

  /** A resolved balance answers for a core denom when it carries that denom
      or the denom's last '/'-segment. */
  predicate ResolvesTo(rb: Coin, denom: string) {
    rb.denom == denom || rb.denom == LastSegment(denom)
  }

  /** The head entry, built from the first `umfx` balance. Its denom is the
      resolved `mfx` balance's denom, or "mfx" when there is none. */
  function MfxEntry(core: Coin, resolved: seq<Coin>, mfxTokenData: Metadata): CombinedBalance {
    var found := Find(resolved, IsMfx);
    var denom := if found.Some? && found.value.denom != "" then found.value.denom else MfxDenom;
    CombinedBalance(denom, CoreMfxDenom, core.amount, Some(mfxTokenData))
  }

  /** Whatever the resolved balances hold, the head entry's denom is "mfx". */
  lemma MfxEntryDenom(core: Coin, resolved: seq<Coin>, mfxTokenData: Metadata)
    ensures MfxEntry(core, resolved, mfxTokenData) ==
      CombinedBalance(MfxDenom, CoreMfxDenom, core.amount, Some(mfxTokenData))
  {
  }

  /** `assetInfo?.traces?.[1]?.counterparty?.base_denom`. */
  function CounterpartyBaseDenom(asset: Option<Asset>): Option<string> {
    if asset.Some? && asset.value.traces.Some? && |asset.value.traces.value| >= 2 then
      asset.value.traces.value[1].counterpartyBaseDenom
    else
      None
  }

  /** `logo_URIs?.svg ?? logo_URIs?.png ?? ''`. */
  function LogoUri(asset: Option<Asset>): string {
    if asset.None? || asset.value.logoUris.None? then ""
    else if asset.value.logoUris.value.svg.Some? then asset.value.logoUris.value.svg.value
    else asset.value.logoUris.value.png.GetOr("")
  }

  /** The asset's denom units with missing aliases read as none. */
  function UnitsWithAliases(units: seq<AssetDenomUnit>): (r: seq<DenomUnit>)
    ensures |r| == |units|
    ensures forall i | 0 <= i < |units| ::
      r[i] == DenomUnit(units[i].denom, units[i].exponent, units[i].aliases.GetOr([]))
  {
    seq(|units|, i requires 0 <= i < |units| =>
      DenomUnit(units[i].denom, units[i].exponent, units[i].aliases.GetOr([])))
  }

  /** The metadata an IBC balance is given: the looked-up asset's fields,
      each defaulting to the empty string (or no units) when the lookup has
      no entry. */
  function AssetMetadata(asset: Option<Asset>): (m: Metadata)
    ensures asset.None? ==> m == Metadata("", [], "", "", "", "", "", "")
    ensures asset.Some? ==>
      && m.base == asset.value.base
      && m.display == asset.value.display
      && m.description == asset.value.description.GetOr("")
      && m.name == asset.value.name
      && m.symbol == asset.value.symbol
      && m.denomUnits == UnitsWithAliases(asset.value.denomUnits)
      && |m.denomUnits| == |asset.value.denomUnits|
    ensures m.uri == m.uriHash == LogoUri(asset)
  {
    match asset
    case None => Metadata("", [], "", "", "", "", "", "")
    case Some(a) =>
      Metadata(
        a.description.GetOr(""),
        UnitsWithAliases(a.denomUnits),
        a.base,
        a.display,
        a.name,
        a.symbol,
        LogoUri(asset),
        LogoUri(asset))
  }

  /** The entry for an `ibc/` balance: the denom is the counterparty base
      denom of the looked-up asset, or "" when there is none. */
  function IbcEntry(coin: Coin, lookup: AssetLookup): CombinedBalance {
    var asset := lookup(coin.denom);
    CombinedBalance(CounterpartyBaseDenom(asset).GetOr(""), coin.denom, coin.amount, Some(AssetMetadata(asset)))
  }

  /** The first resolved balance answering for a denom. */
  function ResolvedFor(resolved: seq<Coin>, denom: string): Option<Coin> {
    Find(resolved, (rb: Coin) => ResolvesTo(rb, denom))
  }

  /** The first metadata whose base is the denom. */
  function MetadataFor(metadatas: seq<Metadata>, denom: string): Option<Metadata> {
    Find(metadatas, (m: Metadata) => m.base == denom)
  }

  /** The entry for any other balance: the resolved denom when it is not
      empty, otherwise the core denom; the metadata whose base is the denom. */
  function PlainEntry(coin: Coin, resolved: seq<Coin>, metadatas: seq<Metadata>): CombinedBalance {
    var rb := ResolvedFor(resolved, coin.denom);
    var denom := if rb.Some? && rb.value.denom != "" then rb.value.denom else coin.denom;
    CombinedBalance(denom, coin.denom, coin.amount, MetadataFor(metadatas, coin.denom))
  }

  function OtherEntry(coin: Coin, resolved: seq<Coin>, metadatas: seq<Metadata>, lookup: AssetLookup): CombinedBalance {
    if StartsWith(coin.denom, IbcPrefix) then IbcEntry(coin, lookup) else PlainEntry(coin, resolved, metadatas)
  }

  /** Every entry keeps its balance's denom as `coreDenom`, and its amount. */
  lemma OtherEntryKeepsBalance(coin: Coin, resolved: seq<Coin>, metadatas: seq<Metadata>, lookup: AssetLookup)
    ensures OtherEntry(coin, resolved, metadatas, lookup).coreDenom == coin.denom
    ensures OtherEntry(coin, resolved, metadatas, lookup).amount == coin.amount
  {
  }

  /** An IBC entry: denom from the lookup's second trace, or ""; metadata
      always present, built from the asset. */
  lemma IbcEntryFields(coin: Coin, resolved: seq<Coin>, metadatas: seq<Metadata>, lookup: AssetLookup)
    requires StartsWith(coin.denom, IbcPrefix)
    ensures var e := OtherEntry(coin, resolved, metadatas, lookup);
      && e.denom == CounterpartyBaseDenom(lookup(coin.denom)).GetOr("")
      && e.metadata == Some(AssetMetadata(lookup(coin.denom)))
  {
  }

  /** Any other entry: the first resolved balance answering for the denom
      names it unless its denom is empty; without one the core denom stays.
      The metadata is the first one whose base is the denom, if any. */
  lemma PlainEntryFields(coin: Coin, resolved: seq<Coin>, metadatas: seq<Metadata>, lookup: AssetLookup)
    requires !StartsWith(coin.denom, IbcPrefix)
    ensures var e := OtherEntry(coin, resolved, metadatas, lookup);
      && (forall i | 0 <= i < |resolved| :: !ResolvesTo(resolved[i], coin.denom)) ==> e.denom == coin.denom
    ensures var e := OtherEntry(coin, resolved, metadatas, lookup);
      forall i | 0 <= i < |resolved| && ResolvesTo(resolved[i], coin.denom) &&
                 (forall j | 0 <= j < i :: !ResolvesTo(resolved[j], coin.denom)) ::
        e.denom == if resolved[i].denom != "" then resolved[i].denom else coin.denom
    ensures var e := OtherEntry(coin, resolved, metadatas, lookup);
      (forall i | 0 <= i < |metadatas| :: metadatas[i].base != coin.denom) ==> e.metadata.None?
    ensures var e := OtherEntry(coin, resolved, metadatas, lookup);
      forall i | 0 <= i < |metadatas| && metadatas[i].base == coin.denom &&
                 (forall j | 0 <= j < i :: metadatas[j].base != coin.denom) ::
        e.metadata == Some(metadatas[i])
  {
    var p := (rb: Coin) => ResolvesTo(rb, coin.denom);
    var q := (m: Metadata) => m.base == coin.denom;
    match FindIndex(resolved, p)
    case Some(k) =>
      forall i | 0 <= i < |resolved| && ResolvesTo(resolved[i], coin.denom) &&
                 (forall j | 0 <= j < i :: !ResolvesTo(resolved[j], coin.denom))
        ensures i == k
      {
      }
    case None =>
    match FindIndex(metadatas, q)
    case Some(k) =>
      forall i | 0 <= i < |metadatas| && metadatas[i].base == coin.denom &&
                 (forall j | 0 <= j < i :: metadatas[j].base != coin.denom)
        ensures i == k
      {
      }
    case None =>
  }

  /** The non-`umfx` balances, each turned into its entry, in input order. */
  function OtherBalances(balances: seq<Coin>, resolved: seq<Coin>, metadatas: seq<Metadata>, lookup: AssetLookup): (r: seq<CombinedBalance>)
    ensures |r| == |Filter(balances, IsNotCoreMfx)|
    ensures forall j | 0 <= j < |r| :: r[j] == OtherEntry(Filter(balances, IsNotCoreMfx)[j], resolved, metadatas, lookup)
  {
    var kept := Filter(balances, IsNotCoreMfx);
    seq(|kept|, j requires 0 <= j < |kept| => OtherEntry(kept[j], resolved, metadatas, lookup))
  }

  /** The memo: empty until all three inputs are present; then the `mfx`
      entry, if there is a `umfx` balance, followed by the other balances. */
  function CombinedBalances(
    balances: Option<seq<Coin>>,
    resolved: Option<seq<Coin>>,
    metadatas: Option<seq<Metadata>>,
    lookup: AssetLookup,
    mfxTokenData: Metadata): (r: seq<CombinedBalance>)
    ensures balances.None? || resolved.None? || metadatas.None? ==> r == []
  {
    if balances.None? || resolved.None? || metadatas.None? then
      []
    else
      var others := OtherBalances(balances.value, resolved.value, metadatas.value, lookup);
      match Find(balances.value, IsCoreMfx)
      case Some(core) => [MfxEntry(core, resolved.value, mfxTokenData)] + others
      case None => others
  }

  predicate HasCoreMfx(balances: seq<Coin>) {
    exists i | 0 <= i < |balances| :: IsCoreMfx(balances[i])
  }

  /** The number of entries in front of the other balances. */
  function HeadCount(balances: seq<Coin>): nat {
    if HasCoreMfx(balances) then 1 else 0
  }

  /** With all inputs present: one entry per non-`umfx` balance, plus the
      head entry when some balance is `umfx`. */
  lemma CombinedBalancesLength(balances: seq<Coin>, resolved: seq<Coin>, metadatas: seq<Metadata>, lookup: AssetLookup, mfxTokenData: Metadata)
    ensures |CombinedBalances(Some(balances), Some(resolved), Some(metadatas), lookup, mfxTokenData)| ==
      |Filter(balances, IsNotCoreMfx)| + HeadCount(balances)
  {
  }

  /** When some balance is `umfx`, the first entry is the chain token: denom
      "mfx", core denom "umfx", the first `umfx` balance's amount, and the
      token's fixed metadata. */
  lemma CombinedBalancesHead(balances: seq<Coin>, resolved: seq<Coin>, metadatas: seq<Metadata>, lookup: AssetLookup, mfxTokenData: Metadata, i: nat)
    requires i < |balances| && IsCoreMfx(balances[i])
    requires forall j | 0 <= j < i :: !IsCoreMfx(balances[j])
    ensures var r := CombinedBalances(Some(balances), Some(resolved), Some(metadatas), lookup, mfxTokenData);
      |r| > 0 && r[0] == CombinedBalance(MfxDenom, CoreMfxDenom, balances[i].amount, Some(mfxTokenData))
  {
    FindIndexFirst(balances, IsCoreMfx, i);
    assert Find(balances, IsCoreMfx) == Some(balances[i]);
    var others := OtherBalances(balances, resolved, metadatas, lookup);
    assert CombinedBalances(Some(balances), Some(resolved), Some(metadatas), lookup, mfxTokenData) ==
      [MfxEntry(balances[i], resolved, mfxTokenData)] + others;
    MfxEntryDenom(balances[i], resolved, mfxTokenData);
  }

  /** After the head, entry j is the entry of the j-th non-`umfx` balance: it
      keeps that balance's denom as core denom and its amount, so no `umfx`
      entry follows the head and the input order is kept. */
  lemma CombinedBalancesTail(balances: seq<Coin>, resolved: seq<Coin>, metadatas: seq<Metadata>, lookup: AssetLookup, mfxTokenData: Metadata)
    ensures var r := CombinedBalances(Some(balances), Some(resolved), Some(metadatas), lookup, mfxTokenData);
      var h := HeadCount(balances);
      var kept := Filter(balances, IsNotCoreMfx);
      && |r| == h + |kept|
      && forall j | 0 <= j < |kept| ::
        && r[h + j] == OtherEntry(kept[j], resolved, metadatas, lookup)
        && r[h + j].coreDenom == kept[j].denom != CoreMfxDenom
        && r[h + j].amount == kept[j].amount
  {
    var kept := Filter(balances, IsNotCoreMfx);
    forall j | 0 <= j < |kept|
      ensures kept[j].denom != CoreMfxDenom
      ensures OtherEntry(kept[j], resolved, metadatas, lookup).coreDenom == kept[j].denom
      ensures OtherEntry(kept[j], resolved, metadatas, lookup).amount == kept[j].amount
    {
      assert IsNotCoreMfx(kept[j]);
      OtherEntryKeepsBalance(kept[j], resolved, metadatas, lookup);
    }
    match FindIndex(balances, IsCoreMfx)
    case Some(k) =>
      assert HasCoreMfx(balances);
    case None =>
  }

  /** Every non-`umfx` balance reaches the list, with its denom and amount. */
  lemma CombinedBalancesKeepsEveryBalance(balances: seq<Coin>, resolved: seq<Coin>, metadatas: seq<Metadata>, lookup: AssetLookup, mfxTokenData: Metadata, i: nat)
    requires i < |balances| && !IsCoreMfx(balances[i])
    ensures var r := CombinedBalances(Some(balances), Some(resolved), Some(metadatas), lookup, mfxTokenData);
      exists j | 0 <= j < |r| :: r[j].coreDenom == balances[i].denom && r[j].amount == balances[i].amount
  {
    var r := CombinedBalances(Some(balances), Some(resolved), Some(metadatas), lookup, mfxTokenData);
    var kept := Filter(balances, IsNotCoreMfx);
    assert IsNotCoreMfx(balances[i]);
    assert balances[i] in kept;
    var k :| 0 <= k < |kept| && kept[k] == balances[i];
    CombinedBalancesTail(balances, resolved, metadatas, lookup, mfxTokenData);
    var h := HeadCount(balances);
    assert r[h + k].coreDenom == balances[i].denom;
  }

  /** The other balances of a concatenation are those of each part, one
      after the other: the mapping keeps the input order. */
  lemma {:induction false} OtherBalancesAppend(a: seq<Coin>, b: seq<Coin>, resolved: seq<Coin>, metadatas: seq<Metadata>, lookup: AssetLookup)
    ensures OtherBalances(a + b, resolved, metadatas, lookup) ==
      OtherBalances(a, resolved, metadatas, lookup) + OtherBalances(b, resolved, metadatas, lookup)
  {
    FilterAppend(a, b, IsNotCoreMfx);
    var whole := OtherBalances(a + b, resolved, metadatas, lookup);
    var left := OtherBalances(a, resolved, metadatas, lookup);
    var right := OtherBalances(b, resolved, metadatas, lookup);
    assert |whole| == |left| + |right|;
    forall j | 0 <= j < |whole|
      ensures whole[j] == (left + right)[j]
    {
      if j < |left| {
        assert Filter(a + b, IsNotCoreMfx)[j] == Filter(a, IsNotCoreMfx)[j];
      } else {
        assert Filter(a + b, IsNotCoreMfx)[j] == Filter(b, IsNotCoreMfx)[j - |left|];
      }
    }
  }
}
