/** The records the core reads and builds: bank coins, denom metadata, the
    chain-registry asset returned by the asset lookup, and the combined
    balance shown in the token list. */
module ChainTypes {
  import opened Common

  /** A bank coin; the amount is kept as the decimal string the chain sends. */
  datatype Coin = Coin(denom: string, amount: string)

  datatype DenomUnit = DenomUnit(denom: string, exponent: int, aliases: seq<string>)

  /** Bank denom metadata (`MetadataSDKType`). */
  datatype Metadata = Metadata(
    description: string,
    denomUnits: seq<DenomUnit>,
    base: string,
    display: string,
    name: string,
    symbol: string,
    uri: string,
    uriHash: string)

  /** A denom unit of a chain-registry asset; `aliases` may be missing. */
  datatype AssetDenomUnit = AssetDenomUnit(denom: string, exponent: int, aliases: Option<seq<string>>)

  datatype LogoUris = LogoUris(svg: Option<string>, png: Option<string>)

  /** An IBC trace of an asset, reduced to `counterparty?.base_denom`. */
  datatype Trace = Trace(counterpartyBaseDenom: Option<string>)

  /** A chain-registry asset, with the fields the core reads. */
  datatype Asset = Asset(
    description: Option<string>,
    denomUnits: seq<AssetDenomUnit>,
    base: string,
    display: string,
    name: string,
    symbol: string,
    traces: Option<seq<Trace>>,
    logoUris: Option<LogoUris>)

  /** The prefix of a denom that arrived over IBC. */
  const IbcPrefix: string := "ibc/"

  /** `denomToAsset(env.chain, denom)`: an injected lookup, not modelled. */
  type AssetLookup = string -> Option<Asset>

  /** `CombinedBalanceInfo`: a balance ready for display. */
  datatype CombinedBalance = CombinedBalance(
    denom: string,
    coreDenom: string,
    amount: string,
    metadata: Option<Metadata>)
}
