# manifest-app wallet utilities, modelled in Dafny

This project models the parts of the manifest-app wallet front-end that turn chain data into what the bank page shows. The models cover:

- **Amount scaling** (`utils/maths.ts`):
  - `shiftDigits` moves a token amount between base units and display units, truncating to a number of decimals.
  - `parseNumberToBigInt` turns a display amount back into an integer count of base units.
  - `calculateIsUnsafe` flags a voting-power change that swings more than 30 percentage points.
- **Display formatting** (`utils/format.ts`):
  - `formatLargeNumber` writes a value with a magnitude suffix (QT, Q, T, B, M).
  - `formatDenom` cleans a denom for display: it strips a token-factory prefix, resolves IBC denoms through the asset lookup, and turns a micro-unit denom such as `umfx` into `MFX`.
  - `formatAmount` picks the display exponent from the denom metadata.
- **Balance reconciliation** (`pages/bank.tsx`): the `combinedBalances` memo merges three inputs into the token list:
  - the core bank balances;
  - the resolved balances;
  - the token-factory metadata.

  The chain's own token (`umfx`, shown as `mfx`) goes first.
- **The token list** (`components/bank/components/tokenList.tsx`):
  - the case-insensitive search filter;
  - the page count and the page slices;
  - the rule that decides which page numbers get a button or an ellipsis;
  - the `currentPage` state, as a class with one method per pagination button (previous, next, a page number), together with the `searchTerm` prop the bank page passes in: `Pager.SetSearchTerm` models a change of that prop and the effect that then resets the page to 1.

## Modules

- `Decimal` (`decimal.dfy`): exact decimals `Dec(m, e)`, meaning m / 10^e, with bignumber.js `shiftedBy` and two rounding operations:
  - round toward zero to k places (`decimalPlaces(k, ROUND_DOWN)`);
  - round half-up to k places (the default mode of `toFixed`).
  
  Each rounding is specified by an arithmetic relation, `RoundsDown` or `RoundsHalfUp`, between the result and the exact value.
- `BigNumber` (`bignumber.dfy`) covers the bignumber.js values the utilities meet and the operations they call:
  - the values NaN, ±Infinity and finite decimals;
  - `isZero`;
  - `gte` against a power of ten;
  - `div` by a power of ten, with the default 20-place, half-up quotient;
  - `toFixed`.
  
  `ToFixed` produces the actual characters. `ParseFixed` reads them back, so results are stated as "the printed numeral denotes this value".
- `Text` (`text.dfy`): prefixes, substrings, ASCII case mapping, `split('/').pop()` and decimal numerals.
- `Seqs` (`seqs.dfy`): `filter`, `findIndex` and `find`.
- `ChainTypes` (`types.dfy`): coins, metadata, chain-registry assets and the combined balance record.
- The modules for the source files:
  - `Maths` (`maths.dfy`);
  - `Format` (`format.dfy`);
  - `Bank` (`bank.dfy`);
  - `TokenList` (`tokenlist.dfy`).

JavaScript exceptions that nothing catches are modelled with `Completion<T> = Normal(value) | Thrown`. The bignumber.js argument checks throw in three places:

- `toFixed` with a digit count outside [0, 1E9], in `formatLargeNumber` and `parseNumberToBigInt`, where nothing catches the error;
- `shiftedBy` with a shift beyond ±(2^53 - 1), in `shiftDigits`, where the `catch` turns the error into `"0"`;
- `decimalPlaces` with a digit count outside [0, 1E9], also in `shiftDigits` and also caught (`Maths.ShiftArgumentsValid` states both checks).

The chain-registry lookup `denomToAsset` is a function parameter (`AssetLookup`), as are the hook results in the bank page.

Some behaviour of the code is easy to misread; the model follows the code in each case:

- **Rounding in `parseNumberToBigInt`.** The amount is rounded with `toFixed(maxDigits)`, which is ROUND_HALF_UP by default, not truncated: `parseNumberToBigInt("1.2345678", 6)` gives 1234568 (`Maths.ParseNumberToBigIntRoundsHalfUp`).
- **Failures in `parseNumberToBigInt`.** A `maxDigits` outside [0, 1E9] makes `toFixed` throw, and nothing catches it. The model returns `Thrown`.
- **Infinity in `shiftDigits`.** Only `isNaN` is tested, so an infinite amount passes through unchanged instead of becoming `"0"`.
- **IBC denoms in `formatDenom`.** A factory prefix is stripped before the `ibc/` test, and the asset is looked up under the original, unstripped denom (`Format.FormatDenomIbc`).
- **Idempotence of `formatDenom`.** Applying `formatDenom` twice can change the result: a doubly prefixed factory denom loses one prefix per application (`Format.FormatDenomNestedFactory`). `Format.FormatDenomIdempotent` states the conditions under which a second application changes nothing.

## Model

| member | source | states |
|---|---|---|
| Maths.ShiftDigits | utils/maths.ts:5-25 | The result is never NaN. A NaN amount and an invalid shift or decimal-place count give 0 (the thrown error is caught). An infinite amount passes through. A finite amount gives its value times 10^places, rounded toward zero to at most `decimalPlaces` (default 6) fraction digits. |
| Maths.ShiftDigitsRoundTrip | utils/maths.ts:5-25 | Shifting an amount with at most 6 decimals up by p places and back down by p returns the same value. |
| Maths.ShiftOfSameValue | utils/maths.ts:11-12 | `shiftedBy` depends only on the value, not on how the decimal is written. |
| Maths.ShiftBack | utils/maths.ts:12 | `shiftedBy(p)` followed by `shiftedBy(-p)` is the identity on values. |
| Maths.ShiftKeepsFit | utils/maths.ts:12-13 | Shifting up keeps a value that fits k decimals within k decimals, so the ROUND_DOWN that follows cuts nothing. |
| Maths.ParseNumberToBigInt | utils/maths.ts:27-40 | A non-finite value gives 0. A `maxDigits` outside [0, 1E9] throws. Otherwise the result is the value times 10^maxDigits, rounded half-up, and it is exact when the value has at most `maxDigits` decimals. |
| Maths.ParseExact | utils/maths.ts:33-37 | When the value has at most k decimals, rounding to k places and scaling by 10^k is exact. |
| Maths.ParseNumberToBigIntRoundsHalfUp | utils/maths.ts:36-37 | `parseNumberToBigInt("1.2345678", 6)` is 1234568: the seventh digit rounds the sixth up. |
| Maths.Percentage | utils/maths.ts:55-56 | `vp * 100n / total` is the quotient truncated toward zero, for every sign of `vp` and of `total`. |
| Maths.CalculateIsUnsafe | utils/maths.ts:42-64 | An argument whose `Number` is NaN counts as 0. With a zero total, a change is unsafe exactly when the powers differ. Otherwise it is unsafe exactly when the truncated percentages differ by more than 30 points. |
| Maths.CalculateIsUnsafeSymmetric | utils/maths.ts:58-63 | Swapping the new and current power does not change the verdict, and an unchanged power is always safe. |
| Maths.CalculateIsUnsafeBoundary | utils/maths.ts:51-63 | With a total of 100, a swing of exactly 30 points (40 vs 10) is safe and 31 points is unsafe. A zero total with different powers is unsafe. A NaN argument counts as 0. |
| Maths.PercentageMonotone | utils/maths.ts:55-56 | A larger non-negative power never gets a smaller truncated percentage. |
| Maths.PercentageGap | utils/maths.ts:55-63 | A gap of more than 30 truncated points means a real gap of more than 30% of the total, and a real gap of at least 31% gives more than 30 truncated points. |
| Maths.CalculateIsUnsafeBrackets | utils/maths.ts:42-64 | For non-negative powers and a positive total, unsafe implies \|Δ\|·100 > 30·total, and \|Δ\|·100 ≥ 31·total implies unsafe. |
| BigNumber.ToFixedReadsBack | utils/maths.ts:36-37 | The numeral `toFixed(dp)` prints for a finite value reads back as the value rounded half-up to dp places, with its sign. |
| BigNumber.UnsignedFixedReadsBack | utils/maths.ts:36-37 | The unsigned numeral with exactly dp fraction digits starts with a digit and reads back as the number it was printed from. |
| Format.FormatLargeNumberZero | utils/format.ts:19 | Every zero value, whatever number of decimal places it carries (a zero display amount carries six), is written "0", whatever `significantDigits` is. |
| Format.FormatLargeNumberNaNOrNegativeInfinity | utils/format.ts:18-28 | Non-finite values are not caught: NaN and -Infinity fail every threshold and print "NaN" and "-Infinity" through `toFixed(significantDigits)`, or throw for a digit count outside [0, 1E9]. |
| Format.FormatLargeNumberPositiveInfinity | utils/format.ts:18-28 | +Infinity reaches the first threshold and is written "InfinityQT", whatever `significantDigits` is. |
| Format.FormatLargeNumber | utils/format.ts:18-28 | The function itself; its contract is carried by FormatLargeNumberZero, FormatLargeNumberNaNOrNegativeInfinity, FormatLargeNumberPositiveInfinity, FormatLargeNumberByMagnitude, FormatLargeNumberQuotientRange, FormatLargeNumberBelowMillion and FormatLargeNumberAtThreshold. |
| Format.FormatLargeNumberByMagnitude | utils/format.ts:10-25 | A non-zero value in [10^k, 10^(k+3)) for a table threshold 10^k, or at least 10^18 for QT, is divided by 10^k, printed with 2 decimals and given that threshold's suffix. |
| Format.FormatLargeNumberQuotientRange | utils/format.ts:10-25 | Whenever a suffix is chosen, the value reaches its threshold, and, except for QT, stays below 1000 times the threshold. |
| Format.FormatLargeNumberBelowMillion | utils/format.ts:21-27 | A non-zero value below 10^6, negatives included, gets no suffix. It is printed with `toFixed(significantDigits)`, or throws for a digit count outside [0, 1E9]. |
| Format.FormatLargeNumberAtThreshold | utils/format.ts:10-25 | A value equal to any table threshold 10^k is written "1.00" followed by that threshold's suffix, whatever `significantDigits` is. |
| Format.FormatLargeNumberBillion | utils/format.ts:14-23 | 10^9 is written "1.00B", whatever `significantDigits` is. |
| Format.FormatLargeNumberMillion | utils/format.ts:15-23 | 10^6 is written "1.00M", whatever `significantDigits` is. |
| Format.FormatLargeNumberJustBelowMillion | utils/format.ts:27 | 999999 is written "999999". |
| Format.StripFactoryPrefix | utils/format.ts:34 | The result is a suffix of the denom. A denom not starting with "factory/" is unchanged. A change removes exactly "factory/", a non-empty '/'-free segment and a '/'. |
| Format.StripFactoryMatch | utils/format.ts:34 | Conversely, every "factory/<creator>/" prefix with a non-empty, '/'-free creator is removed, whatever follows. |
| Format.FormatDenom | utils/format.ts:30-44 | The function itself; its contract is carried by FormatDenomIbc, FormatDenomPlainIbc, FormatDenomMicroUnit, FormatDenomFactory, FormatDenomFactoryIbc, FormatDenomOther, FormatDenomUpperFixed, FormatDenomIdempotent and FormatDenomNestedFactory. |
| Format.FormatDenomMicroUnit | utils/format.ts:39-40 | "u" + name formats as name upper-cased: exactly one character is dropped. |
| Format.FormatDenomFactory | utils/format.ts:34-43 | A factory denom whose remainder is not an IBC or factory denom formats like that remainder alone. |
| Format.FormatDenomFactoryIbc | utils/format.ts:31-38 | An IBC denom behind a factory prefix is resolved under the whole denom: the looked-up display upper-cased, or the cleaned denom when the lookup has no entry. |
| Format.FormatDenomIbc | utils/format.ts:31-38 | Every denom that is an IBC denom once a factory prefix is stripped is looked up under the denom as given: the asset's display upper-cased, or the cleaned denom when the lookup has no entry. |
| Format.FormatDenomPlainIbc | utils/format.ts:31-38 | A plain "ibc/<hash>" denom is shown as its asset's display upper-cased, or unchanged when the lookup has no entry. |
| Format.FormatDenomOther | utils/format.ts:34-43 | A denom that is neither factory, IBC nor micro-unit is returned unchanged, case kept. |
| Format.FormatDenomUpperFixed | utils/format.ts:34-43 | Every upper-cased string formats to itself. |
| Format.FormatDenomIdempotent | utils/format.ts:30-44 | Formatting twice equals formatting once, when the cleaned denom has no second factory prefix and the lookup answers it as it answered the original. |
| Format.FormatDenomNestedFactory | utils/format.ts:34 | For any non-empty, '/'-free creators a and b and a remainder that is not an IBC, factory or micro-unit denom, "factory/a/factory/b/" + rest formats to "factory/b/" + rest, which formats to rest: formatting twice differs from formatting once. |
| Format.DisplayExponent | utils/format.ts:47-48 | Without metadata, or with no entry whose base is the denom, the exponent is 6. Otherwise it is `denom_units[1].exponent` of the FIRST entry whose base is the denom, or 6 when that unit is missing or its exponent is 0. It is never 0. |
| Format.FormatAmount | utils/format.ts:46-50 | The function itself, `shiftDigits(amount, -DisplayExponent)`; its contract is carried by DisplayExponent, FormatAmountRoundTrip and Maths.ShiftDigits. |
| Format.FormatAmountRoundTrip | utils/format.ts:46-50 | For a display exponent from 1 to 6, `parseNumberToBigInt(formatAmount(u), exponent)` gives back the integer base-unit amount u. |
| Bank.MfxEntryDenom | pages/bank.tsx:92-101 | The head entry's denom is always "mfx", its core denom "umfx", its amount the `umfx` balance's amount and its metadata the token's fixed metadata. |
| Bank.MfxEntry | pages/bank.tsx:92-101 | The function itself; its contract is carried by MfxEntryDenom and CombinedBalancesHead. |
| Bank.UnitsWithAliases | pages/bank.tsx:124-128 | Each asset denom unit keeps its denom and exponent, with missing aliases read as an empty list. |
| Bank.AssetMetadata | pages/bank.tsx:122-135 | Without an asset every string field is "" and there are no units. With one, base, display, name, symbol and description (default "") come from it, and the units are its units with missing aliases read as empty. uri and uri_hash are both svg ?? png ?? "". |
| Bank.IbcEntry | pages/bank.tsx:113-136 | The function itself; its contract is carried by IbcEntryFields and OtherEntryKeepsBalance. |
| Bank.PlainEntry | pages/bank.tsx:108-111 | The function itself (with lines 139-144); its contract is carried by PlainEntryFields and OtherEntryKeepsBalance. |
| Bank.OtherEntry | pages/bank.tsx:107-144 | The function itself, choosing the IBC or the plain entry by the `ibc/` prefix; its contract is carried by OtherEntryKeepsBalance, IbcEntryFields and PlainEntryFields. |
| Bank.OtherEntryKeepsBalance | pages/bank.tsx:118-143 | Every non-head entry keeps its balance's denom as `coreDenom`, and its amount. |
| Bank.IbcEntryFields | pages/bank.tsx:113-136 | An `ibc/` entry's denom is the asset's second trace's counterparty base denom, or "". Its metadata is always present, built from the looked-up asset. |
| Bank.PlainEntryFields | pages/bank.tsx:108-144 | Another entry's denom is the first resolved balance matching the denom or its last '/'-segment, unless that one's denom is empty; with no match it is the core denom. Its metadata is the first one whose base is the denom, or none. |
| Bank.OtherBalances | pages/bank.tsx:105-145 | One entry per non-`umfx` balance, the j-th built from the j-th such balance. |
| Bank.CombinedBalances | pages/bank.tsx:87-88 | With any of the three inputs absent, the list is empty. |
| Bank.CombinedBalancesLength | pages/bank.tsx:91-148 | The list has one entry per non-`umfx` balance, plus one when some balance is `umfx`. |
| Bank.CombinedBalancesHead | pages/bank.tsx:91-148 | When some balance is `umfx`, the first entry is ("mfx", "umfx", the first `umfx` balance's amount, the token metadata). |
| Bank.CombinedBalancesTail | pages/bank.tsx:105-148 | After the head, entry j is the entry of the j-th non-`umfx` balance and keeps its core denom and amount. So no `umfx` entry follows the head, and the input order is kept. |
| Bank.CombinedBalancesKeepsEveryBalance | pages/bank.tsx:105-107 | Every non-`umfx` balance appears in the list with its denom and amount. |
| Bank.OtherBalancesAppend | pages/bank.tsx:105-107 | The entries of a concatenation are the entries of each part, in order. |
| TokenList.FilteredBalances | components/bank/components/tokenList.tsx:31-32 | A missing balance list gives an empty filtered list. |
| TokenList.MatchesSearch | components/bank/components/tokenList.tsx:33-35 | The predicate itself; its contract is carried by FilteredBalancesMembership, FilteredBalancesEmptySearch and FilteredBalancesIgnoresCase. |
| TokenList.FilteredBalancesMembership | components/bank/components/tokenList.tsx:31-35 | A balance is listed exactly when it is in the input, has metadata, and its lower-cased display contains the lower-cased term. |
| TokenList.FilteredBalancesEmptySearch | components/bank/components/tokenList.tsx:33-35 | An empty search lists exactly the balances that have metadata. |
| TokenList.FilteredBalancesIgnoresCase | components/bank/components/tokenList.tsx:34 | Upper-casing the search term does not change the filtered list. |
| TokenList.TotalPages | components/bank/components/tokenList.tsx:37 | At least one page. n items fit in the pages, and for n > 0 the last page is not empty, which is `max(1, ceil(n / pageSize))`. |
| TokenList.TotalPagesUnique | components/bank/components/tokenList.tsx:37 | Any count with those properties equals `TotalPages`. |
| TokenList.PageSlice | components/bank/components/tokenList.tsx:43-46 | At most `pageSize` items. Item i is item (page-1)·pageSize + i of the list. The length is the clipped range, and a page past the end is empty. |
| TokenList.PagesUpToPrefix | components/bank/components/tokenList.tsx:43-46 | Pages 1..k, concatenated, are the first k·pageSize items. |
| TokenList.PagesCoverList | components/bank/components/tokenList.tsx:37-46 | Pages 1..totalPages, concatenated, are exactly the filtered list. |
| TokenList.PagesNonEmpty | components/bank/components/tokenList.tsx:37-46 | With a non-empty list, no page from 1 to totalPages is empty. |
| TokenList.PageItemFor | components/bank/components/tokenList.tsx:160-191 | The function itself; its contract is carried by PageItemsBounded, PageItemsAnchors, HiddenPagesMarked and PageItemsMirror. |
| TokenList.PageItemsBounded | components/bank/components/tokenList.tsx:160-191 | The bar shows at most 5 page buttons and at most 2 ellipses. |
| TokenList.PageItemsAnchors | components/bank/components/tokenList.tsx:162-166 | The first, last and current pages always have buttons. |
| TokenList.HiddenPagesMarked | components/bank/components/tokenList.tsx:160-191 | A page that gets nothing lies beyond an ellipsis, two pages from the current one, on its side. |
| TokenList.PageItemsMirror | components/bank/components/tokenList.tsx:160-191 | Mirroring page numbers (k ↦ total+1-k) mirrors what the bar shows. |
| TokenList.Pager.constructor | components/bank/components/tokenList.tsx:21-24 | A new list starts on page 1 with an empty search. |
| TokenList.Pager.Previous | components/bank/components/tokenList.tsx:152 | The page becomes max(1, p-1): it stays at least 1, moves back at most one, and the search is unchanged. |
| TokenList.Pager.Next | components/bank/components/tokenList.tsx:194 | The page becomes min(totalPages, p+1): it stays within [1, totalPages], never moves back from an in-range page, and the search is unchanged. |
| TokenList.Pager.SelectPage | components/bank/components/tokenList.tsx:170 | A page button sets the current page to its number. |
| TokenList.Pager.SetSearchTerm | components/bank/components/tokenList.tsx:39-41 | A changed search term resets the page to 1. The same term leaves it unchanged. |
| TokenList.Pager.PaginatedBalances | components/bank/components/tokenList.tsx:43-46 | The function itself: the `currentPage` slice of the filtered balances; its contract is carried by PageSlice (at most `pageSize` items, item i is item (currentPage-1)·pageSize + i of the filtered list) and FilteredBalancesMembership. |

## Left out

- Parsing of amount strings (`new BigNumber(string)`, `Number(string)`): amounts enter the model as their values (`BigNum`, `PowerArg`); a string that bignumber.js cannot parse is the `NaN` value.
- `shiftDigits`' `toString` rendering, including exponential notation for very large or small magnitudes: the result is modelled as the value the string denotes.
- bignumber.js exponent limits (magnitudes beyond 10^±10000000 becoming Infinity or zero) and its configuration: the default configuration is assumed (DECIMAL_PLACES 20, ROUNDING_MODE ROUND_HALF_UP).
- Arguments of `calculateIsUnsafe` that `Number` accepts but `BigInt` rejects, on which `BigInt` throws uncaught: non-integers such as 1.5, and strings such as "1e3" or "Infinity" that `Number` reads as integers but `BigInt` does not parse. Hexadecimal, octal and binary strings ("0x1f", "0o17", "0b101") are accepted by both and enter the model as `Integer` of their value. The model takes integers or the NaN-coerced case (`PowerArg`).
- Default arguments: `parseNumberToBigInt`'s `maxDigits = 6` and `formatLargeNumber`'s `significantDigits = 0` are not represented; `Maths.ParseNumberToBigInt` and `Format.FormatLargeNumber` always take the argument, and a caller that omits it is modelled by passing 6 or 0. (`shiftDigits`' default of 6 decimal places is modelled with an optional argument.)
- Maths.CalculateIsUnsafeBrackets: stated only for non-negative powers and a positive total, the voting-power domain; negative powers truncate toward zero on both sides and are covered only by `Maths.CalculateIsUnsafe` itself.
- Unicode case mapping in `toUpperCase` / `toLowerCase`: only ASCII letters are mapped.
- `console.warn` / `console.error` diagnostics.
- The `env.chain` argument of `denomToAsset` and the lookup's behaviour: the lookup is a parameter.
- Format.DisplayExponent: a non-numeric `denom_units[1].exponent` (NaN under `Number`) is not represented, since metadata exponents are integers here; the `|| 6` fallback for 0 and for a missing unit is modelled.
- TokenList.TotalPages: a `pageSize` below 1 is excluded; the page sizes come from a fixed table of 5 to 10.
- TokenList.PageSlice: requires a page size and a page of at least 1, which the `Pager` invariant and the page-size table guarantee.
- TokenList.Pager.PaginatedBalances: the current page is not clamped to the page count, so it may lie past the last page when the list shrinks without a new search; the slice is then empty, as in the source and as `PageSlice`'s contract states.
- JSX rendering, CSS classes, the skeleton placeholders, the modals and the `isLoading` disabling of the buttons: presentation only.
- React hook scheduling (`useMemo`, `useEffect`, `useState` updater timing): each hook is modelled as the function or method it runs, not when it runs.
