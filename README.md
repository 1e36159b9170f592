# User pool snapshots and CoinGecko token prices

A Dafny model of two services of the Beethoven X backend.

**User pool snapshots.** `UserSnapshotService.getUserSnapshotsForPool` returns a user's daily balance series for one pool. The model covers these steps:

- It translates the requested data range into a cutoff timestamp.
- When no row is stored yet, it bootstraps the user's history. It keeps the subgraph's balance-change events that concern the pool and enriches each one that has a pool snapshot into a snapshot-table row.
- It walks the stored rows in ascending order and fills every gap of more than a day. Each filled day copies the previous balances forward and revalues them against that day's pool snapshot.
- It extends the series towards the start of today.

Balances are 18-decimal fixed-point integers. The floating-point share, USD value and fees of a row are an opaque `Valuation`, produced by a function parameter from the total balance and the pool snapshot.

**CoinGecko prices.** `CoingeckoService.getTokenPrices` and its helpers. The model covers these steps:

- Each address is mapped to the platform and contract address it is priced under. A token definition can remap it to another platform.
- A guard refuses calls with more than ten times `addressesPerRequest` addresses (the comment at line 51 cites the API's limit of ten calls a second). It bounds the addresses, not the requests: requests are made per platform group, so tokens spread over many platforms pass it with more than ten requests.
- The mapped tokens are grouped by platform and sliced into pages of `addressesPerRequest` addresses, one request per page.
- The returned pages are merged. Their keys are normalized and prices are back-filled under the tokens' original addresses.
- The native asset's price is injected when it was requested.
- `getTokenHistoricalPrices` computes a time window for its request.

JavaScript objects are modelled as insertion-ordered key lists with a map (module `JsObject`). This is what makes "the last page wins" and "the last renamed key wins" statable.

The modules are:

- `Wrappers`: Option and Result.
- `Text`: ASCII lower-casing.
- `UserSnapshot`: range, filter, enrichment and bootstrap.
- `GapFill`: the walk as written.
- `GapFillCorrected`: the intended walk, proved equal to the written walk wherever the written walk returns.
- `JsObject`: ordered objects, object spread, `_.mapKeys`.
- `Coingecko`: the price service.

`GapFill.WalkAsWritten`, `UserSnapshot.EnrichSnapshots`, `Coingecko.PlanRequests` and `Coingecko.ParsePaginatedTokens` are loops in the service, so they are methods. Each is proved equal to a specification function, and the properties are lemmas about those functions.

The walk's comments (lines 85, 110 and 143) promise a series whose gaps are filled, but on a day without a pool snapshot the code does not move on, and the loop never ends instead. Skipping the missing day is the correction chosen here; aborting the walk would be the other reading. The model follows the code. `GapFill` gives the code's behaviour, including the non-termination. `GapFillCorrected` gives the intended behaviour (see Findings).

## Model

| member | source | states |
|---|---|---|
| UserSnapshot.TimestampForRange | modules/user/lib/user-snapshot.service.ts:262-275 | each range's cutoff is the start of today minus 30, 90, 180 or 365 days of 86400 seconds; all-time is 0 |
| UserSnapshot.CutoffMonotone | modules/user/lib/user-snapshot.service.ts:262-275 | a wider range never has a later cutoff, and no cutoff is after the start of today |
| UserSnapshot.IsRelevant | modules/user/lib/user-snapshot.service.ts:58-67 | the filter callback: the pool token among the wallet tokens, or for a staked pool the staking id among the farms or gauges; characterized by `RelevantEvents` |
| UserSnapshot.RelevantEvents | modules/user/lib/user-snapshot.service.ts:58-67 | an event is kept exactly when it holds the pool token, or (for a staked pool) the staking id among its farms or gauges; the result is empty exactly when no event is relevant |
| UserSnapshot.BootstrapHistory | modules/user/lib/user-snapshot.service.ts:58-75 | no history exactly when no event is relevant (the empty return at 69-72); otherwise the rows persisted, or the error thrown, are those of enriching the relevant events |
| UserSnapshot.IndexOf | modules/user/lib/user-snapshot.service.ts:206-211 | `indexOf`: -1 exactly when the key is absent; otherwise the first position holding it |
| UserSnapshot.PickBalance | modules/user/lib/user-snapshot.service.ts:206-211 | an absent key gives balance 0; a present key gives the parallel balance at its first index, or nothing when that index is past the balance array |
| UserSnapshot.StakingKey | modules/user/lib/user-snapshot.service.ts:208-210 | the key searched among gauges (208) and farms (210): the staking id, or the empty string for a pool without staking; its use is stated by `BuildRow` |
| UserSnapshot.BuildRow | modules/user/lib/user-snapshot.service.ts:206-238 | fails exactly when a found key has no balance entry; otherwise the row takes the three balances, their sum as total, the lowercased user id and the id `<pool address>-<user>-<event id>`, valued against the day's pool snapshot |
| UserSnapshot.FindPoolSnapshot | modules/user/lib/user-snapshot.service.ts:113 | a snapshot that is found has the asked timestamp and is one of the pool's snapshots |
| UserSnapshot.FindPoolSnapshotFirst | modules/user/lib/user-snapshot.service.ts:113 | `Array.find`: nothing exactly when no snapshot has the timestamp; otherwise the first one that has it |
| UserSnapshot.Valued | modules/user/lib/user-snapshot.service.ts:196-204 | the kept events are events of the input that have a pool snapshot at their timestamp, and every such event is kept |
| UserSnapshot.ValuedPositions | modules/user/lib/user-snapshot.service.ts:196-204 | the positions of the events with a pool snapshot: in range, strictly ascending, and every such position is listed |
| UserSnapshot.ValuedSelects | modules/user/lib/user-snapshot.service.ts:196-204 | the kept events are the input's events at exactly those positions, in input order |
| UserSnapshot.Enriched | modules/user/lib/user-snapshot.service.ts:194-239 | specification of the enrichment loop: valued events become rows in order, the first unbuildable row aborts; its properties are the `Enriched…` lemmas |
| UserSnapshot.EnrichSnapshots | modules/user/lib/user-snapshot.service.ts:194-239 | the loop's result is the enrichment function's |
| UserSnapshot.EnrichedRowPerValuedEvent | modules/user/lib/user-snapshot.service.ts:194-239 | a successful enrichment has one row per event with a pool snapshot, in input order, each built from that event and its snapshot |
| UserSnapshot.EnrichedFailureIsFirstUnbuildable | modules/user/lib/user-snapshot.service.ts:206-214 | a failed enrichment reports the first valued event whose row cannot be built |
| UserSnapshot.EnrichedFailsIffUnbuildable | modules/user/lib/user-snapshot.service.ts:194-239 | enrichment fails exactly when some valued event's row cannot be built |
| UserSnapshot.EnrichedFailurePropagates | modules/user/lib/user-snapshot.service.ts:194-239 | once a prefix of the events fails, the whole enrichment fails with the same error (the throw aborts the loop) |
| GapFill.FillGap | modules/user/lib/user-snapshot.service.ts:106-130 | the gap loop never shrinks the series; when it exits, the last row is within a day of the next stored row; when it is stuck, the next day has no pool snapshot |
| GapFill.FromStored | modules/user/lib/user-snapshot.service.ts:89-98 | the entry pushed for a stored row, here and again at 131-140: its timestamp, four balances and valuation; its placement is stated by `AsWritten` and `StoredRowsPlaced` |
| GapFill.CarryForward | modules/user/lib/user-snapshot.service.ts:117-129 | the entry pushed for a filled day, here and again at 153-165: the previous entry's balances at the new timestamp, valued on that day's pool snapshot; its use is stated by `FillGapCarries` and `FillForwardCarries` |
| GapFill.GapBody | modules/user/lib/user-snapshot.service.ts:110-129 | the gap loop's body at 110-129 as a function; contract: one pass never shrinks the series (`GapSpinsForever` shows it is a fixed point in the stuck state) |
| GapFill.FillGapCarries | modules/user/lib/user-snapshot.service.ts:111-129 | the gap loop keeps the series as a prefix, and every row it appends is the previous row carried one day forward, valued on that day's pool snapshot, and before the next stored row |
| GapFill.FillForward | modules/user/lib/user-snapshot.service.ts:144-167 | the extension loop never shrinks the series; when it exits, the last row is not before today; when it is stuck, the last balance is not positive, or the next day has no pool snapshot |
| GapFill.FillForwardCarries | modules/user/lib/user-snapshot.service.ts:145-165 | the extension keeps the series as a prefix, appends only from a positive last balance, and every row it appends is the previous row carried one day forward, at most a day past today's start |
| GapFill.AfterStored | modules/user/lib/user-snapshot.service.ts:89-141 | after the first j stored rows the series ends with the j-th stored row, or the walk is stuck in a gap before one of them |
| GapFill.AsWritten | modules/user/lib/user-snapshot.service.ts:87-169 | throws exactly when no row is stored (line 90); otherwise starts with the first stored row; a returned series reaches today; a spin is in a state the stuck loop never leaves |
| GapFill.FirstEntryStays | modules/user/lib/user-snapshot.service.ts:89-105 | the first stored row stays the first entry, being skipped by the loop |
| GapFill.SpinsPersist | modules/user/lib/user-snapshot.service.ts:106-116 | once the gap loop spins before a stored row, the walk never gets past it |
| GapFill.RunGapLoop | modules/user/lib/user-snapshot.service.ts:106-130 | the gap loop's result is `FillGap`'s |
| GapFill.ForwardBody | modules/user/lib/user-snapshot.service.ts:144-166 | the extension loop's body at 144-166 as a function; contract: one pass never shrinks the series (`ForwardSpinsForever` shows it is a fixed point in the stuck state) |
| GapFill.RunExtensionLoop | modules/user/lib/user-snapshot.service.ts:144-167 | the extension loop's result is `FillForward`'s |
| GapFill.RunStoredLoop | modules/user/lib/user-snapshot.service.ts:87-141 | the loop over the stored rows gives `AfterStored`'s result |
| GapFill.WalkAsWritten | modules/user/lib/user-snapshot.service.ts:87-169 | the whole walk gives `AsWritten`'s result |
| GapFill.CarriedKeepsOrder | modules/user/lib/user-snapshot.service.ts:111-129 | appending carried rows keeps a series non-decreasing, increasing, daily and day-aligned |
| GapFill.GapThenStoredOrdered | modules/user/lib/user-snapshot.service.ts:106-140 | appending the next stored row after a filled gap keeps the series non-decreasing, increasing, day-aligned or daily when it was and the row is late enough (and on a day boundary) |
| GapFill.AfterStoredOrdered | modules/user/lib/user-snapshot.service.ts:87-141 | after j stored rows the series is non-decreasing, increasing or day-aligned when the stored rows are, and has one entry per day when they are increasing and day-aligned |
| GapFill.WalkOrdered | modules/user/lib/user-snapshot.service.ts:87-169 | the walk's series, whether it returns or spins, keeps the same orderings as the stored rows |
| GapFill.StoredRowsPlaced | modules/user/lib/user-snapshot.service.ts:131-140 | every stored row appears in the series, in order, at increasing positions |
| GapFill.OthersCarried | modules/user/lib/user-snapshot.service.ts:111-129 | every entry that is not a stored row is carried forward from the entry before it |
| GapFill.WalkKeepsStoredRows | modules/user/lib/user-snapshot.service.ts:87-169 | in the returned series every stored row appears, and every other entry is carried forward |
| GapFill.GapSpinsForever | modules/user/lib/user-snapshot.service.ts:106-116 | in the stuck state the gap loop's body leaves the series unchanged pass after pass, and the condition stays true |
| GapFill.ForwardSpinsForever | modules/user/lib/user-snapshot.service.ts:144-152 | in the stuck state the extension loop's body leaves the series unchanged pass after pass |
| GapFill.ForwardProgressesUnlessStuck | modules/user/lib/user-snapshot.service.ts:144-167 | before today, an extension pass changes the series exactly when the loop is not stuck |
| GapFill.ZeroBalanceSpins | modules/user/lib/user-snapshot.service.ts:144-146 | one stored zero-balance row a day before today: the walk spins in the extension loop |
| GapFill.MissingDaySpins | modules/user/lib/user-snapshot.service.ts:113-116 | two stored rows two days apart, with no pool snapshot between them: the walk spins before the second row |
| GapFill.StoredFrom | modules/user/lib/user-snapshot.service.ts:245-260 | the reload query: a row is selected exactly when it is in the table and is the user's row for the pool at or after the cutoff |
| GapFill.SnapshotsForPool | modules/user/lib/user-snapshot.service.ts:34-84 | the whole query: an enrichment error is thrown only when nothing is stored from the cutoff; the result is [] exactly when nothing is stored from the cutoff and no event is relevant |
| GapFill.SnapshotsForPoolThrowsIff | modules/user/lib/user-snapshot.service.ts:34-90 | the query throws at line 90 exactly when nothing is stored from the cutoff, some event is relevant, enrichment succeeds, and no persisted row is one the reload selects |
| GapFill.UnvaluedHistoryThrows | modules/user/lib/user-snapshot.service.ts:75-90 | a relevant event without a pool snapshot persists no row, the walk over the empty reload throws, and so does the whole query |
| GapFill.OlderHistoryThrows | modules/user/lib/user-snapshot.service.ts:34-90 | a valued relevant event older than the range's cutoff is persisted, the reload from the cutoff skips it, and the whole query throws |
| GapFillCorrected.GridSplit | modules/user/lib/user-snapshot.service.ts:106-112 | the days of a gap are its first day and the days after it |
| GapFillCorrected.FillDays | modules/user/lib/user-snapshot.service.ts:106-130 | the corrected gap fill: one carried-forward day per grid day up to the bound that has a pool snapshot; characterized by `FillDaysShape` and `FillDaysExactly` |
| GapFillCorrected.FillDaysShape | modules/user/lib/user-snapshot.service.ts:106-130 | the filled days are increasing, on the day grid of the gap, and each is the anchor carried to that day |
| GapFillCorrected.FillDaysExactly | modules/user/lib/user-snapshot.service.ts:106-130 | a day is filled exactly when it is on the gap's grid and the pool has a snapshot for it |
| GapFillCorrected.FillDaysBalancesOnly | modules/user/lib/user-snapshot.service.ts:119-124 | the filled days depend only on the anchor's balances, not on its valuation |
| GapFillCorrected.CorrectedThrough | modules/user/lib/user-snapshot.service.ts:89-141 | the corrected series through j stored rows starts with the first stored row and ends with the j-th |
| GapFillCorrected.CorrectedWalk | modules/user/lib/user-snapshot.service.ts:69-72 | the corrected walk is empty exactly when no row is stored, and otherwise starts with the first stored row |
| GapFillCorrected.CorrectedThroughIncreasing | modules/user/lib/user-snapshot.service.ts:87-141 | increasing stored rows give an increasing corrected series |
| GapFillCorrected.CorrectedIncreasing | modules/user/lib/user-snapshot.service.ts:87-169 | the whole corrected series is increasing for increasing stored rows |
| GapFillCorrected.CorrectedKeepsStored | modules/user/lib/user-snapshot.service.ts:131-140 | every stored row is in the corrected series |
| GapFillCorrected.Extension | modules/user/lib/user-snapshot.service.ts:143-167 | the corrected extension: the days up to today carried from the last row when its balance is positive, nothing otherwise; characterized by `CorrectedExtension` |
| GapFillCorrected.CorrectedExtension | modules/user/lib/user-snapshot.service.ts:143-167 | a non-positive last balance ends the series at the last stored row; otherwise every extension entry is before tomorrow and carried from that row |
| GapFillCorrected.GapAgrees | modules/user/lib/user-snapshot.service.ts:106-130 | whenever the gap loop exits, it appended exactly the filled days of the corrected walk |
| GapFillCorrected.ForwardAgrees | modules/user/lib/user-snapshot.service.ts:144-167 | whenever the extension loop exits, it appended exactly the corrected extension |
| GapFillCorrected.ThroughAgrees | modules/user/lib/user-snapshot.service.ts:87-141 | whenever the walk gets through j stored rows, its series is the corrected one |
| GapFillCorrected.WalkAgrees | modules/user/lib/user-snapshot.service.ts:87-169 | whenever the walk as written returns, it returns the corrected series |
| GapFillCorrected.GapReachedIff | modules/user/lib/user-snapshot.service.ts:106-116 | the gap loop exits exactly when the pool has a snapshot for every day it has to fill |
| GapFillCorrected.ForwardReachedIff | modules/user/lib/user-snapshot.service.ts:144-152 | the extension exits exactly when the last row is not before today, or its balance is positive and every day up to today has a snapshot |
| GapFillCorrected.AfterStoredReturnsIff | modules/user/lib/user-snapshot.service.ts:100-141 | the walk gets through the stored rows exactly when no day between them lacks a pool snapshot |
| GapFillCorrected.GapsCoveredStep | modules/user/lib/user-snapshot.service.ts:100-141 | the gaps through j rows are covered exactly when those through j-1 rows and the j-th gap are |
| GapFillCorrected.WalkReturnsIff | modules/user/lib/user-snapshot.service.ts:87-169 | the walk as written returns exactly when every gap is covered and the extension is not needed, or starts from a positive balance and is covered |
| GapFillCorrected.CorrectedDailyWhenCovered | modules/user/lib/user-snapshot.service.ts:87-169 | with day-aligned stored rows and every needed snapshot present, the corrected series has one entry per day |
| GapFillCorrected.CorrectedOnZeroBalance | modules/user/lib/user-snapshot.service.ts:143-146 | the zero-balance user gets their one stored row |
| GapFillCorrected.CorrectedOnMissingDay | modules/user/lib/user-snapshot.service.ts:113-116 | the user with a missing pool day gets both stored rows, and the missing day is left out |
| GapFillCorrected.CorrectedSnapshotsForPool | modules/user/lib/user-snapshot.service.ts:34-84 | the whole query with the corrected walk; an enrichment error it throws is the enrichment's |
| GapFillCorrected.QueryAgrees | modules/user/lib/user-snapshot.service.ts:34-90 | the corrected query fails with the same error exactly when the written one fails, returns the same series wherever the written one returns, and returns [] where the written one throws at line 90 |
| GapFillCorrected.CorrectedOnEmptyHistory | modules/user/lib/user-snapshot.service.ts:69-72 | the users of the unvalued-event and older-than-cutoff examples get an empty series from the corrected query, as lines 69-72 give a user without history |
| Text.LowerChar | legacy/token-price/lib/coingecko.service.ts:133 | ASCII `toLowerCase` of one character: upper-case letters move down by 32, all else is unchanged |
| Text.Lower | legacy/token-price/lib/coingecko.service.ts:133 | lower-casing keeps the length, maps every character, and leaves no upper-case letter |
| Text.LowerIdempotent | legacy/token-price/lib/coingecko.service.ts:133 | lower-casing twice is lower-casing once |
| JsObject.Put | legacy/token-price/lib/coingecko.service.ts:84 | assignment sets the value; a present key keeps its place, a new key is appended |
| JsObject.AssignGet | legacy/token-price/lib/coingecko.service.ts:117 | object spread: a key of the spread object takes its value, any other key keeps its old one |
| JsObject.Merge | legacy/token-price/lib/coingecko.service.ts:117 | `reduce` with object spread over the pages; characterized by `MergeGet` |
| JsObject.MergeGet | legacy/token-price/lib/coingecko.service.ts:117 | the reduced object has a key exactly when some page has it, with the value of the last page that has it |
| JsObject.MapKeys | legacy/token-price/lib/coingecko.service.ts:118 | `_.mapKeys` in insertion order; characterized by `MapKeysGet` |
| JsObject.MapKeysGet | legacy/token-price/lib/coingecko.service.ts:118 | `_.mapKeys` has a key exactly when some key renames to it, with the value of the last key, in insertion order, that renames to it |
| Coingecko.FindDefinition | legacy/token-price/lib/coingecko.service.ts:133 | a found definition is one whose address matches case-insensitively; nothing is found exactly when none matches |
| Coingecko.FindDefinitionFirst | legacy/token-price/lib/coingecko.service.ts:133 | the found definition is the first case-insensitive match |
| Coingecko.GetMappedTokenDetails | legacy/token-price/lib/coingecko.service.ts:132-148 | an original address is recorded exactly when the first matching definition has a truthy platform and contract |
| Coingecko.MappedTokenDetails | legacy/token-price/lib/coingecko.service.ts:132-148 | a remapped token is priced on its definition's platform under the contract address, lower-cased exactly when `isAddress` holds, keeping its lower-cased own address; any other token is priced on the default platform under its lower-cased address |
| Coingecko.MappingIgnoresCase | legacy/token-price/lib/coingecko.service.ts:133-146 | addresses that differ only in case map to the same token, and mapping the lower-cased address gives the same result |
| Coingecko.UnknownTokenStaysOnDefaultPlatform | legacy/token-price/lib/coingecko.service.ts:144-147 | a token without a definition is priced on the default platform under its lower-cased address |
| Coingecko.MapTokens | legacy/token-price/lib/coingecko.service.ts:58 | one mapped token per address, in order |
| Coingecko.ExceedsRateLimit | legacy/token-price/lib/coingecko.service.ts:55 | the guard `addresses.length / addressesPerRequest > 10`, with JavaScript's division by zero; characterized by `ExceedsRateLimitIff` |
| Coingecko.ExceedsRateLimitIff | legacy/token-price/lib/coingecko.service.ts:55 | the floating-point guard fails exactly for more than 10 times the page size in addresses (positive size), or any address at size 0; never for a negative size |
| Coingecko.GuardCountsAddresses | legacy/token-price/lib/coingecko.service.ts:55-76 | tokens on pairwise distinct platforms, up to ten times the page size, pass the guard and cost one request each |
| Coingecko.ElevenPlatformsElevenRequests | legacy/token-price/lib/coingecko.service.ts:53-76 | eleven tokens on eleven platforms at page size 100 pass the guard and make eleven requests |
| Coingecko.GroupByPlatform | legacy/token-price/lib/coingecko.service.ts:59 | `_.groupBy` by platform as an ordered object; characterized by `GroupByPlatformGet` |
| Coingecko.GroupByPlatformGet | legacy/token-price/lib/coingecko.service.ts:59 | `_.groupBy`: a platform has a group exactly when a token is on it, and the group is its tokens in order |
| Coingecko.Addresses | legacy/token-price/lib/coingecko.service.ts:64 | the addresses of the tokens, position by position |
| Coingecko.PageCountIsCeiling | legacy/token-price/lib/coingecko.service.ts:65 | `Math.ceil`: the pages hold every address and there is no extra page |
| Coingecko.PagesOf | legacy/token-price/lib/coingecko.service.ts:65-72 | the pages of one platform's addresses, `Math.ceil` of them; characterized by `PagesOfPartition` and `PageIs` |
| Coingecko.PagesOfPartition | legacy/token-price/lib/coingecko.service.ts:65-72 | the pages, laid end to end, are the addresses, each page holding 1 to `addressesPerRequest` of them |
| Coingecko.PagesSized | legacy/token-price/lib/coingecko.service.ts:65-72 | every page holds 1 to `addressesPerRequest` addresses |
| Coingecko.PagesJoin | legacy/token-price/lib/coingecko.service.ts:65-72 | the pages laid end to end are the addresses |
| Coingecko.Slice | legacy/token-price/lib/coingecko.service.ts:69-72 | `Array.prototype.slice`: negative indices count from the end, both are clamped to the length, and an end before the start gives nothing |
| Coingecko.PageIs | legacy/token-price/lib/coingecko.service.ts:69-72 | page p is the slice from p times the size to (p+1) times the size, clipped at the end |
| Coingecko.PagesPrefix | legacy/token-price/lib/coingecko.service.ts:66-72 | the first n pages, laid end to end, are the first n times the size addresses (clipped) |
| Coingecko.PlatformRequests | legacy/token-price/lib/coingecko.service.ts:68-76 | one request per page, for the platform, with that page's addresses |
| Coingecko.Planned | legacy/token-price/lib/coingecko.service.ts:61-77 | the requests of the nested `forEach` loops, none for a non-positive size; characterized by `PlanRoutesEveryToken` and `PlanOnlyForTokenPlatforms` |
| Coingecko.PlanRequests | legacy/token-price/lib/coingecko.service.ts:61-77 | the loops throw `Array`'s RangeError exactly when the page size is not positive and some group has at least its magnitude of tokens; otherwise they give the planned requests, none for a non-positive size |
| Coingecko.RejectsPageCount | legacy/token-price/lib/coingecko.service.ts:63-66 | `new Array(Math.ceil(n / size))` throws for some group: size not positive and a group of at least its magnitude; characterized by `PlanRequests` |
| Coingecko.RejectsPageCountOnTokens | legacy/token-price/lib/coingecko.service.ts:59-66 | the page count is rejected exactly when the size is not positive and some platform has at least its magnitude of mapped tokens |
| Coingecko.AddressesForJoin | legacy/token-price/lib/coingecko.service.ts:75 | the addresses sent to a platform by joined request lists are those of each list, in order |
| Coingecko.AddressesForPlatform | legacy/token-price/lib/coingecko.service.ts:68-76 | the first n requests of a platform send its first n pages to it, and nothing to any other platform |
| Coingecko.PlanFirstFor | legacy/token-price/lib/coingecko.service.ts:63-77 | after the first n groups, a platform among them has been sent exactly its pages; any other platform has been sent nothing |
| Coingecko.AmongFirstStep | legacy/token-price/lib/coingecko.service.ts:63 | groups are visited once each, in key order |
| Coingecko.PlanRoutesEveryToken | legacy/token-price/lib/coingecko.service.ts:59-77 | the requests for a platform, laid end to end, are exactly its tokens' addresses in order, at most `addressesPerRequest` per request |
| Coingecko.PlanOnlyForTokenPlatforms | legacy/token-price/lib/coingecko.service.ts:59-77 | every request is for a platform some token is on |
| Coingecko.PlanFirstPlatforms | legacy/token-price/lib/coingecko.service.ts:63-77 | every request built after n groups is a token-price request for one of the groups' platforms |
| Coingecko.Normalize | legacy/token-price/lib/coingecko.service.ts:150-152 | the private `getAddress`: the codec's checksum when `isAddress` holds, the address unchanged otherwise; used by `ParsedKeepsEveryKey` and `ParsedBackFillsOriginal` |
| Coingecko.ParsedPrices | legacy/token-price/lib/coingecko.service.ts:116-127 | merge the pages, normalize the keys, then back-fill; characterized by `ParsedKeepsEveryKey`, `ParsedWithoutBackFill` and `ParsedBackFillsOriginal` |
| Coingecko.ParsePaginatedTokens | legacy/token-price/lib/coingecko.service.ts:116-127 | the method's result is the parse function's: merged pages, normalized keys, then the back-fill loop |
| Coingecko.BackFill | legacy/token-price/lib/coingecko.service.ts:120-124 | the back-fill loop over the mapped tokens, in order; characterized by `BackFillGet` |
| Coingecko.BackFillGet | legacy/token-price/lib/coingecko.service.ts:120-124 | a key no token back-fills keeps its price; otherwise it takes the contract price of the last token that back-fills it |
| Coingecko.ParsedKeepsEveryKey | legacy/token-price/lib/coingecko.service.ts:116-127 | every key of every page is priced in the result under its normalized form |
| Coingecko.ParsedWithoutBackFill | legacy/token-price/lib/coingecko.service.ts:117-118 | a key that is not back-filled has the renamed merge's price |
| Coingecko.ParsedBackFillsOriginal | legacy/token-price/lib/coingecko.service.ts:120-124 | a remapped token's contract price is available under its normalized original address, unless a later token overrides it |
| Coingecko.GetTokenPrices | legacy/token-price/lib/coingecko.service.ts:53-92 | the method's result is `TokenPrices`': the guard, the page planning, the fetched pages parsed, and the native price injected |
| Coingecko.TokenPrices | legacy/token-price/lib/coingecko.service.ts:53-92 | specification of the call: guard, page planning, fetch, parse, native injection; its properties are the `TokenPrices…` lemmas |
| Coingecko.TokenPricesFailsIff | legacy/token-price/lib/coingecko.service.ts:55-66 | the call fails with the rate-limit error exactly when the guard trips, and with the array-length error exactly when the size is negative and some platform has at least its magnitude of tokens |
| Coingecko.TokenPricesInjectsNative | legacy/token-price/lib/coingecko.service.ts:79-87 | past both errors the call succeeds; a requested native asset is priced at the native price, and every other key has the parsed price |
| Coingecko.HistoricalRequest | legacy/token-price/lib/coingecko.service.ts:94-101 | the window ends at the current second (floored) and spans `days` times 86400 seconds; the request goes to the token's mapped platform and address |

## Left out

- I/O is not modelled:
  - the database reads and writes (`findMany`, `findUniqueOrThrow`, the user `upsert` at 179-183, `createMany`);
  - the subgraph query;
  - the pool-snapshot service;
  - HTTP (`axios`, `Promise.all`).
- I/O results become inputs:
  - the stored rows and pool snapshots are sequences;
  - HTTP responses come from a `fetch` function from request to price page;
  - the native asset price (`getNativeAssetPrice`, lines 38-48) is a parameter.
- The clock is a parameter: `moment()` and `Date.now()` become `startOfToday` and `nowMillis`. Time zones and `startOf('day')` are not modelled.
- The reload query (245-260) filters a snapshot table that is a parameter, kept in table order: `orderBy: { timestamp: 'asc' }` is not modelled as a sort, and the walk's ordering lemmas state what they need of that order as preconditions. The db write (`createMany`) appends the enriched rows to the table.
- Floating-point arithmetic is not modelled:
  - shares, USD values and fees are an opaque `Valuation` produced by a parameter function, including the protocol-fee factor;
  - `parseFloat(totalBalance) > 0` (line 146) is the integer comparison of the 18-decimal fixed-point balance;
  - `formatFixed` and `parseUnits` are the identity on these fixed-point integers. Decimal strings that do not parse are not modelled; the only enrichment error modelled is a missing balance entry.
- Coingecko.ExceedsRateLimit: divides exactly rather than in IEEE doubles; the two can differ only for page sizes from about 2^50 or counts from 2^53 up, where the double quotient rounds to 10.
- The default argument `addressesPerRequest = 100` (line 53) is not modelled: callers pass the page size explicitly.
- Fractional `days` and fractional `addressesPerRequest` are not modelled: both are integers here.
- `isAddress` and `getAddress` (the EIP-55 checksum of ethers) are uninterpreted functions in an `AddressCodec`. Nothing about them is assumed.
- `toLowerCase` is ASCII only: no other Unicode case mapping is modelled.
- JavaScript objects order integer-like keys before all other keys; the model keeps plain insertion order. Token addresses are not integer-like.
- The hour anchoring of historical prices (lines 105-113) maps floating-point timestamps through `moment` and is not modelled. `HistoricalRequest` models the request the call makes.
- `getPortfolioSnapshots` and `syncUserSnapshots` (21-27) have no behaviour to model.
- The endpoint strings (73, 101) are modelled as the structured `Request` values they encode. URL formatting is not modelled.

## Findings

| source | as written | input that shows it | evidently intended | confidence | as-written member | corrected member |
|---|---|---|---|---|---|---|
| modules/user/lib/user-snapshot.service.ts:144-146 | the extension loop's body does nothing when the last balance is not positive, and its condition does not change, so the loop never ends | one stored row with balance 0 a day before today, pool snapshots for both days | the comment at 143 says to fill up to today only if the balance is > 0; otherwise stop and return the series | high, not executed | GapFill.ZeroBalanceSpins | GapFillCorrected.CorrectedOnZeroBalance |
| modules/user/lib/user-snapshot.service.ts:113-116, 149-152 | when the pool has no snapshot for the next day, both loops `continue` without pushing, so they re-test the same condition forever | stored rows at day 0 and day 2, pool snapshots only for days 0 and 2 | the comments at 85, 110 and 143 promise a filled series; skipping the missing day is the correction chosen here, aborting the walk the other reading | high, not executed | GapFill.MissingDaySpins | GapFillCorrected.CorrectedOnMissingDay |
| modules/user/lib/user-snapshot.service.ts:75-90 | after the bootstrap the reload can be empty, and reading `storedUserSnapshotsFromRange[0]` then throws a TypeError | one relevant event with no pool snapshot at its timestamp: enrichment skips it and no row is persisted. Events all older than the range's cutoff have the same effect (`GapFill.OlderHistoryThrows`) | return an empty series, as lines 69-72 do for a user without history | medium, not executed | GapFill.UnvaluedHistoryThrows | GapFillCorrected.CorrectedOnEmptyHistory |

`GapFillCorrected.WalkAgrees` proves that on every input where the code as written returns, it returns `CorrectedWalk`'s series. `GapFillCorrected.WalkReturnsIff` proves that the inputs where it does not return are exactly the two spinning situations above.
