/** The user pool-snapshot service: the range-to-cutoff translation, the
    relevance filter applied to a user's balance-change events, and the
    enrichment that turns relevant events into rows for the balance-snapshot
    table. Balances are 18-decimal fixed-point integers; the floating-point
    valuation of a row (share, USD value, fees) is an opaque value produced
    by a function of the total balance and the pool's snapshot. */
module UserSnapshot {
  import opened Wrappers
  import opened Text

  /** `ONE_DAY_IN_SECONDS` of the service. */
  const OneDay: int := 86400

  /** A decimal-string balance read with 18 decimals (`parseUnits(s, 18)`):
      the value times 10^18. */
  type Fixed = int

  /** The floating-point fields of a snapshot row: `percentShare`,
      `totalValueUSD` and `fees24h`. They are only ever copied or produced by
      a valuation function, never inspected. */
  datatype Valuation = Valuation(percentShare: real, totalValueUSD: real, fees24h: real)

  /** A pool's daily snapshot, used as the valuation reference for that day. */
  datatype PoolSnapshot = PoolSnapshot(
    timestamp: int,
    totalSharesNum: real,
    sharePrice: Option<real>,
    fees24h: Option<real>)

  /** The pool with its optional staking entity (farm or gauge id). */
  datatype Pool = Pool(id: string, address: string, staking: Option<string>)

  /** A balance-change event of the user-balance subgraph: token keys with
      parallel arrays of balances, for wallet tokens, gauges and farms. */
  datatype BalanceEvent = BalanceEvent(
    id: string,
    userId: string,
    timestamp: int,
    walletTokens: seq<string>,
    walletBalances: seq<Fixed>,
    gauges: seq<string>,
    gaugeBalances: seq<Fixed>,
    farms: seq<string>,
    farmBalances: seq<Fixed>)

  /** A row of the user pool balance-snapshot table. */
  datatype BalanceRow = BalanceRow(
    id: string,
    timestamp: int,
    userAddress: string,
    poolId: string,
    poolToken: string,
    walletBalance: Fixed,
    gaugeBalance: Fixed,
    farmBalance: Fixed,
    totalBalance: Fixed,
    valuation: Valuation)

  /** The only way enrichment fails: a key is found in an event's key array
      but the parallel balance array has no entry at its index, so the
      balance read is `undefined` and `parseUnits` throws. */
  datatype EnrichError = MissingBalance(eventId: string)

  // ---------------------------------------------------------------------
  // Range to cutoff

  datatype DataRange = ThirtyDays | NinetyDays | OneHundredEightyDays | OneYear | AllTime

  /** Position of a range in the order of widening windows. */
  function Width(range: DataRange): nat {
    match range
    case ThirtyDays => 0
    case NinetyDays => 1
    case OneHundredEightyDays => 2
    case OneYear => 3
    case AllTime => 4
  }

  /** The oldest timestamp a range asks for, given the start of today. */
  function TimestampForRange(range: DataRange, startOfToday: int): (t: int)
    ensures range == ThirtyDays ==> t == startOfToday - 30 * OneDay
    ensures range == NinetyDays ==> t == startOfToday - 90 * OneDay
    ensures range == OneHundredEightyDays ==> t == startOfToday - 180 * OneDay
    ensures range == OneYear ==> t == startOfToday - 365 * OneDay
    ensures range == AllTime ==> t == 0
  {
    match range
    case ThirtyDays => startOfToday - 30 * OneDay
    case NinetyDays => startOfToday - 90 * OneDay
    case OneHundredEightyDays => startOfToday - 180 * OneDay
    case OneYear => startOfToday - 365 * OneDay
    case AllTime => 0
  }

  /** The cutoff moves back (never forward) as the range widens, as long as
      today is at least a year after the epoch. */
  lemma CutoffMonotone(narrow: DataRange, wide: DataRange, startOfToday: int)
    requires startOfToday >= 365 * OneDay
    requires Width(narrow) <= Width(wide)
    ensures TimestampForRange(wide, startOfToday) <= TimestampForRange(narrow, startOfToday)
    ensures TimestampForRange(narrow, startOfToday) <= startOfToday
  {
  }

  // ---------------------------------------------------------------------
  // Relevance filter

  /** An event touches the pool when the pool's token is held in the wallet
      or, for a pool with a staking entity, that entity's id is among the
      event's farms or gauges. */
  predicate IsRelevant(e: BalanceEvent, pool: Pool) {
    match pool.staking
    case Some(stakingId) =>
      pool.address in e.walletTokens || stakingId in e.farms || stakingId in e.gauges
    case None => pool.address in e.walletTokens
  }

  /** `Array.filter` with the relevance predicate. */
  function RelevantEvents(events: seq<BalanceEvent>, pool: Pool): (r: seq<BalanceEvent>)
    ensures |r| <= |events|
    ensures forall e :: e in r <==> e in events && IsRelevant(e, pool)
    ensures r == [] <==> forall e :: e in events ==> !IsRelevant(e, pool)
    decreases |events|
  {
    if events == [] then []
    else
      var rest := RelevantEvents(events[1..], pool);
      assert forall e :: e in events <==> e == events[0] || e in events[1..];
      if IsRelevant(events[0], pool) then [events[0]] + rest else rest
  }

  // ---------------------------------------------------------------------
  // Enrichment

  /** `Array.prototype.indexOf`: the first index holding `key`, or -1. */
  function IndexOf(keys: seq<string>, key: string): (i: int)
    ensures -1 <= i < |keys|
    ensures i == -1 <==> key !in keys
    ensures 0 <= i ==> keys[i] == key && key !in keys[..i]
    decreases |keys|
  {
    if keys == [] then -1
    else if keys[0] == key then 0
    else
      var j := IndexOf(keys[1..], key);
      assert keys[1..][..if j < 0 then 0 else j] == keys[1..1 + if j < 0 then 0 else j];
      if j == -1 then -1 else j + 1
  }

  /** The balance a parallel array holds for `key`: the entry at the key's
      first index, `0` (the string `'0'`) when the key is absent, and `None`
      when the key is present but its balance entry is missing. */
  function PickBalance(keys: seq<string>, balances: seq<Fixed>, key: string): (r: Option<Fixed>)
    ensures key !in keys ==> r == Some(0)
    ensures key in keys ==>
      (r.Some? <==> exists i :: 0 <= i < |keys| && i < |balances| && keys[i] == key && key !in keys[..i])
    ensures r.Some? && key in keys ==>
      exists i :: 0 <= i < |keys| && i < |balances| && keys[i] == key && key !in keys[..i] && r.value == balances[i]
  {
    var i := IndexOf(keys, key);
    if i == -1 then Some(0)
    else if i < |balances| then Some(balances[i])
    else None
  }

  /** The key searched for among gauges and farms: the staking id, or the
      empty string for a pool without staking (`staking?.id || ''`). */
  function StakingKey(pool: Pool): string {
    match pool.staking
    case Some(stakingId) => stakingId
    case None => ""
  }

  /** The table row built from one event and the pool's snapshot at the
      event's timestamp. */
  function BuildRow(e: BalanceEvent, pool: Pool, ps: PoolSnapshot, valuate: (Fixed, PoolSnapshot) -> Valuation)
    : (r: Result<BalanceRow, EnrichError>)
    ensures r.Failure? <==>
      PickBalance(e.walletTokens, e.walletBalances, pool.address).None? ||
      PickBalance(e.gauges, e.gaugeBalances, StakingKey(pool)).None? ||
      PickBalance(e.farms, e.farmBalances, StakingKey(pool)).None?
    ensures r.Failure? ==> r.error == MissingBalance(e.id)
    ensures r.Success? ==>
      && Some(r.value.walletBalance) == PickBalance(e.walletTokens, e.walletBalances, pool.address)
      && Some(r.value.gaugeBalance) == PickBalance(e.gauges, e.gaugeBalances, StakingKey(pool))
      && Some(r.value.farmBalance) == PickBalance(e.farms, e.farmBalances, StakingKey(pool))
      && r.value.totalBalance == r.value.walletBalance + r.value.gaugeBalance + r.value.farmBalance
      && r.value.timestamp == e.timestamp
      && r.value.userAddress == Lower(e.userId)
      && IsLower(r.value.userAddress)
      && r.value.id == pool.address + "-" + r.value.userAddress + "-" + e.id
      && r.value.poolId == pool.id && r.value.poolToken == pool.address
      && r.value.valuation == valuate(r.value.totalBalance, ps)
  {
    var wallet := PickBalance(e.walletTokens, e.walletBalances, pool.address);
    var gauge := PickBalance(e.gauges, e.gaugeBalances, StakingKey(pool));
    var farm := PickBalance(e.farms, e.farmBalances, StakingKey(pool));
    if wallet.None? || gauge.None? || farm.None? then Failure(MissingBalance(e.id))
    else
      var total := wallet.value + gauge.value + farm.value;
      var user := Lower(e.userId);
      Success(BalanceRow(
        pool.address + "-" + user + "-" + e.id,
        e.timestamp, user, pool.id, pool.address,
        wallet.value, gauge.value, farm.value, total,
        valuate(total, ps)))
  }

  /** `Array.prototype.find` on pool snapshots by exact timestamp. */
  function FindPoolSnapshot(snapshots: seq<PoolSnapshot>, t: int): (r: Option<PoolSnapshot>)
    ensures r.Some? ==> r.value.timestamp == t && r.value in snapshots
    decreases |snapshots|
  {
    if snapshots == [] then None
    else if snapshots[0].timestamp == t then Some(snapshots[0])
    else FindPoolSnapshot(snapshots[1..], t)
  }

  /** The lookup finds nothing exactly when no snapshot carries `t`, and
      otherwise finds the first one that does. */
  lemma {:induction false} FindPoolSnapshotFirst(snapshots: seq<PoolSnapshot>, t: int)
    ensures FindPoolSnapshot(snapshots, t).None? <==> forall i :: 0 <= i < |snapshots| ==> snapshots[i].timestamp != t
    ensures FindPoolSnapshot(snapshots, t).Some? ==>
      exists i :: 0 <= i < |snapshots| && snapshots[i] == FindPoolSnapshot(snapshots, t).value &&
        (forall j :: 0 <= j < i ==> snapshots[j].timestamp != t)
    decreases |snapshots|
  {
    if snapshots != [] && snapshots[0].timestamp != t {
      FindPoolSnapshotFirst(snapshots[1..], t);
      assert forall i :: 1 <= i < |snapshots| ==> snapshots[i] == snapshots[1..][i - 1];
      if FindPoolSnapshot(snapshots, t).Some? {
        var i :| 0 <= i < |snapshots[1..]| && snapshots[1..][i] == FindPoolSnapshot(snapshots, t).value &&
          (forall j :: 0 <= j < i ==> snapshots[1..][j].timestamp != t);
        assert snapshots[i + 1] == FindPoolSnapshot(snapshots, t).value;
      }
    }
  }

  /** The rows enrichment produces for `events`, in order: an event without
      a pool snapshot at its timestamp is skipped; the first event whose row
      cannot be built makes the whole enrichment fail. */
  function Enriched(events: seq<BalanceEvent>, pool: Pool, lookup: seq<PoolSnapshot>,
                    valuate: (Fixed, PoolSnapshot) -> Valuation): Result<seq<BalanceRow>, EnrichError>
    decreases |events|
  {
    if events == [] then Success([])
    else
      var last := events[|events| - 1];
      match Enriched(events[..|events| - 1], pool, lookup, valuate)
      case Failure(err) => Failure(err)
      case Success(rows) =>
        match FindPoolSnapshot(lookup, last.timestamp)
        case None => Success(rows)
        case Some(ps) =>
          match BuildRow(last, pool, ps, valuate)
          case Failure(err) => Failure(err)
          case Success(row) => Success(rows + [row])
  }

  /** The events that have a pool snapshot at their timestamp, in order:
      what the `continue` at lines 201-204 lets through. */
  function Valued(events: seq<BalanceEvent>, lookup: seq<PoolSnapshot>): (r: seq<BalanceEvent>)
    ensures forall e :: e in r ==> e in events && FindPoolSnapshot(lookup, e.timestamp).Some?
    ensures forall i :: 0 <= i < |events| && FindPoolSnapshot(lookup, events[i].timestamp).Some? ==> events[i] in r
    decreases |events|
  {
    if events == [] then []
    else
      var last := events[|events| - 1];
      var rest := Valued(events[..|events| - 1], lookup);
      assert forall i :: 0 <= i < |events| - 1 ==> events[..|events| - 1][i] == events[i];
      if FindPoolSnapshot(lookup, last.timestamp).Some? then rest + [last] else rest
  }

  /** The positions of the events that have a pool snapshot, ascending. */
  function ValuedPositions(events: seq<BalanceEvent>, lookup: seq<PoolSnapshot>): (p: seq<int>)
    ensures forall k :: 0 <= k < |p| ==> 0 <= p[k] < |events| && FindPoolSnapshot(lookup, events[p[k]].timestamp).Some?
    ensures forall k, l :: 0 <= k < l < |p| ==> p[k] < p[l]
    ensures forall i :: 0 <= i < |events| && FindPoolSnapshot(lookup, events[i].timestamp).Some? ==> i in p
    decreases |events|
  {
    if events == [] then []
    else
      var n := |events| - 1;
      var rest := ValuedPositions(events[..n], lookup);
      assert forall i :: 0 <= i < n ==> events[..n][i] == events[i];
      if FindPoolSnapshot(lookup, events[n].timestamp).Some? then rest + [n] else rest
  }

  /** The kept events are the input's events at the valued positions: every
      event with a pool snapshot, and no other, in input order. */
  lemma {:induction false} ValuedSelects(events: seq<BalanceEvent>, lookup: seq<PoolSnapshot>)
    ensures var p := ValuedPositions(events, lookup);
      && |Valued(events, lookup)| == |p|
      && forall k :: 0 <= k < |p| ==> Valued(events, lookup)[k] == events[p[k]]
    decreases |events|
  {
    if events != [] {
      var n := |events| - 1;
      ValuedSelects(events[..n], lookup);
      var p := ValuedPositions(events[..n], lookup);
      var rest := Valued(events[..n], lookup);
      var q := ValuedPositions(events, lookup);
      var r := Valued(events, lookup);
      if FindPoolSnapshot(lookup, events[n].timestamp).Some? {
        assert q == p + [n] && r == rest + [events[n]];
      } else {
        assert q == p && r == rest;
      }
      forall k | 0 <= k < |q|
        ensures r[k] == events[q[k]]
      {
        if k < |p| {
          assert r[k] == rest[k] == events[..n][p[k]];
        }
      }
    }
  }

  /** The row of a valued event: built from the event and its pool snapshot. */
  function RowOf(e: BalanceEvent, pool: Pool, lookup: seq<PoolSnapshot>,
                 valuate: (Fixed, PoolSnapshot) -> Valuation): Result<BalanceRow, EnrichError>
    requires FindPoolSnapshot(lookup, e.timestamp).Some?
  {
    BuildRow(e, pool, FindPoolSnapshot(lookup, e.timestamp).value, valuate)
  }

  /** `i` is the first of the valued events whose row cannot be built. */
  ghost predicate FirstUnbuildable(kept: seq<BalanceEvent>, i: int, pool: Pool, lookup: seq<PoolSnapshot>,
                                   valuate: (Fixed, PoolSnapshot) -> Valuation)
    requires forall e :: e in kept ==> FindPoolSnapshot(lookup, e.timestamp).Some?
  {
    && 0 <= i < |kept|
    && RowOf(kept[i], pool, lookup, valuate).Failure?
    && forall j :: 0 <= j < i ==> RowOf(kept[j], pool, lookup, valuate).Success?
  }

  /** One row per valued event, in input order, each built from that event
      and its pool snapshot; no row for any other event. */
  lemma {:induction false} EnrichedRowPerValuedEvent(events: seq<BalanceEvent>, pool: Pool,
                                                      lookup: seq<PoolSnapshot>,
                                                      valuate: (Fixed, PoolSnapshot) -> Valuation)
    requires Enriched(events, pool, lookup, valuate).Success?
    ensures var rows := Enriched(events, pool, lookup, valuate).value;
      var kept := Valued(events, lookup);
      && |rows| == |kept|
      && forall i :: 0 <= i < |rows| ==> RowOf(kept[i], pool, lookup, valuate) == Success(rows[i])
    decreases |events|
  {
    if events != [] {
      EnrichedRowPerValuedEvent(events[..|events| - 1], pool, lookup, valuate);
    }
  }

  /** A failed enrichment reports the first valued event whose row cannot
      be built. */
  lemma {:induction false} EnrichedFailureIsFirstUnbuildable(events: seq<BalanceEvent>, pool: Pool,
                                                              lookup: seq<PoolSnapshot>,
                                                              valuate: (Fixed, PoolSnapshot) -> Valuation)
    requires Enriched(events, pool, lookup, valuate).Failure?
    ensures exists i ::
      && FirstUnbuildable(Valued(events, lookup), i, pool, lookup, valuate)
      && Enriched(events, pool, lookup, valuate).error == MissingBalance(Valued(events, lookup)[i].id)
    decreases |events|
  {
    var init := events[..|events| - 1];
    var last := events[|events| - 1];
    var kept := Valued(events, lookup);
    var keptInit := Valued(init, lookup);
    assert kept[..|keptInit|] == keptInit;
    if Enriched(init, pool, lookup, valuate).Failure? {
      EnrichedFailureIsFirstUnbuildable(init, pool, lookup, valuate);
      var i :| FirstUnbuildable(keptInit, i, pool, lookup, valuate) &&
        Enriched(init, pool, lookup, valuate).error == MissingBalance(keptInit[i].id);
      assert kept[i] == keptInit[i];
      assert forall j :: 0 <= j < i ==> kept[j] == keptInit[j];
      assert FirstUnbuildable(kept, i, pool, lookup, valuate);
    } else {
      EnrichedRowPerValuedEvent(init, pool, lookup, valuate);
      assert kept == keptInit + [last];
      assert forall j :: 0 <= j < |keptInit| ==> kept[j] == keptInit[j];
      assert FirstUnbuildable(kept, |keptInit|, pool, lookup, valuate);
    }
  }

  /** Enrichment fails exactly when some valued event's row cannot be built. */
  lemma EnrichedFailsIffUnbuildable(events: seq<BalanceEvent>, pool: Pool, lookup: seq<PoolSnapshot>,
                                    valuate: (Fixed, PoolSnapshot) -> Valuation)
    ensures var kept := Valued(events, lookup);
      Enriched(events, pool, lookup, valuate).Failure? <==>
        exists i :: 0 <= i < |kept| && RowOf(kept[i], pool, lookup, valuate).Failure?
  {
    var kept := Valued(events, lookup);
    if Enriched(events, pool, lookup, valuate).Failure? {
      EnrichedFailureIsFirstUnbuildable(events, pool, lookup, valuate);
    } else {
      EnrichedRowPerValuedEvent(events, pool, lookup, valuate);
      assert forall i :: 0 <= i < |kept| ==> RowOf(kept[i], pool, lookup, valuate).Success?;
    }
  }

  /** The enrichment loop of the service: walk the events in order, skip
      those without a pool snapshot, and push one row for each of the
      others. */
  method EnrichSnapshots(events: seq<BalanceEvent>, pool: Pool, lookup: seq<PoolSnapshot>,
                         valuate: (Fixed, PoolSnapshot) -> Valuation)
    returns (r: Result<seq<BalanceRow>, EnrichError>)
    ensures r == Enriched(events, pool, lookup, valuate)
  {
    var input: seq<BalanceRow> := [];
    for i := 0 to |events|
      invariant Enriched(events[..i], pool, lookup, valuate) == Success(input)
    {
      var e := events[i];
      assert events[..i + 1][..i] == events[..i];
      var poolSnapshotForTimestamp := FindPoolSnapshot(lookup, e.timestamp);
      if poolSnapshotForTimestamp.None? {
        continue;
      }
      var row := BuildRow(e, pool, poolSnapshotForTimestamp.value, valuate);
      if row.Failure? {
        EnrichedFailurePropagates(events, i + 1, pool, lookup, valuate);
        return Failure(row.error);
      }
      input := input + [row.value];
    }
    assert events[..|events|] == events;
    r := Success(input);
  }

  /** Once a prefix of the events fails, every longer prefix fails with the
      same error. */
  lemma {:induction false} EnrichedFailurePropagates(events: seq<BalanceEvent>, n: nat, pool: Pool,
                                                      lookup: seq<PoolSnapshot>,
                                                      valuate: (Fixed, PoolSnapshot) -> Valuation)
    requires n <= |events|
    requires Enriched(events[..n], pool, lookup, valuate).Failure?
    ensures Enriched(events, pool, lookup, valuate) == Enriched(events[..n], pool, lookup, valuate)
    decreases |events| - n
  {
    if n < |events| {
      assert events[..n + 1][..n] == events[..n];
      EnrichedFailurePropagates(events, n + 1, pool, lookup, valuate);
    } else {
      assert events[..n] == events;
    }
  }

  // ---------------------------------------------------------------------
  // Bootstrap of a user's history for one pool

  datatype Bootstrap =
    | NoHistory                          // no relevant event: the query returns []
    | Persist(rows: seq<BalanceRow>)     // rows handed to `createMany`
    | Throws(error: EnrichError)         // enrichment threw

  /** What the service does when no row is stored yet: keep the relevant
      events, return an empty series when there are none, and otherwise
      enrich them into rows to persist. */
  method BootstrapHistory(events: seq<BalanceEvent>, pool: Pool, lookup: seq<PoolSnapshot>,
                          valuate: (Fixed, PoolSnapshot) -> Valuation)
    returns (b: Bootstrap)
    ensures b.NoHistory? <==> forall e :: e in events ==> !IsRelevant(e, pool)
    ensures b.Persist? ==> Enriched(RelevantEvents(events, pool), pool, lookup, valuate) == Success(b.rows)
    ensures b.Throws? ==> Enriched(RelevantEvents(events, pool), pool, lookup, valuate) == Failure(b.error)
  {
    var forPool := RelevantEvents(events, pool);
    if |forPool| == 0 {
      return NoHistory;
    }
    var enriched := EnrichSnapshots(forPool, pool, lookup, valuate);
    match enriched
    case Success(rows) => b := Persist(rows);
    case Failure(err) => b := Throws(err);
  }
}
