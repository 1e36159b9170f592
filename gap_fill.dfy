/** The gap-fill walk of `getUserSnapshotsForPool`, as the service writes it.
    Starting from the stored rows (ascending by timestamp, as the table query
    orders them) and the pool's snapshots, the walk copies the first stored
    row, then before each further stored row synthesizes one-day steps that
    carry the previous balances forward, and finally extends the series
    towards the start of today.

    Both while loops of the service can stop making progress: when the pool
    has no snapshot for the next day, the loop `continue`s without pushing,
    and when the last balance is not positive the extension loop's body does
    nothing at all. In either state the loop re-tests the same condition on
    the same array forever. The model returns `Spins` with the state it is
    stuck in instead of running forever; the lemmas at the end prove that
    the service's loop body leaves that state unchanged, pass after pass. */
module GapFill {
  import opened Wrappers
  import opened UserSnapshot

  /** An entry of the series the query returns. */
  datatype UserPoolSnapshot = UserPoolSnapshot(
    timestamp: int,
    walletBalance: Fixed,
    farmBalance: Fixed,
    gaugeBalance: Fixed,
    totalBalance: Fixed,
    valuation: Valuation)

  /** Where the walk stopped making progress. */
  datatype Site =
    | FillingGapBefore(index: nat)   // the gap loop before stored row `index`
    | ExtendingToToday               // the extension loop towards today

  /** What the walk does: return a series, throw because there is no stored
      row to read at index 0, or spin forever in the state `rows`. */
  datatype Walk =
    | Returned(rows: seq<UserPoolSnapshot>)
    | ThrowsOnEmpty
    | Spins(rows: seq<UserPoolSnapshot>, site: Site)

  /** A stored row as it enters the series (its stored share is parsed back
      to the number it was written from). */
  function FromStored(row: BalanceRow): UserPoolSnapshot {
    UserPoolSnapshot(row.timestamp, row.walletBalance, row.farmBalance, row.gaugeBalance,
                     row.totalBalance, row.valuation)
  }

  /** The entry synthesized at `timestamp` from the entry before it and the
      pool snapshot of that day. */
  function CarryForward(previous: UserPoolSnapshot, timestamp: int, ps: PoolSnapshot,
                        valuate: (Fixed, PoolSnapshot) -> Valuation): UserPoolSnapshot {
    UserPoolSnapshot(timestamp, previous.walletBalance, previous.farmBalance, previous.gaugeBalance,
                     previous.totalBalance, valuate(previous.totalBalance, ps))
  }

  /** `row` is a synthesized day after `previous`: one day later, the same
      four balances, and valued against the pool snapshot that carries
      exactly that timestamp. */
  ghost predicate CarriedForward(previous: UserPoolSnapshot, row: UserPoolSnapshot,
                                 poolSnapshots: seq<PoolSnapshot>, valuate: (Fixed, PoolSnapshot) -> Valuation) {
    && row.timestamp == previous.timestamp + OneDay
    && row.walletBalance == previous.walletBalance
    && row.farmBalance == previous.farmBalance
    && row.gaugeBalance == previous.gaugeBalance
    && row.totalBalance == previous.totalBalance
    && match FindPoolSnapshot(poolSnapshots, row.timestamp)
       case None => false
       case Some(ps) => row.valuation == valuate(previous.totalBalance, ps)
  }

  /** Every entry of `rows` from position `from` on is carried forward from
      the entry before it. */
  ghost predicate CarriedFrom(rows: seq<UserPoolSnapshot>, from: nat,
                              poolSnapshots: seq<PoolSnapshot>, valuate: (Fixed, PoolSnapshot) -> Valuation)
    requires 0 < from
  {
    forall k :: from <= k < |rows| ==> CarriedAt(rows, k, poolSnapshots, valuate)
  }

  /** Entry `k` of `rows` is carried forward from the entry before it. */
  ghost predicate CarriedAt(rows: seq<UserPoolSnapshot>, k: nat,
                            poolSnapshots: seq<PoolSnapshot>, valuate: (Fixed, PoolSnapshot) -> Valuation)
    requires 0 < k < |rows|
  {
    CarriedForward(rows[k - 1], rows[k], poolSnapshots, valuate)
  }

  // Orderings of timestamps.

  ghost predicate StoredNonDecreasing(stored: seq<BalanceRow>) {
    forall i :: 0 < i < |stored| ==> stored[i - 1].timestamp <= stored[i].timestamp
  }

  ghost predicate StoredIncreasing(stored: seq<BalanceRow>) {
    forall i :: 0 < i < |stored| ==> stored[i - 1].timestamp < stored[i].timestamp
  }

  /** Every stored timestamp is the start of a (UTC) day. */
  ghost predicate StoredAligned(stored: seq<BalanceRow>) {
    forall i :: 0 <= i < |stored| ==> stored[i].timestamp % OneDay == 0
  }

  ghost predicate NonDecreasing(rows: seq<UserPoolSnapshot>) {
    forall k :: 0 < k < |rows| ==> rows[k - 1].timestamp <= rows[k].timestamp
  }

  ghost predicate Increasing(rows: seq<UserPoolSnapshot>) {
    forall k :: 0 < k < |rows| ==> rows[k - 1].timestamp < rows[k].timestamp
  }

  ghost predicate Aligned(rows: seq<UserPoolSnapshot>) {
    forall k :: 0 <= k < |rows| ==> rows[k].timestamp % OneDay == 0
  }

  /** Consecutive entries are exactly one day apart. */
  ghost predicate Daily(rows: seq<UserPoolSnapshot>) {
    forall k :: 0 < k < |rows| ==> rows[k].timestamp == rows[k - 1].timestamp + OneDay
  }

  /** The state in which the gap loop spins: the next day is still before
      the next stored row, but the pool has no snapshot for it. */
  ghost predicate GapStuck(rows: seq<UserPoolSnapshot>, target: int, poolSnapshots: seq<PoolSnapshot>) {
    && |rows| > 0
    && rows[|rows| - 1].timestamp + OneDay < target
    && FindPoolSnapshot(poolSnapshots, rows[|rows| - 1].timestamp + OneDay).None?
  }

  /** The state in which the extension loop spins: the last entry is before
      today, and either its balance is not positive or the pool has no
      snapshot for the next day. */
  ghost predicate ForwardStuck(rows: seq<UserPoolSnapshot>, startOfToday: int, poolSnapshots: seq<PoolSnapshot>) {
    && |rows| > 0
    && rows[|rows| - 1].timestamp < startOfToday
    && (rows[|rows| - 1].totalBalance <= 0 ||
        FindPoolSnapshot(poolSnapshots, rows[|rows| - 1].timestamp + OneDay).None?)
  }

  // ---------------------------------------------------------------------
  // The walk as functions

  /** Where one of the inner loops leaves the series: it `Reached` the
      loop's exit condition, or it is `Stuck` in a state it never leaves. */
  datatype Fill = Reached(rows: seq<UserPoolSnapshot>) | Stuck(rows: seq<UserPoolSnapshot>)

  /** The gap loop before a stored row at `target` (lines 106-130): push a
      carried-forward day while the day after the last entry is still
      before `target`. On exit the last entry is at most a day before
      `target`; `FillGapCarries` says what the loop adds. */
  function FillGap(rows: seq<UserPoolSnapshot>, target: int, poolSnapshots: seq<PoolSnapshot>,
                   valuate: (Fixed, PoolSnapshot) -> Valuation): (r: Fill)
    requires |rows| > 0
    ensures |r.rows| >= |rows|
    ensures r.Reached? ==> r.rows[|r.rows| - 1].timestamp + OneDay >= target
    ensures r.Stuck? ==> GapStuck(r.rows, target, poolSnapshots)
    decreases target - rows[|rows| - 1].timestamp
  {
    var previous := rows[|rows| - 1];
    var current := previous.timestamp + OneDay;
    if current >= target then Reached(rows)
    else match FindPoolSnapshot(poolSnapshots, current)
      case None => Stuck(rows)
      case Some(ps) => FillGap(rows + [CarryForward(previous, current, ps, valuate)], target, poolSnapshots, valuate)
  }

  /** The gap loop only appends, and what it appends is carried forward day
      by day and earlier than `target`. */
  lemma {:induction false} FillGapCarries(rows: seq<UserPoolSnapshot>, target: int, poolSnapshots: seq<PoolSnapshot>,
                                          valuate: (Fixed, PoolSnapshot) -> Valuation)
    requires |rows| > 0
    ensures var r := FillGap(rows, target, poolSnapshots, valuate).rows;
      && r[..|rows|] == rows
      && CarriedFrom(r, |rows|, poolSnapshots, valuate)
      && forall k :: |rows| <= k < |r| ==> r[k].timestamp < target
    decreases target - rows[|rows| - 1].timestamp
  {
    var previous := rows[|rows| - 1];
    var current := previous.timestamp + OneDay;
    if current < target {
      var found := FindPoolSnapshot(poolSnapshots, current);
      if found.Some? {
        var next := CarryForward(previous, current, found.value, valuate);
        FillGapCarries(rows + [next], target, poolSnapshots, valuate);
        var r := FillGap(rows, target, poolSnapshots, valuate).rows;
        assert CarriedForward(previous, next, poolSnapshots, valuate);
        CarriedPrefixStep(rows, next, r, poolSnapshots, valuate);
      }
    }
  }

  /** The extension loop (lines 143-167): while the last entry is before
      today, push a carried-forward day, which only happens when the last
      balance is positive. On exit the last entry is not before today;
      `FillForwardCarries` says what the loop adds. */
  function FillForward(rows: seq<UserPoolSnapshot>, startOfToday: int, poolSnapshots: seq<PoolSnapshot>,
                       valuate: (Fixed, PoolSnapshot) -> Valuation): (r: Fill)
    requires |rows| > 0
    ensures |r.rows| >= |rows|
    ensures r.Reached? ==> r.rows[|r.rows| - 1].timestamp >= startOfToday
    ensures r.Stuck? ==> ForwardStuck(r.rows, startOfToday, poolSnapshots)
    decreases startOfToday - rows[|rows| - 1].timestamp
  {
    var last := rows[|rows| - 1];
    if last.timestamp >= startOfToday then Reached(rows)
    else if last.totalBalance <= 0 then Stuck(rows)
    else
      var current := last.timestamp + OneDay;
      match FindPoolSnapshot(poolSnapshots, current)
      case None => Stuck(rows)
      case Some(ps) => FillForward(rows + [CarryForward(last, current, ps, valuate)], startOfToday, poolSnapshots, valuate)
  }

  /** A series that starts with `rows` and one more carried entry keeps
      `rows` as its prefix, and is carried from where `rows` ends. */
  lemma CarriedPrefixStep(rows: seq<UserPoolSnapshot>, next: UserPoolSnapshot, r: seq<UserPoolSnapshot>,
                          poolSnapshots: seq<PoolSnapshot>, valuate: (Fixed, PoolSnapshot) -> Valuation)
    requires |rows| > 0 && |r| > |rows|
    requires CarriedForward(rows[|rows| - 1], next, poolSnapshots, valuate)
    requires r[..|rows| + 1] == rows + [next]
    requires CarriedFrom(r, |rows| + 1, poolSnapshots, valuate)
    ensures r[..|rows|] == rows
    ensures CarriedFrom(r, |rows|, poolSnapshots, valuate)
  {
    assert r[..|rows|] == r[..|rows| + 1][..|rows|] == rows;
    assert r[|rows| - 1] == r[..|rows| + 1][|rows| - 1] && r[|rows|] == r[..|rows| + 1][|rows|];
  }

  /** The extension loop only appends, only from a positive balance, and
      each day it appends is carried forward from an entry before today. */
  lemma {:induction false} FillForwardCarries(rows: seq<UserPoolSnapshot>, startOfToday: int,
                                              poolSnapshots: seq<PoolSnapshot>,
                                              valuate: (Fixed, PoolSnapshot) -> Valuation)
    requires |rows| > 0
    ensures var r := FillForward(rows, startOfToday, poolSnapshots, valuate).rows;
      && r[..|rows|] == rows
      && CarriedFrom(r, |rows|, poolSnapshots, valuate)
      && (|r| > |rows| ==> rows[|rows| - 1].totalBalance > 0)
      && forall k :: |rows| <= k < |r| ==> r[k].timestamp - OneDay < startOfToday
    decreases startOfToday - rows[|rows| - 1].timestamp
  {
    var last := rows[|rows| - 1];
    var current := last.timestamp + OneDay;
    if last.timestamp < startOfToday && last.totalBalance > 0 {
      var found := FindPoolSnapshot(poolSnapshots, current);
      if found.Some? {
        var next := CarryForward(last, current, found.value, valuate);
        FillForwardCarries(rows + [next], startOfToday, poolSnapshots, valuate);
        var r := FillForward(rows, startOfToday, poolSnapshots, valuate).rows;
        assert CarriedForward(last, next, poolSnapshots, valuate);
        CarriedPrefixStep(rows, next, r, poolSnapshots, valuate);
      }
    }
  }

  /** The series after the first `j` stored rows have been walked (the
      outer loop, lines 99-141): `Returned(rows)` here means the walk goes
      on with `rows`. Its last entry is stored row `j - 1`; a spin can only
      happen in the gap before one of the rows walked. */
  function AfterStored(stored: seq<BalanceRow>, j: nat, poolSnapshots: seq<PoolSnapshot>,
                       valuate: (Fixed, PoolSnapshot) -> Valuation): (r: Walk)
    requires 0 < j <= |stored|
    ensures !r.ThrowsOnEmpty?
    ensures r.Returned? ==> |r.rows| >= j && r.rows[|r.rows| - 1] == FromStored(stored[j - 1])
    ensures r.Spins? ==>
      && r.site.FillingGapBefore?
      && 0 < r.site.index < j
      && GapStuck(r.rows, stored[r.site.index].timestamp, poolSnapshots)
    decreases j
  {
    if j == 1 then Returned([FromStored(stored[0])])
    else
      var walked := AfterStored(stored, j - 1, poolSnapshots, valuate);
      if !walked.Returned? then walked
      else match FillGap(walked.rows, stored[j - 1].timestamp, poolSnapshots, valuate)
        case Stuck(r) => Spins(r, FillingGapBefore(j - 1))
        case Reached(r) => Returned(r + [FromStored(stored[j - 1])])
  }

  /** The whole walk of the service (lines 87-169) on the stored rows in the
      order the query returns them. It throws exactly when there is no
      stored row; when it returns, the last entry is not before today; when
      it spins, the state is one its loop never leaves. */
  function AsWritten(stored: seq<BalanceRow>, poolSnapshots: seq<PoolSnapshot>, startOfToday: int,
                     valuate: (Fixed, PoolSnapshot) -> Valuation): (r: Walk)
    ensures r.ThrowsOnEmpty? <==> stored == []
    ensures !r.ThrowsOnEmpty? ==> |r.rows| > 0 && r.rows[0] == FromStored(stored[0])
    ensures r.Returned? ==> r.rows[|r.rows| - 1].timestamp >= startOfToday
    ensures r.Spins? && r.site.ExtendingToToday? ==> ForwardStuck(r.rows, startOfToday, poolSnapshots)
    ensures r.Spins? && r.site.FillingGapBefore? ==>
      0 < r.site.index < |stored| && GapStuck(r.rows, stored[r.site.index].timestamp, poolSnapshots)
  {
    if stored == [] then ThrowsOnEmpty
    else
      FirstEntryStays(stored, |stored|, poolSnapshots, valuate);
      var walked := AfterStored(stored, |stored|, poolSnapshots, valuate);
      if !walked.Returned? then walked
      else
        FillForwardCarries(walked.rows, startOfToday, poolSnapshots, valuate);
        match FillForward(walked.rows, startOfToday, poolSnapshots, valuate)
        case Stuck(r) => Spins(r, ExtendingToToday)
        case Reached(r) => Returned(r)
  }

  /** The first entry of the series is stored row 0, whatever happens later. */
  lemma {:induction false} FirstEntryStays(stored: seq<BalanceRow>, j: nat, poolSnapshots: seq<PoolSnapshot>,
                                           valuate: (Fixed, PoolSnapshot) -> Valuation)
    requires 0 < j <= |stored|
    ensures |AfterStored(stored, j, poolSnapshots, valuate).rows| > 0
    ensures AfterStored(stored, j, poolSnapshots, valuate).rows[0] == FromStored(stored[0])
    decreases j
  {
    if j > 1 {
      FirstEntryStays(stored, j - 1, poolSnapshots, valuate);
      var walked := AfterStored(stored, j - 1, poolSnapshots, valuate);
      if walked.Returned? {
        FillGapCarries(walked.rows, stored[j - 1].timestamp, poolSnapshots, valuate);
      }
    }
  }

  /** Once the walk spins before some stored row, walking more rows does not
      change that. */
  lemma {:induction false} SpinsPersist(stored: seq<BalanceRow>, j: nat, m: nat, poolSnapshots: seq<PoolSnapshot>,
                                        valuate: (Fixed, PoolSnapshot) -> Valuation)
    requires 0 < j <= m <= |stored|
    requires AfterStored(stored, j, poolSnapshots, valuate).Spins?
    ensures AfterStored(stored, m, poolSnapshots, valuate) == AfterStored(stored, j, poolSnapshots, valuate)
    decreases m
  {
    if m > j {
      SpinsPersist(stored, j, m - 1, poolSnapshots, valuate);
    }
  }

  /** One pass of the outer loop over stored row `j`: a gap loop that spins
      decides the whole walk, one that stops leads to `AfterStored(j + 1)`. */
  lemma StoredPass(stored: seq<BalanceRow>, j: nat, rows: seq<UserPoolSnapshot>, gap: Fill,
                   poolSnapshots: seq<PoolSnapshot>, valuate: (Fixed, PoolSnapshot) -> Valuation)
    requires 0 < j < |stored| && |rows| > 0
    requires AfterStored(stored, j, poolSnapshots, valuate) == Returned(rows)
    requires gap == FillGap(rows, stored[j].timestamp, poolSnapshots, valuate)
    ensures gap.Stuck? ==> AfterStored(stored, |stored|, poolSnapshots, valuate) == Spins(gap.rows, FillingGapBefore(j))
    ensures gap.Reached? ==> AfterStored(stored, j + 1, poolSnapshots, valuate) == Returned(gap.rows + [FromStored(stored[j])])
  {
    if gap.Stuck? {
      SpinsPersist(stored, j + 1, |stored|, poolSnapshots, valuate);
    }
  }

  // ---------------------------------------------------------------------
  // The walk as the service writes it

  /** The gap loop of lines 106-130 on the series `rows`, before a stored
      row at `target`. */
  method RunGapLoop(rows: seq<UserPoolSnapshot>, target: int, poolSnapshots: seq<PoolSnapshot>,
                    valuate: (Fixed, PoolSnapshot) -> Valuation)
    returns (r: Fill)
    requires |rows| > 0
    ensures r == FillGap(rows, target, poolSnapshots, valuate)
  {
    var userPoolSnapshots := rows;
    while userPoolSnapshots[|userPoolSnapshots| - 1].timestamp + OneDay < target
      invariant |userPoolSnapshots| > 0
      invariant FillGap(userPoolSnapshots, target, poolSnapshots, valuate) == FillGap(rows, target, poolSnapshots, valuate)
      decreases target - userPoolSnapshots[|userPoolSnapshots| - 1].timestamp
    {
      var previousUserSnapshot := userPoolSnapshots[|userPoolSnapshots| - 1];
      var currentTimestamp := previousUserSnapshot.timestamp + OneDay;
      var poolSnapshot := FindPoolSnapshot(poolSnapshots, currentTimestamp);
      if poolSnapshot.None? {
        // `continue` at line 115 without pushing: the loop re-tests the same state forever
        return Stuck(userPoolSnapshots);
      }
      userPoolSnapshots := userPoolSnapshots
        + [CarryForward(previousUserSnapshot, currentTimestamp, poolSnapshot.value, valuate)];
    }
    return Reached(userPoolSnapshots);
  }

  /** The extension loop of lines 143-167 on the series `rows`. */
  method RunExtensionLoop(rows: seq<UserPoolSnapshot>, startOfToday: int, poolSnapshots: seq<PoolSnapshot>,
                          valuate: (Fixed, PoolSnapshot) -> Valuation)
    returns (r: Fill)
    requires |rows| > 0
    ensures r == FillForward(rows, startOfToday, poolSnapshots, valuate)
  {
    var userPoolSnapshots := rows;
    while userPoolSnapshots[|userPoolSnapshots| - 1].timestamp < startOfToday
      invariant |userPoolSnapshots| > 0
      invariant FillForward(userPoolSnapshots, startOfToday, poolSnapshots, valuate)
             == FillForward(rows, startOfToday, poolSnapshots, valuate)
      decreases startOfToday - userPoolSnapshots[|userPoolSnapshots| - 1].timestamp
    {
      var lastSnapshot := userPoolSnapshots[|userPoolSnapshots| - 1];
      if lastSnapshot.totalBalance > 0 {
        var previousUserSnapshot := userPoolSnapshots[|userPoolSnapshots| - 1];
        var currentTimestamp := previousUserSnapshot.timestamp + OneDay;
        var poolSnapshot := FindPoolSnapshot(poolSnapshots, currentTimestamp);
        if poolSnapshot.None? {
          // `continue` at line 151 without pushing: the loop re-tests the same state forever
          return Stuck(userPoolSnapshots);
        }
        userPoolSnapshots := userPoolSnapshots
          + [CarryForward(previousUserSnapshot, currentTimestamp, poolSnapshot.value, valuate)];
      } else {
        // the body of lines 145-166 does nothing for a balance that is not positive
        return Stuck(userPoolSnapshots);
      }
    }
    return Reached(userPoolSnapshots);
  }

  /** The first push and the loop over the stored rows (lines 89-141): the
      loop skips the first row with the `firstIteration` flag, fills the gap
      before each further row and pushes it. */
  method RunStoredLoop(stored: seq<BalanceRow>, poolSnapshots: seq<PoolSnapshot>,
                       valuate: (Fixed, PoolSnapshot) -> Valuation)
    returns (walked: Walk)
    requires |stored| > 0
    ensures walked == AfterStored(stored, |stored|, poolSnapshots, valuate)
  {
    var userPoolSnapshots := [FromStored(stored[0])];
    var firstIteration := true;
    for j := 0 to |stored|
      invariant firstIteration <==> j == 0
      invariant j == 0 ==> userPoolSnapshots == [FromStored(stored[0])]
      invariant j > 0 ==> AfterStored(stored, j, poolSnapshots, valuate) == Returned(userPoolSnapshots)
    {
      var snapshot := stored[j];
      if firstIteration {
        firstIteration := false;
        continue;
      }
      var gap := RunGapLoop(userPoolSnapshots, snapshot.timestamp, poolSnapshots, valuate);
      StoredPass(stored, j, userPoolSnapshots, gap, poolSnapshots, valuate);
      if gap.Stuck? {
        return Spins(gap.rows, FillingGapBefore(j));
      }
      userPoolSnapshots := gap.rows + [FromStored(snapshot)];
    }
    return Returned(userPoolSnapshots);
  }

  /** The walk of `getUserSnapshotsForPool` (lines 87-169): the stored rows,
      then the extension towards today. A loop state the service never
      leaves is reported as `Spins`. */
  method WalkAsWritten(stored: seq<BalanceRow>, poolSnapshots: seq<PoolSnapshot>, startOfToday: int,
                       valuate: (Fixed, PoolSnapshot) -> Valuation)
    returns (outcome: Walk)
    ensures outcome == AsWritten(stored, poolSnapshots, startOfToday, valuate)
  {
    if |stored| == 0 {
      // line 90 reads `storedUserSnapshotsFromRange[0].timestamp` of an empty array
      return ThrowsOnEmpty;
    }
    var walked := RunStoredLoop(stored, poolSnapshots, valuate);
    if !walked.Returned? {
      return walked;
    }
    var extension := RunExtensionLoop(walked.rows, startOfToday, poolSnapshots, valuate);
    if extension.Stuck? {
      return Spins(extension.rows, ExtendingToToday);
    }
    return Returned(extension.rows);
  }

  // ---------------------------------------------------------------------
  // Ordering and placement of what the walk builds

  /** Two day-aligned timestamps at most a day apart, the second later, are
      exactly a day apart. */
  lemma NextAlignedDay(a: int, b: int)
    requires a % OneDay == 0 && b % OneDay == 0
    requires a < b <= a + OneDay
    ensures b == a + OneDay
  {
    var qa, qb := a / OneDay, b / OneDay;
    assert a == qa * OneDay && b == qb * OneDay;
    assert qa < qb <= qa + 1;
  }

  /** What appending an entry does to the orderings of timestamps. */
  lemma Extend(rows: seq<UserPoolSnapshot>, next: UserPoolSnapshot)
    requires |rows| > 0
    ensures var last := rows[|rows| - 1].timestamp;
      && (NonDecreasing(rows) && last <= next.timestamp ==> NonDecreasing(rows + [next]))
      && (Increasing(rows) && last < next.timestamp ==> Increasing(rows + [next]))
      && (Daily(rows) && next.timestamp == last + OneDay ==> Daily(rows + [next]))
      && (Aligned(rows) && next.timestamp % OneDay == 0 ==> Aligned(rows + [next]))
  {
    var longer := rows + [next];
    assert forall k :: 0 <= k < |rows| ==> longer[k] == rows[k];
  }

  /** Entries carried forward one day at a time keep every ordering the
      entries before them have. */
  lemma CarriedKeepsOrder(rows: seq<UserPoolSnapshot>, from: nat, poolSnapshots: seq<PoolSnapshot>,
                          valuate: (Fixed, PoolSnapshot) -> Valuation)
    requires 0 < from <= |rows|
    requires CarriedFrom(rows, from, poolSnapshots, valuate)
    ensures NonDecreasing(rows[..from]) ==> NonDecreasing(rows)
    ensures Increasing(rows[..from]) ==> Increasing(rows)
    ensures Daily(rows[..from]) ==> Daily(rows)
    ensures Aligned(rows[..from]) ==> Aligned(rows)
  {
    assert forall k :: 0 <= k < from ==> rows[..from][k] == rows[k];
    forall k | from <= k < |rows|
      ensures rows[k].timestamp == rows[k - 1].timestamp + OneDay
    {
      assert CarriedAt(rows, k, poolSnapshots, valuate);
    }
    if Aligned(rows[..from]) {
      AlignedUpTo(rows, from, |rows|);
    }
  }

  lemma {:induction false} AlignedUpTo(rows: seq<UserPoolSnapshot>, from: nat, n: nat)
    requires 0 < from <= n <= |rows|
    requires forall k :: from <= k < |rows| ==> rows[k].timestamp == rows[k - 1].timestamp + OneDay
    requires forall k :: 0 <= k < from ==> rows[k].timestamp % OneDay == 0
    ensures forall k :: 0 <= k < n ==> rows[k].timestamp % OneDay == 0
    decreases n
  {
    if n > from {
      AlignedUpTo(rows, from, n - 1);
      var t := rows[n - 2].timestamp;
      assert rows[n - 1].timestamp == t + OneDay;
      assert (t + OneDay) % OneDay == t % OneDay;
    }
  }

  /** Filling a gap and then appending the stored row at `target` keeps the
      orderings, given how the last entry before the gap relates to `target`. */
  lemma GapThenStoredOrdered(rows: seq<UserPoolSnapshot>, next: BalanceRow, poolSnapshots: seq<PoolSnapshot>,
                             valuate: (Fixed, PoolSnapshot) -> Valuation)
    requires |rows| > 0
    requires FillGap(rows, next.timestamp, poolSnapshots, valuate).Reached?
    ensures var last := rows[|rows| - 1].timestamp;
      var r := FillGap(rows, next.timestamp, poolSnapshots, valuate).rows + [FromStored(next)];
      && (NonDecreasing(rows) && last <= next.timestamp ==> NonDecreasing(r))
      && (Increasing(rows) && last < next.timestamp ==> Increasing(r))
      && (Aligned(rows) && next.timestamp % OneDay == 0 ==> Aligned(r))
      && (Daily(rows) && Aligned(rows) && next.timestamp % OneDay == 0 && last < next.timestamp ==> Daily(r))
  {
    var gap := FillGap(rows, next.timestamp, poolSnapshots, valuate).rows;
    FillGapCarries(rows, next.timestamp, poolSnapshots, valuate);
    CarriedKeepsOrder(gap, |rows|, poolSnapshots, valuate);
    var end := gap[|gap| - 1];
    assert |gap| > |rows| ==> end.timestamp < next.timestamp;
    assert |gap| == |rows| ==> end == rows[|rows| - 1];
    if Aligned(rows) && next.timestamp % OneDay == 0 && rows[|rows| - 1].timestamp < next.timestamp {
      assert Aligned(gap);
      NextAlignedDay(end.timestamp, next.timestamp);
    }
    Extend(gap, FromStored(next));
  }

  /** The series after `j` stored rows keeps the order of the stored rows:
      non-decreasing or increasing when they are, and one entry per day when
      they are increasing and each at the start of a day. */
  lemma {:induction false} AfterStoredOrdered(stored: seq<BalanceRow>, j: nat, poolSnapshots: seq<PoolSnapshot>,
                                              valuate: (Fixed, PoolSnapshot) -> Valuation)
    requires 0 < j <= |stored|
    ensures var rows := AfterStored(stored, j, poolSnapshots, valuate).rows;
      && (StoredNonDecreasing(stored) ==> NonDecreasing(rows))
      && (StoredIncreasing(stored) ==> Increasing(rows))
      && (StoredAligned(stored) ==> Aligned(rows))
      && (StoredIncreasing(stored) && StoredAligned(stored) ==> Daily(rows))
    decreases j
  {
    if j > 1 {
      AfterStoredOrdered(stored, j - 1, poolSnapshots, valuate);
      var walked := AfterStored(stored, j - 1, poolSnapshots, valuate);
      if walked.Returned? {
        var gap := FillGap(walked.rows, stored[j - 1].timestamp, poolSnapshots, valuate);
        if gap.Reached? {
          assert walked.rows[|walked.rows| - 1].timestamp == stored[j - 2].timestamp;
          GapThenStoredOrdered(walked.rows, stored[j - 1], poolSnapshots, valuate);
        } else {
          FillGapCarries(walked.rows, stored[j - 1].timestamp, poolSnapshots, valuate);
          CarriedKeepsOrder(gap.rows, |walked.rows|, poolSnapshots, valuate);
        }
      }
    }
  }

  /** The whole walk keeps the same orderings, whether it returns or spins. */
  lemma WalkOrdered(stored: seq<BalanceRow>, poolSnapshots: seq<PoolSnapshot>, startOfToday: int,
                    valuate: (Fixed, PoolSnapshot) -> Valuation)
    requires stored != []
    ensures var rows := AsWritten(stored, poolSnapshots, startOfToday, valuate).rows;
      && (StoredNonDecreasing(stored) ==> NonDecreasing(rows))
      && (StoredIncreasing(stored) ==> Increasing(rows))
      && (StoredAligned(stored) ==> Aligned(rows))
      && (StoredIncreasing(stored) && StoredAligned(stored) ==> Daily(rows))
  {
    AfterStoredOrdered(stored, |stored|, poolSnapshots, valuate);
    var walked := AfterStored(stored, |stored|, poolSnapshots, valuate);
    if walked.Returned? {
      FillForwardCarries(walked.rows, startOfToday, poolSnapshots, valuate);
      CarriedKeepsOrder(FillForward(walked.rows, startOfToday, poolSnapshots, valuate).rows,
                        |walked.rows|, poolSnapshots, valuate);
    }
  }

  /** Where each of the first `j` stored rows sits in the series: one
      position per stored row, the last one at the end of the series. */
  ghost function StoredPositions(stored: seq<BalanceRow>, j: nat, poolSnapshots: seq<PoolSnapshot>,
                                 valuate: (Fixed, PoolSnapshot) -> Valuation): (p: seq<nat>)
    requires 0 < j <= |stored|
    requires AfterStored(stored, j, poolSnapshots, valuate).Returned?
    ensures |p| == j && p[j - 1] == |AfterStored(stored, j, poolSnapshots, valuate).rows| - 1
    decreases j
  {
    if j == 1 then [0]
    else
      var walked := AfterStored(stored, j - 1, poolSnapshots, valuate);
      StoredPositions(stored, j - 1, poolSnapshots, valuate)
        + [|FillGap(walked.rows, stored[j - 1].timestamp, poolSnapshots, valuate).rows|]
  }

  /** The walk takes AfterStored(j) to AfterStored(j + 1) by filling the gap
      and appending the stored row. */
  lemma AfterStoredStep(stored: seq<BalanceRow>, j: nat, poolSnapshots: seq<PoolSnapshot>,
                        valuate: (Fixed, PoolSnapshot) -> Valuation)
    requires 1 < j <= |stored|
    requires AfterStored(stored, j, poolSnapshots, valuate).Returned?
    ensures var walked := AfterStored(stored, j - 1, poolSnapshots, valuate);
      && walked.Returned?
      && var gap := FillGap(walked.rows, stored[j - 1].timestamp, poolSnapshots, valuate);
      && gap.Reached?
      && AfterStored(stored, j, poolSnapshots, valuate).rows == gap.rows + [FromStored(stored[j - 1])]
  {
  }

  /** The position stored row `j - 1` takes: right after the gap filled
      before it. */
  lemma StoredPositionsStep(stored: seq<BalanceRow>, j: nat, poolSnapshots: seq<PoolSnapshot>,
                            valuate: (Fixed, PoolSnapshot) -> Valuation)
    requires 1 < j <= |stored|
    requires AfterStored(stored, j, poolSnapshots, valuate).Returned?
    ensures var walked := AfterStored(stored, j - 1, poolSnapshots, valuate);
      && walked.Returned?
      && StoredPositions(stored, j, poolSnapshots, valuate)
         == StoredPositions(stored, j - 1, poolSnapshots, valuate)
            + [|FillGap(walked.rows, stored[j - 1].timestamp, poolSnapshots, valuate).rows|]
  {
  }

  /** The stored rows walked so far sit in the series in order and
      unchanged, the first one at the front. */
  lemma {:induction false} StoredRowsPlaced(stored: seq<BalanceRow>, j: nat, poolSnapshots: seq<PoolSnapshot>,
                                            valuate: (Fixed, PoolSnapshot) -> Valuation)
    requires 0 < j <= |stored|
    requires AfterStored(stored, j, poolSnapshots, valuate).Returned?
    ensures var rows := AfterStored(stored, j, poolSnapshots, valuate).rows;
      var p := StoredPositions(stored, j, poolSnapshots, valuate);
      && p[0] == 0
      && (forall i :: 0 <= i < j ==> p[i] < |rows| && rows[p[i]] == FromStored(stored[i]))
      && (forall i, i' :: 0 <= i < i' < j ==> p[i] < p[i'])
    decreases j
  {
    if j > 1 {
      AfterStoredStep(stored, j, poolSnapshots, valuate);
      StoredPositionsStep(stored, j, poolSnapshots, valuate);
      StoredRowsPlaced(stored, j - 1, poolSnapshots, valuate);
      var walked := AfterStored(stored, j - 1, poolSnapshots, valuate).rows;
      var gap := FillGap(walked, stored[j - 1].timestamp, poolSnapshots, valuate).rows;
      FillGapCarries(walked, stored[j - 1].timestamp, poolSnapshots, valuate);
      var rows := AfterStored(stored, j, poolSnapshots, valuate).rows;
      var before := StoredPositions(stored, j - 1, poolSnapshots, valuate);
      var p := StoredPositions(stored, j, poolSnapshots, valuate);
      forall i | 0 <= i < j
        ensures p[i] < |rows| && rows[p[i]] == FromStored(stored[i])
      {
        if i < j - 1 {
          assert p[i] == before[i] && rows[before[i]] == gap[before[i]] == walked[before[i]];
        }
      }
      forall i, i' | 0 <= i < i' < j
        ensures p[i] < p[i']
      {
        assert p[i] == before[i];
        if i' < j - 1 {
          assert p[i'] == before[i'];
        }
      }
    }
  }

  /** Every entry of the series that is not a stored row is carried forward
      from the entry before it. */
  lemma {:induction false} OthersCarried(stored: seq<BalanceRow>, j: nat, poolSnapshots: seq<PoolSnapshot>,
                                         valuate: (Fixed, PoolSnapshot) -> Valuation)
    requires 0 < j <= |stored|
    requires AfterStored(stored, j, poolSnapshots, valuate).Returned?
    ensures var rows := AfterStored(stored, j, poolSnapshots, valuate).rows;
      var p := StoredPositions(stored, j, poolSnapshots, valuate);
      forall k :: 0 < k < |rows| && k !in p ==> CarriedAt(rows, k, poolSnapshots, valuate)
    decreases j
  {
    if j > 1 {
      AfterStoredStep(stored, j, poolSnapshots, valuate);
      StoredPositionsStep(stored, j, poolSnapshots, valuate);
      OthersCarried(stored, j - 1, poolSnapshots, valuate);
      var walked := AfterStored(stored, j - 1, poolSnapshots, valuate).rows;
      var gap := FillGap(walked, stored[j - 1].timestamp, poolSnapshots, valuate).rows;
      FillGapCarries(walked, stored[j - 1].timestamp, poolSnapshots, valuate);
      var rows := AfterStored(stored, j, poolSnapshots, valuate).rows;
      var before := StoredPositions(stored, j - 1, poolSnapshots, valuate);
      var p := StoredPositions(stored, j, poolSnapshots, valuate);
      forall k | 0 < k < |rows| && k !in p
        ensures CarriedAt(rows, k, poolSnapshots, valuate)
      {
        assert k != |gap| && k < |gap|;
        assert rows[k] == gap[k] && rows[k - 1] == gap[k - 1];
        if k < |walked| {
          assert k !in before;
          assert CarriedAt(walked, k, poolSnapshots, valuate);
          assert gap[k] == walked[k] && gap[k - 1] == walked[k - 1];
        } else {
          assert CarriedAt(gap, k, poolSnapshots, valuate);
        }
      }
    }
  }

  /** When the walk gets past every stored row, each of them is in the
      final series in order and unchanged, and every other entry is carried
      forward from the one before it. */
  lemma WalkKeepsStoredRows(stored: seq<BalanceRow>, poolSnapshots: seq<PoolSnapshot>, startOfToday: int,
                            valuate: (Fixed, PoolSnapshot) -> Valuation)
    requires stored != []
    requires AfterStored(stored, |stored|, poolSnapshots, valuate).Returned?
    ensures var rows := AsWritten(stored, poolSnapshots, startOfToday, valuate).rows;
      var p := StoredPositions(stored, |stored|, poolSnapshots, valuate);
      && (forall i :: 0 <= i < |stored| ==> p[i] < |rows| && rows[p[i]] == FromStored(stored[i]))
      && (forall i, i' :: 0 <= i < i' < |stored| ==> p[i] < p[i'])
      && (forall k :: 0 < k < |rows| && k !in p ==> CarriedAt(rows, k, poolSnapshots, valuate))
  {
    var walked := AfterStored(stored, |stored|, poolSnapshots, valuate).rows;
    var rows := AsWritten(stored, poolSnapshots, startOfToday, valuate).rows;
    var p := StoredPositions(stored, |stored|, poolSnapshots, valuate);
    StoredRowsPlaced(stored, |stored|, poolSnapshots, valuate);
    OthersCarried(stored, |stored|, poolSnapshots, valuate);
    FillForwardCarries(walked, startOfToday, poolSnapshots, valuate);
    assert forall k :: 0 <= k < |walked| ==> rows[k] == walked[k];
    forall k | 0 < k < |rows| && k !in p
      ensures CarriedAt(rows, k, poolSnapshots, valuate)
    {
      if k < |walked| {
        assert CarriedAt(walked, k, poolSnapshots, valuate);
      } else {
        assert CarriedAt(rows, k, poolSnapshots, valuate);
      }
    }
  }

  // ---------------------------------------------------------------------
  // The service's loop bodies, and why the stuck states never end

  /** One pass of the body of the gap loop (lines 110-129). */
  function GapBody(rows: seq<UserPoolSnapshot>, poolSnapshots: seq<PoolSnapshot>,
                   valuate: (Fixed, PoolSnapshot) -> Valuation): (r: seq<UserPoolSnapshot>)
    requires |rows| > 0
    ensures |r| >= |rows| > 0
  {
    var previous := rows[|rows| - 1];
    var current := previous.timestamp + OneDay;
    match FindPoolSnapshot(poolSnapshots, current)
    case None => rows
    case Some(ps) => rows + [CarryForward(previous, current, ps, valuate)]
  }

  /** The gap loop run for at most `n` passes, stopping early when its
      condition fails. */
  function GapPasses(rows: seq<UserPoolSnapshot>, target: int, poolSnapshots: seq<PoolSnapshot>,
                     valuate: (Fixed, PoolSnapshot) -> Valuation, n: nat): (r: seq<UserPoolSnapshot>)
    requires |rows| > 0
    ensures |r| >= |rows|
    decreases n
  {
    if n == 0 || rows[|rows| - 1].timestamp + OneDay >= target then rows
    else GapPasses(GapBody(rows, poolSnapshots, valuate), target, poolSnapshots, valuate, n - 1)
  }

  /** From a stuck state, any number of passes of the gap loop leaves the
      array as it was, with the loop condition still true: the loop never
      exits. */
  lemma {:induction false} GapSpinsForever(rows: seq<UserPoolSnapshot>, target: int,
                                            poolSnapshots: seq<PoolSnapshot>,
                                            valuate: (Fixed, PoolSnapshot) -> Valuation, n: nat)
    requires GapStuck(rows, target, poolSnapshots)
    ensures GapPasses(rows, target, poolSnapshots, valuate, n) == rows
    ensures GapStuck(GapPasses(rows, target, poolSnapshots, valuate, n), target, poolSnapshots)
    decreases n
  {
    if n > 0 {
      assert GapBody(rows, poolSnapshots, valuate) == rows;
      GapSpinsForever(rows, target, poolSnapshots, valuate, n - 1);
    }
  }

  /** One pass of the body of the extension loop (lines 144-166). */
  function ForwardBody(rows: seq<UserPoolSnapshot>, poolSnapshots: seq<PoolSnapshot>,
                       valuate: (Fixed, PoolSnapshot) -> Valuation): (r: seq<UserPoolSnapshot>)
    requires |rows| > 0
    ensures |r| >= |rows| > 0
  {
    var lastSnapshot := rows[|rows| - 1];
    if lastSnapshot.totalBalance > 0 then GapBody(rows, poolSnapshots, valuate) else rows
  }

  /** The extension loop run for at most `n` passes. */
  function ForwardPasses(rows: seq<UserPoolSnapshot>, startOfToday: int, poolSnapshots: seq<PoolSnapshot>,
                         valuate: (Fixed, PoolSnapshot) -> Valuation, n: nat): (r: seq<UserPoolSnapshot>)
    requires |rows| > 0
    ensures |r| >= |rows|
    decreases n
  {
    if n == 0 || rows[|rows| - 1].timestamp >= startOfToday then rows
    else ForwardPasses(ForwardBody(rows, poolSnapshots, valuate), startOfToday, poolSnapshots, valuate, n - 1)
  }

  /** From a stuck state, any number of passes of the extension loop leaves
      the array as it was with the loop condition still true. */
  lemma {:induction false} ForwardSpinsForever(rows: seq<UserPoolSnapshot>, startOfToday: int,
                                                poolSnapshots: seq<PoolSnapshot>,
                                                valuate: (Fixed, PoolSnapshot) -> Valuation, n: nat)
    requires ForwardStuck(rows, startOfToday, poolSnapshots)
    ensures ForwardPasses(rows, startOfToday, poolSnapshots, valuate, n) == rows
    ensures ForwardStuck(ForwardPasses(rows, startOfToday, poolSnapshots, valuate, n), startOfToday, poolSnapshots)
    decreases n
  {
    if n > 0 {
      assert ForwardBody(rows, poolSnapshots, valuate) == rows;
      ForwardSpinsForever(rows, startOfToday, poolSnapshots, valuate, n - 1);
    }
  }

  /** Away from a stuck state each pass of the extension loop pushes a day,
      so the stuck states are the only ones in which it makes no progress. */
  lemma ForwardProgressesUnlessStuck(rows: seq<UserPoolSnapshot>, startOfToday: int,
                                     poolSnapshots: seq<PoolSnapshot>, valuate: (Fixed, PoolSnapshot) -> Valuation)
    requires |rows| > 0 && rows[|rows| - 1].timestamp < startOfToday
    ensures ForwardBody(rows, poolSnapshots, valuate) == rows <==> ForwardStuck(rows, startOfToday, poolSnapshots)
  {
  }

  // ---------------------------------------------------------------------
  // The whole query

  /** A row the reload query (lines 245-260) returns: the user's row for the
      pool at or after the cutoff. The address is compared exactly. */
  predicate Reloads(row: BalanceRow, userAddress: string, poolId: string, cutoff: int) {
    row.userAddress == userAddress && row.poolId == poolId && row.timestamp >= cutoff
  }

  /** `getStoredSnapshotsForUserForPoolFromTimestamp`: the table's rows that
      the query selects, in table order (the table is kept in ascending
      timestamp order, which the query's `orderBy` stands for). */
  function StoredFrom(table: seq<BalanceRow>, userAddress: string, poolId: string, cutoff: int)
    : (r: seq<BalanceRow>)
    ensures |r| <= |table|
    ensures forall row :: row in r <==> row in table && Reloads(row, userAddress, poolId, cutoff)
    decreases |table|
  {
    if table == [] then []
    else
      var last := table[|table| - 1];
      var rest := StoredFrom(table[..|table| - 1], userAddress, poolId, cutoff);
      assert forall row :: row in table <==> row in table[..|table| - 1] || row == last;
      if Reloads(last, userAddress, poolId, cutoff) then rest + [last] else rest
  }

  /** `getUserSnapshotsForPool` (lines 34-169): the range's cutoff, the
      reload of the stored rows, the bootstrap from the subgraph's `events`
      when nothing is stored (its rows appended to the table), the reload
      again, then the walk. `lookup` is what the pool-snapshot service gives
      the enrichment, `poolSnapshots` what it gives the walk. A thrown
      enrichment is a `Failure`; a user without relevant events gets []. */
  function SnapshotsForPool(userAddress: string, pool: Pool, range: DataRange, startOfToday: int,
                            table: seq<BalanceRow>, events: seq<BalanceEvent>, lookup: seq<PoolSnapshot>,
                            poolSnapshots: seq<PoolSnapshot>, valuate: (Fixed, PoolSnapshot) -> Valuation)
    : (r: Result<Walk, EnrichError>)
    ensures r.Failure? ==>
      && StoredFrom(table, userAddress, pool.id, TimestampForRange(range, startOfToday)) == []
      && Enriched(RelevantEvents(events, pool), pool, lookup, valuate) == Failure(r.error)
    ensures r == Success(Returned([])) <==>
      && StoredFrom(table, userAddress, pool.id, TimestampForRange(range, startOfToday)) == []
      && forall e :: e in events ==> !IsRelevant(e, pool)
  {
    var cutoff := TimestampForRange(range, startOfToday);
    var stored := StoredFrom(table, userAddress, pool.id, cutoff);
    if stored != [] then Success(AsWritten(stored, poolSnapshots, startOfToday, valuate))
    else
      var forPool := RelevantEvents(events, pool);
      if forPool == [] then Success(Returned([]))
      else match Enriched(forPool, pool, lookup, valuate)
        case Failure(err) => Failure(err)
        case Success(rows) =>
          Success(AsWritten(StoredFrom(table + rows, userAddress, pool.id, cutoff), poolSnapshots, startOfToday, valuate))
  }

  /** The query throws the TypeError of line 90 exactly when nothing is
      stored from the cutoff, some event is relevant, the enrichment
      succeeds, and none of the rows it persists is one the reload selects. */
  lemma SnapshotsForPoolThrowsIff(userAddress: string, pool: Pool, range: DataRange, startOfToday: int,
                                  table: seq<BalanceRow>, events: seq<BalanceEvent>, lookup: seq<PoolSnapshot>,
                                  poolSnapshots: seq<PoolSnapshot>, valuate: (Fixed, PoolSnapshot) -> Valuation)
    ensures var cutoff := TimestampForRange(range, startOfToday);
      var enriched := Enriched(RelevantEvents(events, pool), pool, lookup, valuate);
      SnapshotsForPool(userAddress, pool, range, startOfToday, table, events, lookup, poolSnapshots, valuate)
        == Success(ThrowsOnEmpty)
      <==>
      && StoredFrom(table, userAddress, pool.id, cutoff) == []
      && (exists e :: e in events && IsRelevant(e, pool))
      && enriched.Success?
      && forall row :: row in enriched.value ==> !Reloads(row, userAddress, pool.id, cutoff)
  {
    var cutoff := TimestampForRange(range, startOfToday);
    var forPool := RelevantEvents(events, pool);
    var enriched := Enriched(forPool, pool, lookup, valuate);
    if StoredFrom(table, userAddress, pool.id, cutoff) == [] && forPool != [] && enriched.Success? {
      var rows := enriched.value;
      var reloaded := StoredFrom(table + rows, userAddress, pool.id, cutoff);
      assert forall row :: row in table + rows <==> row in table || row in rows;
      if reloaded == [] {
        forall row | row in rows
          ensures !Reloads(row, userAddress, pool.id, cutoff)
        {
          assert row !in reloaded;
        }
      } else {
        assert reloaded[0] in reloaded;
        assert reloaded[0] !in StoredFrom(table, userAddress, pool.id, cutoff);
      }
    }
  }

  // ---------------------------------------------------------------------
  // Inputs on which the service never returns

  /** One token, in the 18-decimal fixed point of the balances. */
  const OneToken: Fixed := 1_000_000_000_000_000_000

  /** A stored row at `t` holding `balance` in the wallet. */
  function Holding(t: int, balance: Fixed): BalanceRow {
    BalanceRow("0xpool-0xuser-1", t, "0xuser", "pool", "0xpool", balance, 0, 0, balance, Valuation(0.0, 0.0, 0.0))
  }

  /** A valuation that ignores its inputs. */
  function NoValue(total: Fixed, ps: PoolSnapshot): Valuation {
    Valuation(0.0, 0.0, 0.0)
  }

  /** A pool snapshot at `t`. */
  function PoolDay(t: int): PoolSnapshot {
    PoolSnapshot(t, 1.0, None, None)
  }

  /** A user whose only stored row, a day before today, has a zero balance:
      the pool has snapshots for both days, yet the extension loop spins. */
  lemma ZeroBalanceSpins()
    ensures AsWritten([Holding(0, 0)], [PoolDay(0), PoolDay(OneDay)], OneDay, NoValue)
         == Spins([FromStored(Holding(0, 0))], ExtendingToToday)
  {
    assert AfterStored([Holding(0, 0)], 1, [PoolDay(0), PoolDay(OneDay)], NoValue)
        == Returned([FromStored(Holding(0, 0))]);
  }

  /** Two stored rows two days apart and no pool snapshot for the day
      between them: the gap loop spins before the second row. */
  lemma MissingDaySpins()
    ensures AsWritten([Holding(0, OneToken), Holding(2 * OneDay, OneToken)], [PoolDay(0), PoolDay(2 * OneDay)],
                      2 * OneDay, NoValue)
         == Spins([FromStored(Holding(0, OneToken))], FillingGapBefore(1))
  {
    var stored := [Holding(0, OneToken), Holding(2 * OneDay, OneToken)];
    var snaps := [PoolDay(0), PoolDay(2 * OneDay)];
    assert FindPoolSnapshot(snaps, OneDay) == None;
    assert AfterStored(stored, 1, snaps, NoValue) == Returned([FromStored(stored[0])]);
    assert AfterStored(stored, 2, snaps, NoValue) == Spins([FromStored(stored[0])], FillingGapBefore(1));
  }

  /** A balance event at time 0 holding one of the pool's tokens. */
  function WalletEvent(): BalanceEvent {
    BalanceEvent("1", "0xuser", 0, ["0xpool"], [OneToken], [], [], [], [])
  }

  /** A user whose only relevant event has no pool snapshot: enrichment
      skips it and persists no row, so the reload right after the bootstrap
      is empty and reading its first row throws. */
  lemma UnvaluedHistoryThrows()
    ensures var pool := Pool("pool", "0xpool", None);
      && RelevantEvents([WalletEvent()], pool) == [WalletEvent()]
      && Enriched([WalletEvent()], pool, [], NoValue) == Success([])
      && SnapshotsForPool("0xuser", pool, AllTime, OneDay, [], [WalletEvent()], [], [], NoValue)
         == Success(ThrowsOnEmpty)
  {
    var pool := Pool("pool", "0xpool", None);
    assert IsRelevant(WalletEvent(), pool) by {
      assert WalletEvent().walletTokens[0] == pool.address;
    }
  }

  /** A user whose only relevant event is valued but older than the range's
      cutoff: its row is persisted, the reload from the cutoff does not
      select it, and reading the first reloaded row throws. */
  lemma OlderHistoryThrows()
    ensures var pool := Pool("pool", "0xpool", None);
      && Enriched([WalletEvent()], pool, [PoolDay(0)], NoValue).Success?
      && |Enriched([WalletEvent()], pool, [PoolDay(0)], NoValue).value| == 1
      && SnapshotsForPool("0xuser", pool, ThirtyDays, 40 * OneDay, [], [WalletEvent()], [PoolDay(0)], [], NoValue)
         == Success(ThrowsOnEmpty)
  {
    var pool := Pool("pool", "0xpool", None);
    assert IsRelevant(WalletEvent(), pool) by {
      assert WalletEvent().walletTokens[0] == pool.address;
    }
    assert WalletEvent().walletTokens[0] == pool.address;
    var rows := Enriched([WalletEvent()], pool, [PoolDay(0)], NoValue);
    assert rows.Success? && |rows.value| == 1 && rows.value[0].timestamp == 0;
  }
}
