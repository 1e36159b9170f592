/** The gap-fill walk with its gaps filled as the service's comments
    promise (lines 85, 110 and 143). A day for which the pool has no
    snapshot is left out and the walk moves on to the next day; that is the
    correction chosen here, and aborting the walk would be the other
    reading. The extension towards today only happens from a positive
    balance, and a user without stored rows gets an empty series. Written
    as a pure function, it always terminates.

    The lemmas at the end tie it to the walk as the service writes it
    (module GapFill): whenever that walk returns, it returns exactly this
    series; it returns exactly when no day it needs is missing and the
    extension does not start from a balance that is not positive. */
module GapFillCorrected {
  import opened Wrappers
  import opened UserSnapshot
  import opened GapFill

  /** `t` is one of the days `day`, `day + OneDay`, ... before `bound`. */
  predicate OnDayGrid(day: int, bound: int, t: int) {
    day <= t < bound && (t - day) % OneDay == 0
  }

  /** The pool has a snapshot for every day of the grid from `day` to `bound`. */
  ghost predicate Covered(poolSnapshots: seq<PoolSnapshot>, day: int, bound: int) {
    forall t :: OnDayGrid(day, bound, t) ==> FindPoolSnapshot(poolSnapshots, t).Some?
  }

  /** `row` is `anchor` carried forward to the day of `row`, valued against
      the pool snapshot of that day. */
  ghost predicate CarriedOn(anchor: UserPoolSnapshot, row: UserPoolSnapshot, poolSnapshots: seq<PoolSnapshot>,
                            valuate: (Fixed, PoolSnapshot) -> Valuation) {
    match FindPoolSnapshot(poolSnapshots, row.timestamp)
    case None => false
    case Some(ps) => row == CarryForward(anchor, row.timestamp, ps, valuate)
  }

  /** A grid split into its first day and the rest. */
  lemma GridSplit(day: int, bound: int, t: int)
    requires day < bound
    ensures OnDayGrid(day, bound, t) <==> t == day || OnDayGrid(day + OneDay, bound, t)
  {
    if t != day && OnDayGrid(day, bound, t) {
      var q := (t - day) / OneDay;
      assert t - day == q * OneDay;
      assert q >= 1;
      assert t - (day + OneDay) == (q - 1) * OneDay;
    }
    if OnDayGrid(day + OneDay, bound, t) {
      var q := (t - day - OneDay) / OneDay;
      assert t - day - OneDay == q * OneDay;
      assert t - day == (q + 1) * OneDay;
    }
  }

  /** The days carried forward from `anchor`, one per day of the grid from
      `day` to `bound` that has a pool snapshot; `FillDaysShape` and
      `FillDaysExactly` say which. */
  function FillDays(anchor: UserPoolSnapshot, day: int, bound: int, poolSnapshots: seq<PoolSnapshot>,
                    valuate: (Fixed, PoolSnapshot) -> Valuation): seq<UserPoolSnapshot>
    decreases bound - day
  {
    if day >= bound then []
    else
      var rest := FillDays(anchor, day + OneDay, bound, poolSnapshots, valuate);
      match FindPoolSnapshot(poolSnapshots, day)
      case None => rest
      case Some(ps) => [CarryForward(anchor, day, ps, valuate)] + rest
  }

  /** Some entry of `rows` is on day `t`. */
  predicate HasDay(rows: seq<UserPoolSnapshot>, t: int) {
    exists k :: 0 <= k < |rows| && rows[k].timestamp == t
  }

  /** Every entry of `rows` is on the grid from `day` to `bound` and is
      `anchor` carried forward to its day. */
  ghost predicate CarriedOnGrid(anchor: UserPoolSnapshot, day: int, bound: int, rows: seq<UserPoolSnapshot>,
                                poolSnapshots: seq<PoolSnapshot>, valuate: (Fixed, PoolSnapshot) -> Valuation) {
    forall k :: 0 <= k < |rows| ==>
      OnDayGrid(day, bound, rows[k].timestamp) && CarriedOn(anchor, rows[k], poolSnapshots, valuate)
  }

  /** Every day of the fill is on the grid and is `anchor` carried forward
      to that day; the days increase. */
  lemma {:induction false} FillDaysShape(anchor: UserPoolSnapshot, day: int, bound: int,
                                         poolSnapshots: seq<PoolSnapshot>,
                                         valuate: (Fixed, PoolSnapshot) -> Valuation)
    ensures CarriedOnGrid(anchor, day, bound, FillDays(anchor, day, bound, poolSnapshots, valuate),
                          poolSnapshots, valuate)
    ensures Increasing(FillDays(anchor, day, bound, poolSnapshots, valuate))
    decreases bound - day
  {
    if day < bound {
      FillDaysShape(anchor, day + OneDay, bound, poolSnapshots, valuate);
      var rest := FillDays(anchor, day + OneDay, bound, poolSnapshots, valuate);
      forall k | 0 <= k < |rest|
        ensures OnDayGrid(day, bound, rest[k].timestamp)
      {
        assert OnDayGrid(day + OneDay, bound, rest[k].timestamp);
        GridSplit(day, bound, rest[k].timestamp);
      }
      var found := FindPoolSnapshot(poolSnapshots, day);
      if found.Some? {
        var r := [CarryForward(anchor, day, found.value, valuate)] + rest;
        assert r == FillDays(anchor, day, bound, poolSnapshots, valuate);
        assert forall k :: 0 < k < |r| ==> r[k] == rest[k - 1];
        assert CarriedOn(anchor, r[0], poolSnapshots, valuate);
        assert |rest| > 0 ==> day < rest[0].timestamp;
      }
    }
  }

  /** A day appears in the fill exactly when it is on the grid and the pool
      has a snapshot for it. */
  lemma FillDaysExactly(anchor: UserPoolSnapshot, day: int, bound: int, poolSnapshots: seq<PoolSnapshot>,
                        valuate: (Fixed, PoolSnapshot) -> Valuation, t: int)
    ensures HasDay(FillDays(anchor, day, bound, poolSnapshots, valuate), t)
      <==> (OnDayGrid(day, bound, t) && FindPoolSnapshot(poolSnapshots, t).Some?)
  {
    var r := FillDays(anchor, day, bound, poolSnapshots, valuate);
    FillDaysShape(anchor, day, bound, poolSnapshots, valuate);
    if HasDay(r, t) {
      var k :| 0 <= k < |r| && r[k].timestamp == t;
      assert CarriedOn(anchor, r[k], poolSnapshots, valuate);
    }
    if OnDayGrid(day, bound, t) && FindPoolSnapshot(poolSnapshots, t).Some? {
      FillDaysFindsDay(anchor, day, bound, poolSnapshots, valuate, t);
    }
  }

  /** Each day of the grid that has a pool snapshot is in the fill. */
  lemma {:induction false} FillDaysFindsDay(anchor: UserPoolSnapshot, day: int, bound: int,
                                            poolSnapshots: seq<PoolSnapshot>,
                                            valuate: (Fixed, PoolSnapshot) -> Valuation, t: int)
    requires OnDayGrid(day, bound, t) && FindPoolSnapshot(poolSnapshots, t).Some?
    ensures HasDay(FillDays(anchor, day, bound, poolSnapshots, valuate), t)
    decreases bound - day
  {
    var r := FillDays(anchor, day, bound, poolSnapshots, valuate);
    var rest := FillDays(anchor, day + OneDay, bound, poolSnapshots, valuate);
    var found := FindPoolSnapshot(poolSnapshots, day);
    GridSplit(day, bound, t);
    if t == day {
      assert r == [CarryForward(anchor, day, found.value, valuate)] + rest;
      assert r[0].timestamp == t;
    } else {
      FillDaysFindsDay(anchor, day + OneDay, bound, poolSnapshots, valuate, t);
      var k :| 0 <= k < |rest| && rest[k].timestamp == t;
      if found.Some? {
        assert r == [CarryForward(anchor, day, found.value, valuate)] + rest;
        assert r[k + 1] == rest[k];
      } else {
        assert r == rest;
      }
    }
  }

  /** Only the four balances of the anchor matter to the fill. */
  lemma {:induction false} FillDaysBalancesOnly(a: UserPoolSnapshot, b: UserPoolSnapshot, day: int, bound: int,
                                                poolSnapshots: seq<PoolSnapshot>,
                                                valuate: (Fixed, PoolSnapshot) -> Valuation)
    requires a.walletBalance == b.walletBalance && a.farmBalance == b.farmBalance
    requires a.gaugeBalance == b.gaugeBalance && a.totalBalance == b.totalBalance
    ensures FillDays(a, day, bound, poolSnapshots, valuate) == FillDays(b, day, bound, poolSnapshots, valuate)
    decreases bound - day
  {
    if day < bound {
      FillDaysBalancesOnly(a, b, day + OneDay, bound, poolSnapshots, valuate);
    }
  }

  /** The series after the first `j` stored rows: each stored row, followed
      by the days filled between it and the next one. */
  function CorrectedThrough(stored: seq<BalanceRow>, j: nat, poolSnapshots: seq<PoolSnapshot>,
                            valuate: (Fixed, PoolSnapshot) -> Valuation): (r: seq<UserPoolSnapshot>)
    requires 0 < j <= |stored|
    ensures |r| >= j && r[0] == FromStored(stored[0]) && r[|r| - 1] == FromStored(stored[j - 1])
    decreases j
  {
    if j == 1 then [FromStored(stored[0])]
    else
      var anchor := FromStored(stored[j - 2]);
      CorrectedThrough(stored, j - 1, poolSnapshots, valuate)
        + FillDays(anchor, anchor.timestamp + OneDay, stored[j - 1].timestamp, poolSnapshots, valuate)
        + [FromStored(stored[j - 1])]
  }

  /** The corrected walk: no stored row gives an empty series; otherwise the
      stored rows with the gaps filled, extended up to today only from a
      positive last balance. */
  function CorrectedWalk(stored: seq<BalanceRow>, poolSnapshots: seq<PoolSnapshot>, startOfToday: int,
                         valuate: (Fixed, PoolSnapshot) -> Valuation): (r: seq<UserPoolSnapshot>)
    ensures r == [] <==> stored == []
    ensures stored != [] ==> r[0] == FromStored(stored[0])
  {
    if stored == [] then []
    else
      CorrectedThrough(stored, |stored|, poolSnapshots, valuate)
        + Extension(FromStored(stored[|stored| - 1]), startOfToday, poolSnapshots, valuate)
  }

  /** The days after `last` up to today, carried forward from it, when its
      balance is positive; nothing otherwise. */
  function Extension(last: UserPoolSnapshot, startOfToday: int, poolSnapshots: seq<PoolSnapshot>,
                     valuate: (Fixed, PoolSnapshot) -> Valuation): seq<UserPoolSnapshot> {
    if last.totalBalance > 0
    then FillDays(last, last.timestamp + OneDay, startOfToday + OneDay, poolSnapshots, valuate)
    else []
  }

  // ---------------------------------------------------------------------
  // Properties of the corrected walk

  /** Sequences on either side of a boundary they do not cross keep
      increasing when joined. */
  lemma IncreasingJoin(a: seq<UserPoolSnapshot>, b: seq<UserPoolSnapshot>)
    requires Increasing(a) && Increasing(b)
    requires |a| > 0 && |b| > 0 ==> a[|a| - 1].timestamp < b[0].timestamp
    ensures Increasing(a + b)
  {
    var ab := a + b;
    forall k | 0 < k < |ab|
      ensures ab[k - 1].timestamp < ab[k].timestamp
    {
      if k < |a| {
        assert ab[k - 1] == a[k - 1] && ab[k] == a[k];
      } else if k == |a| {
        assert ab[k - 1] == a[|a| - 1] && ab[k] == b[0];
      } else {
        assert ab[k - 1] == b[k - 1 - |a|] && ab[k] == b[k - |a|];
      }
    }
  }

  /** With increasing stored rows the corrected series is increasing: no
      timestamp appears twice. */
  lemma {:induction false} CorrectedThroughIncreasing(stored: seq<BalanceRow>, j: nat,
                                                      poolSnapshots: seq<PoolSnapshot>,
                                                      valuate: (Fixed, PoolSnapshot) -> Valuation)
    requires 0 < j <= |stored|
    requires StoredIncreasing(stored)
    ensures Increasing(CorrectedThrough(stored, j, poolSnapshots, valuate))
    decreases j
  {
    if j > 1 {
      CorrectedThroughIncreasing(stored, j - 1, poolSnapshots, valuate);
      var anchor := FromStored(stored[j - 2]);
      var before := CorrectedThrough(stored, j - 1, poolSnapshots, valuate);
      var days := FillDays(anchor, anchor.timestamp + OneDay, stored[j - 1].timestamp, poolSnapshots, valuate);
      assert stored[j - 2].timestamp < stored[j - 1].timestamp;
      FillDaysShape(anchor, anchor.timestamp + OneDay, stored[j - 1].timestamp, poolSnapshots, valuate);
      IncreasingJoin(before, days);
      IncreasingJoin(before + days, [FromStored(stored[j - 1])]);
    }
  }

  lemma CorrectedIncreasing(stored: seq<BalanceRow>, poolSnapshots: seq<PoolSnapshot>, startOfToday: int,
                            valuate: (Fixed, PoolSnapshot) -> Valuation)
    requires StoredIncreasing(stored)
    ensures Increasing(CorrectedWalk(stored, poolSnapshots, startOfToday, valuate))
  {
    if stored != [] {
      CorrectedThroughIncreasing(stored, |stored|, poolSnapshots, valuate);
      var anchor := FromStored(stored[|stored| - 1]);
      FillDaysShape(anchor, anchor.timestamp + OneDay, startOfToday + OneDay, poolSnapshots, valuate);
      IncreasingJoin(CorrectedThrough(stored, |stored|, poolSnapshots, valuate),
                     Extension(anchor, startOfToday, poolSnapshots, valuate));
    }
  }


  /** Every stored row is in the corrected series, unchanged. */
  lemma {:induction false} CorrectedKeepsStored(stored: seq<BalanceRow>, j: nat, poolSnapshots: seq<PoolSnapshot>,
                                                valuate: (Fixed, PoolSnapshot) -> Valuation)
    requires 0 < j <= |stored|
    ensures forall i :: 0 <= i < j ==> FromStored(stored[i]) in CorrectedThrough(stored, j, poolSnapshots, valuate)
    decreases j
  {
    if j > 1 {
      CorrectedKeepsStored(stored, j - 1, poolSnapshots, valuate);
      var before := CorrectedThrough(stored, j - 1, poolSnapshots, valuate);
      var r := CorrectedThrough(stored, j, poolSnapshots, valuate);
      assert r[..|before|] == before;
    }
  }

  /** A last stored row without a positive balance is the end of the
      corrected series; with a positive balance, the extension carries it
      forward to each day up to today that has a pool snapshot. */
  lemma CorrectedExtension(stored: seq<BalanceRow>, poolSnapshots: seq<PoolSnapshot>, startOfToday: int,
                           valuate: (Fixed, PoolSnapshot) -> Valuation)
    requires stored != []
    ensures var r := CorrectedWalk(stored, poolSnapshots, startOfToday, valuate);
      var last := FromStored(stored[|stored| - 1]);
      && (last.totalBalance <= 0 ==> r[|r| - 1] == last)
      && (forall k :: |CorrectedThrough(stored, |stored|, poolSnapshots, valuate)| <= k < |r| ==>
            last.totalBalance > 0 && r[k].timestamp - OneDay < startOfToday
            && CarriedOn(last, r[k], poolSnapshots, valuate))
  {
    var through := CorrectedThrough(stored, |stored|, poolSnapshots, valuate);
    var r := CorrectedWalk(stored, poolSnapshots, startOfToday, valuate);
    var last := FromStored(stored[|stored| - 1]);
    if last.totalBalance > 0 {
      var days := FillDays(last, last.timestamp + OneDay, startOfToday + OneDay, poolSnapshots, valuate);
      FillDaysShape(last, last.timestamp + OneDay, startOfToday + OneDay, poolSnapshots, valuate);
      assert r == through + days;
      forall k | |through| <= k < |r|
        ensures r[k].timestamp - OneDay < startOfToday && CarriedOn(last, r[k], poolSnapshots, valuate)
      {
        assert r[k] == days[k - |through|];
      }
    }
  }

  // ---------------------------------------------------------------------
  // The walk as written, against the corrected walk

  /** The sequence equations of one outer-loop pass, chained. */
  lemma Chain<T>(result: seq<T>, gap: seq<T>, walked: seq<T>, days: seq<T>,
                 before: seq<T>, through: seq<T>, row: T)
    requires result == gap + [row] && gap == walked + days
    requires walked == before && through == before + days + [row]
    ensures result == through
  {
  }

  /** The sequence equations of one inner-loop pass, chained. */
  lemma ChainCons<T>(result: seq<T>, rows: seq<T>, next: T, after: seq<T>, rest: seq<T>, fill: seq<T>)
    requires result == rows + [next] + after && after == rest && fill == [next] + rest
    ensures result == rows + fill
  {
  }

  /** One day of the fill, when that day has a pool snapshot. */
  lemma FillDaysStep(anchor: UserPoolSnapshot, day: int, bound: int, poolSnapshots: seq<PoolSnapshot>,
                     valuate: (Fixed, PoolSnapshot) -> Valuation)
    requires day < bound && FindPoolSnapshot(poolSnapshots, day).Some?
    ensures FillDays(anchor, day, bound, poolSnapshots, valuate)
         == [CarryForward(anchor, day, FindPoolSnapshot(poolSnapshots, day).value, valuate)]
            + FillDays(anchor, day + OneDay, bound, poolSnapshots, valuate)
  {
  }

  /** One pass of a gap loop that goes on to exit: the day it adds has a
      pool snapshot. */
  lemma GapStep(rows: seq<UserPoolSnapshot>, target: int, poolSnapshots: seq<PoolSnapshot>,
                valuate: (Fixed, PoolSnapshot) -> Valuation)
    requires |rows| > 0 && rows[|rows| - 1].timestamp + OneDay < target
    requires FillGap(rows, target, poolSnapshots, valuate).Reached?
    ensures var last := rows[|rows| - 1];
      var found := FindPoolSnapshot(poolSnapshots, last.timestamp + OneDay);
      && found.Some?
      && FillGap(rows, target, poolSnapshots, valuate)
         == FillGap(rows + [CarryForward(last, last.timestamp + OneDay, found.value, valuate)],
                    target, poolSnapshots, valuate)
  {
  }

  /** One pass of an extension loop that goes on to exit. */
  lemma ForwardStep(rows: seq<UserPoolSnapshot>, startOfToday: int, poolSnapshots: seq<PoolSnapshot>,
                    valuate: (Fixed, PoolSnapshot) -> Valuation)
    requires |rows| > 0 && rows[|rows| - 1].timestamp < startOfToday
    requires FillForward(rows, startOfToday, poolSnapshots, valuate).Reached?
    ensures var last := rows[|rows| - 1];
      var found := FindPoolSnapshot(poolSnapshots, last.timestamp + OneDay);
      && last.totalBalance > 0
      && found.Some?
      && FillForward(rows, startOfToday, poolSnapshots, valuate)
         == FillForward(rows + [CarryForward(last, last.timestamp + OneDay, found.value, valuate)],
                        startOfToday, poolSnapshots, valuate)
  {
  }

  /** A gap loop that exits has added exactly the fill of the gap. */
  lemma {:induction false} GapAgrees(rows: seq<UserPoolSnapshot>, target: int, poolSnapshots: seq<PoolSnapshot>,
                                     valuate: (Fixed, PoolSnapshot) -> Valuation)
    requires |rows| > 0
    requires FillGap(rows, target, poolSnapshots, valuate).Reached?
    ensures var last := rows[|rows| - 1];
      FillGap(rows, target, poolSnapshots, valuate).rows
      == rows + FillDays(last, last.timestamp + OneDay, target, poolSnapshots, valuate)
    decreases target - rows[|rows| - 1].timestamp
  {
    var last := rows[|rows| - 1];
    var day := last.timestamp + OneDay;
    if day < target {
      GapStep(rows, target, poolSnapshots, valuate);
      var next := CarryForward(last, day, FindPoolSnapshot(poolSnapshots, day).value, valuate);
      var longer := rows + [next];
      assert longer[|longer| - 1] == next;
      GapAgrees(longer, target, poolSnapshots, valuate);
      var rest := FillDays(last, day + OneDay, target, poolSnapshots, valuate);
      FillDaysBalancesOnly(next, last, day + OneDay, target, poolSnapshots, valuate);
      FillDaysStep(last, day, target, poolSnapshots, valuate);
      ChainCons(FillGap(rows, target, poolSnapshots, valuate).rows, rows, next,
                FillDays(next, day + OneDay, target, poolSnapshots, valuate), rest,
                FillDays(last, day, target, poolSnapshots, valuate));
    }
  }

  /** An extension loop that exits has added exactly the corrected
      extension. */
  lemma {:induction false} ForwardAgrees(rows: seq<UserPoolSnapshot>, startOfToday: int,
                                         poolSnapshots: seq<PoolSnapshot>,
                                         valuate: (Fixed, PoolSnapshot) -> Valuation)
    requires |rows| > 0
    requires FillForward(rows, startOfToday, poolSnapshots, valuate).Reached?
    ensures var last := rows[|rows| - 1];
      FillForward(rows, startOfToday, poolSnapshots, valuate).rows
      == rows + Extension(last, startOfToday, poolSnapshots, valuate)
    decreases startOfToday - rows[|rows| - 1].timestamp
  {
    var last := rows[|rows| - 1];
    var day := last.timestamp + OneDay;
    var bound := startOfToday + OneDay;
    if last.timestamp < startOfToday {
      ForwardStep(rows, startOfToday, poolSnapshots, valuate);
      var next := CarryForward(last, day, FindPoolSnapshot(poolSnapshots, day).value, valuate);
      var longer := rows + [next];
      assert longer[|longer| - 1] == next;
      ForwardAgrees(longer, startOfToday, poolSnapshots, valuate);
      var rest := FillDays(last, day + OneDay, bound, poolSnapshots, valuate);
      FillDaysBalancesOnly(next, last, day + OneDay, bound, poolSnapshots, valuate);
      FillDaysStep(last, day, bound, poolSnapshots, valuate);
      assert Extension(next, startOfToday, poolSnapshots, valuate)
          == FillDays(next, day + OneDay, bound, poolSnapshots, valuate);
      assert Extension(last, startOfToday, poolSnapshots, valuate) == FillDays(last, day, bound, poolSnapshots, valuate);
      ChainCons(FillForward(rows, startOfToday, poolSnapshots, valuate).rows, rows, next,
                Extension(next, startOfToday, poolSnapshots, valuate), rest,
                Extension(last, startOfToday, poolSnapshots, valuate));
    } else if last.totalBalance > 0 {
      assert FillDays(last, day, bound, poolSnapshots, valuate) == [];
    }
  }

  lemma ThroughStep(stored: seq<BalanceRow>, j: nat, poolSnapshots: seq<PoolSnapshot>,
                    valuate: (Fixed, PoolSnapshot) -> Valuation)
    requires 1 < j <= |stored|
    ensures var anchor := FromStored(stored[j - 2]);
      CorrectedThrough(stored, j, poolSnapshots, valuate)
      == CorrectedThrough(stored, j - 1, poolSnapshots, valuate)
         + FillDays(anchor, anchor.timestamp + OneDay, stored[j - 1].timestamp, poolSnapshots, valuate)
         + [FromStored(stored[j - 1])]
  {
  }

  /** Walking the stored rows as written, when it gets through them, builds
      the corrected series. */
  lemma {:induction false} ThroughAgrees(stored: seq<BalanceRow>, j: nat, poolSnapshots: seq<PoolSnapshot>,
                                         valuate: (Fixed, PoolSnapshot) -> Valuation)
    requires 0 < j <= |stored|
    requires AfterStored(stored, j, poolSnapshots, valuate).Returned?
    ensures AfterStored(stored, j, poolSnapshots, valuate).rows == CorrectedThrough(stored, j, poolSnapshots, valuate)
    decreases j
  {
    if j > 1 {
      var target := stored[j - 1].timestamp;
      var prior := AfterStored(stored, j - 1, poolSnapshots, valuate);
      AfterStoredStep(stored, j, poolSnapshots, valuate);
      var walked := prior.rows;
      var anchor := FromStored(stored[j - 2]);
      var days := FillDays(anchor, anchor.timestamp + OneDay, target, poolSnapshots, valuate);
      var gap := FillGap(walked, target, poolSnapshots, valuate).rows;
      assert walked == CorrectedThrough(stored, j - 1, poolSnapshots, valuate) by {
        ThroughAgrees(stored, j - 1, poolSnapshots, valuate);
      }
      assert gap == walked + days by {
        assert walked[|walked| - 1] == anchor;
        GapAgrees(walked, target, poolSnapshots, valuate);
      }
      ThroughStep(stored, j, poolSnapshots, valuate);
      Chain(AfterStored(stored, j, poolSnapshots, valuate).rows, gap, walked, days,
            CorrectedThrough(stored, j - 1, poolSnapshots, valuate),
            CorrectedThrough(stored, j, poolSnapshots, valuate), FromStored(stored[j - 1]));
    }
  }

  /** Whenever the walk as written returns, it returns the corrected series. */
  lemma WalkAgrees(stored: seq<BalanceRow>, poolSnapshots: seq<PoolSnapshot>, startOfToday: int,
                   valuate: (Fixed, PoolSnapshot) -> Valuation)
    requires AsWritten(stored, poolSnapshots, startOfToday, valuate).Returned?
    ensures AsWritten(stored, poolSnapshots, startOfToday, valuate).rows
         == CorrectedWalk(stored, poolSnapshots, startOfToday, valuate)
  {
    var walked := AfterStored(stored, |stored|, poolSnapshots, valuate);
    assert walked.Returned?;
    var forward := FillForward(walked.rows, startOfToday, poolSnapshots, valuate);
    assert forward.Reached? && AsWritten(stored, poolSnapshots, startOfToday, valuate).rows == forward.rows;
    ThroughAgrees(stored, |stored|, poolSnapshots, valuate);
    ForwardAgrees(walked.rows, startOfToday, poolSnapshots, valuate);
  }

  // ---------------------------------------------------------------------
  // When the walk as written returns at all

  /** The gap loop exits exactly when the pool has a snapshot for every day
      it has to synthesize. */
  lemma {:induction false} GapReachedIff(rows: seq<UserPoolSnapshot>, target: int, poolSnapshots: seq<PoolSnapshot>,
                                         valuate: (Fixed, PoolSnapshot) -> Valuation)
    requires |rows| > 0
    ensures FillGap(rows, target, poolSnapshots, valuate).Reached?
        <==> Covered(poolSnapshots, rows[|rows| - 1].timestamp + OneDay, target)
    decreases target - rows[|rows| - 1].timestamp
  {
    var last := rows[|rows| - 1];
    var day := last.timestamp + OneDay;
    if day < target {
      assert OnDayGrid(day, target, day);
      forall t ensures OnDayGrid(day, target, t) <==> t == day || OnDayGrid(day + OneDay, target, t) {
        GridSplit(day, target, t);
      }
      var found := FindPoolSnapshot(poolSnapshots, day);
      if found.Some? {
        GapReachedIff(rows + [CarryForward(last, day, found.value, valuate)], target, poolSnapshots, valuate);
      }
    }
  }

  /** The extension loop exits exactly when the last entry is not before
      today, or its balance is positive and the pool has a snapshot for
      every day up to the first one not before today. */
  lemma {:induction false} ForwardReachedIff(rows: seq<UserPoolSnapshot>, startOfToday: int,
                                             poolSnapshots: seq<PoolSnapshot>,
                                             valuate: (Fixed, PoolSnapshot) -> Valuation)
    requires |rows| > 0
    ensures var last := rows[|rows| - 1];
      FillForward(rows, startOfToday, poolSnapshots, valuate).Reached?
      <==> (last.timestamp >= startOfToday
            || (last.totalBalance > 0 && Covered(poolSnapshots, last.timestamp + OneDay, startOfToday + OneDay)))
    decreases startOfToday - rows[|rows| - 1].timestamp
  {
    var last := rows[|rows| - 1];
    var day := last.timestamp + OneDay;
    if last.timestamp < startOfToday && last.totalBalance > 0 {
      var bound := startOfToday + OneDay;
      assert OnDayGrid(day, bound, day);
      forall t ensures OnDayGrid(day, bound, t) <==> t == day || OnDayGrid(day + OneDay, bound, t) {
        GridSplit(day, bound, t);
      }
      var found := FindPoolSnapshot(poolSnapshots, day);
      if found.Some? {
        var next := CarryForward(last, day, found.value, valuate);
        ForwardReachedIff(rows + [next], startOfToday, poolSnapshots, valuate);
        if day >= startOfToday {
          assert Covered(poolSnapshots, day + OneDay, bound);
        }
      }
    }
  }

  /** The pool has a snapshot for every day between consecutive stored rows
      among the first `j`. */
  ghost predicate GapsCovered(stored: seq<BalanceRow>, j: nat, poolSnapshots: seq<PoolSnapshot>)
    requires j <= |stored|
  {
    forall i :: 0 < i < j ==> Covered(poolSnapshots, stored[i - 1].timestamp + OneDay, stored[i].timestamp)
  }

  /** The walk gets through the first `j` stored rows exactly when no day
      between them is missing from the pool snapshots. */
  lemma {:induction false} AfterStoredReturnsIff(stored: seq<BalanceRow>, j: nat, poolSnapshots: seq<PoolSnapshot>,
                                                 valuate: (Fixed, PoolSnapshot) -> Valuation)
    requires 0 < j <= |stored|
    ensures AfterStored(stored, j, poolSnapshots, valuate).Returned? <==> GapsCovered(stored, j, poolSnapshots)
    decreases j
  {
    if j > 1 {
      AfterStoredReturnsIff(stored, j - 1, poolSnapshots, valuate);
      GapsCoveredStep(stored, j, poolSnapshots);
      var walked := AfterStored(stored, j - 1, poolSnapshots, valuate);
      var target := stored[j - 1].timestamp;
      if walked.Returned? {
        GapReachedIff(walked.rows, target, poolSnapshots, valuate);
        assert walked.rows[|walked.rows| - 1].timestamp == stored[j - 2].timestamp;
        assert AfterStored(stored, j, poolSnapshots, valuate).Returned?
           <==> FillGap(walked.rows, target, poolSnapshots, valuate).Reached?;
      } else {
        assert AfterStored(stored, j, poolSnapshots, valuate) == walked;
      }
    }
  }

  lemma GapsCoveredStep(stored: seq<BalanceRow>, j: nat, poolSnapshots: seq<PoolSnapshot>)
    requires 1 < j <= |stored|
    ensures GapsCovered(stored, j, poolSnapshots)
        <==> GapsCovered(stored, j - 1, poolSnapshots)
             && Covered(poolSnapshots, stored[j - 2].timestamp + OneDay, stored[j - 1].timestamp)
  {
  }

  /** The walk as written returns exactly when no day between stored rows
      is missing and the extension either is not needed or starts from a
      positive balance and finds every day it needs. In every other case it
      never returns. */
  lemma WalkReturnsIff(stored: seq<BalanceRow>, poolSnapshots: seq<PoolSnapshot>, startOfToday: int,
                       valuate: (Fixed, PoolSnapshot) -> Valuation)
    requires stored != []
    ensures var last := stored[|stored| - 1];
      AsWritten(stored, poolSnapshots, startOfToday, valuate).Returned?
      <==> (&& GapsCovered(stored, |stored|, poolSnapshots)
            && (last.timestamp >= startOfToday
                || (last.totalBalance > 0 && Covered(poolSnapshots, last.timestamp + OneDay, startOfToday + OneDay))))
  {
    AfterStoredReturnsIff(stored, |stored|, poolSnapshots, valuate);
    var walked := AfterStored(stored, |stored|, poolSnapshots, valuate);
    if walked.Returned? {
      ForwardReachedIff(walked.rows, startOfToday, poolSnapshots, valuate);
    }
  }

  /** With increasing, day-aligned stored rows and no missing pool snapshot,
      the corrected series has exactly one entry per day. */
  lemma CorrectedDailyWhenCovered(stored: seq<BalanceRow>, poolSnapshots: seq<PoolSnapshot>, startOfToday: int,
                                  valuate: (Fixed, PoolSnapshot) -> Valuation)
    requires stored != [] && StoredIncreasing(stored) && StoredAligned(stored)
    requires GapsCovered(stored, |stored|, poolSnapshots)
    requires var last := stored[|stored| - 1];
      last.timestamp >= startOfToday
      || (last.totalBalance > 0 && Covered(poolSnapshots, last.timestamp + OneDay, startOfToday + OneDay))
    ensures Daily(CorrectedWalk(stored, poolSnapshots, startOfToday, valuate))
  {
    WalkReturnsIff(stored, poolSnapshots, startOfToday, valuate);
    WalkAgrees(stored, poolSnapshots, startOfToday, valuate);
    WalkOrdered(stored, poolSnapshots, startOfToday, valuate);
  }

  // ---------------------------------------------------------------------
  // The inputs on which the walk as written never returns

  /** The zero-balance user of `GapFill.ZeroBalanceSpins` gets their one row. */
  lemma CorrectedOnZeroBalance()
    ensures CorrectedWalk([Holding(0, 0)], [PoolDay(0), PoolDay(OneDay)], OneDay, NoValue)
         == [FromStored(Holding(0, 0))]
  {
  }

  /** The user of `GapFill.MissingDaySpins` gets both stored rows, with the
      day between them, which has no pool snapshot, left out. */
  lemma CorrectedOnMissingDay()
    ensures CorrectedWalk([Holding(0, OneToken), Holding(2 * OneDay, OneToken)],
                          [PoolDay(0), PoolDay(2 * OneDay)], 2 * OneDay, NoValue)
         == [FromStored(Holding(0, OneToken)), FromStored(Holding(2 * OneDay, OneToken))]
  {
    var snaps := [PoolDay(0), PoolDay(2 * OneDay)];
    var anchor := FromStored(Holding(0, OneToken));
    assert FindPoolSnapshot(snaps, OneDay) == None;
    assert FillDays(anchor, OneDay, 2 * OneDay, snaps, NoValue) == [];
    var last := FromStored(Holding(2 * OneDay, OneToken));
    assert FillDays(last, 3 * OneDay, 3 * OneDay, snaps, NoValue) == [];
  }

  // ---------------------------------------------------------------------
  // The whole query, corrected

  /** `getUserSnapshotsForPool` with the corrected walk: the same cutoff,
      reload and bootstrap, and an empty series where the written walk
      reads a first stored row that is not there. */
  function CorrectedSnapshotsForPool(userAddress: string, pool: Pool, range: DataRange, startOfToday: int,
                                     table: seq<BalanceRow>, events: seq<BalanceEvent>, lookup: seq<PoolSnapshot>,
                                     poolSnapshots: seq<PoolSnapshot>, valuate: (Fixed, PoolSnapshot) -> Valuation)
    : (r: Result<seq<UserPoolSnapshot>, EnrichError>)
    ensures r.Failure? ==>
      Enriched(RelevantEvents(events, pool), pool, lookup, valuate) == Failure(r.error)
  {
    var cutoff := TimestampForRange(range, startOfToday);
    var stored := StoredFrom(table, userAddress, pool.id, cutoff);
    if stored != [] then Success(CorrectedWalk(stored, poolSnapshots, startOfToday, valuate))
    else
      var forPool := RelevantEvents(events, pool);
      if forPool == [] then Success([])
      else match Enriched(forPool, pool, lookup, valuate)
        case Failure(err) => Failure(err)
        case Success(rows) =>
          Success(CorrectedWalk(StoredFrom(table + rows, userAddress, pool.id, cutoff), poolSnapshots, startOfToday, valuate))
  }

  /** The corrected query throws the same enrichment errors as the written
      one, returns the same series wherever the written one returns, and
      returns an empty series where the written one throws at line 90. */
  lemma QueryAgrees(userAddress: string, pool: Pool, range: DataRange, startOfToday: int,
                    table: seq<BalanceRow>, events: seq<BalanceEvent>, lookup: seq<PoolSnapshot>,
                    poolSnapshots: seq<PoolSnapshot>, valuate: (Fixed, PoolSnapshot) -> Valuation)
    ensures var written := SnapshotsForPool(userAddress, pool, range, startOfToday, table, events, lookup,
                                            poolSnapshots, valuate);
      var corrected := CorrectedSnapshotsForPool(userAddress, pool, range, startOfToday, table, events, lookup,
                                                 poolSnapshots, valuate);
      && (written.Failure? <==> corrected.Failure?)
      && (written.Failure? ==> corrected.error == written.error)
      && (written.Success? && written.value.Returned? ==> corrected == Success(written.value.rows))
      && (written == Success(ThrowsOnEmpty) ==> corrected == Success([]))
  {
    var cutoff := TimestampForRange(range, startOfToday);
    var stored := StoredFrom(table, userAddress, pool.id, cutoff);
    var forPool := RelevantEvents(events, pool);
    if stored != [] {
      if AsWritten(stored, poolSnapshots, startOfToday, valuate).Returned? {
        WalkAgrees(stored, poolSnapshots, startOfToday, valuate);
      }
    } else if forPool != [] && Enriched(forPool, pool, lookup, valuate).Success? {
      var reloaded := StoredFrom(table + Enriched(forPool, pool, lookup, valuate).value, userAddress, pool.id, cutoff);
      if AsWritten(reloaded, poolSnapshots, startOfToday, valuate).Returned? {
        WalkAgrees(reloaded, poolSnapshots, startOfToday, valuate);
      }
    }
  }

  /** The users of `GapFill.UnvaluedHistoryThrows` and
      `GapFill.OlderHistoryThrows` get an empty series. */
  lemma CorrectedOnEmptyHistory()
    ensures var pool := Pool("pool", "0xpool", None);
      && CorrectedSnapshotsForPool("0xuser", pool, AllTime, OneDay, [], [WalletEvent()], [], [], NoValue)
         == Success([])
      && CorrectedSnapshotsForPool("0xuser", pool, ThirtyDays, 40 * OneDay, [], [WalletEvent()], [PoolDay(0)], [],
                                   NoValue)
         == Success([])
  {
    var pool := Pool("pool", "0xpool", None);
    UnvaluedHistoryThrows();
    QueryAgrees("0xuser", pool, AllTime, OneDay, [], [WalletEvent()], [], [], NoValue);
    OlderHistoryThrows();
    QueryAgrees("0xuser", pool, ThirtyDays, 40 * OneDay, [], [WalletEvent()], [PoolDay(0)], [], NoValue);
  }
}
