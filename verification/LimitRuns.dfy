/**
 Limits over runs: whatever the clock readings, no period admits more than its window still allows.
 */
module LimitRuns {
  import opened Wrappers
  import opened Limits

  /** A proposed operation; other limits and gates may reject it as well. */
  datatype Operation = Operation(action: Action, amount: nat, now: int, otherwiseAllowed: bool)

  predicate WindowAdmits(policy: LimitPolicy, kind: Kind, window: Option<Window>, op: Operation) {
    var o := ObserveWindow(policy, kind, window, op.action, op.amount, op.now);
    !o.regression && o.allowed && o.actionAllowed && (Enforced(o) ==> window.Some?)
  }

  predicate Admits(policy: LimitPolicy, windows: Windows, op: Operation) {
    && Within(policy.perTransaction, op.amount)
    && forall kind: Kind :: WindowAdmits(policy, kind, windows[kind], op)
  }

  /** One window admits an operation, over aligned periods of so many seconds and under these maxima. */
  ghost predicate AdmittedBy(window: Option<Window>, period: nat, maximum: nat, maximumActions: nat, op: Operation)
    requires period > 0
  {
    match window
    case None => maximum == 0 && maximumActions == 0
    case Some(w) =>
      exists start: int ::
        start % period == 0 && start <= op.now < start + period && w.start <= start
        && var used := if w.start < start then 0 else match op.action case Mint => w.grossIn case Redeem => w.grossOut;
           var actions := if w.start < start then 0 else w.actions;
           (maximum != 0 ==> used + op.amount <= maximum) && (maximumActions != 0 ==> actions + 1 <= maximumActions)
  }

  lemma {:induction false} WindowAdmitsExactly(
      policy: LimitPolicy, kind: Kind, window: Option<Window>, op: Operation, period: nat)
    requires PeriodSeconds(kind) == Some(period) && period > 0
    ensures WindowAdmits(policy, kind, window, op)
      <==> AdmittedBy(window, period, Maximum(policy, kind), MaximumActions(policy, kind), op)
  {
    var canonical := Start(kind, op.now);
    PeriodOfTime(kind, canonical, op.now) by { PeriodOfTime(kind, 0, op.now); }
    forall start: int | start % period == 0 && start <= op.now < start + period
      ensures start == canonical
    {
      PeriodOfTime(kind, start, op.now);
    }
    assert canonical % period == 0 && canonical <= op.now < canonical + period;
  }

  /** An operation is admitted exactly within the limit on one operation and by all four windows. */
  lemma {:induction false} AdmitsExactly(policy: LimitPolicy, windows: Windows, op: Operation)
    ensures Admits(policy, windows, op) <==>
      && (policy.perTransaction == 0 || op.amount <= policy.perTransaction)
      && AdmittedBy(windows[0], 60 * 60, policy.perHour, policy.actionsPerHour, op)
      && AdmittedBy(windows[1], 24 * 60 * 60, policy.perDay, policy.actionsPerDay, op)
      && AdmittedBy(windows[2], 7 * 24 * 60 * 60, policy.perSevenDay, 0, op)
      && AdmittedBy(windows[3], 30 * 24 * 60 * 60, policy.perThirtyDay, 0, op)
  {
    WindowAdmitsExactly(policy, 0, windows[0], op, 60 * 60);
    WindowAdmitsExactly(policy, 1, windows[1], op, 24 * 60 * 60);
    WindowAdmitsExactly(policy, 2, windows[2], op, 7 * 24 * 60 * 60);
    WindowAdmitsExactly(policy, 3, windows[3], op, 30 * 24 * 60 * 60);
    assert (forall kind: Kind :: WindowAdmits(policy, kind, windows[kind], op)) <==>
      WindowAdmits(policy, 0, windows[0], op) && WindowAdmits(policy, 1, windows[1], op)
      && WindowAdmits(policy, 2, windows[2], op) && WindowAdmits(policy, 3, windows[3], op);
  }

  //// Validation and admission agree

  function Observation(policy: LimitPolicy, windows: Windows, op: Operation): LimitObservation {
    LimitObservation(
      policy.perTransaction, op.amount,
      Remaining(policy.perTransaction, 0), Remaining(policy.perTransaction, op.amount),
      Within(policy.perTransaction, op.amount), ObserveAll(policy, windows, op.action, op.amount, op.now))
  }

  lemma {:induction false} WindowHasNoIssue(
      d: Dimension, policy: LimitPolicy, kind: Kind, window: Option<Window>, op: Operation)
    requires kind in d.exist && (d.exist[kind] <==> window.Some?)
    ensures WindowIssues(d, ObserveWindow(policy, kind, window, op.action, op.amount, op.now)) == []
      <==> WindowAdmits(policy, kind, window, op)
  {
  }

  lemma {:induction false} NothingAppended(a: seq<Issue>, b: seq<Issue>)
    ensures a + b == [] <==> a == [] && b == []
  {
  }

  predicate QuietWindow(d: Dimension, w: WindowObservation) {
    WindowIssues(d, w) == []
  }

  predicate AllQuiet(d: Dimension, windows: seq<WindowObservation>) {
    forall i :: 0 <= i < |windows| ==> QuietWindow(d, windows[i])
  }

  lemma {:induction false} AllQuietAppend(d: Dimension, init: seq<WindowObservation>, last: WindowObservation)
    ensures AllQuiet(d, init + [last]) <==> AllQuiet(d, init) && QuietWindow(d, last)
  {
    var windows := init + [last];
    assert windows[|init|] == last && forall i :: 0 <= i < |init| ==> windows[i] == init[i];
  }

  lemma {:induction false} WindowsHaveNoIssue(d: Dimension, windows: seq<WindowObservation>, issues: seq<Issue>)
    requires issues == WindowsIssues(d, windows)
    ensures issues == [] <==> AllQuiet(d, windows)
  {
    if windows != [] {
      var init, last := windows[..|windows| - 1], windows[|windows| - 1];
      assert windows == init + [last];
      WindowsHaveNoIssue(d, init, WindowsIssues(d, init));
      WindowAppended(d, init, last);
      NothingAppended(WindowsIssues(d, init), WindowIssues(d, last));
      AllQuietAppend(d, init, last);
    }
  }

  /** A dimension raises no issue exactly when its policy has none and its limits admit the operation. */
  lemma {:induction false} NoIssuesExactly(d: Dimension, policy: LimitPolicy, windows: Windows, op: Operation)
    requires d.observation == Some(Observation(policy, windows, op))
    requires forall kind: Kind :: kind in d.exist && (d.exist[kind] <==> windows[kind].Some?)
    ensures DimensionIssues(d) == [] <==> d.issues == [] && Admits(policy, windows, op)
  {
    var observed := ObserveAll(policy, windows, op.action, op.amount, op.now);
    WindowsHaveNoIssue(d, observed, WindowsIssues(d, observed));
    NothingAppended(PolicyIssues(d.name, d.issues), ObservationIssues(d, d.observation.value));
    forall kind: Kind
      ensures QuietWindow(d, observed[kind]) <==> WindowAdmits(policy, kind, windows[kind], op)
    {
      WindowHasNoIssue(d, policy, kind, windows[kind], op);
    }
  }

  predicate Quiet(d: Dimension) {
    DimensionIssues(d) == []
  }

  predicate AllDimensionsQuiet(limits: seq<Dimension>) {
    forall i :: 0 <= i < |limits| ==> Quiet(limits[i])
  }

  lemma {:induction false} DimensionsAppend(init: seq<Dimension>, last: Dimension)
    ensures AllDimensionsQuiet(init + [last]) <==> AllDimensionsQuiet(init) && Quiet(last)
  {
    var limits := init + [last];
    assert limits[|init|] == last && forall i :: 0 <= i < |init| ==> limits[i] == init[i];
  }

  /** No issue is logged exactly when no dimension raises one. */
  lemma {:induction false} NoLimitIssues(limits: seq<Dimension>)
    ensures LimitIssues(limits) == [] <==> AllDimensionsQuiet(limits)
  {
    if limits != [] {
      var init, last := limits[..|limits| - 1], limits[|limits| - 1];
      assert limits == init + [last];
      NoLimitIssues(init);
      DimensionsAppend(init, last);
      DimensionAppended(init, last);
      NothingAppended(LimitIssues(init), DimensionIssues(last));
    }
  }

  /** A window that starts later than the current period admits nothing. */
  lemma {:induction false} FutureWindowAdmitsNothing(policy: LimitPolicy, windows: Windows, kind: Kind, op: Operation)
    requires windows[kind].Some? && windows[kind].value.start > Start(kind, op.now)
    ensures !Admits(policy, windows, op)
  {
    assert !WindowAdmits(policy, kind, windows[kind], op);
  }

  /** Unless the maximum is already exceeded, the reported remainder is exactly what is allowed. */
  lemma {:induction false} RemainderExact(
      policy: LimitPolicy, kind: Kind, window: Option<Window>, action: Action, proposed: nat, now: int)
    requires Maximum(policy, kind) != 0
    ensures var o := ObserveWindow(policy, kind, window, action, proposed, now);
      o.current <= o.maximum ==> (o.allowed <==> !o.regression && proposed <= o.remainingBefore.value)
  {
  }

  //// The stored windows after an admitted operation

  /** A window of an earlier period starts over; then the operation is counted. */
  function Advance(kind: Kind, window: Option<Window>, op: Operation): Option<Window> {
    match window
    case None => None
    case Some(w) =>
      var start := Start(kind, op.now);
      var base := if w.start == start then w else Window(start, 0, 0, 0);
      Some(Window(
        start,
        if op.action.Mint? then base.grossIn + op.amount else base.grossIn,
        if op.action.Mint? then base.grossOut else base.grossOut + op.amount,
        base.actions + 1))
  }

  /** What is stored is what was projected. */
  lemma {:induction false} AdvanceStoresProjection(
      policy: LimitPolicy, kind: Kind, window: Option<Window>, op: Operation)
    requires window.Some? && WindowAdmits(policy, kind, window, op)
    ensures var o := ObserveWindow(policy, kind, window, op.action, op.amount, op.now);
      var w := Advance(kind, window, op).value;
      && w.start == o.canonical && Accumulated(w, op.action) == o.projected && w.actions == o.projectedActions
      && forall other: Action :: other != op.action ==>
        Accumulated(w, other) == if window.value.start == o.canonical then Accumulated(window.value, other) else 0
  {
  }

  function AdvanceAll(windows: Windows, op: Operation): Windows {
    seq(4, k requires 0 <= k < 4 => Advance(k, windows[k], op))
  }

  predicate Accepted(policy: LimitPolicy, windows: Windows, op: Operation) {
    op.otherwiseAllowed && Admits(policy, windows, op)
  }

  function Final(policy: LimitPolicy, windows: Windows, ops: seq<Operation>): Windows {
    if ops == [] then windows
    else
      var before, op := Final(policy, windows, ops[..|ops| - 1]), ops[|ops| - 1];
      if Accepted(policy, before, op) then AdvanceAll(before, op) else before
  }

  //// What a period admits

  /** Each window counts mints, redemptions and operations. */
  datatype Measure = Volume(action: Action) | Operations

  function Cost(m: Measure, op: Operation): nat {
    match m
    case Volume(action) => if op.action == action then op.amount else 0
    case Operations => 1
  }

  function Held(m: Measure, w: Window): nat {
    match m
    case Volume(action) => Accumulated(w, action)
    case Operations => w.actions
  }

  function Cap(policy: LimitPolicy, kind: Kind, m: Measure): nat {
    match m
    case Volume(_) => Maximum(policy, kind)
    case Operations => MaximumActions(policy, kind)
  }

  /** What the operations accepted during a run add up to within one period. */
  function Total(policy: LimitPolicy, windows: Windows, ops: seq<Operation>, kind: Kind, m: Measure, start: int): nat {
    if ops == [] then 0
    else
      var init, op := ops[..|ops| - 1], ops[|ops| - 1];
      Total(policy, windows, init, kind, m, start)
      + if Accepted(policy, Final(policy, windows, init), op) && InPeriod(kind, start, op.now) then Cost(m, op) else 0
  }

  /** What the first window already holds for a period. */
  function HeldAt(m: Measure, w: Window, start: int): nat {
    if w.start == start then Held(m, w) else 0
  }

  /** What holds between the first window, the current one, and the total of a period. */
  ghost predicate Accounts(first: Window, last: Window, m: Measure, start: int, total: nat, cap: nat) {
    && first.start <= last.start
    && (start < first.start || last.start < start ==> total == 0)
    && (start == last.start ==> Held(m, last) == HeldAt(m, first, start) + total)
    && (cap != 0 ==> total == 0 || HeldAt(m, first, start) + total <= cap)
  }

  lemma {:induction false} AccountsStep(
      policy: LimitPolicy, kind: Kind, first: Window, last: Window, m: Measure, start: int, total: nat,
      op: Operation)
    requires Aligned(kind, start) && Accounts(first, last, m, start, total, Cap(policy, kind, m))
    requires WindowAdmits(policy, kind, Some(last), op)
    ensures Accounts(first, Advance(kind, Some(last), op).value, m, start,
      total + if InPeriod(kind, start, op.now) then Cost(m, op) else 0, Cap(policy, kind, m))
  {
    PeriodOfTime(kind, start, op.now);
  }

  lemma {:induction false} RunAccounts(
      policy: LimitPolicy, windows: Windows, ops: seq<Operation>, kind: Kind, m: Measure, start: int)
    requires Aligned(kind, start) && windows[kind].Some?
    ensures Final(policy, windows, ops)[kind].Some?
    ensures Accounts(windows[kind].value, Final(policy, windows, ops)[kind].value, m, start,
      Total(policy, windows, ops, kind, m, start), Cap(policy, kind, m))
  {
    if ops != [] {
      var init, op := ops[..|ops| - 1], ops[|ops| - 1];
      RunAccounts(policy, windows, init, kind, m, start);
      var before := Final(policy, windows, init);
      if Accepted(policy, before, op) {
        assert WindowAdmits(policy, kind, before[kind], op);
        AccountsStep(policy, kind, windows[kind].value, before[kind].value, m, start,
          Total(policy, windows, init, kind, m, start), op);
      }
    }
  }

  lemma {:induction false} MissingWindowAdmitsNothing(
      policy: LimitPolicy, windows: Windows, ops: seq<Operation>, kind: Kind, m: Measure, start: int)
    requires windows[kind].None? && Cap(policy, kind, m) != 0
    ensures Final(policy, windows, ops)[kind].None? && Total(policy, windows, ops, kind, m, start) == 0
  {
    if ops != [] {
      var init, op := ops[..|ops| - 1], ops[|ops| - 1];
      MissingWindowAdmitsNothing(policy, windows, init, kind, m, start);
      assert !WindowAdmits(policy, kind, Final(policy, windows, init)[kind], op);
    }
  }

  /** What a period may still admit: nothing before the stored window or without one. */
  function Allowance(policy: LimitPolicy, kind: Kind, window: Option<Window>, m: Measure, start: int): nat
    requires Cap(policy, kind, m) != 0
  {
    if window.None? || start < window.value.start then 0
    else Remaining(Cap(policy, kind, m), HeldAt(m, window.value, start)).value
  }

  /**
   Over any run, under any sequence of clock readings, what is admitted within an aligned period never
   exceeds the period's allowance, for mints, redemptions and the number of operations alike.
   */
  lemma {:induction false} CapHolds(
      policy: LimitPolicy, windows: Windows, ops: seq<Operation>, kind: Kind, m: Measure, start: int)
    requires Aligned(kind, start) && Cap(policy, kind, m) != 0
    ensures Total(policy, windows, ops, kind, m, start) <= Allowance(policy, kind, windows[kind], m, start)
    ensures Allowance(policy, kind, windows[kind], m, start) <= Cap(policy, kind, m)
  {
    if windows[kind].None? {
      MissingWindowAdmitsNothing(policy, windows, ops, kind, m, start);
    } else {
      RunAccounts(policy, windows, ops, kind, m, start);
    }
  }

  /** The stored counter of the current period is what it held at first plus all that was admitted since. */
  lemma {:induction false} CounterExact(
      policy: LimitPolicy, windows: Windows, ops: seq<Operation>, kind: Kind, m: Measure)
    requires windows[kind].Some?
    ensures Final(policy, windows, ops)[kind].Some?
    ensures var w := Final(policy, windows, ops)[kind].value;
      Aligned(kind, w.start) ==>
        Held(m, w) == HeldAt(m, windows[kind].value, w.start) + Total(policy, windows, ops, kind, m, w.start)
  {
    RunAccounts(policy, windows, ops, kind, m, 0) by { assert Aligned(kind, 0); }
    var w := Final(policy, windows, ops)[kind].value;
    if Aligned(kind, w.start) {
      RunAccounts(policy, windows, ops, kind, m, w.start);
    }
  }

  //// The caps in their own terms

  /** What accepted operations of a run, with a clock reading from `from` up to `until`, add up to. */
  function Spent(policy: LimitPolicy, windows: Windows, ops: seq<Operation>, m: Measure, from: int, until: int): nat {
    if ops == [] then 0
    else
      var init, op := ops[..|ops| - 1], ops[|ops| - 1];
      Spent(policy, windows, init, m, from, until)
      + if Accepted(policy, Final(policy, windows, init), op) && from <= op.now < until
        then (match m
              case Volume(action) => if op.action == action then op.amount else 0
              case Operations => 1)
        else 0
  }

  lemma {:induction false} TotalIsSpent(
      policy: LimitPolicy, windows: Windows, ops: seq<Operation>, kind: Kind, m: Measure, start: int, period: nat)
    requires PeriodSeconds(kind) == Some(period)
    ensures Total(policy, windows, ops, kind, m, start) == Spent(policy, windows, ops, m, start, start + period)
  {
    if ops != [] {
      TotalIsSpent(policy, windows, ops[..|ops| - 1], kind, m, start, period);
    }
  }

  /** An amount under a maximum, where zero means there is none. */
  predicate Under(spent: nat, maximum: nat) {
    maximum != 0 ==> spent <= maximum
  }

  lemma {:induction false} CapOf(
      policy: LimitPolicy, windows: Windows, ops: seq<Operation>, kind: Kind, m: Measure, start: int, period: nat)
    requires PeriodSeconds(kind) == Some(period) && period > 0
    ensures start % period == 0 ==>
      Under(Spent(policy, windows, ops, m, start, start + period), Cap(policy, kind, m))
  {
    if start % period == 0 && Cap(policy, kind, m) != 0 {
      CapHolds(policy, windows, ops, kind, m, start);
      TotalIsSpent(policy, windows, ops, kind, m, start, period);
    }
  }

  /**
   Over any run and any clock readings: no aligned hour, day, seven days or thirty days takes more of
   mints or of redemptions, and no hour or day more operations, than the policy's own maximum for it.
   */
  lemma {:induction false} EveryCapHolds(
      policy: LimitPolicy, windows: Windows, ops: seq<Operation>, action: Action, start: int)
    ensures start % 3_600 == 0 ==>
      Under(Spent(policy, windows, ops, Volume(action), start, start + 3_600), policy.perHour)
      && Under(Spent(policy, windows, ops, Operations, start, start + 3_600), policy.actionsPerHour)
    ensures start % 86_400 == 0 ==>
      Under(Spent(policy, windows, ops, Volume(action), start, start + 86_400), policy.perDay)
      && Under(Spent(policy, windows, ops, Operations, start, start + 86_400), policy.actionsPerDay)
    ensures start % 604_800 == 0 ==>
      Under(Spent(policy, windows, ops, Volume(action), start, start + 604_800), policy.perSevenDay)
    ensures start % 2_592_000 == 0 ==>
      Under(Spent(policy, windows, ops, Volume(action), start, start + 2_592_000), policy.perThirtyDay)
  {
    CapOf(policy, windows, ops, 0, Volume(action), start, 3_600);
    CapOf(policy, windows, ops, 0, Operations, start, 3_600);
    CapOf(policy, windows, ops, 1, Volume(action), start, 86_400);
    CapOf(policy, windows, ops, 1, Operations, start, 86_400);
    CapOf(policy, windows, ops, 2, Volume(action), start, 604_800);
    CapOf(policy, windows, ops, 3, Volume(action), start, 2_592_000);
  }
}
