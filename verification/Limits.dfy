/** Usage limits over fixed, aligned periods: what one proposed operation would do to each window. */
module Limits {
  import opened Wrappers
  import opened Bytes
  import opened ModularArithmetic
  import Settlement

  type Action = Settlement.Action

  /** Periods are numbered hourly, daily, weekly (seven days), monthly (thirty days). */
  type Kind = k: nat | k < 4

  function PeriodSeconds(kind: nat): Option<nat> {
    match kind
    case 0 => Some(3_600)
    case 1 => Some(86_400)
    case 2 => Some(604_800)
    case 3 => Some(2_592_000)
    case _ => None
  }

  /** Division rounds down, also before the epoch. */
  function CanonicalWindowStart(kind: nat, timestamp: int): Option<int> {
    match PeriodSeconds(kind)
    case None => None
    case Some(period) => Some(timestamp / period * period)
  }

  function Start(kind: Kind, timestamp: int): int {
    CanonicalWindowStart(kind, timestamp).value
  }

  /** An aligned period: it starts at a multiple of its length. */
  predicate Aligned(kind: Kind, start: int) {
    start % PeriodSeconds(kind).value == 0
  }

  predicate InPeriod(kind: Kind, start: int, timestamp: int) {
    start <= timestamp < start + PeriodSeconds(kind).value
  }

  /** Each time lies in exactly one aligned period, the one that starts at its canonical start. */
  lemma {:induction false} PeriodOfTime(kind: Kind, start: int, timestamp: int)
    requires Aligned(kind, start)
    ensures Aligned(kind, Start(kind, timestamp))
    ensures InPeriod(kind, start, timestamp) <==> start == Start(kind, timestamp)
  {
    Aligning(PeriodSeconds(kind).value, start, timestamp);
  }

  /** The canonical start is that of the aligned hour, day, seven days or thirty days; there are no other kinds. */
  lemma {:induction false} CanonicalExactly(kind: nat, timestamp: int, start: int)
    ensures CanonicalWindowStart(kind, timestamp) == Some(start) <==>
      kind < 4
      && var period := [60 * 60, 24 * 60 * 60, 7 * 24 * 60 * 60, 30 * 24 * 60 * 60][kind];
         start % period == 0 && start <= timestamp < start + period
    ensures kind >= 4 ==> CanonicalWindowStart(kind, timestamp) == None
  {
    if kind < 4 {
      PeriodOfTime(kind, Start(kind, timestamp), timestamp) by { PeriodOfTime(kind, 0, timestamp); }
      if start % PeriodSeconds(kind).value == 0 {
        PeriodOfTime(kind, start, timestamp);
      }
    }
  }

  lemma {:induction false} Aligning(period: Modulus, start: int, t: int)
    requires start % period == 0
    ensures t / period * period % period == 0
    ensures start <= t < start + period <==> start == t / period * period
  {
    var k, q := start / period, t / period;
    SameBy(q * period, 0, q, period);
    Small(0, period);
    SameCell(k, q, t % period, period);
  }

  lemma {:induction false} SameCell(k: int, q: int, r: int, period: int)
    requires 0 <= r < period
    ensures k * period <= q * period + r < k * period + period <==> k == q
  {
    if k < q {
      Monotone(k + 1, q, period);
      assert (k + 1) * period == k * period + period;
    } else if q < k {
      Monotone(q + 1, k, period);
      assert (q + 1) * period == q * period + period;
    }
  }

  //// Amounts of 128 bits

  type Word = w: nat | w < 0x1_0000_0000_0000_0000

  function WordsToUnsigned128(words: seq<Word>): Option<nat> {
    if |words| != 2 then None
    else
      var low: nat, high: nat := words[0], words[1];
      Some(low + high * 0x1_0000_0000_0000_0000)
  }

  /** Two words make each 128-bit number in exactly one way. */
  lemma {:induction false} WordsExactly(words: seq<Word>, n: nat)
    ensures WordsToUnsigned128(words) == Some(n)
      <==> n < 0x1_0000_0000_0000_0000_0000_0000_0000_0000
           && words == [n % 0x1_0000_0000_0000_0000, n / 0x1_0000_0000_0000_0000]
  {
    if |words| == 2 {
      assert words == [words[0], words[1]];
    }
  }

  //// One window

  datatype Window = Window(start: int, grossIn: nat, grossOut: nat, actions: nat)

  datatype LimitPolicy = LimitPolicy(
    perTransaction: nat, perHour: nat, perDay: nat, perSevenDay: nat, perThirtyDay: nat,
    actionsPerHour: nat, actionsPerDay: nat)

  datatype WindowObservation = WindowObservation(
    kind: Kind, maximum: nat, stored: Option<int>, canonical: int, rolled: bool, regression: bool,
    current: nat, proposed: nat, projected: nat, remainingBefore: Option<nat>, remainingAfter: Option<nat>,
    allowed: bool, currentActions: nat, projectedActions: nat, maximumActions: nat,
    actionsBefore: Option<nat>, actionsAfter: Option<nat>, actionAllowed: bool)

  datatype LimitObservation = LimitObservation(
    perTransaction: nat, proposed: nat, perTransactionBefore: Option<nat>, perTransactionAfter: Option<nat>,
    perTransactionAllowed: bool, windows: seq<WindowObservation>)

  function Maximum(policy: LimitPolicy, kind: Kind): nat {
    match kind
    case 0 => policy.perHour
    case 1 => policy.perDay
    case 2 => policy.perSevenDay
    case _ => policy.perThirtyDay
  }

  function MaximumActions(policy: LimitPolicy, kind: Kind): nat {
    match kind
    case 0 => policy.actionsPerHour
    case 1 => policy.actionsPerDay
    case _ => 0
  }

  /** Mints count what comes in, redemptions what goes out. */
  function Accumulated(window: Window, action: Action): nat {
    if action.Mint? then window.grossIn else window.grossOut
  }

  /** What is left under a maximum, where zero means there is none. */
  function Remaining(maximum: nat, used: nat): Option<nat> {
    if maximum == 0 then None else Some(if used < maximum then maximum - used else 0)
  }

  predicate Within(maximum: nat, used: nat) {
    maximum == 0 || used <= maximum
  }

  function ObserveWindow(
      policy: LimitPolicy, kind: Kind, window: Option<Window>, action: Action, proposed: nat, now: int)
    : WindowObservation
  {
    var maximum, maximumActions := Maximum(policy, kind), MaximumActions(policy, kind);
    var canonical := Start(kind, now);
    var stored := if window.None? then None else Some(window.value.start);
    var regression := stored.Some? && stored.value > canonical;
    var counts := stored.Some? && stored.value == canonical;
    var current := if counts then Accumulated(window.value, action) else 0;
    var actions := if counts then window.value.actions else 0;
    WindowObservation(
      kind, maximum, stored, canonical, stored.Some? && stored.value < canonical, regression,
      current, proposed, current + proposed,
      Remaining(maximum, current), Remaining(maximum, current + proposed),
      !regression && Within(maximum, current + proposed),
      actions, actions + 1, maximumActions,
      Remaining(maximumActions, actions), Remaining(maximumActions, actions + 1),
      !regression && Within(maximumActions, actions + 1))
  }

  type Windows = s: seq<Option<Window>> | |s| == 4 witness [None, None, None, None]

  function ObserveAll(
      policy: LimitPolicy, windows: Windows, action: Action, proposed: nat, now: int): seq<WindowObservation>
  {
    seq(4, k requires 0 <= k < 4 => ObserveWindow(policy, k, windows[k], action, proposed, now))
  }

  /** What is left under a maximum, never less than nothing; a maximum of zero is none. */
  ghost predicate LeftUnder(left: Option<nat>, maximum: nat, used: nat) {
    match left
    case None => maximum == 0
    case Some(n) => maximum != 0 && (n + used == maximum || (n == 0 && maximum <= used))
  }

  lemma {:induction false} RemainingIsLeft(maximum: nat, used: nat)
    ensures LeftUnder(Remaining(maximum, used), maximum, used)
  {
  }

  /** The observation of one window under one maximum, over aligned periods of so many seconds. */
  ghost predicate ObservedAs(
      o: WindowObservation, kind: nat, period: nat, maximum: nat, maximumActions: nat,
      window: Option<Window>, action: Action, proposed: nat, now: int)
    requires period > 0
  {
    var same := window.Some? && window.value.start == o.canonical;
    && o.kind == kind && o.maximum == maximum && o.maximumActions == maximumActions && o.proposed == proposed
    && o.canonical % period == 0 && o.canonical <= now < o.canonical + period
    && o.stored == (match window case None => None case Some(w) => Some(w.start))
    && (o.rolled <==> window.Some? && window.value.start < o.canonical)
    && (o.regression <==> window.Some? && o.canonical < window.value.start)
    && o.current ==
      (if !same then 0 else match action case Mint => window.value.grossIn case Redeem => window.value.grossOut)
    && o.currentActions == (if same then window.value.actions else 0)
    && o.projected == o.current + proposed && o.projectedActions == o.currentActions + 1
    && LeftUnder(o.remainingBefore, maximum, o.current) && LeftUnder(o.remainingAfter, maximum, o.projected)
    && LeftUnder(o.actionsBefore, maximumActions, o.currentActions)
    && LeftUnder(o.actionsAfter, maximumActions, o.projectedActions)
    && (o.allowed <==> !o.regression && (maximum != 0 ==> o.projected <= maximum))
    && (o.actionAllowed <==> !o.regression && (maximumActions != 0 ==> o.projectedActions <= maximumActions))
  }

  lemma {:induction false} ObservedIs(
      policy: LimitPolicy, kind: Kind, window: Option<Window>, action: Action, proposed: nat, now: int, period: nat)
    requires PeriodSeconds(kind) == Some(period) && period > 0
    ensures ObservedAs(ObserveWindow(policy, kind, window, action, proposed, now), kind, period,
      Maximum(policy, kind), MaximumActions(policy, kind), window, action, proposed, now)
  {
    PeriodOfTime(kind, 0, now);
    PeriodOfTime(kind, Start(kind, now), now);
  }

  /** The four windows, hour, day, seven days and thirty days, each with its own maxima. */
  ghost predicate FourWindows(
      os: seq<WindowObservation>, policy: LimitPolicy, windows: Windows, action: Action, proposed: nat, now: int)
  {
    && |os| == 4
    && ObservedAs(os[0], 0, 60 * 60, policy.perHour, policy.actionsPerHour, windows[0], action, proposed, now)
    && ObservedAs(os[1], 1, 24 * 60 * 60, policy.perDay, policy.actionsPerDay, windows[1], action, proposed, now)
    && ObservedAs(os[2], 2, 7 * 24 * 60 * 60, policy.perSevenDay, 0, windows[2], action, proposed, now)
    && ObservedAs(os[3], 3, 30 * 24 * 60 * 60, policy.perThirtyDay, 0, windows[3], action, proposed, now)
  }

  lemma {:induction false} WindowsObserved(
      policy: LimitPolicy, windows: Windows, action: Action, proposed: nat, now: int)
    ensures FourWindows(ObserveAll(policy, windows, action, proposed, now), policy, windows, action, proposed, now)
  {
    ObservedIs(policy, 0, windows[0], action, proposed, now, 60 * 60);
    ObservedIs(policy, 1, windows[1], action, proposed, now, 24 * 60 * 60);
    ObservedIs(policy, 2, windows[2], action, proposed, now, 7 * 24 * 60 * 60);
    ObservedIs(policy, 3, windows[3], action, proposed, now, 30 * 24 * 60 * 60);
  }

  method ObserveLimitPolicy(policy: LimitPolicy, action: Action, proposed: int, windows: Windows, now: int)
      returns (r: Option<LimitObservation>)
    ensures r.None? <==> proposed < 0
    ensures r.Some? ==> r.value.windows == ObserveAll(policy, windows, action, proposed, now)
    ensures r.Some? ==> (r.value.perTransactionAllowed <==> Within(policy.perTransaction, proposed))
    ensures r.Some? ==> r.value.perTransactionAfter == Remaining(policy.perTransaction, proposed)
    ensures r.Some? ==> r.value.perTransactionBefore == Remaining(policy.perTransaction, 0)
    ensures r.Some? ==> FourWindows(r.value.windows, policy, windows, action, proposed, now)
    ensures r.Some? ==> r.value.perTransaction == policy.perTransaction && r.value.proposed == proposed
    ensures r.Some? ==>
      (r.value.perTransactionAllowed <==> policy.perTransaction == 0 || proposed <= policy.perTransaction)
    ensures r.Some? ==> LeftUnder(r.value.perTransactionBefore, policy.perTransaction, 0)
    ensures r.Some? ==> LeftUnder(r.value.perTransactionAfter, policy.perTransaction, proposed)
  {
    if proposed < 0 {
      return None;
    }
    var observations: seq<WindowObservation> := [];
    for kind := 0 to 4
      invariant observations == ObserveAll(policy, windows, action, proposed, now)[..kind]
    {
      observations := observations + [ObserveWindow(policy, kind, windows[kind], action, proposed, now)];
    }
    WindowsObserved(policy, windows, action, proposed, now);
    RemainingIsLeft(policy.perTransaction, 0);
    RemainingIsLeft(policy.perTransaction, proposed);
    return Some(LimitObservation(
      policy.perTransaction, proposed, Remaining(policy.perTransaction, 0), Remaining(policy.perTransaction, proposed),
      Within(policy.perTransaction, proposed), observations));
  }

  //// Issues

  datatype Issue =
    | PolicyIssue(name: string, text: string)
    | TransactionLimit(name: string)
    | StartsLater(name: string, kind: Kind)
    | VolumeLimit(name: string, kind: Kind)
    | ActionLimit(name: string, kind: Kind)
    | MissingWindow(name: string, kind: Kind)

  /** A limit dimension: the issues of its policy, its observation if there is one, and which windows exist. */
  datatype Dimension = Dimension(
    name: string, issues: seq<string>, observation: Option<LimitObservation>, exist: map<Kind, bool>)

  class IssueLog {
    var issues: seq<Issue>

    constructor ()
      ensures issues == []
    {
      issues := [];
    }

    method Add(issue: Issue)
      modifies this
      ensures issues == old(issues) + [issue]
    {
      issues := issues + [issue];
    }
  }

  function When(holds: bool, issue: Issue): seq<Issue> {
    if holds then [issue] else []
  }

  predicate Enforced(w: WindowObservation) {
    w.maximum != 0 || w.maximumActions != 0
  }

  function WindowIssues(d: Dimension, w: WindowObservation): seq<Issue> {
    (if w.regression then [StartsLater(d.name, w.kind)]
     else When(!w.allowed, VolumeLimit(d.name, w.kind)) + When(!w.actionAllowed, ActionLimit(d.name, w.kind)))
    + When(Enforced(w) && !(w.kind in d.exist && d.exist[w.kind]), MissingWindow(d.name, w.kind))
  }

  /** A window that starts later is reported as that alone; otherwise each exceeded maximum is; then a missing one. */
  lemma {:induction false} WindowIssuesExactly(d: Dimension, w: WindowObservation)
    ensures var issues := WindowIssues(d, w);
      && (StartsLater(d.name, w.kind) in issues <==> w.regression)
      && (VolumeLimit(d.name, w.kind) in issues <==> !w.regression && !w.allowed)
      && (ActionLimit(d.name, w.kind) in issues <==> !w.regression && !w.actionAllowed)
      && (MissingWindow(d.name, w.kind) in issues
          <==> (w.maximum != 0 || w.maximumActions != 0) && !(w.kind in d.exist && d.exist[w.kind]))
      && (forall issue :: issue in issues ==>
            issue == StartsLater(d.name, w.kind) || issue == VolumeLimit(d.name, w.kind)
            || issue == ActionLimit(d.name, w.kind) || issue == MissingWindow(d.name, w.kind))
      && (w.regression ==> issues[0] == StartsLater(d.name, w.kind))
      && (!w.regression && !w.allowed ==> issues[0] == VolumeLimit(d.name, w.kind))
      && (MissingWindow(d.name, w.kind) in issues ==> issues[|issues| - 1] == MissingWindow(d.name, w.kind))
  {
  }

  function WindowsIssues(d: Dimension, windows: seq<WindowObservation>): seq<Issue> {
    if windows == [] then []
    else WindowsIssues(d, windows[..|windows| - 1]) + WindowIssues(d, windows[|windows| - 1])
  }

  function PolicyIssues(name: string, texts: seq<string>): seq<Issue> {
    if texts == [] then []
    else PolicyIssues(name, texts[..|texts| - 1]) + [PolicyIssue(name, texts[|texts| - 1])]
  }

  function ObservationIssues(d: Dimension, observation: LimitObservation): seq<Issue> {
    When(!observation.perTransactionAllowed, TransactionLimit(d.name)) + WindowsIssues(d, observation.windows)
  }

  function DimensionIssues(d: Dimension): seq<Issue> {
    PolicyIssues(d.name, d.issues)
    + if d.observation.None? then [] else ObservationIssues(d, d.observation.value)
  }

  function LimitIssues(limits: seq<Dimension>): seq<Issue> {
    if limits == [] then []
    else LimitIssues(limits[..|limits| - 1]) + DimensionIssues(limits[|limits| - 1])
  }

  /** The issues of the first window come first. */
  lemma {:induction false} WindowsInOrder(d: Dimension, first: WindowObservation, rest: seq<WindowObservation>)
    ensures WindowsIssues(d, []) == []
    ensures WindowsIssues(d, [first] + rest) == WindowIssues(d, first) + WindowsIssues(d, rest)
    decreases |rest|
  {
    if rest == [] {
      WindowAppended(d, [], first);
      assert [first] + rest == [] + [first];
    } else {
      var init, last := SplitLast(rest);
      WindowsInOrder(d, first, init);
      Assoc([first], init, [last]);
      WindowAppended(d, [first] + init, last);
      WindowAppended(d, init, last);
      Assoc(WindowIssues(d, first), WindowsIssues(d, init), WindowIssues(d, last));
    }
  }

  lemma {:induction false} WindowAppended(d: Dimension, init: seq<WindowObservation>, last: WindowObservation)
    ensures WindowsIssues(d, init + [last]) == WindowsIssues(d, init) + WindowIssues(d, last)
  {
    assert (init + [last])[..|init|] == init;
  }

  lemma {:induction false} PolicyIssuesAre(name: string, texts: seq<string>)
    ensures |PolicyIssues(name, texts)| == |texts|
    ensures forall i :: 0 <= i < |texts| ==> PolicyIssues(name, texts)[i] == PolicyIssue(name, texts[i])
  {
    if texts != [] {
      PolicyIssuesAre(name, texts[..|texts| - 1]);
    }
  }

  /** A dimension's policy issues come first, each by its text, then an exceeded transaction limit, then its windows. */
  lemma {:induction false} DimensionIssuesExactly(d: Dimension)
    ensures var issues, n := DimensionIssues(d), |d.issues|;
      && n <= |issues| && (forall i :: 0 <= i < n ==> issues[i] == PolicyIssue(d.name, d.issues[i]))
      && match d.observation
         case None => |issues| == n
         case Some(o) =>
           if o.perTransactionAllowed then issues[n..] == WindowsIssues(d, o.windows)
           else issues[n..] == [TransactionLimit(d.name)] + WindowsIssues(d, o.windows)
  {
    PolicyIssuesAre(d.name, d.issues);
  }

  /** The issues of the first dimension come first. */
  lemma {:induction false} DimensionsInOrder(first: Dimension, rest: seq<Dimension>)
    ensures LimitIssues([]) == []
    ensures LimitIssues([first] + rest) == DimensionIssues(first) + LimitIssues(rest)
    decreases |rest|
  {
    if rest == [] {
      DimensionAppended([], first);
      assert [first] + rest == [] + [first];
    } else {
      var init, last := SplitLast(rest);
      DimensionsInOrder(first, init);
      Assoc([first], init, [last]);
      DimensionAppended([first] + init, last);
      DimensionAppended(init, last);
      Assoc(DimensionIssues(first), LimitIssues(init), DimensionIssues(last));
    }
  }

  lemma {:induction false} DimensionAppended(init: seq<Dimension>, last: Dimension)
    ensures LimitIssues(init + [last]) == LimitIssues(init) + DimensionIssues(last)
  {
    assert (init + [last])[..|init|] == init;
  }

  method ValidateWindow(d: Dimension, w: WindowObservation, log: IssueLog)
    modifies log
    ensures log.issues == old(log.issues) + WindowIssues(d, w)
  {
    if w.regression {
      log.Add(StartsLater(d.name, w.kind));
    } else {
      if !w.allowed {
        log.Add(VolumeLimit(d.name, w.kind));
      }
      if !w.actionAllowed {
        log.Add(ActionLimit(d.name, w.kind));
      }
    }
    var enforced := w.maximum != 0 || w.maximumActions != 0;
    if enforced && !(w.kind in d.exist && d.exist[w.kind]) {
      log.Add(MissingWindow(d.name, w.kind));
    }
  }

  method AddPolicyIssues(d: Dimension, log: IssueLog)
    modifies log
    ensures log.issues == old(log.issues) + PolicyIssues(d.name, d.issues)
  {
    ghost var before := log.issues;
    for i := 0 to |d.issues|
      invariant log.issues == before + PolicyIssues(d.name, d.issues[..i])
    {
      assert d.issues[..i + 1][..i] == d.issues[..i];
      log.Add(PolicyIssue(d.name, d.issues[i]));
    }
    assert d.issues[..|d.issues|] == d.issues;
  }

  method ValidateWindows(d: Dimension, windows: seq<WindowObservation>, log: IssueLog)
    modifies log
    ensures log.issues == old(log.issues) + WindowsIssues(d, windows)
  {
    ghost var before := log.issues;
    for i := 0 to |windows|
      invariant log.issues == before + WindowsIssues(d, windows[..i])
    {
      assert windows[..i + 1][..i] == windows[..i];
      Assoc(before, WindowsIssues(d, windows[..i]), WindowIssues(d, windows[i]));
      ValidateWindow(d, windows[i], log);
    }
    assert windows[..|windows|] == windows;
  }

  method ValidateObservation(d: Dimension, observation: LimitObservation, log: IssueLog)
    modifies log
    ensures log.issues == old(log.issues) + ObservationIssues(d, observation)
  {
    Assoc(log.issues, When(!observation.perTransactionAllowed, TransactionLimit(d.name)),
      WindowsIssues(d, observation.windows));
    if !observation.perTransactionAllowed {
      log.Add(TransactionLimit(d.name));
    }
    ValidateWindows(d, observation.windows, log);
  }

  method ValidateDimension(d: Dimension, log: IssueLog)
    modifies log
    ensures log.issues == old(log.issues) + DimensionIssues(d)
  {
    ghost var before := log.issues;
    AddPolicyIssues(d, log);
    if d.observation.Some? {
      ValidateObservation(d, d.observation.value, log);
      Assoc(before, PolicyIssues(d.name, d.issues), ObservationIssues(d, d.observation.value));
    }
  }

  method ValidateLimits(limits: seq<Dimension>, log: IssueLog)
    modifies log
    ensures log.issues == old(log.issues) + LimitIssues(limits)
  {
    ghost var before := log.issues;
    for i := 0 to |limits|
      invariant log.issues == before + LimitIssues(limits[..i])
    {
      assert limits[..i + 1][..i] == limits[..i];
      Assoc(before, LimitIssues(limits[..i]), DimensionIssues(limits[i]));
      ValidateDimension(limits[i], log);
    }
    assert limits[..|limits|] == limits;
  }
}
