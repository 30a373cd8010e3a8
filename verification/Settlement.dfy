/** The settlement quote: the configured rate, the protocol fee with its caps and rebates, and its output. */
module Settlement {
  import opened Wrappers
  import opened TransferFees

  datatype Action = Mint | Redeem

  datatype AssetRates = AssetRates(deposit: nat, redeem: nat)

  datatype FeePolicy = FeePolicy(
    flags: nat, effectiveFrom: int, effectiveUntil: int,
    flatFeeInIssued: nat, flatFeeInAsset: nat, percentBps: nat, roundingMode: nat,
    feeCap: nat, minimumFee: nat,
    flatRebate: nat, rebateBps: nat, rebateCap: nat, netFeeFloorZero: nat,
    recipientPolicy: nat)

  const FeeInAsset := 1
  const FeeInIssued := 2
  const FeePercentOnInput := 4
  const FeeActive := 16

  const RecipientNone := 0
  const RecipientReserveRetention := 4

  datatype Denomination = InvalidDenomination | InAsset | InIssued

  datatype Observation =
    | DenominationMismatch | PercentOnInput | NotEffective | RebateExceedsFee | ZeroOutput

  datatype FeeQuote = FeeQuote(
    grossInput: nat, grossOutput: nat, denomination: Denomination, assessed: nat,
    nominalRebate: nat, effectiveRebate: nat, netFee: nat, netOutput: nat,
    routed: bool, effective: bool, observations: seq<Observation>)

  datatype QuoteError = NegativeInput | TransferFailed(error: TransferError) | UnsupportedRounding(mode: nat)

  //// The rate

  function Rate(action: Action, rates: AssetRates): nat {
    if action.Mint? then rates.deposit else rates.redeem
  }

  function GrossOutput(input: nat, rate: nat): (gross: nat) {
    input * rate / 1_000_000_000
  }

  lemma {:induction false} GrossMonotone(a: nat, b: nat, rate: nat)
    requires a <= b
    ensures GrossOutput(a, rate) <= GrossOutput(b, rate)
  {
    ProductStep(a, b, rate, rate);
  }

  //// The fee

  function RoundedBasisPoints(amount: nat, basisPoints: nat, mode: nat): Result<nat, QuoteError> {
    var product := amount * basisPoints;
    var quotient, remainder := product / 10_000, product % 10_000;
    if mode == 0 then Ok(quotient)
    else if mode == 1 then Ok(quotient + if remainder != 0 then 1 else 0)
    else if mode == 2 then Ok(quotient + if remainder >= 5_000 then 1 else 0)
    else Err(UnsupportedRounding(mode))
  }

  /** Rounding down, up and to nearest with halves up, against the exact product. */
  lemma {:induction false} RoundingMeans(amount: nat, basisPoints: nat, mode: nat)
    requires RoundedBasisPoints(amount, basisPoints, mode).Ok?
    ensures var excess := 10_000 * RoundedBasisPoints(amount, basisPoints, mode).value - amount * basisPoints;
      && (mode == 0 ==> -10_000 < excess <= 0)
      && (mode == 1 ==> 0 <= excess < 10_000)
      && (mode == 2 ==> -5_000 < excess <= 5_000)
  {
  }

  /** The percentage never falls, and at up to 10,000 basis points it grows no faster than its base. */
  lemma {:induction false} RoundedSteps(a: nat, b: nat, basisPoints: nat, mode: nat)
    requires a <= b && RoundedBasisPoints(a, basisPoints, mode).Ok?
    ensures RoundedBasisPoints(b, basisPoints, mode).Ok?
    ensures var r, s := RoundedBasisPoints(a, basisPoints, mode).value, RoundedBasisPoints(b, basisPoints, mode).value;
      r <= s && (basisPoints <= 10_000 ==> s <= r + (b - a))
  {
    ProductStep(a, b, basisPoints, basisPoints);
    if basisPoints <= 10_000 {
      ProductStep(a, b, basisPoints, 10_000);
    }
  }

  function FlatFee(action: Action, policy: FeePolicy): nat {
    if action.Mint? then policy.flatFeeInIssued else policy.flatFeeInAsset
  }

  function RawFee(action: Action, policy: FeePolicy, gross: nat): Result<nat, QuoteError> {
    if FlatFee(action, policy) != 0 then Ok(FlatFee(action, policy))
    else if policy.percentBps != 0 then RoundedBasisPoints(gross, policy.percentBps, policy.roundingMode)
    else Ok(0)
  }

  function Assessed(policy: FeePolicy, raw: nat): nat {
    Max(if policy.feeCap != 0 then Min(raw, policy.feeCap) else raw, policy.minimumFee)
  }

  function NominalRebate(policy: FeePolicy, assessed: nat): nat {
    var raw: nat :=
      if policy.flatRebate != 0 then policy.flatRebate
      else if policy.rebateBps != 0 then assessed * policy.rebateBps / 10_000
      else 0;
    if policy.rebateCap != 0 then Min(raw, policy.rebateCap) else raw
  }

  function EffectiveRebate(policy: FeePolicy, assessed: nat): nat {
    if policy.netFeeFloorZero != 0 then Min(NominalRebate(policy, assessed), assessed)
    else NominalRebate(policy, assessed)
  }

  function NetFee(policy: FeePolicy, assessed: nat): nat {
    Max(0, assessed - EffectiveRebate(policy, assessed))
  }

  predicate HasFlag(flags: nat, flag: nat)
    requires flag > 0
  {
    flags / flag % 2 == 1
  }

  function DenominationOf(policy: FeePolicy): Denomination {
    var inAsset, inIssued := HasFlag(policy.flags, FeeInAsset), HasFlag(policy.flags, FeeInIssued);
    if inAsset == inIssued then InvalidDenomination else if inAsset then InAsset else InIssued
  }

  function Expected(action: Action): Denomination {
    if action.Mint? then InIssued else InAsset
  }

  predicate Effective(policy: FeePolicy, now: int) {
    && HasFlag(policy.flags, FeeActive)
    && (policy.effectiveFrom == 0 || now >= policy.effectiveFrom)
    && (policy.effectiveUntil == 0 || now < policy.effectiveUntil)
  }

  function Note(holds: bool, observation: Observation): seq<Observation> {
    if holds then [observation] else []
  }

  function ComputeFeeQuote(
      action: Action, grossInput: nat, gross: nat, policy: Option<FeePolicy>, now: int): Result<FeeQuote, QuoteError>
  {
    if policy.None? then
      Ok(FeeQuote(grossInput, gross, Expected(action), 0, 0, 0, 0, gross, false, true, []))
    else
      var p := policy.value;
      match RawFee(action, p, gross)
      case Err(e) => Err(e)
      case Ok(raw) =>
        var assessed := Assessed(p, raw);
        var nominal := NominalRebate(p, assessed);
        var netFee := NetFee(p, assessed);
        var netOutput: nat := Max(0, gross - netFee);
        Ok(FeeQuote(
          grossInput, gross, DenominationOf(p), assessed, nominal, EffectiveRebate(p, assessed), netFee, netOutput,
          netFee > 0 && p.recipientPolicy != RecipientNone && p.recipientPolicy != RecipientReserveRetention,
          Effective(p, now),
          Note(DenominationOf(p) != Expected(action), DenominationMismatch)
          + Note(HasFlag(p.flags, FeePercentOnInput), PercentOnInput)
          + Note(!Effective(p, now), NotEffective)
          + Note(p.netFeeFloorZero == 0 && nominal > assessed, RebateExceedsFee)
          + Note(netOutput == 0, ZeroOutput)))
  }

  //// Conservation

  /** Zero-flooring changes what is reported as the rebate, never the net fee. */
  lemma {:induction false} FloorIrrelevant(policy: FeePolicy, flag: nat, assessed: nat)
    ensures NetFee(policy.(netFeeFloorZero := flag), assessed) == NetFee(policy, assessed)
  {
    assert NominalRebate(policy.(netFeeFloorZero := flag), assessed) == NominalRebate(policy, assessed);
  }

  /** The gross output splits into net output and net fee unless the fee exceeds it. */
  lemma {:induction false} GrossConserved(action: Action, input: nat, gross: nat, policy: Option<FeePolicy>, now: int)
    requires ComputeFeeQuote(action, input, gross, policy, now).Ok?
    ensures var q := ComputeFeeQuote(action, input, gross, policy, now).value;
      && (q.netOutput + q.netFee == gross <==> q.netFee <= gross)
      && (ZeroOutput !in q.observations ==> q.netOutput + q.netFee == gross)
      && q.netOutput <= gross
  {
  }

  /** The assessed fee splits into net fee and rebate exactly when the rebate is not reported as too large. */
  lemma {:induction false} FeeConserved(action: Action, input: nat, gross: nat, policy: Option<FeePolicy>, now: int)
    requires ComputeFeeQuote(action, input, gross, policy, now).Ok?
    ensures var q := ComputeFeeQuote(action, input, gross, policy, now).value;
      q.netFee + q.effectiveRebate == q.assessed <==> RebateExceedsFee !in q.observations
  {
  }

  //// Monotone net output

  /** A rebate never falls as the assessed fee grows. */
  lemma {:induction false} RebateMonotone(policy: FeePolicy, a: nat, b: nat)
    requires a <= b
    ensures NominalRebate(policy, a) <= NominalRebate(policy, b)
  {
    ProductStep(a, b, policy.rebateBps, policy.rebateBps);
  }

  /** The net fee grows no faster than the assessed fee. */
  lemma {:induction false} NetFeeSteps(policy: FeePolicy, a: nat, b: nat)
    requires a <= b
    ensures NetFee(policy, b) <= NetFee(policy, a) + (b - a)
  {
    RebateMonotone(policy, a, b);
  }

  /** The part of a policy that can make the fee outgrow its base is the percentage. */
  predicate Bounded(action: Action, policy: Option<FeePolicy>) {
    policy.None? || FlatFee(action, policy.value) != 0 || policy.value.percentBps <= 10_000
  }

  lemma {:induction false} RawSteps(action: Action, policy: FeePolicy, a: nat, b: nat)
    requires a <= b && RawFee(action, policy, a).Ok?
    ensures RawFee(action, policy, b).Ok? && RawFee(action, policy, a).value <= RawFee(action, policy, b).value
    ensures Bounded(action, Some(policy)) ==>
      RawFee(action, policy, b).value <= RawFee(action, policy, a).value + (b - a)
  {
    if FlatFee(action, policy) == 0 && policy.percentBps != 0 {
      RoundedSteps(a, b, policy.percentBps, policy.roundingMode);
    }
  }

  lemma {:induction false} NetOutputMonotone(
      action: Action, input: nat, more: nat, a: nat, b: nat, policy: Option<FeePolicy>, now: int)
    requires a <= b && ComputeFeeQuote(action, input, a, policy, now).Ok?
    ensures ComputeFeeQuote(action, more, b, policy, now).Ok?
    ensures var q, r := ComputeFeeQuote(action, input, a, policy, now), ComputeFeeQuote(action, more, b, policy, now);
      Bounded(action, policy) ==> q.value.netOutput <= r.value.netOutput
  {
    if policy.Some? {
      var p := policy.value;
      RawSteps(action, p, a, b);
      NetFeeSteps(p, Assessed(p, RawFee(action, p, a).value), Assessed(p, RawFee(action, p, b).value));
    }
  }

  //// Why 10,000 basis points is the exact bound

  /** A quote that gives no reason to refuse the settlement. */
  predicate Clean(q: Result<FeeQuote, QuoteError>) {
    q.Ok? && q.value.observations == []
  }

  /** An active policy in the output's denomination: this percentage, rounded down, and a flat rebate. */
  function RebatedPercent(action: Action, percent: nat, rebate: nat): FeePolicy {
    FeePolicy(if action.Mint? then 18 else 17, 0, 0, 0, 0, percent, 0, 0, 0, rebate, 0, 0, 1, 0)
  }

  lemma {:induction false} RebatedQuote(
      action: Action, percent: nat, rebate: nat, input: nat, gross: nat, raw: nat, now: int)
    requires percent > 0 && rebate > 0 && raw == gross * percent / 10_000 && rebate <= raw < rebate + gross
    ensures var q := ComputeFeeQuote(action, input, gross, Some(RebatedPercent(action, percent, rebate)), now);
      Clean(q) && q.value.netFee == raw - rebate && q.value.netOutput == gross - (raw - rebate)
      && !q.value.routed
  {
    var p := RebatedPercent(action, percent, rebate);
    assert RawFee(action, p, gross) == Ok(raw);
    assert Assessed(p, raw) == raw && NominalRebate(p, raw) == rebate;
    assert DenominationOf(p) == Expected(action) && Effective(p, now) && !HasFlag(p.flags, FeePercentOnInput);
  }

  /** The smaller and the larger gross output at which such a policy pays less for more. */
  function LessGross(percent: nat): nat {
    10_000 * percent
  }

  function MoreGross(percent: nat): nat {
    10_000 * percent + 10_000
  }

  function PayingLess(action: Action, percent: nat): FeePolicy {
    RebatedPercent(action, percent, percent * percent)
  }

  lemma {:induction false} ExactPercentages(percent: nat)
    ensures LessGross(percent) * percent / 10_000 == percent * percent
    ensures MoreGross(percent) * percent / 10_000 == percent * percent + percent
  {
    var square := percent * percent;
    assert LessGross(percent) * percent == 10_000 * square;
    assert MoreGross(percent) * percent == 10_000 * (square + percent);
  }

  /** Above 10,000 basis points some policy, with nothing to object to, pays out less for more. */
  lemma {:induction false} PaysLessForMore(action: Action, percent: nat, input: nat, more: nat, now: int)
    requires percent > 10_000
    ensures var policy := PayingLess(action, percent);
      && policy.percentBps == percent && FlatFee(action, policy) == 0 && LessGross(percent) < MoreGross(percent)
    ensures var q := ComputeFeeQuote(action, input, LessGross(percent), Some(PayingLess(action, percent)), now);
      var r := ComputeFeeQuote(action, more, MoreGross(percent), Some(PayingLess(action, percent)), now);
      && Clean(q) && Clean(r) && !q.value.routed && !r.value.routed && q.value.netOutput > r.value.netOutput
  {
    var square := percent * percent;
    assert square > 0 by { ProductStep(1, percent, 1, percent); }
    ExactPercentages(percent);
    RebatedQuote(action, percent, square, input, LessGross(percent), square, now);
    RebatedQuote(action, percent, square, more, MoreGross(percent), square + percent, now);
  }

  /** Among quotes with nothing to object to, more gross output never pays less. */
  ghost predicate OutputMonotone(action: Action, policy: FeePolicy, now: int) {
    forall a: nat, b: nat ::
      (a <= b && Clean(ComputeFeeQuote(action, a, a, Some(policy), now))
       && Clean(ComputeFeeQuote(action, b, b, Some(policy), now))) ==>
        ComputeFeeQuote(action, a, a, Some(policy), now).value.netOutput
          <= ComputeFeeQuote(action, b, b, Some(policy), now).value.netOutput
  }

  /** With a percentage and no flat fee, net output is monotone for every policy up to exactly 10,000. */
  lemma {:induction false} PercentBoundExact(action: Action, percent: nat, now: int)
    ensures (forall policy: FeePolicy :: policy.percentBps == percent && FlatFee(action, policy) == 0 ==>
               OutputMonotone(action, policy, now))
      <==> percent <= 10_000
  {
    if percent <= 10_000 {
      forall policy: FeePolicy, a: nat, b: nat |
        policy.percentBps == percent && a <= b && Clean(ComputeFeeQuote(action, a, a, Some(policy), now))
        ensures ComputeFeeQuote(action, b, b, Some(policy), now).Ok?
        ensures ComputeFeeQuote(action, a, a, Some(policy), now).value.netOutput
          <= ComputeFeeQuote(action, b, b, Some(policy), now).value.netOutput
      {
        NetOutputMonotone(action, a, b, a, b, Some(policy), now);
      }
    } else {
      PaysLessForMore(action, percent, LessGross(percent), MoreGross(percent), now);
      assert !OutputMonotone(action, PayingLess(action, percent), now);
    }
  }

  //// The whole quote

  datatype EffectiveQuote = EffectiveQuote(
    configuredGross: nat, rateInput: nat, grossOutput: nat, feeQuote: FeeQuote,
    inputTransfer: Transfer, principalTransfer: Transfer, routedTransfer: Option<Transfer>,
    feeBasisPoints: Option<int>, principalReceived: int, feeRecipientReceived: int,
    allInReduction: int, allInBasisPoints: Option<int>, effectiveRate: Option<int>)

  function Ratio(part: int, factor: nat, whole: nat): Option<int> {
    if whole == 0 then None else Some(part * factor / whole)
  }

  /** A transfer in the asset's mint or, for issued tokens, one without a fee. */
  function TransferWhen(inAsset: bool, amount: int, config: Option<TransferFeeConfig>, epoch: int)
    : Result<Transfer, QuoteError>
  {
    match CalculateTransfer(amount, if inAsset then config else None, epoch)
    case Err(e) => Err(TransferFailed(e))
    case Ok(t) => Ok(t)
  }

  function InputTransfer(action: Action, requested: int, config: Option<TransferFeeConfig>, epoch: int)
    : Result<Transfer, QuoteError>
  {
    if action.Mint? then TransferWhen(true, requested, config, epoch) else TransferWhen(false, 0, None, epoch)
  }

  function Summary(action: Action, requested: nat, rate: nat, rateInput: nat, q: FeeQuote, input: Transfer,
      principal: Transfer, routed: Option<Transfer>): EffectiveQuote
  {
    var configured := GrossOutput(requested, rate);
    var reduction := Max(configured - principal.received, 0);
    EffectiveQuote(
      configured, rateInput, q.grossOutput, q, input, principal, routed,
      Ratio(q.netFee, 10_000, q.grossOutput), principal.received,
      if routed.None? then 0 else routed.value.received,
      reduction, Ratio(reduction, 10_000, configured), Ratio(principal.received, 1_000_000_000, requested))
  }

  function ComputeEffectiveQuote(action: Action, requested: int, rates: AssetRates, config: Option<TransferFeeConfig>,
      policy: Option<FeePolicy>, now: int, epoch: int): Result<EffectiveQuote, QuoteError>
  {
    if requested < 0 then Err(NegativeInput)
    else
      match InputTransfer(action, requested, config, epoch)
      case Err(e) => Err(e)
      case Ok(input) =>
        TransferSplits(if action.Mint? then requested else 0, if action.Mint? then config else None, epoch);
        var rateInput: nat := if action.Mint? then input.received else requested;
        match ComputeFeeQuote(action, rateInput, GrossOutput(rateInput, Rate(action, rates)), policy, now)
        case Err(e) => Err(e)
        case Ok(q) =>
          match TransferWhen(action.Redeem?, q.netOutput, config, epoch)
          case Err(e) => Err(e)
          case Ok(principal) =>
            if !q.routed then Ok(Summary(action, requested, Rate(action, rates), rateInput, q, input, principal, None))
            else
              match TransferWhen(action.Redeem?, q.netFee, config, epoch)
              case Err(e) => Err(e)
              case Ok(routed) =>
                Ok(Summary(action, requested, Rate(action, rates), rateInput, q, input, principal, Some(routed)))
  }
}
