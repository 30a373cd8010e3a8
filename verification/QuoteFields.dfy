/** Every field of a settlement quote, and every error, from the policy, the rates and the transfer fees. */
module QuoteFields {
  import opened Wrappers
  import opened TransferFees
  import opened Settlement

  //// The fee quote

  /** Whether a flag, given by its value as a power of two, is set. */
  predicate IsSet(flags: nat, value: nat)
    requires value > 0
  {
    flags % (2 * value) >= value
  }

  /** The whole number a product divided by 10,000 is rounded to: down, up, or to nearest with halves up. */
  predicate RoundedTo(rounded: nat, product: nat, mode: nat) {
    || (mode == 0 && 10_000 * rounded <= product < 10_000 * rounded + 10_000)
    || (mode == 1 && 10_000 * rounded - 10_000 < product <= 10_000 * rounded)
    || (mode == 2 && 10_000 * rounded - 5_000 <= product < 10_000 * rounded + 5_000)
  }

  /** A flat fee in the output's unit goes before a percentage. */
  predicate RawFeeIs(action: Action, p: FeePolicy, gross: nat, raw: nat) {
    var flat := match action case Mint => p.flatFeeInIssued case Redeem => p.flatFeeInAsset;
    if flat != 0 then raw == flat
    else if p.percentBps == 0 then raw == 0
    else RoundedTo(raw, gross * p.percentBps, p.roundingMode)
  }

  /** The least fee that is not below the minimum nor, up to the cap if there is one, below the raw fee. */
  predicate AssessedIs(p: FeePolicy, raw: nat, assessed: nat) {
    && p.minimumFee <= assessed
    && (raw <= assessed || (p.feeCap != 0 && p.feeCap <= assessed))
    && (assessed == p.minimumFee || (assessed <= raw && (p.feeCap == 0 || assessed <= p.feeCap)))
  }

  /** A flat rebate goes before a percentage of the assessed fee, rounded down; neither exceeds the rebate's cap. */
  ghost predicate RebateIs(p: FeePolicy, assessed: nat, rebate: nat) {
    exists raw: nat ::
      && (if p.flatRebate != 0 then raw == p.flatRebate
          else 10_000 * raw <= assessed * p.rebateBps < 10_000 * raw + 10_000)
      && rebate <= raw && (p.rebateCap != 0 ==> rebate <= p.rebateCap)
      && (rebate == raw || (p.rebateCap != 0 && rebate == p.rebateCap))
  }

  /** The amounts of a fee quote. */
  ghost predicate AmountsAre(action: Action, gross: nat, p: FeePolicy, q: FeeQuote) {
    && (exists raw: nat :: RawFeeIs(action, p, gross, raw) && AssessedIs(p, raw, q.assessed))
    && RebateIs(p, q.assessed, q.nominalRebate)
    && q.effectiveRebate ==
      (if p.netFeeFloorZero != 0 && q.assessed < q.nominalRebate then q.assessed else q.nominalRebate)
    && q.netFee == (if q.assessed < q.effectiveRebate then 0 else q.assessed - q.effectiveRebate)
    && q.netOutput == (if gross < q.netFee then 0 else gross - q.netFee)
  }

  /** Why each observation is made. */
  predicate Reason(action: Action, p: FeePolicy, q: FeeQuote, o: Observation) {
    match o
    case DenominationMismatch => q.denomination != (match action case Mint => InIssued case Redeem => InAsset)
    case PercentOnInput => IsSet(p.flags, 4)
    case NotEffective => !q.effective
    case RebateExceedsFee => p.netFeeFloorZero == 0 && q.assessed < q.nominalRebate
    case ZeroOutput => q.netOutput == 0
  }

  /** Those of a list of observations that have a reason, in the same order. */
  function Kept(action: Action, p: FeePolicy, q: FeeQuote, all: seq<Observation>): seq<Observation> {
    if all == [] then []
    else
      var last := all[|all| - 1];
      Kept(action, p, q, all[..|all| - 1]) + if Reason(action, p, q, last) then [last] else []
  }

  ghost predicate ObservationsAre(action: Action, p: FeePolicy, q: FeeQuote) {
    q.observations == Kept(action, p, q,
      [DenominationMismatch, PercentOnInput, NotEffective, RebateExceedsFee, ZeroOutput])
  }

  lemma {:induction false} KeptNext(action: Action, p: FeePolicy, q: FeeQuote, all: seq<Observation>, o: Observation)
    ensures Kept(action, p, q, all + [o]) == Kept(action, p, q, all) + Note(Reason(action, p, q, o), o)
  {
    assert (all + [o])[..|all|] == all;
  }

  lemma {:induction false} SecondBit(n: nat)
    ensures n / 2 % 2 == 1 <==> n % 4 >= 2
  {
  }

  lemma {:induction false} ThirdBit(n: nat)
    ensures n / 4 % 2 == 1 <==> n % 8 >= 4
  {
  }

  lemma {:induction false} FifthBit(n: nat)
    ensures n / 16 % 2 == 1 <==> n % 32 >= 16
  {
  }

  lemma {:induction false} FlagsAre(flags: nat)
    ensures HasFlag(flags, 1) == IsSet(flags, 1) && HasFlag(flags, 2) == IsSet(flags, 2)
    ensures HasFlag(flags, 4) == IsSet(flags, 4) && HasFlag(flags, 16) == IsSet(flags, 16)
  {
    SecondBit(flags);
    ThirdBit(flags);
    FifthBit(flags);
  }

  lemma {:induction false} RebateHolds(p: FeePolicy, assessed: nat)
    ensures RebateIs(p, assessed, NominalRebate(p, assessed))
  {
    var product := assessed * p.rebateBps;
    var raw := if p.flatRebate != 0 then p.flatRebate else product / 10_000;
    assert p.rebateBps == 0 ==> product == 0;
    assert 10_000 * (product / 10_000) <= product < 10_000 * (product / 10_000) + 10_000;
    var rebate := NominalRebate(p, assessed);
    assert rebate == if p.rebateCap != 0 then Min(raw, p.rebateCap) else raw;
  }

  lemma {:induction false} RawFeeHolds(action: Action, p: FeePolicy, gross: nat)
    requires RawFee(action, p, gross).Ok?
    ensures RawFeeIs(action, p, gross, RawFee(action, p, gross).value)
  {
  }

  lemma {:induction false} AmountsHold(
      action: Action, input: nat, gross: nat, p: FeePolicy, now: int, q: FeeQuote)
    requires ComputeFeeQuote(action, input, gross, Some(p), now) == Ok(q)
    ensures AmountsAre(action, gross, p, q)
  {
    var raw := RawFee(action, p, gross).value;
    RawFeeHolds(action, p, gross);
    assert AssessedIs(p, raw, q.assessed);
    RebateHolds(p, q.assessed);
  }

  lemma {:induction false} KeptFive(action: Action, p: FeePolicy, q: FeeQuote)
    ensures Kept(action, p, q, [DenominationMismatch, PercentOnInput, NotEffective, RebateExceedsFee, ZeroOutput])
      == Note(Reason(action, p, q, DenominationMismatch), DenominationMismatch)
       + Note(Reason(action, p, q, PercentOnInput), PercentOnInput)
       + Note(Reason(action, p, q, NotEffective), NotEffective)
       + Note(Reason(action, p, q, RebateExceedsFee), RebateExceedsFee)
       + Note(Reason(action, p, q, ZeroOutput), ZeroOutput)
  {
    var one: seq<Observation> := [DenominationMismatch];
    var two, three := one + [PercentOnInput], one + [PercentOnInput] + [NotEffective];
    var four := three + [RebateExceedsFee];
    KeptNext(action, p, q, [], DenominationMismatch);
    KeptNext(action, p, q, one, PercentOnInput);
    KeptNext(action, p, q, two, NotEffective);
    KeptNext(action, p, q, three, RebateExceedsFee);
    KeptNext(action, p, q, four, ZeroOutput);
    assert [] + one == one;
    assert four + [ZeroOutput]
      == [DenominationMismatch, PercentOnInput, NotEffective, RebateExceedsFee, ZeroOutput];
  }

  lemma {:induction false} ObservationsHold(
      action: Action, input: nat, gross: nat, p: FeePolicy, now: int, q: FeeQuote)
    requires ComputeFeeQuote(action, input, gross, Some(p), now) == Ok(q)
    ensures ObservationsAre(action, p, q)
  {
    FlagsAre(p.flags);
    KeptFive(action, p, q);
  }

  /** The whole fee quote under a policy; only an unsupported rounding mode that is needed prevents it. */
  lemma {:induction false} FeeQuoteFields(action: Action, input: nat, gross: nat, p: FeePolicy, now: int)
    ensures var r := ComputeFeeQuote(action, input, gross, Some(p), now);
      match r
      case Err(e) =>
        e == UnsupportedRounding(p.roundingMode) && p.roundingMode > 2 && p.percentBps != 0
        && (match action case Mint => p.flatFeeInIssued case Redeem => p.flatFeeInAsset) == 0
      case Ok(q) =>
        && q.grossInput == input && q.grossOutput == gross
        && q.denomination == (if IsSet(p.flags, 1) == IsSet(p.flags, 2) then InvalidDenomination
                              else if IsSet(p.flags, 1) then InAsset else InIssued)
        && AmountsAre(action, gross, p, q)
        && (q.routed <==> q.netFee > 0 && p.recipientPolicy != 0 && p.recipientPolicy != 4)
        && (q.effective <==>
              IsSet(p.flags, 16) && (p.effectiveFrom != 0 ==> p.effectiveFrom <= now)
              && (p.effectiveUntil != 0 ==> now < p.effectiveUntil))
        && ObservationsAre(action, p, q)
  {
    FlagsAre(p.flags);
    if ComputeFeeQuote(action, input, gross, Some(p), now).Ok? {
      var q := ComputeFeeQuote(action, input, gross, Some(p), now).value;
      AmountsHold(action, input, gross, p, now, q);
      ObservationsHold(action, input, gross, p, now, q);
    }
  }

  /** Without a policy there is no fee and nothing to object to. */
  lemma {:induction false} NoPolicy(action: Action, input: nat, gross: nat, now: int)
    ensures ComputeFeeQuote(action, input, gross, None, now) == Ok(FeeQuote(
      input, gross, match action case Mint => InIssued case Redeem => InAsset, 0, 0, 0, 0, gross, false, true, []))
  {
  }

  //// The whole quote

  /** A quotient rounded down, or none over zero. */
  ghost predicate Quotient(r: Option<int>, part: int, whole: nat) {
    match r
    case None => whole == 0
    case Some(n) => whole > 0 && n * whole <= part < n * whole + whole
  }

  /** What an amount is worth at a rate that counts a thousand millionths. */
  predicate AtRate(output: nat, input: nat, rate: nat) {
    1_000_000_000 * output <= input * rate < 1_000_000_000 * output + 1_000_000_000
  }

  /** The two sides of a quote: only the side in the asset's mint pays its transfer fee. */
  ghost predicate TransfersAre(
      action: Action, requested: nat, config: Option<TransferFeeConfig>, epoch: int, e: EffectiveQuote)
  {
    match action
    case Mint =>
      && CalculateTransfer(requested, config, epoch) == Ok(e.inputTransfer)
      && e.rateInput == e.inputTransfer.received
      && CalculateTransfer(e.feeQuote.netOutput, None, epoch) == Ok(e.principalTransfer)
      && (e.routedTransfer.Some? ==> CalculateTransfer(e.feeQuote.netFee, None, epoch) == Ok(e.routedTransfer.value))
    case Redeem =>
      && e.inputTransfer == Transfer(epoch, 0, 0, 0, 0, 0)
      && e.rateInput == requested
      && CalculateTransfer(e.feeQuote.netOutput, config, epoch) == Ok(e.principalTransfer)
      && (e.routedTransfer.Some? ==> CalculateTransfer(e.feeQuote.netFee, config, epoch) == Ok(e.routedTransfer.value))
  }

  /** The amounts reported beside the two transfers. */
  ghost predicate SummaryIs(requested: nat, rate: nat, e: EffectiveQuote) {
    && AtRate(e.configuredGross, requested, rate) && AtRate(e.grossOutput, e.rateInput, rate)
    && e.principalReceived == e.principalTransfer.received
    && (e.routedTransfer.Some? <==> e.feeQuote.routed)
    && e.feeRecipientReceived == (if e.routedTransfer.Some? then e.routedTransfer.value.received else 0)
    && e.allInReduction ==
      (if e.principalReceived < e.configuredGross then e.configuredGross - e.principalReceived else 0)
    && Quotient(e.feeBasisPoints, e.feeQuote.netFee * 10_000, e.grossOutput)
    && Quotient(e.allInBasisPoints, e.allInReduction * 10_000, e.configuredGross)
    && Quotient(e.effectiveRate, e.principalReceived * 1_000_000_000, requested)
  }

  lemma {:induction false} RatioIs(part: nat, factor: nat, whole: nat)
    ensures Quotient(Ratio(part, factor, whole), part * factor, whole)
  {
    if whole > 0 {
      var n := part * factor / whole;
      assert part * factor == whole * n + part * factor % whole;
    }
  }

  lemma {:induction false} TransfersHold(
      action: Action, requested: int, rates: AssetRates, config: Option<TransferFeeConfig>,
      policy: Option<FeePolicy>, now: int, epoch: int, e: EffectiveQuote)
    requires ComputeEffectiveQuote(action, requested, rates, config, policy, now, epoch) == Ok(e)
    ensures requested >= 0 && TransfersAre(action, requested, config, epoch, e)
    ensures ComputeFeeQuote(action, e.rateInput, e.grossOutput, policy, now) == Ok(e.feeQuote)
  {
    TransferSplits(if action.Mint? then requested else 0, if action.Mint? then config else None, epoch);
  }

  lemma {:induction false} AtRateIs(input: nat, rate: nat)
    ensures AtRate(GrossOutput(input, rate), input, rate)
  {
  }

  lemma {:induction false} SummaryHolds(
      requested: nat, rate: nat, rateInput: nat, q: FeeQuote, input: Transfer, principal: Transfer,
      routed: Option<Transfer>, action: Action)
    requires q.grossOutput == GrossOutput(rateInput, rate) && (q.routed <==> routed.Some?) && principal.received >= 0
    ensures SummaryIs(requested, rate, Summary(action, requested, rate, rateInput, q, input, principal, routed))
  {
    var e := Summary(action, requested, rate, rateInput, q, input, principal, routed);
    AtRateIs(requested, rate);
    AtRateIs(rateInput, rate);
    RatioIs(q.netFee, 10_000, q.grossOutput);
    RatioIs(e.allInReduction, 10_000, e.configuredGross);
    RatioIs(principal.received, 1_000_000_000, requested);
  }

  /** Every field of a quote that succeeds. */
  lemma {:induction false} QuoteIs(
      action: Action, requested: int, rates: AssetRates, config: Option<TransferFeeConfig>,
      policy: Option<FeePolicy>, now: int, epoch: int, e: EffectiveQuote)
    requires ComputeEffectiveQuote(action, requested, rates, config, policy, now, epoch) == Ok(e)
    ensures requested >= 0 && TransfersAre(action, requested, config, epoch, e)
    ensures ComputeFeeQuote(action, e.rateInput, e.grossOutput, policy, now) == Ok(e.feeQuote)
    ensures SummaryIs(requested, match action case Mint => rates.deposit case Redeem => rates.redeem, e)
  {
    TransferSplits(if action.Mint? then requested else 0, if action.Mint? then config else None, epoch);
    TransfersHold(action, requested, rates, config, policy, now, epoch, e);
    SummaryHolds(requested, Rate(action, rates), e.rateInput, e.feeQuote, e.inputTransfer, e.principalTransfer,
      e.routedTransfer, action);
  }

  /** The reasons for which there is no quote, in the order they are looked for. */
  lemma {:induction false} QuoteErrors(
      action: Action, requested: int, rates: AssetRates, config: Option<TransferFeeConfig>,
      policy: Option<FeePolicy>, now: int, epoch: int)
    ensures var r := ComputeEffectiveQuote(action, requested, rates, config, policy, now, epoch);
      && (r == Err(NegativeInput) <==> requested < 0)
      && (requested >= 0 && epoch < 0 ==> r == Err(TransferFailed(NegativeEpoch)))
      && (requested >= 0 && action.Mint? && !Payable(requested, config, epoch) && epoch >= 0 ==>
            r == Err(TransferFailed(FeeExceedsAmount)))
      && (r.Err? && r.error.TransferFailed? ==> r.error.error != NegativeAmount)
      && (r.Err? && r.error.UnsupportedRounding? ==> policy.Some? && r.error.mode == policy.value.roundingMode > 2)
  {
    if requested >= 0 {
      TransferErrors(if action.Mint? then requested else 0, if action.Mint? then config else None, epoch);
    }
  }
}
