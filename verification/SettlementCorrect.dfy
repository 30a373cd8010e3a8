/**
 Properties of the whole settlement quote: monotonicity, conservation and bounds.
 A quote passes an input through the input fee, the configured rate, the protocol fee and the
 output fee; each stage is monotone and never gains, and so is the chain. The bound on the
 percentage is shown exact by two quotes without observations.
 */
module SettlementCorrect {
  import opened Wrappers
  import opened Bytes
  import opened TransferFees
  import opened Settlement
  import TokenExtensions

  /** A policy whose rounding is supported, or not used. */
  predicate Rounds(action: Action, policy: Option<FeePolicy>) {
    policy.None? || FlatFee(action, policy.value) != 0 || policy.value.percentBps == 0 || policy.value.roundingMode <= 2
  }

  /** What enters the rate never falls as the input grows. */
  lemma {:induction false} RateInputSteps(action: Action, a: nat, b: nat, config: Option<TransferFeeConfig>, epoch: int)
    requires a <= b && InputTransfer(action, a, config, epoch).Ok? && InputTransfer(action, b, config, epoch).Ok?
    ensures var s, t := InputTransfer(action, a, config, epoch).value, InputTransfer(action, b, config, epoch).value;
      action.Mint? ==> 0 <= s.received <= t.received && s.received <= a
  {
    if action.Mint? {
      TransferSteps(a, b, config, epoch);
    }
  }

  /** The amounts a quote transfers cover the transfer fee: the input of a mint, the outputs of a redemption. */
  predicate TransfersPayable(action: Action, requested: nat, rates: AssetRates, config: Option<TransferFeeConfig>,
      policy: Option<FeePolicy>, now: int, epoch: int)
    requires Rounds(action, policy)
  {
    match action
    case Mint => Payable(requested, config, epoch)
    case Redeem =>
      var q := ComputeFeeQuote(action, requested, GrossOutput(requested, Rate(action, rates)), policy, now).value;
      Payable(q.netOutput, config, epoch) && (q.routed ==> Payable(q.netFee, config, epoch))
  }

  /** A fee quote exists exactly if its rounding does. */
  lemma {:induction false} FeeQuoteExactly(action: Action, input: nat, gross: nat, policy: Option<FeePolicy>, now: int)
    ensures ComputeFeeQuote(action, input, gross, policy, now).Ok? <==> Rounds(action, policy)
  {
  }

  /** Exactly the inputs for which a quote is computed. */
  lemma {:induction false} QuoteSucceedsExactly(
      action: Action, requested: int, rates: AssetRates, config: Option<TransferFeeConfig>,
      policy: Option<FeePolicy>, now: int, epoch: int)
    ensures ComputeEffectiveQuote(action, requested, rates, config, policy, now, epoch).Ok?
      <==> (requested >= 0 && epoch >= 0 && Rounds(action, policy)
            && TransfersPayable(action, requested, rates, config, policy, now, epoch))
  {
    if requested >= 0 && InputTransfer(action, requested, config, epoch).Ok? {
      var input := InputTransfer(action, requested, config, epoch).value;
      TransferSplits(
        if action.Mint? then requested else 0, if action.Mint? then config else None, epoch);
      var rateInput: nat := if action.Mint? then input.received else requested;
      var gross := GrossOutput(rateInput, Rate(action, rates));
      FeeQuoteExactly(action, rateInput, gross, policy, now);
      var q := ComputeFeeQuote(action, rateInput, gross, policy, now);
      if q.Ok? {
        SucceedsExactly(q.value.netOutput, if action.Redeem? then config else None, epoch);
        SucceedsExactly(q.value.netFee, if action.Redeem? then config else None, epoch);
      }
    }
    if requested >= 0 {
      SucceedsExactly(if action.Mint? then requested else 0, if action.Mint? then config else None, epoch);
    }
  }

  /** With transfer fees that cannot exceed their amounts, success does not depend on the amount. */
  lemma {:induction false} SafeQuoteSucceeds(
      action: Action, requested: int, rates: AssetRates, config: Option<TransferFeeConfig>,
      policy: Option<FeePolicy>, now: int, epoch: int)
    requires Safe(config, epoch)
    ensures ComputeEffectiveQuote(action, requested, rates, config, policy, now, epoch).Ok?
      <==> requested >= 0 && epoch >= 0 && Rounds(action, policy)
  {
    QuoteSucceedsExactly(action, requested, rates, config, policy, now, epoch);
  }

  /** How the reported ratios come about. */
  predicate RatiosOf(e: EffectiveQuote, requested: nat) {
    && e.allInReduction == Max(e.configuredGross - e.principalReceived, 0)
    && e.feeBasisPoints == Ratio(e.feeQuote.netFee, 10_000, e.grossOutput)
    && e.allInBasisPoints == Ratio(e.allInReduction, 10_000, e.configuredGross)
    && e.effectiveRate == Ratio(e.principalReceived, 1_000_000_000, requested)
  }

  /** The parts of a successful quote. */
  lemma {:induction false} QuoteParts(
      action: Action, requested: int, rates: AssetRates, config: Option<TransferFeeConfig>,
      policy: Option<FeePolicy>, now: int, epoch: int)
    requires ComputeEffectiveQuote(action, requested, rates, config, policy, now, epoch).Ok?
    ensures requested >= 0 && InputTransfer(action, requested, config, epoch).Ok?
    ensures var e := ComputeEffectiveQuote(action, requested, rates, config, policy, now, epoch).value;
      && e.inputTransfer == InputTransfer(action, requested, config, epoch).value
      && e.rateInput == (if action.Mint? then e.inputTransfer.received else requested)
      && e.rateInput >= 0 && e.grossOutput == GrossOutput(e.rateInput, Rate(action, rates))
      && Ok(e.feeQuote) == ComputeFeeQuote(action, e.rateInput, e.grossOutput, policy, now)
      && Ok(e.principalTransfer) == TransferWhen(action.Redeem?, e.feeQuote.netOutput, config, epoch)
      && e.principalReceived == e.principalTransfer.received
      && e.configuredGross == GrossOutput(requested, Rate(action, rates))
    ensures RatiosOf(ComputeEffectiveQuote(action, requested, rates, config, policy, now, epoch).value, requested)
  {
    TransferSplits(if action.Mint? then requested else 0, if action.Mint? then config else None, epoch);
  }

  /**
   For fixed rates, transfer fees and policy, the principal never receives less for a larger input:
   through input transfer fee, rate, rounding, cap, minimum, rebate and output transfer fee.
   */
  lemma {:induction false} ReceiptMonotone(
      action: Action, a: int, b: int, rates: AssetRates, config: Option<TransferFeeConfig>,
      policy: Option<FeePolicy>, now: int, epoch: int)
    requires a <= b && Bounded(action, policy)
    requires ComputeEffectiveQuote(action, a, rates, config, policy, now, epoch).Ok?
    requires ComputeEffectiveQuote(action, b, rates, config, policy, now, epoch).Ok?
    ensures ComputeEffectiveQuote(action, a, rates, config, policy, now, epoch).value.principalReceived
      <= ComputeEffectiveQuote(action, b, rates, config, policy, now, epoch).value.principalReceived
  {
    QuoteParts(action, a, rates, config, policy, now, epoch);
    QuoteParts(action, b, rates, config, policy, now, epoch);
    var x := ComputeEffectiveQuote(action, a, rates, config, policy, now, epoch).value;
    var y := ComputeEffectiveQuote(action, b, rates, config, policy, now, epoch).value;
    RateInputSteps(action, a, b, config, epoch);
    GrossMonotone(x.rateInput, y.rateInput, Rate(action, rates));
    NetOutputMonotone(action, x.rateInput, y.rateInput, x.grossOutput, y.grossOutput, policy, now);
    TransferSteps(
      x.feeQuote.netOutput, y.feeQuote.netOutput, if action.Redeem? then config else None, epoch);
  }

  /** For a mint whose extensions were accepted, a larger input also never fails where a smaller succeeds. */
  lemma {:induction false} AcceptedMintMonotone(
      data: seq<byte>, action: Action, a: int, b: int, rates: AssetRates, policy: Option<FeePolicy>,
      now: int, epoch: int)
    requires TokenExtensions.Decoded(data).Ok? && a <= b && Bounded(action, policy)
    requires var config := TokenExtensions.Decoded(data).value.findings.feeConfig;
      ComputeEffectiveQuote(action, a, rates, config, policy, now, epoch).Ok?
    ensures var config := TokenExtensions.Decoded(data).value.findings.feeConfig;
      var x := ComputeEffectiveQuote(action, a, rates, config, policy, now, epoch);
      var y := ComputeEffectiveQuote(action, b, rates, config, policy, now, epoch);
      y.Ok? && x.value.principalReceived <= y.value.principalReceived
  {
    var config := TokenExtensions.Decoded(data).value.findings.feeConfig;
    if |data| != TokenExtensions.MintSize {
      TokenExtensions.AcceptedFeesSafe(data[TokenExtensions.TlvOffset..], epoch);
    }
    SafeQuoteSucceeds(action, a, rates, config, policy, now, epoch);
    SafeQuoteSucceeds(action, b, rates, config, policy, now, epoch);
    ReceiptMonotone(action, a, b, rates, config, policy, now, epoch);
  }

  //// The bound on the percentage is exact for what the principal receives

  predicate CleanQuote(e: Result<EffectiveQuote, QuoteError>) {
    e.Ok? && e.value.feeQuote.observations == []
  }

  /** Among quotes with nothing to object to, a larger input never receives less. */
  ghost predicate ReceiptsMonotone(action: Action, policy: FeePolicy) {
    forall a: nat, b: nat, rates: AssetRates, config: Option<TransferFeeConfig>, now: int, epoch: int ::
      (a <= b && CleanQuote(ComputeEffectiveQuote(action, a, rates, config, Some(policy), now, epoch))
       && CleanQuote(ComputeEffectiveQuote(action, b, rates, config, Some(policy), now, epoch))) ==>
        ComputeEffectiveQuote(action, a, rates, config, Some(policy), now, epoch).value.principalReceived
          <= ComputeEffectiveQuote(action, b, rates, config, Some(policy), now, epoch).value.principalReceived
  }

  /** At a rate of one and without transfer fees, the principal receives the net output. */
  lemma {:induction false} PlainReceipt(action: Action, requested: nat, policy: FeePolicy, now: int)
    requires Clean(ComputeFeeQuote(action, requested, requested, Some(policy), now))
    requires !ComputeFeeQuote(action, requested, requested, Some(policy), now).value.routed
    ensures var e := ComputeEffectiveQuote(
        action, requested, AssetRates(1_000_000_000, 1_000_000_000), None, Some(policy), now, 0);
      CleanQuote(e)
      && e.value.principalReceived == ComputeFeeQuote(action, requested, requested, Some(policy), now).value.netOutput
  {
    assert GrossOutput(requested, 1_000_000_000) == requested;
  }

  lemma {:induction false} ReceiptFalls(action: Action, percent: nat)
    requires percent > 10_000
    ensures !ReceiptsMonotone(action, PayingLess(action, percent))
  {
    var policy, a, b := PayingLess(action, percent), LessGross(percent), MoreGross(percent);
    PaysLessForMore(action, percent, a, b, 0);
    PlainReceipt(action, a, policy, 0);
    PlainReceipt(action, b, policy, 0);
    var rates := AssetRates(1_000_000_000, 1_000_000_000);
    assert ComputeEffectiveQuote(action, a, rates, None, Some(policy), 0, 0).value.principalReceived
      > ComputeEffectiveQuote(action, b, rates, None, Some(policy), 0, 0).value.principalReceived;
  }

  /** With a percentage and no flat fee, receipts are monotone for every policy up to exactly 10,000. */
  lemma {:induction false} ReceiptBoundExact(action: Action, percent: nat)
    ensures (forall policy: FeePolicy :: policy.percentBps == percent && FlatFee(action, policy) == 0 ==>
               ReceiptsMonotone(action, policy))
      <==> percent <= 10_000
  {
    if percent <= 10_000 {
      forall policy: FeePolicy | policy.percentBps == percent && FlatFee(action, policy) == 0
        ensures ReceiptsMonotone(action, policy)
      {
        BoundedReceipts(action, policy);
      }
    } else {
      ReceiptFalls(action, percent);
      assert PayingLess(action, percent).percentBps == percent && FlatFee(action, PayingLess(action, percent)) == 0;
    }
  }

  lemma {:induction false} BoundedReceipts(action: Action, policy: FeePolicy)
    requires Bounded(action, Some(policy))
    ensures ReceiptsMonotone(action, policy)
  {
    forall a: nat, b: nat, rates: AssetRates, config: Option<TransferFeeConfig>, now: int, epoch: int |
      a <= b && CleanQuote(ComputeEffectiveQuote(action, a, rates, config, Some(policy), now, epoch))
      && CleanQuote(ComputeEffectiveQuote(action, b, rates, config, Some(policy), now, epoch))
      ensures ComputeEffectiveQuote(action, a, rates, config, Some(policy), now, epoch).value.principalReceived
        <= ComputeEffectiveQuote(action, b, rates, config, Some(policy), now, epoch).value.principalReceived
    {
      ReceiptMonotone(action, a, b, rates, config, Some(policy), now, epoch);
    }
  }

  //// Bounds

  lemma {:induction false} StrictMonotone(a: int, b: int, m: int)
    requires a < b && m > 0
    ensures a * m < b * m
  {
    assert (b - a) * m > 0;
  }

  /** A scaled quotient stays below a bound that its numerator respects. */
  lemma {:induction false} RatioBound(part: nat, factor: nat, whole: nat, bound: nat)
    requires part * factor <= bound * whole
    ensures var r := Ratio(part, factor, whole); r.Some? ==> 0 <= r.value <= bound
  {
    if whole > 0 && part * factor / whole > bound {
      StrictMonotone(bound, part * factor / whole, whole);
    }
  }

  /** The principal receives at most what the configured rate promises for the requested input. */
  lemma {:induction false} ReceiptBounded(
      action: Action, requested: int, rates: AssetRates, config: Option<TransferFeeConfig>,
      policy: Option<FeePolicy>, now: int, epoch: int)
    requires ComputeEffectiveQuote(action, requested, rates, config, policy, now, epoch).Ok?
    ensures var e := ComputeEffectiveQuote(action, requested, rates, config, policy, now, epoch).value;
      0 <= e.principalReceived <= e.feeQuote.netOutput <= e.grossOutput <= e.configuredGross
  {
    QuoteParts(action, requested, rates, config, policy, now, epoch);
    var e := ComputeEffectiveQuote(action, requested, rates, config, policy, now, epoch).value;
    if action.Mint? {
      TransferSplits(requested, config, epoch);
    }
    GrossMonotone(e.rateInput, requested, Rate(action, rates));
    GrossConserved(action, e.rateInput, e.grossOutput, policy, now);
    TransferSplits(e.feeQuote.netOutput, if action.Redeem? then config else None, epoch);
  }

  /** The reduction is never clipped, and no reported ratio leaves its range. */
  lemma {:induction false} RatiosBounded(
      action: Action, requested: int, rates: AssetRates, config: Option<TransferFeeConfig>,
      policy: Option<FeePolicy>, now: int, epoch: int)
    requires ComputeEffectiveQuote(action, requested, rates, config, policy, now, epoch).Ok?
    ensures var e := ComputeEffectiveQuote(action, requested, rates, config, policy, now, epoch).value;
      && e.allInReduction == e.configuredGross - e.principalReceived
      && (e.allInBasisPoints.Some? ==> 0 <= e.allInBasisPoints.value <= 10_000)
      && (e.effectiveRate.Some? ==> 0 <= e.effectiveRate.value <= Rate(action, rates))
      && (e.feeBasisPoints.Some? && ZeroOutput !in e.feeQuote.observations ==> 0 <= e.feeBasisPoints.value <= 10_000)
  {
    QuoteParts(action, requested, rates, config, policy, now, epoch);
    ReceiptBounded(action, requested, rates, config, policy, now, epoch);
    var e := ComputeEffectiveQuote(action, requested, rates, config, policy, now, epoch).value;
    GrossConserved(action, e.rateInput, e.grossOutput, policy, now);
    RatiosInRange(e, requested, Rate(action, rates));
  }

  lemma {:induction false} RatiosInRange(e: EffectiveQuote, requested: nat, rate: nat)
    requires RatiosOf(e, requested) && 0 <= e.principalReceived <= e.configuredGross == GrossOutput(requested, rate)
    ensures e.allInReduction == e.configuredGross - e.principalReceived
    ensures e.allInBasisPoints.Some? ==> 0 <= e.allInBasisPoints.value <= 10_000
    ensures e.effectiveRate.Some? ==> 0 <= e.effectiveRate.value <= rate
    ensures e.feeBasisPoints.Some? && e.feeQuote.netFee <= e.grossOutput ==> 0 <= e.feeBasisPoints.value <= 10_000
  {
    RatioBound(e.allInReduction, 10_000, e.configuredGross, 10_000);
    assert requested * rate == rate * requested;
    RatioBound(e.principalReceived, 1_000_000_000, requested, rate);
    if e.feeQuote.netFee <= e.grossOutput {
      RatioBound(e.feeQuote.netFee, 10_000, e.grossOutput, 10_000);
    }
  }

  //// Conservation

  /**
   Where the reduction went: into the input transfer fee's share of the output, the protocol fee and
   the output transfer fee, exactly when the protocol fee is within the gross output.
   */
  lemma {:induction false} ReductionExplained(
      action: Action, requested: int, rates: AssetRates, config: Option<TransferFeeConfig>,
      policy: Option<FeePolicy>, now: int, epoch: int)
    requires ComputeEffectiveQuote(action, requested, rates, config, policy, now, epoch).Ok?
    ensures var e := ComputeEffectiveQuote(action, requested, rates, config, policy, now, epoch).value;
      && (e.allInReduction == (e.configuredGross - e.grossOutput) + e.feeQuote.netFee + e.principalTransfer.fee
          <==> e.feeQuote.netFee <= e.grossOutput)
      && (action.Redeem? ==> e.configuredGross == e.grossOutput)
      && (ZeroOutput !in e.feeQuote.observations ==> e.feeQuote.netFee <= e.grossOutput)
  {
    QuoteParts(action, requested, rates, config, policy, now, epoch);
    RatiosBounded(action, requested, rates, config, policy, now, epoch);
    var e := ComputeEffectiveQuote(action, requested, rates, config, policy, now, epoch).value;
    GrossConserved(action, e.rateInput, e.grossOutput, policy, now);
    TransferSplits(e.feeQuote.netOutput, if action.Redeem? then config else None, epoch);
  }

  /** What the reserve must hold for a redemption. */
  function RequiredReserve(action: Action, e: EffectiveQuote): nat {
    if action.Redeem? then e.feeQuote.netOutput + (if e.feeQuote.routed then e.feeQuote.netFee else 0) else 0
  }

  /** The reserve never pays more than the gross output unless a fee above it is routed. */
  lemma {:induction false} ReserveBounded(
      action: Action, requested: int, rates: AssetRates, config: Option<TransferFeeConfig>,
      policy: Option<FeePolicy>, now: int, epoch: int)
    requires ComputeEffectiveQuote(action, requested, rates, config, policy, now, epoch).Ok?
    ensures var e := ComputeEffectiveQuote(action, requested, rates, config, policy, now, epoch).value;
      && (RequiredReserve(action, e) <= e.grossOutput
          <==> action.Mint? || !e.feeQuote.routed || e.feeQuote.netFee <= e.grossOutput)
      && (ZeroOutput !in e.feeQuote.observations ==> RequiredReserve(action, e) <= e.grossOutput)
      && match action
         case Mint => RequiredReserve(action, e) == 0
         case Redeem =>
           if e.feeQuote.routed && e.feeQuote.netFee <= e.grossOutput then RequiredReserve(action, e) == e.grossOutput
           else RequiredReserve(action, e) == if e.feeQuote.routed then e.feeQuote.netFee else e.feeQuote.netOutput
  {
    QuoteParts(action, requested, rates, config, policy, now, epoch);
    var e := ComputeEffectiveQuote(action, requested, rates, config, policy, now, epoch).value;
    GrossConserved(action, e.rateInput, e.grossOutput, policy, now);
  }

  //// Accepting amounts

  datatype AmountLimits = AmountLimits(minimumInput: nat, maximumInput: nat)

  datatype AmountIssue = BelowMinimum | AboveMaximum | OutputTooSmall

  function Issue(holds: bool, issue: AmountIssue): seq<AmountIssue> {
    if holds then [issue] else []
  }

  function AmountIssues(input: int, minimumOutput: int, limits: AmountLimits, received: int): seq<AmountIssue> {
    Issue(input < limits.minimumInput, BelowMinimum)
    + Issue(limits.maximumInput != 0 && input > limits.maximumInput, AboveMaximum)
    + Issue(minimumOutput > received, OutputTooSmall)
  }

  /** Nothing is objected to exactly within the limits, where a maximum of zero is none. */
  lemma {:induction false} AmountIssuesExactly(input: int, minimumOutput: int, limits: AmountLimits, received: int)
    ensures var issues := AmountIssues(input, minimumOutput, limits, received);
      && (BelowMinimum in issues <==> input < limits.minimumInput)
      && (AboveMaximum in issues <==> 0 < limits.maximumInput < input)
      && (OutputTooSmall in issues <==> received < minimumOutput)
      && (issues == [] <==>
            limits.minimumInput <= input && minimumOutput <= received
            && (limits.maximumInput == 0 || input <= limits.maximumInput))
  {
  }

  /** An input that passes is followed by passing inputs, as far as they are quoted, up to the maximum. */
  lemma {:induction false} LargerInputsPass(
      action: Action, a: int, b: int, rates: AssetRates, config: Option<TransferFeeConfig>,
      policy: Option<FeePolicy>, now: int, epoch: int, limits: AmountLimits, minimumOutput: int)
    requires Bounded(action, policy) && a <= b && (limits.maximumInput != 0 ==> b <= limits.maximumInput)
    requires ComputeEffectiveQuote(action, a, rates, config, policy, now, epoch).Ok?
    requires ComputeEffectiveQuote(action, b, rates, config, policy, now, epoch).Ok?
    requires AmountIssues(a, minimumOutput, limits,
      ComputeEffectiveQuote(action, a, rates, config, policy, now, epoch).value.principalReceived) == []
    ensures AmountIssues(b, minimumOutput, limits,
      ComputeEffectiveQuote(action, b, rates, config, policy, now, epoch).value.principalReceived) == []
  {
    ReceiptMonotone(action, a, b, rates, config, policy, now, epoch);
  }
}
