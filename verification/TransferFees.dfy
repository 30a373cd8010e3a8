/** Token-2022 transfer fees: a rounded-up percentage, capped, of which epoch decides. */
module TransferFees {
  import opened Wrappers
  import opened Bytes

  datatype TransferFee = TransferFee(epoch: nat, maximumFee: nat, basisPoints: nat)

  datatype TransferFeeConfig = TransferFeeConfig(
    configAuthority: Option<seq<byte>>, withdrawAuthority: Option<seq<byte>>, withheld: nat,
    older: TransferFee, newer: TransferFee)

  datatype TransferError = NegativeAmount | NegativeEpoch | FeeExceedsAmount

  datatype Transfer = Transfer(epoch: int, amount: int, basisPoints: nat, maximumFee: nat, fee: int, received: int)

  function ActiveFee(config: TransferFeeConfig, epoch: int): TransferFee {
    if epoch < config.newer.epoch then config.older else config.newer
  }

  function UncappedFee(amount: nat, basisPoints: nat): int {
    if amount == 0 || basisPoints == 0 then 0 else (amount * basisPoints + 9999) / 10_000
  }

  function Min(a: int, b: int): int {
    if a < b then a else b
  }

  function Max(a: int, b: int): int {
    if a < b then b else a
  }

  function FeeOn(amount: nat, active: TransferFee): int {
    Min(UncappedFee(amount, active.basisPoints), active.maximumFee)
  }

  function CalculateTransfer(
      amount: int, config: Option<TransferFeeConfig>, epoch: int): Result<Transfer, TransferError>
  {
    if amount < 0 then Err(NegativeAmount)
    else if epoch < 0 then Err(NegativeEpoch)
    else if config.None? then Ok(Transfer(epoch, amount, 0, 0, 0, amount))
    else
      var active := ActiveFee(config.value, epoch);
      var fee := FeeOn(amount, active);
      if fee > amount then Err(FeeExceedsAmount)
      else Ok(Transfer(epoch, amount, active.basisPoints, active.maximumFee, fee, amount - fee))
  }

  /** A fee never exceeds the amount it is taken from. */
  predicate SafeFee(fee: TransferFee) {
    fee.basisPoints <= 10_000 || fee.maximumFee <= 1
  }

  predicate Safe(config: Option<TransferFeeConfig>, epoch: int) {
    config.None? ||
    if epoch >= config.value.newer.epoch then SafeFee(config.value.newer) else SafeFee(config.value.older)
  }

  /** A single fee fits its amount: it is safe, nothing is sent, or the amount covers the maximum. */
  predicate Covers(amount: int, fee: TransferFee) {
    SafeFee(fee) || amount == 0 || fee.maximumFee <= amount
  }

  predicate Payable(amount: int, config: Option<TransferFeeConfig>, epoch: int) {
    config.None? ||
    if epoch >= config.value.newer.epoch then Covers(amount, config.value.newer) else Covers(amount, config.value.older)
  }

  //// Percentages

  /** Raising the amount raises the product by at most the factor per unit. */
  lemma {:induction false} ProductStep(a: nat, b: nat, factor: nat, bound: nat)
    requires a <= b && factor <= bound
    ensures a * factor <= b * factor <= a * factor + (b - a) * bound
  {
    assert b * factor == a * factor + (b - a) * factor;
    assert (b - a) * (bound - factor) >= 0;
    assert (b - a) * bound == (b - a) * factor + (b - a) * (bound - factor);
  }

  /** The uncapped fee is the least whole number no smaller than the exact fee. */
  lemma {:induction false} UncappedIsCeiling(amount: nat, basisPoints: nat)
    ensures var fee := UncappedFee(amount, basisPoints);
      fee >= 0 && 10_000 * fee >= amount * basisPoints && 10_000 * (fee - 1) < amount * basisPoints
  {
    if amount == 0 || basisPoints == 0 {
      assert amount * basisPoints == 0;
    }
  }

  lemma {:induction false} UncappedSteps(a: nat, b: nat, basisPoints: nat)
    requires a <= b
    ensures UncappedFee(a, basisPoints) <= UncappedFee(b, basisPoints)
    ensures basisPoints <= 10_000 ==> UncappedFee(b, basisPoints) <= UncappedFee(a, basisPoints) + (b - a)
  {
    UncappedIsCeiling(a, basisPoints);
    UncappedIsCeiling(b, basisPoints);
    ProductStep(a, b, basisPoints, basisPoints);
    if basisPoints <= 10_000 {
      ProductStep(a, b, basisPoints, 10_000);
    }
  }

  lemma {:induction false} UncappedAtLeast(amount: nat, basisPoints: nat)
    requires amount > 0 && basisPoints > 10_000
    ensures UncappedFee(amount, basisPoints) > amount
  {
    UncappedIsCeiling(amount, basisPoints);
    ProductStep(0, amount, 10_001, basisPoints);
    assert amount * basisPoints >= amount * 10_001 by { assert amount * (basisPoints - 10_001) >= 0; }
  }

  /** A fee is at most its amount exactly when the amount covers it. */
  lemma {:induction false} FeeFitsExactly(amount: nat, active: TransferFee)
    ensures 0 <= FeeOn(amount, active)
    ensures FeeOn(amount, active) <= amount <==> Covers(amount, active)
  {
    UncappedIsCeiling(amount, active.basisPoints);
    UncappedSteps(0, amount, active.basisPoints);
    if active.basisPoints > 10_000 && amount > 0 {
      UncappedAtLeast(amount, active.basisPoints);
    }
  }

  /** Among amounts that cover it, the fee never falls as the amount grows, and grows no faster. */
  lemma {:induction false} FeeSteps(a: nat, b: nat, active: TransferFee)
    requires a <= b && Covers(a, active) && Covers(b, active)
    ensures FeeOn(a, active) <= FeeOn(b, active) <= FeeOn(a, active) + (b - a)
  {
    UncappedSteps(a, b, active.basisPoints);
    if active.basisPoints > 10_000 && a > 0 {
      UncappedAtLeast(a, active.basisPoints);
      UncappedAtLeast(b, active.basisPoints);
    }
    FeeFitsExactly(b, active);
  }

  /** The calculation succeeds exactly for amounts that cover the active fee. */
  lemma {:induction false} SucceedsExactly(amount: int, config: Option<TransferFeeConfig>, epoch: int)
    ensures CalculateTransfer(amount, config, epoch).Ok?
      <==> amount >= 0 && epoch >= 0 && Payable(amount, config, epoch)
  {
    if config.Some? && amount >= 0 {
      FeeFitsExactly(amount, ActiveFee(config.value, epoch));
    }
  }

  /** The lesser of the maximum and the least whole number no smaller than the percentage of the amount. */
  ghost predicate CappedFee(fee: int, amount: int, basisPoints: nat, maximumFee: nat) {
    exists exact: nat ::
      10_000 * exact >= amount * basisPoints
      && (forall other: nat :: 10_000 * other >= amount * basisPoints ==> exact <= other)
      && fee == if exact < maximumFee then exact else maximumFee
  }

  lemma {:induction false} FeeOnIs(amount: nat, fee: TransferFee)
    ensures CappedFee(FeeOn(amount, fee), amount, fee.basisPoints, fee.maximumFee)
  {
    var exact := UncappedFee(amount, fee.basisPoints);
    UncappedIsCeiling(amount, fee.basisPoints);
    forall other: nat | 10_000 * other >= amount * fee.basisPoints
      ensures exact <= other
    {
    }
  }

  /** Of the two fees, the newer one applies from its epoch on, and the other one then has no effect. */
  lemma {:induction false} ActiveFeeExactly(amount: int, config: TransferFeeConfig, epoch: int, t: Transfer)
    requires CalculateTransfer(amount, Some(config), epoch) == Ok(t)
    ensures epoch >= config.newer.epoch ==>
      t.basisPoints == config.newer.basisPoints && t.maximumFee == config.newer.maximumFee
      && forall older :: CalculateTransfer(amount, Some(config.(older := older)), epoch) == Ok(t)
    ensures epoch < config.newer.epoch ==>
      t.basisPoints == config.older.basisPoints && t.maximumFee == config.older.maximumFee
      && forall newer: TransferFee :: epoch < newer.epoch ==>
        CalculateTransfer(amount, Some(config.(newer := newer)), epoch) == Ok(t)
    ensures t.epoch == epoch && t.amount == amount && t.received == amount - t.fee
    ensures CappedFee(t.fee, amount, t.basisPoints, t.maximumFee)
  {
    FeeOnIs(amount, ActiveFee(config, epoch));
  }

  /** Exactly which error the calculation reports. */
  lemma {:induction false} TransferErrors(amount: int, config: Option<TransferFeeConfig>, epoch: int)
    ensures CalculateTransfer(amount, config, epoch) == Err(NegativeAmount) <==> amount < 0
    ensures CalculateTransfer(amount, config, epoch) == Err(NegativeEpoch) <==> amount >= 0 && epoch < 0
    ensures CalculateTransfer(amount, config, epoch) == Err(FeeExceedsAmount)
      <==> amount >= 0 && epoch >= 0 && !Payable(amount, config, epoch)
    ensures amount >= 0 && epoch >= 0 && config.None? ==>
      CalculateTransfer(amount, config, epoch) == Ok(Transfer(epoch, amount, 0, 0, 0, amount))
  {
    SucceedsExactly(amount, config, epoch);
  }

  /** No amount makes the calculation fail, exactly when the active fee is safe. */
  lemma {:induction false} NeverFailsExactly(config: TransferFeeConfig, epoch: nat)
    ensures (forall amount: nat :: CalculateTransfer(amount, Some(config), epoch).Ok?)
      <==> Safe(Some(config), epoch)
  {
    forall amount: nat
      ensures CalculateTransfer(amount, Some(config), epoch).Ok? <==> Payable(amount, Some(config), epoch)
    {
      SucceedsExactly(amount, Some(config), epoch);
    }
    assert Payable(1, Some(config), epoch) ==> Safe(Some(config), epoch);
  }

  /** What a recipient gets: no more than was sent, and never less when more is sent. */
  lemma {:induction false} TransferSteps(a: nat, b: nat, config: Option<TransferFeeConfig>, epoch: int)
    requires a <= b && CalculateTransfer(a, config, epoch).Ok? && CalculateTransfer(b, config, epoch).Ok?
    ensures var s, t := CalculateTransfer(a, config, epoch).value, CalculateTransfer(b, config, epoch).value;
      && 0 <= s.received <= a && s.received + s.fee == a
      && s.received <= t.received <= s.received + (b - a)
  {
    SucceedsExactly(a, config, epoch);
    SucceedsExactly(b, config, epoch);
    if config.Some? {
      FeeFitsExactly(a, ActiveFee(config.value, epoch));
      FeeSteps(a, b, ActiveFee(config.value, epoch));
    }
  }

  /** A transfer that is calculated at all splits its amount into the fee and what is received. */
  lemma {:induction false} TransferSplits(amount: int, config: Option<TransferFeeConfig>, epoch: int)
    requires CalculateTransfer(amount, config, epoch).Ok?
    ensures var t := CalculateTransfer(amount, config, epoch).value;
      t.fee + t.received == amount && 0 <= t.fee && 0 <= t.received
  {
    if config.Some? {
      UncappedIsCeiling(amount, ActiveFee(config.value, epoch).basisPoints);
    }
  }
}
