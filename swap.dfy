/** One step of a swap inside a single price range (SwapMath): from the
    current sqrt price towards a target, either until the target is reached
    or until the remaining amount runs out, charging a fee in pips
    (millionths). */
module Swap {
  import opened Results
  import opened IntOps
  import opened Evm
  import opened Arithmetic
  import opened SqrtPrice

  /** One million pips make up the whole amount. */
  const PIPS: int := 1_000_000

  datatype SwapStep = SwapStep(sqrtPrice: int, quantitySell: int, quantityBuy: int, quantityFee: int)

  /** The pool sells token 0 for token 1 exactly when the price moves down
      (or stays put): the direction is never an input. */
  predicate ZeroForOne(sqrtPriceCurrent: int, sqrtPriceTarget: int) {
    sqrtPriceCurrent >= sqrtPriceTarget
  }

  /** The input amount, rounded up, that moves the price from the current
      price to `sqrtPrice` in the given direction. */
  function SellAmount(zeroForOne: bool, sqrtPriceCurrent: int, sqrtPrice: int, liquidity: int): Result<int> {
    if zeroForOne then Amount0Delta(sqrtPrice, sqrtPriceCurrent, liquidity, true)
    else Amount1Delta(sqrtPriceCurrent, sqrtPrice, liquidity, true)
  }

  /** The output amount, rounded down, that the same price move releases. */
  function BuyAmount(zeroForOne: bool, sqrtPriceCurrent: int, sqrtPrice: int, liquidity: int): Result<int> {
    if zeroForOne then Amount1Delta(sqrtPrice, sqrtPriceCurrent, liquidity, false)
    else Amount0Delta(sqrtPriceCurrent, sqrtPrice, liquidity, false)
  }

  /** The part of the remaining input left once the fee is set aside. */
  function RemainingWithFee(quantitySellRemaining: int, fee: int): Result<int> {
    SafeMulDivFloor(quantitySellRemaining, PIPS - fee, PIPS)
  }

  /** Setting the fee aside never leaves more than there was, and a uint256
      remaining amount always has its fee set aside successfully. */
  lemma RemainingWithFeeBounds(quantitySellRemaining: int, fee: int)
    requires 0 <= fee <= PIPS
    ensures var r := RemainingWithFee(quantitySellRemaining, fee);
      (IsUint256(quantitySellRemaining) ==> r.Ok?) &&
      (r.Ok? && quantitySellRemaining >= 0 ==>
         0 <= r.value <= quantitySellRemaining &&
         r.value * PIPS <= quantitySellRemaining * (PIPS - fee))
  {
    if quantitySellRemaining >= 0 {
      ProductNonNegative(quantitySellRemaining, PIPS - fee);
      if fee == 0 {
        MultipleDiv(quantitySellRemaining, PIPS);
      } else {
        ScaleDown(quantitySellRemaining, PIPS - fee, PIPS);
      }
    }
  }

  /** `quantityFee` is the fee on `quantitySell` at `fee` pips of the amount
      before the fee: quantitySell * fee / (10^6 - fee), rounded up. */
  predicate FeeCharged(quantitySell: int, fee: int, quantityFee: int) {
    (quantityFee - 1) * (PIPS - fee) < quantitySell * fee <= quantityFee * (PIPS - fee)
  }

  /** The source computes that fee with a rounded-up multiply-divide. */
  lemma ChargeFee(quantitySell: int, fee: int)
    ensures var r := SafeMulDivCeil(quantitySell, fee, PIPS - fee);
      quantitySell >= 0 && 0 <= fee < PIPS && r.Ok? ==> FeeCharged(quantitySell, fee, r.value)
  {
    if quantitySell >= 0 && 0 <= fee < PIPS {
      ProductNonNegative(quantitySell, fee);
    }
  }

  /** A swap step driven by the amount sold (exact input). */
  function ComputeSwapStepBuy(sqrtPriceCurrent: int, sqrtPriceTarget: int, liquidity: int,
                              quantitySellRemaining: int, fee: int): (r: Result<SwapStep>)
    ensures var zeroForOne := ZeroForOne(sqrtPriceCurrent, sqrtPriceTarget);
      var withFee := RemainingWithFee(quantitySellRemaining, fee);
      var needed := SellAmount(zeroForOne, sqrtPriceCurrent, sqrtPriceTarget, liquidity);
      r.Ok? ==>
        withFee.Ok? && needed.Ok? &&
        // Reaching the target: the step sells exactly what the target needs
        // and charges the fee on top of it.
        (withFee.value >= needed.value ==>
           r.value.sqrtPrice == sqrtPriceTarget && r.value.quantitySell == needed.value &&
           (0 <= fee < PIPS && needed.value >= 0 ==> FeeCharged(needed.value, fee, r.value.quantityFee))) &&
        // Falling short: the price is where the fee-adjusted input takes it,
        // and whatever of the input is not sold is the fee.
        (withFee.value < needed.value ==>
           NextSqrtPriceFromInput(sqrtPriceCurrent, liquidity, withFee.value, zeroForOne) == Ok(r.value.sqrtPrice) &&
           r.value.quantitySell + r.value.quantityFee == quantitySellRemaining) &&
        // Either way, what is sold is what the price move costs and what is
        // bought is what it releases.
        SellAmount(zeroForOne, sqrtPriceCurrent, r.value.sqrtPrice, liquidity) == Ok(r.value.quantitySell) &&
        BuyAmount(zeroForOne, sqrtPriceCurrent, r.value.sqrtPrice, liquidity) == Ok(r.value.quantityBuy)
  {
    var zeroForOne := ZeroForOne(sqrtPriceCurrent, sqrtPriceTarget);
    var remainingWithFee :- RemainingWithFee(quantitySellRemaining, fee);
    var sellToTarget :- SellAmount(zeroForOne, sqrtPriceCurrent, sqrtPriceTarget, liquidity);
    var max := remainingWithFee >= sellToTarget;
    var sqrtPrice :- if max then Ok(sqrtPriceTarget)
                     else NextSqrtPriceFromInput(sqrtPriceCurrent, liquidity, remainingWithFee, zeroForOne);
    var quantitySell :- if max then Ok(sellToTarget)
                        else SellAmount(zeroForOne, sqrtPriceCurrent, sqrtPrice, liquidity);
    var quantityBuy :- BuyAmount(zeroForOne, sqrtPriceCurrent, sqrtPrice, liquidity);
    ChargeFee(quantitySell, fee);
    var quantityFee :- if max then SafeMulDivCeil(quantitySell, fee, PIPS - fee)
                       else Ok(quantitySellRemaining - quantitySell);
    Ok(SwapStep(sqrtPrice, quantitySell, quantityBuy, quantityFee))
  }

  /** A swap step driven by the amount bought (exact output). */
  function ComputeSwapStepSell(sqrtPriceCurrent: int, sqrtPriceTarget: int, liquidity: int,
                               quantityBuyRemaining: int, fee: int): (r: Result<SwapStep>)
    // Never more is bought than asked for.
    ensures r.Ok? ==> r.value.quantityBuy <= quantityBuyRemaining
    ensures var zeroForOne := ZeroForOne(sqrtPriceCurrent, sqrtPriceTarget);
      var available := BuyAmount(zeroForOne, sqrtPriceCurrent, sqrtPriceTarget, liquidity);
      r.Ok? ==>
        available.Ok? &&
        // Enough left to buy everything up to the target: the step stops there.
        (quantityBuyRemaining >= available.value ==>
           r.value.sqrtPrice == sqrtPriceTarget && r.value.quantityBuy == available.value) &&
        // Otherwise the price is where removing the whole remaining amount takes it.
        (quantityBuyRemaining < available.value ==>
           NextSqrtPriceFromOutput(sqrtPriceCurrent, liquidity, quantityBuyRemaining, zeroForOne) ==
           Ok(r.value.sqrtPrice)) &&
        // There, what is bought is what the move yields, capped at the amount asked for.
        (quantityBuyRemaining < available.value ==>
           var yielded := BuyAmount(zeroForOne, sqrtPriceCurrent, r.value.sqrtPrice, liquidity);
           yielded.Ok? && r.value.quantityBuy == Min(yielded.value, quantityBuyRemaining)) &&
        // What is sold is what the price move costs, and the fee is charged on it.
        SellAmount(zeroForOne, sqrtPriceCurrent, r.value.sqrtPrice, liquidity) == Ok(r.value.quantitySell) &&
        (0 <= fee < PIPS && r.value.quantitySell >= 0 ==>
           FeeCharged(r.value.quantitySell, fee, r.value.quantityFee))
    // A fee of the whole amount leaves nothing to divide by.
    ensures fee == PIPS ==> r.Err?
  {
    var zeroForOne := ZeroForOne(sqrtPriceCurrent, sqrtPriceTarget);
    var buyToTarget :- BuyAmount(zeroForOne, sqrtPriceCurrent, sqrtPriceTarget, liquidity);
    var max := quantityBuyRemaining >= buyToTarget;
    var sqrtPrice :- if max then Ok(sqrtPriceTarget)
                     else NextSqrtPriceFromOutput(sqrtPriceCurrent, liquidity, quantityBuyRemaining, zeroForOne);
    var quantitySell :- SellAmount(zeroForOne, sqrtPriceCurrent, sqrtPrice, liquidity);
    var quantityBuy :- if max then Ok(buyToTarget)
                       else BuyAmount(zeroForOne, sqrtPriceCurrent, sqrtPrice, liquidity);
    var clamped := if quantityBuy > quantityBuyRemaining then quantityBuyRemaining else quantityBuy;
    ChargeFee(quantitySell, fee);
    var quantityFee :- SafeMulDivCeil(quantitySell, fee, PIPS - fee);
    Ok(SwapStep(sqrtPrice, quantitySell, clamped, quantityFee))
  }

  // -------------------------------------------------------------------------
  // Properties of a step

  /** An exact-input step moves the price from the current one towards the
      target: down when selling token 0, up when selling token 1. For a
      uint160 price, a positive target and a non-negative remaining amount
      it also never passes the target. */
  lemma BuyMovesTowardTarget(sqrtPriceCurrent: int, sqrtPriceTarget: int, liquidity: int,
                             quantitySellRemaining: int, fee: int)
    requires sqrtPriceCurrent > 0 && liquidity > 0
    ensures var r := ComputeSwapStepBuy(sqrtPriceCurrent, sqrtPriceTarget, liquidity, quantitySellRemaining, fee);
      r.Ok? ==>
        (sqrtPriceCurrent >= sqrtPriceTarget ==> r.value.sqrtPrice <= sqrtPriceCurrent) &&
        (sqrtPriceCurrent < sqrtPriceTarget ==> sqrtPriceCurrent <= r.value.sqrtPrice)
    ensures var r := ComputeSwapStepBuy(sqrtPriceCurrent, sqrtPriceTarget, liquidity, quantitySellRemaining, fee);
      r.Ok? && IsUint160(sqrtPriceCurrent) && sqrtPriceTarget > 0 &&
      quantitySellRemaining >= 0 && 0 <= fee <= PIPS ==>
        (sqrtPriceCurrent >= sqrtPriceTarget ==> sqrtPriceTarget <= r.value.sqrtPrice) &&
        (sqrtPriceCurrent < sqrtPriceTarget ==> r.value.sqrtPrice <= sqrtPriceTarget)
  {
    var r := ComputeSwapStepBuy(sqrtPriceCurrent, sqrtPriceTarget, liquidity, quantitySellRemaining, fee);
    var zeroForOne := ZeroForOne(sqrtPriceCurrent, sqrtPriceTarget);
    var withFee := RemainingWithFee(quantitySellRemaining, fee);
    var needed := SellAmount(zeroForOne, sqrtPriceCurrent, sqrtPriceTarget, liquidity);
    if r.Ok? && withFee.value < needed.value {
      if zeroForOne {
        Token0InNeverRaisesPrice(sqrtPriceCurrent, liquidity, withFee.value);
      } else {
        Token1InUpperBound(sqrtPriceCurrent, liquidity, withFee.value);
      }
      if IsUint160(sqrtPriceCurrent) && sqrtPriceTarget > 0 && quantitySellRemaining >= 0 && 0 <= fee <= PIPS {
        BuyFallingShort(sqrtPriceCurrent, sqrtPriceTarget, liquidity, quantitySellRemaining, fee);
      }
    }
  }

  /** When the fee-adjusted input runs out before the target, an exact-input
      step sells no more than that input and stops strictly short of the
      target. */
  lemma BuyFallingShort(sqrtPriceCurrent: int, sqrtPriceTarget: int, liquidity: int,
                        quantitySellRemaining: int, fee: int)
    requires IsUint160(sqrtPriceCurrent) && sqrtPriceCurrent > 0 && sqrtPriceTarget > 0 && liquidity > 0
    requires quantitySellRemaining >= 0 && 0 <= fee <= PIPS
    ensures var r := ComputeSwapStepBuy(sqrtPriceCurrent, sqrtPriceTarget, liquidity, quantitySellRemaining, fee);
      var withFee := RemainingWithFee(quantitySellRemaining, fee);
      var needed := SellAmount(ZeroForOne(sqrtPriceCurrent, sqrtPriceTarget), sqrtPriceCurrent, sqrtPriceTarget, liquidity);
      r.Ok? && withFee.value < needed.value ==>
        r.value.quantitySell <= withFee.value <= quantitySellRemaining &&
        (sqrtPriceCurrent >= sqrtPriceTarget ==> sqrtPriceTarget < r.value.sqrtPrice) &&
        (sqrtPriceCurrent < sqrtPriceTarget ==> r.value.sqrtPrice < sqrtPriceTarget)
  {
    RemainingWithFeeBounds(quantitySellRemaining, fee);
    if sqrtPriceCurrent >= sqrtPriceTarget {
      BuyFallingShortDown(sqrtPriceCurrent, sqrtPriceTarget, liquidity, quantitySellRemaining, fee);
    } else {
      BuyFallingShortUp(sqrtPriceCurrent, sqrtPriceTarget, liquidity, quantitySellRemaining, fee);
    }
  }

  /** Selling token 0 (the price falls): the step sells at most the
      fee-adjusted input and ends strictly above the target. */
  lemma BuyFallingShortDown(sqrtPriceCurrent: int, sqrtPriceTarget: int, liquidity: int,
                            quantitySellRemaining: int, fee: int)
    requires IsUint160(sqrtPriceCurrent) && 0 < sqrtPriceTarget <= sqrtPriceCurrent && liquidity > 0
    requires quantitySellRemaining >= 0 && 0 <= fee <= PIPS
    ensures var r := ComputeSwapStepBuy(sqrtPriceCurrent, sqrtPriceTarget, liquidity, quantitySellRemaining, fee);
      var withFee := RemainingWithFee(quantitySellRemaining, fee);
      var needed := SellAmount(true, sqrtPriceCurrent, sqrtPriceTarget, liquidity);
      r.Ok? && withFee.value < needed.value ==>
        r.value.quantitySell <= withFee.value && sqrtPriceTarget < r.value.sqrtPrice
  {
    var r := ComputeSwapStepBuy(sqrtPriceCurrent, sqrtPriceTarget, liquidity, quantitySellRemaining, fee);
    var withFee := RemainingWithFee(quantitySellRemaining, fee);
    var needed := SellAmount(true, sqrtPriceCurrent, sqrtPriceTarget, liquidity);
    if r.Ok? && withFee.value < needed.value {
      Token0InShortOfTarget(sqrtPriceCurrent, sqrtPriceTarget, liquidity, withFee.value);
    }
  }

  /** An amount of token 0 below the rounded-up cost of reaching a lower
      target T moves the price to some P' strictly above T, and the
      rounded-up cost of reaching P' is at most that amount. */
  lemma Token0InShortOfTarget(sqrtPrice: int, sqrtPriceTarget: int, liquidity: int, amount: int)
    requires IsUint160(sqrtPrice) && 0 < sqrtPriceTarget <= sqrtPrice && liquidity > 0 && amount >= 0
    ensures var c := Amount0Delta(sqrtPriceTarget, sqrtPrice, liquidity, true);
      var r := NextSqrtPriceFromInput(sqrtPrice, liquidity, amount, true);
      c.Ok? && amount < c.value && r.Ok? ==>
        sqrtPriceTarget < r.value &&
        var s := Amount0Delta(r.value, sqrtPrice, liquidity, true);
        s.Ok? ==> s.value <= amount
  {
    var c := Amount0Delta(sqrtPriceTarget, sqrtPrice, liquidity, true);
    var r := NextSqrtPriceFromInput(sqrtPrice, liquidity, amount, true);
    if c.Ok? && amount < c.value && r.Ok? {
      var n := liquidity * Q96;
      MulAtLeast(liquidity, Q96);
      Token0InLowerBound(sqrtPrice, liquidity, amount);
      Amount0DeltaCeil(sqrtPriceTarget, sqrtPrice, liquidity);
      Token0StopsAboveTarget(n, sqrtPrice, sqrtPriceTarget, r.value, amount, c.value);
      var s := Amount0Delta(r.value, sqrtPrice, liquidity, true);
      if s.Ok? {
        Amount0DeltaCeil(r.value, sqrtPrice, liquidity);
        Token0SellWithinInput(n, sqrtPrice, r.value, amount, s.value);
      }
    }
  }

  /** Selling token 1 (the price rises): the step sells at most the
      fee-adjusted input and ends strictly below the target. */
  lemma BuyFallingShortUp(sqrtPriceCurrent: int, sqrtPriceTarget: int, liquidity: int,
                          quantitySellRemaining: int, fee: int)
    requires 0 < sqrtPriceCurrent < sqrtPriceTarget && liquidity > 0
    requires quantitySellRemaining >= 0 && 0 <= fee <= PIPS
    ensures var r := ComputeSwapStepBuy(sqrtPriceCurrent, sqrtPriceTarget, liquidity, quantitySellRemaining, fee);
      var withFee := RemainingWithFee(quantitySellRemaining, fee);
      var needed := SellAmount(false, sqrtPriceCurrent, sqrtPriceTarget, liquidity);
      r.Ok? && withFee.value < needed.value ==>
        r.value.quantitySell <= withFee.value && r.value.sqrtPrice < sqrtPriceTarget
  {
    var r := ComputeSwapStepBuy(sqrtPriceCurrent, sqrtPriceTarget, liquidity, quantitySellRemaining, fee);
    var withFee := RemainingWithFee(quantitySellRemaining, fee);
    var needed := SellAmount(false, sqrtPriceCurrent, sqrtPriceTarget, liquidity);
    if r.Ok? && withFee.value < needed.value {
      Token1InShortOfTarget(sqrtPriceCurrent, sqrtPriceTarget, liquidity, withFee.value);
    }
  }

  /** An amount of token 1 below the rounded-up cost of reaching a higher
      target T moves the price to some P' strictly below T, and the
      rounded-up cost of reaching P' is at most that amount. */
  lemma Token1InShortOfTarget(sqrtPrice: int, sqrtPriceTarget: int, liquidity: int, amount: int)
    requires 0 < sqrtPrice < sqrtPriceTarget && liquidity > 0 && amount >= 0
    ensures var c := Amount1Delta(sqrtPrice, sqrtPriceTarget, liquidity, true);
      var r := NextSqrtPriceFromInput(sqrtPrice, liquidity, amount, false);
      c.Ok? && amount < c.value && r.Ok? ==>
        r.value < sqrtPriceTarget &&
        var s := Amount1Delta(sqrtPrice, r.value, liquidity, true);
        s.Ok? ==> s.value <= amount
  {
    var c := Amount1Delta(sqrtPrice, sqrtPriceTarget, liquidity, true);
    var r := NextSqrtPriceFromInput(sqrtPrice, liquidity, amount, false);
    if c.Ok? && amount < c.value && r.Ok? {
      Token1InUpperBound(sqrtPrice, liquidity, amount);
      var s := Amount1Delta(sqrtPrice, r.value, liquidity, true);
      assert Max(sqrtPrice, sqrtPriceTarget) == sqrtPriceTarget && Min(sqrtPrice, sqrtPriceTarget) == sqrtPrice;
      assert Max(sqrtPrice, r.value) == r.value && Min(sqrtPrice, r.value) == sqrtPrice;
      var sell := if s.Ok? then s.value else 0;
      Token1InStopsBelowTarget(liquidity, Q96, sqrtPrice, sqrtPriceTarget, r.value, amount, c.value, sell);
    }
  }

  /** The token 0 arithmetic of a step that falls short, first half: with
      n = L * 2^96 and n * P <= P' * (n + w * P), the rounded-up cost s of
      moving from P to P' is at most w. */
  lemma Token0SellWithinInput(n: int, sqrtPrice: int, sqrtPriceNext: int, w: int, s: int)
    requires n > 0 && 0 < sqrtPriceNext <= sqrtPrice && w >= 0
    requires n * sqrtPrice <= sqrtPriceNext * (n + w * sqrtPrice)
    requires (s - 1) * (sqrtPriceNext * sqrtPrice) < n * (sqrtPrice - sqrtPriceNext)
    ensures s <= w
  {
    var m := sqrtPriceNext * sqrtPrice;
    assert n * (sqrtPrice - sqrtPriceNext) <= w * m by {
      assert n * (sqrtPrice - sqrtPriceNext) == n * sqrtPrice - n * sqrtPriceNext;
      assert sqrtPriceNext * (n + w * sqrtPrice) == sqrtPriceNext * n + w * m;
    }
    assert 0 < m by {
      MulAtLeast(sqrtPriceNext, sqrtPrice);
    }
    MulOrder(w, s - 1, m);
  }

  /** Second half: when w is below the rounded-up cost c of reaching T, the
      new price P' lies strictly above T. */
  lemma Token0StopsAboveTarget(n: int, sqrtPrice: int, sqrtPriceTarget: int, sqrtPriceNext: int,
                               w: int, c: int)
    requires n > 0 && 0 < sqrtPriceTarget <= sqrtPrice && 0 <= w < c
    requires n * sqrtPrice <= sqrtPriceNext * (n + w * sqrtPrice)
    requires (c - 1) * (sqrtPriceTarget * sqrtPrice) < n * (sqrtPrice - sqrtPriceTarget)
    ensures sqrtPriceTarget < sqrtPriceNext
  {
    var d := n + w * sqrtPrice;
    assert w * (sqrtPriceTarget * sqrtPrice) < n * (sqrtPrice - sqrtPriceTarget) by {
      MulMonotone(w, c - 1, sqrtPriceTarget * sqrtPrice);
    }
    assert sqrtPriceTarget * d < n * sqrtPrice by {
      assert n * (sqrtPrice - sqrtPriceTarget) == n * sqrtPrice - n * sqrtPriceTarget;
      assert sqrtPriceTarget * d == sqrtPriceTarget * n + w * (sqrtPriceTarget * sqrtPrice);
    }
    MulOrder(sqrtPriceNext, sqrtPriceTarget, d);
  }

  /** The token 1 arithmetic of a step that falls short: the price rises by
      at most w * q / L, w is below the rounded-up cost c of reaching T, and
      s is the rounded-up cost of reaching P'; then s <= w and P' < T. */
  lemma Token1InStopsBelowTarget(liquidity: int, q: int, sqrtPrice: int, sqrtPriceTarget: int,
                            sqrtPriceNext: int, w: int, c: int, s: int)
    requires liquidity > 0 && q > 0 && sqrtPrice <= sqrtPriceNext && 0 <= w < c
    requires (sqrtPriceNext - sqrtPrice) * liquidity <= w * q
    requires (c - 1) * q < liquidity * (sqrtPriceTarget - sqrtPrice)
    requires (s - 1) * q < liquidity * (sqrtPriceNext - sqrtPrice)
    ensures s <= w && sqrtPriceNext < sqrtPriceTarget
  {
    MulOrder(w, s - 1, q);
    MulMonotone(w, c - 1, q);
    MulOrder(sqrtPriceTarget - sqrtPrice, sqrtPriceNext - sqrtPrice, liquidity);
  }

  /** An exact-output step moves the price the same way, never past the
      target, and never to zero or below when both prices are positive. */
  lemma SellMovesTowardTarget(sqrtPriceCurrent: int, sqrtPriceTarget: int, liquidity: int,
                              quantityBuyRemaining: int, fee: int)
    requires IsUint160(sqrtPriceCurrent) && sqrtPriceCurrent > 0 && sqrtPriceTarget > 0 && liquidity > 0
    requires IsUint256(quantityBuyRemaining)
    ensures var r := ComputeSwapStepSell(sqrtPriceCurrent, sqrtPriceTarget, liquidity, quantityBuyRemaining, fee);
      r.Ok? ==>
        r.value.sqrtPrice > 0 &&
        (sqrtPriceCurrent >= sqrtPriceTarget ==> sqrtPriceTarget <= r.value.sqrtPrice <= sqrtPriceCurrent) &&
        (sqrtPriceCurrent < sqrtPriceTarget ==> sqrtPriceCurrent <= r.value.sqrtPrice <= sqrtPriceTarget)
  {
    var r := ComputeSwapStepSell(sqrtPriceCurrent, sqrtPriceTarget, liquidity, quantityBuyRemaining, fee);
    var zeroForOne := ZeroForOne(sqrtPriceCurrent, sqrtPriceTarget);
    var available := BuyAmount(zeroForOne, sqrtPriceCurrent, sqrtPriceTarget, liquidity);
    if r.Ok? && quantityBuyRemaining < available.value {
      if zeroForOne {
        Token1OutExact(sqrtPriceCurrent, liquidity, quantityBuyRemaining);
      } else if quantityBuyRemaining > 0 {
        Token0OutExact(sqrtPriceCurrent, liquidity, quantityBuyRemaining);
      }
      SellFallingShort(sqrtPriceCurrent, sqrtPriceTarget, liquidity, quantityBuyRemaining, fee);
    }
  }

  /** When the amount asked for is less than what the target yields, an
      exact-output step stops at or before the target. */
  lemma SellFallingShort(sqrtPriceCurrent: int, sqrtPriceTarget: int, liquidity: int,
                         quantityBuyRemaining: int, fee: int)
    requires IsUint160(sqrtPriceCurrent) && sqrtPriceCurrent > 0 && sqrtPriceTarget > 0 && liquidity > 0
    requires IsUint256(quantityBuyRemaining)
    ensures var r := ComputeSwapStepSell(sqrtPriceCurrent, sqrtPriceTarget, liquidity, quantityBuyRemaining, fee);
      var available := BuyAmount(ZeroForOne(sqrtPriceCurrent, sqrtPriceTarget), sqrtPriceCurrent, sqrtPriceTarget, liquidity);
      r.Ok? && quantityBuyRemaining < available.value ==>
        (sqrtPriceCurrent >= sqrtPriceTarget ==> sqrtPriceTarget <= r.value.sqrtPrice) &&
        (sqrtPriceCurrent < sqrtPriceTarget ==> r.value.sqrtPrice <= sqrtPriceTarget)
  {
    var r := ComputeSwapStepSell(sqrtPriceCurrent, sqrtPriceTarget, liquidity, quantityBuyRemaining, fee);
    var zeroForOne := ZeroForOne(sqrtPriceCurrent, sqrtPriceTarget);
    var available := BuyAmount(zeroForOne, sqrtPriceCurrent, sqrtPriceTarget, liquidity);
    if r.Ok? && quantityBuyRemaining < available.value {
      if zeroForOne {
        Token1OutShortOfTarget(sqrtPriceCurrent, sqrtPriceTarget, liquidity, quantityBuyRemaining);
      } else {
        Token0OutShortOfTarget(sqrtPriceCurrent, sqrtPriceTarget, liquidity, quantityBuyRemaining);
      }
    }
  }

  /** Asking for less token 1 than moving down to T yields takes the price
      to some P' at or above T. */
  lemma Token1OutShortOfTarget(sqrtPrice: int, sqrtPriceTarget: int, liquidity: int, amount: int)
    requires IsUint160(sqrtPrice) && 0 < sqrtPriceTarget <= sqrtPrice && liquidity > 0 && IsUint256(amount)
    ensures var a := Amount1Delta(sqrtPriceTarget, sqrtPrice, liquidity, false);
      var r := NextSqrtPriceFromOutput(sqrtPrice, liquidity, amount, true);
      a.Ok? && amount < a.value && r.Ok? ==> sqrtPriceTarget <= r.value
  {
    var a := Amount1Delta(sqrtPriceTarget, sqrtPrice, liquidity, false);
    var r := NextSqrtPriceFromOutput(sqrtPrice, liquidity, amount, true);
    if a.Ok? && amount < a.value && r.Ok? {
      Token1OutExact(sqrtPrice, liquidity, amount);
      assert Max(sqrtPriceTarget, sqrtPrice) == sqrtPrice && Min(sqrtPriceTarget, sqrtPrice) == sqrtPriceTarget;
      Token1OutStopsAtTarget(liquidity, Q96, sqrtPrice, sqrtPriceTarget, r.value, amount, a.value);
    }
  }

  /** Asking for less token 0 than moving up to T yields takes the price to
      some P' at or below T. */
  lemma Token0OutShortOfTarget(sqrtPrice: int, sqrtPriceTarget: int, liquidity: int, amount: int)
    requires 0 < sqrtPrice < sqrtPriceTarget && liquidity > 0 && amount >= 0
    ensures var a := Amount0Delta(sqrtPrice, sqrtPriceTarget, liquidity, false);
      var r := NextSqrtPriceFromOutput(sqrtPrice, liquidity, amount, false);
      a.Ok? && amount < a.value && r.Ok? ==> r.value <= sqrtPriceTarget
  {
    var a := Amount0Delta(sqrtPrice, sqrtPriceTarget, liquidity, false);
    var r := NextSqrtPriceFromOutput(sqrtPrice, liquidity, amount, false);
    if a.Ok? && amount < a.value && r.Ok? && amount > 0 {
      Token0OutExact(sqrtPrice, liquidity, amount);
      Amount0DeltaFloor(sqrtPrice, sqrtPriceTarget, liquidity);
      Token0OutStopsAtTarget(liquidity * Q96, sqrtPrice, sqrtPriceTarget, r.value, amount, a.value);
    }
  }

  /** The token 1 arithmetic of an exact-output step that falls short: the
      ask m is below the rounded-down yield a of reaching T, and the price
      falls by at most the rounded-up m * q / L; then P' >= T. */
  lemma Token1OutStopsAtTarget(liquidity: int, q: int, sqrtPrice: int, sqrtPriceTarget: int,
                               sqrtPriceNext: int, m: int, a: int)
    requires liquidity > 0 && q > 0 && 0 <= m < a
    requires a * q <= liquidity * (sqrtPrice - sqrtPriceTarget)
    requires (sqrtPrice - sqrtPriceNext - 1) * liquidity < m * q
    ensures sqrtPriceTarget <= sqrtPriceNext
  {
    MulMonotone(m, a, q);
    MulOrder(sqrtPrice - sqrtPriceTarget, sqrtPrice - sqrtPriceNext - 1, liquidity);
  }

  /** The token 0 arithmetic of an exact-output step that falls short: with
      n = L * 2^96, the ask m is below the rounded-down yield a of reaching
      T, and P' is the rounded-up n * P / (n - m * P); then P' <= T. */
  lemma Token0OutStopsAtTarget(n: int, sqrtPrice: int, sqrtPriceTarget: int, sqrtPriceNext: int,
                               m: int, a: int)
    requires n > 0 && 0 < sqrtPrice < sqrtPriceTarget && 0 < m < a
    requires a * (sqrtPrice * sqrtPriceTarget) <= n * (sqrtPriceTarget - sqrtPrice)
    requires (sqrtPriceNext - 1) * (n - m * sqrtPrice) < n * sqrtPrice
    ensures sqrtPriceNext <= sqrtPriceTarget
  {
    var k := sqrtPrice * sqrtPriceTarget;
    var d := n - m * sqrtPrice;
    assert m * k + k <= n * sqrtPriceTarget - n * sqrtPrice by {
      MulMonotone(m + 1, a, k);
      assert (m + 1) * k == m * k + k;
      assert n * (sqrtPriceTarget - sqrtPrice) == n * sqrtPriceTarget - n * sqrtPrice;
    }
    assert sqrtPriceTarget * d == n * sqrtPriceTarget - m * k by {
      assert sqrtPriceTarget * (m * sqrtPrice) == m * k;
    }
    assert 0 < k by {
      MulAtLeast(sqrtPrice, sqrtPriceTarget);
    }
    assert n * sqrtPrice < sqrtPriceTarget * d;
    assert 0 < d by {
      MulAtLeast(n, sqrtPrice);
      MulOrder(d, 0, sqrtPriceTarget);
    }
    MulOrder(sqrtPriceTarget, sqrtPriceNext - 1, d);
  }

  /** With positive prices and liquidity an exact-input step never returns a
      negative amount. Its fee is non-negative when it reaches the target,
      and, for a uint160 price and a non-negative remaining amount, always. */
  lemma BuyQuantitiesNonNegative(sqrtPriceCurrent: int, sqrtPriceTarget: int, liquidity: int,
                                 quantitySellRemaining: int, fee: int)
    requires sqrtPriceCurrent > 0 && sqrtPriceTarget > 0 && liquidity > 0 && 0 <= fee < PIPS
    ensures var r := ComputeSwapStepBuy(sqrtPriceCurrent, sqrtPriceTarget, liquidity, quantitySellRemaining, fee);
      var withFee := RemainingWithFee(quantitySellRemaining, fee);
      var needed := SellAmount(ZeroForOne(sqrtPriceCurrent, sqrtPriceTarget), sqrtPriceCurrent, sqrtPriceTarget, liquidity);
      r.Ok? ==>
        r.value.sqrtPrice > 0 && r.value.quantitySell >= 0 && r.value.quantityBuy >= 0 &&
        (withFee.value >= needed.value ==> r.value.quantityFee >= 0) &&
        (IsUint160(sqrtPriceCurrent) && quantitySellRemaining >= 0 ==> r.value.quantityFee >= 0)
  {
    var r := ComputeSwapStepBuy(sqrtPriceCurrent, sqrtPriceTarget, liquidity, quantitySellRemaining, fee);
    if r.Ok? {
      var zeroForOne := ZeroForOne(sqrtPriceCurrent, sqrtPriceTarget);
      var price := r.value.sqrtPrice;
      BuyMovesTowardTarget(sqrtPriceCurrent, sqrtPriceTarget, liquidity, quantitySellRemaining, fee);
      assert SellAmount(zeroForOne, sqrtPriceCurrent, price, liquidity) == Ok(r.value.quantitySell);
      assert BuyAmount(zeroForOne, sqrtPriceCurrent, price, liquidity) == Ok(r.value.quantityBuy);
      assert price > 0;
      AmountDeltasNonNegative(price, sqrtPriceCurrent, liquidity, true);
      AmountDeltasNonNegative(price, sqrtPriceCurrent, liquidity, false);
      AmountDeltasSymmetric(price, sqrtPriceCurrent, liquidity, true);
      AmountDeltasSymmetric(price, sqrtPriceCurrent, liquidity, false);
      var withFee := RemainingWithFee(quantitySellRemaining, fee);
      var needed := SellAmount(zeroForOne, sqrtPriceCurrent, sqrtPriceTarget, liquidity);
      if withFee.value >= needed.value {
        FeeNonNegative(r.value.quantitySell, fee, r.value.quantityFee);
      } else if IsUint160(sqrtPriceCurrent) && quantitySellRemaining >= 0 {
        BuyFallingShort(sqrtPriceCurrent, sqrtPriceTarget, liquidity, quantitySellRemaining, fee);
      }
    }
  }

  /** An exact-output step never returns a negative amount or fee. */
  lemma SellQuantitiesNonNegative(sqrtPriceCurrent: int, sqrtPriceTarget: int, liquidity: int,
                                  quantityBuyRemaining: int, fee: int)
    requires IsUint160(sqrtPriceCurrent) && sqrtPriceCurrent > 0 && sqrtPriceTarget > 0 && liquidity > 0
    requires IsUint256(quantityBuyRemaining) && 0 <= fee < PIPS
    ensures var r := ComputeSwapStepSell(sqrtPriceCurrent, sqrtPriceTarget, liquidity, quantityBuyRemaining, fee);
      r.Ok? ==> r.value.quantitySell >= 0 && r.value.quantityBuy >= 0 && r.value.quantityFee >= 0
  {
    var r := ComputeSwapStepSell(sqrtPriceCurrent, sqrtPriceTarget, liquidity, quantityBuyRemaining, fee);
    if r.Ok? {
      var price := r.value.sqrtPrice;
      SellMovesTowardTarget(sqrtPriceCurrent, sqrtPriceTarget, liquidity, quantityBuyRemaining, fee);
      AmountDeltasNonNegative(sqrtPriceTarget, sqrtPriceCurrent, liquidity, false);
      AmountDeltasNonNegative(price, sqrtPriceCurrent, liquidity, true);
      AmountDeltasNonNegative(price, sqrtPriceCurrent, liquidity, false);
      AmountDeltasSymmetric(price, sqrtPriceCurrent, liquidity, true);
      AmountDeltasSymmetric(price, sqrtPriceCurrent, liquidity, false);
      AmountDeltasSymmetric(sqrtPriceTarget, sqrtPriceCurrent, liquidity, false);
      FeeNonNegative(r.value.quantitySell, fee, r.value.quantityFee);
    }
  }

  /** A fee charged on a non-negative amount is non-negative. */
  lemma FeeNonNegative(quantitySell: int, fee: int, quantityFee: int)
    requires quantitySell >= 0 && 0 <= fee < PIPS && FeeCharged(quantitySell, fee, quantityFee)
    ensures quantityFee >= 0
  {
    ProductNonNegative(quantitySell, fee);
    MulOrder(0, quantityFee, PIPS - fee);
  }

  /** When the price already sits at the target there is nothing to trade:
      both steps stay put and move no amount and no fee. */
  lemma StepsAtTarget(sqrtPrice: int, liquidity: int, quantityRemaining: int, fee: int)
    requires sqrtPrice > 0 && IsUint256(quantityRemaining) && 0 <= fee < PIPS
    ensures ComputeSwapStepBuy(sqrtPrice, sqrtPrice, liquidity, quantityRemaining, fee) ==
            Ok(SwapStep(sqrtPrice, 0, 0, 0))
    ensures ComputeSwapStepSell(sqrtPrice, sqrtPrice, liquidity, quantityRemaining, fee) ==
            Ok(SwapStep(sqrtPrice, 0, 0, 0))
  {
    RemainingWithFeeBounds(quantityRemaining, fee);
    AmountDeltasAtEqualPrices(sqrtPrice, liquidity, true);
    AmountDeltasAtEqualPrices(sqrtPrice, liquidity, false);
    assert SafeMulDivCeil(0, fee, PIPS - fee) == Ok(0);
  }

  /** The canonical exact-input step: from price 1 (2^96) towards about 1.1
      (2^96 * 11 / 10) with liquidity 10^18, selling 10^17 of token 1 at a
      0.3% fee. The input runs out first, so everything not sold is fee. */
  lemma GoldenBuyStep(sqrtPriceTarget: int, liquidity: int, quantitySellRemaining: int)
    requires sqrtPriceTarget == Q96 * 11 / 10 && liquidity == 1_000_000_000_000_000_000
    requires quantitySellRemaining == 100_000_000_000_000_000
    ensures ComputeSwapStepBuy(Q96, sqrtPriceTarget, liquidity, quantitySellRemaining, 3000) ==
            Ok(SwapStep(87127210316936492051620282184, 99700000000000000, 90661089388014913, 300000000000000))
  {
    assert sqrtPriceTarget == 87150978765690771352898345369;
    var withFee := 99700000000000000;
    assert RemainingWithFee(quantitySellRemaining, 3000) == Ok(withFee);
    assert SellAmount(false, Q96, sqrtPriceTarget, liquidity) == Ok(100000000000000000);
    var price := 87127210316936492051620282184;
    assert Quot(withFee * Q96, liquidity) == 7899047802672154458076331848;
    assert NextSqrtPriceFromInput(Q96, liquidity, withFee, false) == Ok(price);
    assert SellAmount(false, Q96, price, liquidity) == Ok(99700000000000000);
    assert SafeMulDivFloor(liquidity * Q96, price - Q96, price) == Ok(7182911523753891477745141264022240625463760156);
    assert BuyAmount(false, Q96, price, liquidity) == Ok(90661089388014913);
  }
}
