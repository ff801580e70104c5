/** Liquidity arithmetic (LiquidityMath): a signed delta added to a liquidity
    amount, with the sum bounded to uint128. */
module Liquidity {
  import opened Results
  import opened Evm

  /** The sum must lie in [0, 2^128 - 1]; a negative delta that drives it
      below zero fails with the same "overflows" message. */
  function AddDelta(x: int, y: int): (r: Result<int>)
    ensures r.Ok? <==> 0 <= x + y <= UINT128_MAX
    ensures r.Ok? ==> r.value == x + y
    ensures r.Err? ==> r.msg == "sum overflows uint128"
  {
    var sum := x + y;
    if !IsUint128(sum) then Err("sum overflows uint128") else Ok(sum)
  }

  lemma AddZeroDelta(x: int)
    requires IsUint128(x)
    ensures AddDelta(x, 0) == Ok(x)
  {
  }

  /** Removing liquidity that was just added restores the original amount. */
  lemma AddThenRemove(x: int, y: int)
    requires IsUint128(x) && AddDelta(x, y).Ok?
    ensures AddDelta(AddDelta(x, y).value, -y) == Ok(x)
  {
  }
}
