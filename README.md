# Uniswap v3 fixed-point math, modelled in Dafny

This project models the integer math at the heart of a Uniswap v3 pool,
as written in TypeScript over JS `bigint`s under `src/math/`. The layers are:

- **EVM domains** (`evm.ts`): the range checks of the uint128/uint160/uint256 and int128/int256 domains, and the wraparound casts (`value & MAX`).
- **Checked arithmetic** (`arithmetic.ts`): `safeAdd`, `safeSub` and `safeMul`; `safeMulDivFloor` and `safeMulDivCeil` (multiply-then-divide at full precision, with a uint256 overflow check on the quotient); and the unchecked `unsafeDivCeil`.
- **Range-checking casts** (`cast.ts`) and **liquidity deltas** (`liquidity.ts`).
- **Sqrt-price math** (`sqrt-price.ts`): the token amounts between two Q64.96 sqrt prices, and the next sqrt price after a given input or output amount.
- **Tick conversion** (`tick.ts`):
  - tick to sqrt price, a 20-constant binary exponentiation;
  - sqrt price to tick: a most-significant-bit scan, then a 14-step squaring log2, then a choice between two candidate ticks.
- **Single swap steps** (`swap.ts`): `computeSwapStepBuy` (exact input) and `computeSwapStepSell` (exact output), with a fee in pips (millionths).

One Dafny module per source file: `Evm`, `Arithmetic`, `Cast`, `Liquidity`, `SqrtPrice`, `Tick` and `Swap`. Besides those:

- `Results` holds the `Result` datatype. Every thrown `MathError` becomes `Err(msg)` with the source's message, and failures propagate with `:-`.
- `IntOps` gives the bigint operators their JS meaning. `/` and `%` truncate toward zero (`Quot`, `Rem`). `x << k` is `x * Pow2(k)`. `x >> k` is floor division by `Pow2(k)`. A mask `x & (2^n - 1)` is `x % 2^n`.
- `TickExamples` holds the concrete tick/price instances.

Most of the source is straight-line, so it is modelled as functions. Each function's contract states what the result means: the exact rounding window of a quotient, the success condition as an if-and-only-if, the error message.

The two tick conversions update their variables step by step, so they are also modelled as methods:

- `GetSqrtPriceAtTick` runs a loop over the multiplier table.
- `GetTickAtSqrtPrice` runs `ScanMsb` (the 8-step scan), `FixedLog2` (normalisation plus the 14-step `SquareLoop`) and `SelectTick`.

Each method is proved equal to a specification function, a fold over the same constant tables. Lemmas then prove the specification functions' properties:

- the accumulator bounds;
- that the scan yields the most significant bit;
- the bounds on the fixed-point log;
- that the two candidate ticks are adjacent;
- the tie-break rule;
- the concrete values at tick 0, `TICK_MIN` and `TICK_MAX`.

## Model

Rows list the members that carry a contract. Plain definitions without one are covered by the rows of the lemmas that state their properties:
- the range predicates `IsUint128`, `IsUint160`, `IsUint256`, `IsInt128` and `IsInt256` (src/math/evm.ts:23-75) are `MIN <= v <= MAX` tests. DomainBounds ties those bounds to powers of two, and DomainsNest and WrapIdentityOnDomain relate the domains;
- the branch functions `PriceAfterToken0In`, `PriceAfterToken1In`, `PriceAfterToken1Out` and `PriceAfterToken0Out` (src/math/sqrt-price.ts:102-128 and 156-182) are characterised by the Token0In…, Token1In…, Token1Out… and Token0Out… lemmas;
- `Swap.ZeroForOne` (src/math/swap.ts:31) is the direction test `current >= target`, stated in the step contracts;
- `Swap.RemainingWithFee` (src/math/swap.ts:37-41) is characterised by RemainingWithFeeBounds.

| member | source | states |
|---|---|---|
| IntOps.Quot | src/math/arithmetic.ts:76 | bigint `/`: the remainder is smaller than the divisor and has the dividend's sign (truncation toward zero); equals floor division on non-negative operands |
| IntOps.Rem | src/math/arithmetic.ts:106 | bigint `%`: dividend = quotient × divisor + remainder, and the remainder is zero exactly when the divisor divides the dividend |
| Evm.DomainBounds | src/math/evm.ts:5-15 | the domain bounds are 2^128−1, 2^160−1, 2^256−1, ±2^127 and ±2^255 as declared |
| Evm.Uint128 | src/math/evm.ts:83-85 | the result lies in uint128 and is congruent to the input modulo 2^128 |
| Evm.Uint160 | src/math/evm.ts:93-95 | the result lies in uint160 and is congruent to the input modulo 2^160 |
| Evm.Uint256 | src/math/evm.ts:103-105 | the result lies in uint256 and is congruent to the input modulo 2^256 |
| Evm.Uint128Unique | src/math/evm.ts:83-85 | any uint128 value congruent to v modulo 2^128 is the cast of v, so the cast is v mod 2^128 |
| Evm.Uint160Unique | src/math/evm.ts:93-95 | the same for the 160-bit cast |
| Evm.Uint256Unique | src/math/evm.ts:103-105 | the same for the 256-bit cast |
| Evm.WrapIdentityOnDomain | src/math/evm.ts:23-105 | a wraparound cast leaves v unchanged if and only if v lies in its domain |
| Evm.WrapIdempotent | src/math/evm.ts:83-105 | casting twice equals casting once, for each width |
| Evm.DomainsNest | src/math/evm.ts:23-76 | uint128 ⊆ uint160 ⊆ uint256, int128 ⊆ int256 and uint128 ⊆ int256 |
| Evm.WrapNeverGrows | src/math/evm.ts:83-105 | truncating a non-negative value to 128, 160 or 256 bits never enlarges it |
| Arithmetic.SafeAdd | src/math/arithmetic.ts:16-24 | succeeds exactly when x+y lies in uint256 and then returns x+y; otherwise fails with "sum overflows uint256" |
| Arithmetic.SafeSub | src/math/arithmetic.ts:34-42 | succeeds exactly when x−y lies in uint256 and then returns x−y; otherwise fails with "difference underflows uint256" |
| Arithmetic.SafeMul | src/math/arithmetic.ts:52-60 | succeeds exactly when x·y lies in uint256 and then returns x·y; otherwise fails with "product overflows uint256" |
| Arithmetic.SafeMulDivFloor | src/math/arithmetic.ts:71-82 | fails with "division by zero" when z = 0. For x·y ≥ 0 and z > 0 it succeeds iff ⌊x·y/z⌋ fits uint256, and the result q satisfies q·z ≤ x·y < (q+1)·z |
| Arithmetic.SafeMulDivCeil | src/math/arithmetic.ts:94-106 | fails on z = 0. For x·y ≥ 0 and z > 0 it succeeds iff the floor quotient fits uint256. The result is floor plus one on a non-zero remainder, with (c−1)·z < x·y ≤ c·z and 0 ≤ c ≤ 2^256 |
| Arithmetic.CeilBounds | src/math/arithmetic.ts:99-106 | adding one to the truncated quotient on a non-zero remainder is the ceiling, bracketed by the divisor |
| Arithmetic.UnsafeDivCeil | src/math/arithmetic.ts:117-123 | a zero divisor gives 0; otherwise, for x ≥ 0, y > 0, the result c satisfies (c−1)·y < x ≤ c·y |
| Arithmetic.SubUndoesAdd | src/math/arithmetic.ts:16-42 | subtracting y after a successful add of y returns the original operand |
| Arithmetic.SubFailsIffUnderflow | src/math/arithmetic.ts:34-42 | on uint256 operands, subtraction fails exactly when y > x |
| Arithmetic.MulIsMulDivByOne | src/math/arithmetic.ts:52-82 | safeMul and safeMulDivFloor by 1 succeed together and agree |
| Arithmetic.MulDivCeilIsFloorOrNext | src/math/arithmetic.ts:71-106 | the two roundings succeed together; ceil is floor or floor+1, and equals floor exactly when z divides x·y |
| Arithmetic.MulDivCeilCanReach2To256 | src/math/arithmetic.ts:102-106 | because the check precedes rounding, a concrete input makes safeMulDivCeil return 2^256 without failing |
| Arithmetic.UnsafeDivCeilAgreesWithMulDivCeil | src/math/arithmetic.ts:117-123 | on uint256 operands unsafeDivCeil(x, y) equals safeMulDivCeil(x, 1, y) for y > 0; for y = 0 it gives 0 where the checked one fails |
| Cast.ToUint160 | src/math/cast.ts:15-21 | returns x unchanged iff x lies in uint160; otherwise fails with "result overflows or underflows uint160" |
| Cast.ToInt128 | src/math/cast.ts:24-36 | returns x unchanged iff x lies in int128; otherwise fails with the int128 message |
| Cast.ToInt256 | src/math/cast.ts:45-51 | returns x unchanged iff x lies in int256; otherwise fails with the int256 message |
| Cast.CastsIdempotent | src/math/cast.ts:15-51 | each cast, applied again to a successful result, gives the same result |
| Cast.CheckedCastMatchesWrap | src/math/cast.ts:15-21 | toUint160 succeeds exactly where the wraparound cast is the identity, and then they agree |
| Cast.Int128CastImpliesInt256 | src/math/cast.ts:24-51 | a value that passes the int128 cast passes the int256 cast with the same result |
| Liquidity.AddDelta | src/math/liquidity.ts:16-24 | succeeds iff 0 ≤ x+y ≤ 2^128−1 and returns x+y; a sum below zero also fails, with "sum overflows uint128" |
| Liquidity.AddZeroDelta | src/math/liquidity.ts:16-24 | a zero delta returns every uint128 liquidity unchanged |
| Liquidity.AddThenRemove | src/math/liquidity.ts:16-24 | adding a delta and then its negation restores the original liquidity |
| SqrtPrice.Amount0Delta | src/math/sqrt-price.ts:28-51 | fails with "sqrt prices cannot be zero" when either price is zero; any other failure is a quotient overflow |
| SqrtPrice.Amount0DeltaFloor | src/math/sqrt-price.ts:42-50 | rounding down, succeeds iff L·2^96·(hi−lo)/hi fits uint256, and the result r satisfies r·lo·hi ≤ L·2^96·(hi−lo) < (r+1)·lo·hi |
| SqrtPrice.Amount0DeltaCeil | src/math/sqrt-price.ts:42-49 | rounding up, same success condition, and (r−1)·lo·hi < L·2^96·(hi−lo) ≤ r·lo·hi |
| SqrtPrice.Amount1Delta | src/math/sqrt-price.ts:63-76 | succeeds iff L·(hi−lo)/2^96 fits uint256; the result is that quotient's floor or ceiling as asked |
| SqrtPrice.Amount0CeilIsFloorOrNext | src/math/sqrt-price.ts:45-50 | the rounded-up token-0 amount succeeds with the rounded-down one and exceeds it by at most one |
| SqrtPrice.Amount1CeilIsFloorOrNext | src/math/sqrt-price.ts:73-75 | the rounded-up token-1 amount succeeds with the rounded-down one and is it or it plus one |
| SqrtPrice.AmountDeltasSymmetric | src/math/sqrt-price.ts:34-36 | both amount functions give the same result whichever order the two prices come in |
| SqrtPrice.AmountDeltasNonNegative | src/math/sqrt-price.ts:28-76 | for positive prices and non-negative liquidity every successful amount is non-negative |
| SqrtPrice.Amount0DeltaNonNegative | src/math/sqrt-price.ts:45-50 | the token-0 amount is non-negative on both rounding paths |
| SqrtPrice.Amount1DeltaNonNegative | src/math/sqrt-price.ts:73-75 | the token-1 amount is non-negative on both rounding paths |
| SqrtPrice.AmountDeltasAtEqualPrices | src/math/sqrt-price.ts:42-50 | equal non-zero prices give amount 0 from both functions for either rounding; a zero price still fails for token 0 |
| SqrtPrice.NextSqrtPriceFromInput | src/math/sqrt-price.ts:88-130 | fails on a non-positive price or liquidity with the source's messages; a zero token-0 input returns the price unchanged |
| SqrtPrice.NextSqrtPriceFromOutput | src/math/sqrt-price.ts:142-184 | fails on a non-positive price or liquidity; a zero token-0 output returns the price unchanged |
| SqrtPrice.ProductCheckExact | src/math/sqrt-price.ts:108-110 | the check `uint256(amount·P)/amount == P` holds exactly when amount·P did not overflow |
| SqrtPrice.DenominatorCheckExact | src/math/sqrt-price.ts:111-113 | the check `uint256(n+product) >= n` holds exactly when n+product did not overflow |
| SqrtPrice.Token0InExactPath | src/math/sqrt-price.ts:107-116 | when L·2^96 + amount·P fits uint256, the result is the uint160 cast of ⌈L·2^96·P/(L·2^96+amount·P)⌉ and fails with it |
| SqrtPrice.Token0InFallbackPath | src/math/sqrt-price.ts:118-120 | otherwise the result is the cast of ⌈L·2^96/(⌊L·2^96/P⌋+amount)⌉ and fails exactly when that sum overflows |
| SqrtPrice.Token0InExact | src/math/sqrt-price.ts:107-116 | on the exact path the result r always succeeds and is the ceiling: (r−1)·d < L·2^96·P ≤ r·d with d = L·2^96 + amount·P |
| SqrtPrice.Token0InFallback | src/math/sqrt-price.ts:118-120 | on the fallback path success is "the sum fits uint256"; then r ≤ P and r is the ceiling of L·2^96 over the sum |
| SqrtPrice.Token0InNeverRaisesPrice | src/math/sqrt-price.ts:102-120 | selling token 0 never returns a price above the current one, on either path |
| SqrtPrice.Token1InExact | src/math/sqrt-price.ts:122-128 | selling token 1 succeeds iff P + ⌊amount·2^96/L⌋ ≤ 2^160−1, and returns exactly that sum, never below P |
| SqrtPrice.Token1InUpperBound | src/math/sqrt-price.ts:122-128 | selling token 1 raises the price to some P′ ≥ P with (P′ − P)·L ≤ amount·2^96 |
| SqrtPrice.Token0InLowerBound | src/math/sqrt-price.ts:102-120 | on either path, selling token 0 returns 0 < P′ ≤ P with L·2^96·P ≤ P′·(L·2^96 + amount·P): never below the exact price |
| SqrtPrice.Token1InQuotient | src/math/sqrt-price.ts:122-126 | both quotient paths compute ⌊amount·2^96/L⌋, fail only when it exceeds uint256, and the wrap leaves it unchanged |
| SqrtPrice.CeilQuotientFits | src/math/sqrt-price.ts:157-161 | for a uint256 amount whose floor quotient fits, the ceiling quotient also fits uint256 (no 2^256 wrap) |
| SqrtPrice.Token1OutQuotient | src/math/sqrt-price.ts:157-161 | both quotient paths compute ⌈amount·2^96/L⌉ and fail only when the floor exceeds uint256 |
| SqrtPrice.Token1OutExact | src/math/sqrt-price.ts:156-167 | buying token 1 fails iff amount·2^96 > (P−1)·L. On success, the decrease P−r is the ceiling of amount·2^96/L, 0 < r ≤ P, and r < P for a positive amount |
| SqrtPrice.Token0OutFails | src/math/sqrt-price.ts:176-178 | buying token 0 fails with "product overflows uint256" when amount·P overflows or reaches L·2^96 |
| SqrtPrice.Token0OutExact | src/math/sqrt-price.ts:173-182 | on success the new price r is above P and is the ceiling of L·2^96·P/(L·2^96 − amount·P) |
| Tick.MultipliersBelowQ128 | src/math/tick.ts:28-107 | every multiplier constant is below 2^128 |
| Tick.RatioBounds | src/math/tick.ts:28-107 | after each of the 19 steps the accumulator is at most the previous one, at most 2^128, and at least the all-bits-set accumulator |
| Tick.RatioPositive | src/math/tick.ts:28-110 | the final accumulator is positive for every tick, so the inversion at line 110 never divides by zero |
| Tick.SqrtPriceAtTick | src/math/tick.ts:21-114 | succeeds iff TICK_MIN ≤ tick ≤ TICK_MAX, else "tick is outside the range"; the price is uint160 and lies in (0, 2^96] for tick ≤ 0 |
| Tick.RoundUpToQ96 | src/math/tick.ts:113 | for an uninverted ratio, the rounded-up shift by 32 is positive, at most 2^96, and unchanged by the uint160 cast |
| Tick.GetSqrtPriceAtTick | src/math/tick.ts:21-114 | the step-by-step method returns exactly SqrtPriceAtTick(tick) |
| Tick.ScanTables | src/math/tick.ts:133-161 | each scan threshold is 2^shift − 1, and each shift is twice the next, down to 1 |
| Tick.MsbFromCorrect | src/math/tick.ts:130-162 | running the remaining scan steps from a shifted value yields the most significant bit of the ratio |
| Tick.MsbCorrect | src/math/tick.ts:128-162 | for 1 ≤ ratio ≤ 2^256−1 the scan result msb satisfies 2^msb ≤ ratio < 2^(msb+1) |
| Tick.ScanMsb | src/math/tick.ts:128-162 | the 8-step scan method computes Msb(ratio) |
| Tick.NormalizeBounds | src/math/tick.ts:163 | shifting the ratio by msb−127 leaves a mantissa in [2^127, 2^128) |
| Tick.SquareStepBounds | src/math/tick.ts:167-170 | a squaring step keeps the mantissa in [2^127, 2^128) and produces a bit f of 0 or 1 |
| Tick.Log2FromBounds | src/math/tick.ts:165-234 | the squaring steps from step j on add less than 2^(64−j) to the log |
| Tick.Log2FromStart | src/math/tick.ts:165-234 | the 14 squaring steps add a fractional part in [0, 2^64) to the integer part |
| Tick.SquareLoop | src/math/tick.ts:165-234 | the 14-step squaring loop, which skips the last shift, computes the fold Log2From |
| Tick.NormalizedMantissa | src/math/tick.ts:163-165 | the mantissa handed to the loop is at least 2^127, and the loop started from it gives Log2Fixed |
| Tick.FixedLog2 | src/math/tick.ts:128-234 | the scan, normalisation and squaring loop compute Log2Fixed(sqrtPrice) |
| Tick.Log2FixedBounds | src/math/tick.ts:128-234 | the log's integer part is msb−128, where msb is the top bit of sqrtPrice·2^32 |
| Tick.CandidatesAdjacent | src/math/tick.ts:236-241 | tickLo ≤ tickHi ≤ tickLo + 1 for every price |
| Tick.ChooseTick | src/math/tick.ts:243-246 | returns tickLo or tickHi, and tickHi exactly when they differ and getSqrtPriceAtTick(tickHi) ≤ sqrtPrice. Fails only when they differ and tickHi is outside the tick range |
| Tick.SelectTick | src/math/tick.ts:243-246 | the method form of the choice computes ChooseTick |
| Tick.TickAtSqrtPrice | src/math/tick.ts:123-249 | fails with "sqrt ratio is outside the range" unless SQRT_RATIO_MIN ≤ sqrtPrice < SQRT_RATIO_MAX. Otherwise it returns one of the two adjacent candidates, under the tie-break rule above |
| Tick.GetTickAtSqrtPrice | src/math/tick.ts:123-249 | the step-by-step method (scan, normalise, squaring loop, choice) returns exactly TickAtSqrtPrice(sqrtPrice) |
| TickExamples.SqrtPriceAtTickZero | src/math/tick.ts:28-31 | tick 0 gives sqrt price 2^96 |
| TickExamples.SqrtPriceAtTickMin | src/math/tick.ts:21-114 | TICK_MIN gives SQRT_RATIO_MIN |
| TickExamples.SqrtPriceAtTickMax | src/math/tick.ts:21-114 | TICK_MAX gives SQRT_RATIO_MAX |
| TickExamples.Log2AtPriceOne | src/math/tick.ts:165-234 | the fixed-point log of price 2^96 is 0 |
| TickExamples.CandidatesAtPriceOne | src/math/tick.ts:236-241 | at price 2^96 the candidates are −1 and 0 |
| TickExamples.TickAtSqrtPriceOne | src/math/tick.ts:243-248 | price 2^96 converts to tick 0 |
| TickExamples.Log2AtMinPrice | src/math/tick.ts:165-234 | the fixed-point log of SQRT_RATIO_MIN is −64·2^64 |
| TickExamples.CandidatesAtMinPrice | src/math/tick.ts:236-241 | at SQRT_RATIO_MIN the candidates are TICK_MIN−1 and TICK_MIN |
| TickExamples.TickAtSqrtPriceMin | src/math/tick.ts:243-248 | SQRT_RATIO_MIN converts to TICK_MIN |
| TickExamples.RoundTripAtZero | src/math/tick.ts:21-249 | tick 0 converts to a price that converts back to tick 0 |
| TickExamples.RoundTripAtMin | src/math/tick.ts:21-249 | TICK_MIN converts to a price that converts back to TICK_MIN |
| TickExamples.TickMaxPriceRejected | src/math/tick.ts:124-126 | the price of TICK_MAX is SQRT_RATIO_MAX, which the reverse conversion rejects |
| Swap.RemainingWithFeeBounds | src/math/swap.ts:37-41 | for 0 ≤ fee ≤ 10^6, setting the fee aside succeeds on a uint256 remaining amount, and on success leaves between 0 and the remaining amount, at most remaining·(10^6 − fee)/10^6 |
| Swap.ChargeFee | src/math/swap.ts:86-87 | the rounded-up fee c satisfies (c−1)·(10^6−fee) < sell·fee ≤ c·(10^6−fee) |
| Swap.FeeNonNegative | src/math/swap.ts:86-87 | such a fee is never negative |
| Swap.ComputeSwapStepBuy | src/math/swap.ts:24-96 | direction is current ≥ target. If the fee-adjusted input covers the target's need, the step stops at the target, sells that need and charges the rounded-up fee. Otherwise the price is where that input takes it, and sell + fee = remaining. Either way sell and buy are the amounts of that move |
| Swap.ComputeSwapStepSell | src/math/swap.ts:109-176 | never buys more than asked. If the ask covers what the target yields, it stops at the target; otherwise the price is where removing the whole ask takes it, and the buy is the move's yield capped at the ask. Sell is the move's cost with the fee on it; a fee of 10^6 fails |
| Swap.BuyMovesTowardTarget | src/math/swap.ts:31-60 | the exact-input step never moves the price away from the target. For a uint160 price, a positive target, a non-negative remaining amount and 0 ≤ fee ≤ 10^6, the new price lies between the current price and the target |
| Swap.BuyFallingShort | src/math/swap.ts:37-88 | when the fee-adjusted input is below the cost of reaching the target, the step sells at most that input, and so no more than the remaining amount, and stops strictly short of the target |
| Swap.Token0InShortOfTarget | src/math/sqrt-price.ts:102-120 | for a uint160 price P above a target T, selling less token 0 than the rounded-up cost of reaching T moves the price to some P′ strictly above T, and the rounded-up cost of reaching P′ is at most the amount sold |
| Swap.Token1InShortOfTarget | src/math/sqrt-price.ts:122-128 | for P below T, selling less token 1 than the rounded-up cost of reaching T moves the price to some P′ strictly below T, and the rounded-up cost of reaching P′ is at most the amount sold |
| Swap.Token1OutShortOfTarget | src/math/sqrt-price.ts:156-167 | for T ≤ P, asking for less token 1 than the rounded-down yield of moving to T leaves the price at or above T |
| Swap.Token0OutShortOfTarget | src/math/sqrt-price.ts:169-183 | for P < T, asking for less token 0 than the rounded-down yield of moving to T leaves the price at or below T |
| Swap.SellMovesTowardTarget | src/math/swap.ts:116-139 | the exact-output step keeps the price positive and between the current price and the target |
| Swap.SellFallingShort | src/math/swap.ts:122-139 | when the ask is below what the target yields, the step stops at or before the target |
| Swap.BuyQuantitiesNonNegative | src/math/swap.ts:43-88 | the price stays positive and the sold and bought quantities are non-negative. The fee is non-negative when the target is reached, and always for a uint160 price and a non-negative remaining amount |
| Swap.SellQuantitiesNonNegative | src/math/swap.ts:141-168 | sold, bought and fee quantities are all non-negative |
| Swap.StepsAtTarget | src/math/swap.ts:24-176 | when the current price already equals the target, both steps return that price with all quantities zero |
| Swap.GoldenBuyStep | src/math/swap.ts:24-96 | the canonical example (price 2^96 toward 2^96·11/10, liquidity 10^18, remaining 10^17, fee 3000) yields price 87127210316936492051620282184, sell 99700000000000000, buy 90661089388014913, fee 300000000000000 |

## Left out

- The `typeof value === "bigint"` checks in `evm.ts`: every value here is an `int`.
- The `Number(...)` and `BigInt(...)` conversions of ticks in `tick.ts`: ticks are plain `int`s.
- The `MathError` class hierarchy in `src/utils/errors.ts`: a failure is `Err(msg)` carrying the source's message; the `name` and `code` fields are not modelled.
- The compiled `dist/` files: they repeat the `src/math` logic line for line.
- Floating point and the real-valued `1.0001^tick` that the tick conversions approximate: only the integer algorithm is specified.
- Universal monotonicity of the tick-to-price conversion and a universal round trip between the two conversions. These depend on the numeric values of the magic constants; they are proved at tick 0, `TICK_MIN` and `TICK_MAX` only.
- Tick.TickAtSqrtPrice: no universal proof that `tickHi` always lies in the tick range, so the model keeps the error path that `getSqrtPriceAtTick(tickHi)` would throw on.
- `|=` on disjoint bits is modelled as `+`.
- Tick.MsbFrom: the last scan step in the source does not shift `r`, because `r` is overwritten immediately. The fold shifts uniformly, which does not change `msb`.
- Cast.ToInt128: the source's doc comment speaks of int160, but the code checks int128. The model follows the code.
- SqrtPrice.NextSqrtPriceFromOutput: for token-1 outputs above 2^256−1 that are not uint160, a rounded-up quotient of exactly 2^256 wraps to 0. The model computes the source's value, but Token1OutExact characterises uint256 amounts only.
- SqrtPrice.Token0OutExact: states the result whenever it succeeds. Failure is characterised in one direction only: Token0OutFails covers the overflow and `numerator1 <= product` cases, but not a result that then fails the uint160 cast.
- Swap.BuyQuantitiesNonNegative: the fee below the target, `remaining − sell`, is proved non-negative only for a uint160 current price and a non-negative remaining amount. A wider price lets the token 0 path wrap the new price to 160 bits, and a negative remaining amount can make the fee negative.
- Swap.BuyMovesTowardTarget: "never past the target" is stated under the same conditions, plus a positive target and 0 ≤ fee ≤ 10^6, because it rests on the same token 0 bound.
