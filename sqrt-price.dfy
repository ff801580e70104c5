/** Token amounts between two Q64.96 sqrt prices at a given liquidity, and
    the sqrt price reached after adding or removing an amount of one token
    (SqrtPriceMath). Every function first orders or checks its inputs, then
    combines the checked multiply-divides of Arithmetic, rounding up or down
    as the caller asks. */
module SqrtPrice {
  import opened Results
  import opened IntOps
  import opened Evm
  import opened Arithmetic
  import opened Cast

  /** 1.0 in Q64.96; `x << 96` is `x * Q96`. */
  const Q96: int := 0x1000000000000000000000000

  function Min(a: int, b: int): int {
    if a > b then b else a
  }

  function Max(a: int, b: int): int {
    if a > b then a else b
  }

  // ---------------------------------------------------------------------
  // Amounts between two prices

  /** The amount of token 0 between two sqrt prices:
      L * 2^96 * (hi - lo) / hi / lo, each division rounded as asked. */
  function Amount0Delta(sqrtPriceA: int, sqrtPriceB: int, liquidity: int, ceil: bool): (r: Result<int>)
    ensures Min(sqrtPriceA, sqrtPriceB) == 0 || Max(sqrtPriceA, sqrtPriceB) == 0 ==>
      r == Err("sqrt prices cannot be zero")
    ensures r.Err? && sqrtPriceA != 0 && sqrtPriceB != 0 ==>
      r.msg == "quotient overflows uint256"
  {
    var lo, hi := Min(sqrtPriceA, sqrtPriceB), Max(sqrtPriceA, sqrtPriceB);
    if lo == 0 || hi == 0 then Err("sqrt prices cannot be zero")
    else
      var numerator1 := liquidity * Q96;
      var numerator2 := hi - lo;
      if ceil then
        var q :- SafeMulDivCeil(numerator1, numerator2, hi);
        Ok(UnsafeDivCeil(q, lo))
      else
        var q :- SafeMulDivFloor(numerator1, numerator2, hi);
        Ok(Quot(q, lo))
  }

  /** The amount of token 1 between two sqrt prices: L * (hi - lo) / 2^96,
      rounded as asked. */
  function Amount1Delta(sqrtPriceA: int, sqrtPriceB: int, liquidity: int, ceil: bool): (r: Result<int>)
    ensures r.Err? ==> r.msg == "quotient overflows uint256"
    ensures liquidity >= 0 ==>
      var delta := liquidity * (Max(sqrtPriceA, sqrtPriceB) - Min(sqrtPriceA, sqrtPriceB));
      (r.Ok? <==> delta / Q96 <= UINT256_MAX) &&
      (r.Ok? && !ceil ==> r.value * Q96 <= delta < (r.value + 1) * Q96) &&
      (r.Ok? && ceil ==> (r.value - 1) * Q96 < delta <= r.value * Q96)
  {
    var lo, hi := Min(sqrtPriceA, sqrtPriceB), Max(sqrtPriceA, sqrtPriceB);
    ProductNonNegative(liquidity, hi - lo);
    if ceil then SafeMulDivCeil(liquidity, hi - lo, Q96)
    else SafeMulDivFloor(liquidity, hi - lo, Q96)
  }

  /** Flooring twice, by hi and then by lo, floors once by hi * lo. */
  lemma NestedFloor(n: int, hi: int, lo: int, f: int, r: int)
    requires n >= 0 && hi > 0 && lo > 0
    requires f * hi <= n < (f + 1) * hi && r == f / lo
    ensures r * (lo * hi) <= n < (r + 1) * (lo * hi)
  {
    MulOrder(f + 1, 0, hi);
    assert f == r * lo + f % lo;
    MulMonotone(r * lo, f, hi);
    assert r * (lo * hi) == (r * lo) * hi;
    MulMonotone(f + 1, (r + 1) * lo, hi);
    assert (r + 1) * (lo * hi) == ((r + 1) * lo) * hi;
  }

  /** Rounding up twice, by hi and then by lo, rounds up once by hi * lo. */
  lemma NestedCeil(n: int, hi: int, lo: int, c: int, r: int)
    requires n >= 0 && hi > 0 && lo > 0
    requires (c - 1) * hi < n <= c * hi && (r - 1) * lo < c <= r * lo
    ensures (r - 1) * (lo * hi) < n <= r * (lo * hi)
  {
    MulMonotone(c, r * lo, hi);
    assert (r - 1) * lo <= c - 1;
    MulMonotone((r - 1) * lo, c - 1, hi);
  }

  /** For positive prices and non-negative liquidity, the token 0 amount
      rounded down is the floor of L * 2^96 * (hi - lo) / (hi * lo); it fails
      exactly when the first division overflows. */
  lemma Amount0DeltaFloor(sqrtPriceA: int, sqrtPriceB: int, liquidity: int)
    requires sqrtPriceA > 0 && sqrtPriceB > 0 && liquidity >= 0
    ensures var lo, hi := Min(sqrtPriceA, sqrtPriceB), Max(sqrtPriceA, sqrtPriceB);
      var n := liquidity * Q96 * (hi - lo);
      var r := Amount0Delta(sqrtPriceA, sqrtPriceB, liquidity, false);
      (r.Ok? <==> n / hi <= UINT256_MAX) &&
      (r.Ok? ==> r.value * (lo * hi) <= n < (r.value + 1) * (lo * hi))
  {
    var lo, hi := Min(sqrtPriceA, sqrtPriceB), Max(sqrtPriceA, sqrtPriceB);
    var numerator1 := liquidity * Q96;
    var n := numerator1 * (hi - lo);
    ProductNonNegative(numerator1, hi - lo);
    var f := SafeMulDivFloor(numerator1, hi - lo, hi);
    assert f.Ok? <==> n / hi <= UINT256_MAX;
    if f.Ok? {
      NestedFloor(n, hi, lo, f.value, f.value / lo);
    }
  }

  /** Rounded up, the token 0 amount is the ceiling of the same quotient,
      and fails under the same condition. */
  lemma Amount0DeltaCeil(sqrtPriceA: int, sqrtPriceB: int, liquidity: int)
    requires sqrtPriceA > 0 && sqrtPriceB > 0 && liquidity >= 0
    ensures var lo, hi := Min(sqrtPriceA, sqrtPriceB), Max(sqrtPriceA, sqrtPriceB);
      var n := liquidity * Q96 * (hi - lo);
      var r := Amount0Delta(sqrtPriceA, sqrtPriceB, liquidity, true);
      (r.Ok? <==> n / hi <= UINT256_MAX) &&
      (r.Ok? ==> (r.value - 1) * (lo * hi) < n <= r.value * (lo * hi))
  {
    var lo, hi := Min(sqrtPriceA, sqrtPriceB), Max(sqrtPriceA, sqrtPriceB);
    var numerator1 := liquidity * Q96;
    var n := numerator1 * (hi - lo);
    ProductNonNegative(numerator1, hi - lo);
    var c := SafeMulDivCeil(numerator1, hi - lo, hi);
    assert c.Ok? <==> n / hi <= UINT256_MAX;
    if c.Ok? {
      NestedCeil(n, hi, lo, c.value, UnsafeDivCeil(c.value, lo));
    }
  }

  /** The rounded-up token 0 amount succeeds exactly when the rounded-down
      one does, and exceeds it by at most one. */
  lemma Amount0CeilIsFloorOrNext(sqrtPriceA: int, sqrtPriceB: int, liquidity: int)
    requires sqrtPriceA > 0 && sqrtPriceB > 0 && liquidity >= 0
    ensures var lo := Amount0Delta(sqrtPriceA, sqrtPriceB, liquidity, false);
      var hi := Amount0Delta(sqrtPriceA, sqrtPriceB, liquidity, true);
      (lo.Ok? <==> hi.Ok?) && (lo.Ok? ==> lo.value <= hi.value <= lo.value + 1)
  {
    Amount0DeltaFloor(sqrtPriceA, sqrtPriceB, liquidity);
    Amount0DeltaCeil(sqrtPriceA, sqrtPriceB, liquidity);
    var f := Amount0Delta(sqrtPriceA, sqrtPriceB, liquidity, false);
    var c := Amount0Delta(sqrtPriceA, sqrtPriceB, liquidity, true);
    if f.Ok? {
      var d := Min(sqrtPriceA, sqrtPriceB) * Max(sqrtPriceA, sqrtPriceB);
      assert d > 0 by {
        MulOrder(0, Min(sqrtPriceA, sqrtPriceB), Max(sqrtPriceA, sqrtPriceB));
      }
      MulOrder(f.value, c.value, d);
      MulOrder(c.value - 1, f.value + 1, d);
    }
  }

  /** The rounded-up token 1 amount succeeds exactly when the rounded-down
      one does, and exceeds it by at most one. */
  lemma Amount1CeilIsFloorOrNext(sqrtPriceA: int, sqrtPriceB: int, liquidity: int)
    requires liquidity >= 0
    ensures var lo := Amount1Delta(sqrtPriceA, sqrtPriceB, liquidity, false);
      var hi := Amount1Delta(sqrtPriceA, sqrtPriceB, liquidity, true);
      (lo.Ok? <==> hi.Ok?) && (lo.Ok? ==> hi.value == lo.value || hi.value == lo.value + 1)
  {
    var lo, hi := Min(sqrtPriceA, sqrtPriceB), Max(sqrtPriceA, sqrtPriceB);
    ProductNonNegative(liquidity, hi - lo);
    MulDivCeilIsFloorOrNext(liquidity, hi - lo, Q96);
  }

  /** Neither amount depends on the order in which the two prices are given. */
  lemma AmountDeltasSymmetric(sqrtPriceA: int, sqrtPriceB: int, liquidity: int, ceil: bool)
    ensures Amount0Delta(sqrtPriceA, sqrtPriceB, liquidity, ceil) ==
            Amount0Delta(sqrtPriceB, sqrtPriceA, liquidity, ceil)
    ensures Amount1Delta(sqrtPriceA, sqrtPriceB, liquidity, ceil) ==
            Amount1Delta(sqrtPriceB, sqrtPriceA, liquidity, ceil)
  {
    assert Min(sqrtPriceA, sqrtPriceB) == Min(sqrtPriceB, sqrtPriceA);
    assert Max(sqrtPriceA, sqrtPriceB) == Max(sqrtPriceB, sqrtPriceA);
  }

  /** Between positive prices with non-negative liquidity, both amounts are
      never negative, rounded either way. */
  lemma AmountDeltasNonNegative(sqrtPriceA: int, sqrtPriceB: int, liquidity: int, ceil: bool)
    requires sqrtPriceA > 0 && sqrtPriceB > 0 && liquidity >= 0
    ensures var r := Amount0Delta(sqrtPriceA, sqrtPriceB, liquidity, ceil); r.Ok? ==> r.value >= 0
    ensures var r := Amount1Delta(sqrtPriceA, sqrtPriceB, liquidity, ceil); r.Ok? ==> r.value >= 0
  {
    Amount0DeltaNonNegative(sqrtPriceA, sqrtPriceB, liquidity, ceil);
    Amount1DeltaNonNegative(sqrtPriceA, sqrtPriceB, liquidity, ceil);
  }

  lemma Amount0DeltaNonNegative(sqrtPriceA: int, sqrtPriceB: int, liquidity: int, ceil: bool)
    requires sqrtPriceA > 0 && sqrtPriceB > 0 && liquidity >= 0
    ensures var r := Amount0Delta(sqrtPriceA, sqrtPriceB, liquidity, ceil); r.Ok? ==> r.value >= 0
  {
    var lo, hi := Min(sqrtPriceA, sqrtPriceB), Max(sqrtPriceA, sqrtPriceB);
    if ceil {
      CeilNestedNonNegative(liquidity * Q96, hi - lo, hi, lo);
    } else {
      var q := SafeMulDivFloor(liquidity * Q96, hi - lo, hi);
      if q.Ok? {
        QuotOfNonNegative(q.value, lo);
      }
    }
  }

  /** Both divisions of the rounded-up token 0 amount keep it non-negative. */
  lemma CeilNestedNonNegative(n: int, d: int, hi: int, lo: int)
    requires n >= 0 && d >= 0 && hi > 0 && lo > 0
    ensures var q := SafeMulDivCeil(n, d, hi); q.Ok? ==> UnsafeDivCeil(q.value, lo) >= 0
  {
    ProductNonNegative(n, d);
    var q := SafeMulDivCeil(n, d, hi);
    if q.Ok? {
      CeilOfNonNegative(q.value, lo);
    }
  }

  /** Truncating a non-negative value by a positive divisor stays non-negative. */
  lemma QuotOfNonNegative(x: int, d: int)
    requires x >= 0 && d > 0
    ensures Quot(x, d) >= 0
  {
    assert Quot(x, d) == x / d;
  }

  lemma Amount1DeltaNonNegative(sqrtPriceA: int, sqrtPriceB: int, liquidity: int, ceil: bool)
    requires sqrtPriceA > 0 && sqrtPriceB > 0 && liquidity >= 0
    ensures var r := Amount1Delta(sqrtPriceA, sqrtPriceB, liquidity, ceil); r.Ok? ==> r.value >= 0
  {
    var lo, hi := Min(sqrtPriceA, sqrtPriceB), Max(sqrtPriceA, sqrtPriceB);
    ProductNonNegative(liquidity, hi - lo);
  }

  /** Rounding up a non-negative quotient by a positive divisor stays non-negative. */
  lemma CeilOfNonNegative(x: int, d: int)
    requires x >= 0 && d > 0
    ensures UnsafeDivCeil(x, d) >= 0
  {
    var c := UnsafeDivCeil(x, d);
    assert x <= c * d;
    MulOrder(0, c, d);
  }

  /** Between equal prices there is nothing to trade: both amounts are 0,
      rounded either way, for any liquidity (token 0 needs a non-zero price). */
  lemma AmountDeltasAtEqualPrices(sqrtPrice: int, liquidity: int, ceil: bool)
    ensures sqrtPrice != 0 ==> Amount0Delta(sqrtPrice, sqrtPrice, liquidity, ceil) == Ok(0)
    ensures sqrtPrice == 0 ==> Amount0Delta(sqrtPrice, sqrtPrice, liquidity, ceil).Err?
    ensures Amount1Delta(sqrtPrice, sqrtPrice, liquidity, ceil) == Ok(0)
  {
    assert liquidity * 0 == 0 && liquidity * Q96 * 0 == 0;
    if sqrtPrice != 0 {
      assert Quot(0, sqrtPrice) == 0 && Rem(0, sqrtPrice) == 0;
      assert UnsafeDivCeil(0, sqrtPrice) == 0;
    }
    assert Quot(0, Q96) == 0 && Rem(0, Q96) == 0;
  }

  // ---------------------------------------------------------------------
  // Next price after an input or output amount

  /** The sqrt price after `amount` of the input token is added to the pool:
      token 0 when zeroForOne (the price falls), token 1 otherwise (the
      price rises). */
  function NextSqrtPriceFromInput(sqrtPrice: int, liquidity: int, amount: int, zeroForOne: bool): (r: Result<int>)
    ensures sqrtPrice <= 0 ==> r == Err("sqrt price must be positive")
    ensures sqrtPrice > 0 && liquidity <= 0 ==> r == Err("liquidity must be positive")
    ensures sqrtPrice > 0 && liquidity > 0 && zeroForOne && amount == 0 ==> r == Ok(sqrtPrice)
  {
    if sqrtPrice <= 0 then Err("sqrt price must be positive")
    else if liquidity <= 0 then Err("liquidity must be positive")
    else if zeroForOne then PriceAfterToken0In(sqrtPrice, liquidity, amount)
    else PriceAfterToken1In(sqrtPrice, liquidity, amount)
  }

  /** Adding token 0: L * P / (L + amount * P) in Q96 terms, rounded up,
      computed exactly when amount * P and the denominator fit in 256 bits
      and by dividing first otherwise. */
  function PriceAfterToken0In(sqrtPrice: int, liquidity: int, amount: int): (r: Result<int>)
    requires sqrtPrice > 0 && liquidity > 0
  {
    if amount == 0 then Ok(sqrtPrice)
    else
      var numerator1 := liquidity * Q96;
      var product := Uint256(amount * sqrtPrice);
      if Quot(product, amount) == sqrtPrice && Uint256(numerator1 + product) >= numerator1 then
        var denominator := Uint256(numerator1 + product);
        var q :- SafeMulDivCeil(numerator1, sqrtPrice, denominator);
        Ok(Uint160(q))
      else
        var sum :- SafeAdd(Quot(numerator1, sqrtPrice), amount);
        Ok(Uint160(UnsafeDivCeil(numerator1, sum)))
  }

  /** Adding token 1: the price rises by amount * 2^96 / L, rounded down;
      the division is exact-width for a 160-bit amount and checked
      otherwise, and the new price must fit in 160 bits. */
  function PriceAfterToken1In(sqrtPrice: int, liquidity: int, amount: int): (r: Result<int>)
    requires sqrtPrice > 0 && liquidity > 0
  {
    var raw :- if IsUint160(amount) then Ok(Quot(amount * Q96, liquidity))
               else SafeMulDivFloor(amount, Q96, liquidity);
    var sum :- SafeAdd(sqrtPrice, Uint256(raw));
    ToUint160(sum)
  }

  /** The sqrt price after `amount` of the output token leaves the pool:
      token 1 when zeroForOne (the price falls), token 0 otherwise (the
      price rises). */
  function NextSqrtPriceFromOutput(sqrtPrice: int, liquidity: int, amount: int, zeroForOne: bool): (r: Result<int>)
    ensures sqrtPrice <= 0 ==> r == Err("sqrt price must be positive")
    ensures sqrtPrice > 0 && liquidity <= 0 ==> r == Err("liquidity must be positive")
    ensures sqrtPrice > 0 && liquidity > 0 && !zeroForOne && amount == 0 ==> r == Ok(sqrtPrice)
  {
    if sqrtPrice <= 0 then Err("sqrt price must be positive")
    else if liquidity <= 0 then Err("liquidity must be positive")
    else if zeroForOne then PriceAfterToken1Out(sqrtPrice, liquidity, amount)
    else PriceAfterToken0Out(sqrtPrice, liquidity, amount)
  }

  /** Removing token 1: the price falls by amount * 2^96 / L, rounded up,
      and must stay positive. */
  function PriceAfterToken1Out(sqrtPrice: int, liquidity: int, amount: int): (r: Result<int>)
    requires sqrtPrice > 0 && liquidity > 0
  {
    var raw :- if IsUint160(amount) then Ok(UnsafeDivCeil(amount * Q96, liquidity))
               else SafeMulDivCeil(amount, Q96, liquidity);
    var quotient := Uint256(raw);
    if sqrtPrice <= quotient then Err("quotient exceeds sqrt price")
    else Ok(Uint160(sqrtPrice - quotient))
  }

  /** Removing token 0: L * P / (L - amount * P) in Q96 terms, rounded up;
      fails when amount * P wraps or reaches L * 2^96. */
  function PriceAfterToken0Out(sqrtPrice: int, liquidity: int, amount: int): (r: Result<int>)
    requires sqrtPrice > 0 && liquidity > 0
  {
    if amount == 0 then Ok(sqrtPrice)
    else
      var numerator1 := liquidity * Q96;
      var product := Uint256(amount * sqrtPrice);
      if Quot(product, amount) != sqrtPrice || numerator1 <= product then
        Err("product overflows uint256")
      else
        var q :- SafeMulDivCeil(numerator1, sqrtPrice, numerator1 - product);
        ToUint160(q)
  }

  /** The source's overflow test for amount * P: dividing the truncated
      product by amount gives back P exactly when the product fits. */
  lemma ProductCheckExact(amount: int, sqrtPrice: int)
    requires amount > 0 && sqrtPrice > 0
    ensures Quot(Uint256(amount * sqrtPrice), amount) == sqrtPrice <==>
            amount * sqrtPrice <= UINT256_MAX
  {
    var x := amount * sqrtPrice;
    MulOrder(1, sqrtPrice, amount);
    var w := Uint256(x);
    if x <= UINT256_MAX {
      WrapIdentityOnDomain(x);
      MultipleDiv(sqrtPrice, amount);
    } else {
      assert w < x;
      DivMonotone(w, x - 1, amount);
      assert (sqrtPrice - 1) * amount == x - amount;
      DivUnique(x - 1, amount, sqrtPrice - 1);
    }
  }

  /** The source's overflow test for n + product: the truncated sum is at
      least n exactly when the sum fits. */
  lemma DenominatorCheckExact(n: int, product: int)
    requires n >= 0 && IsUint256(product)
    ensures Uint256(n + product) >= n <==> n + product <= UINT256_MAX
  {
    if n + product <= UINT256_MAX {
      WrapIdentityOnDomain(n + product);
    } else if n <= UINT256_MAX {
      Uint256Unique(n + product, n + product - (UINT256_MAX + 1));
    }
  }

  /** Dividing a non-negative value by a positive one never makes it larger. */
  lemma DivNoLarger(x: int, d: int)
    requires x >= 0 && d > 0
    ensures 0 <= x / d <= x
  {
    MulMonotone(1, d, x / d);
  }

  /** Adding token 0 takes the exact path when L * 2^96 + amount * P fits
      in 256 bits: the new price is the checked ceiling of
      L * 2^96 * P / (L * 2^96 + amount * P), wrapped to 160 bits. */
  lemma Token0InExactPath(sqrtPrice: int, liquidity: int, amount: int)
    requires sqrtPrice > 0 && liquidity > 0 && amount > 0
    requires liquidity * Q96 + amount * sqrtPrice <= UINT256_MAX
    ensures var n := liquidity * Q96;
      var r := NextSqrtPriceFromInput(sqrtPrice, liquidity, amount, true);
      var exact := SafeMulDivCeil(n, sqrtPrice, n + amount * sqrtPrice);
      (r.Ok? <==> exact.Ok?) && (r.Ok? ==> r.value == Uint160(exact.value))
  {
    var n := liquidity * Q96;
    var product := amount * sqrtPrice;
    MulOrder(1, liquidity, Q96);
    MulOrder(1, sqrtPrice, amount);
    assert product <= UINT256_MAX;
    ProductCheckExact(amount, sqrtPrice);
    WrapIdentityOnDomain(product);
    DenominatorCheckExact(n, product);
    WrapIdentityOnDomain(n + product);
    assert NextSqrtPriceFromInput(sqrtPrice, liquidity, amount, true) ==
           PriceAfterToken0In(sqrtPrice, liquidity, amount);
  }

  /** Otherwise adding token 0 divides first: the new price is
      L * 2^96 / (L * 2^96 / P + amount) rounded up, provided the sum fits. */
  lemma Token0InFallbackPath(sqrtPrice: int, liquidity: int, amount: int)
    requires sqrtPrice > 0 && liquidity > 0 && amount > 0
    requires liquidity * Q96 + amount * sqrtPrice > UINT256_MAX
    ensures var n := liquidity * Q96;
      var r := NextSqrtPriceFromInput(sqrtPrice, liquidity, amount, true);
      var sum := SafeAdd(n / sqrtPrice, amount);
      (r.Ok? <==> sum.Ok?) && (r.Ok? ==> r.value == Uint160(UnsafeDivCeil(n, sum.value)))
  {
    var n := liquidity * Q96;
    var product := amount * sqrtPrice;
    MulOrder(1, liquidity, Q96);
    MulOrder(1, sqrtPrice, amount);
    ProductCheckExact(amount, sqrtPrice);
    if product <= UINT256_MAX {
      WrapIdentityOnDomain(product);
      DenominatorCheckExact(n, product);
    }
    assert Quot(n, sqrtPrice) == n / sqrtPrice;
    assert NextSqrtPriceFromInput(sqrtPrice, liquidity, amount, true) ==
           PriceAfterToken0In(sqrtPrice, liquidity, amount);
  }

  /** The exact quotient L * 2^96 * P / d, rounded up, is at most P when
      d >= L * 2^96, and it cannot overflow when P fits. */
  lemma ExactQuotientAtMostPrice(n: int, sqrtPrice: int, d: int)
    requires n >= 0 && sqrtPrice > 0 && d >= n && d > 0
    ensures var c := SafeMulDivCeil(n, sqrtPrice, d);
      (IsUint256(sqrtPrice) ==> c.Ok?) && (c.Ok? ==> 0 <= c.value <= sqrtPrice)
  {
    ProductNonNegative(n, sqrtPrice);
    MulMonotone(n, d, sqrtPrice);
    DivMonotone(n * sqrtPrice, sqrtPrice * d, d);
    MultipleDiv(sqrtPrice, d);
    var c := SafeMulDivCeil(n, sqrtPrice, d);
    if c.Ok? {
      MulOrder(c.value - 1, sqrtPrice - 1, d);
    }
  }

  /** The divide-first quotient L * 2^96 / (L * 2^96 / P + amount), rounded
      up, is at most P for any positive amount. */
  lemma FallbackQuotientAtMostPrice(n: int, sqrtPrice: int, amount: int)
    requires n >= 0 && sqrtPrice > 0 && amount > 0
    ensures var sum := n / sqrtPrice + amount;
      sum > 0 && 0 <= UnsafeDivCeil(n, sum) <= sqrtPrice
  {
    var q := n / sqrtPrice;
    var sum := q + amount;
    DivNoLarger(n, sqrtPrice);
    assert n < (q + 1) * sqrtPrice by {
      assert n == q * sqrtPrice + n % sqrtPrice;
    }
    MulMonotone(q + 1, sum, sqrtPrice);
    CeilBelowBound(n, sum, sqrtPrice);
    CeilOfNonNegative(n, sum);
  }

  /** A dividend below m * bound rounds up to at most bound. */
  lemma CeilBelowBound(n: int, m: int, bound: int)
    requires n >= 0 && m > 0 && n < m * bound
    ensures UnsafeDivCeil(n, m) <= bound
  {
    var c := UnsafeDivCeil(n, m);
    assert (c - 1) * m < bound * m;
    MulOrder(bound, c - 1, m);
  }

  /** Adding token 0 on the exact path: when L * 2^96 + amount * P fits in
      256 bits, the new price is the ceiling of
      L * 2^96 * P / (L * 2^96 + amount * P). */
  lemma Token0InExact(sqrtPrice: int, liquidity: int, amount: int)
    requires sqrtPrice > 0 && liquidity > 0 && amount > 0 && IsUint160(sqrtPrice)
    requires liquidity * Q96 + amount * sqrtPrice <= UINT256_MAX
    ensures var n, d := liquidity * Q96, liquidity * Q96 + amount * sqrtPrice;
      var r := NextSqrtPriceFromInput(sqrtPrice, liquidity, amount, true);
      r.Ok? && (r.value - 1) * d < n * sqrtPrice <= r.value * d
  {
    var n := liquidity * Q96;
    var d := n + amount * sqrtPrice;
    Token0InExactPath(sqrtPrice, liquidity, amount);
    MulOrder(1, liquidity, Q96);
    MulOrder(1, sqrtPrice, amount);
    WrappedCeilQuotient(n, sqrtPrice, d, NextSqrtPriceFromInput(sqrtPrice, liquidity, amount, true));
  }

  /** A result that is the checked ceiling of x * P / d wrapped to 160 bits,
      with d >= x and P in uint160, is that ceiling itself. */
  lemma WrappedCeilQuotient(x: int, sqrtPrice: int, d: int, r: Result<int>)
    requires x >= 0 && sqrtPrice > 0 && d >= x && d > 0 && IsUint160(sqrtPrice)
    requires r.Ok? <==> SafeMulDivCeil(x, sqrtPrice, d).Ok?
    requires r.Ok? ==> r.value == Uint160(SafeMulDivCeil(x, sqrtPrice, d).value)
    ensures r.Ok? && (r.value - 1) * d < x * sqrtPrice <= r.value * d
  {
    var c := SafeMulDivCeil(x, sqrtPrice, d);
    ExactQuotientAtMostPrice(x, sqrtPrice, d);
    WrapIdentityOnDomain(c.value);
    ProductNonNegative(x, sqrtPrice);
  }

  /** Adding token 0 on the divide-first path, taken when
      L * 2^96 + amount * P overflows: the new price is the ceiling of
      L * 2^96 / (L * 2^96 / P + amount), provided that sum fits. */
  lemma Token0InFallback(sqrtPrice: int, liquidity: int, amount: int)
    requires sqrtPrice > 0 && liquidity > 0 && amount > 0 && IsUint160(sqrtPrice)
    requires liquidity * Q96 + amount * sqrtPrice > UINT256_MAX
    ensures var n := liquidity * Q96;
      var sum := n / sqrtPrice + amount;
      var r := NextSqrtPriceFromInput(sqrtPrice, liquidity, amount, true);
      (r.Ok? <==> sum <= UINT256_MAX) &&
      (r.Ok? ==> r.value <= sqrtPrice && (r.value - 1) * sum < n <= r.value * sum)
  {
    var n := liquidity * Q96;
    Token0InFallbackPath(sqrtPrice, liquidity, amount);
    MulOrder(1, liquidity, Q96);
    WrappedFallbackQuotient(n, sqrtPrice, amount, NextSqrtPriceFromInput(sqrtPrice, liquidity, amount, true));
  }

  /** A result that is the divide-first ceiling wrapped to 160 bits, with P
      in uint160, is that ceiling itself and at most P. */
  lemma WrappedFallbackQuotient(n: int, sqrtPrice: int, amount: int, r: Result<int>)
    requires n >= 0 && sqrtPrice > 0 && amount > 0 && IsUint160(sqrtPrice)
    requires r.Ok? <==> SafeAdd(n / sqrtPrice, amount).Ok?
    requires r.Ok? ==> r.value == Uint160(UnsafeDivCeil(n, SafeAdd(n / sqrtPrice, amount).value))
    ensures var sum := n / sqrtPrice + amount;
      (r.Ok? <==> sum <= UINT256_MAX) &&
      (r.Ok? ==> r.value <= sqrtPrice && (r.value - 1) * sum < n <= r.value * sum)
  {
    var sum := n / sqrtPrice + amount;
    FallbackQuotientAtMostPrice(n, sqrtPrice, amount);
    WrapIdentityOnDomain(UnsafeDivCeil(n, sum));
  }

  /** Adding token 0 never raises the price, on either path. */
  lemma Token0InNeverRaisesPrice(sqrtPrice: int, liquidity: int, amount: int)
    requires sqrtPrice > 0 && liquidity > 0 && amount >= 0
    ensures var r := NextSqrtPriceFromInput(sqrtPrice, liquidity, amount, true);
      r.Ok? ==> 0 <= r.value <= sqrtPrice
  {
    if amount > 0 {
      var n := liquidity * Q96;
      var d := n + amount * sqrtPrice;
      var r := NextSqrtPriceFromInput(sqrtPrice, liquidity, amount, true);
      MulOrder(1, liquidity, Q96);
      MulOrder(1, sqrtPrice, amount);
      if d <= UINT256_MAX {
        Token0InExactPath(sqrtPrice, liquidity, amount);
        var c := SafeMulDivCeil(n, sqrtPrice, d);
        assert r.Ok? ==> c.Ok? && r.value == Uint160(c.value);
        ExactQuotientAtMostPrice(n, sqrtPrice, d);
        if c.Ok? {
          WrapNeverGrows(c.value);
        }
      } else {
        Token0InFallbackPath(sqrtPrice, liquidity, amount);
        var c := UnsafeDivCeil(n, n / sqrtPrice + amount);
        assert r.Ok? ==> r.value == Uint160(c);
        FallbackQuotientAtMostPrice(n, sqrtPrice, amount);
        WrapNeverGrows(c);
      }
    }
  }

  /** Adding token 1 raises the price by exactly amount * 2^96 / L, rounded
      down, and fails exactly when the new price leaves uint160. */
  lemma Token1InExact(sqrtPrice: int, liquidity: int, amount: int)
    requires sqrtPrice > 0 && liquidity > 0 && amount >= 0
    ensures var q := amount * Q96 / liquidity;
      var r := NextSqrtPriceFromInput(sqrtPrice, liquidity, amount, false);
      (r.Ok? <==> sqrtPrice + q <= UINT160_MAX) && (r.Ok? ==> r.value == sqrtPrice + q)
  {
    Token1InQuotient(liquidity, amount);
    assert NextSqrtPriceFromInput(sqrtPrice, liquidity, amount, false) ==
           PriceAfterToken1In(sqrtPrice, liquidity, amount);
  }

  /** The quotient amount * 2^96 / L of a token 1 input, exact-width for a
      160-bit amount and checked otherwise, fails exactly when it leaves
      uint256. */
  lemma Token1InQuotient(liquidity: int, amount: int)
    requires liquidity > 0 && amount >= 0
    ensures var x := amount * Q96;
      var raw := if IsUint160(amount) then Ok(Quot(x, liquidity))
                 else SafeMulDivFloor(amount, Q96, liquidity);
      (raw.Ok? <==> x / liquidity <= UINT256_MAX) &&
      (raw.Ok? ==> raw.value == x / liquidity && Uint256(raw.value) == raw.value)
  {
    var x := amount * Q96;
    ProductNonNegative(amount, Q96);
    DivNoLarger(x, liquidity);
    if IsUint160(amount) {
      MulMonotone(amount, UINT160_MAX, Q96);
    }
    if x / liquidity <= UINT256_MAX {
      WrapIdentityOnDomain(x / liquidity);
    }
  }

  /** With a 256-bit amount the rounded-up quotient amount * 2^96 / L never
      reaches 2^256 once the rounded-down one fits: that would need a
      multiple of 2^96 strictly between -2^96 and 0. */
  lemma CeilQuotientFits(amount: int, liquidity: int)
    requires IsUint256(amount) && liquidity > 0 && amount * Q96 / liquidity <= UINT256_MAX
    ensures SafeMulDivCeil(amount, Q96, liquidity).Ok?
    ensures SafeMulDivCeil(amount, Q96, liquidity).value <= UINT256_MAX
  {
    var x := amount * Q96;
    ProductNonNegative(amount, Q96);
    var f := x / liquidity;
    var s := x % liquidity;
    assert x == f * liquidity + s;
    if f == UINT256_MAX {
      // Then L - s is a positive multiple of 2^96 no larger than L <= 2^96,
      // so the remainder s is 0.
      var k := 0x10000000000000000000000000000000000000000 * liquidity - amount;
      assert liquidity - s == Q96 * k;
      assert liquidity <= Q96;
    }
  }

  /** The amount-to-price quotient of a token 1 output, amount * 2^96 / L
      rounded up: exact for a 160-bit amount, checked otherwise; either way
      it fails only when it leaves uint256. */
  lemma Token1OutQuotient(liquidity: int, amount: int)
    requires liquidity > 0 && IsUint256(amount)
    ensures var x := amount * Q96;
      var raw := if IsUint160(amount) then Ok(UnsafeDivCeil(x, liquidity))
                 else SafeMulDivCeil(amount, Q96, liquidity);
      x >= 0 && (raw.Err? <==> x / liquidity > UINT256_MAX) &&
      (raw.Ok? ==> IsUint256(raw.value) && (raw.value - 1) * liquidity < x <= raw.value * liquidity)
  {
    var x := amount * Q96;
    ProductNonNegative(amount, Q96);
    DivNoLarger(x, liquidity);
    if IsUint160(amount) {
      var c := UnsafeDivCeil(x, liquidity);
      MulMonotone(amount, UINT160_MAX, Q96);
      MulOrder(c, 0, liquidity);
      if c >= 1 {
        MulMonotone(1, liquidity, c - 1);
      }
    } else if x / liquidity <= UINT256_MAX {
      CeilQuotientFits(amount, liquidity);
    }
  }

  /** Removing token 1 lowers the price by amount * 2^96 / L rounded up; it
      fails exactly when that reaches the price. */
  lemma Token1OutExact(sqrtPrice: int, liquidity: int, amount: int)
    requires IsUint160(sqrtPrice) && sqrtPrice > 0 && liquidity > 0 && IsUint256(amount)
    ensures var r := NextSqrtPriceFromOutput(sqrtPrice, liquidity, amount, true);
      (r.Err? <==> amount * Q96 > (sqrtPrice - 1) * liquidity) &&
      (r.Ok? ==> (sqrtPrice - r.value - 1) * liquidity < amount * Q96 <= (sqrtPrice - r.value) * liquidity) &&
      (r.Ok? ==> 0 < r.value <= sqrtPrice && (amount > 0 ==> r.value < sqrtPrice))
  {
    var x := amount * Q96;
    Token1OutQuotient(liquidity, amount);
    var raw := if IsUint160(amount) then Ok(UnsafeDivCeil(x, liquidity))
               else SafeMulDivCeil(amount, Q96, liquidity);
    var r := NextSqrtPriceFromOutput(sqrtPrice, liquidity, amount, true);
    assert r == PriceAfterToken1Out(sqrtPrice, liquidity, amount);
    if raw.Ok? {
      var c := raw.value;
      QuotientAgainstPrice(x, liquidity, c, sqrtPrice);
      assert r == if sqrtPrice <= c then Err("quotient exceeds sqrt price") else Ok(sqrtPrice - c);
      MulOrder(0, amount, Q96);
    } else {
      assert r.Err?;
      QuotientOverflowExceedsPrice(x, liquidity, sqrtPrice);
    }
  }

  /** A quotient x / L beyond uint256 is beyond any uint160 price. */
  lemma QuotientOverflowExceedsPrice(x: int, liquidity: int, sqrtPrice: int)
    requires x >= 0 && liquidity > 0 && IsUint160(sqrtPrice) && x / liquidity > UINT256_MAX
    ensures x > (sqrtPrice - 1) * liquidity
  {
    QuotientAbove(x, liquidity, UINT256_MAX + 1, sqrtPrice - 1);
  }

  /** A rounded-up quotient c of x by L is at least P exactly when
      x > (P - 1) * L; below P, P - c is the new price. */
  lemma QuotientAgainstPrice(x: int, liquidity: int, c: int, sqrtPrice: int)
    requires x >= 0 && liquidity > 0 && IsUint256(c) && IsUint160(sqrtPrice) && sqrtPrice > 0
    requires (c - 1) * liquidity < x <= c * liquidity
    ensures Uint256(c) == c
    ensures sqrtPrice <= c <==> x > (sqrtPrice - 1) * liquidity
    ensures c < sqrtPrice ==> Uint160(sqrtPrice - c) == sqrtPrice - c
    ensures x > 0 ==> c > 0
  {
    WrapIdentityOnDomain(c);
    WrapIdentityOnDomain(sqrtPrice - c);
    MulOrder(sqrtPrice - 1, c - 1, liquidity);
    MulOrder(c, sqrtPrice - 1, liquidity);
    MulOrder(c, 0, liquidity);
  }

  /** Removing token 0 fails with "product overflows uint256" when
      amount * P overflows or reaches L * 2^96. */
  lemma Token0OutFails(sqrtPrice: int, liquidity: int, amount: int)
    requires sqrtPrice > 0 && liquidity > 0 && amount > 0
    requires amount * sqrtPrice > UINT256_MAX || liquidity * Q96 <= amount * sqrtPrice
    ensures NextSqrtPriceFromOutput(sqrtPrice, liquidity, amount, false) ==
            Err("product overflows uint256")
  {
    ProductCheckExact(amount, sqrtPrice);
    if amount * sqrtPrice <= UINT256_MAX {
      WrapIdentityOnDomain(amount * sqrtPrice);
    }
  }

  /** Otherwise the new price after removing token 0 is the ceiling of
      L * 2^96 * P / (L * 2^96 - amount * P), strictly above the old one. */
  lemma Token0OutExact(sqrtPrice: int, liquidity: int, amount: int)
    requires sqrtPrice > 0 && liquidity > 0 && amount > 0
    ensures var n, d := liquidity * Q96, liquidity * Q96 - amount * sqrtPrice;
      var r := NextSqrtPriceFromOutput(sqrtPrice, liquidity, amount, false);
      r.Ok? ==> sqrtPrice < r.value && (r.value - 1) * d < n * sqrtPrice <= r.value * d
  {
    var n := liquidity * Q96;
    var product := amount * sqrtPrice;
    var r := NextSqrtPriceFromOutput(sqrtPrice, liquidity, amount, false);
    if product > UINT256_MAX || n <= product {
      Token0OutFails(sqrtPrice, liquidity, amount);
    } else {
      ProductCheckExact(amount, sqrtPrice);
      WrapIdentityOnDomain(product);
      MulOrder(1, sqrtPrice, amount);
      var d := n - product;
      var c := SafeMulDivCeil(n, sqrtPrice, d);
      assert r == PriceAfterToken0Out(sqrtPrice, liquidity, amount);
      assert r.Ok? ==> c.Ok? && r.value == c.value;
      if c.Ok? {
        ProductNonNegative(n, sqrtPrice);
        CeilAboveWhenShrinking(n, sqrtPrice, d, c.value);
      }
    }
  }

  /** Dividing n * P by a d below n and rounding up gives more than P. */
  lemma CeilAboveWhenShrinking(n: int, sqrtPrice: int, d: int, c: int)
    requires 0 < d < n && sqrtPrice > 0 && n * sqrtPrice <= c * d
    ensures sqrtPrice < c
  {
    MulOrder(n, d, sqrtPrice);
    MulOrder(c, sqrtPrice, d);
  }

  /** Adding token 1 raises the price by at most amount * 2^96 / L. */
  lemma Token1InUpperBound(sqrtPrice: int, liquidity: int, amount: int)
    requires sqrtPrice > 0 && liquidity > 0 && amount >= 0
    ensures var r := NextSqrtPriceFromInput(sqrtPrice, liquidity, amount, false);
      r.Ok? ==> sqrtPrice <= r.value && (r.value - sqrtPrice) * liquidity <= amount * Q96
  {
    var r := NextSqrtPriceFromInput(sqrtPrice, liquidity, amount, false);
    Token1InExact(sqrtPrice, liquidity, amount);
    if r.Ok? {
      var x := amount * Q96;
      ProductNonNegative(amount, Q96);
      FloorBelow(x, liquidity);
      assert r.value - sqrtPrice == x / liquidity;
    }
  }

  /** The rounded-down quotient of a non-negative x by d, times d, is
      between 0 and x. */
  lemma FloorBelow(x: int, d: int)
    requires x >= 0 && d > 0
    ensures 0 <= x / d && (x / d) * d <= x
  {
    assert x == (x / d) * d + x % d;
  }

  /** On either path, adding token 0 lowers the price to some P' that is
      still at least the exact L * 2^96 * P / (L * 2^96 + amount * P). */
  lemma Token0InLowerBound(sqrtPrice: int, liquidity: int, amount: int)
    requires IsUint160(sqrtPrice) && sqrtPrice > 0 && liquidity > 0 && amount >= 0
    ensures var n := liquidity * Q96;
      var r := NextSqrtPriceFromInput(sqrtPrice, liquidity, amount, true);
      r.Ok? ==> 0 < r.value <= sqrtPrice && n * sqrtPrice <= r.value * (n + amount * sqrtPrice)
  {
    var n := liquidity * Q96;
    var d := n + amount * sqrtPrice;
    var r := NextSqrtPriceFromInput(sqrtPrice, liquidity, amount, true);
    Token0InNeverRaisesPrice(sqrtPrice, liquidity, amount);
    Token0InProductBound(sqrtPrice, liquidity, amount);
    if r.Ok? {
      MulAtLeast(liquidity, Q96);
      MulAtLeast(n, sqrtPrice);
      ProductNonNegative(amount, sqrtPrice);
      PositiveFactor(n * sqrtPrice, r.value, d);
    }
  }

  /** The product form of that bound, path by path. */
  lemma Token0InProductBound(sqrtPrice: int, liquidity: int, amount: int)
    requires IsUint160(sqrtPrice) && sqrtPrice > 0 && liquidity > 0 && amount >= 0
    ensures var n := liquidity * Q96;
      var r := NextSqrtPriceFromInput(sqrtPrice, liquidity, amount, true);
      r.Ok? ==> n * sqrtPrice <= r.value * (n + amount * sqrtPrice)
  {
    var n := liquidity * Q96;
    var r := NextSqrtPriceFromInput(sqrtPrice, liquidity, amount, true);
    if r.Ok? {
      if amount == 0 {
        assert r.value == sqrtPrice;
      } else if n + amount * sqrtPrice <= UINT256_MAX {
        Token0InExact(sqrtPrice, liquidity, amount);
      } else {
        Token0InFallback(sqrtPrice, liquidity, amount);
        MulAtLeast(liquidity, Q96);
        FallbackAboveExact(n, sqrtPrice, amount, r.value);
      }
    }
  }

  /** A ceiling of n / (n / P + amount) is never below n * P / (n + amount * P). */
  lemma FallbackAboveExact(n: int, sqrtPrice: int, amount: int, c: int)
    requires n > 0 && sqrtPrice > 0 && amount > 0 && c >= 0
    requires n <= c * (n / sqrtPrice + amount)
    ensures n * sqrtPrice <= c * (n + amount * sqrtPrice)
  {
    var sum := n / sqrtPrice + amount;
    assert n == (n / sqrtPrice) * sqrtPrice + n % sqrtPrice;
    assert sum * sqrtPrice <= n + amount * sqrtPrice;
    MulMonotone(n, c * sum, sqrtPrice);
    MulMonotone(sum * sqrtPrice, n + amount * sqrtPrice, c);
  }

  /** A positive product bounded by c * d with d > 0 makes c positive. */
  lemma PositiveFactor(x: int, c: int, d: int)
    requires 0 < d && x <= c * d
    ensures x > 0 ==> c > 0
  {
    MulOrder(c, 0, d);
  }
}
