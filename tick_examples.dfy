/** Values of the tick conversions at the ends of the tick range and at
    price 1, worked out step by step: each assertion is one turn of a fold. */
module TickExamples {
  import opened Results
  import opened IntOps
  import opened Evm
  import opened Tick

  /** Tick 0 is price 1: no bit of |tick| is set, so the accumulator stays
      at 2^128, which is 2^96 in Q64.96. */
  lemma SqrtPriceAtTickZero()
    ensures SqrtPriceAtTick(0) == Ok(Q96)
  {
    assert Abs(0) == 0;
    assert RatioAfter(0, 0) == 340282366920938463463374607431768211456;
    assert RatioAfter(0, 1) == 340282366920938463463374607431768211456;
    assert RatioAfter(0, 2) == 340282366920938463463374607431768211456;
    assert RatioAfter(0, 3) == 340282366920938463463374607431768211456;
    assert RatioAfter(0, 4) == 340282366920938463463374607431768211456;
    assert RatioAfter(0, 5) == 340282366920938463463374607431768211456;
    assert RatioAfter(0, 6) == 340282366920938463463374607431768211456;
    assert RatioAfter(0, 7) == 340282366920938463463374607431768211456;
    assert RatioAfter(0, 8) == 340282366920938463463374607431768211456;
    assert RatioAfter(0, 9) == 340282366920938463463374607431768211456;
    assert RatioAfter(0, 10) == 340282366920938463463374607431768211456;
    assert RatioAfter(0, 11) == 340282366920938463463374607431768211456;
    assert RatioAfter(0, 12) == 340282366920938463463374607431768211456;
    assert RatioAfter(0, 13) == 340282366920938463463374607431768211456;
    assert RatioAfter(0, 14) == 340282366920938463463374607431768211456;
    assert RatioAfter(0, 15) == 340282366920938463463374607431768211456;
    assert RatioAfter(0, 16) == 340282366920938463463374607431768211456;
    assert RatioAfter(0, 17) == 340282366920938463463374607431768211456;
    assert RatioAfter(0, 18) == 340282366920938463463374607431768211456;
    assert RatioAfter(0, 19) == 340282366920938463463374607431768211456;
  }

  /** The bits of |TICK_MIN| = |TICK_MAX| = 887272: 3, 5, 6, 7, 8, 11, 15, 16, 18 and 19. */
  lemma TickBoundBits()
    ensures Bit(887272, 3) && Bit(887272, 5) && Bit(887272, 6) && Bit(887272, 7) && Bit(887272, 8) && Bit(887272, 11) && Bit(887272, 15) && Bit(887272, 16) && Bit(887272, 18) && Bit(887272, 19)
    ensures !Bit(887272, 0) && !Bit(887272, 1) && !Bit(887272, 2) && !Bit(887272, 4) && !Bit(887272, 9) && !Bit(887272, 10) && !Bit(887272, 12) && !Bit(887272, 13) && !Bit(887272, 14) && !Bit(887272, 17)
  {
    assert Pow2(0) == 1 && Pow2(1) == 2 && Pow2(2) == 4 && Pow2(3) == 8 && Pow2(4) == 16;
    assert Pow2(5) == 32 && Pow2(6) == 64 && Pow2(7) == 128 && Pow2(8) == 256 && Pow2(9) == 512;
    assert Pow2(10) == 1024 && Pow2(11) == 2048 && Pow2(12) == 4096 && Pow2(13) == 8192;
    assert Pow2(14) == 16384 && Pow2(15) == 32768 && Pow2(16) == 65536;
    assert Pow2(17) == 131072 && Pow2(18) == 262144 && Pow2(19) == 524288;
  }

  /** The accumulator for |tick| = 887272 after 5 of the 19 factors. */
  lemma RatioAtTickBound5(absTick: nat)
    requires absTick == 887272
    ensures RatioAfter(absTick, 5) == 339602516256333450911508783463471979131
  {
    TickBoundBits();
    assert RatioAfter(absTick, 0) == 340282366920938463463374607431768211456;
    assert RatioAfter(absTick, 1) == 340282366920938463463374607431768211456;
    assert RatioAfter(absTick, 2) == 340282366920938463463374607431768211456;
    assert RatioAfter(absTick, 3) == 340146287995602323631171512101879684304;
    assert RatioAfter(absTick, 4) == 340146287995602323631171512101879684304;
    assert RatioAfter(absTick, 5) == 339602516256333450911508783463471979131;
  }

  /** The accumulator for |tick| = 887272 after 10 of the 19 factors. */
  lemma RatioAtTickBound10(absTick: nat)
    requires absTick == 887272
    ensures RatioAfter(absTick, 10) == 332080358666931741096696533686537939851
  {
    TickBoundBits();
    RatioAtTickBound5(absTick);
    assert RatioAfter(absTick, 6) == 338517579275194439321187592667164221528;
    assert RatioAfter(absTick, 7) == 336358092468829139771578271041138980598;
    assert RatioAfter(absTick, 8) == 332080358666931741096696533686537939851;
    assert RatioAfter(absTick, 9) == 332080358666931741096696533686537939851;
    assert RatioAfter(absTick, 10) == 332080358666931741096696533686537939851;
  }

  /** The accumulator for |tick| = 887272 after 15 of the 19 factors. */
  lemma RatioAtTickBound15(absTick: nat)
    requires absTick == 887272
    ensures RatioAfter(absTick, 15) == 58245335850494778643666308752178602959
  {
    TickBoundBits();
    RatioAtTickBound10(absTick);
    assert RatioAfter(absTick, 11) == 299759984706031786325544380651874553391;
    assert RatioAfter(absTick, 12) == 299759984706031786325544380651874553391;
    assert RatioAfter(absTick, 13) == 299759984706031786325544380651874553391;
    assert RatioAfter(absTick, 14) == 299759984706031786325544380651874553391;
    assert RatioAfter(absTick, 15) == 58245335850494778643666308752178602959;
  }

  /** The accumulator for |tick| = 887272 after 19 of the 19 factors. */
  lemma RatioAtTickBound19(absTick: nat)
    requires absTick == 887272
    ensures RatioAfter(absTick, 19) == 18447437462383981825
  {
    TickBoundBits();
    RatioAtTickBound15(absTick);
    assert RatioAfter(absTick, 16) == 2199055273679667890264176287186730611;
    assert RatioAfter(absTick, 17) == 2199055273679667890264176287186730611;
    assert RatioAfter(absTick, 18) == 4468236096036213022677869620526;
    assert RatioAfter(absTick, 19) == 18447437462383981825;
  }

  /** The least tick maps to the least sqrt price. */
  lemma SqrtPriceAtTickMin(tick: int)
    requires tick == TICK_MIN
    ensures SqrtPriceAtTick(tick) == Ok(SQRT_RATIO_MIN)
  {
    assert Abs(tick) == 887272;
    RatioAtTickBound19(Abs(tick));
    var ratio := 18447437462383981825;
    assert ratio / Q32 == 4295128738 && ratio % Q32 == 564229377;
    assert Uint160(SQRT_RATIO_MIN) == SQRT_RATIO_MIN;
  }

  /** The greatest tick maps to the greatest sqrt price: the same
      accumulator, inverted. */
  lemma SqrtPriceAtTickMax()
    ensures SqrtPriceAtTick(TICK_MAX) == Ok(SQRT_RATIO_MAX)
  {
    assert Abs(TICK_MAX) == 887272;
    RatioAtTickBound19(887272);
    var inverted := UINT256_MAX / 18447437462383981825;
    assert inverted == 6276865796315986613307619852238232712866172378830071145882;
    assert inverted / Q32 == 1461446703485210103287273052203988822378723970341;
    assert inverted % Q32 == 4202177946;
    assert Uint160(SQRT_RATIO_MAX) == SQRT_RATIO_MAX;
  }

  /** The mantissa 1.0 squares to itself, so the squaring loop adds no bit. */
  lemma {:induction false} Log2FromOne(log2: int, j: nat)
    requires j <= 14
    ensures Log2From(Q127, log2, j) == log2
    decreases 14 - j
  {
    if j < 14 {
      assert SquareStep(Q127) == (Q127, 0);
      Log2FromOne(log2, j + 1);
    }
  }

  /** At price 1 the log is 0: the top bit of 2^128 is bit 128 and the
      mantissa is exactly 1.0. The price is passed as a parameter so that
      the verifier evaluates the folds one step at a time instead of all
      at once. */
  lemma Log2AtPriceOne(sqrtPrice: int)
    requires sqrtPrice == Q96
    ensures Log2Fixed(sqrtPrice) == 0
  {
    var ratio := sqrtPrice * Q32;
    assert ratio == Q128;
    assert Msb(ratio) == 128;
    assert Normalize(ratio, 128) == Q127;
    Log2FromOne(0, 0);
  }

  /** At price 1 the candidates are -1 and 0. */
  lemma CandidatesAtPriceOne(sqrtPrice: int)
    requires sqrtPrice == Q96
    ensures TickLow(sqrtPrice) == -1 && TickHigh(sqrtPrice) == 0
  {
    Log2AtPriceOne(sqrtPrice);
    DivUnique(-TICK_LOW_OFFSET, Q128, -1);
    DivUnique(TICK_HIGH_OFFSET, Q128, 0);
  }

  /** Price 1 (2^96 in Q64.96) is tick 0: tick 0's own price equals the
      input, so the upper candidate is chosen. */
  lemma TickAtSqrtPriceOne()
    ensures TickAtSqrtPrice(Q96) == Ok(0)
  {
    CandidatesAtPriceOne(Q96);
    SqrtPriceAtTickZero();
  }

  /** A squaring that stays below 2 sets no bit of the log. */
  lemma QuietStep(r: int, r': int, log2: int, j: nat, j': nat)
    requires j < 14 && j' == j + 1 && r * r / Q127 == r' && 0 <= r' < Q128
    ensures Log2From(r, log2, j) == Log2From(r', log2, j')
  {
    assert SquareStep(r) == (r', 0) by {
      assert r' / Q128 == 0;
      assert Pow2(0) == 1;
    }
  }

  // The mantissas of the least price through the squaring loop, from
  // 170147578876589626920414360973871153152 (just above 2^127) on: each
  // square stays below 2, so no fractional bit of the log is set.

  /** The squarings from step 12 on at the least price. */
  lemma QuietSquaringsFrom12(base: int)
    ensures Log2From(198460429449968235707380357196012301073, base, 12) == base
  {
    assert Log2From(314968671902087479629947513461521130666, base, 14) == base;
    QuietStep(231493288434877537647902142969455154526,
              314968671902087479629947513461521130666, base, 13, 14);
    QuietStep(198460429449968235707380357196012301073,
              231493288434877537647902142969455154526, base, 12, 13);
  }

  /** The squarings from step 9 on at the least price. */
  lemma QuietSquaringsFrom9(base: int)
    ensures Log2From(173447286143644277867428471701679181739, base, 9) == base
  {
    QuietSquaringsFrom12(base);
    QuietStep(183756067482656355451618860931542785557,
              198460429449968235707380357196012301073, base, 11, 12);
    QuietStep(176817631444211466450022635831531009461,
              183756067482656355451618860931542785557, base, 10, 11);
    QuietStep(173447286143644277867428471701679181739,
              176817631444211466450022635831531009461, base, 9, 10);
  }

  /** The squarings from step 6 on at the least price. */
  lemma QuietSquaringsFrom6(base: int)
    ensures Log2From(170550975108247899994440323544706569114, base, 6) == base
  {
    QuietSquaringsFrom9(base);
    QuietStep(171786281560799504849746779272583977676,
              173447286143644277867428471701679181739, base, 8, 9);
    QuietStep(170961753755124456705476920545726938150,
              171786281560799504849746779272583977676, base, 7, 8);
    QuietStep(170550975108247899994440323544706569114,
              170961753755124456705476920545726938150, base, 6, 7);
  }

  /** The squarings from step 3 on at the least price. */
  lemma QuietSquaringsFrom3(base: int)
    ensures Log2From(170192353521040831813752434907157554464, base, 3) == base
  {
    QuietSquaringsFrom6(base);
    QuietStep(170345956057824651963446420433306419226,
              170550975108247899994440323544706569114, base, 5, 6);
    QuietStep(170243538971038117356487573935732585545,
              170345956057824651963446420433306419226, base, 4, 5);
    QuietStep(170192353521040831813752434907157554464,
              170243538971038117356487573935732585545, base, 3, 4);
  }

  /** All fourteen squarings at the least price leave the log unchanged. */
  lemma QuietSquarings(base: int)
    ensures Log2From(170147578876589626920414360973871153152, base, 0) == base
  {
    QuietSquaringsFrom1(base);
    QuietStep(170147578876589626920414360973871153152,
              170153974533106535881562109013831712768, base, 0, 1);
  }

  /** The squarings from step 1 on at the least price. */
  lemma QuietSquaringsFrom1(base: int)
    ensures Log2From(170153974533106535881562109013831712768, base, 1) == base
  {
    QuietSquaringsFrom3(base);
    QuietStep(170166766567366040401311527391081337320,
              170192353521040831813752434907157554464, base, 2, 3);
    QuietStep(170153974533106535881562109013831712768,
              170166766567366040401311527391081337320, base, 1, 2);
  }

  /** At the least price the top bit of `sqrtPrice << 32` is bit 64 and the
      mantissa stays below 2 through all fourteen squarings, so the log is
      exactly -64. */
  lemma Log2AtMinPrice(sqrtPrice: int)
    requires sqrtPrice == SQRT_RATIO_MIN
    ensures Log2Fixed(sqrtPrice) == -64 * Q64
  {
    var ratio := sqrtPrice * Q32;
    assert ratio == 18447437466114719744;
    assert Msb(ratio) == 64;
    assert Normalize(ratio, 64) == 170147578876589626920414360973871153152 by {
      Pow2Values();
    }
    var base := (64 - 128) * Q64;
    QuietSquarings(base);
  }

  /** At the least price the candidates are TICK_MIN - 1 and TICK_MIN. */
  lemma CandidatesAtMinPrice(sqrtPrice: int)
    requires sqrtPrice == SQRT_RATIO_MIN
    ensures TickLow(sqrtPrice) == TICK_MIN - 1 && TickHigh(sqrtPrice) == TICK_MIN
  {
    Log2AtMinPrice(sqrtPrice);
    DivUnique(-301923275488918837426704970313880278166157994, Q128, -887273);
    DivUnique(-301922980746461108627949644690119024107822289, Q128, -887272);
  }

  /** The least price is the least tick: TICK_MIN's own price equals the
      input, so the upper candidate is chosen. */
  lemma TickAtSqrtPriceMin()
    ensures TickAtSqrtPrice(SQRT_RATIO_MIN) == Ok(TICK_MIN)
  {
    CandidatesAtMinPrice(SQRT_RATIO_MIN);
    SqrtPriceAtTickMin(TICK_MIN);
  }

  /** Round trips through both conversions at tick 0 and at the least tick:
      each tick's price converts back to the tick itself. */
  lemma RoundTripAtZero()
    ensures SqrtPriceAtTick(0).Ok? && TickAtSqrtPrice(SqrtPriceAtTick(0).value) == Ok(0)
  {
    SqrtPriceAtTickZero();
    TickAtSqrtPriceOne();
  }

  lemma RoundTripAtMin()
    ensures SqrtPriceAtTick(TICK_MIN).Ok? &&
            TickAtSqrtPrice(SqrtPriceAtTick(TICK_MIN).value) == Ok(TICK_MIN)
  {
    SqrtPriceAtTickMin(TICK_MIN);
    TickAtSqrtPriceMin();
  }

  /** The greatest tick's price is SQRT_RATIO_MAX, which the reverse
      conversion rejects as outside its range. */
  lemma TickMaxPriceRejected()
    ensures SqrtPriceAtTick(TICK_MAX).Ok? &&
            TickAtSqrtPrice(SqrtPriceAtTick(TICK_MAX).value) == Err("sqrt ratio is outside the range")
  {
    SqrtPriceAtTickMax();
  }
}
