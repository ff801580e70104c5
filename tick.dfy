/** Conversion between ticks and Q64.96 sqrt prices (TickMath).
    The forward direction evaluates 1.0001^(|tick| / 2) in Q128.128 by
    binary exponentiation over twenty precomputed factors, one per bit of
    |tick|; the inverse takes an integer log2 of the price by a
    most-significant-bit scan followed by fourteen squaring steps, and
    picks between two candidate ticks.

    The source writes both algorithms out step by step, reassigning its
    accumulators; the methods below keep that form as loops over constant
    tables, and each is proved equal to a function that folds the same
    tables and that the lemmas reason about. */
module Tick {
  import opened Results
  import opened IntOps
  import opened Evm

  const TICK_MIN: int := -887272
  const TICK_MAX: int := 887272
  const SQRT_RATIO_MIN: int := 4295128739
  const SQRT_RATIO_MAX: int := 1461446703485210103287273052203988822378723970342

  const Q32: int := 0x100000000
  const Q96: int := 0x1000000000000000000000000
  const Q64: int := 0x10000000000000000
  const Q127: int := 0x80000000000000000000000000000000
  const Q128: int := 0x100000000000000000000000000000000

  /** The accumulator's start when bit 0 of |tick| is set (1.0001^-0.5 in Q128). */
  const RATIO_BIT0: int := 0xfffcb933bd6fad37aa2d162d1a594001

  /** MULTIPLIERS[i] is the Q128 factor applied when bit i + 1 of |tick| is set. */
  const MULTIPLIERS: seq<int> := [
    0xfff97272373d413259a46990580e213a,
    0xfff2e50f5f656932ef12357cf3c7fdcc,
    0xffe5caca7e10e4e61c3624eaa0941cd0,
    0xffcb9843d60f6159c9db58835c926644,
    0xff973b41fa98c081472e6896dfb254c0,
    0xff2ea16466c96a3843ec78b326b52861,
    0xfe5dee046a99a2a811c461f1969c3053,
    0xfcbe86c7900a88aedcffc83b479aa3a4,
    0xf987a7253ac413176f2b074cf7815e54,
    0xf3392b0822b70005940c7a398e4b70f3,
    0xe7159475a2c29b7443b29c7fa6e889d9,
    0xd097f3bdfd2022b8845ad8f792aa5825,
    0xa9f746462d870fdf8a65dc1f90e061e5,
    0x70d869a156d2a1b890bb3df62baf32f7,
    0x31be135f97d08fd981231505542fcfa6,
    0x9aa508b5b7a84e1c677de54f3e99bc9,
    0x5d6af8dedb81196699c329225ee604,
    0x2216e584f5fa1ea926041bedfe98,
    0x48a170391f7dc42444e8fa2
  ]

  /** Bit k of n, i.e. `n & (1 << k)` is non-zero. */
  predicate Bit(n: nat, k: nat) {
    (n / Pow2(k)) % 2 == 1
  }

  /** The Q128 accumulator after bit 0 and the first n of the 19 conditional steps. */
  function RatioAfter(absTick: nat, n: nat): int
    requires n <= |MULTIPLIERS|
  {
    if n == 0 then (if Bit(absTick, 0) then RATIO_BIT0 else Q128)
    else
      var prev := RatioAfter(absTick, n - 1);
      if Bit(absTick, n) then prev * MULTIPLIERS[n - 1] / Q128 else prev
  }

  /** The accumulator when every bit is set: each factor applied once, from
      the smaller start. No tick can drive the accumulator below it. */
  function WorstRatio(n: nat): int
    requires n <= |MULTIPLIERS|
  {
    if n == 0 then RATIO_BIT0
    else WorstRatio(n - 1) * MULTIPLIERS[n - 1] / Q128
  }

  lemma WorstRatioFirst5(n: nat)
    requires n == |MULTIPLIERS|
    ensures WorstRatio(n - 14) == 339212217342146842559531600927033253847
  {
    WorstRatioStep(n - 18, RATIO_BIT0, 0xfff97272373d413259a46990580e213a, 340231330945450418515964920540021147198);
    WorstRatioStep(n - 17, 340231330945450418515964920540021147198, 0xfff2e50f5f656932ef12357cf3c7fdcc, 340163294884840501567246455576441303173);
    WorstRatioStep(n - 16, 340163294884840501567246455576441303173, 0xffe5caca7e10e4e61c3624eaa0941cd0, 340027263576413978334042125129128142263);
    WorstRatioStep(n - 15, 340027263576413978334042125129128142263, 0xffcb9843d60f6159c9db58835c926644, 339755364134575681238502878529008278326);
    WorstRatioStep(n - 14, 339755364134575681238502878529008278326, 0xff973b41fa98c081472e6896dfb254c0, 339212217342146842559531600927033253847);
  }

  lemma WorstRatioFirst10(n: nat)
    requires n == |MULTIPLIERS|
    ensures WorstRatio(n - 9) == 307179074178916392659402722612948179612
  {
    WorstRatioFirst5(n);
    WorstRatioStep(n - 13, 339212217342146842559531600927033253847, 0xff2ea16466c96a3843ec78b326b52861, 338128527259088467778511436198880488164);
    WorstRatioStep(n - 12, 338128527259088467778511436198880488164, 0xfe5dee046a99a2a811c461f1969c3053, 335971522311117552149334092109581418674);
    WorstRatioStep(n - 11, 335971522311117552149334092109581418674, 0xfcbe86c7900a88aedcffc83b479aa3a4, 331698704829854243503582989311158516586);
    WorstRatioStep(n - 10, 331698704829854243503582989311158516586, 0xf987a7253ac413176f2b074cf7815e54, 323315401242583425022802937239550140918);
    WorstRatioStep(n - 9, 323315401242583425022802937239550140918, 0xf3392b0822b70005940c7a398e4b70f3, 307179074178916392659402722612948179612);
  }

  lemma WorstRatioFirst15(n: nat)
    requires n == |MULTIPLIERS|
    ensures WorstRatio(n - 4) == 12848018414553970828728179856918040433
  {
    WorstRatioFirst10(n);
    WorstRatioStep(n - 8, 307179074178916392659402722612948179612, 0xe7159475a2c29b7443b29c7fa6e889d9, 277282266700509388632609933215391170106);
    WorstRatioStep(n - 7, 277282266700509388632609933215391170106, 0xd097f3bdfd2022b8845ad8f792aa5825, 225934749830749445986089663015556949343);
    WorstRatioStep(n - 6, 225934749830749445986089663015556949343, 0xa9f746462d870fdf8a65dc1f90e061e5, 150004713758184102711002566140788444796);
    WorstRatioStep(n - 5, 150004713758184102711002566140788444796, 0x70d869a156d2a1b890bb3df62baf32f7, 66122407008436832627027740713496573148);
    WorstRatioStep(n - 4, 66122407008436832627027740713496573148, 0x31be135f97d08fd981231505542fcfa6, 12848018414553970828728179856918040433);
  }

  /** The all-bits-set fold, five factors at a time. */
  lemma WorstRatioPositive(n: nat)
    requires n == |MULTIPLIERS|
    ensures WorstRatio(n) == 5800441176149320
  {
    WorstRatioFirst15(n);
    WorstRatioStep(n - 3, 12848018414553970828728179856918040433, 0x9aa508b5b7a84e1c677de54f3e99bc9, 485077512873820763967752669154895175);
    WorstRatioStep(n - 2, 485077512873820763967752669154895175, 0x5d6af8dedb81196699c329225ee604, 691450548841240133896843047535567);
    WorstRatioStep(n - 1, 691450548841240133896843047535567, 0x2216e584f5fa1ea926041bedfe98, 1404950724947776134837143967);
    WorstRatioStep(n, 1404950724947776134837143967, 0x48a170391f7dc42444e8fa2, 5800441176149320);
  }

  lemma WorstRatioStep(n: nat, prev: int, factor: int, next: int)
    requires 1 <= n <= |MULTIPLIERS| && WorstRatio(n - 1) == prev
    requires MULTIPLIERS[n - 1] == factor && prev * factor / Q128 == next
    ensures WorstRatio(n) == next
  {
  }

  lemma MultipliersBelowQ128(i: nat)
    requires i < |MULTIPLIERS|
    ensures 0 <= MULTIPLIERS[i] < Q128
  {
  }

  /** One multiply-and-shift by a factor below 2^128 shrinks its operand and
      keeps the order of two operands. */
  lemma ScaleStep(lo: int, x: int, c: int)
    requires 0 <= lo <= x && 0 <= c < Q128
    ensures lo * c / Q128 <= x * c / Q128 <= x
    ensures lo * c / Q128 <= lo
  {
    ScaleDown(x, c, Q128);
    ScaleDown(lo, c, Q128);
    MulMonotone(lo, x, c);
    DivMonotone(lo * c, x * c, Q128);
  }

  /** Every factor is below 2^128, so no step increases the accumulator: it
      starts at no more than 2^128 and only shrinks, yet never below the
      all-bits-set fold, which stays positive. */
  lemma {:induction false} RatioBounds(absTick: nat, n: nat)
    requires n <= |MULTIPLIERS|
    ensures 0 <= WorstRatio(n) <= RatioAfter(absTick, n) <= Q128
    ensures n > 0 ==> RatioAfter(absTick, n) <= RatioAfter(absTick, n - 1)
  {
    if n > 0 {
      RatioBounds(absTick, n - 1);
      MultipliersBelowQ128(n - 1);
      ScaleStep(WorstRatio(n - 1), RatioAfter(absTick, n - 1), MULTIPLIERS[n - 1]);
    }
  }

  lemma RatioPositive(absTick: nat)
    ensures 0 < RatioAfter(absTick, |MULTIPLIERS|) <= Q128
  {
    RatioBounds(absTick, |MULTIPLIERS|);
    WorstRatioPositive(|MULTIPLIERS|);
  }

  /** The sqrt price at `tick`: the accumulator, inverted for positive ticks,
      converted from Q128 to Q96 rounding up, and wrapped to 160 bits. */
  function SqrtPriceAtTick(tick: int): (r: Result<int>)
    ensures r.Ok? <==> TICK_MIN <= tick <= TICK_MAX
    ensures r.Err? ==> r.msg == "tick is outside the range"
    ensures r.Ok? ==> IsUint160(r.value)
    ensures r.Ok? && tick <= 0 ==> 0 < r.value <= Q96
  {
    if tick < TICK_MIN || tick > TICK_MAX then Err("tick is outside the range")
    else
      var ratio := RatioAfter(Abs(tick), |MULTIPLIERS|);
      RatioPositive(Abs(tick));
      var inverted := if tick > 0 then UINT256_MAX / ratio else ratio;
      var price := inverted / Q32 + (if inverted % Q32 == 0 then 0 else 1);
      RoundUpToQ96(ratio);
      Ok(Uint160(price))
  }

  /** Without inversion the Q128 accumulator, at most 2^128, rounds up to a
      Q96 price in (0, 2^96], which the 160-bit wrap leaves alone. */
  lemma RoundUpToQ96(ratio: int)
    requires 0 < ratio <= Q128
    ensures var price := ratio / Q32 + (if ratio % Q32 == 0 then 0 else 1);
      0 < price <= Q96 && Uint160(price) == price
  {
    DivMonotone(ratio, Q128, Q32);
    assert Q128 / Q32 == Q96;
    assert ratio == ratio / Q32 * Q32 + ratio % Q32;
  }

  /** getSqrtPriceAtTick as the source runs it: the accumulator reassigned
      by one conditional multiply-and-shift per bit. */
  method GetSqrtPriceAtTick(tick: int) returns (r: Result<int>)
    ensures r == SqrtPriceAtTick(tick)
  {
    if tick < TICK_MIN || tick > TICK_MAX {
      return Err("tick is outside the range");
    }
    var absTick: nat := if tick < 0 then -tick else tick;
    var ratio := if Bit(absTick, 0) then RATIO_BIT0 else Q128;
    var i := 0;
    while i < |MULTIPLIERS|
      invariant 0 <= i <= |MULTIPLIERS|
      invariant ratio == RatioAfter(absTick, i)
    {
      if Bit(absTick, i + 1) {
        ratio := ratio * MULTIPLIERS[i] / Q128;
      }
      i := i + 1;
    }
    RatioPositive(absTick);
    if tick > 0 {
      ratio := UINT256_MAX / ratio;
    }
    r := Ok(Uint160(ratio / Q32 + (if ratio % Q32 == 0 then 0 else 1)));
  }

  // ---------------------------------------------------------------------
  // Sqrt price to tick

  /** The bit scan's thresholds 2^s - 1 and shifts s, s = 128, 64, ..., 1. */
  const SCAN_THRESHOLDS: seq<int> := [
    0xffffffffffffffffffffffffffffffff, 0xffffffffffffffff, 0xffffffff,
    0xffff, 0xff, 0xf, 0x3, 0x1
  ]
  const SCAN_SHIFTS: seq<nat> := [128, 64, 32, 16, 8, 4, 2, 1]

  lemma {:induction false} ScanTables(i: nat)
    requires i < 8
    ensures |SCAN_THRESHOLDS| == |SCAN_SHIFTS| == 8
    ensures SCAN_THRESHOLDS[i] + 1 == Pow2(SCAN_SHIFTS[i])
    ensures i == 7 ==> SCAN_SHIFTS[i] == 1
    ensures i < 7 ==> SCAN_SHIFTS[i] == 2 * SCAN_SHIFTS[i + 1]
    decreases 8 - i
  {
    if i < 7 {
      ScanTables(i + 1);
      Pow2Add(SCAN_SHIFTS[i + 1], SCAN_SHIFTS[i + 1]);
      ScanSquares(i);
    } else {
      assert Pow2(1) == 2;
    }
  }

  /** Each threshold plus one is the square of the next one plus one. */
  lemma ScanSquares(i: nat)
    requires i < 7
    ensures SCAN_SHIFTS[i] == 2 * SCAN_SHIFTS[i + 1]
    ensures SCAN_THRESHOLDS[i] + 1 == (SCAN_THRESHOLDS[i + 1] + 1) * (SCAN_THRESHOLDS[i + 1] + 1)
  {
    if i == 0 {
    } else if i == 1 {
    } else if i == 2 {
    } else if i == 3 {
    } else if i == 4 {
    } else if i == 5 {
    }
  }

  /** The bit scan from step i on, with r the shifted value and msb the
      position found so far. The source's last step does not shift r; the
      fold shifts it too, which changes nothing since r is recomputed after. */
  function MsbFrom(r: int, msb: int, i: nat): int
    requires i <= 8
    decreases 8 - i
  {
    if i == 8 then msb
    else if r > SCAN_THRESHOLDS[i] then
      MsbFrom(r / (SCAN_THRESHOLDS[i] + 1), msb + SCAN_SHIFTS[i], i + 1)
    else MsbFrom(r, msb, i + 1)
  }

  /** Position of the most significant bit of `ratio`. */
  function Msb(ratio: int): int {
    MsbFrom(ratio, 0, 0)
  }

  /** Shifting by s a value of fewer than 2s bits, but more than s, leaves
      a value of at most s bits that is not zero. */
  lemma HalveBits(r: int, t: int)
    requires t >= 0 && t < r < (t + 1) * (t + 1)
    ensures 1 <= r / (t + 1) <= t
  {
    DivMonotone(t + 1, r, t + 1);
    MultipleDiv(1, t + 1);
    DivMonotone(r, (t + 1) * (t + 1) - 1, t + 1);
    assert (t + 1) * (t + 1) - 1 == t * (t + 1) + t;
    DivUnique((t + 1) * (t + 1) - 1, t + 1, t);
  }

  /** Shifting ratio right by msb and then by s is shifting it by msb + s. */
  lemma ShiftTwice(ratio: int, msb: nat, s: nat)
    requires ratio >= 0
    ensures ratio / Pow2(msb) / Pow2(s) == ratio / Pow2(msb + s)
  {
    DivDiv(ratio, Pow2(msb), Pow2(s));
    Pow2Add(msb, s);
  }

  /** m is the position of the most significant bit of v. */
  predicate IsMsb(m: int, v: int) {
    m >= 0 && Pow2(m) <= v < Pow2(m + 1)
  }

  /** r is ratio shifted right by msb. */
  predicate Shifted(ratio: int, r: int, msb: nat) {
    r == ratio / Pow2(msb)
  }

  /** Step i of the scan keeps r the quotient of ratio by 2^msb and leaves r
      with at most SCAN_SHIFTS[i] bits. */
  lemma ScanStep(ratio: int, r: int, msb: nat, i: nat)
    requires i < 8 && ratio >= 1
    requires Shifted(ratio, r, msb) && r >= 1
    requires i == 0 ==> r <= UINT256_MAX
    requires 0 < i ==> r <= SCAN_THRESHOLDS[i - 1]
    ensures r > SCAN_THRESHOLDS[i] ==>
      var r' := r / (SCAN_THRESHOLDS[i] + 1);
      Shifted(ratio, r', msb + SCAN_SHIFTS[i]) && 1 <= r' <= SCAN_THRESHOLDS[i]
  {
    ScanTables(i);
    var t, s := SCAN_THRESHOLDS[i], SCAN_SHIFTS[i];
    assert r < (t + 1) * (t + 1) by {
      Pow2Add(s, s);
      if i == 0 {
        Pow2Values();
        DomainBounds();
      } else {
        ScanTables(i - 1);
      }
    }
    if r > t {
      ShiftTwice(ratio, msb, s);
      HalveBits(r, t);
    }
  }

  /** Once the shifted value is 1, msb is the position of the top bit. */
  lemma TopBit(ratio: int, msb: nat)
    requires ratio >= 0 && Shifted(ratio, 1, msb)
    ensures IsMsb(msb, ratio)
  {
    assert ratio == Pow2(msb) + ratio % Pow2(msb);
    assert Pow2(msb + 1) == 2 * Pow2(msb);
  }

  lemma {:induction false} MsbFromCorrect(ratio: int, r: int, msb: nat, i: nat)
    requires i <= 8 && ratio >= 1
    requires Shifted(ratio, r, msb) && r >= 1
    requires i == 0 ==> r <= UINT256_MAX
    requires 0 < i ==> r <= SCAN_THRESHOLDS[i - 1]
    ensures IsMsb(MsbFrom(r, msb, i), ratio)
    decreases 8 - i
  {
    if i == 8 {
      assert SCAN_THRESHOLDS[7] == 1;
      TopBit(ratio, msb);
    } else {
      ScanStep(ratio, r, msb, i);
      var t, s := SCAN_THRESHOLDS[i], SCAN_SHIFTS[i];
      if r > t {
        MsbFromCorrect(ratio, r / (t + 1), msb + s, i + 1);
      } else {
        MsbFromCorrect(ratio, r, msb, i + 1);
      }
    }
  }

  /** The scan finds the most significant bit: 2^msb <= ratio < 2^(msb + 1). */
  lemma MsbCorrect(ratio: int)
    requires 1 <= ratio <= UINT256_MAX
    ensures IsMsb(Msb(ratio), ratio)
  {
    assert Shifted(ratio, ratio, 0);
    MsbFromCorrect(ratio, ratio, 0, 0);
  }

  /** The top bit of ratio moved to position 127: `ratio >> (msb - 127)` or
      `ratio << (127 - msb)`, a Q1.127 mantissa in [1, 2). */
  function Normalize(ratio: int, msb: int): int {
    if msb >= 128 then ratio / Pow2(msb - 127) else ratio * Pow2(127 - msb)
  }

  lemma NormalizeBounds(ratio: int, msb: int)
    requires IsMsb(msb, ratio)
    ensures Q127 <= Normalize(ratio, msb) < Q128
  {
    MantissaPowers();
    if msb >= 128 {
      var k := msb - 127;
      Pow2Add(k, 127);
      Pow2Add(k, 128);
      DivIntoRange(ratio, Q127, Q128, Pow2(k));
    } else {
      var k := 127 - msb;
      Pow2Add(msb, k);
      Pow2Add(msb + 1, k);
      MulIntoRange(ratio, Pow2(msb), Pow2(msb + 1), Pow2(k));
    }
  }

  lemma MantissaPowers()
    ensures Pow2(127) == Q127 && Pow2(128) == Q128
  {
    Pow2Values();
  }

  /** A value in [lo * m, hi * m) divided by m lands in [lo, hi). */
  lemma DivIntoRange(v: int, lo: int, hi: int, m: int)
    requires m > 0 && lo * m <= v < hi * m
    ensures lo <= v / m < hi
  {
    var q := v / m;
    assert q * m <= v < (q + 1) * m by {
      assert v == q * m + v % m;
    }
    MulOrder(q + 1, lo, m);
    MulOrder(hi, q, m);
  }

  /** A value in [lo, hi) multiplied by m lands in [lo * m, hi * m). */
  lemma MulIntoRange(v: int, lo: int, hi: int, m: int)
    requires m > 0 && lo <= v < hi
    ensures lo * m <= v * m < hi * m
  {
    MulOrder(lo, v, m);
    MulOrder(hi, v, m);
  }

  /** One squaring step of the log2 loop: `r = (r * r) >> 127`, then the
      bit `f = r >> 128` and `r >>= f`. */
  function SquareStep(r: int): (int, int) {
    var sq := r * r / Q127;
    var f := sq / Q128;
    (sq / Pow2(f), f)
  }

  /** Squaring a mantissa in [1, 2) gives one in [1, 4); the bit f says
      whether it reached 2, and halving it then brings it back to [1, 2). */
  lemma SquareStepBounds(r: int)
    requires Q127 <= r < Q128
    ensures var (r', f) := SquareStep(r);
      (f == 0 || f == 1) && Q127 <= r' < Q128
  {
    var sq := r * r / Q127;
    MulMonotone(Q127, r, Q127);
    MulMonotone(Q127, r, r);
    MulMonotone(r, Q128 - 1, r);
    MulMonotone(r, Q128 - 1, Q128 - 1);
    assert Q127 * Q127 <= r * r <= (Q128 - 1) * (Q128 - 1);
    MultipleDiv(Q127, Q127);
    DivMonotone(Q127 * Q127, r * r, Q127);
    DivMonotone(r * r, (Q128 - 1) * (Q128 - 1), Q127);
    assert (Q128 - 1) * (Q128 - 1) / Q127 < 2 * Q128;
    assert Q127 <= sq < 2 * Q128;
    DivMonotone(sq, 2 * Q128 - 1, Q128);
    DivMonotone(0, sq, Q128);
    var f := sq / Q128;
    assert f == 0 || f == 1;
    assert Pow2(0) == 1 && Pow2(1) == 2;
    if f == 1 {
      assert Q128 <= sq;
    } else {
      assert sq < Q128;
    }
  }

  /** One turn of the squaring loop, statement by statement, is one
      SquareStep; the step's shift is immaterial on the last turn. */
  lemma SquareStepUnfold(r: int, log2: int, j: nat, sq: int, f: int, r': int, log2': int)
    requires r >= 0 && j < 14
    requires sq == r * r / Q127 && f == sq / Q128
    requires log2' == log2 + f * Pow2(63 - j)
    requires r' == if j < 13 then sq / Pow2(f) else sq
    ensures r' >= 0
    ensures Log2From(r, log2, j) == Log2From(r', log2', j + 1)
  {
    MulMonotone(0, r, r);
    assert sq >= 0 && f >= 0;
  }

  /** Squaring a non-negative mantissa and scaling it down keeps it non-negative. */
  lemma SquareNonNegative(r: int)
    requires r >= 0
    ensures r * r / Q127 >= 0 && r * r / Q127 / Q128 >= 0
  {
    MulMonotone(0, r, r);
  }

  /** The squaring loop from step j on: bit 63 - j of the fraction is set
      when the squared mantissa reaches 2. Bits are set once each, below
      bit 64, so the source's `|=` is an addition here. */
  function Log2From(r: int, log2: int, j: nat): int
    requires j <= 14
    decreases 14 - j
  {
    if j == 14 then log2
    else
      var rf := SquareStep(r);
      Log2From(rf.0, log2 + rf.1 * Pow2(63 - j), j + 1)
  }

  /** The loop adds at most bits 63 down to 50: the fraction stays below 2^64. */
  lemma {:induction false} Log2FromBounds(r: int, log2: int, j: nat, base: int)
    requires j <= 14 && Q127 <= r < Q128
    requires base <= log2 && log2 + Pow2(64 - j) <= base + Q64
    ensures base <= Log2From(r, log2, j) < base + Q64
    decreases 14 - j
  {
    if j < 14 {
      SquareStepBounds(r);
      var rf := SquareStep(r);
      var bit := Pow2(63 - j);
      assert Pow2(64 - j) == 2 * bit;
      assert Pow2(64 - (j + 1)) == bit;
      var next := log2 + rf.1 * bit;
      assert log2 <= next <= log2 + bit;
      Log2FromBounds(rf.0, next, j + 1, base);
    }
  }

  lemma Log2FromStart(m: int, base: int)
    requires Q127 <= m < Q128
    ensures base <= Log2From(m, base, 0) < base + Q64
  {
    Pow2Values();
    Log2FromBounds(m, base, 0, base);
  }

  /** log2(sqrtPrice / 2^96) in Q64.64, to 14 fractional bits: the integer
      part from the bit scan of `sqrtPrice << 32`, the fraction from the
      squaring loop. */
  function Log2Fixed(sqrtPrice: int): int {
    var ratio := sqrtPrice * Q32;
    var msb := Msb(ratio);
    Log2From(Normalize(ratio, msb), (msb - 128) * Q64, 0)
  }

  /** The integer part of the fixed-point log2 is the position of the top
      bit of `sqrtPrice << 32` less 128. */
  lemma Log2FixedBounds(sqrtPrice: int)
    requires 1 <= sqrtPrice <= UINT160_MAX
    ensures var msb := Msb(sqrtPrice * Q32);
      IsMsb(msb, sqrtPrice * Q32) &&
      (msb - 128) * Q64 <= Log2Fixed(sqrtPrice) < (msb - 127) * Q64
  {
    var ratio := sqrtPrice * Q32;
    assert 1 <= ratio <= UINT256_MAX;
    MsbCorrect(ratio);
    var msb := Msb(ratio);
    var m := Normalize(ratio, msb);
    assert Q127 <= m < Q128 by {
      NormalizeBounds(ratio, msb);
    }
    Log2FromStart(m, (msb - 128) * Q64);
  }

  const LOG_SQRT10001: int := 255738958999603826347141
  const TICK_LOW_OFFSET: int := 3402992956809132418596140100660247210
  const TICK_HIGH_OFFSET: int := 291339464771989622907027621153398088495

  /** The lower candidate tick: the log to base sqrt(1.0001), less its error bound, floored. */
  function TickLow(sqrtPrice: int): int {
    (Log2Fixed(sqrtPrice) * LOG_SQRT10001 - TICK_LOW_OFFSET) / Q128
  }

  /** The upper candidate tick: the same log plus its error bound, floored. */
  function TickHigh(sqrtPrice: int): int {
    (Log2Fixed(sqrtPrice) * LOG_SQRT10001 + TICK_HIGH_OFFSET) / Q128
  }

  /** The two offsets add up to less than 2^128, so the candidates are equal
      or adjacent. */
  lemma CandidatesAdjacent(sqrtPrice: int)
    ensures TickLow(sqrtPrice) <= TickHigh(sqrtPrice) <= TickLow(sqrtPrice) + 1
  {
    var a := Log2Fixed(sqrtPrice) * LOG_SQRT10001 - TICK_LOW_OFFSET;
    var b := a + (TICK_LOW_OFFSET + TICK_HIGH_OFFSET);
    assert 0 < TICK_LOW_OFFSET + TICK_HIGH_OFFSET < Q128;
    DivMonotone(a, b, Q128);
    DivMonotone(b, a + Q128, Q128);
    assert (a + Q128) / Q128 == a / Q128 + 1 by {
      assert a == a / Q128 * Q128 + a % Q128;
      DivUnique(a + Q128, Q128, a / Q128 + 1);
    }
  }

  /** The tick of a sqrt price: the upper candidate when the candidates
      differ and its own sqrt price does not exceed the input, else the lower. */
  function TickAtSqrtPrice(sqrtPrice: int): (r: Result<int>)
    ensures sqrtPrice < SQRT_RATIO_MIN || sqrtPrice >= SQRT_RATIO_MAX ==>
      r == Err("sqrt ratio is outside the range")
    ensures SQRT_RATIO_MIN <= sqrtPrice < SQRT_RATIO_MAX ==>
      var lo, hi := TickLow(sqrtPrice), TickHigh(sqrtPrice);
      (r.Err? <==> lo != hi && !(TICK_MIN <= hi <= TICK_MAX)) &&
      (r.Ok? ==> (r.value == lo || r.value == hi) && hi - lo <= 1) &&
      (r.Ok? && lo != hi ==>
        (r.value == hi <==> SqrtPriceAtTick(hi).value <= sqrtPrice))
  {
    if sqrtPrice < SQRT_RATIO_MIN || sqrtPrice >= SQRT_RATIO_MAX then
      Err("sqrt ratio is outside the range")
    else
      CandidatesAdjacent(sqrtPrice);
      ChooseTick(sqrtPrice, TickLow(sqrtPrice), TickHigh(sqrtPrice))
  }

  /** The final selection of getTickAtSqrtPrice between the two candidates:
      the upper one wins exactly when its own price does not exceed the
      input price. */
  function ChooseTick(sqrtPrice: int, tickLo: int, tickHi: int): (r: Result<int>)
    ensures r.Err? <==> tickLo != tickHi && !(TICK_MIN <= tickHi <= TICK_MAX)
    ensures r.Ok? ==> r.value == tickLo || r.value == tickHi
    ensures r.Ok? && tickLo != tickHi ==>
      (r.value == tickHi <==> SqrtPriceAtTick(tickHi).value <= sqrtPrice)
  {
    if tickLo == tickHi then Ok(tickLo)
    else
      var priceHi :- SqrtPriceAtTick(tickHi);
      Ok(if priceHi > sqrtPrice then tickLo else tickHi)
  }

  /** The bit scan of getTickAtSqrtPrice: seven compare-and-shift steps and
      a final compare, each adding its shift to msb (`msb |= f` on distinct
      bits). */
  method ScanMsb(ratio: int) returns (msb: int)
    ensures msb == Msb(ratio)
  {
    var r := ratio;
    msb := 0;
    var i := 0;
    while i < 8
      invariant 0 <= i <= 8
      invariant MsbFrom(r, msb, i) == Msb(ratio)
    {
      if r > SCAN_THRESHOLDS[i] {
        msb := msb + SCAN_SHIFTS[i];
        if i < 7 {
          r := r / (SCAN_THRESHOLDS[i] + 1);
        }
      }
      i := i + 1;
    }
  }

  /** The fourteen squaring steps of getTickAtSqrtPrice, each setting one
      fractional bit of log2 from bit 63 down to bit 50. */
  method SquareLoop(mantissa: int, log2Int: int) returns (log2: int)
    requires mantissa >= 0
    ensures log2 == Log2From(mantissa, log2Int, 0)
  {
    var r := mantissa;
    log2 := log2Int;
    var j := 0;
    ghost var total := Log2From(mantissa, log2Int, j);
    while j < 14
      invariant 0 <= j <= 14 && r >= 0
      invariant Log2From(r, log2, j) == total
    {
      ghost var r0, log0 := r, log2;
      SquareNonNegative(r);
      r := r * r / Q127;
      ghost var sq := r;
      var f := r / Q128;
      log2 := log2 + f * Pow2(63 - j);
      if j < 13 {
        r := r / Pow2(f);
      }
      SquareStepUnfold(r0, log0, j, sq, f, r, log2);
      j := j + 1;
    }
  }

  /** getTickAtSqrtPrice as the source runs it: the bit scan, the
      normalisation, the squaring steps and the choice between candidates. */
  method GetTickAtSqrtPrice(sqrtPrice: int) returns (result: Result<int>)
    ensures result == TickAtSqrtPrice(sqrtPrice)
  {
    if sqrtPrice < SQRT_RATIO_MIN || sqrtPrice >= SQRT_RATIO_MAX {
      return Err("sqrt ratio is outside the range");
    }
    var log2 := FixedLog2(sqrtPrice);
    var logSqrt10001 := log2 * LOG_SQRT10001;
    var tickLo := (logSqrt10001 - TICK_LOW_OFFSET) / Q128;
    var tickHi := (logSqrt10001 + TICK_HIGH_OFFSET) / Q128;
    assert tickLo == TickLow(sqrtPrice) && tickHi == TickHigh(sqrtPrice);
    result := SelectTick(sqrtPrice, tickLo, tickHi);
    assert TickAtSqrtPrice(sqrtPrice) == ChooseTick(sqrtPrice, tickLo, tickHi);
  }

  /** The first half of getTickAtSqrtPrice: scale to Q128.128, find the most
      significant bit, normalise and refine the binary logarithm. */
  method FixedLog2(sqrtPrice: int) returns (log2: int)
    requires SQRT_RATIO_MIN <= sqrtPrice < SQRT_RATIO_MAX
    ensures log2 == Log2Fixed(sqrtPrice)
  {
    var ratio := sqrtPrice * Q32;
    var msb := ScanMsb(ratio);
    var r;
    if msb >= 128 {
      r := ratio / Pow2(msb - 127);
    } else {
      r := ratio * Pow2(127 - msb);
    }
    NormalizedMantissa(sqrtPrice, ratio, msb, r);
    log2 := SquareLoop(r, (msb - 128) * Q64);
  }

  /** The mantissa handed to the squaring loop is at least 2^127, and the
      loop started from it computes Log2Fixed. */
  lemma NormalizedMantissa(sqrtPrice: int, ratio: int, msb: int, r: int)
    requires SQRT_RATIO_MIN <= sqrtPrice < SQRT_RATIO_MAX && ratio == sqrtPrice * Q32
    requires msb == Msb(ratio)
    requires r == if msb >= 128 then ratio / Pow2(msb - 127) else ratio * Pow2(127 - msb)
    ensures r >= Q127
    ensures Log2Fixed(sqrtPrice) == Log2From(r, (msb - 128) * Q64, 0)
  {
    assert 1 <= ratio <= UINT256_MAX;
    MsbCorrect(ratio);
    NormalizedRatio(ratio, msb, r);
  }

  /** The shift the method applies to the ratio is Normalize, and lands at or above 2^127. */
  lemma NormalizedRatio(ratio: int, msb: int, r: int)
    requires IsMsb(msb, ratio)
    requires r == if msb >= 128 then ratio / Pow2(msb - 127) else ratio * Pow2(127 - msb)
    ensures r == Normalize(ratio, msb) && r >= Q127
  {
    NormalizeBounds(ratio, msb);
  }

  /** The tail of getTickAtSqrtPrice: returns the single candidate, or looks
      up the upper candidate's price and compares it with the input. */
  method SelectTick(sqrtPrice: int, tickLo: int, tickHi: int) returns (result: Result<int>)
    ensures result == ChooseTick(sqrtPrice, tickLo, tickHi)
  {
    if tickLo == tickHi {
      return Ok(tickLo);
    }
    var priceHi := GetSqrtPriceAtTick(tickHi);
    if priceHi.Err? {
      return Err(priceHi.msg);
    }
    result := Ok(if priceHi.value > sqrtPrice then tickLo else tickHi);
  }
}
