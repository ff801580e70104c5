/** The fixed-width integer domains of the EVM: range predicates for the
    unsigned 128/160/256-bit and signed 128/256-bit domains, and the
    wraparound casts that truncate an integer into an unsigned domain. */
module Evm {
  import opened IntOps

  const UINT128_MIN: int := 0
  const UINT128_MAX: int := 0xffffffffffffffffffffffffffffffff
  const UINT160_MIN: int := 0
  const UINT160_MAX: int := 0xffffffffffffffffffffffffffffffffffffffff
  const UINT256_MIN: int := 0
  const UINT256_MAX: int := 0xffffffffffffffffffffffffffffffffffffffffffffffffffffffffffffffff

  const INT128_MIN: int := -0x80000000000000000000000000000000
  const INT128_MAX: int := 0x7fffffffffffffffffffffffffffffff
  const INT256_MIN: int := -0x8000000000000000000000000000000000000000000000000000000000000000
  const INT256_MAX: int := 0x7fffffffffffffffffffffffffffffffffffffffffffffffffffffffffffffff

  predicate IsUint128(v: int) {
    UINT128_MIN <= v <= UINT128_MAX
  }

  predicate IsUint160(v: int) {
    UINT160_MIN <= v <= UINT160_MAX
  }

  predicate IsUint256(v: int) {
    UINT256_MIN <= v <= UINT256_MAX
  }

  predicate IsInt128(v: int) {
    INT128_MIN <= v <= INT128_MAX
  }

  predicate IsInt256(v: int) {
    INT256_MIN <= v <= INT256_MAX
  }

  /** The domain bounds are the powers of two they are declared as. */
  lemma DomainBounds()
    ensures UINT128_MAX == Pow2(128) - 1
    ensures UINT160_MAX == Pow2(160) - 1
    ensures UINT256_MAX == Pow2(256) - 1
    ensures INT128_MIN == 0 - Pow2(127) && INT128_MAX == Pow2(127) - 1
    ensures INT256_MIN == 0 - Pow2(255) && INT256_MAX == Pow2(255) - 1
  {
    Pow2Values();
  }

  /** `value & UINT128_MAX`: the two's-complement truncation to 128 bits. */
  function Uint128(v: int): (r: int)
    ensures IsUint128(r)
    ensures (v - r) % (UINT128_MAX + 1) == 0
  {
    ModCongruent(v, UINT128_MAX + 1);
    v % (UINT128_MAX + 1)
  }

  /** `value & UINT160_MAX`: the two's-complement truncation to 160 bits. */
  function Uint160(v: int): (r: int)
    ensures IsUint160(r)
    ensures (v - r) % (UINT160_MAX + 1) == 0
  {
    ModCongruent(v, UINT160_MAX + 1);
    v % (UINT160_MAX + 1)
  }

  /** `value & UINT256_MAX`: the two's-complement truncation to 256 bits. */
  function Uint256(v: int): (r: int)
    ensures IsUint256(r)
    ensures (v - r) % (UINT256_MAX + 1) == 0
  {
    ModCongruent(v, UINT256_MAX + 1);
    v % (UINT256_MAX + 1)
  }

  lemma Uint256Unique(v: int, r: int)
    requires IsUint256(r) && (v - r) % (UINT256_MAX + 1) == 0
    ensures r == Uint256(v)
  {
    ModUnique(v, r, UINT256_MAX + 1);
  }

  lemma Uint160Unique(v: int, r: int)
    requires IsUint160(r) && (v - r) % (UINT160_MAX + 1) == 0
    ensures r == Uint160(v)
  {
    ModUnique(v, r, UINT160_MAX + 1);
  }

  lemma Uint128Unique(v: int, r: int)
    requires IsUint128(r) && (v - r) % (UINT128_MAX + 1) == 0
    ensures r == Uint128(v)
  {
    ModUnique(v, r, UINT128_MAX + 1);
  }

  /** On its own domain a wraparound cast changes nothing, and only there. */
  lemma WrapIdentityOnDomain(v: int)
    ensures IsUint128(v) <==> Uint128(v) == v
    ensures IsUint160(v) <==> Uint160(v) == v
    ensures IsUint256(v) <==> Uint256(v) == v
  {
  }

  lemma WrapIdempotent(v: int)
    ensures Uint128(Uint128(v)) == Uint128(v)
    ensures Uint160(Uint160(v)) == Uint160(v)
    ensures Uint256(Uint256(v)) == Uint256(v)
  {
    WrapIdentityOnDomain(Uint128(v));
    WrapIdentityOnDomain(Uint160(v));
    WrapIdentityOnDomain(Uint256(v));
  }

  /** The unsigned domains nest, and so do the signed ones. */
  lemma DomainsNest(v: int)
    ensures IsUint128(v) ==> IsUint160(v)
    ensures IsUint160(v) ==> IsUint256(v)
    ensures IsInt128(v) ==> IsInt256(v)
    ensures IsUint128(v) ==> IsInt256(v)
  {
  }

  /** Truncating a non-negative value never makes it larger. */
  lemma WrapNeverGrows(v: int)
    requires v >= 0
    ensures Uint128(v) <= v && Uint160(v) <= v && Uint256(v) <= v
  {
    if v > UINT128_MAX {
      assert Uint128(v) <= UINT128_MAX;
    } else {
      WrapIdentityOnDomain(v);
    }
    if v > UINT160_MAX {
      assert Uint160(v) <= UINT160_MAX;
    } else {
      WrapIdentityOnDomain(v);
    }
    if v > UINT256_MAX {
      assert Uint256(v) <= UINT256_MAX;
    } else {
      WrapIdentityOnDomain(v);
    }
  }
}
