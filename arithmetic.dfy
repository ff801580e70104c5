/** Checked uint256 arithmetic (LowGasSafeMath), multiply-then-divide with
    unbounded intermediate precision (FullMath) and the unchecked
    ceiling division (UnsafeMath). */
module Arithmetic {
  import opened Results
  import opened IntOps
  import opened Evm

  function SafeAdd(x: int, y: int): (r: Result<int>)
    ensures r.Ok? <==> IsUint256(x + y)
    ensures r.Ok? ==> r.value == x + y
    ensures r.Err? ==> r.msg == "sum overflows uint256"
  {
    var sum := x + y;
    if !IsUint256(sum) then Err("sum overflows uint256") else Ok(sum)
  }

  function SafeSub(x: int, y: int): (r: Result<int>)
    ensures r.Ok? <==> IsUint256(x - y)
    ensures r.Ok? ==> r.value == x - y
    ensures r.Err? ==> r.msg == "difference underflows uint256"
  {
    var difference := x - y;
    if !IsUint256(difference) then Err("difference underflows uint256") else Ok(difference)
  }

  function SafeMul(x: int, y: int): (r: Result<int>)
    ensures r.Ok? <==> IsUint256(x * y)
    ensures r.Ok? ==> r.value == x * y
    ensures r.Err? ==> r.msg == "product overflows uint256"
  {
    var product := x * y;
    if !IsUint256(product) then Err("product overflows uint256") else Ok(product)
  }

  /** floor(x * y / z), failing on a zero divisor or a quotient outside uint256.
      The quotient truncates toward zero, which is the floor when x * y >= 0
      and z > 0. */
  function SafeMulDivFloor(x: int, y: int, z: int): (r: Result<int>)
    ensures z == 0 ==> r == Err("division by zero")
    ensures z != 0 && r.Err? ==> r.msg == "quotient overflows uint256"
    ensures r.Ok? ==> IsUint256(r.value)
    ensures x * y >= 0 && z > 0 ==> (r.Ok? <==> x * y / z <= UINT256_MAX)
    ensures x * y >= 0 && z > 0 && r.Ok? ==> r.value * z <= x * y < (r.value + 1) * z
  {
    if z == 0 then Err("division by zero")
    else
      var quotient := Quot(x * y, z);
      if !IsUint256(quotient) then Err("quotient overflows uint256") else Ok(quotient)
  }

  /** ceil(x * y / z), failing on a zero divisor or when the quotient BEFORE
      rounding up lies outside uint256; the rounded result can therefore
      be 2^256. */
  function SafeMulDivCeil(x: int, y: int, z: int): (r: Result<int>)
    ensures z == 0 ==> r == Err("division by zero")
    ensures z != 0 && r.Err? ==> r.msg == "quotient overflows uint256"
    ensures x * y >= 0 && z > 0 ==> (r.Ok? <==> x * y / z <= UINT256_MAX)
    ensures x * y >= 0 && z > 0 && r.Ok? ==>
      r.value == x * y / z + (if (x * y) % z == 0 then 0 else 1)
    ensures x * y >= 0 && z > 0 && r.Ok? ==>
      0 <= r.value <= UINT256_MAX + 1 && (r.value - 1) * z < x * y <= r.value * z
  {
    if z == 0 then Err("division by zero")
    else
      var product := x * y;
      var quotient := Quot(product, z);
      if !IsUint256(quotient) then Err("quotient overflows uint256")
      else
        CeilBounds(product, z);
        Ok(quotient + (if Rem(product, z) != 0 then 1 else 0))
  }

  /** Rounding the truncated quotient up on a non-zero remainder gives the ceiling. */
  lemma CeilBounds(p: int, z: int)
    requires z != 0
    ensures p >= 0 && z > 0 ==>
      var c := Quot(p, z) + (if Rem(p, z) != 0 then 1 else 0);
      c == p / z + (if p % z == 0 then 0 else 1) &&
      (c - 1) * z < p <= c * z &&
      (p / z <= UINT256_MAX ==> 0 <= c <= UINT256_MAX + 1)
  {
    if p >= 0 && z > 0 {
      var q := p / z;
      assert p == q * z + p % z;
      if p % z != 0 {
        assert (q + 1) * z == q * z + z;
      }
    }
  }

  /** ceil(x / y) without any check; a zero divisor gives 0 instead of an error. */
  function UnsafeDivCeil(x: int, y: int): (r: int)
    ensures y == 0 ==> r == 0
    ensures x >= 0 && y > 0 ==> (r - 1) * y < x <= r * y
  {
    if y == 0 then 0
    else
      CeilBounds(x, y);
      Quot(x, y) + (if Rem(x, y) != 0 then 1 else 0)
  }

  /** Adding and then subtracting the same uint256 gives back the original. */
  lemma SubUndoesAdd(x: int, y: int)
    requires IsUint256(x) && IsUint256(y) && SafeAdd(x, y).Ok?
    ensures SafeSub(SafeAdd(x, y).value, y) == Ok(x)
  {
  }

  /** On uint256 operands, subtraction fails exactly when the subtrahend is larger. */
  lemma SubFailsIffUnderflow(x: int, y: int)
    requires IsUint256(x) && IsUint256(y)
    ensures SafeSub(x, y).Err? <==> y > x
  {
  }

  /** Multiply-divide by 1 is the checked product: same success, same value. */
  lemma MulIsMulDivByOne(x: int, y: int)
    ensures SafeMul(x, y).Ok? <==> SafeMulDivFloor(x, y, 1).Ok?
    ensures SafeMul(x, y).Ok? ==> SafeMul(x, y).value == SafeMulDivFloor(x, y, 1).value
  {
    assert Quot(x * y, 1) == x * y;
  }

  /** The two roundings succeed together, differ by at most one, and agree
      exactly when z divides x * y. */
  lemma MulDivCeilIsFloorOrNext(x: int, y: int, z: int)
    requires x * y >= 0 && z > 0
    ensures SafeMulDivCeil(x, y, z).Ok? <==> SafeMulDivFloor(x, y, z).Ok?
    ensures SafeMulDivFloor(x, y, z).Ok? ==>
      var lo, hi := SafeMulDivFloor(x, y, z).value, SafeMulDivCeil(x, y, z).value;
      (hi == lo || hi == lo + 1) && (hi == lo <==> (x * y) % z == 0)
  {
  }

  /** The rounded-up quotient escapes uint256 when the unrounded one is
      UINT256_MAX with a remainder: here (2^256 - 2)(2^255 + 1) / 2^255. */
  lemma MulDivCeilCanReach2To256()
    ensures SafeMulDivCeil(
      0xfffffffffffffffffffffffffffffffffffffffffffffffffffffffffffffffe,
      0x8000000000000000000000000000000000000000000000000000000000000001,
      0x8000000000000000000000000000000000000000000000000000000000000000)
      == Ok(UINT256_MAX + 1)
  {
  }

  /** The unchecked ceiling division agrees with the checked one on uint256
      operands, except that a zero divisor gives 0 instead of an error. */
  lemma UnsafeDivCeilAgreesWithMulDivCeil(x: int, y: int)
    requires IsUint256(x) && IsUint256(y)
    ensures y > 0 ==> SafeMulDivCeil(x, 1, y) == Ok(UnsafeDivCeil(x, y))
    ensures y == 0 ==> SafeMulDivCeil(x, 1, y).Err? && UnsafeDivCeil(x, y) == 0
  {
  }
}
