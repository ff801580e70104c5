/** Range-checking casts (SafeCast): each returns its argument unchanged
    when it lies in the target domain and fails otherwise. */
module Cast {
  import opened Results
  import opened Evm

  function ToUint160(x: int): (r: Result<int>)
    ensures r.Ok? <==> IsUint160(x)
    ensures r.Ok? ==> r.value == x
    ensures r.Err? ==> r.msg == "result overflows or underflows uint160"
  {
    if !IsUint160(x) then Err("result overflows or underflows uint160") else Ok(x)
  }

  /** Checks the int128 domain (the source's doc comment says int160). */
  function ToInt128(x: int): (r: Result<int>)
    ensures r.Ok? <==> IsInt128(x)
    ensures r.Ok? ==> r.value == x
    ensures r.Err? ==> r.msg == "result overflows or underflows int128"
  {
    if !IsInt128(x) then Err("result overflows or underflows int128") else Ok(x)
  }

  function ToInt256(x: int): (r: Result<int>)
    ensures r.Ok? <==> IsInt256(x)
    ensures r.Ok? ==> r.value == x
    ensures r.Err? ==> r.msg == "result overflows or underflows int256"
  {
    if !IsInt256(x) then Err("result overflows or underflows int256") else Ok(x)
  }

  /** A successful cast lands in its domain, so casting again changes nothing. */
  lemma CastsIdempotent(x: int)
    ensures ToUint160(x).Ok? ==> ToUint160(ToUint160(x).value) == ToUint160(x)
    ensures ToInt128(x).Ok? ==> ToInt128(ToInt128(x).value) == ToInt128(x)
    ensures ToInt256(x).Ok? ==> ToInt256(ToInt256(x).value) == ToInt256(x)
  {
  }

  /** A checked cast and the wraparound cast agree exactly where the checked one succeeds. */
  lemma CheckedCastMatchesWrap(x: int)
    ensures ToUint160(x).Ok? <==> Uint160(x) == x
    ensures ToUint160(x).Ok? ==> ToUint160(x).value == Uint160(x)
  {
    WrapIdentityOnDomain(x);
  }

  /** An int128 value always passes the int256 cast unchanged. */
  lemma Int128CastImpliesInt256(x: int)
    ensures ToInt128(x).Ok? ==> ToInt256(x) == ToInt128(x)
  {
    DomainsNest(x);
  }
}
