/** The few nom combinators the decoders use (`take`, `be_u*`, `le_u*`).  Each
    fails exactly when the input is shorter than what it consumes. */
module Parsing {

  import opened Bytes
  import opened Results

  function Take(input: seq<byte>, n: nat): (r: Nom<seq<byte>>)
    ensures r.Done? <==> |input| >= n
    ensures r.Done? ==> r.value == input[..n] && r.rest == input[n..]
  {
    if |input| < n then Failed else Done(input[n..], input[..n])
  }

  /** `be_u8`/`be_u16`/`be_u32`/`be_u64` for `n` = 1, 2, 4, 8. */
  function TakeBe(input: seq<byte>, n: nat): (r: Nom<nat>)
    ensures r.Done? <==> |input| >= n
    ensures r.Done? ==> r.value == BeUint(input[..n]) && r.rest == input[n..]
  {
    if |input| < n then Failed else Done(input[n..], BeUint(input[..n]))
  }

  /** `le_u8`/`le_u16`/`le_u32` for `n` = 1, 2, 4. */
  function TakeLe(input: seq<byte>, n: nat): (r: Nom<nat>)
    ensures r.Done? <==> |input| >= n
    ensures r.Done? ==> r.value == LeUint(input[..n]) && r.rest == input[n..]
  {
    if |input| < n then Failed else Done(input[n..], LeUint(input[..n]))
  }
}
