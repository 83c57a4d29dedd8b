// Byte buffers.

module Buffers {
  import opened Bits

  function ZeroBytes(n: nat): (z: seq<byte>)
    ensures |z| == n && forall i :: 0 <= i < n ==> z[i] == 0
  {
    seq(n, _ => 0)
  }

  /** memcpy to data + dp */
  method CopyTo(data: array<byte>, dp: nat, from: seq<byte>) returns (next: nat)
    requires dp + |from| <= data.Length
    modifies data
    ensures next == dp + |from| && data[..next] == old(data[..dp]) + from
  {
    for k := 0 to |from|
      invariant data[..dp + k] == old(data[..dp]) + from[..k]
    {
      data[dp + k] := from[k];
      assert data[..dp + k + 1] == data[..dp + k] + [from[k]];
      assert from[..k + 1] == from[..k] + [from[k]];
    }
    assert from[..|from|] == from;
    next := dp + |from|;
  }
}
