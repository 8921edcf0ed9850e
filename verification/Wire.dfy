/**
 One open file descriptor as its writer sees it: each non-blocking write takes
 some of the bytes, none of them, or reports the link dead, as an arbitrary
 environment decides.
 */
module Wire {
  import opened Bytes

  class Fd {
    const outcome: nat -> int  // what the environment answers, write by write
    var writes: nat
    var accepted: seq<byte>  // every byte taken so far

    constructor (outcome: nat -> int)
      ensures accepted == [] && writes == 0 && this.outcome == outcome
    {
      this.outcome := outcome;
      writes := 0;
      accepted := [];
    }

    /** What write number `k` answers when offered `n` bytes. */
    function Answer(k: nat, n: nat): (r: int)
      ensures -1 <= r <= n
    {
      var r := outcome(k);
      if r < 0 then -1 else if r > n then n else r
    }

    method WriteSome(buf: seq<byte>) returns (r: int)
      modifies this
      ensures r == Answer(old(writes), |buf|) && writes == old(writes) + 1
      ensures accepted == old(accepted) + (if r < 0 then [] else buf[..r])
    {
      r := Answer(writes, |buf|);
      writes := writes + 1;
      if r >= 0 {
        accepted := accepted + buf[..r];
      }
    }
  }
}
