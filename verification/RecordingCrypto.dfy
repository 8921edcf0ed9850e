/**
 The encrypted recording container: the C++ side that writes it
 (cpp/src/mcap/recording_crypto.cc) and the Python side that reads it
 (python/visio_schema/mcap/crypto.py). HMAC-SHA256 and the ChaCha20 block
 function (sections 2.3 and 2.4 of RFC 8439) are parameters.
 */
module RecordingCrypto {
  import opened Bytes
  import opened Bits

  const HEADER_BYTES: nat := 32
  const BLOCK_BYTES: nat := 64
  const MAX_KEY_LABEL_BYTES: nat := 32
  const BYTES_VALID_OFFSET: nat := 28
  const CHUNK: nat := 0x4000_0000
  const MAX_OFFSET: nat := 0x40_0000_0000  // a 32-bit block counter

  /** The primitives both sides call. */
  datatype Primitives = Primitives(hmac: (seq<byte>, seq<byte>) -> seq<byte>,
                                   block: (seq<byte>, seq<byte>, nat) -> seq<byte>)
  {
    ghost predicate Valid()
    {
      forall key, nonce, counter :: |block(key, nonce, counter)| == BLOCK_BYTES
    }
  }

  datatype Suite = Suite(magic: seq<byte>, keyLabel: seq<byte>)

  function XorByte(a: byte, b: byte): byte
  {
    XorFits256(a, b);
    Xor(a, b)
  }

  lemma XorFits256(a: byte, b: byte)
    ensures 0 <= Xor(a, b) < 256
  {
    assert Pow2(8) == 256 by { PowersOfTwo(); }
    XorFits(a, b, 8);
  }

  lemma PowersOfTwo()
    ensures Pow2(8) == 256
  {
    assert Pow2(4) == 2 * Pow2(3) == 4 * Pow2(2) == 8 * Pow2(1) == 16 * Pow2(0);
    assert Pow2(8) == 2 * Pow2(7) == 4 * Pow2(6) == 8 * Pow2(5) == 16 * Pow2(4);
  }

  lemma {:induction false} XorTwice(a: nat, b: nat)
    ensures Xor(Xor(a, b), b) == a
    decreases a + b
  {
    if a != 0 || b != 0 {
      XorTwice(a / 2, b / 2);
      XorHalves(a, b);
      XorHalves(Xor(a, b), b);
    }
  }

  lemma XorHalves(a: nat, b: nat)
    ensures Xor(a, b) / 2 == Xor(a / 2, b / 2)
    ensures Xor(a, b) % 2 == if a % 2 != b % 2 then 1 else 0
  {}

  // ---- the stateless definition -----------------------------------------------------

  /** Keystream byte `p`: the offset identity both sides rest on. */
  function Keystream(prim: Primitives, key: seq<byte>, nonce: seq<byte>, p: nat): byte
  {
    var block := prim.block(key, nonce, p / BLOCK_BYTES);
    if p % BLOCK_BYTES < |block| then block[p % BLOCK_BYTES] else 0
  }

  /** `data` at plaintext offset `at`, encrypted or decrypted. */
  function XorRange(prim: Primitives, key: seq<byte>, nonce: seq<byte>, at: nat, data: seq<byte>): (r: seq<byte>)
    ensures |r| == |data|
    ensures forall i :: 0 <= i < |data| ==> r[i] == XorByte(data[i], Keystream(prim, key, nonce, at + i))
  {
    seq(|data|, i requires 0 <= i < |data| => XorByte(data[i], Keystream(prim, key, nonce, at + i)))
  }

  lemma XorRangeIs(prim: Primitives, key: seq<byte>, nonce: seq<byte>, at: nat, data: seq<byte>, r: seq<byte>)
    requires |r| == |data|
    requires forall j :: 0 <= j < |data| ==> r[j] == XorByte(data[j], Keystream(prim, key, nonce, at + j))
    ensures r == XorRange(prim, key, nonce, at, data)
  {}

  /** It is its own inverse. */
  lemma XorRangeTwice(prim: Primitives, key: seq<byte>, nonce: seq<byte>, at: nat, data: seq<byte>)
    ensures XorRange(prim, key, nonce, at, XorRange(prim, key, nonce, at, data)) == data
  {
    forall i | 0 <= i < |data|
      ensures var k := Keystream(prim, key, nonce, at + i); XorByte(XorByte(data[i], k), k) == data[i]
    {
      XorTwice(data[i], Keystream(prim, key, nonce, at + i));
    }
  }

  /** Any part of it is the same thing at a later offset. */
  lemma XorRangePart(prim: Primitives, key: seq<byte>, nonce: seq<byte>, at: nat, data: seq<byte>, i: nat, j: nat)
    requires i <= j <= |data|
    ensures XorRange(prim, key, nonce, at, data)[i..j] == XorRange(prim, key, nonce, at + i, data[i..j])
  {
    var whole, part := XorRange(prim, key, nonce, at, data)[i..j], XorRange(prim, key, nonce, at + i, data[i..j]);
    forall k | 0 <= k < j - i
      ensures whole[k] == part[k]
    {
      assert at + i + k == at + (i + k);
    }
  }

  // ---- a stateful cipher context -------------------------------------------------------

  /** The library's cipher context: a block counter and how much of that block is
      used. Any call may fail; what the context produces after that is unknown, `junk`
      for the byte at each index. */
  class CipherContext {
    const prim: Primitives
    const fails: nat -> bool
    const junk: nat -> byte
    var calls: nat
    var key: seq<byte>
    var nonce: seq<byte>
    var counter: nat
    var used: nat
    var known: bool

    constructor (prim: Primitives, fails: nat -> bool, junk: nat -> byte)
      ensures this.prim == prim && this.fails == fails && this.junk == junk && calls == 0 && !known
    {
      this.prim, this.fails, this.junk := prim, fails, junk;
      calls, key, nonce, counter, used, known := 0, [], [], 0, 0, false;
    }

    /** Ready to produce keystream byte `at` of a key and nonce. */
    ghost predicate At(k: seq<byte>, n: seq<byte>, at: nat)
      reads this
    {
      known && key == k && nonce == n && used < BLOCK_BYTES && counter * BLOCK_BYTES + used == at
    }

    /** The IV's first four bytes hold the counter, little-endian. */
    method Init(k: seq<byte>, n: seq<byte>, iv: seq<byte>) returns (ok: bool)
      requires |iv| == 4
      modifies this
      ensures calls == old(calls) + 1 && ok == !fails(old(calls))
      ensures ok ==> known && key == k && nonce == n && used == 0 && counter == FromLE(iv)
      ensures !ok ==> !known
    {
      ok := !fails(calls);
      calls := calls + 1;
      key, nonce, counter, used, known := k, n, FromLE(iv), 0, ok;
    }

    /** Encrypt `n` bytes of `src` from `from` on into `dst`, in place or not: in
        lockstep with the keystream of `k` and `nn` if it was at `at` of it. */
    method Update(src: array<byte>, from: nat, n: nat, dst: array<byte>, ghost k: seq<byte>, ghost nn: seq<byte>,
                  ghost at: nat) returns (ok: bool)
      requires prim.Valid() && from + n <= src.Length && from + n <= dst.Length
      modifies this, dst
      ensures calls == old(calls) + 1 && ok == !fails(old(calls)) && (!ok ==> !known)
      ensures old(At(k, nn, at)) && ok ==> At(k, nn, at + n)
      ensures old(At(k, nn, at)) && ok ==> forall j :: from <= j < from + n ==>
        dst[j] == XorByte(old(src[j]), Keystream(prim, k, nn, at + (j - from)))
      ensures !old(known) ==> !known
      ensures !old(known) && ok ==> forall j :: from <= j < from + n ==> dst[j] == XorByte(old(src[j]), junk(j))
      ensures forall j :: 0 <= j < dst.Length && !(from <= j < from + n) ==> dst[j] == old(dst[j])
    {
      hide Keystream, XorByte;
      ok := !fails(calls);
      calls := calls + 1;
      if !ok {
        known := false;
        return;
      }
      ghost var lockstep := old(At(k, nn, at));
      var i := 0;
      while i < n
        invariant 0 <= i <= n && calls == old(calls) + 1
        invariant lockstep ==> At(k, nn, at + i)
        invariant known == old(known)
        invariant !known ==> forall j :: from <= j < from + i ==> dst[j] == XorByte(old(src[j]), junk(j))
        invariant lockstep ==> forall j :: from <= j < from + i ==>
          dst[j] == XorByte(old(src[j]), Keystream(prim, k, nn, at + (j - from)))
        invariant forall j :: 0 <= j < dst.Length && !(from <= j < from + i) ==> dst[j] == old(dst[j])
        invariant src != dst ==> forall j :: 0 <= j < src.Length ==> src[j] == old(src[j])
      {
        var b := NextByte(from + i, at + i);
        dst[from + i] := XorByte(src[from + i], b);
        i := i + 1;
      }
    }

    /** One keystream byte, or junk. */
    method NextByte(index: nat, ghost at: nat) returns (b: byte)
      requires prim.Valid()
      modifies this`counter, this`used
      ensures known == old(known) && key == old(key) && nonce == old(nonce)
      ensures !known ==> b == junk(index)
      ensures known && old(used) < BLOCK_BYTES && old(counter) * BLOCK_BYTES + old(used) == at ==>
        && used < BLOCK_BYTES && counter * BLOCK_BYTES + used == at + 1
        && b == Keystream(prim, key, nonce, at)
    {
      if !known || used >= BLOCK_BYTES { return junk(index); }
      ghost var c, u := counter, used;
      var block := prim.block(key, nonce, counter);
      b := block[used];
      used := used + 1;
      if used == BLOCK_BYTES {
        counter, used := counter + 1, 0;
      }
      if c * BLOCK_BYTES + u == at { BlockAndByte(c, u); }
    }
  }

  lemma BlockAndByte(c: nat, u: nat)
    requires u < BLOCK_BYTES
    ensures (c * BLOCK_BYTES + u) / BLOCK_BYTES == c && (c * BLOCK_BYTES + u) % BLOCK_BYTES == u
  {}

  function LE32(v: nat): (r: seq<byte>)
    ensures |r| == 4
  {
    [v % 256, v / 256 % 256, v / 65536 % 256, v / 16777216 % 256]
  }

  function FromLE(s: seq<byte>): nat
    requires |s| == 4
  {
    s[0] as nat + 256 * s[1] as nat + 65536 * s[2] as nat + 16777216 * s[3] as nat
  }

  lemma LERoundTrip(v: nat)
    requires v < 0x1_0000_0000
    ensures FromLE(LE32(v)) == v
  {
    var a, b, c := v / 256, v / 65536, v / 16777216;
    assert b == a / 256 && c == b / 256;
    assert v == 256 * a + v % 256 && a == 256 * b + a % 256 && b == 256 * c + b % 256;
  }

  /** Pieces encrypted one after the other are the whole, encrypted. */
  lemma XorRangeConcat(prim: Primitives, key: seq<byte>, nonce: seq<byte>, at: nat, a: seq<byte>, b: seq<byte>)
    ensures XorRange(prim, key, nonce, at, a) + XorRange(prim, key, nonce, at + |a|, b)
         == XorRange(prim, key, nonce, at, a + b)
  {
    hide Keystream, XorByte, XorRange;
    var ab := a + b;
    var whole := XorRange(prim, key, nonce, at, ab);
    assert ab[0..|a|] == a && ab[|a|..|ab|] == b;
    XorRangePart(prim, key, nonce, at, ab, 0, |a|);
    XorRangePart(prim, key, nonce, at, ab, |a|, |ab|);
    Halves(whole, |a|);
  }

  lemma Halves(s: seq<byte>, k: nat)
    requires k <= |s|
    ensures s[0..k] + s[k..|s|] == s
  {}

  /** Library calls for `len` bytes. */
  function Chunks(len: nat): nat
  {
    (len + CHUNK - 1) / CHUNK
  }

  lemma {:induction false} XorZero(b: nat)
    ensures Xor(0, b) == b
  {
    if b != 0 {
      XorZero(b / 2);
      XorHalves(0, b);
    }
  }

  // ---- the writer's cipher ---------------------------------------------------------------

  /** Random access to one part's keystream, with the context kept between calls. */
  class RecordingCipher {
    const prim: Primitives
    const nonce: seq<byte>
    const ctx: CipherContext
    const fileKey: seq<byte>
    const valid: bool
    var position: nat
    var positioned: bool

    ghost predicate Valid()
      reads this
    {
      prim.Valid() && ctx.prim == prim
    }

    /** Where it believes it is, it is. */
    ghost predicate Faithful()
      reads this, ctx
    {
      positioned ==> ctx.At(fileKey, nonce, position)
    }

    constructor (prim: Primitives, key: seq<byte>, nonce: seq<byte>, suite: Suite, fails: nat -> bool,
                 junk: nat -> byte)
      requires prim.Valid()
      ensures Valid() && Faithful() && fresh(ctx) && this.prim == prim && this.nonce == nonce
      ensures ctx.fails == fails && ctx.junk == junk && ctx.calls == 0 && !positioned
      ensures valid == (|suite.keyLabel| <= MAX_KEY_LABEL_BYTES)
      ensures valid ==> fileKey == prim.hmac(key, suite.keyLabel + nonce)
    {
      this.prim, this.nonce := prim, nonce;
      valid := |suite.keyLabel| <= MAX_KEY_LABEL_BYTES;
      fileKey := if |suite.keyLabel| <= MAX_KEY_LABEL_BYTES then prim.hmac(key, suite.keyLabel + nonce) else [];
      ctx := new CipherContext(prim, fails, junk);
      position, positioned := 0, false;
    }

    /** Whether a seek to `at` would fail, from library call `c` on. */
    predicate SeekFails(at: nat, c: nat)
    {
      ctx.fails(c) || (at % BLOCK_BYTES > 0 && ctx.fails(c + 1))
    }

    /** Re-key at the block `at` lies in, and burn what precedes it there. */
    method SeekTo(at: nat) returns (ok: bool)
      requires Valid() && at < MAX_OFFSET
      modifies this, ctx
      ensures Valid() && ok == !SeekFails(at, old(ctx.calls))
      ensures ok ==> positioned && position == at && ctx.At(fileKey, nonce, at)
      ensures !ok ==> positioned == old(positioned) && position == old(position) && !ctx.known
      ensures ctx.calls == old(ctx.calls) + SeekCalls(at, old(ctx.calls))
    {
      var block, within := at / BLOCK_BYTES, at % BLOCK_BYTES;
      LERoundTrip(block);
      ok := ctx.Init(fileKey, nonce, LE32(block));
      if !ok { return; }
      if within > 0 {
        var zeros, scratch := new byte[BLOCK_BYTES](i => 0), new byte[BLOCK_BYTES];
        ok := ctx.Update(zeros, 0, within, scratch, fileKey, nonce, block * BLOCK_BYTES);
        if !ok { return; }
      }
      position := at;
      positioned := true;
    }

    /** Library calls a seek to `at` makes, from call `c` on. */
    function SeekCalls(at: nat, c: nat): nat
    {
      if at % BLOCK_BYTES > 0 && !ctx.fails(c) then 2 else 1
    }

    /** Whether the library takes `len` bytes in chunks, from call `c` on. */
    ghost predicate Streams(len: nat, c: nat)
    {
      forall k :: c <= k < c + Chunks(len) ==> !ctx.fails(k)
    }

    /** Whether every library call an `XorAt` needs works. */
    ghost predicate Works(at: nat, len: nat, there: bool, c: nat)
    {
      && valid
      && (len == 0 || if there then Streams(len, c) else !SeekFails(at, c) && Streams(len, c + SeekCalls(at, c)))
    }

    /** XOR `len` bytes of `src` into `dst` at plaintext offset `at`; the two may be
        the same array. It works exactly if every library call it needs does. A
        faithful cipher that says it worked did what the stateless definition says; it
        stays faithful exactly unless it was positioned elsewhere and the seek failed.
        One that lost its place in that way still says it worked at that place, with
        whatever the context then produces. */
    method XorAt(at: nat, src: array<byte>, len: nat, dst: array<byte>) returns (ok: bool)
      requires Valid() && at + len <= MAX_OFFSET && len <= src.Length && len <= dst.Length
      modifies this, ctx, dst
      ensures Valid() && (ok <==> Works(at, len, old(positioned && position == at), old(ctx.calls)))
      ensures ok && len > 0 ==> positioned && position == at + len
      ensures ok && len > 0 ==>
        ctx.calls == old(ctx.calls) + Chunks(len)
          + if old(positioned && position == at) then 0 else SeekCalls(at, old(ctx.calls))
      ensures valid && len > 0 && !old(positioned && position == at) && SeekFails(at, old(ctx.calls)) ==>
        && positioned == old(positioned) && position == old(position) && !ctx.known
        && ctx.calls == old(ctx.calls) + SeekCalls(at, old(ctx.calls)) && dst[..] == old(dst[..])
      ensures old(Faithful()) && ok ==>
        dst[..len] == XorRange(prim, fileKey, nonce, at, old(src[..len])) && dst[len..] == old(dst[len..])
      ensures old(Faithful()) ==>
        var seeks := valid && len > 0 && !old(positioned && position == at);
        Faithful() <==> !(seeks && old(positioned) && SeekFails(at, old(ctx.calls)))
      ensures old(positioned && position == at) && !old(ctx.known) && ok ==>
        forall j :: 0 <= j < len ==> dst[j] == XorByte(old(src[j]), ctx.junk(j))
    {
      hide Keystream, XorByte;
      if !valid { return false; }
      if len == 0 { return true; }
      ghost var data := src[..len];
      if !positioned || position != at {
        var found := SeekTo(at);
        if !found { return false; }
      }
      ok := Stream(at, src, len, dst);
    }

    /** The context is in place: run it over the bytes, chunk by chunk. */
    method Stream(at: nat, src: array<byte>, len: nat, dst: array<byte>) returns (ok: bool)
      requires Valid() && 0 < len && at + len <= MAX_OFFSET && len <= src.Length && len <= dst.Length
      requires positioned && position == at
      modifies this, ctx, dst
      ensures Valid() && (ok <==> Streams(len, old(ctx.calls)))
      ensures if ok then positioned && position == at + len && ctx.calls == old(ctx.calls) + Chunks(len)
              else !positioned
      ensures old(ctx.At(fileKey, nonce, at)) ==> Faithful()
      ensures old(ctx.At(fileKey, nonce, at)) && ok ==>
        dst[..len] == XorRange(prim, fileKey, nonce, at, old(src[..len])) && dst[len..] == old(dst[len..])
      ensures !old(ctx.known) && ok ==> forall j :: 0 <= j < len ==> dst[j] == XorByte(old(src[j]), ctx.junk(j))
    {
      hide Keystream, XorByte, XorRange;
      ghost var data, there := src[..len], ctx.At(fileKey, nonce, at);
      ghost var lost, c, k := !ctx.known, ctx.calls, 0;
      var done := 0;
      while done < len
        invariant 0 <= done <= len && Valid() && positioned && position == at
        invariant 0 <= k <= Chunks(len) && done == (if k * CHUNK < len then k * CHUNK else len)
        invariant ctx.calls == c + k && forall n :: c <= n < c + k ==> !ctx.fails(n)
        invariant forall j :: done <= j < len ==> src[j] == data[j]
        invariant forall j :: len <= j < dst.Length ==> dst[j] == old(dst[j])
        invariant there ==> ctx.At(fileKey, nonce, at + done)
        invariant there ==> forall j :: 0 <= j < done ==>
          dst[j] == XorByte(data[j], Keystream(prim, fileKey, nonce, at + j))
        invariant lost ==> !ctx.known && forall j :: 0 <= j < done ==> dst[j] == XorByte(data[j], ctx.junk(j))
      {
        var chunk := if len - done < CHUNK then len - done else CHUNK;
        ok := ctx.Update(src, done, chunk, dst, fileKey, nonce, at + done);
        if !ok {
          positioned := false;
          return false;
        }
        done, k := done + chunk, k + 1;
      }
      position := at + len;
      if there { XorRangeIs(prim, fileKey, nonce, at, data, dst[..len]); }
      return true;
    }
  }

  /** For instance: encrypt at 0; seek to 128, where the library call fails; go on
      after the first piece. The cipher says that worked, and the byte it gives is not
      that of the stateless definition. */
  method FailedSeekLosesThePlace(prim: Primitives, key: seq<byte>, nonce: seq<byte>)
    returns (cipher: RecordingCipher, out: array<byte>, first: bool, second: bool, third: bool)
    requires prim.Valid()
    ensures first && !second && third && out.Length == 1
    ensures [out[0]] != XorRange(prim, cipher.fileKey, nonce, 1, [0])
  {
    hide Xor, XorByte, Keystream, XorRange;
    var right := Keystream(prim, prim.hmac(key, nonce), nonce, 1);
    cipher := new RecordingCipher(prim, key, nonce, Suite([], []), k => k == 2, k => if right == 0 then 1 else 0);
    assert [] + nonce == nonce;
    var zero := new byte[1](i => 0);
    out := new byte[1](i => 0);
    first := cipher.XorAt(0, zero, 1, out);
    second := cipher.XorAt(128, zero, 1, out);
    third := cipher.XorAt(1, zero, 1, out);
    XorZeroByte(if right == 0 then 1 else 0);
    XorRangeOfZero(prim, cipher.fileKey, nonce, 1);
  }

  lemma XorZeroByte(b: byte)
    ensures XorByte(0, b) == b
  {
    XorZero(b);
  }

  lemma XorRangeOfZero(prim: Primitives, key: seq<byte>, nonce: seq<byte>, at: nat)
    ensures XorRange(prim, key, nonce, at, [0]) == [Keystream(prim, key, nonce, at)]
  {
    XorZeroByte(Keystream(prim, key, nonce, at));
  }

  // ---- the container header ------------------------------------------------------------------

  datatype Header = Header(format: byte, cipher: byte, keyFp: seq<byte>, nonce: seq<byte>, bytesValid: nat)
  {
    predicate Valid()
    {
      |keyFp| == 8 && |nonce| == 12 && bytesValid < 0x1_0000_0000
    }
  }

  /** The 32 plaintext bytes. */
  function HeaderBytes(h: Header, suite: Suite): (r: seq<byte>)
    requires h.Valid() && |suite.magic| == 4
    ensures |r| == HEADER_BYTES
  {
    suite.magic + [h.format, h.cipher, 0, 0] + h.keyFp + h.nonce + LE32(h.bytesValid)
  }

  /** Fill `out` field by field over zeros. */
  method WriteVrecHeader(h: Header, out: array<byte>, suite: Suite)
    requires h.Valid() && |suite.magic| == 4 && out.Length >= HEADER_BYTES
    modifies out
    ensures out[..HEADER_BYTES] == HeaderBytes(h, suite) && out[HEADER_BYTES..] == old(out[HEADER_BYTES..])
  {
    ghost var was := out[HEADER_BYTES..];
    forall i | 0 <= i < HEADER_BYTES { out[i] := 0; }
    forall i | 0 <= i < 4 { out[i] := suite.magic[i]; }
    out[4] := h.format;
    out[5] := h.cipher;
    forall i | 0 <= i < 8 { out[8 + i] := h.keyFp[i]; }
    forall i | 0 <= i < 12 { out[16 + i] := h.nonce[i]; }
    var valid := LE32(h.bytesValid);
    forall i | 0 <= i < 4 { out[BYTES_VALID_OFFSET + i] := valid[i]; }
    assert out[HEADER_BYTES..] == was;
    assert out[..HEADER_BYTES] == out[..4] + out[4..8] + out[8..16] + out[16..28] + out[28..32];
    assert out[..4] == suite.magic && out[4..8] == [h.format, h.cipher, 0, 0];
    assert out[8..16] == h.keyFp && out[16..28] == h.nonce && out[28..32] == valid;
  }

  /** The C++ parser; nothing on a short file, a foreign magic, or a format or cipher
      it does not know. */
  function ParseVrecHeader(data: seq<byte>, suite: Suite): Option<Header>
    requires |suite.magic| == 4
  {
    if |data| < HEADER_BYTES then None
    else if !(|data| >= 4 && data[..4] == suite.magic) then None
    else if data[4] != 1 then None
    else if data[5] != 1 then None
    else Some(Header(data[4], data[5], data[8..16], data[16..28], FromLE(data[28..32])))
  }

  function IsVrec(head: seq<byte>, suite: Suite): bool
  {
    (if |head| < |suite.magic| then head else head[..|suite.magic|]) == suite.magic
  }

  /** The Python parser; nothing where it raises. */
  function ReadVrecHeader(head: seq<byte>, suite: Suite): Option<Header>
  {
    if |head| < HEADER_BYTES || !IsVrec(head, suite) then None
    else if head[4] != 1 || head[5] != 1 then None
    else Some(Header(head[4], head[5], head[8..16], head[16..28], FromLE(head[28..32])))
  }

  /** Both sides accept the same headers and read the same fields from them. */
  lemma ParsersAgree(data: seq<byte>, suite: Suite)
    requires |suite.magic| == 4
    ensures ParseVrecHeader(data, suite) == ReadVrecHeader(data, suite)
  {}

  /** A header is read back as it was written exactly if its format and cipher are the
      ones implemented; otherwise it is refused. */
  lemma HeaderRoundTrip(h: Header, suite: Suite)
    requires h.Valid() && |suite.magic| == 4
    ensures ParseVrecHeader(HeaderBytes(h, suite), suite)
         == if h.format == 1 && h.cipher == 1 then Some(h) else None
  {
    var b := HeaderBytes(h, suite);
    HeaderParts(h, suite);
    LERoundTrip(h.bytesValid);
  }

  lemma HeaderParts(h: Header, suite: Suite)
    requires h.Valid() && |suite.magic| == 4
    ensures var b := HeaderBytes(h, suite);
      && b[..4] == suite.magic && b[4] == h.format && b[5] == h.cipher
      && b[8..16] == h.keyFp && b[16..28] == h.nonce && b[28..32] == LE32(h.bytesValid) && b[..28] + b[28..] == b
  {
    hide LE32;
    var b, len := HeaderBytes(h, suite), LE32(h.bytesValid);
    assert b == suite.magic + ([h.format, h.cipher, 0, 0] + (h.keyFp + (h.nonce + len)));
  }

  /** A writer may update the valid length in place, without the rest. */
  lemma ValidLengthInPlace(h: Header, suite: Suite, bytesValid: nat)
    requires h.Valid() && |suite.magic| == 4 && bytesValid < 0x1_0000_0000
    ensures HeaderBytes(h, suite)[..BYTES_VALID_OFFSET] + LE32(bytesValid)
         == HeaderBytes(h.(bytesValid := bytesValid), suite)
  {
    hide LE32;
    var front := suite.magic + [h.format, h.cipher, 0, 0] + h.keyFp + h.nonce;
    assert HeaderBytes(h, suite)[..BYTES_VALID_OFFSET] == front;
  }

  // ---- the Python reader ------------------------------------------------------------------------

  datatype Whence = SeekSet | SeekCur | SeekEnd | SeekOther

  /** How many plaintext bytes a file shows: up to its end, or up to the length its
      header records if that is less. */
  function PlainSize(file: seq<byte>, h: Header): nat
  {
    if h.bytesValid != 0 && h.bytesValid < |Body(file)| then h.bytesValid else |Body(file)|
  }

  /** What follows the header; nothing in a file shorter than one. */
  function Body(file: seq<byte>): seq<byte>
  {
    if |file| < HEADER_BYTES then [] else file[HEADER_BYTES..]
  }

  /** A seekable plaintext view of an encrypted file. */
  class VrecReader {
    const prim: Primitives
    const file: seq<byte>
    const header: Header
    const fileKey: seq<byte>
    const size: nat
    var pos: nat

    ghost predicate Valid()
    {
      prim.Valid() && size == PlainSize(file, header) && |file| <= MAX_OFFSET
    }

    /** The plaintext it shows. */
    ghost function Plain(): (r: seq<byte>)
      requires Valid()
    {
      XorRange(prim, fileKey, header.nonce, 0, Body(file))[..size]
    }

    constructor (prim: Primitives, file: seq<byte>, header: Header, key: seq<byte>, suite: Suite)
      requires prim.Valid() && |file| <= MAX_OFFSET
      ensures Valid() && this.prim == prim && this.file == file && this.header == header
      ensures fileKey == prim.hmac(key, suite.keyLabel + header.nonce) && pos == 0
    {
      this.prim, this.file, this.header := prim, file, header;
      fileKey := prim.hmac(key, suite.keyLabel + header.nonce);
      size := PlainSize(file, header);
      pos := 0;
    }

    /** Nothing where it raises; the position is then as it was. */
    method Seek(offset: int, whence: Whence) returns (r: Option<nat>)
      modifies this
      ensures var target := match whence
          case SeekSet => offset case SeekCur => old(pos) + offset case SeekEnd => size + offset case SeekOther => -1;
        if target < 0 then r.None? && pos == old(pos) else r == Some(target) && pos == target
    {
      var target: int;
      match whence {
        case SeekSet => target := offset;
        case SeekCur => target := pos + offset;
        case SeekEnd => target := size + offset;
        case SeekOther => return None;
      }
      if target < 0 { return None; }
      pos := target;
      return Some(pos);
    }

    /** The next plaintext bytes, as many as `buf` holds and the view has left. */
    method ReadInto(buf: array<byte>) returns (n: nat)
      requires Valid()
      modifies this, buf
      ensures n == (if old(pos) >= size then 0
        else if buf.Length < size - old(pos) then buf.Length else size - old(pos))
      ensures pos == old(pos) + n
      ensures n > 0 ==> buf[..n] == Plain()[old(pos)..old(pos) + n]
      ensures buf[n..] == old(buf[n..])
    {
      hide Keystream, XorByte, XorRange;
      var want := buf.Length;
      if want == 0 || pos >= size { return 0; }
      want := if want < size - pos then want else size - pos;
      var from := HEADER_BYTES + pos;
      var cipherBytes := file[from..from + want];
      ghost var body := Body(file);
      var plain := XorAt(pos, cipherBytes);
      XorRangePart(prim, fileKey, header.nonce, 0, body, pos, pos + want);
      assert body[pos..pos + want] == cipherBytes;
      assert Plain()[pos..pos + want] == XorRange(prim, fileKey, header.nonce, 0, body)[pos..pos + want];
      forall i | 0 <= i < want { buf[i] := plain[i]; }
      pos := pos + want;
      n := want;
      assert buf[..n] == plain;
    }

    /** A fresh context at the containing block, the leading remainder discarded. */
    method ContextAt(at: nat) returns (enc: CipherContext)
      requires Valid() && at < MAX_OFFSET
      ensures fresh(enc) && enc.prim == prim && enc.At(fileKey, header.nonce, at)
      ensures forall k :: !enc.fails(k)
    {
      hide Keystream, XorByte;
      var block, within := at / BLOCK_BYTES, at % BLOCK_BYTES;
      LERoundTrip(block);
      enc := new CipherContext(prim, k => false, k => 0);
      var ok := enc.Init(fileKey, header.nonce, LE32(block));
      if within > 0 {
        var zeros, scratch := new byte[within](i => 0), new byte[within];
        ok := enc.Update(zeros, 0, within, scratch, fileKey, header.nonce, block * BLOCK_BYTES);
      }
    }

    /** `data` at plaintext offset `at`, decrypted. */
    method XorAt(at: nat, data: seq<byte>) returns (r: seq<byte>)
      requires Valid() && at + |data| <= MAX_OFFSET && data != []
      ensures r == XorRange(prim, fileKey, header.nonce, at, data)
    {
      hide Keystream, XorByte, XorRange;
      var enc := ContextAt(at);
      var src, dst := new byte[|data|](i requires 0 <= i < |data| => data[i]), new byte[|data|];
      var ok := enc.Update(src, 0, |data|, dst, fileKey, header.nonce, at);
      r := dst[..];
      XorRangeIs(prim, fileKey, header.nonce, at, data, r);
    }
  }

  /** What the C++ side wrote, under any header it would write, the Python side shows:
      the plaintext, cut at the recorded length if there is one. */
  lemma ReaderShowsThePlaintext(r: VrecReader, h: Header, suite: Suite, key: seq<byte>, plain: seq<byte>)
    requires r.Valid() && h.Valid() && |suite.magic| == 4 && h.format == 1 && h.cipher == 1
    requires r.file == HeaderBytes(h, suite) +
      XorRange(r.prim, r.prim.hmac(key, suite.keyLabel + h.nonce), h.nonce, 0, plain)
    requires Some(r.header) == ReadVrecHeader(r.file[..HEADER_BYTES], suite)
    requires r.fileKey == r.prim.hmac(key, suite.keyLabel + r.header.nonce)
    ensures r.header == h
    ensures r.Plain() == plain[..if h.bytesValid != 0 && h.bytesValid < |plain| then h.bytesValid else |plain|]
  {
    hide Keystream, XorByte, HeaderBytes, ReadVrecHeader, ParseVrecHeader;
    assert r.file[..HEADER_BYTES] == HeaderBytes(h, suite);
    ParsersAgree(HeaderBytes(h, suite), suite);
    HeaderRoundTrip(h, suite);
    var body := XorRange(r.prim, r.fileKey, h.nonce, 0, plain);
    assert r.file[HEADER_BYTES..] == body;
    XorRangeTwice(r.prim, r.fileKey, h.nonce, 0, plain);
  }
}
