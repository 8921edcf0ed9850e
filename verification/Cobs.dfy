/**
 Consistent Overhead Byte Stuffing (cpp/src/codec/cobs.cc): the specification
 by blocks, the encoder over a preallocated buffer, the decoder, and what the
 pair guarantees.
 */
module Cobs {
  import opened Bytes

  const FULL: nat := 254  // longest run of data bytes in one block

  /** The length of the leading run of non-zero bytes, at most a full block. */
  function Run(data: seq<byte>, limit: nat): (k: nat)
    ensures k <= |data| && k <= limit
    ensures forall i :: 0 <= i < k ==> data[i] != 0
    ensures k < limit && k < |data| ==> data[k] == 0
  {
    if limit == 0 || data == [] || data[0] == 0 then 0 else 1 + Run(data[1..], limit - 1)
  }

  /** One code byte and its run, block after block; a full block says nothing
      about a zero after it, and nothing follows a full block that ends the
      data. */
  function Encode(data: seq<byte>): (e: seq<byte>)
    decreases |data|
  {
    var k := Run(data, FULL);
    if k == FULL then [0xFF] + data[..k] + (if k == |data| then [] else Encode(data[k..]))
    else if k == |data| then [k + 1] + data
    else [k + 1] + data[..k] + Encode(data[k + 1..])
  }

  /** The data `e` stands for, or nothing when `e` is not well formed. */
  function Decode(e: seq<byte>): (r: Option<seq<byte>>)
    decreases |e|
  {
    if e == [] then Some([])
    else if e[0] == 0 || e[0] > |e| || 0 in e[1..e[0]] then None
    else
      var block, rest := e[1..e[0]], e[e[0]..];
      if rest == [] then Some(block)
      else match Decode(rest)
        case None => None
        case Some(tail) => Some(block + (if e[0] == 0xFF then [] else [0]) + tail)
  }

  // ---- what the encoding guarantees -------------------------------------

  lemma {:induction false} RunIs(data: seq<byte>, block: seq<byte>, rest: seq<byte>, limit: nat)
    requires data == block + rest
    requires 0 !in block && |block| <= limit
    requires |block| == limit || rest == [] || rest[0] == 0
    ensures Run(data, limit) == |block|
  {
    if block != [] {
      assert data[0] == block[0] && data[1..] == block[1..] + rest;
      RunIs(data[1..], block[1..], rest, limit - 1);
    }
  }

  lemma EncodeZeroBlock(block: seq<byte>, rest: seq<byte>)
    requires 0 !in block && |block| < FULL
    ensures Encode(block + [0] + rest) == [|block| + 1] + block + Encode(rest)
  {
    var data := block + [0] + rest;
    assert data == block + ([0] + rest);
    RunIs(data, block, [0] + rest, FULL);
    assert data[..|block|] == block && data[|block| + 1..] == rest;
  }

  lemma EncodeFullBlock(block: seq<byte>, rest: seq<byte>)
    requires 0 !in block && |block| == FULL
    ensures Encode(block + rest) == [0xFF] + block + (if rest == [] then [] else Encode(rest))
  {
    var data := block + rest;
    RunIs(data, block, rest, FULL);
    assert data[..|block|] == block && data[|block|..] == rest;
  }

  lemma EncodeLastBlock(block: seq<byte>)
    requires 0 !in block && |block| < FULL
    ensures Encode(block) == [|block| + 1] + block
  {
    assert block + [] == block;
    RunIs(block, block, [], FULL);
  }

  lemma DecodeBlock(code: byte, block: seq<byte>, rest: seq<byte>)
    requires code == |block| + 1 && 0 !in block
    ensures Decode([code] + block + rest) ==
      if rest == [] then Some(block)
      else match Decode(rest)
        case None => None
        case Some(tail) => Some(block + (if code == 0xFF then [] else [0]) + tail)
  {
    var e := [code] + block + rest;
    assert e[1..e[0]] == block && e[e[0]..] == rest;
  }

  /** The data as the encoder cuts it: a first block and what follows it. */
  lemma FirstBlock(data: seq<byte>) returns (block: seq<byte>, rest: seq<byte>, full: bool, last: bool)
    ensures 0 !in block && |block| <= FULL && full == (|block| == FULL)
    ensures data == block + (if full || last then [] else [0]) + rest
    ensures last ==> rest == []
    ensures !last ==> |rest| < |data|
    ensures full && !last ==> rest != []
    ensures Encode(data) == [|block| + 1] + block + (if last then [] else Encode(rest))
  {
    var k := Run(data, FULL);
    block, full, last := data[..k], k == FULL, k == |data|;
    rest := if last then [] else if full then data[k..] else data[k + 1..];
  }

  /** Decoding undoes encoding. */
  lemma {:induction false} RoundTrip(data: seq<byte>)
    ensures Decode(Encode(data)) == Some(data)
    decreases |data|
  {
    hide Encode, Decode;
    var block, rest, full, last := FirstBlock(data);
    DecodeBlock(|block| + 1, block, if last then [] else Encode(rest));
    if last {
      assert block + [] + [] == block;
    } else {
      EncodeNonEmpty(rest);
      RoundTrip(rest);
    }
  }

  lemma EncodeNonEmpty(data: seq<byte>)
    ensures Encode(data) != []
  {}

  /** The delimiter never occurs inside an encoding. */
  lemma {:induction false} EncodeHasNoZero(data: seq<byte>)
    ensures 0 !in Encode(data)
    decreases |data|
  {
    hide Encode;
    var block, rest, full, last := FirstBlock(data);
    if !last {
      EncodeHasNoZero(rest);
    }
  }

  /** At least one byte of overhead, at most one more per full block. */
  lemma {:induction false} EncodeLength(data: seq<byte>)
    ensures |data| + 1 <= |Encode(data)| <= |data| + 1 + |data| / FULL
    decreases |data|
  {
    hide Encode;
    var block, rest, full, last := FirstBlock(data);
    if !last {
      EncodeLength(rest);
    }
  }

  /** `e` ends in a full block followed by a lone 0x01: a block the encoder
      never emits, because the full block already ended the data. */
  predicate EndsInPhantom(e: seq<byte>)
    decreases |e|
  {
    e != [] && 0 < e[0] <= |e| &&
    (if e[0] == 0xFF && e[0xFF..] == [1] then true else EndsInPhantom(e[e[0]..]))
  }

  /** An accepted encoding is the one the encoder produces exactly when it is
      neither empty nor ends in such a block. */
  lemma {:induction false} CanonicalIff(e: seq<byte>)
    requires Decode(e).Some?
    ensures Encode(Decode(e).value) == e <==> e != [] && !EndsInPhantom(e)
    decreases |e|
  {
    if e != [] {
      var block, rest := e[1..e[0]], e[e[0]..];
      var data := Decode(e).value;
      assert e == [e[0]] + block + rest;
      if rest == [] {
        LastBlockCanonical(e);
      } else {
        CanonicalIff(rest);
        var tail := Decode(rest).value;
        if e[0] == 0xFF {
          assert data == block + tail by { assert block + [] + tail == block + tail; }
          EncodeFullBlock(block, tail);
          DecodesToNothing(rest);
          if tail == [] {
            assert Encode(data) == [0xFF] + block;
            assert |Encode(data)| < |e|;
          } else {
            assert Encode(data) == [0xFF] + block + Encode(tail);
            SameHead([0xFF] + block, Encode(tail), rest);
          }
        } else {
          EncodeZeroBlock(block, tail);
          SameHead([e[0]] + block, Encode(tail), rest);
        }
      }
    } else {
      EncodeNonEmpty([]);
    }
  }

  lemma LastBlockCanonical(e: seq<byte>)
    requires e != [] && Decode(e).Some? && e[e[0]..] == []
    ensures Encode(Decode(e).value) == e && !EndsInPhantom(e)
  {
    var block := e[1..e[0]];
    assert e == [e[0]] + block;
    assert !EndsInPhantom([]);
    if |block| == FULL {
      assert block + [] == block;
      EncodeFullBlock(block, []);
    } else {
      EncodeLastBlock(block);
    }
  }

  lemma SameHead(head: seq<byte>, a: seq<byte>, b: seq<byte>)
    ensures head + a == head + b <==> a == b
  {
    assert (head + a)[|head|..] == a && (head + b)[|head|..] == b;
  }

  /** Only the empty string and the lone 0x01 decode to no data. */
  lemma DecodesToNothing(e: seq<byte>)
    requires Decode(e).Some?
    ensures Decode(e).value == [] <==> e == [] || e == [1]
  {
    if e != [] && e[e[0]..] == [] {
      assert |e| == e[0];
    }
  }

  // ---- the encoder ---------------------------------------------------------

  /** The buffer, part-way: blocks finished below `codePtr`, the block being
      filled up to `p`, and `rest` still to come. `open` is false just after a
      full run, when nothing more may be owed. */
  ghost predicate Partway(data: seq<byte>, out: seq<byte>, codePtr: nat, p: nat, open: bool, rest: seq<byte>)
  {
    codePtr < p <= |out| && p - codePtr <= FULL && 0 !in out[codePtr + 1..p] &&
    (!open ==> p == codePtr + 1) &&
    Encode(data) == out[..codePtr] +
      (if !open && rest == [] then [] else Encode(out[codePtr + 1..p] + rest))
  }

  lemma StepStart(data: seq<byte>, out: seq<byte>)
    requires |out| >= 2
    ensures Partway(data, out, 0, 1, true, data)
  {
    hide Encode;
    assert out[1..1] + data == data;
    assert out[..0] + Encode(data) == Encode(data);
  }

  /** Writing the code byte closes the block below `p`. */
  lemma Sealed(out: seq<byte>, codePtr: nat, p: nat, code: byte, more: seq<byte>)
    requires codePtr < p <= |out|
    ensures out[codePtr := code][..p] + more == out[..codePtr] + ([code] + out[codePtr + 1..p] + more)
  {
    var after := out[codePtr := code];
    assert after[..p] == out[..codePtr] + ([code] + out[codePtr + 1..p]);
  }

  lemma StepZero(data: seq<byte>, out: seq<byte>, codePtr: nat, p: nat, open: bool, rest: seq<byte>)
    requires Partway(data, out, codePtr, p, open, rest)
    requires rest != [] && rest[0] == 0 && p < |out|
    ensures Partway(data, out[codePtr := p - codePtr], p, p + 1, true, rest[1..])
  {
    hide Encode;
    var block, after := out[codePtr + 1..p], out[codePtr := p - codePtr];
    assert block + rest == block + [0] + rest[1..];
    EncodeZeroBlock(block, rest[1..]);
    Sealed(out, codePtr, p, p - codePtr, Encode(rest[1..]));
    assert after[p + 1..p + 1] + rest[1..] == rest[1..];
  }

  lemma StepByte(data: seq<byte>, out: seq<byte>, codePtr: nat, p: nat, open: bool, rest: seq<byte>)
    requires Partway(data, out, codePtr, p, open, rest)
    requires rest != [] && rest[0] != 0 && p < |out| && p + 1 - codePtr <= FULL
    ensures Partway(data, out[p := rest[0]], codePtr, p + 1, true, rest[1..])
  {
    hide Encode;
    var block, after := out[codePtr + 1..p], out[p := rest[0]];
    assert after[codePtr + 1..p + 1] == block + [rest[0]];
    assert block + rest == block + [rest[0]] + rest[1..];
    assert after[..codePtr] == out[..codePtr];
  }

  lemma StepFull(data: seq<byte>, out: seq<byte>, codePtr: nat, p: nat, open: bool, rest: seq<byte>)
    requires Partway(data, out, codePtr, p, open, rest)
    requires rest != [] && rest[0] != 0 && p + 1 < |out| && p - codePtr == FULL
    ensures Partway(data, out[p := rest[0]][codePtr := 0xFF], p + 1, p + 2, false, rest[1..])
  {
    hide Encode;
    var placed := out[p := rest[0]];
    var block := placed[codePtr + 1..p + 1];
    assert block == out[codePtr + 1..p] + [rest[0]];
    assert out[codePtr + 1..p] + rest == block + rest[1..];
    EncodeFullBlock(block, rest[1..]);
    var more := if rest[1..] == [] then [] else Encode(rest[1..]);
    assert out[..codePtr] == placed[..codePtr];
    Sealed(placed, codePtr, p + 1, 0xFF, more);
    assert placed[codePtr := 0xFF][p + 2..p + 2] + rest[1..] == rest[1..];
  }

  lemma StepEnd(data: seq<byte>, out: seq<byte>, codePtr: nat, p: nat, open: bool)
    requires Partway(data, out, codePtr, p, open, [])
    ensures open ==> out[codePtr := p - codePtr][..p] == Encode(data)
    ensures !open ==> out[..p - 1] == Encode(data)
  {
    hide Encode;
    if open {
      var block := out[codePtr + 1..p];
      assert block + [] == block;
      EncodeLastBlock(block);
      Sealed(out, codePtr, p, p - codePtr, []);
      assert [|block| + 1] + block + [] == Encode(block);
    }
  }

  method CobsEncode(data: seq<byte>) returns (result: seq<byte>)
    ensures result == Encode(data)
  {
    hide Encode, Partway;
    var out := new byte[|data| + |data| / 254 + 2](_ => 0);
    var codePtr, p := 0, 1;  // out[0] is a placeholder for the first code byte
    var code := 1;
    var blockOpen := true;
    ghost var full := 0;     // full blocks so far
    StepStart(data, out[..]);
    var i := 0;
    assert data[i..] == data;
    while i < |data|
      invariant 0 <= i <= |data|
      invariant 1 <= code <= FULL && code == p - codePtr && p == i + full + 1
      invariant 254 * full + (code - 1) <= i
      invariant Partway(data, out[..], codePtr, p, blockOpen, data[i..])
    {
      var b := data[i];
      ghost var before := out[..];
      assert data[i..][0] == b && data[i..][1..] == data[i + 1..];
      if b == 0 {
        StepZero(data, before, codePtr, p, blockOpen, data[i..]);
        out[codePtr] := code;
        codePtr, p := p, p + 1;
        code := 1;
        blockOpen := true;
      } else {
        out[p] := b;
        p := p + 1;
        code := code + 1;
        if code == 0xFF {
          StepFull(data, before, codePtr, p - 1, blockOpen, data[i..]);
          out[codePtr] := code;
          codePtr, p := p, p + 1;
          code := 1;
          blockOpen := false;
          full := full + 1;
        } else {
          StepByte(data, before, codePtr, p - 1, blockOpen, data[i..]);
          blockOpen := true;
        }
      }
      i := i + 1;
    }
    assert data[i..] == [];
    StepEnd(data, out[..], codePtr, p, blockOpen);
    if blockOpen {
      out[codePtr] := code;
    } else {
      p := p - 1;  // drop the empty block a trailing full run opened
    }
    result := out[..p];
  }

  // ---- the decoder -----------------------------------------------------------

  /** The decoder, part-way: `out` holds everything before `rest`. */
  ghost predicate Decoding(encoded: seq<byte>, prior: seq<byte>, out: seq<byte>, rest: seq<byte>)
  {
    (Decode(encoded).Some? <==> Decode(rest).Some?) &&
    (Decode(rest).Some? ==> prior + Decode(encoded).value == out + Decode(rest).value)
  }

  lemma DecodeStep(encoded: seq<byte>, prior: seq<byte>, out: seq<byte>, rest: seq<byte>)
    requires Decoding(encoded, prior, out, rest) && rest != []
    requires 0 < rest[0] <= |rest| && 0 !in rest[1..rest[0]]
    ensures var after := rest[rest[0]..];
      Decoding(encoded, prior,
               out + rest[1..rest[0]] + (if after != [] && rest[0] != 0xFF then [0] else []), after)
  {
    var block, after := rest[1..rest[0]], rest[rest[0]..];
    if after != [] && Decode(after).Some? {
      var tail := Decode(after).value;
      var gap := if rest[0] == 0xFF then [] else [0];
      assert out + (block + gap + tail) == out + block + gap + tail;
    }
    assert Decode([]) == Some([]);
  }

  lemma DecodeStart(encoded: seq<byte>, prior: seq<byte>)
    ensures Decoding(encoded, prior, prior, encoded)
  {}

  lemma DecodeEnd(encoded: seq<byte>, prior: seq<byte>, out: seq<byte>)
    requires Decoding(encoded, prior, out, [])
    ensures Decode(encoded).Some? && out == prior + Decode(encoded).value
  {}

  lemma DecodeFails(encoded: seq<byte>, prior: seq<byte>, out: seq<byte>, rest: seq<byte>)
    requires Decoding(encoded, prior, out, rest) && rest != []
    requires rest[0] == 0 || rest[0] > |rest| || 0 in rest[1..rest[0]]
    ensures Decode(encoded).None?
  {}

  /** Appends the decoded bytes to `prior`; false when `encoded` is not well
      formed. */
  method CobsDecode(encoded: seq<byte>, prior: seq<byte>) returns (ok: bool, out: seq<byte>)
    ensures ok <==> Decode(encoded).Some?
    ensures ok ==> out == prior + Decode(encoded).value
  {
    hide Decoding, Decode;
    out := prior;
    var i := 0;
    DecodeStart(encoded, prior);
    assert encoded[0..] == encoded;
    while i < |encoded|
      invariant 0 <= i <= |encoded|
      invariant Decoding(encoded, prior, out, encoded[i..])
    {
      var code := encoded[i];
      ghost var rest, before := encoded[i..], out;
      if code == 0 {
        DecodeFails(encoded, prior, out, rest);
        return false, out;
      }
      var end := i + code;
      if end > |encoded| {
        DecodeFails(encoded, prior, out, rest);
        return false, out;
      }
      assert rest[1..code] == encoded[i + 1..end] && rest[code..] == encoded[end..];
      var j := i + 1;
      while j < end
        invariant i + 1 <= j <= end
        invariant 0 !in encoded[i + 1..j]
        invariant out == before + encoded[i + 1..j]
      {
        var b := encoded[j];
        if b == 0 {
          assert rest[1..code][j - i - 1] == 0;
          DecodeFails(encoded, prior, before, rest);
          return false, out;
        }
        assert encoded[i + 1..j + 1] == encoded[i + 1..j] + [b];
        out := out + [b];
        j := j + 1;
      }
      DecodeStep(encoded, prior, before, rest);
      assert before + rest[1..code] + [] == out;
      i := end;
      if i < |encoded| && code != 0xFF {
        out := out + [0];
      }
    }
    assert encoded[i..] == [];
    DecodeEnd(encoded, prior, out);
    ok := true;
  }
}
