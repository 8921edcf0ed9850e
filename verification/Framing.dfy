/**
 The stream splitter (cpp/src/transport/framing.cc): COBS runs between zero
 delimiters, decoded one by one, with whatever follows the last delimiter kept
 for the next read.
 */
module Framing {
  import opened Bytes
  import opened Crc16
  import opened Frame
  import Cobs

  function EncodeFramed(codec: HeaderCodec, m: Message): seq<byte>
    requires |codec.encode(ToHeader(m))| <= 255
  {
    Cobs.Encode(EncodeFrame(codec, m)) + [0]
  }

  /** The message of one delimited run, or nothing. */
  function DecodeRun(codec: HeaderCodec, run: seq<byte>): (r: seq<Message>)
    ensures |r| <= 1
  {
    if run == [] then []
    else match Cobs.Decode(run)
      case None => []
      case Some(frame) =>
        match DecodeFrame(codec, frame)
        case Ok(m) => [m]
        case _ => []
  }

  /** Where the next delimiter is; `|s|` when there is none. */
  function FindZero(s: seq<byte>): (k: nat)
    ensures k <= |s| && 0 !in s[..k] && (k < |s| ==> s[k] == 0)
  {
    if s == [] || s[0] == 0 then 0
    else
      var k := FindZero(s[1..]);
      assert s[..k + 1] == [s[0]] + s[1..][..k];
      k + 1
  }

  /** The messages delimited in `s`, in order. */
  function Messages(codec: HeaderCodec, s: seq<byte>): seq<Message>
    decreases |s|
  {
    var k := FindZero(s);
    if k == |s| then [] else DecodeRun(codec, s[..k]) + Messages(codec, s[k + 1..])
  }

  /** What follows the last delimiter. */
  function Remainder(s: seq<byte>): (r: seq<byte>)
    ensures |r| <= |s| && 0 !in r
    decreases |s|
  {
    var k := FindZero(s);
    if k == |s| then s else Remainder(s[k + 1..])
  }

  /** The receive buffer of an endpoint. */
  class RxBuffer {
    var bytes: seq<byte>

    constructor ()
      ensures bytes == []
    {
      bytes := [];
    }

    /** Decode every whole run and erase it, all in one go. */
    method ExtractFrames(codec: HeaderCodec, table: array<nat>) returns (out: seq<Message>)
      requires TableHolds(table[..])
      modifies this
      ensures out == Messages(codec, old(bytes))
      ensures bytes == Remainder(old(bytes))
    {
      hide Messages, Remainder, DecodeFrame, Cobs.Decode;
      out := [];
      var pos := 0;
      assert bytes[0..] == bytes;
      while pos < |bytes|
        invariant 0 <= pos <= |bytes| && bytes == old(bytes)
        invariant Messages(codec, bytes) == out + Messages(codec, bytes[pos..])
        invariant Remainder(bytes) == Remainder(bytes[pos..])
      {
        var delim := pos + FindZero(bytes[pos..]);
        if delim == |bytes| { break; }  // partial trailing frame: keep it
        ghost var rest := bytes[pos..];
        assert rest[FindZero(rest) + 1..] == bytes[delim + 1..];
        assert rest[..FindZero(rest)] == bytes[pos..delim];
        FirstRun(codec, rest, FindZero(rest));
        if delim == pos {
          pos := delim + 1;
          continue;
        }
        var run := bytes[pos..delim];
        pos := delim + 1;
        var ok, decoded := Cobs.CobsDecode(run, []);
        if !ok { continue; }
        assert decoded == [] + Cobs.Decode(run).value == Cobs.Decode(run).value;
        var status := DecodeFrameInto(codec, table, decoded);
        if !status.Ok? { continue; }
        out := out + [status.msg];
      }
      LastRun(codec, bytes[pos..]);
      bytes := bytes[pos..];
    }

    /** One read: append what arrived, extract what is whole. */
    method Receive(codec: HeaderCodec, table: array<nat>, chunk: seq<byte>) returns (out: seq<Message>)
      requires TableHolds(table[..])
      modifies this
      ensures out == Messages(codec, old(bytes) + chunk)
      ensures bytes == Remainder(old(bytes) + chunk)
    {
      bytes := bytes + chunk;
      out := ExtractFrames(codec, table);
    }
  }

  lemma FirstRun(codec: HeaderCodec, s: seq<byte>, k: nat)
    requires k == FindZero(s) && k < |s|
    ensures Messages(codec, s) == DecodeRun(codec, s[..k]) + Messages(codec, s[k + 1..])
    ensures Remainder(s) == Remainder(s[k + 1..])
  {
    hide DecodeRun, FindZero;
  }

  lemma LastRun(codec: HeaderCodec, s: seq<byte>)
    ensures FindZero(s) == |s| ==> Messages(codec, s) == [] && Remainder(s) == s
  {}

  // ---- splits -----------------------------------------------------------------

  lemma {:induction false} FindZeroAppend(a: seq<byte>, b: seq<byte>)
    ensures FindZero(a + b) == if FindZero(a) < |a| then FindZero(a) else |a| + FindZero(b)
  {
    if a == [] {
      assert a + b == b;
    } else {
      assert (a + b)[0] == a[0] && (a + b)[1..] == a[1..] + b;
      FindZeroAppend(a[1..], b);
    }
  }

  /** Splitting a stream anywhere changes neither its messages nor what is left. */
  lemma {:induction false} SplitInvariant(codec: HeaderCodec, a: seq<byte>, b: seq<byte>)
    ensures Messages(codec, a + b) == Messages(codec, a) + Messages(codec, Remainder(a) + b)
    ensures Remainder(a + b) == Remainder(Remainder(a) + b)
    decreases |a|
  {
    hide DecodeRun;
    var k := FindZero(a);
    FindZeroAppend(a, b);
    if k < |a| {
      assert (a + b)[..k] == a[..k] && (a + b)[k + 1..] == a[k + 1..] + b;
      SplitInvariant(codec, a[k + 1..], b);
    }
  }

  /** The buffer after reading `chunks` one by one from `buffer`. */
  function BufferAfter(buffer: seq<byte>, chunks: seq<seq<byte>>): seq<byte>
    decreases |chunks|
  {
    if chunks == [] then buffer else BufferAfter(Remainder(buffer + chunks[0]), chunks[1..])
  }

  /** The messages those reads deliver. */
  function Delivered(codec: HeaderCodec, buffer: seq<byte>, chunks: seq<seq<byte>>): seq<Message>
    decreases |chunks|
  {
    if chunks == [] then []
    else
      Messages(codec, buffer + chunks[0]) +
      Delivered(codec, Remainder(buffer + chunks[0]), chunks[1..])
  }

  /** However a stream is cut into reads, they deliver the messages of the whole
      stream and leave the same remainder. */
  lemma {:induction false} ReadsDeliverTheStream(codec: HeaderCodec, buffer: seq<byte>, chunks: seq<seq<byte>>)
    requires 0 !in buffer
    ensures Delivered(codec, buffer, chunks) == Messages(codec, buffer + Flat(chunks))
    ensures BufferAfter(buffer, chunks) == Remainder(buffer + Flat(chunks))
    decreases |chunks|
  {
    hide Messages, Remainder;
    if chunks == [] {
      assert buffer + [] == buffer;
      NoDelimiter(codec, buffer);
    } else {
      var first := buffer + chunks[0];
      SplitInvariant(codec, first, Flat(chunks[1..]));
      assert first + Flat(chunks[1..]) == buffer + Flat(chunks);
      ReadsDeliverTheStream(codec, Remainder(first), chunks[1..]);
    }
  }

  lemma NoDelimiter(codec: HeaderCodec, s: seq<byte>)
    requires 0 !in s
    ensures FindZero(s) == |s| && Messages(codec, s) == [] && Remainder(s) == s
  {
    if FindZero(s) < |s| { assert false; }
  }

  // ---- whole frames ---------------------------------------------------------

  /** The stream of a list of messages. */
  function Stream(codec: HeaderCodec, ms: seq<Message>): seq<byte>
    requires forall m :: m in ms ==> |codec.encode(ToHeader(m))| <= 255
  {
    if ms == [] then [] else EncodeFramed(codec, ms[0]) + Stream(codec, ms[1..])
  }

  function NormalizedAll(ms: seq<Message>): (r: seq<Message>)
    ensures |r| == |ms|
  {
    if ms == [] then [] else [Normalized(ms[0])] + NormalizedAll(ms[1..])
  }

  /** One framed message: its run holds no delimiter and decodes to it. */
  lemma FramedRun(codec: HeaderCodec, m: Message)
    requires codec.Valid()
    ensures var f := EncodeFramed(codec, m);
      && |f| >= 2 && FindZero(f) == |f| - 1
      && DecodeRun(codec, f[..|f| - 1]) == [Normalized(m)]
  {
    var frame := EncodeFrame(codec, m);
    var f, run := EncodeFramed(codec, m), Cobs.Encode(frame);
    Cobs.EncodeHasNoZero(frame);
    Cobs.EncodeNonEmpty(frame);
    Cobs.RoundTrip(frame);
    FrameRoundTrip(codec, m);
    assert f[..|f| - 1] == run;
    NoDelimiter(codec, run);
    FindZeroAppend(run, [0]);
  }

  lemma FramedFirst(codec: HeaderCodec, m: Message, rest: seq<byte>)
    requires codec.Valid()
    ensures Messages(codec, EncodeFramed(codec, m) + rest) == [Normalized(m)] + Messages(codec, rest)
    ensures Remainder(EncodeFramed(codec, m) + rest) == Remainder(rest)
  {
    hide EncodeFramed, DecodeRun;
    var f := EncodeFramed(codec, m);
    FramedRun(codec, m);
    FindZeroAppend(f, rest);
    assert (f + rest)[..|f| - 1] == f[..|f| - 1] && (f + rest)[|f|..] == rest;
  }

  /** Framed messages come out as they went in, whatever follows them. */
  lemma {:induction false} StreamThen(codec: HeaderCodec, ms: seq<Message>, rest: seq<byte>)
    requires codec.Valid()
    ensures Messages(codec, Stream(codec, ms) + rest) == NormalizedAll(ms) + Messages(codec, rest)
    ensures Remainder(Stream(codec, ms) + rest) == Remainder(rest)
    decreases |ms|
  {
    hide EncodeFramed, DecodeRun, Messages, Remainder;
    if ms == [] {
      assert Stream(codec, ms) + rest == rest;
    } else {
      FramedFirst(codec, ms[0], Stream(codec, ms[1..]) + rest);
      assert Stream(codec, ms) + rest
          == EncodeFramed(codec, ms[0]) + (Stream(codec, ms[1..]) + rest);
      StreamThen(codec, ms[1..], rest);
    }
  }

  // ---- resynchronisation ---------------------------------------------------

  /** Garbage in front of a stream of messages costs at most the first: from
      the second on they all arrive, after whatever the garbage itself decodes
      to and at most one message from the run the first was folded into. */
  lemma GarbageCostsAtMostTheFirst(codec: HeaderCodec, garbage: seq<byte>, ms: seq<Message>)
    requires codec.Valid() && ms != []
    ensures var folded := DecodeRun(codec, Remainder(garbage) + Cobs.Encode(EncodeFrame(codec, ms[0])));
      Messages(codec, garbage + Stream(codec, ms))
        == Messages(codec, garbage) + folded + NormalizedAll(ms[1..])
  {
    hide Messages, Remainder, DecodeRun, EncodeFrame, Stream;
    var run, later := Cobs.Encode(EncodeFrame(codec, ms[0])), Stream(codec, ms[1..]);
    SplitInvariant(codec, garbage, Stream(codec, ms));
    StreamFirst(codec, ms);
    Cobs.EncodeHasNoZero(EncodeFrame(codec, ms[0]));
    FoldedRun(codec, Remainder(garbage), run, later);
    StreamAlone(codec, ms[1..]);
  }

  lemma StreamFirst(codec: HeaderCodec, ms: seq<Message>)
    requires codec.Valid() && ms != []
    ensures Stream(codec, ms) == Cobs.Encode(EncodeFrame(codec, ms[0])) + ([0] + Stream(codec, ms[1..]))
  {
    hide EncodeFrame, Cobs.Encode;
  }

  lemma FoldedRun(codec: HeaderCodec, before: seq<byte>, run: seq<byte>, later: seq<byte>)
    requires 0 !in before && 0 !in run
    ensures Messages(codec, before + (run + ([0] + later)))
         == DecodeRun(codec, before + run) + Messages(codec, later)
  {
    hide Messages, DecodeRun;
    var s, k := before + (run + ([0] + later)), |before + run|;
    assert s == (before + run) + ([0] + later);
    NoDelimiter(codec, before + run);
    FindZeroAppend(before + run, [0] + later);
    assert s[..k] == before + run && s[k + 1..] == later;
    FirstRun(codec, s, k);
  }

  lemma StreamAlone(codec: HeaderCodec, ms: seq<Message>)
    requires codec.Valid()
    ensures Messages(codec, Stream(codec, ms)) == NormalizedAll(ms)
    ensures Remainder(Stream(codec, ms)) == []
  {
    hide Messages, Remainder;
    StreamThen(codec, ms, []);
    NoDelimiter(codec, []);
    assert Stream(codec, ms) + [] == Stream(codec, ms);
  }

  /** Garbage that is empty or ends in a delimiter costs nothing. */
  lemma DelimitedGarbageCostsNothing(codec: HeaderCodec, garbage: seq<byte>, ms: seq<Message>)
    requires codec.Valid()
    requires garbage == [] || garbage[|garbage| - 1] == 0
    ensures Messages(codec, garbage + Stream(codec, ms)) == Messages(codec, garbage) + NormalizedAll(ms)
    ensures Remainder(garbage + Stream(codec, ms)) == []
  {
    hide Messages, Remainder;
    SplitInvariant(codec, garbage, Stream(codec, ms));
    RemainderAfterZero(garbage);
    assert [] + Stream(codec, ms) == Stream(codec, ms);
    StreamAlone(codec, ms);
  }

  lemma {:induction false} RemainderAfterZero(s: seq<byte>)
    requires s == [] || s[|s| - 1] == 0
    ensures Remainder(s) == []
    decreases |s|
  {
    var k := FindZero(s);
    if k < |s| {
      RemainderAfterZero(s[k + 1..]);
    } else {
      assert s[..k] == s;
    }
  }

  // ---- prefixes -------------------------------------------------------------

  /** How many of `ms` lie wholly inside the first `n` bytes of their stream. */
  function WholeWithin(codec: HeaderCodec, ms: seq<Message>, n: nat): (k: nat)
    requires forall m :: m in ms ==> |codec.encode(ToHeader(m))| <= 255
    ensures k <= |ms|
  {
    if ms == [] || n < |EncodeFramed(codec, ms[0])| then 0
    else 1 + WholeWithin(codec, ms[1..], n - |EncodeFramed(codec, ms[0])|)
  }

  lemma PartialFrame(codec: HeaderCodec, m: Message, n: nat)
    requires codec.Valid() && n < |EncodeFramed(codec, m)|
    ensures Messages(codec, EncodeFramed(codec, m)[..n]) == []
  {
    hide Messages, EncodeFramed;
    var f := EncodeFramed(codec, m);
    FramedRun(codec, m);
    assert f[..n] == f[..|f| - 1][..n];
    NoDelimiter(codec, f[..n]);
  }

  /** Any prefix of a stream delivers exactly the messages whose frames it
      contains whole, in order, and nothing else. */
  lemma {:induction false} PrefixDeliversWholeFrames(codec: HeaderCodec, ms: seq<Message>, n: nat)
    requires codec.Valid() && n <= |Stream(codec, ms)|
    ensures Messages(codec, Stream(codec, ms)[..n]) == NormalizedAll(ms[..WholeWithin(codec, ms, n)])
    decreases |ms|
  {
    hide EncodeFramed, DecodeRun, Messages, Remainder;
    if ms == [] {
      assert Stream(codec, ms)[..n] == [];
      NoDelimiter(codec, []);
    } else {
      var f, later := EncodeFramed(codec, ms[0]), Stream(codec, ms[1..]);
      var k := WholeWithin(codec, ms, n);
      assert Stream(codec, ms) == f + later;
      if n < |f| {
        PartialFrame(codec, ms[0], n);
        assert (f + later)[..n] == f[..n];
      } else {
        FramedFirst(codec, ms[0], later[..n - |f|]);
        PrefixDeliversWholeFrames(codec, ms[1..], n - |f|);
        assert (f + later)[..n] == f + later[..n - |f|];
        NormalizedHead(ms, k);
      }
    }
  }

  lemma NormalizedHead(ms: seq<Message>, k: nat)
    requires 0 < k <= |ms|
    ensures NormalizedAll(ms[..k]) == [Normalized(ms[0])] + NormalizedAll(ms[1..][..k - 1])
  {
    assert ms[..k][1..] == ms[1..][..k - 1];
  }
}
