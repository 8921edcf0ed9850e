/**
 The core frame (cpp/src/codec/frame.cc): HEADER_LEN, the serialized Header,
 the payload and a little-endian CRC-16 over all of them. The protobuf codec of
 the Header is a parameter.
 */
module Frame {
  import opened Bytes
  import opened Bits
  import opened Crc16

  type uint32 = x: int | 0 <= x < 0x1_0000_0000
  type uint64 = x: int | 0 <= x < 0x1_0000_0000_0000_0000
  type int32 = x: int | -0x8000_0000 <= x < 0x8000_0000
  type int64 = x: int | -0x8000_0000_0000_0000 <= x < 0x8000_0000_0000_0000

  datatype Timestamp = Timestamp(seconds: int64, nanos: int32)

  datatype SyncPoint = SyncPoint(authorityEpoch: uint64, gridGeneration: uint64, frameIndex: uint64)
  {
    predicate Valid() { authorityEpoch != 0 && gridGeneration != 0 }
  }

  const NO_SYNC_POINT := SyncPoint(0, 0, 0)

  /** The fields of a message that cross the wire. */
  datatype Message = Message(
    streamId: uint32, seq_: uint32, timestamp: Timestamp, keyframe: bool,
    clockAuthorityEpoch: uint64, clockRevision: uint32, syncPoint: SyncPoint,
    payload: seq<byte>)

  /** The protobuf Header; `syncPoint` is present only when it was valid. */
  datatype Header = Header(
    streamId: uint32, seq_: uint32, timestamp: Timestamp, keyframe: bool,
    clockAuthorityEpoch: uint64, clockRevision: uint32, syncPoint: Option<SyncPoint>)

  /** A Header codec, by what it writes and what it reads back. */
  datatype HeaderCodec = HeaderCodec(
    encode: Header -> seq<byte>,
    decode: seq<byte> -> Option<Header>)
  {
    /** A Header survives the codec and fits the one-byte length. */
    ghost predicate Valid()
    {
      forall h: Header :: |encode(h)| <= 255 && decode(encode(h)) == Some(h)
    }
  }

  datatype DecodeResult =
    | Ok(msg: Message)
    | FrameTooShort
    | HeaderLenOverflow
    | CrcMismatch
    | HeaderParseError

  function ToHeader(m: Message): Header
  {
    Header(m.streamId, m.seq_, m.timestamp, m.keyframe, m.clockAuthorityEpoch, m.clockRevision,
           if m.syncPoint.Valid() then Some(m.syncPoint) else None)
  }

  function FromHeader(h: Header, payload: seq<byte>): Message
  {
    Message(h.streamId, h.seq_, h.timestamp, h.keyframe, h.clockAuthorityEpoch, h.clockRevision,
            if h.syncPoint.Some? then h.syncPoint.value else NO_SYNC_POINT, payload)
  }

  /** The message a receiver can know: an invalid sync point is no sync point. */
  function Normalized(m: Message): Message
  {
    if m.syncPoint.Valid() then m else m.(syncPoint := NO_SYNC_POINT)
  }

  /** The checksum as a number. */
  function CrcWord(data: seq<byte>): (r: nat)
    ensures r < WORD
  {
    WordOf(Crc(data))
  }

  function WordOf(bits: seq<bool>): (r: nat)
    ensures |bits| == 16 ==> r < WORD
  {
    WordOfBound(bits);
    NumberOf(bits)
  }

  function NumberOf(bits: seq<bool>): nat
  {
    if bits == [] then 0
    else 2 * NumberOf(bits[..|bits| - 1]) + (if bits[|bits| - 1] then 1 else 0)
  }

  lemma {:induction false} NumberOfBits(bits: seq<bool>)
    ensures NumberOf(bits) < Pow2(|bits|)
    ensures BitsOf(NumberOf(bits), |bits|) == bits
  {
    if bits != [] {
      NumberOfBits(bits[..|bits| - 1]);
      assert bits == bits[..|bits| - 1] + [bits[|bits| - 1]];
    }
  }

  lemma WordOfBound(bits: seq<bool>)
    ensures |bits| == 16 ==> NumberOf(bits) < WORD
  {
    NumberOfBits(bits);
    WordIsPow2();
  }

  /** The word the table loop returns is this number. */
  lemma CrcWordIs(crc: nat, data: seq<byte>)
    requires crc < WORD && BitsOf(crc, 16) == Crc(data)
    ensures crc == CrcWord(data)
  {
    NumberOfBits(Crc(data));
    WordIsPow2();
    BitsOfInjective(crc, CrcWord(data), 16);
  }

  lemma CrcWordInjective(x: seq<byte>, y: seq<byte>)
    requires CrcWord(x) == CrcWord(y)
    ensures Crc(x) == Crc(y)
  {
    NumberOfBits(Crc(x));
    NumberOfBits(Crc(y));
  }

  function PackU16LE(v: nat): seq<byte>
    requires v < WORD
  {
    [v % 256, v / 256]
  }

  function ReadU16LE(s: seq<byte>): nat
    requires |s| == 2
  {
    s[0] as int + 256 * (s[1] as int)
  }

  /** What the checksum covers. */
  function Covered(codec: HeaderCodec, m: Message): seq<byte>
    requires |codec.encode(ToHeader(m))| <= 255
  {
    var header := codec.encode(ToHeader(m));
    [|header|] + header + m.payload
  }

  function EncodeFrame(codec: HeaderCodec, m: Message): seq<byte>
    requires |codec.encode(ToHeader(m))| <= 255
  {
    Covered(codec, m) + PackU16LE(CrcWord(Covered(codec, m)))
  }

  function DecodeFrame(codec: HeaderCodec, frame: seq<byte>): DecodeResult
  {
    if |frame| < 3 then FrameTooShort
    else
      var payloadEnd: nat := 1 + frame[0] as int;
      var crcAt := |frame| - 2;
      if payloadEnd + 2 > |frame| then HeaderLenOverflow
      else if ReadU16LE(frame[crcAt..]) != CrcWord(frame[..crcAt]) then CrcMismatch
      else match codec.decode(frame[1..payloadEnd])
        case None => HeaderParseError
        case Some(h) => Ok(FromHeader(h, frame[payloadEnd..crcAt]))
  }

  // ---- the methods ----------------------------------------------------------

  method EncodeFrameInto(codec: HeaderCodec, table: array<nat>, msg: Message) returns (out: seq<byte>)
    requires codec.Valid() && TableHolds(table[..])
    ensures out == EncodeFrame(codec, msg)
  {
    var header := codec.encode(ToHeader(msg));
    out := [|header|];
    out := out + header;
    out := out + msg.payload;
    var crc := ComputeCrc16(table, out);
    CrcWordIs(crc, out);
    out := out + PackU16LE(crc);
  }

  method DecodeFrameInto(codec: HeaderCodec, table: array<nat>, frame: seq<byte>) returns (r: DecodeResult)
    requires TableHolds(table[..])
    ensures r == DecodeFrame(codec, frame)
  {
    if |frame| < 3 { return FrameTooShort; }
    var headerLen := frame[0];
    var payloadEnd: nat := 1 + headerLen as int;
    if payloadEnd + 2 > |frame| { return HeaderLenOverflow; }
    var covered := frame[..|frame| - 2];
    var gotCrc := ReadU16LE(frame[|frame| - 2..]);
    var crc := ComputeCrc16(table, covered);
    CrcWordIs(crc, covered);
    if gotCrc != crc { return CrcMismatch; }
    var header := codec.decode(frame[1..payloadEnd]);
    if header.None? { return HeaderParseError; }
    r := Ok(FromHeader(header.value, frame[payloadEnd..|frame| - 2]));
  }

  // ---- the pair ---------------------------------------------------------------

  /** A message comes back as it was sent, up to an invalid sync point. */
  lemma FrameRoundTrip(codec: HeaderCodec, m: Message)
    requires codec.Valid()
    ensures DecodeFrame(codec, EncodeFrame(codec, m)) == Ok(Normalized(m))
  {
    hide CrcWord;
    var header, covered := codec.encode(ToHeader(m)), Covered(codec, m);
    var frame := EncodeFrame(codec, m);
    assert codec.decode(header) == Some(ToHeader(m));
    assert frame[..|frame| - 2] == covered;
    assert frame[1..1 + |header|] == header;
    assert frame[1 + |header|..|frame| - 2] == m.payload;
    var v := CrcWord(covered);
    assert frame[|frame| - 2..] == PackU16LE(v);
    assert v % 256 + 256 * (v / 256) == v;
  }

  /** Damage to an accepted frame that stays inside sixteen consecutive bits of
      what the checksum covers is always noticed. */
  lemma BurstIsRejected(codec: HeaderCodec, frame: seq<byte>, damaged: seq<byte>, at: nat)
    requires DecodeFrame(codec, frame).Ok?
    requires |damaged| == |frame| && damaged[|frame| - 2..] == frame[|frame| - 2..]
    requires DifferInBurst(MessageBits(frame[..|frame| - 2]), MessageBits(damaged[..|frame| - 2]), at)
    ensures DecodeFrame(codec, damaged).HeaderLenOverflow? || DecodeFrame(codec, damaged).CrcMismatch?
  {
    var x, y := frame[..|frame| - 2], damaged[..|frame| - 2];
    BurstChangesCrc(x, y, at);
    if CrcWord(x) == CrcWord(y) {
      CrcWordInjective(x, y);
    }
  }

  /** In particular a change to one covered byte, or to two adjacent ones, of
      any encoded frame. */
  lemma AdjacentDamageIsRejected(codec: HeaderCodec, m: Message, damaged: seq<byte>, k: nat)
    requires codec.Valid()
    requires var frame := EncodeFrame(codec, m);
      && |damaged| == |frame| && damaged != frame
      && damaged[|frame| - 2..] == frame[|frame| - 2..]
      && forall i :: 0 <= i < |frame| - 2 && i != k && i != k + 1 ==> damaged[i] == frame[i]
    ensures !DecodeFrame(codec, damaged).Ok?
  {
    var frame := EncodeFrame(codec, m);
    FrameRoundTrip(codec, m);
    var x, y := frame[..|frame| - 2], damaged[..|frame| - 2];
    assert frame == x + frame[|frame| - 2..] && damaged == y + damaged[|frame| - 2..];
    AdjacentBytesAreABurst(x, y, k);
    BurstIsRejected(codec, frame, damaged, 8 * k);
  }
}
