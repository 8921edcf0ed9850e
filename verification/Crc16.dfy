/**
 The CRC-16 of the wire frame (cpp/src/codec/crc16.cc): the table-driven loop
 on 16-bit words, the bit-serial register it abbreviates, and the polynomial
 long division both stand for. Registers and messages are bit strings here;
 `Bits` ties them to the words of the loop.
 */
module Crc16 {
  import opened Bytes
  import opened Bits

  const WORD: nat := 0x1_0000
  const POLYNOMIAL: nat := 0x1021
  const INITIAL: nat := 0xFFFF

  type Register = r: seq<bool> | |r| == 16 witness Zeros(16)

  /** x^16 + x^12 + x^5 + 1 without its leading term. */
  function Divisor(): Register
  {
    BitsOf(POLYNOMIAL, 16)
  }

  // ---- long division --------------------------------------------------

  function Reduce(top: bool, low: Register): Register
  {
    if top then XorBits(low, Divisor()) else low
  }

  /** One step of long division: bring `bit` down, and subtract the divisor
      when a one falls off the top. */
  function DivideStep(reg: Register, bit: bool): Register
  {
    Reduce(reg[0], reg[1..] + [bit])
  }

  /** The remainder of dividing `bits`, with `reg` already brought down. */
  function Divide(reg: Register, bits: seq<bool>): Register
    decreases |bits|
  {
    if bits == [] then reg else Divide(DivideStep(reg, bits[0]), bits[1..])
  }

  // ---- the bit-serial register -----------------------------------------

  /** One message bit enters the checksum. */
  function Feed(reg: Register, bit: bool): Register
  {
    Reduce(reg[0] != bit, reg[1..] + [false])
  }

  function FeedAll(reg: Register, bits: seq<bool>): Register
  {
    if bits == [] then reg else Feed(FeedAll(reg, bits[..|bits| - 1]), bits[|bits| - 1])
  }

  /** The message bits of a byte string, most significant first. */
  function MessageBits(data: seq<byte>): (r: seq<bool>)
    ensures |r| == 8 * |data|
  {
    if data == [] then []
    else MessageBits(data[..|data| - 1]) + BitsOf(data[|data| - 1], 8)
  }

  /** The checksum register after `data`, started from 0xFFFF. */
  function Crc(data: seq<byte>): Register
  {
    FeedAll(BitsOf(INITIAL, 16), MessageBits(data))
  }

  lemma {:induction false} FeedAppend(reg: Register, a: seq<bool>, b: seq<bool>)
    ensures FeedAll(reg, a + b) == FeedAll(FeedAll(reg, a), b)
  {
    if b == [] {
      assert a + b == a;
    } else {
      assert (a + b)[..|a + b| - 1] == a + b[..|b| - 1];
      FeedAppend(reg, a, b[..|b| - 1]);
    }
  }

  lemma FeedOne(reg: Register, bit: bool)
    ensures FeedAll(reg, [bit]) == Feed(reg, bit)
  {
    assert [bit][..0] == [];
    assert FeedAll(reg, []) == reg;
  }

  /** Feeding `bits` into `reg` is dividing `bits` followed by sixteen zeros,
      once `reg` has been added to the leading sixteen bits of that dividend. */
  lemma {:induction false} FeedIsDivision(reg: Register, bits: seq<bool>)
    ensures var dividend := bits + Zeros(16);
            FeedAll(reg, bits) == Divide(XorBits(reg, dividend[..16]), dividend[16..])
    decreases |bits|
  {
    var dividend := bits + Zeros(16);
    if bits == [] {
      assert dividend[..16] == Zeros(16) && dividend[16..] == [];
      assert XorBits(reg, Zeros(16)) == reg;
    } else {
      var rest := bits[1..];
      assert dividend[1..] == rest + Zeros(16);
      assert DivideStep(XorBits(reg, dividend[..16]), dividend[16])
          == XorBits(Feed(reg, bits[0]), dividend[1..][..16]);
      assert dividend[16..][1..] == dividend[1..][16..];
      assert bits == [bits[0]] + rest;
      FeedAppend(reg, [bits[0]], rest);
      FeedOne(reg, bits[0]);
      FeedIsDivision(Feed(reg, bits[0]), rest);
    }
  }

  /** Dividing from an empty register just brings the first bits down. */
  lemma {:induction false} DivideLoads(bits: seq<bool>, n: nat)
    requires n <= 16 && n <= |bits|
    ensures Divide(Zeros(16), bits) == Divide(Zeros(16 - n) + bits[..n], bits[n..])
  {
    hide Divide, Zeros;
    LoadRegister(bits, n);
    if n > 0 {
      DivideLoads(bits, n - 1);
      LoadOne(Zeros(16 - (n - 1)) + bits[..n - 1], bits[n - 1..]);
    }
  }

  /** The register before and after one more bit is brought down. */
  lemma LoadRegister(bits: seq<bool>, n: nat)
    requires n <= 16 && n <= |bits|
    ensures n == 0 ==> Zeros(16 - n) + bits[..n] == Zeros(16) && bits[n..] == bits
    ensures n > 0 ==>
      var reg := Zeros(16 - (n - 1)) + bits[..n - 1];
      |reg| == 16 && !reg[0] && reg[1..] + [bits[n - 1]] == Zeros(16 - n) + bits[..n] &&
      bits[n - 1..][1..] == bits[n..] && bits[n - 1..][0] == bits[n - 1]
  {}

  lemma LoadOne(reg: Register, bits: seq<bool>)
    requires !reg[0] && bits != []
    ensures Divide(reg, bits) == Divide(reg[1..] + [bits[0]], bits[1..])
  {}

  /** The dividend with 0xFFFF added to its leading sixteen bits. */
  function InvertLeading(bits: seq<bool>): (r: seq<bool>)
    ensures |r| == |bits|
    ensures forall i :: 0 <= i < |bits| ==> r[i] == (if i < 16 then !bits[i] else bits[i])
  {
    seq(|bits|, i requires 0 <= i < |bits| => if i < 16 then !bits[i] else bits[i])
  }

  function Ones(n: nat): (r: seq<bool>)
    ensures |r| == n && forall i :: 0 <= i < n ==> r[i]
  {
    seq(n, i => true)
  }

  lemma {:induction false} AllOnes(width: nat)
    ensures BitsOf(Pow2(width) - 1, width) == Ones(width)
  {
    if width > 0 {
      var n := Pow2(width) - 1;
      assert n / 2 == Pow2(width - 1) - 1 && n % 2 == 1;
      AllOnes(width - 1);
    }
  }

  lemma InvertedParts(bits: seq<bool>)
    requires |bits| >= 16
    ensures InvertLeading(bits)[..16] == XorBits(BitsOf(INITIAL, 16), bits[..16])
    ensures InvertLeading(bits)[16..] == bits[16..]
  {
    WordIsPow2();
    AllOnes(16);
  }

  /** The checksum is the remainder of dividing the message, its leading sixteen
      bits complemented and sixteen zeros appended, by the polynomial. */
  lemma CrcIsPolynomialRemainder(data: seq<byte>)
    ensures Crc(data) == Divide(Zeros(16), InvertLeading(MessageBits(data) + Zeros(16)))
  {
    var dividend := MessageBits(data) + Zeros(16);
    var inverted := InvertLeading(dividend);
    FeedIsDivision(BitsOf(INITIAL, 16), MessageBits(data));
    DivideLoads(inverted, 16);
    InvertedParts(dividend);
    assert Zeros(16 - 16) + inverted[..16] == inverted[..16];
  }

  // ---- the table -----------------------------------------------------------

  /** Division distributes over addition of dividends. */
  lemma {:induction false} DivideIsLinear(r: Register, s: Register, a: seq<bool>, b: seq<bool>)
    requires |a| == |b|
    ensures Divide(XorBits(r, s), XorBits(a, b)) == XorBits(Divide(r, a), Divide(s, b))
    decreases |a|
  {
    if a == [] {
      assert XorBits(a, b) == [];
    } else {
      assert DivideStep(XorBits(r, s), XorBits(a, b)[0])
          == XorBits(DivideStep(r, a[0]), DivideStep(s, b[0]));
      assert XorBits(a, b)[1..] == XorBits(a[1..], b[1..]);
      DivideIsLinear(DivideStep(r, a[0]), DivideStep(s, b[0]), a[1..], b[1..]);
    }
  }

  /** `i` followed by eight zeros, divided on: what the table holds for `i`. */
  function TableBits(i: nat): Register
  {
    Divide(BitsOf(i, 8) + Zeros(8), Zeros(8))
  }

  lemma LowByteLoads(low: seq<bool>)
    requires |low| == 8
    ensures Divide(Zeros(8) + low, Zeros(8)) == low + Zeros(8)
  {
    var bits := low + Zeros(8);
    DivideLoads(bits, 8);
    DivideLoads(bits, 16);
    assert bits[..8] == low && bits[8..] == Zeros(8);
    assert Zeros(16 - 8) + bits[..8] == Zeros(8) + low;
    assert Zeros(16 - 16) + bits[..16] == bits && bits[16..] == [];
  }

  /** Eight message bits at once: the low byte moves up, the table answers for
      the high byte added to the message byte. */
  lemma ByteStep(reg: Register, b: byte, index: nat)
    requires BitsOf(index, 8) == XorBits(reg[..8], BitsOf(b, 8))
    ensures FeedAll(reg, BitsOf(b, 8)) == XorBits(reg[8..] + Zeros(8), TableBits(index))
  {
    var dividend := BitsOf(b, 8) + Zeros(16);
    FeedIsDivision(reg, BitsOf(b, 8));
    var high := BitsOf(index, 8) + Zeros(8);
    var low := Zeros(8) + reg[8..];
    assert XorBits(reg, dividend[..16]) == XorBits(low, high);
    assert dividend[16..] == Zeros(8) == XorBits(Zeros(8), Zeros(8));
    DivideIsLinear(low, high, Zeros(8), Zeros(8));
    LowByteLoads(reg[8..]);
  }

  /** What the word-sized shift of the loops does to the register. */
  lemma ShiftWord(crc: nat)
    requires crc < WORD
    ensures BitsOf(crc * 2 % WORD, 16) == BitsOf(crc, 16)[1..] + [false]
    ensures BitsOf(crc * 256 % WORD, 16) == BitsOf(crc, 16)[8..] + Zeros(8)
    ensures BitsOf(crc / 256, 8) == BitsOf(crc, 16)[..8]
    ensures (crc >= 0x8000) == BitsOf(crc, 16)[0]
  {
    WordIsPow2();
    BitsOfMod(crc * 2, 16);
    BitsOfShifted(crc, 16, 1);
    assert Pow2(1) == 2;
    assert Zeros(1) == [false];
    BitsOfMod(crc * 256, 16);
    BitsOfShifted(crc, 16, 8);
    BitsOfSplit(crc, 8, 8);
    HalvedByte(crc);
    TopBit(crc, 15);
  }

  lemma {:induction false} TopBit(n: nat, width: nat)
    requires n < Pow2(width + 1)
    ensures (n >= Pow2(width)) == BitsOf(n, width + 1)[0]
    ensures BitsOf(n, width + 1)[1..] == BitsOf(n, width)
  {
    if width == 0 {
      assert BitsOf(n / 2, 0) == [];
    } else {
      TopBit(n / 2, width - 1);
      assert BitsOf(n, width + 1) == BitsOf(n / 2, width) + [n % 2 == 1];
    }
  }

  lemma WordIsPow2()
    ensures Pow2(16) == WORD && Pow2(8) == 256
  {
    assert Pow2(4) == 16 by { assert Pow2(2) == 4; }
    assert Pow2(8) == 256 by { assert Pow2(6) == 64; }
    assert Pow2(12) == 4096 by { assert Pow2(10) == 1024; }
    assert Pow2(16) == 65536 by { assert Pow2(14) == 16384; }
  }

  /** The words of the table loop: shift left in sixteen bits, and add the
      polynomial when the top bit was set (`crc & 0x8000`). */
  function ShiftReduce(crc: nat): nat
  {
    if crc >= 0x8000 then Xor(crc * 2 % WORD, POLYNOMIAL) else crc * 2 % WORD
  }

  lemma ShiftReduceStep(crc: nat)
    requires crc < WORD
    ensures ShiftReduce(crc) < WORD
    ensures BitsOf(ShiftReduce(crc), 16) == DivideStep(BitsOf(crc, 16), false)
  {
    ShiftWord(crc);
    WordIsPow2();
    XorFits(crc * 2 % WORD, POLYNOMIAL, 16);
    BitsOfXor(crc * 2 % WORD, POLYNOMIAL, 16);
  }

  lemma {:induction false} DivideMoreZeros(reg: Register, n: nat)
    ensures Divide(reg, Zeros(n + 1)) == DivideStep(Divide(reg, Zeros(n)), false)
    decreases n
  {
    assert Zeros(n + 1)[1..] == Zeros(n);
    if n == 0 {
      assert Zeros(0) == [];
    } else {
      assert Zeros(n)[1..] == Zeros(n - 1);
      DivideMoreZeros(DivideStep(reg, false), n - 1);
    }
  }

  /** `entry` is the table's word for `i`. */
  ghost predicate IsEntry(entry: nat, i: nat)
  {
    entry < WORD && BitsOf(entry, 16) == TableBits(i)
  }

  ghost predicate TableHolds(table: seq<nat>)
  {
    |table| == 256 && forall i :: 0 <= i < 256 ==> IsEntry(table[i], i)
  }

  /** After `j` turns of the inner loop for entry `i`. */
  ghost predicate InEntry(crc: nat, i: nat, j: nat)
  {
    crc < WORD && BitsOf(crc, 16) == Divide(BitsOf(i, 8) + Zeros(8), Zeros(j))
  }

  lemma TableStart(i: nat)
    requires i < 256
    ensures InEntry(i * 256 % WORD, i, 0)
  {
    WordIsPow2();
    BitsOfMod(i * 256, 16);
    BitsOfShifted(i, 16, 8);
    assert Zeros(0) == [];
  }

  lemma TableLoopStep(crc: nat, i: nat, j: nat)
    requires InEntry(crc, i, j)
    ensures InEntry(ShiftReduce(crc), i, j + 1)
  {
    ShiftReduceStep(crc);
    DivideMoreZeros(BitsOf(i, 8) + Zeros(8), j);
  }

  method MakeTable() returns (table: array<nat>)
    ensures fresh(table) && TableHolds(table[..])
  {
    table := new nat[256];
    var i := 0;
    while i < 256
      invariant 0 <= i <= 256
      invariant forall k :: 0 <= k < i ==> IsEntry(table[k], k)
    {
      var row := TableRow(i);
      table[i] := row;
      i := i + 1;
    }
  }

  method TableRow(i: nat) returns (crc: nat)
    requires i < 256
    ensures IsEntry(crc, i)
  {
    TableStart(i);
    crc := i * 256 % WORD;
    var j := 0;
    while j < 8
      invariant 0 <= j <= 8
      invariant InEntry(crc, i, j)
    {
      TableLoopStep(crc, i, j);
      crc := ShiftReduce(crc);
      j := j + 1;
    }
  }

  /** Where the loop looks up the next message byte. */
  function TableIndex(crc: nat, b: byte): (index: nat)
    ensures index < 256
  {
    Xor(crc / 256, b) % 256
  }

  function NextCrc(crc: nat, entry: nat): nat
  {
    Xor(crc * 256 % WORD, entry)
  }

  ghost predicate IsCrc(crc: nat, data: seq<byte>)
  {
    crc < WORD && BitsOf(crc, 16) == Crc(data)
  }

  lemma IndexBits(crc: nat, b: byte)
    requires crc < WORD
    ensures BitsOf(TableIndex(crc, b), 8) == XorBits(BitsOf(crc, 16)[..8], BitsOf(b, 8))
  {
    ShiftWord(crc);
    XorByte(crc / 256, b);
  }

  lemma XorByte(a: nat, b: nat)
    requires a < 256 && b < 256
    ensures BitsOf(Xor(a, b) % 256, 8) == XorBits(BitsOf(a, 8), BitsOf(b, 8))
  {
    WordIsPow2();
    BitsOfXor(a, b, 8);
    BitsOfMod(Xor(a, b), 8);
  }

  lemma NextBits(crc: nat, entry: nat)
    requires crc < WORD && entry < WORD
    ensures NextCrc(crc, entry) < WORD
    ensures BitsOf(NextCrc(crc, entry), 16)
         == XorBits(BitsOf(crc, 16)[8..] + Zeros(8), BitsOf(entry, 16))
  {
    WordIsPow2();
    ShiftWord(crc);
    BitsOfXor(crc * 256 % WORD, entry, 16);
    XorFits(crc * 256 % WORD, entry, 16);
  }

  lemma CrcLoopStep(crc: nat, data: seq<byte>, b: byte, entry: nat)
    requires IsCrc(crc, data) && IsEntry(entry, TableIndex(crc, b))
    ensures IsCrc(NextCrc(crc, entry), data + [b])
  {
    IndexBits(crc, b);
    ByteStep(BitsOf(crc, 16), b, TableIndex(crc, b));
    NextBits(crc, entry);
    CrcAppend(data, b);
  }

  lemma CrcAppend(data: seq<byte>, b: byte)
    ensures Crc(data + [b]) == FeedAll(Crc(data), BitsOf(b, 8))
  {
    assert (data + [b])[..|data|] == data;
    FeedAppend(BitsOf(INITIAL, 16), MessageBits(data), BitsOf(b, 8));
  }

  /** The table-driven loop computes the bit-serial checksum of every byte
      string. */
  method ComputeCrc16(table: array<nat>, bytes: seq<byte>) returns (crc: nat)
    requires TableHolds(table[..])
    ensures crc < WORD && BitsOf(crc, 16) == Crc(bytes)
  {
    crc := INITIAL;
    var i := 0;
    while i < |bytes|
      invariant 0 <= i <= |bytes|
      invariant IsCrc(crc, bytes[..i])
    {
      var index := TableIndex(crc, bytes[i]);
      assert IsEntry(table[..][index], index);
      CrcLoopStep(crc, bytes[..i], bytes[i], table[index]);
      assert bytes[..i + 1] == bytes[..i] + [bytes[i]];
      crc := NextCrc(crc, table[index]);
      i := i + 1;
    }
    assert bytes[..i] == bytes;
  }

  // ---- error detection --------------------------------------------------

  lemma DivisorEndsInOne()
    ensures Divisor()[15]
  {}

  lemma DivideStepInjective(a: Register, b: Register, bit: bool)
    requires DivideStep(a, bit) == DivideStep(b, bit)
    ensures a == b
  {
    var s, t := DivideStep(a, bit), DivideStep(b, bit);
    DivisorEndsInOne();
    assert s[15] == (a[0] != bit) && t[15] == (b[0] != bit);
    forall i | 1 <= i < 16
      ensures a[i] == b[i]
    {
      assert s[i - 1] == (a[i] != (a[0] && Divisor()[i - 1]));
      assert t[i - 1] == (b[i] != (b[0] && Divisor()[i - 1]));
    }
  }

  lemma {:induction false} DivideInjective(a: Register, b: Register, bits: seq<bool>)
    requires Divide(a, bits) == Divide(b, bits)
    ensures a == b
    decreases |bits|
  {
    if bits != [] {
      DivideInjective(DivideStep(a, bits[0]), DivideStep(b, bits[0]), bits[1..]);
      DivideStepInjective(a, b, bits[0]);
    }
  }

  lemma XorCancels(a: Register, b: Register, mask: Register)
    requires XorBits(a, mask) == XorBits(b, mask)
    ensures a == b
  {
    forall i | 0 <= i < 16
      ensures a[i] == b[i]
    {
      assert XorBits(a, mask)[i] == XorBits(b, mask)[i];
    }
  }

  /** Different states stay different through any common message bits. */
  lemma FeedInjective(a: Register, b: Register, bits: seq<bool>)
    requires FeedAll(a, bits) == FeedAll(b, bits)
    ensures a == b
  {
    var dividend := bits + Zeros(16);
    FeedIsDivision(a, bits);
    FeedIsDivision(b, bits);
    DivideInjective(XorBits(a, dividend[..16]), XorBits(b, dividend[..16]), dividend[16..]);
    XorCancels(a, b, dividend[..16]);
  }

  /** Up to sixteen bits are determined by the state they lead to. */
  lemma WindowInjective(reg: Register, a: seq<bool>, b: seq<bool>)
    requires |a| == |b| <= 16 && FeedAll(reg, a) == FeedAll(reg, b)
    ensures a == b
  {
    var da, db := a + Zeros(16), b + Zeros(16);
    FeedIsDivision(reg, a);
    FeedIsDivision(reg, b);
    var x, y := XorBits(reg, da[..16]), XorBits(reg, db[..16]);
    assert da[16..] == db[16..];
    DivideInjective(x, y, da[16..]);
    forall i | 0 <= i < |a|
      ensures a[i] == b[i]
    {
      assert x[i] == y[i];
    }
  }

  /** Two bit strings of one length that differ, and only inside one window of
      sixteen bits. */
  ghost predicate DifferInBurst(a: seq<bool>, b: seq<bool>, at: nat)
  {
    |a| == |b| && a != b &&
    forall i :: 0 <= i < |a| && !(at <= i < at + 16) ==> a[i] == b[i]
  }

  lemma FeedInThree(reg: Register, bits: seq<bool>, from: nat, to: nat)
    requires from <= to <= |bits|
    ensures FeedAll(reg, bits) == FeedAll(FeedAll(FeedAll(reg, bits[..from]), bits[from..to]), bits[to..])
  {
    assert bits == bits[..to] + bits[to..] && bits[..to] == bits[..from] + bits[from..to];
    FeedAppend(reg, bits[..to], bits[to..]);
    FeedAppend(reg, bits[..from], bits[from..to]);
  }

  lemma BurstSlices(a: seq<bool>, b: seq<bool>, at: nat) returns (end: nat)
    requires DifferInBurst(a, b, at)
    ensures at <= end <= |a| && end <= at + 16
    ensures a[..at] == b[..at] && a[end..] == b[end..] && a[at..end] != b[at..end]
  {
    end := if at + 16 <= |a| then at + 16 else |a|;
    if at > |a| || a[at..end] == b[at..end] {
      forall i | 0 <= i < |a|
        ensures a[i] == b[i]
      {
        if at <= i < end {
          assert a[at..end][i - at] == b[at..end][i - at];
        }
      }
      assert false;
    }
    assert a[..at] == b[..at] && a[end..] == b[end..];
  }

  /** No burst of up to sixteen bits, wherever it falls, keeps the checksum. */
  lemma BurstChangesCrc(x: seq<byte>, y: seq<byte>, at: nat)
    requires DifferInBurst(MessageBits(x), MessageBits(y), at)
    ensures Crc(x) != Crc(y)
  {
    var a, b := MessageBits(x), MessageBits(y);
    var start := BitsOf(INITIAL, 16);
    var end := BurstSlices(a, b, at);
    FeedInThree(start, a, at, end);
    FeedInThree(start, b, at, end);
    var reg := FeedAll(start, a[..at]);
    if Crc(x) == Crc(y) {
      FeedInjective(FeedAll(reg, a[at..end]), FeedAll(reg, b[at..end]), a[end..]);
      WindowInjective(reg, a[at..end], b[at..end]);
      assert false;
    }
  }

  lemma {:induction false} MessageBitsAt(data: seq<byte>, k: nat)
    requires k < |data|
    ensures MessageBits(data)[8 * k..8 * k + 8] == BitsOf(data[k], 8)
  {
    var n := |data| - 1;
    var front, last := MessageBits(data[..n]), BitsOf(data[n], 8);
    assert MessageBits(data) == front + last && |front| == 8 * n;
    if k < n {
      MessageBitsAt(data[..n], k);
      assert (front + last)[8 * k..8 * k + 8] == front[8 * k..8 * k + 8];
    } else {
      assert (front + last)[8 * n..8 * n + 8] == last;
    }
  }

  lemma BitOfByte(data: seq<byte>, i: nat)
    requires i < 8 * |data|
    ensures MessageBits(data)[i] == BitsOf(data[i / 8], 8)[i % 8]
  {
    MessageBitsAt(data, i / 8);
    assert MessageBits(data)[8 * (i / 8)..8 * (i / 8) + 8][i % 8] == MessageBits(data)[i];
  }

  lemma MessageBitsInjective(x: seq<byte>, y: seq<byte>)
    requires |x| == |y| && MessageBits(x) == MessageBits(y)
    ensures x == y
  {
    forall k | 0 <= k < |x|
      ensures x[k] == y[k]
    {
      MessageBitsAt(x, k);
      MessageBitsAt(y, k);
      WordIsPow2();
      BitsOfInjective(x[k], y[k], 8);
    }
  }

  /** Any change confined to two adjacent bytes (or to one) is such a burst. */
  lemma AdjacentBytesAreABurst(x: seq<byte>, y: seq<byte>, k: nat)
    requires |x| == |y| && x != y
    requires forall i :: 0 <= i < |x| && i != k && i != k + 1 ==> x[i] == y[i]
    ensures DifferInBurst(MessageBits(x), MessageBits(y), 8 * k)
  {
    var a, b := MessageBits(x), MessageBits(y);
    forall i | 0 <= i < |a| && !(8 * k <= i < 8 * k + 16)
      ensures a[i] == b[i]
    {
      BitOfByte(x, i);
      BitOfByte(y, i);
      assert x[i / 8] == y[i / 8];
    }
    if a == b {
      MessageBitsInjective(x, y);
    }
  }
}
