/**
 The ring under the write-time read-back (cpp/src/mcap/span_readback.cc), on
 values: the reserve-copy-publish protocol of the writer, byte by byte, and the
 64-slot span queue with its wrapping indices.
 */
module SpanRing {
  import opened Bytes

  const PAGE_BYTES: nat := 4096
  const QUEUE_SLOTS: nat := 64
  const TWO32: nat := 0x1_0000_0000

  type uint32 = x: int | 0 <= x < 0x1_0000_0000

  function RoundUpToPage(n: nat): (r: nat)
    ensures n <= r < n + PAGE_BYTES
  {
    (n + PAGE_BYTES - 1) / PAGE_BYTES * PAGE_BYTES
  }

  /** The bytes of the written stream, by position; positions run on across
      parts, with gaps where a part starts at the next page. */
  type Stream = map<nat, byte>

  ghost predicate Extends(a: Stream, b: Stream)
  {
    forall q :: q in a ==> q in b && b[q] == a[q]
  }

  lemma ExtendsSelf(a: Stream)
    ensures Extends(a, a)
  {}

  lemma ExtendsTrans(a: Stream, b: Stream, c: Stream)
    requires Extends(a, b) && Extends(b, c)
    ensures Extends(a, c)
  {}

  /** Where a stream position sits in the ring. */
  function Slot(q: nat, size: nat): (r: nat)
    requires size > 0
    ensures r < size
  {
    q % size
  }

  /** Up to the wrap the slots run on; past it they restart from 0. */
  lemma SlotRuns(pos: nat, k: nat, size: nat)
    requires size > 0 && k < size
    ensures Slot(pos + k, size) ==
      if Slot(pos, size) + k < size then Slot(pos, size) + k else Slot(pos, size) + k - size
  {
    var a, r := pos / size, pos % size;
    if r + k < size {
      SlotIs(pos + k, a, r + k, size);
    } else {
      assert (a + 1) * size == a * size + size;
      SlotIs(pos + k, a + 1, r + k - size, size);
    }
  }

  lemma SlotIs(q: nat, a: nat, r: nat, size: nat)
    requires r < size && q == a * size + r
    ensures Slot(q, size) == r
  {
    var b := q / size;
    assert q == b * size + q % size;
    assert b > a ==> b * size >= (a + 1) * size == a * size + size;
    assert b < a ==> a * size >= (b + 1) * size == b * size + size;
  }

  lemma SlotsApart(p: nat, q: nat, size: nat)
    requires size > 0 && p < q < p + size
    ensures Slot(p, size) != Slot(q, size)
  {
    hide Slot;
    SlotRuns(p, q - p, size);
  }

  // ---- the writer's copy protocol --------------------------------------------

  /** A write under way: `data` goes to the ring at stream position `pos`; the
      positions `left` are still to be copied, in any order. */
  datatype Copy = Copy(pos: nat, data: seq<byte>, left: set<nat>)

  /** The published head, the reservation ahead of it, and the write between. */
  datatype Cursor = Cursor(head: nat, reserve: nat, copying: Option<Copy>)

  datatype RingState = RingState(ring: seq<byte>, head: nat, reserve: nat, written: Stream, copying: Option<Copy>)
  {
    /** The ring is right wherever it may be trusted: every written position that
        is published and not reserved over holds the byte written there. */
    ghost predicate Holds()
    {
      && |ring| > 0
      && (forall q :: q in written ==> q < reserve)
      && (forall q :: q in written && reserve <= q + |ring| && q < head ==> ring[Slot(q, |ring|)] == written[q])
      && (copying.None? ==> head == reserve)
      && (copying.Some? ==> CopyHolds(copying.value))
    }

    ghost predicate CopyHolds(c: Copy)
      requires |ring| > 0
    {
      && reserve == c.pos + |c.data| && |c.data| <= |ring| && head <= c.pos
      && (forall q :: q in written && head <= q < c.pos ==> |c.data| == |ring|)
      && (forall q :: c.pos <= q < reserve ==> q in written && written[q] == c.data[q - c.pos])
      && (forall q :: q in written && c.pos <= q && q !in c.left ==> ring[Slot(q, |ring|)] == written[q])
    }

    /** Announce a write before touching the ring; of a huge one only the last
        ringful is kept. */
    function Reserve(pos: nat, data: seq<byte>): RingState
    {
      var drop := if |data| > |ring| then |data| - |ring| else 0;
      RingState(ring, head, pos + |data|, Appended(written, pos, data),
                Some(Copy(pos + drop, data[drop..], Positions(pos + drop, |data| - drop))))
    }

    function CopyByte(q: nat): RingState
      requires |ring| > 0 && copying.Some? && copying.value.pos <= q < copying.value.pos + |copying.value.data|
    {
      var c := copying.value;
      this.(ring := ring[Slot(q, |ring|) := c.data[q - c.pos]], copying := Some(c.(left := c.left - {q})))
    }

    function Publish(): RingState
    {
      this.(head := reserve, copying := None)
    }
  }

  function Positions(from: nat, n: nat): (r: set<nat>)
    ensures forall q :: q in r <==> from <= q < from + n
  {
    if n == 0 then {} else Positions(from, n - 1) + {from + n - 1}
  }

  /** The stream with `data` written from `pos` on. */
  function Appended(written: Stream, pos: nat, data: seq<byte>): (r: Stream)
    ensures forall q :: q in r <==> q in written || pos <= q < pos + |data|
    ensures forall q :: q in r ==> r[q] == if pos <= q < pos + |data| then data[q - pos] else written[q]
  {
    map q | q in written.Keys + Positions(pos, |data|) :: if pos <= q < pos + |data| then data[q - pos] else written[q]
  }

  lemma ReserveKeeps(s: RingState, pos: nat, data: seq<byte>)
    requires s.Holds() && s.copying.None? && pos >= s.head
    requires pos > s.head ==> data == []
    ensures s.Reserve(pos, data).Holds()
    ensures Extends(s.written, s.Reserve(pos, data).written)
  {
    hide Slot, Positions, Appended;
  }

  lemma CopyByteKeeps(s: RingState, at: nat)
    requires s.Holds() && s.copying.Some? && s.copying.value.pos <= at < s.reserve
    ensures s.CopyByte(at).Holds()
  {
    hide Slot;
    var c, n, t := s.copying.value, |s.ring|, s.CopyByte(at);
    forall q | q in t.written && t.reserve <= q + n && q < t.head
      ensures t.ring[Slot(q, n)] == t.written[q]
    {
      SlotsApart(q, at, n);
    }
    forall q | q in t.written && c.pos <= q && q !in t.copying.value.left
      ensures t.ring[Slot(q, n)] == t.written[q]
    {
      if q < at { SlotsApart(q, at, n); }
      if at < q { SlotsApart(at, q, n); }
    }
  }

  lemma PublishKeeps(s: RingState)
    requires s.Holds() && s.copying.Some? && s.copying.value.left == {}
    ensures s.Publish().Holds()
  {
    hide Slot;
  }

  /** What the stepper may conclude from one ring byte read at `q`, once it knows
      that the reservation has not passed it. */
  lemma TrustedByte(s: RingState, q: nat)
    requires s.Holds() && q in s.written && q < s.head && s.reserve <= q + |s.ring|
    ensures s.ring[Slot(q, |s.ring|)] == s.written[q]
  {}

  // ---- the span queue ---------------------------------------------------------

  /** `[fileOff, fileOff + len)` of a part, and where those bytes are in the
      stream. The part number stands for the kept path it names. */
  datatype Span = Span(part: nat, fileOff: nat, len: nat, ringPos: nat, tail: bool)

  /** Subtraction of 32-bit indices. */
  function Minus32(a: uint32, b: uint32): uint32
  {
    (a - b) % 0x1_0000_0000
  }

  function Next32(a: uint32): uint32
  {
    (a + 1) % 0x1_0000_0000
  }

  /** The queue holds `pushed[popped..]`, first in first out, and never more than
      its slots, however often the indices have wrapped. */
  ghost predicate QueueHolds(slots: seq<Span>, push: uint32, pop: uint32, pushed: seq<Span>, popped: nat)
  {
    && |slots| == QUEUE_SLOTS
    && popped <= |pushed| <= popped + QUEUE_SLOTS
    && push == |pushed| % TWO32 && pop == popped % TWO32
    && forall i :: popped <= i < |pushed| ==> slots[Slot(i, QUEUE_SLOTS)] == pushed[i]
  }

  lemma QueueSize(slots: seq<Span>, push: uint32, pop: uint32, pushed: seq<Span>, popped: nat)
    requires QueueHolds(slots, push, pop, pushed, popped)
    ensures Minus32(push, pop) == |pushed| - popped
    ensures push == pop <==> |pushed| == popped
    ensures popped <= |pushed| <= popped + QUEUE_SLOTS
    ensures popped < |pushed| ==> slots[Slot(pop, QUEUE_SLOTS)] == pushed[popped]
  {
    hide Slot;
    WrapKeepsSlot(popped);
  }

  lemma WrapKeepsSlot(n: nat)
    ensures Slot(n % TWO32, QUEUE_SLOTS) == Slot(n, QUEUE_SLOTS)
  {}

  lemma NextWraps(n: nat)
    ensures Next32(n % TWO32) == (n + 1) % TWO32
  {}

  lemma PushKeeps(slots: seq<Span>, push: uint32, pop: uint32, pushed: seq<Span>, popped: nat, s: Span)
    requires QueueHolds(slots, push, pop, pushed, popped) && |pushed| - popped < QUEUE_SLOTS
    ensures QueueHolds(slots[Slot(push, QUEUE_SLOTS) := s], Next32(push), pop, pushed + [s], popped)
  {
    hide Slot, Next32;
    WrapKeepsSlot(|pushed|);
    NextWraps(|pushed|);
    var at, next := Slot(push, QUEUE_SLOTS), pushed + [s];
    forall i | popped <= i < |next|
      ensures slots[at := s][Slot(i, QUEUE_SLOTS)] == next[i]
    {
      if i < |pushed| { SlotsApart(i, |pushed|, QUEUE_SLOTS); }
    }
  }

  lemma PopKeeps(slots: seq<Span>, push: uint32, pop: uint32, pushed: seq<Span>, popped: nat)
    requires QueueHolds(slots, push, pop, pushed, popped) && popped < |pushed|
    ensures QueueHolds(slots, push, Next32(pop), pushed, popped + 1)
  {}

  lemma DrainKeeps(slots: seq<Span>, push: uint32, pop: uint32, pushed: seq<Span>, popped: nat)
    requires QueueHolds(slots, push, pop, pushed, popped)
    ensures QueueHolds(slots, push, push, pushed, |pushed|)
  {}
}
