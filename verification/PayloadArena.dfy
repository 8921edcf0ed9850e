/**
 The memory of a recorder's queue (cpp/src/mcap/payload_arena.cc): records are
 bump-allocated in chunks, and an emptied chunk above the resident set is handed
 back to the kernel outside the owner's lock.
 */
module PayloadArena {
  import opened Bytes

  datatype Residency = Untouched | Touched | Reclaiming

  /** Where a record lies: `at` bytes into a chunk. */
  datatype Place = Place(chunk: nat, at: nat)

  /** What the owner holds for a live record. */
  datatype Record = Record(offset: nat, size: nat)

  /** Where chunk `c` starts. */
  function ChunkStart(c: nat, chunkBytes: nat): nat
  {
    c * chunkBytes
  }

  lemma ChunksApart(c: nat, d: nat, chunkBytes: nat)
    requires c < d
    ensures ChunkStart(c, chunkBytes) + chunkBytes <= ChunkStart(d, chunkBytes)
  {
    assert (c + 1) * chunkBytes <= d * chunkBytes;
  }

  lemma ChunkOf(c: nat, at: nat, chunkBytes: nat)
    requires at < chunkBytes
    ensures (ChunkStart(c, chunkBytes) + at) / chunkBytes == c
  {
    var q := (c * chunkBytes + at) / chunkBytes;
    assert c * chunkBytes + at == q * chunkBytes + (c * chunkBytes + at) % chunkBytes;
    assert q > c ==> q * chunkBytes >= (c + 1) * chunkBytes == c * chunkBytes + chunkBytes;
    assert q < c ==> c * chunkBytes >= (q + 1) * chunkBytes == q * chunkBytes + chunkBytes;
  }

  type Live = map<Place, seq<byte>>

  /** The live records of one chunk. */
  ghost function InChunk(records: Live, c: nat): set<Place>
  {
    set p | p in records && p.chunk == c
  }

  /** Records lie inside one chunk each, past no fill, and never overlap. */
  ghost predicate Packed(records: Live, chunks: nat, chunkBytes: nat, current: Option<nat>, fill: nat)
  {
    && (forall p :: p in records ==>
          p.chunk < chunks && records[p] != [] && p.at + |records[p]| <= chunkBytes &&
          (current == Some(p.chunk) ==> p.at + |records[p]| <= fill))
    && (forall p, q :: p in records && q in records && p.chunk == q.chunk && p.at < q.at ==>
          p.at + |records[p]| <= q.at)
  }

  /** The counts and states of the chunks agree with the records in them. */
  ghost predicate Tracked(records: Live, live: seq<nat>, residency: seq<Residency>, current: Option<nat>, fill: nat)
  {
    && |residency| == |live|
    && (forall c :: 0 <= c < |live| ==> live[c] == |InChunk(records, c)|)
    && (forall c :: 0 <= c < |live| && live[c] > 0 ==> residency[c].Touched?)
    && (current.Some? ==>
          current.value < |live| && residency[current.value].Touched? && (live[current.value] == 0 ==> fill == 0))
  }

  /** Unless a hand-back has failed, an empty chunk above the resident set that
      nobody is handing back is untouched. */
  ghost predicate Trimmed(live: seq<nat>, residency: seq<Residency>, resident: nat)
    requires |residency| == |live|
  {
    forall c :: resident <= c < |live| && live[c] == 0 && !residency[c].Reclaiming? ==> residency[c].Untouched?
  }

  /** Every live record's bytes are what was put there. */
  ghost predicate Intact(base: seq<byte>, records: Live, chunkBytes: nat)
  {
    forall p :: p in records ==>
      var start := ChunkStart(p.chunk, chunkBytes) + p.at;
      start + |records[p]| <= |base| && base[start..start + |records[p]|] == records[p]
  }

  class PayloadArena {
    const base: array<byte>
    const chunkBytes: nat
    const residentChunks: nat
    var live: seq<nat>
    var residency: seq<Residency>
    var current: Option<nat>
    var fill: nat

    ghost var records: Live
    ghost var handBackFailed: bool

    ghost predicate Valid()
      reads this, base
    {
      && base.Length == ChunkStart(|live|, chunkBytes)
      && (current.Some? ==> fill <= chunkBytes)
      && Packed(records, |live|, chunkBytes, current, fill)
      && Tracked(records, live, residency, current, fill)
      && Intact(base[..], records, chunkBytes)
      && (handBackFailed || Trimmed(live, residency, residentChunks))
    }

    /** `reserved` is whether the address space could be had. */
    constructor (capacity: nat, chunkBytes: nat, residentChunks: nat, reserved: bool)
      ensures Valid() && records == map[] && !handBackFailed
      ensures this.chunkBytes == chunkBytes && this.residentChunks == residentChunks
      ensures |live| == if chunkBytes == 0 || !reserved then 0 else capacity / chunkBytes
      ensures fresh(base) && current.None? && forall r :: r in residency ==> r.Untouched?
    {
      var chunks := if chunkBytes == 0 || !reserved then 0 else capacity / chunkBytes;
      this.chunkBytes, this.residentChunks := chunkBytes, residentChunks;
      base := new byte[ChunkStart(chunks, chunkBytes)];
      live := seq(chunks, i => 0);
      residency := seq(chunks, i => Untouched);
      current, fill, records, handBackFailed := None, 0, map[], false;
      new;
      assert forall c: nat :: InChunk(records, c) == {};
    }

    /** A chunk a new record may start in. */
    predicate FreeChunk(c: nat)
      requires |residency| == |live|
      reads this
    {
      c < |live| && current != Some(c) && live[c] == 0 && !residency[c].Reclaiming?
    }

    predicate FitsCurrent(size: nat)
      reads this
    {
      current.Some? && fill <= chunkBytes && size <= chunkBytes - fill
    }

    method LowestFreeChunk() returns (r: Option<nat>)
      requires Valid()
      ensures r.Some? ==> FreeChunk(r.value) && forall d :: 0 <= d < r.value ==> !FreeChunk(d)
      ensures r.None? ==> forall d: nat :: !FreeChunk(d)
    {
      hide Packed, Intact, Trimmed, InChunk, ChunkStart;
      var c := 0;
      while c < |live|
        invariant 0 <= c <= |live|
        invariant forall d :: 0 <= d < c ==> !FreeChunk(d)
      {
        if Some(c) != current && live[c] == 0 && !residency[c].Reclaiming? { return Some(c); }
        c := c + 1;
      }
      return None;
    }

    /** There is room for `size` bytes now. */
    predicate HasRoom(size: nat)
      requires |residency| == |live|
      reads this
    {
      0 < size <= chunkBytes && (FitsCurrent(size) || exists c: nat :: c < |live| && FreeChunk(c))
    }

    /** On in the current chunk if the record fits there, else the lowest free one. */
    predicate RightChunk(c: nat, size: nat)
      requires |residency| == |live|
      reads this
    {
      if FitsCurrent(size) then current == Some(c)
      else FreeChunk(c) && forall d :: 0 <= d < c ==> !FreeChunk(d)
    }

    /** Where `size` bytes go: on in the current chunk if they fit, else to the
        start of the lowest free one. */
    method ChooseChunk(size: nat) returns (r: Option<nat>)
      requires Valid()
      ensures r.Some? == HasRoom(size)
      ensures r.Some? ==> 0 < size <= chunkBytes && RightChunk(r.value, size)
      ensures r.Some? && r != current ==> FreeChunk(r.value)
      ensures r.Some? ==> (r == current <==> FitsCurrent(size))
    {
      hide Packed, Intact, Trimmed, InChunk, ChunkStart;
      if |live| == 0 || size == 0 || size > chunkBytes { return None; }
      if current.Some? && size <= chunkBytes - fill { return current; }
      r := LowestFreeChunk();
    }

    method CanPut(size: nat) returns (ok: bool)
      requires Valid()
      ensures ok == HasRoom(size)
    {
      hide Packed, Intact, Trimmed, InChunk, ChunkStart;
      var c := ChooseChunk(size);
      ok := c.Some?;
    }

    /** Copy `bytes` in as a new live record, right after the last one put if that still
        fits its chunk, and the next goes after it. It is refused exactly when there is
        no room; every other record, and every chunk being handed back, stays as it is. */
    method Put(bytes: seq<byte>) returns (r: Option<Record>, ghost p: Place)
      requires Valid()
      modifies this, base
      ensures Valid() && handBackFailed == old(handBackFailed)
      ensures r.Some? == old(HasRoom(|bytes|))
      ensures r.None? ==>
        && records == old(records) && residency == old(residency)
        && current == old(current) && fill == old(fill) && live == old(live)
      ensures r.Some? ==>
        && p !in old(records) && records == old(records)[p := bytes] && p.chunk < |old(residency)|
        && old(residency[p.chunk]) != Reclaiming && residency == old(residency)[p.chunk := Touched]
        && r.value == Record(ChunkStart(p.chunk, chunkBytes) + p.at, |bytes|)
      ensures r.Some? ==>
        && old(RightChunk(p.chunk, |bytes|)) && p.at == (if old(FitsCurrent(|bytes|)) then old(fill) else 0)
        && current == Some(p.chunk) && fill == p.at + |bytes|
        && p.chunk < |old(live)| && live == old(live)[p.chunk := old(live)[p.chunk] + 1]
    {
      hide Packed, Intact, Trimmed, InChunk, ChunkStart, Tracked, PayloadArena.RightChunk, PayloadArena.HasRoom;
      p := Place(0, 0);
      Shape();
      var next := ChooseChunk(|bytes|);
      if next.None? { return None, p; }
      var c, f := next.value, if next == current then fill else 0;
      p := Place(c, f);
      StartIs(c, chunkBytes);
      r := Some(Record(c * chunkBytes + f, |bytes|));
      CopyIn(c * chunkBytes + f, p, bytes);
      PutKeeps(records, live, residency, current, fill, residentChunks, chunkBytes, p, bytes, handBackFailed);
      live := live[c := live[c] + 1];
      residency := residency[c := Touched];
      current := next;
      fill := f + |bytes|;
      records := records[p := bytes];
    }

    /** The memcpy of a Put: only free bytes change. */
    method CopyIn(offset: nat, ghost p: Place, bytes: seq<byte>)
      requires offset == ChunkStart(p.chunk, chunkBytes) + p.at
      requires Valid() && Room(records, live, residency, current, fill, chunkBytes, p, bytes)
      modifies base
      ensures Valid() && Intact(base[..], records[p := bytes], chunkBytes)
    {
      hide Tracked, Trimmed, InChunk, ChunkStart, Packed, Intact;
      ghost var before := base[..];
      ChunkFits(p.chunk, |live|, chunkBytes);
      RoomIsFree(records, live, residency, current, fill, chunkBytes, p, bytes);
      forall i | 0 <= i < |bytes| {
        base[offset + i] := bytes[i];
      }
      assert base[..] == Overwritten(before, offset, bytes);
      OverwriteKeeps(before, records, chunkBytes, p, bytes);
    }

    lemma Shape()
      requires Valid()
      ensures |residency| == |live| && (current.Some? ==> current.value < |live| && fill <= chunkBytes)
      ensures current.Some? ==> !residency[current.value].Reclaiming?
    {}

    /** A live record is given up. Emptied, a chunk above the resident set is claimed
        for hand-back, and nothing may be put there until that is over. */
    method Free(offset: nat, ghost p: Place) returns (claimed: Option<nat>)
      requires Valid() && p in records && offset == ChunkStart(p.chunk, chunkBytes) + p.at
      modifies this
      ensures Valid() && records == old(records) - {p} && handBackFailed == old(handBackFailed)
      ensures claimed == if p.chunk >= residentChunks && InChunk(records, p.chunk) == {} then Some(p.chunk) else None
      ensures p.chunk < |old(residency)| && old(residency[p.chunk]).Touched?
      ensures residency == if claimed.Some? then old(residency)[p.chunk := Reclaiming] else old(residency)
      // The current chunk, emptied, is begun again; handed back, it is current no more.
      ensures var emptied := old(current) == Some(p.chunk) && InChunk(records, p.chunk) == {};
        && current == (if emptied && claimed.Some? then None else old(current))
        && fill == (if emptied then 0 else old(fill))
    {
      hide Packed, Intact, Trimmed, InChunk, ChunkStart, Tracked;
      RecordFits(p);
      ChunkOf(p.chunk, p.at, chunkBytes);
      var c := offset / chunkBytes;
      LastOne(records, live, residency, current, fill, p);
      FreeKeeps(records, live, residency, current, fill, residentChunks, chunkBytes, p, handBackFailed);
      IntactWithout(base[..], records, chunkBytes, p);
      records := records - {p};
      live := live[c := live[c] - 1];
      if live[c] != 0 { return None; }
      if Some(c) == current {
        fill := 0;
        if c < residentChunks { return None; }
        current := None;
      }
      if c < residentChunks { return None; }
      residency := residency[c := Reclaiming];
      return Some(c);
    }

    lemma RecordFits(p: Place)
      requires Valid() && p in records
      ensures p.chunk < |live| && p.at < chunkBytes && |live| == |residency|
    {}

    /** The hand-back itself, run outside the owner's lock and so between any two of
        its calls, as often and as partially as the kernel likes: bytes of a claimed
        chunk become anything. */
    method RunReclaim(c: nat, from: nat, to: nat, junk: nat -> byte)
      requires Valid() && c < |residency| && residency[c].Reclaiming? && from <= to <= chunkBytes
      modifies base
      ensures Valid()
      ensures var start := ChunkStart(c, chunkBytes);
        forall i :: 0 <= i < base.Length && !(start + from <= i < start + to) ==> base[i] == old(base[i])
    {
      hide Packed, Trimmed, InChunk, ChunkStart, Tracked;
      Shape();
      ChunkFits(c, |live|, chunkBytes);
      ghost var before := base[..];
      StartIs(c, chunkBytes);
      var start := c * chunkBytes;
      forall i | start + from <= i < start + to {
        base[i] := junk(i);
      }
      ClaimedIsFree(records, live, residency, current, fill, chunkBytes, c);
      ElsewhereKeeps(before, base[..], records, chunkBytes, c);
    }

    /** The hand-back is over; `error` says whether the kernel refused it. */
    method CompleteReclaim(c: nat, error: bool)
      requires Valid() && c < |residency| && residency[c].Reclaiming?
      modifies this`residency, this`handBackFailed
      ensures Valid() && handBackFailed == (old(handBackFailed) || error)
      ensures residency == old(residency)[c := if error then Touched else Untouched]
    {
      hide Packed, Intact, InChunk, ChunkStart;
      handBackFailed := handBackFailed || error;
      residency := residency[c := if error then Touched else Untouched];
    }

    /** How many chunks may hold pages. */
    method ResidentBytes() returns (n: nat)
      requires Valid()
      ensures n == |Resident(residency)| * chunkBytes
    {
      var count, c := 0, 0;
      assert Resident(residency[..0]) == {};
      while c < |residency|
        invariant 0 <= c <= |residency| && count == |Resident(residency[..c])|
      {
        assert Resident(residency[..c + 1]) == Resident(residency[..c]) + if residency[c].Untouched? then {} else {c};
        count := count + if residency[c].Untouched? then 0 else 1;
        c := c + 1;
      }
      assert residency[..c] == residency;
      n := count * chunkBytes;
    }
  }

  /** The chunks written since they were last handed back. */
  function Resident(residency: seq<Residency>): set<nat>
  {
    set c | 0 <= c < |residency| && !residency[c].Untouched?
  }

  lemma StartIs(c: nat, chunkBytes: nat)
    ensures ChunkStart(c, chunkBytes) == c * chunkBytes
  {}

  lemma ChunkFits(c: nat, chunks: nat, chunkBytes: nat)
    requires c < chunks
    ensures ChunkStart(c, chunkBytes) + chunkBytes <= ChunkStart(chunks, chunkBytes)
  {
    ChunksApart(c, chunks, chunkBytes);
  }

  // ---- what each step keeps --------------------------------------------------------

  /** `bytes` may be put at `p`: on in the current chunk, or at the start of a free
      one. */
  predicate Room(records: Live, live: seq<nat>, residency: seq<Residency>, current: Option<nat>, fill: nat,
                 chunkBytes: nat, p: Place, bytes: seq<byte>)
  {
    && |residency| == |live| && p.chunk < |live| && bytes != [] && p.at + |bytes| <= chunkBytes
    && !residency[p.chunk].Reclaiming?
    && if current == Some(p.chunk) then p.at == fill else p.at == 0 && live[p.chunk] == 0
  }

  /** Nothing lives where it goes. */
  lemma RoomIsFree(records: Live, live: seq<nat>, residency: seq<Residency>, current: Option<nat>, fill: nat,
                   chunkBytes: nat, p: Place, bytes: seq<byte>)
    requires Packed(records, |live|, chunkBytes, current, fill) && Tracked(records, live, residency, current, fill)
    requires Room(records, live, residency, current, fill, chunkBytes, p, bytes)
    ensures p !in records
    ensures forall q :: q in records && q.chunk == p.chunk ==> q.at + |records[q]| <= p.at
    ensures forall q :: q in records ==> q.at + |records[q]| <= chunkBytes
  {
    if current != Some(p.chunk) {
      forall q | q in records
        ensures q.chunk != p.chunk
      {
        assert q.chunk == p.chunk ==> q in InChunk(records, p.chunk);
      }
    }
  }

  lemma InChunkPut(records: Live, p: Place, bytes: seq<byte>, c: nat)
    requires p !in records
    ensures |InChunk(records[p := bytes], c)| == |InChunk(records, c)| + if c == p.chunk then 1 else 0
  {
    assert InChunk(records[p := bytes], c) == InChunk(records, c) + if c == p.chunk then {p} else {};
  }

  lemma InChunkFreed(records: Live, p: Place, c: nat)
    requires p in records
    ensures |InChunk(records - {p}, c)| == |InChunk(records, c)| - if c == p.chunk then 1 else 0
    ensures InChunk(records - {p}, c) == {} <==> |InChunk(records - {p}, c)| == 0
  {
    assert p in InChunk(records, p.chunk);
    assert InChunk(records - {p}, c) == InChunk(records, c) - if c == p.chunk then {p} else {};
  }

  lemma PutKeeps(records: Live, live: seq<nat>, residency: seq<Residency>, current: Option<nat>, fill: nat,
                 resident: nat, chunkBytes: nat, p: Place, bytes: seq<byte>, failed: bool)
    requires Packed(records, |live|, chunkBytes, current, fill) && Tracked(records, live, residency, current, fill)
    requires failed || Trimmed(live, residency, resident)
    requires Room(records, live, residency, current, fill, chunkBytes, p, bytes)
    ensures p !in records
    ensures Packed(records[p := bytes], |live|, chunkBytes, Some(p.chunk), p.at + |bytes|)
    ensures Tracked(records[p := bytes], live[p.chunk := live[p.chunk] + 1], residency[p.chunk := Touched],
                    Some(p.chunk), p.at + |bytes|)
    ensures failed || Trimmed(live[p.chunk := live[p.chunk] + 1], residency[p.chunk := Touched], resident)
  {
    RoomIsFree(records, live, residency, current, fill, chunkBytes, p, bytes);
    PutPacks(records, |live|, chunkBytes, current, fill, p, bytes);
    PutTracks(records, live, residency, current, fill, p, bytes);
  }

  lemma PutPacks(records: Live, chunks: nat, chunkBytes: nat, current: Option<nat>, fill: nat, p: Place,
                 bytes: seq<byte>)
    requires Packed(records, chunks, chunkBytes, current, fill) && p !in records
    requires p.chunk < chunks && bytes != [] && p.at + |bytes| <= chunkBytes
    requires forall q :: q in records && q.chunk == p.chunk ==> q.at + |records[q]| <= p.at
    ensures Packed(records[p := bytes], chunks, chunkBytes, Some(p.chunk), p.at + |bytes|)
  {}

  lemma PutTracks(records: Live, live: seq<nat>, residency: seq<Residency>, current: Option<nat>, fill: nat,
                  p: Place, bytes: seq<byte>)
    requires Tracked(records, live, residency, current, fill) && p !in records && p.chunk < |live|
    ensures Tracked(records[p := bytes], live[p.chunk := live[p.chunk] + 1], residency[p.chunk := Touched],
                    Some(p.chunk), p.at + |bytes|)
  {
    hide InChunk;
    forall c: nat
      ensures |InChunk(records[p := bytes], c)| == |InChunk(records, c)| + if c == p.chunk then 1 else 0
    {
      InChunkPut(records, p, bytes, c);
    }
  }

  /** After freeing `p`. */
  lemma FreeKeeps(records: Live, live: seq<nat>, residency: seq<Residency>, current: Option<nat>, fill: nat,
                  resident: nat, chunkBytes: nat, p: Place, failed: bool)
    requires Packed(records, |live|, chunkBytes, current, fill) && Tracked(records, live, residency, current, fill)
    requires p in records && (failed || Trimmed(live, residency, resident))
    ensures p.chunk < |live| == |residency| && live[p.chunk] > 0
    ensures var emptied, own := live[p.chunk] == 1, current == Some(p.chunk);
      var live', fill' := live[p.chunk := live[p.chunk] - 1], if emptied && own then 0 else fill;
      var current' := if emptied && own && p.chunk >= resident then None else current;
      var residency' := if emptied && p.chunk >= resident then residency[p.chunk := Reclaiming] else residency;
      && Packed(records - {p}, |live|, chunkBytes, current', fill')
      && Tracked(records - {p}, live', residency', current', fill')
      && (failed || Trimmed(live', residency', resident))
  {
    hide InChunk;
    LastOne(records, live, residency, current, fill, p);
    var less := records - {p};
    forall c: nat
      ensures |InChunk(less, c)| == |InChunk(records, c)| - if c == p.chunk then 1 else 0
    {
      InChunkFreed(records, p, c);
    }
    if live[p.chunk] == 1 { NoneIn(less, p.chunk); }
  }

  lemma NoneIn(records: Live, c: nat)
    requires InChunk(records, c) == {}
    ensures forall q :: q in records ==> q.chunk != c
  {
    forall q | q in records
      ensures q.chunk != c
    {
      assert q.chunk == c ==> q in InChunk(records, c);
    }
  }

  /** A chunk is emptied by its last record. */
  lemma LastOne(records: Live, live: seq<nat>, residency: seq<Residency>, current: Option<nat>, fill: nat, p: Place)
    requires Tracked(records, live, residency, current, fill) && p in records && p.chunk < |live|
    ensures |residency| == |live| && live[p.chunk] > 0 && residency[p.chunk].Touched?
    ensures live[p.chunk] == 1 <==> InChunk(records - {p}, p.chunk) == {}
  {
    assert p in InChunk(records, p.chunk);
    InChunkFreed(records, p, p.chunk);
  }

  lemma ClaimedIsFree(records: Live, live: seq<nat>, residency: seq<Residency>, current: Option<nat>, fill: nat,
                      chunkBytes: nat, c: nat)
    requires Packed(records, |live|, chunkBytes, current, fill) && Tracked(records, live, residency, current, fill)
    requires c < |residency| && residency[c].Reclaiming?
    ensures forall q :: q in records ==> q.chunk != c && q.at + |records[q]| <= chunkBytes
    ensures current != Some(c)
  {
    forall q | q in records
      ensures q.chunk != c
    {
      assert q.chunk == c ==> q in InChunk(records, c);
    }
  }

  function Overwritten(base: seq<byte>, at: nat, bytes: seq<byte>): (r: seq<byte>)
    requires at + |bytes| <= |base|
    ensures |r| == |base|
  {
    base[..at] + bytes + base[at + |bytes|..]
  }

  lemma OverwriteKeeps(base: seq<byte>, records: Live, chunkBytes: nat, p: Place, bytes: seq<byte>)
    requires Intact(base, records, chunkBytes) && p !in records
    requires ChunkStart(p.chunk, chunkBytes) + p.at + |bytes| <= |base| && p.at + |bytes| <= chunkBytes
    requires forall q :: q in records ==>
      q.at + |records[q]| <= chunkBytes && (q.chunk == p.chunk ==> q.at + |records[q]| <= p.at)
    ensures Intact(Overwritten(base, ChunkStart(p.chunk, chunkBytes) + p.at, bytes), records, chunkBytes)
    ensures Intact(Overwritten(base, ChunkStart(p.chunk, chunkBytes) + p.at, bytes), records[p := bytes], chunkBytes)
  {
    hide ChunkStart;
    var at := ChunkStart(p.chunk, chunkBytes) + p.at;
    var base' := Overwritten(base, at, bytes);
    assert base'[at..at + |bytes|] == bytes;
    forall q | q in records
      ensures var start := ChunkStart(q.chunk, chunkBytes) + q.at;
        start + |records[q]| <= |base| && base'[start..start + |records[q]|] == records[q]
    {
      var start := ChunkStart(q.chunk, chunkBytes) + q.at;
      if q.chunk < p.chunk { ChunksApart(q.chunk, p.chunk, chunkBytes); }
      if p.chunk < q.chunk { ChunksApart(p.chunk, q.chunk, chunkBytes); }
      assert base'[start..start + |records[q]|] == base[start..start + |records[q]|];
    }
  }

  lemma ElsewhereKeeps(base: seq<byte>, base': seq<byte>, records: Live, chunkBytes: nat, c: nat)
    requires Intact(base, records, chunkBytes) && |base'| == |base|
    requires forall i ::
      0 <= i < |base| && !(ChunkStart(c, chunkBytes) <= i < ChunkStart(c, chunkBytes) + chunkBytes) ==>
      base'[i] == base[i]
    requires forall q :: q in records ==> q.chunk != c && q.at + |records[q]| <= chunkBytes
    ensures Intact(base', records, chunkBytes)
  {
    hide ChunkStart;
    forall q | q in records
      ensures var start := ChunkStart(q.chunk, chunkBytes) + q.at;
        start + |records[q]| <= |base| && base'[start..start + |records[q]|] == records[q]
    {
      var start := ChunkStart(q.chunk, chunkBytes) + q.at;
      if q.chunk < c { ChunksApart(q.chunk, c, chunkBytes); } else { ChunksApart(c, q.chunk, chunkBytes); }
      assert base'[start..start + |records[q]|] == base[start..start + |records[q]|];
    }
  }

  lemma IntactWithout(base: seq<byte>, records: Live, chunkBytes: nat, p: Place)
    requires Intact(base, records, chunkBytes)
    ensures Intact(base, records - {p}, chunkBytes)
  {}

  // ---- what holds at every moment -----------------------------------------------

  /** A live record reads as the bytes that were put, overlaps no other, and is
      never in a chunk being handed back. */
  lemma LiveRecordsAreSafe(a: PayloadArena)
    requires a.Valid()
    ensures forall p :: p in a.records ==>
      var start := ChunkStart(p.chunk, a.chunkBytes) + p.at;
      && start + |a.records[p]| <= a.base.Length && a.base[start..start + |a.records[p]|] == a.records[p]
      && p.chunk < |a.residency| && a.residency[p.chunk].Touched?
    ensures forall p, q :: p in a.records && q in a.records && p != q ==>
      var i, j := ChunkStart(p.chunk, a.chunkBytes) + p.at, ChunkStart(q.chunk, a.chunkBytes) + q.at;
      i + |a.records[p]| <= j || j + |a.records[q]| <= i
  {
    hide ChunkStart, Trimmed;
    forall p | p in a.records
      ensures a.residency[p.chunk].Touched?
    {
      assert p in InChunk(a.records, p.chunk);
    }
    forall p, q | p in a.records && q in a.records && p != q
      ensures var i, j := ChunkStart(p.chunk, a.chunkBytes) + p.at, ChunkStart(q.chunk, a.chunkBytes) + q.at;
        i + |a.records[p]| <= j || j + |a.records[q]| <= i
    {
      if p.chunk < q.chunk { ChunksApart(p.chunk, q.chunk, a.chunkBytes); }
      if q.chunk < p.chunk { ChunksApart(q.chunk, p.chunk, a.chunkBytes); }
    }
  }

  /** In every state in which no hand-back has failed: a chunk above the resident set
      that holds nothing and is not being handed back holds no pages. */
  lemma EmptyChunksAreUntouched(a: PayloadArena, c: nat)
    requires a.Valid() && !a.handBackFailed
    requires a.residentChunks <= c < |a.live| && InChunk(a.records, c) == {} && !a.residency[c].Reclaiming?
    ensures a.residency[c].Untouched?
  {
    hide ChunkStart;
    assert a.live[c] == |InChunk(a.records, c)|;
  }

  /** So once everything has drained and every hand-back is over, only the resident
      set can hold pages. */
  lemma DrainedLeavesTheResidentSet(a: PayloadArena)
    requires a.Valid() && !a.handBackFailed && a.records == map[]
    requires forall c :: 0 <= c < |a.residency| ==> !a.residency[c].Reclaiming?
    ensures forall c :: a.residentChunks <= c < |a.residency| ==> a.residency[c].Untouched?
  {
    hide ChunkStart, Packed, Intact, Trimmed;
    forall c | a.residentChunks <= c < |a.residency|
      ensures a.residency[c].Untouched?
    {
      assert InChunk(a.records, c) == {};
      EmptyChunksAreUntouched(a, c);
    }
  }

  // ---- what a run of calls does --------------------------------------------------

  /** Records that fit what is left of the current chunk are all taken, and lie back to
      back in it. */
  method PutAll(a: PayloadArena, xs: seq<seq<byte>>)
    requires a.Valid() && a.FitsCurrent(|Flat(xs)|) && [] !in xs
    modifies a, a.base
    ensures a.Valid() && a.current == old(a.current) && a.fill == old(a.fill) + |Flat(xs)|
    ensures forall p :: p in old(a.records) ==> p in a.records && a.records[p] == old(a.records)[p]
    ensures forall i :: 0 <= i < |xs| ==>
      var p := Place(a.current.value, old(a.fill) + |Flat(xs[..i])|); p in a.records && a.records[p] == xs[i]
  {
    hide PayloadArena.Valid, Flat, ChunkStart;
    var i := 0;
    FlatOfPart(xs, 0);
    while i < |xs|
      invariant 0 <= i <= |xs| && a.Valid() && a.current == old(a.current)
      invariant a.fill == old(a.fill) + |Flat(xs[..i])|
      invariant forall p :: p in old(a.records) ==> p in a.records && a.records[p] == old(a.records)[p]
      invariant forall k :: 0 <= k < i ==>
        var p := Place(a.current.value, old(a.fill) + |Flat(xs[..k])|); p in a.records && a.records[p] == xs[k]
    {
      FlatOfPart(xs, i);
      a.Shape();
      var r, p := a.Put(xs[i]);
      i := i + 1;
    }
    assert xs[..i] == xs;
  }

  lemma FlatOfPart(xs: seq<seq<byte>>, i: nat)
    requires i <= |xs|
    ensures i == 0 ==> Flat(xs[..i]) == []
    ensures i < |xs| ==> Flat(xs[..i + 1]) == Flat(xs[..i]) + xs[i] && |Flat(xs[..i + 1])| <= |Flat(xs)|
  {
    if i < |xs| {
      FlatAppend(xs[..i], [xs[i]]);
      FlatOne(xs[i]);
      FlatAppend(xs[..i + 1], xs[i + 1..]);
      assert xs[..i + 1] == xs[..i] + [xs[i]] && xs == xs[..i + 1] + xs[i + 1..];
    }
  }

  /** With a chunk free, two records that fit one together are both taken: one after the
      other, or, if the current chunk had room for the first alone, the second at the
      start of a chunk of its own. */
  method PutTwo(a: PayloadArena, x: seq<byte>, y: seq<byte>) returns (ghost p: Place, ghost q: Place)
    requires a.Valid() && x != [] && y != [] && |x| + |y| <= a.chunkBytes
    requires |a.residency| == |a.live| && exists c: nat :: a.FreeChunk(c)
    modifies a, a.base
    ensures a.Valid() && a.records == old(a.records)[p := x][q := y] && p !in old(a.records) && q !in old(a.records)
    ensures if p.at + |x| + |y| <= a.chunkBytes then q == Place(p.chunk, p.at + |x|)
            else q.at == 0 && q.chunk != p.chunk && old(a.FitsCurrent(|x|))
  {
    hide PayloadArena.Valid, ChunkStart;
    ghost var c: nat :| a.FreeChunk(c);
    var r, s;
    a.Shape();
    r, p := a.Put(x);
    a.Shape();
    assert p.at + |x| + |y| > a.chunkBytes ==> a.FreeChunk(c);
    s, q := a.Put(y);
  }
}
