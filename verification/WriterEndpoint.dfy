/**
 The recorder's queue (cpp/src/mcap/writer_endpoint.cc): producers copy frames
 in under a lock, one writer thread swaps the whole queue out and writes it. The
 writer's methods are written out; wherever it does not hold the lock, producers
 may send and ask for a stop any number of times, as an arbitrary script decides.
 */
module WriterEndpoint {
  import opened Bytes
  import opened Lists
  import opened PayloadArena
  import opened WritePolicy

  const ARENA_CHUNK_BYTES: nat := 256 * 1024

  datatype Payload = InArena(record: Record) | Held(bytes: seq<byte>)

  /** A queued frame. `number` counts the frames taken, to tell them apart. */
  datatype Entry = Entry(number: nat, size: nat, payload: Payload)

  const SIZE: Entry -> nat := (e: Entry) => e.size

  datatype ProducerStep = SendFrame(bytes: seq<byte>) | RequestStop

  /** What the storage writer does with one call: it may throw, and it may refuse
      everything from then on. */
  datatype Outcome = Outcome(throws: bool, refuses: bool)

  datatype Books = Books(writes: nat, dropped: nat)

  /** The storage writer. `history` is the frames it was given in calls that did not
      throw. */
  class Storage {
    const outcomes: nat -> Outcome
    var calls: nat
    var refused: bool
    var history: seq<seq<byte>>

    constructor (outcomes: nat -> Outcome)
      ensures this.outcomes == outcomes && calls == 0 && !refused && history == []
    {
      this.outcomes, calls, refused, history := outcomes, 0, false, [];
    }

    /** A call that writes no frame. */
    method FlushDue() returns (threw: bool)
      modifies this`calls, this`refused
      ensures threw == outcomes(old(calls)).throws && calls == old(calls) + 1
      ensures refused == (old(refused) || outcomes(old(calls)).refuses)
    {
      threw, refused := outcomes(calls).throws, refused || outcomes(calls).refuses;
      calls := calls + 1;
    }

    method Write(bytes: seq<byte>) returns (threw: bool)
      modifies this
      ensures threw == outcomes(old(calls)).throws && calls == old(calls) + 1
      ensures refused == (old(refused) || outcomes(old(calls)).refuses)
      ensures history == if threw then old(history) else old(history) + [bytes]
    {
      threw := FlushDue();
      if !threw { history := history + [bytes]; }
    }
  }

  /** What a frame of `size` bytes met. */
  datatype Met = Met(queue: seq<Entry>, size: nat)

  /** The history: the frames taken, and what each of them met; what is being shed
      for the one that is being taken, and its record, if it has no entry yet; the numbers of
      those storage was given, where the
      arena holds the live ones; how many held entries, from the front, are counted
      already, and how many bytes the gauges still count for an entry that is gone;
      the number from which on nothing has been written; and whether the queue is
      being shed without a writer thread. */
  datatype Log = Log(sent: seq<seq<byte>>, met: seq<Met>, shedding: seq<Entry>, stray: Option<Place>,
                     stored: seq<nat>, places: map<nat, Place>, settled: nat, owed: nat, next: nat, inline: bool)

  // ---- what the policy gives up ----------------------------------------------------

  function Numbers(es: seq<Entry>): set<nat>
  {
    set e | e in es :: e.number
  }

  /** What the policy gives up when frame `n` comes in. */
  function GivenUp(policy: Policy, m: Met, n: nat): set<nat>
  {
    if Rejects(policy, m.queue) then {n} else Numbers(ShedFor(policy, m.queue, m.size, SIZE))
  }

  /** The numbers of the frames the policy has given up, by what each frame met. */
  function Away(policy: Policy, met: seq<Met>): set<nat>
  {
    if met == [] then {}
    else var k := |met| - 1; Away(policy, met[..k]) + GivenUp(policy, met[k], k)
  }

  /** How many those are. */
  function AwayCount(policy: Policy, met: seq<Met>): nat
  {
    if met == [] then 0
    else
      var m := met[|met| - 1];
      AwayCount(policy, met[..|met| - 1]) +
      if Rejects(policy, m.queue) then 1 else |ShedFor(policy, m.queue, m.size, SIZE)|
  }

  /** Frame `n` is stored, or given up by the policy, or still held. */
  ghost predicate Accounted(policy: Policy, log: Log, held: seq<Entry>, n: nat)
  {
    || n in log.stored || n in Away(policy, log.met) || n in Numbers(log.shedding)
    || (exists i :: log.settled <= i < |held| && held[i].number == n)
  }

  /** No frame taken is lost but by the policy, and only those count as dropped. */
  ghost predicate NoneLost(policy: Policy, log: Log, held: seq<Entry>, dropped: nat)
  {
    && dropped == AwayCount(policy, log.met) + |log.shedding|
    && forall n: nat :: n < |log.sent| ==> Accounted(policy, log, held, n)
  }

  /** It is told of every frame taken what it met. */
  ghost predicate MetOk(log: Log)
  {
    |log.met| == |log.sent| && forall k :: 0 <= k < |log.met| ==> log.met[k].size == |log.sent[k]|
  }

  /** What frames from number `n` on may make of the queue `q`: what is in it then was in
      it, or is one of them; and they do not empty it. */
  ghost predicate QueueFrom(q: seq<Entry>, n: nat, q': seq<Entry>)
  {
    (forall e :: e in q' ==> e in q || e.number >= n) && (q != [] ==> q' != [])
  }

  lemma NoQueue(n: nat)
    ensures QueueFrom([], n, [])
  {}

  lemma QueueSelf(q: seq<Entry>, n: nat)
    ensures QueueFrom(q, n, q)
  {}

  lemma QueueTrans(q: seq<Entry>, n: nat, q': seq<Entry>, n': nat, q'': seq<Entry>)
    requires QueueFrom(q, n, q') && QueueFrom(q', n', q'') && n <= n'
    ensures QueueFrom(q, n, q'')
  {}

  /** More frames were taken, and nothing told of those before has changed. */
  ghost predicate Grew(a: Log, b: Log)
  {
    IsPrefix(a.sent, b.sent) && IsPrefix(a.met, b.met)
  }

  lemma GrewSelf(a: Log)
    ensures Grew(a, a)
  {}

  lemma GrewTrans(a: Log, b: Log, c: Log)
    requires Grew(a, b) && Grew(b, c)
    ensures Grew(a, c)
  {}

  lemma GrewSent(a: Log, b: Log)
    requires Grew(a, b)
    ensures |a.sent| <= |b.sent|
  {}

  lemma Later(q: seq<Entry>, a: Log, q': seq<Entry>, b: Log, q'': seq<Entry>, c: Log)
    requires Grew(a, b) && Grew(b, c) && QueueFrom(q, |a.sent|, q') && QueueFrom(q', |b.sent|, q'')
    ensures Grew(a, c) && QueueFrom(q, |a.sent|, q'')
  {
    QueueTrans(q, |a.sent|, q', |b.sent|, q'');
  }

  /** A frame comes in behind what is kept. */
  lemma QueuePushed(q: seq<Entry>, kept: seq<Entry>, e: Entry, n: nat)
    requires Subsequence(kept, q) && e.number >= n
    ensures QueueFrom(q, n, kept + [e])
  {
    hide Subsequence;
    SubsequenceMembers(kept, q);
  }

  lemma StoredMore(history: seq<seq<byte>>, stored: seq<nat>, sent: seq<seq<byte>>, sent': seq<seq<byte>>, next: nat)
    requires StoredOk(history, stored, sent, next) && IsPrefix(sent, sent')
    ensures StoredOk(history, stored, sent', next) && next <= |sent|
  {}

  lemma MetSame(log: Log, log': Log)
    requires MetOk(log) && log'.sent == log.sent && log'.met == log.met
    ensures MetOk(log')
  {}

  lemma MetMore(log: Log, bytes: seq<byte>, q: seq<Entry>)
    requires MetOk(log)
    ensures var log' := log.(sent := log.sent + [bytes], met := log.met + [Met(q, |bytes|)]);
      MetOk(log') && MetOk(log'.(shedding := [], stray := None))
  {}

  lemma NothingHeld(policy: Policy, log: Log, chunkBytes: nat)
    requires log == Log([], [], [], None, [], map[], 0, 0, 0, false)
    ensures NoneLost(policy, log, [], 0) && MetOk(log) && Owned(multiset([]), log, map[], chunkBytes)
    ensures InOrder([]) && StoredOk([], [], [], 0) && StillToCome([], 0, 0) && Sum<Entry>([], SIZE) == 0
  {}

  lemma NoneLostSame(policy: Policy, log: Log, log': Log, held: seq<Entry>, dropped: nat)
    requires NoneLost(policy, log, held, dropped)
    requires log' == log.(places := log'.places, stray := log'.stray, owed := log'.owed, next := log'.next,
                        inline := log'.inline)
    ensures NoneLost(policy, log', held, dropped)
  {
    hide Away, AwayCount;
    forall n: nat | n < |log.sent| ensures Accounted(policy, log', held, n) { assert Accounted(policy, log, held, n); }
  }

  /** The front entry, counted already, goes. */
  lemma NoneLostPop(policy: Policy, log: Log, log': Log, held: seq<Entry>, dropped: nat)
    requires NoneLost(policy, log, held, dropped) && held != [] && log.settled > 0
    requires log' == log.(settled := log.settled - 1, owed := log'.owed)
    ensures NoneLost(policy, log', held[1..], dropped)
  {
    hide Away, AwayCount;
    forall n: nat | n < |log.sent|
      ensures Accounted(policy, log', held[1..], n)
    {
      assert Accounted(policy, log, held, n);
      if i :| log.settled <= i < |held| && held[i].number == n { assert held[1..][i - 1].number == n; }
    }
  }

  /** The front entry is stored, and counted. */
  lemma NoneLostWrote(policy: Policy, log: Log, log': Log, held: seq<Entry>, dropped: nat)
    requires NoneLost(policy, log, held, dropped) && held != [] && log.settled == 0
    requires log' == log.(stored := log.stored + [held[0].number], settled := 1, next := log'.next)
    ensures NoneLost(policy, log', held, dropped)
  {
    hide Away, AwayCount;
    forall n: nat | n < |log.sent|
      ensures Accounted(policy, log', held, n)
    {
      assert Accounted(policy, log, held, n);
      assert held[0].number in log'.stored && forall m :: m in log.stored ==> m in log'.stored;
    }
  }

  lemma AwayMore(policy: Policy, met: seq<Met>, m: Met)
    ensures Away(policy, met + [m]) == Away(policy, met) + GivenUp(policy, m, |met|)
    ensures AwayCount(policy, met + [m]) ==
      AwayCount(policy, met) + if Rejects(policy, m.queue) then 1 else |ShedFor(policy, m.queue, m.size, SIZE)|
  {
    assert (met + [m])[..|met|] == met;
  }

  /** A frame is refused. */
  lemma NoneLostRejected(policy: Policy, log: Log, held: seq<Entry>, dropped: nat, bytes: seq<byte>, q: seq<Entry>)
    requires MetOk(log) && NoneLost(policy, log, held, dropped) && Rejects(policy, q)
    ensures NoneLost(policy, log.(sent := log.sent + [bytes], met := log.met + [Met(q, |bytes|)]), held, dropped + 1)
  {
    hide Away, AwayCount, ShedFor, Rejects;
    var log' := log.(sent := log.sent + [bytes], met := log.met + [Met(q, |bytes|)]);
    AwayMore(policy, log.met, Met(q, |bytes|));
    forall n: nat | n < |log'.sent|
      ensures Accounted(policy, log', held, n)
    {
      if n < |log.sent| { assert Accounted(policy, log, held, n); }
    }
  }

  /** Entries are shed. */
  lemma NoneLostShed(policy: Policy, log: Log, batch: seq<Entry>, queue: seq<Entry>, kept: seq<Entry>, out: seq<Entry>,
                     dropped: nat)
    requires NoneLost(policy, log, batch + queue, dropped) && log.settled <= |batch| && log.shedding == []
    requires multiset(queue) == multiset(kept) + multiset(out)
    ensures NoneLost(policy, log.(shedding := out), batch + kept, dropped + |out|)
  {
    hide Away, AwayCount;
    var held, held', log' := batch + queue, batch + kept, log.(shedding := out);
    forall n: nat | n < |log.sent|
      ensures Accounted(policy, log', held', n)
    {
      assert Accounted(policy, log, held, n);
      if i :| log.settled <= i < |held| && held[i].number == n {
        if i < |batch| {
          assert held'[i].number == n;
        } else {
          var e := queue[i - |batch|];
          assert e in multiset(queue);
          if e in kept {
            var k :| 0 <= k < |kept| && kept[k] == e;
            assert held'[|batch| + k].number == n;
          } else {
            assert e in multiset(out);
          }
        }
      }
    }
  }

  /** The frame they were shed for is queued. */
  lemma NoneLostPushed(policy: Policy, log: Log, log': Log, held: seq<Entry>, dropped: nat, e: Entry,
                       bytes: seq<byte>, q: seq<Entry>)
    requires MetOk(log) && NoneLost(policy, log, held, dropped) && !Rejects(policy, q) && log.settled <= |held|
    requires log.shedding == ShedFor(policy, q, |bytes|, SIZE) && e.number == |log.sent|
    requires log' == log.(sent := log.sent + [bytes], met := log.met + [Met(q, |bytes|)], shedding := [],
                          stray := log'.stray)
    ensures NoneLost(policy, log', held + [e], dropped)
  {
    hide Away, AwayCount, ShedFor, Rejects;
    AwayMore(policy, log.met, Met(q, |bytes|));
    assert (held + [e])[|held|].number == |log.sent|;
    forall n: nat | n < |log'.sent|
      ensures Accounted(policy, log', held + [e], n)
    {
      if n < |log.sent| {
        assert Accounted(policy, log, held, n);
        if i :| log.settled <= i < |held| && held[i].number == n { assert (held + [e])[i].number == n; }
      }
    }
  }

  // ---- entries and the arena --------------------------------------------------------

  /** The entry holds the bytes that were sent. */
  ghost predicate EntryOk(e: Entry, log: Log, records: Live, chunkBytes: nat)
  {
    && e.number < |log.sent| && e.size == |log.sent[e.number]|
    && match e.payload
       case Held(bytes) => bytes == log.sent[e.number]
       case InArena(r) =>
         && e.number in log.places && log.places[e.number] in records
         && records[log.places[e.number]] == log.sent[e.number]
         && r == Record(ChunkStart(log.places[e.number].chunk, chunkBytes) + log.places[e.number].at, e.size)
  }

  ghost predicate Apart(e: Entry, f: Entry, places: map<nat, Place>)
  {
    e.number != f.number &&
    (e.payload.InArena? && f.payload.InArena? && e.number in places && f.number in places ==>
       places[e.number] != places[f.number])
  }

  /** Where the arena holds these entries. */
  ghost function PlacesOf(m: multiset<Entry>, places: map<nat, Place>): set<Place>
  {
    set e | e in m && e.payload.InArena? && e.number in places :: places[e.number]
  }

  ghost function Stray(p: Option<Place>): set<Place>
  {
    if p.Some? then {p.value} else {}
  }

  /** Every entry is held once, with its own bytes in its own place; and the arena holds
      nothing else. */
  ghost predicate Owned(m: multiset<Entry>, log: Log, records: Live, chunkBytes: nat)
  {
    && records.Keys == PlacesOf(m, log.places) + Stray(log.stray)
    && (forall e :: e in m ==> EntryOk(e, log, records, chunkBytes) && m[e] == 1)
    && (forall e, f :: e in m && f in m && e != f ==> Apart(e, f, log.places))
  }

  ghost predicate InOrder(es: seq<Entry>)
  {
    forall i, j :: 0 <= i < j < |es| ==> es[i].number < es[j].number
  }

  /** What storage was given is what was sent, in the order it was sent. */
  ghost predicate StoredOk(history: seq<seq<byte>>, stored: seq<nat>, sent: seq<seq<byte>>, next: nat)
  {
    && |history| == |stored| && next <= |sent|
    && (forall i :: 0 <= i < |stored| ==> stored[i] < next && history[i] == sent[stored[i]])
    && (forall i, j :: 0 <= i < j < |stored| ==> stored[i] < stored[j])
  }

  /** What is held and not counted yet comes after all that is stored. */
  ghost predicate StillToCome(es: seq<Entry>, settled: nat, next: nat)
  {
    forall i :: settled <= i < |es| ==> es[i].number >= next
  }

  /** From history `h` on storage was given the bytes sent of these entries. */
  ghost predicate Gave(h: seq<seq<byte>>, h': seq<seq<byte>>, es: seq<Entry>, sent: seq<seq<byte>>)
  {
    && |h'| == |h| + |es| && IsPrefix(h, h')
    && forall i :: 0 <= i < |es| ==> es[i].number < |sent| && h'[|h| + i] == sent[es[i].number]
  }

  lemma GaveNothing(h: seq<seq<byte>>, sent: seq<seq<byte>>)
    ensures Gave(h, h, [], sent)
  {}

  lemma GaveStays(h: seq<seq<byte>>, h': seq<seq<byte>>, es: seq<Entry>, sent: seq<seq<byte>>, sent': seq<seq<byte>>)
    requires Gave(h, h', es, sent) && IsPrefix(sent, sent')
    ensures Gave(h, h', es, sent')
  {}

  lemma GaveOneMore(h: seq<seq<byte>>, h': seq<seq<byte>>, es: seq<Entry>, sent: seq<seq<byte>>, e: Entry,
                    bytes: seq<byte>)
    requires Gave(h, h', es, sent) && e.number < |sent| && bytes == sent[e.number]
    ensures Gave(h, h' + [bytes], es + [e], sent)
  {}

  lemma OwnedMinus(m: multiset<Entry>, e: Entry, log: Log, records: Live, chunkBytes: nat)
    requires Owned(m + multiset{e}, log, records, chunkBytes) && log.stray.None?
    ensures e !in m && EntryOk(e, log, records, chunkBytes)
    ensures e.payload.Held? ==> Owned(m, log, records, chunkBytes)
    ensures e.payload.InArena? ==>
      e.number in log.places && Owned(m, log, records - {log.places[e.number]}, chunkBytes)
  {
    var all := m + multiset{e};
    assert all[e] == m[e] + 1 && e in all;
    forall f | f in m
      ensures f != e && all[f] == m[f] == 1
    {
      assert f in all;
    }
    PlacesWith(m, e, log.places);
    if e.payload.InArena? {
      assert log.places[e.number] !in PlacesOf(m, log.places) by {
        assert forall f :: f in m ==> f in all && Apart(f, e, log.places);
      }
    }
  }

  lemma PlacesWith(m: multiset<Entry>, e: Entry, places: map<nat, Place>)
    ensures PlacesOf(m + multiset{e}, places) ==
      PlacesOf(m, places) + if e.payload.InArena? && e.number in places then {places[e.number]} else {}
  {
    var all := m + multiset{e};
    assert forall f :: f in all <==> f in m || f == e;
    if e.payload.InArena? && e.number in places { assert e in all; }
    forall p | p in PlacesOf(m, places) ensures p in PlacesOf(all, places) {
      var f :| f in m && f.payload.InArena? && f.number in places && places[f.number] == p;
      assert f in all;
    }
  }

  /** Places given to later frames do not matter. */
  lemma PlacesStay(m: multiset<Entry>, places: map<nat, Place>, places': map<nat, Place>, n: nat)
    requires forall e :: e in m ==> e.number < n && (e.payload.InArena? ==> e.number in places)
    requires forall k :: k in places && k < n ==> k in places' && places'[k] == places[k]
    ensures PlacesOf(m, places') == PlacesOf(m, places)
  {}

  /** A new entry, taken after all the others. */
  lemma OwnedPlus(m: multiset<Entry>, e: Entry, log: Log, records: Live, chunkBytes: nat, log': Log, records': Live)
    requires Owned(m, log, records, chunkBytes) && e.number == |log.sent|
    requires IsPrefix(log.sent, log'.sent) && EntryOk(e, log', records', chunkBytes)
    requires forall n :: n in log.places && n < |log.sent| ==> n in log'.places && log'.places[n] == log.places[n]
    requires forall p :: p in records ==> p in records' && records'[p] == records[p]
    requires e.payload.InArena? ==> log'.places[e.number] !in records
    requires log.stray.None? && log'.stray.None?
    requires records'.Keys == records.Keys + if e.payload.InArena? then {log'.places[e.number]} else {}
    ensures Owned(m + multiset{e}, log', records', chunkBytes)
  {
    hide PlacesOf, Stray;
    forall f | f in m
      ensures EntryOk(f, log', records', chunkBytes) && f.number < e.number
    {
      assert EntryOk(f, log, records, chunkBytes);
    }
    PlacesPlus(m, e, log, records, log', records');
    forall f, g | f in m + multiset{e} && g in m + multiset{e} && f != g
      ensures Apart(f, g, log'.places)
    {
      PairApart(m, e, f, g, log, records, chunkBytes, log');
    }
  }

  lemma PlacesPlus(m: multiset<Entry>, e: Entry, log: Log, records: Live, log': Log, records': Live)
    requires records.Keys == PlacesOf(m, log.places) + Stray(log.stray) && log.stray.None? && log'.stray.None?
    requires forall f :: f in m ==> f.number < |log.sent| && (f.payload.InArena? ==> f.number in log.places)
    requires forall n :: n in log.places && n < |log.sent| ==> n in log'.places && log'.places[n] == log.places[n]
    requires e.payload.InArena? ==> e.number in log'.places
    requires records'.Keys == records.Keys + if e.payload.InArena? then {log'.places[e.number]} else {}
    ensures records'.Keys == PlacesOf(m + multiset{e}, log'.places) + Stray(log'.stray)
  {
    hide PlacesOf;
    PlacesStay(m, log.places, log'.places, |log.sent|);
    PlacesWith(m, e, log'.places);
  }

  lemma PairApart(m: multiset<Entry>, e: Entry, f: Entry, g: Entry, log: Log, records: Live, chunkBytes: nat, log': Log)
    requires Owned(m, log, records, chunkBytes) && e.number == |log.sent|
    requires forall n :: n in log.places && n < |log.sent| ==> n in log'.places && log'.places[n] == log.places[n]
    requires e.payload.InArena? ==> e.number in log'.places && log'.places[e.number] !in records
    requires f in m + multiset{e} && g in m + multiset{e} && f != g
    ensures Apart(f, g, log'.places)
  {
    hide PlacesOf, Stray;
    if f in m { assert EntryOk(f, log, records, chunkBytes); }
    if g in m { assert EntryOk(g, log, records, chunkBytes); }
    if f in m && g in m { assert Apart(f, g, log.places); }
  }

  lemma InOrderPush(es: seq<Entry>, e: Entry)
    requires InOrder(es) && forall i :: 0 <= i < |es| ==> es[i].number < e.number
    ensures InOrder(es + [e])
  {}

  /** Dropping entries keeps the order. */
  lemma {:induction false} InOrderSubsequence(a: seq<Entry>, b: seq<Entry>)
    requires InOrder(b) && Subsequence(a, b)
    ensures InOrder(a)
    ensures forall e :: e in a ==> e in b
    decreases |b|
  {
    if a != [] && b != [] {
      var a', b' := a[..|a| - 1], b[..|b| - 1];
      if Subsequence(a, b') {
        InOrderSubsequence(a, b');
        assert forall e :: e in b' ==> e in b;
      } else {
        InOrderSubsequence(a', b');
        var last := a[|a| - 1];
        assert b[|b| - 1] == last;
        forall i | 0 <= i < |a'|
          ensures a'[i].number < last.number
        {
          assert a'[i] in a' && a'[i] in b';
        }
        InOrderPush(a', last);
        assert a == a' + [last];
        assert forall e :: e in a ==> e in a' || e == last;
      }
    }
  }

  class Recorder {
    const policy: Policy
    const arena: PayloadArena
    const script: seq<seq<ProducerStep>>  // the producers
    const storage: Storage
    const handBack: nat -> bool           // whether the kernel refuses each hand-back
    const junk: nat -> byte               // what handed-back memory reads as
    var now: nat
    var handBacks: nat

    var queue: seq<Entry>
    var queueBytes: nat
    var taken: nat
    var stop: bool
    var finalized: bool
    var reclaiming: Option<nat>

    var batch: seq<Entry>
    var inflightBytes: nat
    var failed: bool
    var books: Books
    ghost var log: Log

    ghost function All(): seq<Entry>
      reads this`queue, this`batch
    {
      batch + queue
    }

    ghost predicate ArenaOk()
      reads this`reclaiming, arena, arena.base
    {
      && arena.Valid() && (reclaiming.Some? ==> reclaiming.value < |arena.residency|)
      && (forall c :: 0 <= c < |arena.residency| ==> (arena.residency[c].Reclaiming? <==> reclaiming == Some(c)))
    }

    ghost predicate EntriesOk()
      reads this`queue, this`batch, this`log, arena, storage`history
    {
      && Owned(multiset(All()), log, arena.records, arena.chunkBytes)
      && InOrder(All()) && StoredOk(storage.history, log.stored, log.sent, log.next)
      && StillToCome(All(), log.settled, log.next)
    }

    /** The gauges count what is held, and nothing less. */
    ghost predicate GaugesOk()
      reads this`queue, this`batch, this`queueBytes, this`inflightBytes, this`log, this`stop
    {
      && queueBytes == Sum(queue, SIZE) + (if log.inline then log.owed else 0)
      && inflightBytes == Sum(batch, SIZE) + (if log.inline then 0 else log.owed)
      && (log.inline ==> stop)
    }

    /** Every frame taken is written, dropped, or held and not counted yet. */
    ghost predicate BooksOk()
      reads this`queue, this`batch, this`books, this`log, this`taken, this`stop
    {
      && |log.sent| == taken == books.writes + books.dropped + |queue| + |batch| - log.settled
      && |log.stored| == books.writes
      && log.settled <= |batch| + |queue| && (!stop ==> log.settled <= |batch|)
    }

    /** Storage has thrown or refused, or there is no writer thread. */
    ghost predicate Trouble()
      reads this`failed, this`log, storage`refused
    {
      failed || storage.refused || log.inline
    }

    /** It is known what each frame met, and without trouble frames are lost to the policy
        alone. */
    ghost predicate FatesOk()
      reads this`queue, this`batch, this`log, this`books, this`failed, storage`refused
    {
      MetOk(log) && (Trouble() || NoneLost(policy, log, All(), books.dropped))
    }

    /** Valid, but for what is being shed for the frame that is being taken. */
    ghost predicate Taking()
      reads this, arena, arena.base, storage
    {
      && ArenaOk() && EntriesOk() && GaugesOk() && BooksOk() && FatesOk() && now <= |script|
      && (finalized ==> stop && All() == [])
    }

    ghost predicate Valid()
      reads this, arena, arena.base, storage
    {
      Taking() && log.shedding == [] && log.stray.None?
    }

    constructor (policy: Policy, arena: PayloadArena, script: seq<seq<ProducerStep>>, outcomes: nat -> Outcome,
                 handBack: nat -> bool, junk: nat -> byte)
      requires arena.Valid() && arena.records == map[] && Reclaiming !in arena.residency
      ensures Valid() && fresh(storage) && storage.outcomes == outcomes && this.arena == arena
      ensures batch == [] && queue == [] && log.sent == [] && !finalized
    {
      hide Owned, NoneLost, InOrder, StoredOk, StillToCome, MetOk, Sum, PayloadArena.Valid;
      this.policy, this.arena, this.script := policy, arena, script;
      storage := new Storage(outcomes);
      this.handBack, this.junk := handBack, junk;
      now, handBacks := 0, 0;
      queue, queueBytes, taken, stop, finalized, reclaiming := [], 0, 0, false, false, None;
      batch, inflightBytes, failed, books := [], 0, false, Books(0, 0);
      log := Log([], [], [], None, [], map[], 0, 0, 0, false);
      new;
      NothingHeld(policy, log, arena.chunkBytes);
      assert All() == [];
    }

    // ---- giving back an entry's memory ---------------------------------------------

    /** Under the lock: free the entry's record, if it has one. A chunk that empties
        above the resident set comes back claimed. */
    method FreeRecord(e: Entry, ghost rest: multiset<Entry>) returns (claimed: Option<nat>)
      requires log.stray.None? && arena.Valid() && Owned(rest + multiset{e}, log, arena.records, arena.chunkBytes)
      modifies arena
      ensures arena.Valid() && Owned(rest, log, arena.records, arena.chunkBytes)
      ensures claimed.Some? ==> claimed.value < |old(arena.residency)| && old(arena.residency[claimed.value]).Touched?
      ensures arena.residency ==
        if claimed.Some? then old(arena.residency)[claimed.value := Reclaiming] else old(arena.residency)
    {
      hide Owned, PayloadArena.Valid, ChunkStart, InChunk;
      OwnedMinus(rest, e, log, arena.records, arena.chunkBytes);
      if e.payload.Held? { return None; }
      claimed := arena.Free(e.payload.record.offset, log.places[e.number]);
    }

    /** A record freed by its own destructor: hand back at once, still under the lock. */
    method DestroyRecord(e: Entry, ghost rest: multiset<Entry>)
      requires log.stray.None? && ArenaOk() && Owned(rest + multiset{e}, log, arena.records, arena.chunkBytes)
      modifies arena, arena.base, this`handBacks
      ensures ArenaOk() && Owned(rest, log, arena.records, arena.chunkBytes)
    {
      hide Owned, PayloadArena.Valid, ChunkStart;
      var claimed := FreeRecord(e, rest);
      if claimed.Some? {
        arena.RunReclaim(claimed.value, 0, arena.chunkBytes, junk);
        arena.CompleteReclaim(claimed.value, handBack(handBacks));
        handBacks := handBacks + 1;
      }
    }

    method DestroyAll(es: seq<Entry>, ghost rest: multiset<Entry>)
      requires log.stray.None? && ArenaOk() && Owned(rest + multiset(es), log, arena.records, arena.chunkBytes)
      modifies arena, arena.base, this`handBacks
      ensures ArenaOk() && Owned(rest, log, arena.records, arena.chunkBytes)
      ensures es == [] ==> unchanged(arena)
    {
      hide Owned, PayloadArena.Valid, Recorder.ArenaOk;
      var i := 0;
      assert es[0..] == es;
      while i < |es|
        invariant 0 <= i <= |es| && ArenaOk() && Owned(rest + multiset(es[i..]), log, arena.records, arena.chunkBytes)
        invariant es == [] ==> unchanged(arena)
      {
        assert es[i..] == [es[i]] + es[i + 1..];
        assert rest + multiset(es[i..]) == rest + multiset(es[i + 1..]) + multiset{es[i]};
        DestroyRecord(es[i], rest + multiset(es[i + 1..]));
        i := i + 1;
      }
      assert rest + multiset(es[i..]) == rest;
    }

    // ---- the producers' side ----------------------------------------------------------

    /** A frame past its resolve and membership gates. False when it must wait for
        the writer's hand-back to finish first; once a stop was asked for, nothing
        is taken. */
    method Send(bytes: seq<byte>) returns (ready: bool)
      requires Valid()
      modifies this`queue, this`queueBytes, this`taken, this`books, this`log, this`handBacks, arena, arena.base
      ensures Valid()
      ensures |old(arena.residency)| == |old(arena.live)|
      ensures ready == !(reclaiming.Some? && 0 < |bytes| <= ARENA_CHUNK_BYTES && !stop && !old(arena.HasRoom(|bytes|)))
      ensures !ready || stop ==> log == old(log) && books == old(books) && queue == old(queue)
      ensures ready && !stop ==>
        log.sent == old(log.sent) + [bytes] && log.met == old(log.met) + [Met(old(queue), |bytes|)]
      ensures ready && !stop && Rejects(policy, old(queue)) ==>
        queue == old(queue) && books == old(books).(dropped := old(books).dropped + 1)
      ensures ready && !stop && !Rejects(policy, old(queue)) ==>
        && queue != [] && queue[..|queue| - 1] == Bounded(policy, old(queue), |bytes|, SIZE)
        && queue[|queue| - 1].number == old(taken) && queue[|queue| - 1].size == |bytes|
        && books == old(books).(dropped := old(books).dropped + |ShedFor(policy, old(queue), |bytes|, SIZE)|)
        && (ShedFor(policy, old(queue), |bytes|, SIZE) == [] ==>
              queue[|queue| - 1].payload.InArena? == old(arena.HasRoom(|bytes|)))
      ensures log.stored == old(log.stored) && log.owed == old(log.owed) && log.settled == old(log.settled)
      ensures log.next == old(log.next) && log.inline == old(log.inline) && books.writes == old(books.writes)
      ensures Grew(old(log), log) && QueueMoved()
    {
      hide Recorder.EntriesOk, Recorder.ArenaOk, Recorder.FatesOk, PayloadArena.Valid, Sum, Bounded, ShedFor,
           Rejects, Subsequence, QueueFrom, PayloadArena.HasRoom;
      QueueSelf(queue, |log.sent|);
      ArenaShape();
      if reclaiming.Some? && 0 < |bytes| <= ARENA_CHUNK_BYTES && !stop {
        ArenaIsOk();
        var can := arena.CanPut(|bytes|);
        if !can { return false; }
      }
      if stop { return true; }
      var ok, kept, keptBytes := ApplyDropBound(policy, queue, queueBytes, |bytes|, SIZE);
      if !ok {
        Reject(bytes);
        return true;
      }
      TakeIn(bytes, kept, keptBytes);
      return true;
    }

    /** The frame comes in behind what is kept. */
    method TakeIn(bytes: seq<byte>, kept: seq<Entry>, keptBytes: nat)
      requires Valid() && !stop && !Rejects(policy, queue) && |arena.residency| == |arena.live|
      requires kept == Bounded(policy, queue, |bytes|, SIZE) && keptBytes == Sum(kept, SIZE)
      modifies this`queue, this`queueBytes, this`taken, this`books, this`log, this`handBacks, arena, arena.base
      ensures Valid() && queue != [] && queue[..|queue| - 1] == kept && QueueMoved()
      ensures queue[|queue| - 1].number == old(taken) && queue[|queue| - 1].size == |bytes|
      ensures books == old(books).(dropped := old(books).dropped + |ShedFor(policy, old(queue), |bytes|, SIZE)|)
      ensures ShedFor(policy, old(queue), |bytes|, SIZE) == [] ==>
        queue[|queue| - 1].payload.InArena? == old(arena.HasRoom(|bytes|))
      ensures log == old(log).(sent := old(log).sent + [bytes], met := old(log).met + [Met(old(queue), |bytes|)],
                               places := log.places)
    {
      hide Recorder.Valid, Recorder.Taking, PayloadArena.Valid, Sum, Bounded, ShedFor, Rejects, Subsequence, QueueFrom,
           PayloadArena.HasRoom;
      BoundedKeepsOrder(policy, queue, |bytes|, SIZE);
      ghost var q, n := queue, |log.sent|;
      NoneStray();
      EvictTo(kept, keptBytes, ShedFor(policy, queue, |bytes|, SIZE));
      TakingShape();
      Append(bytes, q);
      assert queue == kept + [queue[|queue| - 1]];
      QueuePushed(q, kept, queue[|queue| - 1], n);
    }

    lemma NoneStray()
      requires Valid()
      ensures log.stray.None? && log.shedding == [] && taken == |log.sent|
    {
      hide Recorder.ArenaOk, Recorder.EntriesOk, Recorder.GaugesOk, Recorder.FatesOk;
    }

    lemma TakingShape()
      requires Taking()
      ensures |arena.residency| == |arena.live| && taken == |log.sent|
    {
      hide Recorder.EntriesOk, Recorder.GaugesOk, Recorder.FatesOk, Recorder.ArenaOk;
      ArenaShape();
    }

    lemma ArenaShape()
      requires ArenaOk()
      ensures |arena.residency| == |arena.live|
    {
      hide Packed, Intact, Trimmed, InChunk, ChunkStart;
    }

    lemma ArenaIsOk()
      requires ArenaOk()
      ensures arena.Valid()
    {}

    /** A full DropOnFail queue refuses the frame. */
    method Reject(bytes: seq<byte>)
      requires Valid() && Rejects(policy, queue)
      modifies this`taken, this`books, this`log
      ensures Valid() && log == old(log).(sent := old(log).sent + [bytes], met := old(log).met + [Met(queue, |bytes|)])
      ensures books == old(books).(dropped := old(books).dropped + 1)
    {
      hide Owned, Recorder.ArenaOk, Sum, InOrder, StoredOk, StillToCome, NoneLost, Rejects, MetOk;
      StoredMore(storage.history, log.stored, log.sent, log.sent + [bytes], log.next);
      ghost var log' := log.(sent := log.sent + [bytes], met := log.met + [Met(queue, |bytes|)]);
      MetMore(log, bytes, queue);
      OwnedGrows(multiset(All()), log, arena.records, arena.chunkBytes, log');
      if !Trouble() { NoneLostRejected(policy, log, All(), books.dropped, bytes, queue); }
      taken := taken + 1;
      books := books.(dropped := books.dropped + 1);
      log := log';
    }

    /** Entries shed from the queue die, and their memory with them. */
    method EvictTo(kept: seq<Entry>, keptBytes: nat, out: seq<Entry>)
      requires Valid() && !stop && Subsequence(kept, queue) && multiset(queue) == multiset(kept) + multiset(out)
      requires |queue| == |kept| + |out| && keptBytes == Sum(kept, SIZE)
      modifies this`queue, this`queueBytes, this`books, this`log, this`handBacks, arena, arena.base
      ensures Taking() && queue == kept && books == old(books).(dropped := old(books).dropped + |out|)
      ensures log == old(log).(shedding := out) && (out == [] ==> unchanged(arena))
    {
      hide Owned, Sum, Subsequence, Recorder.GaugesOk, Recorder.BooksOk, Recorder.FatesOk, PayloadArena.Valid, InOrder,
           StoredOk, StillToCome;
      SplitOff(batch, queue, kept, out);
      DestroyAll(out, multiset(batch + kept));
      KeepOnly(kept, keptBytes, out);
    }

    /** The records of those shed are free; now the entries go. */
    method KeepOnly(kept: seq<Entry>, keptBytes: nat, ghost out: seq<Entry>)
      requires ArenaOk() && GaugesOk() && BooksOk() && FatesOk() && now <= |script| && !stop && !finalized
      requires log.shedding == [] && log.stray.None?
      requires Owned(multiset(batch + kept), log, arena.records, arena.chunkBytes) && InOrder(All())
      requires StoredOk(storage.history, log.stored, log.sent, log.next) && StillToCome(All(), log.settled, log.next)
      requires Subsequence(kept, queue) && multiset(queue) == multiset(kept) + multiset(out)
      requires |queue| == |kept| + |out| && keptBytes == Sum(kept, SIZE)
      modifies this`queue, this`queueBytes, this`books, this`log
      ensures Taking() && queue == kept && books == old(books).(dropped := old(books).dropped + |out|)
      ensures log == old(log).(shedding := out)
    {
      hide Owned, Recorder.ArenaOk, Sum, Subsequence, InOrder, StoredOk, StillToCome, NoneLost, MetOk;
      ghost var log' := log.(shedding := out);
      KeptInOrder(batch, kept, queue, log.settled, log.next);
      if !Trouble() { NoneLostShed(policy, log, batch, queue, kept, out, books.dropped); }
      OwnedSame(multiset(batch + kept), log, arena.records, arena.chunkBytes, log');
      MetSame(log, log');
      log := log';
      books := books.(dropped := books.dropped + (|queue| - |kept|));
      queue := kept;
      queueBytes := keptBytes;
      assert All() == batch + kept;
    }

    /** Queue the frame, its bytes in the arena if there is room. */
    method Append(bytes: seq<byte>, ghost q: seq<Entry>)
      requires Taking() && !stop && !Rejects(policy, q) && log.shedding == ShedFor(policy, q, |bytes|, SIZE)
      requires log.stray.None? && |arena.residency| == |arena.live|
      modifies this`queue, this`queueBytes, this`taken, this`log, arena, arena.base
      ensures Valid() && books == old(books)
      ensures log == old(log).(sent := old(log).sent + [bytes], met := old(log).met + [Met(q, |bytes|)], shedding := [],
                               stray := None, places := log.places)
      ensures queue != [] && queue[..|queue| - 1] == old(queue)
      ensures queue[|queue| - 1].number == old(taken) && queue[|queue| - 1].size == |bytes|
      ensures queue[|queue| - 1].payload.InArena? == old(arena.HasRoom(|bytes|))
    {
      hide Recorder.Valid, Recorder.Taking, Recorder.ArenaOk, Recorder.EntriesOk, Recorder.GaugesOk,
           Recorder.BooksOk, Rejects, ShedFor;
      var e := Store(bytes);
      PushEntry(e, bytes, q);
    }

    /** The frame's bytes, in the arena if there is room. */
    method Store(bytes: seq<byte>) returns (e: Entry)
      requires Taking() && !stop && log.stray.None? && |arena.residency| == |arena.live|
      modifies this`log, arena, arena.base
      ensures Taking() && log == old(log).(places := log.places, stray := log.stray)
      ensures e.payload.InArena? == old(arena.HasRoom(|bytes|))
      ensures e.number == taken && e.size == |bytes|
      ensures Owned(multiset(All()) + multiset{e}, log.(sent := log.sent + [bytes], stray := None), arena.records,
                    arena.chunkBytes)
    {
      hide Owned, PayloadArena.Valid, Sum, InOrder, StoredOk, StillToCome, ChunkStart, PayloadArena.RightChunk,
           PayloadArena.HasRoom, Recorder.GaugesOk, Recorder.BooksOk, Recorder.FatesOk;
      TakingShape();
      var record, p := arena.Put(bytes);
      ghost var places := if record.Some? then log.places[taken := p] else log.places;
      ghost var log' := log.(sent := log.sent + [bytes], places := places);
      e := Entry(taken, |bytes|, if record.Some? then InArena(record.value) else Held(bytes));
      OwnedPlus(multiset(All()), e, log, old(arena.records), arena.chunkBytes, log', arena.records);
      NoteRecord(places, if record.Some? then Some(p) else None, old(arena.records));
      OwnedSame(multiset(All()) + multiset{e}, log', arena.records, arena.chunkBytes, log'.(stray := None));
    }

    /** The record is there; its entry is not yet. */
    ghost method NoteRecord(places: map<nat, Place>, stray: Option<Place>, records: Live)
      requires ArenaOk() && GaugesOk() && BooksOk() && FatesOk() && now <= |script| && !finalized
      requires Owned(multiset(All()), log, records, arena.chunkBytes) && log.stray.None? && InOrder(All())
      requires StoredOk(storage.history, log.stored, log.sent, log.next) && StillToCome(All(), log.settled, log.next)
      requires forall n :: n in log.places && n < |log.sent| ==> n in places && places[n] == log.places[n]
      requires forall p :: p in records ==> p in arena.records && arena.records[p] == records[p]
      requires arena.records.Keys == records.Keys + Stray(stray)
      modifies this`log
      ensures Taking() && log == old(log).(places := places, stray := stray)
    {
      hide Owned, Recorder.ArenaOk, Sum, InOrder, StoredOk, StillToCome, NoneLost, MetOk;
      ghost var next := log.(places := places, stray := stray);
      OwnedBefore(multiset(All()), log, records, arena.chunkBytes, next, arena.records);
      if !Trouble() { NoneLostSame(policy, log, next, All(), books.dropped); }
      MetSame(log, next);
      log := next;
    }

    method PushEntry(e: Entry, bytes: seq<byte>, ghost q: seq<Entry>)
      requires Taking() && !stop && e.number == taken && e.size == |bytes|
      requires !Rejects(policy, q) && log.shedding == ShedFor(policy, q, |bytes|, SIZE)
      requires Owned(multiset(All()) + multiset{e}, log.(sent := log.sent + [bytes], stray := None), arena.records,
                     arena.chunkBytes)
      modifies this`queue, this`queueBytes, this`taken, this`log
      ensures Valid() && queue == old(queue) + [e]
      ensures log == old(log).(sent := old(log).sent + [bytes], met := old(log).met + [Met(q, |bytes|)], shedding := [],
                               stray := None)
    {
      hide Owned, Recorder.ArenaOk, Sum, InOrder, StoredOk, StillToCome, NoneLost, Rejects, ShedFor, MetOk;
      StoredMore(storage.history, log.stored, log.sent, log.sent + [bytes], log.next);
      MetMore(log, bytes, q);
      ghost var held := All();
      ghost var log' := log.(sent := log.sent + [bytes], met := log.met + [Met(q, |bytes|)], shedding := [],
                             stray := None);
      if !Trouble() { NoneLostPushed(policy, log, log', held, books.dropped, e, bytes, q); }
      OwnedSame(multiset(held) + multiset{e}, log.(sent := log'.sent, stray := None), arena.records,
                arena.chunkBytes, log');
      PushInOrder(held, e, log, arena.records, arena.chunkBytes);
      SumPush(queue, e);
      queue := queue + [e];
      queueBytes := queueBytes + e.size;
      taken := taken + 1;
      log := log';
      assert All() == held + [e];
      assert multiset(All()) == multiset(held) + multiset{e};
    }

    method AskToStop()
      requires Valid()
      modifies this`stop
      ensures Valid() && stop
    {
      hide Recorder.ArenaOk, Recorder.EntriesOk, Recorder.FatesOk, Sum;
      stop := true;
    }

    twostate predicate QueueMoved()
      reads this`queue, this`log
    {
      QueueFrom(old(queue), |old(log.sent)|, queue)
    }

    /** What the producers never touch: the writer's batch and what it has counted. */
    twostate predicate ProducersMoved()
      reads this`queue, this`stop, this`books, this`log
    {
      && QueueMoved()
      && log.stored == old(log.stored) && log.owed == old(log.owed) && log.settled == old(log.settled)
      && log.next == old(log.next) && log.inline == old(log.inline) && books.writes == old(books.writes)
      && Grew(old(log), log)
      && (old(stop) ==> stop && queue == old(queue) && log == old(log) && books == old(books))
    }

    /** The writer does not hold the lock: producers run first. */
    method Yield()
      requires Valid()
      modifies this`queue, this`queueBytes, this`taken, this`books, this`log, this`handBacks, this`stop, this`now,
               arena, arena.base
      ensures Valid() && ProducersMoved()
    {
      hide Recorder.ArenaOk, Recorder.EntriesOk, Recorder.GaugesOk, Recorder.BooksOk, Recorder.FatesOk, IsPrefix,
           QueueFrom;
      GrewSelf(log);
      QueueSelf(queue, |log.sent|);
      if now >= |script| { return; }
      var steps := script[now];
      now := now + 1;
      var i := 0;
      while i < |steps|
        invariant 0 <= i <= |steps| && Valid() && ProducersMoved()
      {
        ghost var was, q := log, queue;
        QueueSelf(queue, |log.sent|);
        match steps[i] {
          case SendFrame(bytes) => var _ := Send(bytes);
          case RequestStop => AskToStop();
        }
        GrewSelf(log);
        Later(old(queue), old(log), q, was, queue, log);
        i := i + 1;
      }
    }

    // ---- the writer's thread ---------------------------------------------------------

    /** Nothing is being handed back and the gauges are settled. */
    ghost predicate Between()
      reads this`reclaiming, this`log
    {
      reclaiming.None? && log.owed == 0
    }

    /** The bytes of the front entry, read byte by byte without the lock. */
    method PayloadOf(e: Entry) returns (bytes: seq<byte>)
      requires Valid() && batch != [] && e == batch[0]
      modifies this`queue, this`queueBytes, this`taken, this`books, this`log, this`handBacks, this`stop, this`now,
               arena, arena.base
      ensures Valid() && ProducersMoved() && e.number < |log.sent| && bytes == log.sent[e.number]
    {
      hide Recorder.Valid, IsPrefix, PayloadArena.Valid, ChunkStart, QueueFrom;
      GrewSelf(log);
      QueueSelf(queue, |log.sent|);
      FrontIs();
      if e.payload.Held? { return e.payload.bytes; }
      bytes := [];
      var r := e.payload.record;
      while |bytes| < r.size
        invariant Valid() && ProducersMoved() && e.number < |log.sent| && r.size == |log.sent[e.number]|
        invariant |bytes| <= r.size && bytes == log.sent[e.number][..|bytes|]
      {
        ghost var was, q := log, queue;
        Yield();
        Later(old(queue), old(log), q, was, queue, log);
        SameFrame(was.sent, log.sent, e.number);
        FrontIs();
        bytes := bytes + [arena.base[r.offset + |bytes|]];
      }
      assert bytes == log.sent[e.number][..r.size];
    }

    lemma FrontOk()
      requires Valid() && batch != []
      ensures EntryOk(batch[0], log, arena.records, arena.chunkBytes)
    {
      hide Recorder.ArenaOk, Recorder.GaugesOk, Recorder.BooksOk, Recorder.FatesOk, InOrder, StoredOk, StillToCome,
           PlacesOf, EntryOk, Apart;
      assert All()[0] == batch[0] && batch[0] in multiset(All());
    }

    /** The front entry's bytes lie untouched where its record says. */
    lemma FrontIs()
      requires Valid() && batch != []
      ensures var e := batch[0];
        && e.number < |log.sent| && e.size == |log.sent[e.number]|
        && (e.payload.Held? ==> e.payload.bytes == log.sent[e.number])
        && (e.payload.InArena? ==>
              var r := e.payload.record;
              r.size == e.size && r.offset + r.size <= arena.base.Length &&
              forall k :: 0 <= k < r.size ==> arena.base[r.offset + k] == log.sent[e.number][k])
    {
      hide Recorder.EntriesOk, Recorder.GaugesOk, Recorder.BooksOk, Recorder.FatesOk, Packed, Tracked, Trimmed,
           ChunkStart;
      FrontOk();
      var e := batch[0];
      if e.payload.InArena? {
        RecordReads(arena.base[..], arena.records, arena.chunkBytes, log.places[e.number]);
      }
    }

    /** Pop the front of the batch, its record freed under the lock; a chunk that
        empties is handed back outside it. */
    method ReleaseFront()
      requires Valid() && Between() && batch != [] && log.settled > 0 && !log.inline
      modifies this`queue, this`queueBytes, this`taken, this`books, this`log, this`handBacks, this`stop, this`now,
               arena, arena.base, this`batch, this`reclaiming
      ensures Valid() && batch == old(batch)[1..] && reclaiming.None? && (old(stop) ==> stop && queue == old(queue))
      ensures QueueMoved()
      ensures log.owed == old(batch)[0].size && log.settled == old(log.settled) - 1
      ensures log.stored == old(log.stored) && books.writes == old(books.writes) && log.next == old(log.next)
      ensures log.inline == old(log.inline)
      ensures Grew(old(log), log)
    {
      hide Recorder.Valid, IsPrefix, QueueFrom;
      GrewSelf(log);
      var claimed := PopFront();
      HandBack(claimed);
    }

    method PopFront() returns (claimed: Option<nat>)
      requires Valid() && Between() && batch != [] && log.settled > 0 && !log.inline
      modifies this`batch, this`log, this`reclaiming, arena
      ensures Valid() && batch == old(batch)[1..]
      ensures log == old(log).(settled := old(log).settled - 1, owed := old(batch)[0].size)
      ensures reclaiming == claimed
    {
      hide Owned, Sum, InOrder, StoredOk, StillToCome, PayloadArena.Valid, Recorder.GaugesOk, Recorder.BooksOk,
           Recorder.FatesOk;
      FrontApart(All());
      assert All()[1..] == batch[1..] + queue;
      claimed := FreeRecord(batch[0], multiset(batch[1..] + queue));
      reclaiming := claimed;
      DropFront();
    }

    /** The front entry's record is free; now the entry itself goes. */
    method DropFront()
      requires ArenaOk() && GaugesOk() && BooksOk() && FatesOk() && now <= |script| && !finalized
      requires log.owed == 0 && batch != [] && log.settled > 0 && !log.inline && log.shedding == [] && log.stray.None?
      requires Owned(multiset(batch[1..] + queue), log, arena.records, arena.chunkBytes)
      requires InOrder(All()) && StoredOk(storage.history, log.stored, log.sent, log.next)
      requires StillToCome(All(), log.settled, log.next)
      modifies this`batch, this`log
      ensures Valid() && batch == old(batch)[1..]
      ensures log == old(log).(settled := old(log).settled - 1, owed := old(batch)[0].size)
    {
      hide Owned, Sum, InOrder, StoredOk, StillToCome, Recorder.ArenaOk, NoneLost;
      ghost var rest, fine := batch[1..] + queue, !Trouble();
      ghost var log' := log.(settled := log.settled - 1, owed := batch[0].size);
      assert All()[1..] == rest;
      OwnedSame(multiset(rest), log, arena.records, arena.chunkBytes, log');
      TailInOrder(All(), log.settled, log.next);
      SumFront(batch);
      if fine { NoneLostPop(policy, log, log', All(), books.dropped); }
      batch := batch[1..];
      log := log';
      assert All() == rest;
    }

    /** Run a hand-back outside the lock; the claimed chunk is nobody's meanwhile. */
    method HandBack(claimed: Option<nat>)
      requires Valid() && reclaiming == claimed
      modifies this`queue, this`queueBytes, this`taken, this`books, this`log, this`handBacks, this`stop, this`now,
               arena, arena.base, this`reclaiming
      ensures Valid() && ProducersMoved() && reclaiming.None?
    {
      hide Recorder.EntriesOk, Recorder.GaugesOk, Recorder.BooksOk, Recorder.FatesOk, IsPrefix, PayloadArena.Valid,
           QueueFrom;
      GrewSelf(log);
      QueueSelf(queue, |log.sent|);
      if claimed.None? { return; }
      Yield();
      ghost var was, q := log, queue;
      RunPart(claimed.value);
      Yield();
      Later(old(queue), old(log), q, was, queue, log);
      Complete(claimed.value);
    }

    method RunPart(c: nat)
      requires Valid() && reclaiming == Some(c)
      modifies arena.base
      ensures Valid()
    {
      hide Recorder.EntriesOk, Recorder.GaugesOk, Recorder.BooksOk, Recorder.FatesOk, PayloadArena.Valid, ChunkStart;
      arena.RunReclaim(c, 0, arena.chunkBytes, junk);
    }

    method Complete(c: nat)
      requires Valid() && reclaiming == Some(c)
      modifies this`reclaiming, this`handBacks, arena
      ensures Valid() && reclaiming.None?
    {
      hide Owned, Recorder.GaugesOk, Recorder.BooksOk, Recorder.FatesOk, PayloadArena.Valid;
      arena.CompleteReclaim(c, handBack(handBacks));
      handBacks := handBacks + 1;
      reclaiming := None;
    }

    /** The bytes of the entry just popped leave the gauge. */
    method Subtract(bytes: nat)
      requires Valid() && reclaiming.None? && log.owed == bytes && !log.inline
      modifies this`inflightBytes, this`log
      ensures Valid() && Between() && log == old(log).(owed := 0) && inflightBytes == old(inflightBytes) - bytes
    {
      hide Owned, Recorder.ArenaOk, Sum, InOrder, StoredOk, StillToCome, NoneLost;
      OwnedSame(multiset(All()), log, arena.records, arena.chunkBytes, log.(owed := 0));
      if !Trouble() { NoneLostSame(policy, log, log.(owed := 0), All(), books.dropped); }
      inflightBytes := inflightBytes - bytes;
      log := log.(owed := 0);
    }

    /** A gap in the writer's own accounting: nothing of the batch is counted yet. */
    ghost predicate Ready()
      reads this`reclaiming, this`log
    {
      Between() && log.settled == 0 && !log.inline
    }

    /** Count the rest of the batch as dropped, there being no storage to write it to; its
        memory goes later. */
    method Shed()
      requires Valid() && Ready() && (failed || storage.refused)
      modifies this`books, this`log
      ensures Valid() && Between() && !log.inline && log == old(log).(settled := |batch|)
      ensures books == old(books).(dropped := old(books).dropped + |batch|)
    {
      hide Owned, Recorder.ArenaOk, Sum, InOrder, StoredOk, StillToCome, NoneLost;
      MoreSettled(All(), log.settled, |batch|, log.next);
      OwnedSame(multiset(All()), log, arena.records, arena.chunkBytes, log.(settled := |batch|));
      books := books.(dropped := books.dropped + |batch|);
      log := log.(settled := |batch|);
    }

    /** Give storage the front entry's bytes; unless it throws, the entry is counted. */
    method WriteOut(bytes: seq<byte>) returns (threw: bool)
      requires Valid() && Ready() && batch != []
      requires batch[0].number < |log.sent| && bytes == log.sent[batch[0].number]
      modifies this`books, this`log, storage
      ensures Valid() && Between() && !log.inline && log.settled == (if threw then 0 else 1)
      ensures threw == storage.outcomes(old(storage.calls)).throws && storage.calls == old(storage.calls) + 1
      ensures storage.refused == (old(storage.refused) || storage.outcomes(old(storage.calls)).refuses)
      ensures storage.history == if threw then old(storage.history) else old(storage.history) + [bytes]
      ensures books == if threw then old(books) else old(books).(writes := old(books).writes + 1)
      ensures log.sent == old(log.sent) && log.met == old(log.met)
    {
      hide Owned, Recorder.ArenaOk, Recorder.GaugesOk, Recorder.BooksOk, Sum, InOrder, StoredOk, StillToCome, NoneLost;
      ghost var h := storage.history;
      threw := storage.Write(bytes);
      if !threw { CountWritten(h, bytes); }
    }

    /** Storage has the front entry's bytes: count it. */
    method CountWritten(ghost h: seq<seq<byte>>, ghost bytes: seq<byte>)
      requires ArenaOk() && GaugesOk() && BooksOk() && FatesOk() && now <= |script| && !finalized
      requires Ready() && batch != [] && log.shedding == [] && log.stray.None? && storage.history == h + [bytes]
      requires batch[0].number < |log.sent| && bytes == log.sent[batch[0].number]
      requires Owned(multiset(All()), log, arena.records, arena.chunkBytes) && InOrder(All())
      requires StoredOk(h, log.stored, log.sent, log.next) && StillToCome(All(), 0, log.next)
      modifies this`books, this`log
      ensures Valid() && Between()
      ensures log == old(log).(stored := log.stored, settled := 1, next := log.next)
      ensures books == old(books).(writes := old(books).writes + 1)
    {
      hide Owned, Recorder.ArenaOk, Sum, InOrder, StoredOk, StillToCome, NoneLost;
      ghost var e := batch[0];
      assert All()[0] == e;
      WroteFront(All(), h, bytes, log);
      ghost var log' := log.(stored := log.stored + [e.number], settled := 1, next := e.number + 1);
      if !Trouble() { NoneLostWrote(policy, log, log', All(), books.dropped); }
      OwnedSame(multiset(All()), log, arena.records, arena.chunkBytes, log');
      books := books.(writes := books.writes + 1);
      log := log';
    }

    /** Some storage call of these threw, or refused everything from then on. */
    ghost predicate Threw(from: nat, to: nat)
    {
      exists k :: from <= k < to && storage.outcomes(k).throws
    }

    ghost predicate Refused(from: nat, to: nat)
    {
      exists k :: from <= k < to && storage.outcomes(k).refuses
    }

    /** Flush what is due. */
    method Flush() returns (threw: bool)
      requires Valid()
      modifies storage`calls, storage`refused
      ensures Valid() && threw == storage.outcomes(old(storage.calls)).throws && storage.calls == old(storage.calls) + 1
      ensures storage.refused == (old(storage.refused) || storage.outcomes(old(storage.calls)).refuses)
    {
      hide Recorder.ArenaOk, Recorder.EntriesOk, Recorder.GaugesOk, Recorder.BooksOk, NoneLost;
      threw := storage.FlushDue();
    }

    /** Write the batch entry by entry, each one freed as soon as it is written.
        Storage that refuses sheds the rest. What storage gets is the bytes sent of the
        entries that leave the batch, in their order, and an entry leaves only so. */
    method DrainBatch() returns (threw: bool)
      requires Valid() && Ready()
      modifies this`queue, this`queueBytes, this`taken, this`books, this`log, this`handBacks, this`stop, this`now,
               arena, arena.base, this`batch, this`reclaiming, this`inflightBytes, storage
      ensures Valid() && Between() && !log.inline && |batch| <= |old(batch)|
      ensures batch == old(batch)[|old(batch)| - |batch|..]
      ensures Gave(old(storage.history), storage.history, old(batch)[..|old(batch)| - |batch|], log.sent)
      ensures books.writes == old(books.writes) + |old(batch)| - |batch|
      ensures threw ==> log.settled == 0 && Threw(old(storage.calls), storage.calls)
      ensures !threw ==> log.settled == |batch| && (batch != [] ==> storage.refused)
      ensures storage.calls == old(storage.calls) + |old(batch)| - |batch| + (if threw then 1 else 0)
      ensures Grew(old(log), log) && QueueMoved()
      ensures storage.refused ==> old(storage.refused) || Refused(old(storage.calls), storage.calls)
      ensures old(stop) ==> stop && queue == old(queue)
    {
      hide Recorder.Valid, IsPrefix, Gave, QueueFrom;
      GrewSelf(log);
      QueueSelf(queue, |log.sent|);
      GaveNothing(storage.history, log.sent);
      while batch != []
        invariant Valid() && Ready() && |batch| <= |old(batch)| && batch == old(batch)[|old(batch)| - |batch|..]
        invariant Gave(old(storage.history), storage.history, old(batch)[..|old(batch)| - |batch|], log.sent)
        invariant books.writes == old(books.writes) + |old(batch)| - |batch|
        invariant storage.calls == old(storage.calls) + |old(batch)| - |batch| && Grew(old(log), log) && QueueMoved()
        invariant old(stop) ==> stop && queue == old(queue)
        invariant storage.refused ==> old(storage.refused) || Refused(old(storage.calls), storage.calls)
        decreases |batch|
      {
        if storage.refused {
          Shed();
          return false;
        }
        var e := batch[0];
        ghost var left, h := old(batch)[..|old(batch)| - |batch|], storage.history;
        ghost var q, was := queue, log;
        var bytes := PayloadOf(e);
        Later(old(queue), old(log), q, was, queue, log);
        GaveStays(old(storage.history), h, left, was.sent, log.sent);
        var wrong := WriteOut(bytes);
        if wrong { return true; }
        GaveOneMore(old(storage.history), h, left, log.sent, e, bytes);
        q, was := queue, log;
        ReleaseOne();
        Later(old(queue), old(log), q, was, queue, log);
        assert left + [e] == old(batch)[..|old(batch)| - |batch|];
        GaveStays(old(storage.history), storage.history, left + [e], was.sent, log.sent);
      }
      return false;
    }

    /** Free the front entry, counted already, and take it off the gauge. */
    method ReleaseOne()
      requires Valid() && Between() && !log.inline && batch != [] && log.settled > 0
      modifies this`queue, this`queueBytes, this`taken, this`books, this`log, this`handBacks, this`stop, this`now,
               arena, arena.base, this`batch, this`reclaiming, this`inflightBytes
      ensures Valid() && Between() && !log.inline && batch == old(batch)[1..]
      ensures log.settled == old(log.settled) - 1 && books.writes == old(books.writes)
      ensures Grew(old(log), log) && QueueMoved() && (old(stop) ==> stop && queue == old(queue))
    {
      hide Recorder.Valid, IsPrefix, QueueFrom;
      var bytes := batch[0].size;
      Yield();
      ghost var q, was := queue, log;
      ReleaseFront();
      Later(old(queue), old(log), q, was, queue, log);
      q, was := queue, log;
      Yield();
      Later(old(queue), old(log), q, was, queue, log);
      Subtract(bytes);
    }

    /** Swap the whole queue out; its bytes are in flight from now on. */
    method SwapBatch()
      requires Valid() && Ready() && batch == []
      modifies this`queue, this`queueBytes, this`batch, this`inflightBytes
      ensures Valid() && Ready() && batch == old(queue) && queue == []
      ensures queueBytes == 0 && inflightBytes == old(queueBytes)
    {
      hide PlacesOf, Stray, MetOk, Owned, Recorder.ArenaOk, Sum, InOrder, StoredOk, StillToCome, NoneLost;
      NoSum();
      EmptyBatch(batch, queue);
      batch, queue := queue, [];
      inflightBytes := queueBytes;
      queueBytes := 0;
    }

    lemma NoSum()
      ensures Sum<Entry>([], SIZE) == 0
    {}

    /** One turn of the writer's loop; true when it was told to stop and nothing is
        left. `due` is the rotation deadline passing. It takes all it finds in the queue,
        and writes it, unless storage throws or refuses. */
    method WriterTurn(due: bool) returns (ended: bool)
      requires Valid() && Ready() && batch == [] && !finalized
      modifies this`queue, this`queueBytes, this`taken, this`books, this`log, this`handBacks, this`stop, this`now,
               arena, arena.base, this`batch, this`reclaiming, this`inflightBytes, storage, this`failed
      ensures Valid() && Ready() && batch == [] && Grew(old(log), log)
      ensures forall e :: e in queue ==> e.number >= |old(log.sent)|
      ensures !failed && !storage.refused ==>
        forall n: nat :: n < |old(log.sent)| ==> n in log.stored || n in Away(policy, log.met)
      ensures ended ==> stop && queue == []
      ensures due && !ended && !old(failed || storage.refused) ==> storage.calls > old(storage.calls)
      ensures old(stop) ==> stop && queue == [] && ended == (old(queue) == [])
      ensures failed ==> old(failed) || Threw(old(storage.calls), storage.calls)
      ensures storage.refused ==> old(storage.refused) || Refused(old(storage.calls), storage.calls)
    {
      hide Recorder.Valid, IsPrefix, QueueFrom, Recorder.Threw, Recorder.Refused, Away;
      Yield();
      GrewSent(old(log), log);
      NoQueue(|old(log.sent)|);
      if !(stop || queue != [] || due) {
        NothingLeft(|old(log.sent)|);
        return false;
      }
      SwapBatch();
      if batch == [] && stop {
        NothingLeft(|old(log.sent)|);
        return true;
      }
      ghost var was := log;
      GrewSelf(log);
      WriteBatch();
      ReleaseBatch(was);
      GrewTrans(old(log), was, log);
      GrewSent(was, log);
      NothingLeft(|was.sent|);
      ended := false;
    }

    /** Whatever the batch still holds is freed; it is all counted. */
    method ReleaseBatch(ghost was: Log)
      requires Valid() && Between() && !log.inline && log.settled == |batch|
      requires Grew(was, log) && QueueFrom([], |was.sent|, queue)
      modifies this`queue, this`queueBytes, this`taken, this`books, this`log, this`handBacks, this`stop, this`now,
               arena, arena.base, this`batch, this`reclaiming, this`inflightBytes
      ensures Valid() && Ready() && batch == []
      ensures Grew(was, log) && QueueFrom([], |was.sent|, queue)
      ensures old(stop) ==> stop && queue == old(queue)
    {
      hide Recorder.Valid, IsPrefix, QueueFrom;
      while batch != []
        invariant Valid() && Between() && !log.inline && log.settled == |batch|
        invariant Grew(was, log) && QueueFrom([], |was.sent|, queue)
        invariant old(stop) ==> stop && queue == old(queue)
        decreases |batch|
      {
        ghost var q, l := queue, log;
        ReleaseOne();
        Later([], was, q, l, queue, log);
      }
    }

    /** With nothing held of the first `n` frames, each is stored, or was given up by the
        policy, unless there was trouble. */
    lemma NothingLeft(n: nat)
      requires Valid() && batch == [] && log.settled == 0 && QueueFrom([], n, queue) && n <= |log.sent|
      ensures forall e :: e in queue ==> e.number >= n
      ensures !Trouble() ==> forall k: nat :: k < n ==> k in log.stored || k in Away(policy, log.met)
    {
      hide Owned, Recorder.ArenaOk, Recorder.GaugesOk, Recorder.BooksOk, InOrder, StoredOk, StillToCome, Away,
           AwayCount;
      if !Trouble() {
        assert All() == queue;
        forall i | 0 <= i < |queue| ensures queue[i].number >= n { assert queue[i] in queue; }
        forall k: nat | k < n
          ensures k in log.stored || k in Away(policy, log.met)
        {
          assert Accounted(policy, log, All(), k);
        }
      }
    }

    /** Write the batch, unless the recording has failed; whatever is not written is
        counted as dropped. */
    method WriteBatch()
      requires Valid() && Ready() && queue == []
      modifies this`queue, this`queueBytes, this`taken, this`books, this`log, this`handBacks, this`stop, this`now,
               arena, arena.base, this`batch, this`reclaiming, this`inflightBytes, storage, this`failed
      ensures Valid() && Between() && !log.inline && log.settled == |batch|
      ensures !failed && !storage.refused ==>
        && books.writes == old(books.writes) + |old(batch)|
        // one call flushes what is due, and one writes each frame
        && storage.calls == old(storage.calls) + 1 + |old(batch)|
      ensures if old(failed || storage.refused) then storage.calls == old(storage.calls)
              else storage.calls > old(storage.calls)
      ensures failed ==> old(failed) || Threw(old(storage.calls), storage.calls)
      ensures storage.refused ==> old(storage.refused) || Refused(old(storage.calls), storage.calls)
      ensures Grew(old(log), log) && QueueMoved() && (old(stop) ==> stop && queue == old(queue))
    {
      hide Recorder.Valid, IsPrefix, QueueFrom;
      GrewSelf(log);
      QueueSelf(queue, |log.sent|);
      if failed || storage.refused {
        Shed();
        return;
      }
      Yield();
      ghost var q, was := queue, log;
      var threw := Flush();
      if !threw {
        threw := DrainBatch();
        Later(old(queue), old(log), q, was, queue, log);
      }
      if threw {
        NoteFailure();
        Shed();
      }
    }

    method NoteFailure()
      requires Valid()
      modifies this`failed
      ensures Valid() && failed
    {
      hide Recorder.ArenaOk, Recorder.EntriesOk, Recorder.GaugesOk, Recorder.BooksOk, NoneLost;
      failed := true;
    }

    /** The writer thread: turn after turn until told to stop, then finalize. Every
        frame taken before the stop has then been counted once, and unless storage threw
        or refused every one the policy did not give up is stored. */
    method WriterLoop(turns: seq<bool>)
      requires Valid() && Ready() && batch == [] && !finalized
      modifies this`queue, this`queueBytes, this`taken, this`books, this`log, this`handBacks, this`stop, this`now,
               arena, arena.base, this`batch, this`reclaiming, this`inflightBytes, storage, this`failed, this`finalized
      ensures Valid() && Ready() && Grew(old(log), log)
      ensures finalized ==> |log.sent| == books.writes + books.dropped && queueBytes + inflightBytes == 0
      ensures turns != [] && !failed && !storage.refused ==>
        forall n: nat :: n < |old(log.sent)| ==> n in log.stored || n in Away(policy, log.met)
      // Once told to stop it needs one turn for what is queued, and one to end.
      ensures old(stop) && |turns| >= 2 ==> finalized
    {
      hide Recorder.Valid, IsPrefix, Away;
      GrewSelf(log);
      var i := 0;
      while i < |turns|
        invariant 0 <= i <= |turns| && Valid() && Ready() && batch == [] && !finalized
        invariant Grew(old(log), log)
        invariant i > 0 && !failed && !storage.refused ==>
          forall n: nat :: n < |old(log.sent)| ==> n in log.stored || n in Away(policy, log.met)
        invariant old(stop) ==> stop && (i > 0 ==> queue == []) && i <= 1
      {
        ghost var was := log;
        var ended := WriterTurn(turns[i]);
        GrewTrans(old(log), was, log);
        GrewSent(old(log), was);
        if ended {
          Finalize();
          return;
        }
        i := i + 1;
      }
    }

    method Finalize()
      requires Valid() && Between() && log.settled == 0 && stop && queue == [] && batch == []
      modifies this`finalized
      ensures Valid() && finalized
      ensures |log.sent| == books.writes + books.dropped && queueBytes + inflightBytes == 0
    {
      hide Recorder.ArenaOk, Recorder.EntriesOk, Recorder.FatesOk;
      finalized := true;
    }

    // ---- stopping without a writer thread ----------------------------------------------

    /** No thread could be started: shed the queue and finalize here. */
    method StopInline()
      requires Valid() && Ready() && batch == [] && !finalized
      modifies this`queue, this`queueBytes, this`taken, this`books, this`log, this`handBacks, this`stop, this`now,
               arena, arena.base, this`batch, this`reclaiming, this`inflightBytes, storage, this`finalized
      ensures Valid() && finalized
      ensures |log.sent| == books.writes + books.dropped && queueBytes + inflightBytes == 0
    {
      hide Recorder.Valid, IsPrefix;
      AskToStop();
      ShedQueue();
      while queue != []
        invariant Valid() && Between() && log.inline && stop && batch == [] && log.settled == |queue| && !finalized
        decreases |queue|
      {
        var bytes := queue[0].size;
        var claimed := PopQueueFront();
        HandBack(claimed);
        SubtractQueued(bytes);
      }
      Finalize();
    }

    method ShedQueue()
      requires Valid() && Ready() && batch == [] && stop
      modifies this`books, this`log
      ensures Valid() && Between() && log.inline && log.settled == |queue|
    {
      hide Owned, Recorder.ArenaOk, Sum, InOrder, StoredOk, NoneLost;
      OwnedSame(multiset(All()), log, arena.records, arena.chunkBytes, log.(settled := |queue|, inline := true));
      books := books.(dropped := books.dropped + |queue|);
      log := log.(settled := |queue|, inline := true);
    }

    method PopQueueFront() returns (claimed: Option<nat>)
      requires Valid() && Between() && batch == [] && queue != [] && log.settled > 0 && log.inline && !finalized
      modifies this`queue, this`log, this`reclaiming, arena
      ensures Valid() && queue == old(queue)[1..]
      ensures log == old(log).(settled := old(log).settled - 1, owed := old(queue)[0].size)
      ensures reclaiming == claimed
    {
      hide Owned, Sum, InOrder, StoredOk, StillToCome, PayloadArena.Valid, Recorder.GaugesOk, Recorder.BooksOk,
           NoneLost;
      QueueFront(batch, queue);
      FrontApart(All());
      claimed := FreeRecord(queue[0], multiset(batch + queue[1..]));
      reclaiming := claimed;
      DropQueueFront();
    }

    /** The front entry's record is free; now the entry itself goes. */
    method DropQueueFront()
      requires ArenaOk() && GaugesOk() && BooksOk() && now <= |script| && !finalized && MetOk(log)
      requires log.shedding == [] && log.stray.None? && log.owed == 0 && batch == [] && queue != []
      requires log.settled > 0 && log.inline
      requires Owned(multiset(batch + queue[1..]), log, arena.records, arena.chunkBytes)
      requires InOrder(All()) && StoredOk(storage.history, log.stored, log.sent, log.next)
      requires StillToCome(All(), log.settled, log.next)
      modifies this`queue, this`log
      ensures Valid() && queue == old(queue)[1..]
      ensures log == old(log).(settled := old(log).settled - 1, owed := old(queue)[0].size)
    {
      hide Owned, Sum, InOrder, StoredOk, StillToCome, Recorder.ArenaOk, NoneLost;
      var e := queue[0];
      ghost var log' := log.(settled := log.settled - 1, owed := e.size);
      QueueFront(batch, queue);
      OwnedSame(multiset(batch + queue[1..]), log, arena.records, arena.chunkBytes, log');
      TailInOrder(All(), log.settled, log.next);
      SumFront(queue);
      queue := queue[1..];
      log := log';
    }

    method SubtractQueued(bytes: nat)
      requires Valid() && reclaiming.None? && log.owed == bytes && log.inline
      modifies this`queueBytes, this`log
      ensures Valid() && Between() && log == old(log).(owed := 0)
    {
      hide Owned, Recorder.ArenaOk, Sum, InOrder, StoredOk, StillToCome, NoneLost;
      OwnedSame(multiset(All()), log, arena.records, arena.chunkBytes, log.(owed := 0));
      queueBytes := queueBytes - bytes;
      log := log.(owed := 0);
    }
  }

  // ---- what holds at every moment -------------------------------------------------

  /** The gauges never read lighter than what is held. */
  lemma GaugeNeverUnderReports(r: Recorder)
    requires r.Valid()
    ensures r.queueBytes + r.inflightBytes >= Sum(r.batch + r.queue, SIZE)
  {
    hide Owned, Recorder.ArenaOk, Sum, InOrder, StoredOk, StillToCome;
    SumAppend(r.batch, r.queue, SIZE);
  }

  /** Everything storage was ever given is some of the frames taken, whole, unaltered
      and in the order they were taken; once finalized, the others were dropped, and
      counted. And unless storage threw or refused, or there was no writer thread, those
      dropped are exactly the ones the policy gave up. */
  lemma RecordingIsWhatWasSent(r: Recorder)
    requires r.Valid()
    ensures |r.storage.history| == |r.log.stored| == r.books.writes
    ensures forall i :: 0 <= i < |r.storage.history| ==>
      r.log.stored[i] < |r.log.sent| && r.storage.history[i] == r.log.sent[r.log.stored[i]]
    ensures forall i, j :: 0 <= i < j < |r.log.stored| ==> r.log.stored[i] < r.log.stored[j]
    ensures r.finalized ==> r.log.settled == 0 && |r.log.sent| == r.books.writes + r.books.dropped
    ensures !r.Trouble() ==>
      && r.books.dropped == AwayCount(r.policy, r.log.met)
      && (r.finalized ==> forall n: nat :: n < |r.log.sent| ==>
            n in r.log.stored || n in Away(r.policy, r.log.met))
  {
    hide Owned, Recorder.ArenaOk, Sum, InOrder, StillToCome, Away, AwayCount;
    if !r.Trouble() && r.finalized {
      forall n: nat | n < |r.log.sent|
        ensures n in r.log.stored || n in Away(r.policy, r.log.met)
      {
        assert Accounted(r.policy, r.log, r.All(), n);
      }
    }
  }

  /** The arena holds the records of the entries held, and nothing else; so once finalized
      it holds nothing. A chunk is being handed back only while the recorder waits for
      that, so then none is; and unless a hand-back failed only the resident set has pages. */
  lemma NothingIsLeaked(r: Recorder)
    requires r.Valid()
    ensures r.arena.records.Keys == PlacesOf(multiset(r.All()), r.log.places)
    ensures r.finalized ==> r.arena.records == map[]
    ensures r.reclaiming.None? ==> Reclaiming !in r.arena.residency
    ensures r.finalized && r.reclaiming.None? && !r.arena.handBackFailed ==>
      forall c :: r.arena.residentChunks <= c < |r.arena.residency| ==> r.arena.residency[c].Untouched?
  {
    hide PayloadArena.Valid, Sum, InOrder, StillToCome, EntryOk, Apart, StoredOk, NoneLost;
    if r.finalized {
      assert r.arena.records.Keys == {};
      if r.reclaiming.None? && !r.arena.handBackFailed { DrainedLeavesTheResidentSet(r.arena); }
    }
  }

  lemma RecordReads(base: seq<byte>, records: Live, chunkBytes: nat, p: Place)
    requires Intact(base, records, chunkBytes) && p in records
    ensures var start := ChunkStart(p.chunk, chunkBytes) + p.at;
      start + |records[p]| <= |base| && forall k :: 0 <= k < |records[p]| ==> base[start + k] == records[p][k]
  {
    hide ChunkStart;
    var start := ChunkStart(p.chunk, chunkBytes) + p.at;
    forall k | 0 <= k < |records[p]|
      ensures base[start + k] == records[p][k]
    {
      assert base[start..start + |records[p]|][k] == records[p][k];
    }
  }

  lemma SameFrame(a: seq<seq<byte>>, b: seq<seq<byte>>, n: nat)
    requires IsPrefix(a, b) && n < |a|
    ensures n < |b| && b[n] == a[n]
  {}

  lemma OwnedSame(m: multiset<Entry>, log: Log, records: Live, chunkBytes: nat, log': Log)
    requires Owned(m, log, records, chunkBytes)
    requires log'.sent == log.sent && log'.places == log.places && log'.stray == log.stray
    ensures Owned(m, log', records, chunkBytes)
  {
    PrefixSelf(log.sent);
    OwnedGrows(m, log, records, chunkBytes, log');
  }

  lemma WroteFront(es: seq<Entry>, h: seq<seq<byte>>, bytes: seq<byte>, log: Log)
    requires InOrder(es) && StillToCome(es, 0, log.next) && StoredOk(h, log.stored, log.sent, log.next)
    requires es != [] && es[0].number < |log.sent| && bytes == log.sent[es[0].number]
    ensures StillToCome(es, 1, es[0].number + 1)
    ensures StoredOk(h + [bytes], log.stored + [es[0].number], log.sent, es[0].number + 1)
  {}

  lemma MoreSettled(es: seq<Entry>, settled: nat, more: nat, next: nat)
    requires StillToCome(es, settled, next) && settled <= more
    ensures StillToCome(es, more, next)
  {}

  lemma TailInOrder(es: seq<Entry>, settled: nat, next: nat)
    requires InOrder(es) && es != [] && StillToCome(es, settled, next) && settled > 0
    ensures InOrder(es[1..]) && StillToCome(es[1..], settled - 1, next)
  {}

  lemma FrontApart(es: seq<Entry>)
    requires es != []
    ensures multiset(es) == multiset(es[1..]) + multiset{es[0]}
  {
    assert es == [es[0]] + es[1..];
  }

  lemma QueueFront(batch: seq<Entry>, queue: seq<Entry>)
    requires batch == [] && queue != []
    ensures (batch + queue)[0] == queue[0] && (batch + queue)[1..] == batch + queue[1..]
  {}

  lemma SumFront(es: seq<Entry>)
    requires es != []
    ensures Sum(es, SIZE) == es[0].size + Sum(es[1..], SIZE)
  {
    SumWithout(es, 0, SIZE);
    assert Without(es, 0) == es[1..];
  }

  /** More frames taken change nothing for the entries held. */
  lemma OwnedGrows(m: multiset<Entry>, log: Log, records: Live, chunkBytes: nat, log': Log)
    requires Owned(m, log, records, chunkBytes)
    requires IsPrefix(log.sent, log'.sent) && log'.places == log.places && log'.stray == log.stray
    ensures Owned(m, log', records, chunkBytes)
  {
    forall e | e in m
      ensures EntryOk(e, log', records, chunkBytes)
    {
      assert EntryOk(e, log, records, chunkBytes);
    }
  }

  /** Room made in the arena for another entry changes nothing for these. */
  lemma OwnedBefore(m: multiset<Entry>, log: Log, records: Live, chunkBytes: nat, log': Log, records': Live)
    requires Owned(m, log, records, chunkBytes) && log'.sent == log.sent
    requires forall n :: n in log.places && n < |log.sent| ==> n in log'.places && log'.places[n] == log.places[n]
    requires forall p :: p in records ==> p in records' && records'[p] == records[p]
    requires log.stray.None? && records'.Keys == records.Keys + Stray(log'.stray)
    ensures Owned(m, log', records', chunkBytes)
  {
    forall e | e in m
      ensures EntryOk(e, log', records', chunkBytes)
    {
      assert EntryOk(e, log, records, chunkBytes);
    }
    PlacesStay(m, log.places, log'.places, |log.sent|);
    forall e, f | e in m && f in m && e != f
      ensures Apart(e, f, log'.places)
    {
      assert Apart(e, f, log.places) && EntryOk(e, log, records, chunkBytes) && EntryOk(f, log, records, chunkBytes);
    }
  }

  lemma EmptyBatch(batch: seq<Entry>, queue: seq<Entry>)
    requires batch == []
    ensures queue + [] == batch + queue && |queue + []| == |queue|
  {}

  lemma SplitOff(batch: seq<Entry>, queue: seq<Entry>, kept: seq<Entry>, out: seq<Entry>)
    requires multiset(queue) == multiset(kept) + multiset(out)
    ensures multiset(batch + queue) == multiset(batch + kept) + multiset(out)
  {}

  lemma KeptInOrder(batch: seq<Entry>, kept: seq<Entry>, queue: seq<Entry>, settled: nat, next: nat)
    requires InOrder(batch + queue) && StillToCome(batch + queue, settled, next) && Subsequence(kept, queue)
    requires settled <= |batch|
    ensures InOrder(batch + kept) && StillToCome(batch + kept, settled, next)
  {
    hide Subsequence;
    SubsequenceBehind(batch, kept, queue);
    InOrderSubsequence(batch + kept, batch + queue);
    QueueInOrder(batch, queue);
    InOrderSubsequence(kept, queue);
    forall i | settled <= i < |batch + kept|
      ensures (batch + kept)[i].number >= next
    {
      var e := (batch + kept)[i];
      if i < |batch| {
        assert (batch + queue)[i] == e;
      } else {
        assert e == kept[i - |batch|] && e in queue;
        var k :| 0 <= k < |queue| && queue[k] == e;
        assert (batch + queue)[|batch| + k] == e;
      }
    }
  }

  lemma QueueInOrder(batch: seq<Entry>, queue: seq<Entry>)
    requires InOrder(batch + queue)
    ensures InOrder(queue)
  {
    forall i, j | 0 <= i < j < |queue|
      ensures queue[i].number < queue[j].number
    {
      assert (batch + queue)[|batch| + i] == queue[i] && (batch + queue)[|batch| + j] == queue[j];
    }
  }

  lemma PushInOrder(held: seq<Entry>, e: Entry, log: Log, records: Live, chunkBytes: nat)
    requires InOrder(held) && Owned(multiset(held), log, records, chunkBytes) && e.number == |log.sent|
    requires StillToCome(held, log.settled, log.next) && log.next <= |log.sent|
    ensures InOrder(held + [e]) && StillToCome(held + [e], log.settled, log.next)
  {
    forall i | 0 <= i < |held|
      ensures held[i].number < e.number
    {
      assert held[i] in multiset(held);
      assert EntryOk(held[i], log, records, chunkBytes);
    }
    InOrderPush(held, e);
  }

  lemma SumPush(es: seq<Entry>, e: Entry)
    ensures Sum(es + [e], SIZE) == Sum(es, SIZE) + e.size
  {
    SumAppend(es, [e], SIZE);
    SumOne(e, SIZE);
  }
}
