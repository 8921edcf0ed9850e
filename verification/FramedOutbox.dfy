/**
 The bounded outbound queue of one lane (cpp/src/transport/framed_outbox.cc):
 frames are shed only while queued; once promoted they are committed to the
 wire, whatever the link does.
 */
module FramedOutbox {
  import opened Bytes
  import opened Lists
  import opened WritePolicy
  import opened Wire

  type FrameBytes = seq<byte>

  datatype Entry = Entry(data: FrameBytes, enqueueUs: int, keyframe: bool)

  const SIZE: Entry -> nat := (e: Entry) => |e.data|

  function Frames(q: seq<Entry>): (r: seq<FrameBytes>)
    ensures |r| == |q| && forall i :: 0 <= i < |q| ==> r[i] == q[i].data
  {
    seq(|q|, i requires 0 <= i < |q| => q[i].data)
  }

  /** Age eviction takes this entry: stale, not a sync point, and not small
      enough to be protected. */
  predicate Stale(policy: Policy, e: Entry, nowUs: int)
  {
    nowUs - e.enqueueUs > policy.maxAgeUs && !e.keyframe &&
    !(policy.protectBelowBytes > 0 && |e.data| < policy.protectBelowBytes)
  }

  function Fresh(policy: Policy, q: seq<Entry>, nowUs: int): seq<Entry>
  {
    if q == [] then []
    else Fresh(policy, q[..|q| - 1], nowUs) +
         (if Stale(policy, q[|q| - 1], nowUs) then [] else [q[|q| - 1]])
  }

  function Expired(policy: Policy, q: seq<Entry>, nowUs: int): seq<Entry>
  {
    if q == [] then []
    else Expired(policy, q[..|q| - 1], nowUs) +
         (if Stale(policy, q[|q| - 1], nowUs) then [q[|q| - 1]] else [])
  }

  predicate Ages(policy: Policy)
  {
    policy.drop.StaleEviction? && policy.maxAgeUs > 0
  }

  /** The queue once a drain has age-evicted it, and what that shed. */
  function Aged(policy: Policy, q: seq<Entry>, nowUs: int): seq<Entry>
  {
    if Ages(policy) then Fresh(policy, q, nowUs) else q
  }

  function AgedOut(policy: Policy, q: seq<Entry>, nowUs: int): seq<Entry>
  {
    if Ages(policy) then Expired(policy, q, nowUs) else []
  }

  /** How many queued frames one promotion commits. */
  function PromotionSize(policy: Policy, q: seq<Entry>): (n: nat)
    ensures n <= |q| && (q != [] ==> n >= 1)
  {
    if q == [] then 0 else if policy.drain.BatchAll? then |q| else 1
  }

  /** What one drain commits of a queue, at a frame boundary, and what it leaves. */
  function NextUnit(policy: Policy, q: seq<Entry>, nowUs: int): seq<Entry>
  {
    var kept := Aged(policy, q, nowUs);
    kept[..PromotionSize(policy, kept)]
  }

  function AfterNext(policy: Policy, q: seq<Entry>, nowUs: int): seq<Entry>
  {
    var kept := Aged(policy, q, nowUs);
    kept[PromotionSize(policy, kept)..]
  }

  lemma QueuePush(q: seq<Entry>, e: Entry)
    ensures Frames(q + [e]) == Frames(q) + [e.data]
    ensures Sum(q + [e], SIZE) == Sum(q, SIZE) + |e.data|
  {
    SumAppend(q, [e], SIZE);
    SumOne(e, SIZE);
  }

  /** Aging keeps order and loses nothing unaccounted. */
  lemma {:induction false} AgingSplits(policy: Policy, q: seq<Entry>, nowUs: int)
    ensures Subsequence(Fresh(policy, q, nowUs), q)
    ensures multiset(q) == multiset(Fresh(policy, q, nowUs)) + multiset(Expired(policy, q, nowUs))
    ensures Sum(q, SIZE) == Sum(Fresh(policy, q, nowUs), SIZE) + Sum(Expired(policy, q, nowUs), SIZE)
  {
    hide Subsequence, Sum, Stale, Fresh, Expired;
    AgingStep(policy, q, nowUs);
    if q == [] {
      SubsequenceSelf(q);
      SumNone(q);
    } else {
      var front, last := q[..|q| - 1], q[|q| - 1];
      AgingSplits(policy, front, nowUs);
      assert q == front + [last];
      SubsequencePush(Fresh(policy, front, nowUs), front, last);
      QueuePush(front, last);
      QueuePush(Fresh(policy, front, nowUs), last);
      QueuePush(Expired(policy, front, nowUs), last);
    }
  }

  lemma AgingStep(policy: Policy, q: seq<Entry>, nowUs: int)
    ensures q == [] ==> Fresh(policy, q, nowUs) == Expired(policy, q, nowUs) == []
    ensures q != [] ==>
      var front, last := q[..|q| - 1], q[|q| - 1];
      var kept, gone := Fresh(policy, front, nowUs), Expired(policy, front, nowUs);
      if Stale(policy, last, nowUs)
      then Fresh(policy, q, nowUs) == kept && Expired(policy, q, nowUs) == gone + [last]
      else Fresh(policy, q, nowUs) == kept + [last] && Expired(policy, q, nowUs) == gone
  {}

  /** Aging takes the stale, and never a sync point. */
  lemma {:induction false} ExpiredAreStale(policy: Policy, q: seq<Entry>, nowUs: int)
    ensures forall e :: e in Expired(policy, q, nowUs) ==> e in q && Stale(policy, e, nowUs) && !e.keyframe
  {
    if q != [] {
      ExpiredAreStale(policy, q[..|q| - 1], nowUs);
      assert forall e :: e in q[..|q| - 1] ==> e in q;
    }
  }

  lemma SumNone(q: seq<Entry>)
    requires q == []
    ensures Sum(q, SIZE) == 0
  {}

  /** The queue a frame has been taken into is within the policy's bound, or holds that
      frame alone; and a frame that fits sheds nothing. */
  lemma AcceptedFits(policy: Policy, q: seq<Entry>, e: Entry)
    requires !Rejects(policy, q)
    ensures var kept := Bounded(policy, q, |e.data|, SIZE);
      match policy.drop
      case DropOldest => |kept + [e]| <= policy.maxDepth || kept == []
      case StaleEviction => Sum(kept + [e], SIZE) <= policy.maxBytes || kept == []
      case DropOnFail => |kept + [e]| <= policy.maxDepth && kept == q
    ensures policy.drop.DropOldest? && |q| < policy.maxDepth ==>
      Bounded(policy, q, |e.data|, SIZE) == q && ShedFor(policy, q, |e.data|, SIZE) == []
    ensures policy.drop.StaleEviction? && Sum(q + [e], SIZE) <= policy.maxBytes ==>
      Bounded(policy, q, |e.data|, SIZE) == q && ShedFor(policy, q, |e.data|, SIZE) == []
  {
    hide Sum, Victim;
    BoundIsKept(policy, q, |e.data|, SIZE);
    QueuePush(Bounded(policy, q, |e.data|, SIZE), e);
    QueuePush(q, e);
  }

  // ---- accounting ----------------------------------------------------------

  /** Every entry offered is in exactly one place, and those still going out,
      `live`, are in the order they were offered. */
  ghost predicate Accounted(offered: seq<Entry>, live: seq<Entry>, shed: seq<Entry>, cleared: seq<Entry>)
  {
    multiset(offered) == multiset(live) + multiset(shed) + multiset(cleared) &&
    Subsequence(live, offered)
  }

  lemma AccountNothing()
    ensures Accounted([], [], [], [])
  {}

  lemma AccountPush(offered: seq<Entry>, live: seq<Entry>, shed: seq<Entry>, cleared: seq<Entry>, e: Entry)
    requires Accounted(offered, live, shed, cleared)
    ensures Accounted(offered + [e], live + [e], shed, cleared)
    ensures Accounted(offered + [e], live, shed + [e], cleared)
  {
    hide Subsequence;
    SubsequencePush(live, offered, e);
  }

  /** Shedding from the uncommitted part. */
  lemma AccountShed(offered: seq<Entry>, committed: seq<Entry>, queued: seq<Entry>, shed: seq<Entry>,
                    cleared: seq<Entry>, kept: seq<Entry>, out: seq<Entry>)
    requires Accounted(offered, committed + queued, shed, cleared)
    requires Subsequence(kept, queued) && multiset(queued) == multiset(kept) + multiset(out)
    ensures Accounted(offered, committed + kept, shed + out, cleared)
  {
    hide Subsequence;
    SubsequenceBehind(committed, kept, queued);
    SubsequenceTrans(committed + kept, committed + queued, offered);
  }

  lemma AccountClear(offered: seq<Entry>, kept: seq<Entry>, out: seq<Entry>, shed: seq<Entry>, cleared: seq<Entry>)
    requires Accounted(offered, kept + out, shed, cleared)
    ensures Accounted(offered, kept, shed, cleared + out)
  {
    hide Subsequence;
    EmptyIsSubsequence(out);
    SubsequenceBehind(kept, [], out);
    assert kept + [] == kept;
    SubsequenceTrans(kept, kept + out, offered);
  }

  lemma EmptyIsSubsequence(b: seq<Entry>)
    ensures Subsequence([], b)
  {}

  class Outbox {
    const policy: Policy
    var queue: seq<Entry>
    var queueBytes: nat
    var inFlight: Option<seq<byte>>
    var inFlightOff: nat
    var dropped: nat

    // The lane's history. Every frame taken in is in exactly one of `wrote`
    // (wholly on the wire), `unit` (the in-flight frame or batch), the queue,
    // `shed` and `cleared`. Those shed for their age are also in `aged`.
    ghost var offered: seq<Entry>
    ghost var wrote: seq<Entry>
    ghost var unit: seq<Entry>
    ghost var shed: seq<Entry>
    ghost var cleared: seq<Entry>
    ghost var aged: seq<Entry>

    ghost predicate Valid()
      reads this
    {
      && queueBytes == Sum(queue, SIZE)
      && inFlightOff <= InFlightSize()
      && (inFlightOff < InFlightSize() ==> Flat(Frames(unit)) == inFlight.value)
      && (inFlightOff == InFlightSize() ==> unit == [] && inFlightOff == 0)
      && Accounted(offered, Committed() + queue, shed, cleared)
      && dropped == |shed|
    }

    function InFlightSize(): nat
      reads this`inFlight
    {
      if inFlight.Some? then |inFlight.value| else 0
    }

    /** A frame is partly on the wire, or about to be: no other lane may write. */
    predicate InFlightActive()
      reads this`inFlight, this`inFlightOff
    {
      inFlightOff < InFlightSize()
    }

    predicate HasPending()
      reads this`inFlight, this`inFlightOff, this`queue
    {
      InFlightActive() || queue != []
    }

    /** Frames on the wire or bound for it, in order. */
    ghost function Committed(): seq<Entry>
      reads this`wrote, this`unit
    {
      wrote + unit
    }

    /** The in-flight bytes already taken. */
    ghost function Partial(): seq<byte>
      reads this`inFlight, this`inFlightOff
    {
      if InFlightActive() then inFlight.value[..inFlightOff] else []
    }

    /** Everything this lane has put on the wire. */
    ghost function Sent(): seq<byte>
      reads this`wrote, this`inFlight, this`inFlightOff
    {
      Flat(Frames(wrote)) + Partial()
    }

    constructor (policy: Policy)
      ensures Valid() && this.policy == policy && !HasPending()
      ensures queue == [] && offered == wrote == shed == cleared == aged == []
    {
      this.policy := policy;
      queue, queueBytes := [], 0;
      inFlight, inFlightOff, dropped := None, 0, 0;
      offered, wrote, unit, shed, cleared, aged := [], [], [], [], [], [];
      new;
      assert Committed() + queue == [];
      AccountNothing();
    }

    /** Queue one frame, shedding as the policy says. False only for a null
        frame or one the policy rejects. */
    method Enqueue(frame: Option<FrameBytes>, keyframe: bool, nowUs: int) returns (ok: bool)
      requires Valid()
      modifies this
      ensures Valid()
      ensures wrote == old(wrote) && unit == old(unit) && inFlight == old(inFlight)
      ensures inFlightOff == old(inFlightOff) && cleared == old(cleared) && aged == old(aged)
      ensures ok == (frame.Some? && !Rejects(policy, old(queue)))
      ensures frame.None? ==> queue == old(queue) && offered == old(offered) && shed == old(shed)
      ensures frame.Some? ==> offered == old(offered) + [Entry(frame.value, nowUs, keyframe)]
      ensures frame.Some? && !ok ==> queue == old(queue) && shed == old(shed) + [Entry(frame.value, nowUs, keyframe)]
      ensures ok ==>
        var len := |frame.value|;
        queue == Bounded(policy, old(queue), len, SIZE) + [Entry(frame.value, nowUs, keyframe)] &&
        shed == old(shed) + ShedFor(policy, old(queue), len, SIZE)
    {
      hide Accounted, Subsequence, Bounded, ShedFor, Sum;
      if frame.None? { return false; }
      var len := |frame.value|;
      var entry := Entry(frame.value, nowUs, keyframe);
      ghost var before := queue;
      var accepted, kept, keptBytes := ApplyDropBound(policy, queue, queueBytes, len, SIZE);
      AccountPush(offered, Committed() + queue, shed, cleared, entry);
      offered := offered + [entry];
      if !accepted {
        dropped := dropped + 1;
        shed := shed + [entry];
        return false;
      }
      ghost var out := ShedFor(policy, before, len, SIZE);
      BoundedKeepsOrder(policy, before, len, SIZE);
      AccountShed(old(offered), Committed(), before, shed, cleared, kept, out);
      dropped := dropped + (|queue| - |kept|);
      shed := shed + out;
      AccountPush(old(offered), Committed() + kept, shed, cleared, entry);
      QueuePush(kept, entry);
      queue := kept + [entry];
      queueBytes := keptBytes + len;
      assert Committed() + queue == Committed() + kept + [entry];
      ok := true;
    }

    /** Queue one frame only if it fits under `limit` queued bytes. */
    method TryEnqueue(frame: Option<FrameBytes>, limit: nat, nowUs: int) returns (ok: bool)
      requires Valid()
      modifies this
      ensures Valid()
      ensures wrote == old(wrote) && unit == old(unit) && inFlight == old(inFlight)
      ensures inFlightOff == old(inFlightOff) && cleared == old(cleared) && shed == old(shed) && aged == old(aged)
      ensures ok == (frame.Some? && frame.value != [] && old(queueBytes) + |frame.value| <= limit)
      ensures ok ==> offered == old(offered) + [Entry(frame.value, nowUs, false)]
      ensures ok ==> queue == old(queue) + [Entry(frame.value, nowUs, false)]
      ensures !ok ==> offered == old(offered) && queue == old(queue)
    {
      hide Accounted, Subsequence, Sum;
      if frame.None? || frame.value == [] || |frame.value| > limit { return false; }
      if queueBytes > limit - |frame.value| { return false; }
      var entry := Entry(frame.value, nowUs, false);
      AccountPush(offered, Committed() + queue, shed, cleared, entry);
      QueuePush(queue, entry);
      assert Committed() + queue + [entry] == Committed() + (queue + [entry]);
      queueBytes := queueBytes + |frame.value|;
      queue := queue + [entry];
      offered := offered + [entry];
      ok := true;
    }

    /** Forget what is queued; committed bytes stay. */
    method DiscardQueued()
      requires Valid()
      modifies this
      ensures Valid() && queue == []
      ensures wrote == old(wrote) && unit == old(unit) && inFlight == old(inFlight)
      ensures inFlightOff == old(inFlightOff) && offered == old(offered) && shed == old(shed) && aged == old(aged)
      ensures cleared == old(cleared) + old(queue)
    {
      hide Accounted, Subsequence;
      AccountClear(offered, Committed(), queue, shed, cleared);
      cleared := cleared + queue;
      queue := [];
      queueBytes := 0;
      assert Committed() + queue == Committed();
    }

    /** Forget everything, the in-flight remainder included: only for a link
        that is gone, or when nothing is in flight. */
    method Clear()
      requires Valid()
      modifies this
      ensures Valid() && queue == [] && !InFlightActive() && dropped == old(dropped)
      ensures wrote == old(wrote) && offered == old(offered) && shed == old(shed) && aged == old(aged)
      ensures cleared == old(cleared) + old(queue) + old(unit)
    {
      hide Accounted, Subsequence;
      AccountClear(offered, Committed(), queue, shed, cleared);
      AccountClear(offered, wrote, unit, shed, cleared + queue);
      cleared := cleared + queue + unit;
      queue := [];
      queueBytes := 0;
      inFlight := None;
      inFlightOff := 0;
      unit := [];
      assert Committed() + queue == wrote;
    }

    /** One write of what is in flight. */
    method WriteInFlight(fd: Fd) returns (r: int)
      requires Valid() && InFlightActive()
      modifies this, fd
      ensures Valid()
      ensures r == fd.Answer(old(fd.writes), old(InFlightSize() - inFlightOff))
      ensures fd.writes == old(fd.writes) + 1
      ensures queue == old(queue) && queueBytes == old(queueBytes) && offered == old(offered)
      ensures shed == old(shed) && cleared == old(cleared) && dropped == old(dropped) && aged == old(aged)
      ensures Committed() == old(Committed())
      ensures r < old(InFlightSize() - inFlightOff) ==>
        inFlight == old(inFlight) && inFlightOff == old(inFlightOff) + (if r < 0 then 0 else r) &&
        wrote == old(wrote) && unit == old(unit)
      ensures r == old(InFlightSize() - inFlightOff) ==>
        inFlight.None? && wrote == old(wrote) + old(unit) && unit == []
      ensures var taken := if r < 0 then [] else old(inFlight.value[inFlightOff..inFlightOff + r]);
        fd.accepted == old(fd.accepted) + taken && Sent() == old(Sent()) + taken
    {
      hide Accounted, Sum, Flat;
      var buf := inFlight.value[inFlightOff..];
      r := fd.WriteSome(buf);
      if r < 0 {
        assert Sent() + [] == Sent();
        return;
      }
      assert buf[..r] == inFlight.value[inFlightOff..inFlightOff + r];
      Advance(Flat(Frames(wrote)), inFlight.value, inFlightOff, r);
      inFlightOff := inFlightOff + r;
      if inFlightOff == InFlightSize() {
        FlatMore(wrote, unit);
        inFlight := None;
        inFlightOff := 0;
        wrote, unit := wrote + unit, [];
        assert Committed() == old(Committed());
        assert Sent() == Flat(Frames(wrote));
      }
    }

    /** Commit the next frame, or the whole queue as one batch. */
    method PromoteToInFlight()
      requires Valid() && !InFlightActive()
      modifies this
      ensures Valid() && offered == old(offered) && shed == old(shed) && cleared == old(cleared)
      ensures dropped == old(dropped) && aged == old(aged)
      ensures var n := PromotionSize(policy, old(queue));
        && queue == old(queue)[n..] && Committed() == old(wrote) + old(queue)[..n]
        && (n > 0 ==> inFlight == Some(Flat(Frames(old(queue)[..n]))) && inFlightOff == 0)
        && wrote == (if InFlightActive() then old(wrote) else Committed())
        && (n > 0 ==> InFlightActive() == (Flat(Frames(old(queue)[..n])) != []))
        && (n == 0 ==> !InFlightActive())
      ensures Sent() == old(Sent())
    {
      hide Accounted, Sum, Flat;
      assert Committed() == wrote;
      if queue == [] { return; }
      ghost var n := PromotionSize(policy, queue);
      ghost var taken, left := queue[..n], queue[n..];
      assert wrote + queue == wrote + taken + left;
      SumAppend(taken, left, SIZE);
      assert queue == taken + left;
      if policy.drain.BatchAll? && |queue| > 1 {
        var batch := Coalesce(queue);
        assert taken == queue && left == [];
        inFlight := Some(batch);
        queue := [];
        queueBytes := 0;
        SumNone(queue);
      } else {
        assert taken == [queue[0]] && Frames(taken) == [queue[0].data];
        FlatOne(queue[0].data);
        SumOne(queue[0], SIZE);
        inFlight := Some(queue[0].data);
        queueBytes := queueBytes - |queue[0].data|;
        queue := queue[1..];
      }
      inFlightOff := 0;
      assert queue == left && inFlight.value == Flat(Frames(taken));
      if InFlightActive() {
        unit := taken;
        assert Partial() == [];
      } else {
        FlatMore(wrote, taken);
        wrote := wrote + taken;  // nothing to write: empty frames
        assert wrote + [] == wrote;
      }
      assert Committed() + queue == old(wrote + queue);
    }

    /** Shed what has waited too long. */
    method EvictStale(nowUs: int)
      requires Valid()
      modifies this
      ensures Valid()
      ensures wrote == old(wrote) && unit == old(unit) && inFlight == old(inFlight)
      ensures inFlightOff == old(inFlightOff) && offered == old(offered) && cleared == old(cleared)
      ensures queue == Aged(policy, old(queue), nowUs)
      ensures shed == old(shed) + AgedOut(policy, old(queue), nowUs)
      ensures aged == old(aged) + AgedOut(policy, old(queue), nowUs)
    {
      hide Accounted, Subsequence, Sum, Fresh, Expired;
      if !Ages(policy) {
        assert shed + [] == shed && aged + [] == aged;
        return;
      }
      var kept, bytes, count := AgeOut(policy, queue, queueBytes, nowUs);
      ghost var gone := Expired(policy, queue, nowUs);
      AgingSplits(policy, queue, nowUs);
      AccountShed(offered, Committed(), queue, shed, cleared, kept, gone);
      queue, queueBytes, dropped := kept, bytes, dropped + count;
      shed, aged := shed + gone, aged + gone;
    }

    /** The first write of a drain ends it: bytes stay in flight, the link died,
        or a whole frame went out and only one was wanted. */
    ghost predicate Blocked(fd: Fd, oneFrame: bool)
      reads this, fd
    {
      InFlightActive() &&
      (oneFrame || fd.Answer(fd.writes, InFlightSize() - inFlightOff) < InFlightSize() - inFlightOff)
    }

    /** At a frame boundary: shed the stale, commit the next frame or batch, and
        give it one write. */
    method CommitNext(fd: Fd, nowUs: int) returns (ok: bool)
      requires Valid() && !InFlightActive()
      modifies this, fd
      ensures Valid() && offered == old(offered) && cleared == old(cleared)
      ensures IsPrefix(old(Sent()), Sent()) && IsPrefix(old(wrote), wrote)
      ensures fd.accepted == old(fd.accepted) + Sent()[|old(Sent())|..]
      ensures var unit' := NextUnit(policy, old(queue), nowUs);
        var next := Flat(Frames(unit'));
        var r := fd.Answer(old(fd.writes), |next|);
        && queue == AfterNext(policy, old(queue), nowUs) && Committed() == old(Committed()) + unit'
        && shed == old(shed) + AgedOut(policy, old(queue), nowUs)
        && aged == old(aged) + AgedOut(policy, old(queue), nowUs)
        && fd.writes == old(fd.writes) + (if next == [] then 0 else 1)
        && ok == (next == [] || r >= 0) && (unit' == [] ==> !InFlightActive())
        && |Sent()| == |old(Sent())| + (if next == [] || r < 0 then 0 else r)
        && (next != [] && r < |next| ==>
              wrote == old(wrote) && inFlight == Some(next) && inFlightOff == if r < 0 then 0 else r)
    {
      hide Outbox.Valid, Sum, Flat, Fresh, Expired;
      UnitUnderWay(this);
      EvictStale(nowUs);
      ghost var kept := queue;
      assert old(Committed()) == wrote;
      if queue == [] {
        assert kept[..0] == [] && old(Committed()) + [] == old(Committed());
        NoBytes(kept[..0]);
        return true;
      }
      PromoteToInFlight();
      UnitUnderWay(this);
      if InFlightActive() {
        var r := WriteInFlight(fd);
        UnitUnderWay(this);
        if r < 0 { return false; }
      }
      return true;
    }

    /** Finish what is in flight; then shed the stale, commit the next frame or
        batch, and give it one write. False when the link died. */
    method Drain(fd: Fd, oneFrame: bool, nowUs: int) returns (ok: bool)
      requires Valid()
      modifies this, fd
      ensures Valid() && offered == old(offered) && cleared == old(cleared)
      ensures IsPrefix(old(Sent()), Sent()) && IsPrefix(old(wrote), wrote)
      ensures fd.accepted == old(fd.accepted) + Sent()[|old(Sent())|..]
      ensures old(Blocked(fd, oneFrame)) ==>
        && queue == old(queue) && shed == old(shed) && aged == old(aged) && Committed() == old(Committed())
        && fd.writes == old(fd.writes) + 1
        && var r := fd.Answer(old(fd.writes), old(InFlightSize() - inFlightOff));
           ok == (r >= 0) && |Sent()| == |old(Sent())| + (if r < 0 then 0 else r)
      ensures !old(Blocked(fd, oneFrame)) ==>
        && var unit' := NextUnit(policy, old(queue), nowUs);
           var next, first := Flat(Frames(unit')), if old(InFlightActive()) then 1 else 0;
           var r := fd.Answer(old(fd.writes) + first, |next|);
           && queue == AfterNext(policy, old(queue), nowUs) && Committed() == old(Committed()) + unit'
           && shed == old(shed) + AgedOut(policy, old(queue), nowUs)
           && aged == old(aged) + AgedOut(policy, old(queue), nowUs)
           && fd.writes == old(fd.writes) + first + (if next == [] then 0 else 1)
           && ok == (next == [] || r >= 0) && (unit' == [] ==> !InFlightActive())
           && |Sent()| == |old(Sent())| + old(InFlightSize() - inFlightOff)
                        + (if next == [] || r < 0 then 0 else r)
           && (!old(InFlightActive()) && next != [] && r < |next| ==>
                 wrote == old(wrote) && inFlight == Some(next) && inFlightOff == if r < 0 then 0 else r)
    {
      hide Outbox.Valid, Sum, Flat, AgedOut, NextUnit, AfterNext, Outbox.Sent;
      UnitUnderWay(this);
      if InFlightActive() {
        var r := WriteInFlight(fd);
        UnitUnderWay(this);
        if r < 0 { return false; }
        if InFlightActive() { return true; }
        if oneFrame { return true; }
      }
      assert Committed() == old(Committed());
      ok := CommitNext(fd, nowUs);
    }

    /** The whole queue is committed as one batch, and given one write. */
    twostate predicate BatchCommitted(fd: Fd)
      reads this, fd
    {
      var next := Flat(Frames(old(queue)));
      var r := fd.Answer(old(fd.writes), |next|);
      && Committed() == old(Committed() + queue) && queue == []
      && (next != [] && r < |next| ==>
            wrote == old(wrote) && inFlight == Some(next) && inFlightOff == if r < 0 then 0 else r)
    }

    /** What was in flight is given one write. Unless that ends the drain, what is stale is
        shed, and the next unit committed. */
    twostate predicate Served(fd: Fd, oneFrame: bool, nowUs: int)
      reads this, fd
    {
      cleared == old(cleared) &&
      if old(Blocked(fd, oneFrame)) then
        queue == old(queue) && Committed() == old(Committed()) && aged == old(aged) && shed == old(shed)
      else
        && queue == AfterNext(policy, old(queue), nowUs)
        && Committed() == old(Committed()) + NextUnit(policy, old(queue), nowUs)
        && aged == old(aged) + AgedOut(policy, old(queue), nowUs)
        && shed == old(shed) + AgedOut(policy, old(queue), nowUs)
    }

    /** Nothing is taken back, and what is pending is written unless it is shed. */
    twostate predicate Drained(fd: Fd)
      reads this, fd
    {
      && offered == old(offered) && IsPrefix(old(Committed()), Committed())
      && IsPrefix(old(fd.accepted), fd.accepted)
      && (old(HasPending()) && !Ages(policy) ==> fd.writes > old(fd.writes))
      && (!old(HasPending()) ==> !HasPending())
    }

    /** What a drain of frames that do have bytes amounts to for the link. */
    method DrainFrames(fd: Fd, oneFrame: bool, nowUs: int)
      returns (ok: bool, ghost more: seq<Entry>, ghost gain: seq<byte>)
      requires Valid() && forall e :: e in queue ==> e.data != []
      modifies this, fd
      ensures Valid() && cleared == old(cleared) && offered == old(offered) && Drained(fd)
      ensures Served(fd, oneFrame, nowUs)
      ensures wrote == old(wrote) + more && Sent() == old(Sent()) + gain && fd.accepted == old(fd.accepted) + gain
      ensures !old(InFlightActive()) && !Ages(policy) && policy.drain.BatchAll? ==> BatchCommitted(fd)
    {
      hide Outbox.Valid, Outbox.Sent, Sum, Flat;
      assert queue[..|queue|] == queue;
      FirstHasBytes(queue, PromotionSize(policy, queue));
      ok := Drain(fd, oneFrame, nowUs);
      more, gain := wrote[|old(wrote)|..], Sent()[|old(Sent())|..];
      PrefixSplit(old(wrote), wrote);
      PrefixSplit(old(Sent()), Sent());
    }
  }

  lemma UnitUnderWay(o: Outbox)
    requires o.Valid()
    ensures o.inFlightOff <= o.InFlightSize()
    ensures !o.InFlightActive() ==> o.unit == [] && o.inFlightOff == 0
  {}

  lemma Advance(before: seq<byte>, unit: seq<byte>, off: nat, r: nat)
    requires off + r <= |unit|
    ensures before + unit[..off] + unit[off..off + r] == before + unit[..off + r]
    ensures off + r == |unit| ==> unit[..off + r] == unit
  {
    assert unit[..off] + unit[off..off + r] == unit[..off + r];
  }

  lemma FlatMore(a: seq<Entry>, b: seq<Entry>)
    ensures Flat(Frames(a + b)) == Flat(Frames(a)) + Flat(Frames(b))
  {
    FlatAppend(Frames(a), Frames(b));
    assert Frames(a + b) == Frames(a) + Frames(b);
  }

  lemma FirstHasBytes(q: seq<Entry>, n: nat)
    requires n <= |q| && (q != [] ==> q[0].data != [])
    ensures n > 0 ==> Flat(Frames(q[..n])) != []
  {
    if n > 0 {
      var fs := Frames(q[..n]);
      assert fs[0] == q[0].data && Flat(fs) == fs[0] + Flat(fs[1..]);
    }
  }

  lemma NoBytes(q: seq<Entry>)
    requires q == []
    ensures Flat(Frames(q)) == []
  {
    assert Frames(q) == [];
  }

  /** The age-eviction pass: what stays, its bytes, and how many went. */
  method AgeOut(policy: Policy, q: seq<Entry>, bytes: nat, nowUs: int)
    returns (kept: seq<Entry>, bytes': nat, count: nat)
    requires bytes == Sum(q, SIZE)
    ensures kept == Fresh(policy, q, nowUs)
    ensures bytes' == Sum(kept, SIZE)
    ensures count == |Expired(policy, q, nowUs)|
  {
    hide Sum, Subsequence;
    ghost var gone: seq<Entry> := [];
    SumNone(gone);
    kept, bytes', count := [], bytes, 0;
    var i := 0;
    while i < |q|
      invariant 0 <= i <= |q|
      invariant kept == Fresh(policy, q[..i], nowUs)
      invariant gone == Expired(policy, q[..i], nowUs)
      invariant bytes' == bytes - Sum(gone, SIZE)
      invariant count == |gone|
    {
      var e := q[i];
      assert q[..i + 1][..i] == q[..i];
      assert kept + [] == kept && gone + [] == gone;
      QueuePush(gone, e);
      ExpiredFits(policy, q, i + 1, nowUs);
      if nowUs - e.enqueueUs <= policy.maxAgeUs {
        kept := kept + [e];
      } else if e.keyframe {
        kept := kept + [e];
      } else if policy.protectBelowBytes > 0 && |e.data| < policy.protectBelowBytes {
        kept := kept + [e];
      } else {
        gone := gone + [e];
        bytes' := bytes' - |e.data|;
        count := count + 1;
      }
      i := i + 1;
    }
    assert q[..i] == q;
    AgingSplits(policy, q, nowUs);
  }

  /** One contiguous buffer for a batch. */
  method Coalesce(q: seq<Entry>) returns (batch: seq<byte>)
    ensures batch == Flat(Frames(q))
  {
    batch := [];
    var i := 0;
    while i < |q|
      invariant 0 <= i <= |q|
      invariant batch == Flat(Frames(q[..i]))
    {
      assert Frames(q[..i + 1]) == Frames(q[..i]) + [q[i].data];
      FlatAppend(Frames(q[..i]), [q[i].data]);
      FlatOne(q[i].data);
      batch := batch + q[i].data;
      i := i + 1;
    }
    assert q[..i] == q;
  }

  lemma ExpiredFits(policy: Policy, q: seq<Entry>, i: nat, nowUs: int)
    requires i <= |q|
    ensures Sum(Expired(policy, q[..i], nowUs), SIZE) <= Sum(q, SIZE)
  {
    hide Sum, Fresh, Expired, Subsequence;
    AgingSplits(policy, q[..i], nowUs);
    assert q == q[..i] + q[i..];
    SumAppend(q[..i], q[i..], SIZE);
  }

  // ---- what the accounting means ----------------------------------------------

  /** What is committed or queued was offered. */
  lemma LiveWasOffered(o: Outbox)
    requires o.Valid()
    ensures forall e :: e in o.Committed() + o.queue ==> e in o.offered
  {
    hide Sum;
    forall e | e in o.Committed() + o.queue
      ensures e in o.offered
    {
      assert e in multiset(o.Committed() + o.queue);
      assert e in multiset(o.offered);
    }
  }

  /** With nothing shed and nothing cleared, the lane's bytes are the offered
      frames back to back: what is on the wire is a prefix of that stream, and
      all of it once nothing is pending. The drain mode does not appear: batching
      and one at a time write the same bytes. */
  lemma LosslessStream(o: Outbox)
    requires o.Valid() && o.shed == [] && o.cleared == []
    ensures o.Committed() + o.queue == o.offered
    ensures IsPrefix(o.Sent(), Flat(Frames(o.offered)))
    ensures !o.HasPending() ==> o.Sent() == Flat(Frames(o.offered))
  {
    var live := o.Committed() + o.queue;
    assert |multiset(o.offered)| == |multiset(live)|;
    WholeSubsequence(live, o.offered);
    FlatMore(o.Committed(), o.queue);
    FlatMore(o.wrote, o.unit);
    NoBytes([]);
    if o.InFlightActive() {
      var unit := o.inFlight.value;
      assert unit == unit[..o.inFlightOff] + unit[o.inFlightOff..];
    }
    assert !o.HasPending() ==> o.queue == [] && o.unit == [];
  }
}
