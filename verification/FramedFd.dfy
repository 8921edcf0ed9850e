/**
 The link endpoint (cpp/src/transport/framed_fd.cc): three outboxes and a timed
 lane share one file descriptor, and only ever switch between them at a frame
 boundary.
 */
module FramedFd {
  import opened Bytes
  import opened Crc16
  import opened Frame
  import opened Framing
  import opened LinkTranscript
  import opened Lists
  import opened RateGate
  import opened Wire
  import opened WritePolicy
  import opened FramedOutbox

  const RELIABLE_QUEUE_BYTES: nat := 8 * 1024
  const TIMED_QUEUE_LIMIT: nat := 16
  const MAX_FRAMES_PER_PUMP: nat := 64

  const CONTROL_POLICY := Policy(DropOldest, BatchAll, 512, 0xFFFF_FFFF, 0, 0)
  const LOSSLESS_POLICY := Policy(DropOldest, OneAtATime, 0xFFFF_FFFF, 0xFFFF_FFFF, 0, 0)

  datatype SendResult = Accepted | Closed | Unsupported | Backpressure

  /** The timed frame being sent: its bytes are final once one was taken. */
  datatype TimedActive = TimedActive(frame: TimedFrame, bytes: FrameBytes, offset: nat)

  /** The bytes not taken yet. */
  function Rest(a: Option<TimedActive>): seq<byte>
  {
    if a.Some? && a.value.offset <= |a.value.bytes| then a.value.bytes[a.value.offset..] else []
  }

  /** A write of the timed frame that took `n` bytes keeps it, advances it or ends it. */
  ghost predicate TimedStep(a: Option<TimedActive>, b: Option<TimedActive>, n: int, done: seq<Tagged>,
                            done': seq<Tagged>, sent: seq<TimedOut>, sent': seq<TimedOut>, out: TimedOut)
  {
    a.Some? &&
    if n <= 0 then b == a && done' == done && sent' == sent
    else if n < |Rest(a)| then b == Some(a.value.(offset := a.value.offset + n)) && done' == done && sent' == sent
    else b.None? && done' == done + [Tagged(Timed, a.value.bytes)] && sent' == sent + [out]
  }

  /** Where the lanes' histories stood when the link came up. */
  datatype Opening = Opening(ctrl: nat, reliable: nat, video: nat, timed: nat)

  ghost predicate EntriesFramed(codec: HeaderCodec, es: seq<Entry>)
  {
    forall e :: e in es ==> IsFramed(codec, e.data)
  }

  /** One call of a producer's. */
  datatype ProducerCall =
    | CallBatch(os: seq<Outgoing>, clockNs: nat -> int, clockUs: nat -> int)
    | CallReliable(msg: Message, nowUs: int)
    | CallDiscard
    | CallTimed(frame: TimedFrame)
    | CallFlush
    | CallDegrade(nowNs: int)
    | CallPolicy(table: Option<Table>)

  /** Nothing the lane has committed changes; more may have been offered. */
  twostate predicate OnlyQueued(o: Outbox)
    reads o
  {
    && o.wrote == old(o.wrote) && o.unit == old(o.unit) && o.inFlight == old(o.inFlight)
    && o.inFlightOff == old(o.inFlightOff) && IsPrefix(old(o.offered), o.offered) && o.aged == old(o.aged)
  }

  /** Nothing happens to the lane. */
  twostate predicate Untouched(o: Outbox)
    reads o
  {
    && o.queue == old(o.queue) && o.offered == old(o.offered) && o.wrote == old(o.wrote) && o.unit == old(o.unit)
    && o.inFlight == old(o.inFlight) && o.inFlightOff == old(o.inFlightOff)
    && o.shed == old(o.shed) && o.aged == old(o.aged) && o.cleared == old(o.cleared)
  }

  /** A reading of the steady clock, in microseconds. */
  function Micros(ns: int): int
  {
    TruncDiv(ns, 1000)
  }

  /** In nanoseconds: an entry may be aged out once its age limit, counted from the
      microsecond it was queued in, is over, unless it is a sync point or protected. */
  lemma StaleInNanoseconds(policy: Policy, e: Entry, nowNs: nat)
    ensures Stale(policy, e, Micros(nowNs)) <==>
      && nowNs >= 1000 * (e.enqueueUs + policy.maxAgeUs + 1)
      && !e.keyframe && (policy.protectBelowBytes == 0 || |e.data| >= policy.protectBelowBytes)
  {}

  /** The entry was stale at one of the first `n` readings. */
  ghost predicate StaleBy(policy: Policy, e: Entry, clock: nat -> int, n: nat)
  {
    exists i :: 0 <= i < n && Stale(policy, e, Micros(clock(i)))
  }

  /** What was aged out beyond the first `k` was stale at one of the first `n` readings. */
  ghost predicate AgedBy(policy: Policy, aged: seq<Entry>, k: nat, clock: nat -> int, n: nat)
  {
    k <= |aged| && forall j :: k <= j < |aged| ==> StaleBy(policy, aged[j], clock, n)
  }

  lemma NoneAged(policy: Policy, aged: seq<Entry>, clock: nat -> int)
    ensures AgedBy(policy, aged, |aged|, clock, 0)
  {}

  /** A turn at reading `n` ages out nothing, or what is stale then. */
  lemma AgedOn(policy: Policy, aged: seq<Entry>, k: nat, clock: nat -> int, n: nat, queue: seq<Entry>,
               aged': seq<Entry>)
    requires AgedBy(policy, aged, k, clock, n)
    requires aged' == aged || aged' == aged + AgedOut(policy, queue, Micros(clock(n)))
    ensures AgedBy(policy, aged', k, clock, n + 1) && IsPrefix(aged, aged')
  {
    hide Stale, AgedOut;
    AgedAreStale(policy, queue, Micros(clock(n)));
    forall j | k <= j < |aged'|
      ensures StaleBy(policy, aged'[j], clock, n + 1)
    {
      if j < |aged| {
        assert aged'[j] == aged[j] && StaleBy(policy, aged[j], clock, n);
      } else {
        assert aged'[j] == AgedOut(policy, queue, Micros(clock(n)))[j - |aged|];
      }
    }
  }

  lemma AgedLater(policy: Policy, aged: seq<Entry>, k: nat, clock: nat -> int, n: nat)
    requires AgedBy(policy, aged, k, clock, n) && n <= MAX_FRAMES_PER_PUMP
    ensures AgedBy(policy, aged, k, clock, MAX_FRAMES_PER_PUMP)
  {
    hide Stale;
    forall j | k <= j < |aged|
      ensures StaleBy(policy, aged[j], clock, MAX_FRAMES_PER_PUMP)
    {
      assert StaleBy(policy, aged[j], clock, n);
    }
  }

  lemma AgedAreStale(policy: Policy, queue: seq<Entry>, nowUs: int)
    ensures forall e :: e in AgedOut(policy, queue, nowUs) ==> e in queue && Stale(policy, e, nowUs)
  {
    ExpiredAreStale(policy, queue, nowUs);
  }

  /** The frames are the entries written since the first `n`. */
  ghost predicate TailIs(fs: seq<FrameBytes>, wrote: seq<Entry>, n: nat)
  {
    n <= |wrote| && fs == Frames(wrote[n..])
  }

  /** How many of these the stall shuts out. */
  function Shuts(stalled: bool, os: seq<Outgoing>): nat
  {
    if os == [] then 0 else Shuts(stalled, os[..|os| - 1]) + if Shut(stalled, os[|os| - 1]) then 1 else 0
  }

  ghost predicate ActiveOk(codec: HeaderCodec, a: TimedActive, out: TimedOut, before: seq<TimedFrame>)
  {
    && out.number < |before| && a.frame.finalize == before[out.number].finalize
    && a.frame.msg == Stamped(before[out.number], out.stamps)
    && (a.offset > 0 ==> a.offset < |a.bytes| && FramedAs(codec, a.bytes, a.frame.msg))
  }

  /** The timed lane: the queue is the newest of the frames handed in; those that went
      out, and the active one, were handed in before them, and are stamped as they
      should be. */
  ghost predicate TimedHolds(codec: HeaderCodec, queue: seq<TimedFrame>, active: Option<TimedActive>, pending: nat,
                             offered: seq<TimedFrame>, sent: seq<TimedOut>, out: TimedOut)
  {
    var front := |offered| - |queue|;
    && pending == |queue| + (if active.Some? then 1 else 0)
    && |queue| <= TIMED_QUEUE_LIMIT && front >= 0 && queue == offered[front..]
    && (active.Some? ==> ActiveOk(codec, active.value, out, offered[..front]))
    && OutBefore(sent, if active.Some? then out.number else front)
  }

  /** One more is handed in. */
  lemma TimedQueued(codec: HeaderCodec, queue: seq<TimedFrame>, active: Option<TimedActive>, pending: nat,
                    offered: seq<TimedFrame>, sent: seq<TimedOut>, out: TimedOut, frame: TimedFrame)
    requires TimedHolds(codec, queue, active, pending, offered, sent, out) && |queue| < TIMED_QUEUE_LIMIT
    ensures TimedHolds(codec, queue + [frame], active, pending + 1, offered + [frame], sent, out)
  {
    hide FramedAs, Stamped, OutBefore;
    var front := |offered| - |queue|;
    assert (offered + [frame])[front..] == queue + [frame];
    assert (offered + [frame])[..front] == offered[..front];
  }

  /** The oldest waiting is dropped. */
  lemma TimedDropped(codec: HeaderCodec, queue: seq<TimedFrame>, active: Option<TimedActive>, pending: nat,
                     offered: seq<TimedFrame>, sent: seq<TimedOut>, out: TimedOut)
    requires TimedHolds(codec, queue, active, pending, offered, sent, out) && queue != []
    ensures pending > 0 && TimedHolds(codec, queue[1..], active, pending - 1, offered, sent, out)
  {
    hide FramedAs, Stamped, OutBefore;
    var front := |offered| - |queue|;
    if active.None? { LaterLimit(sent, front, front + 1); }
  }

  lemma LaterLimit(outs: seq<TimedOut>, limit: int, later: int)
    requires OutBefore(outs, limit) && limit <= later
    ensures OutBefore(outs, later)
  {}

  class Endpoint {
    const codec: HeaderCodec
    const ctrl: Outbox      // control and sensor data
    const reliable: Outbox  // finite responses
    const video: Outbox     // lossy bulk
    const rx: RxBuffer
    const door: Door
    const stallNs: int
    const degradeHoldNs: int
    var fd: Fd?
    var timedQueue: seq<TimedFrame>
    var timedActive: Option<TimedActive>
    var timedPending: nat
    var bulkFlush: bool
    var reliableLinkUp: bool
    var lastProgressNs: int
    var evictionsSeen: nat

    // The link: what of the unit then under way was out before it came up; the frames
    // of the units that are out since, in order; and where the lanes stood before. The
    // links before it.
    ghost var before: seq<byte>
    ghost var done: seq<Tagged>
    ghost var opening: Opening
    ghost var ended: seq<Transcript>

    // The timed lane's history: what was handed in, what went out whole, and
    // which one is active.
    ghost var timedOffered: seq<TimedFrame>
    ghost var timedSent: seq<TimedOut>
    ghost var timedNow: TimedOut

    ghost predicate LaneOk(o: Outbox)
      reads o
    {
      o.Valid() && EntriesFramed(codec, o.offered)
    }

    ghost predicate LanesOk()
      reads ctrl, reliable, video
    {
      && ctrl != reliable && ctrl != video && reliable != video
      && LaneOk(ctrl) && LaneOk(reliable) && LaneOk(video)
      && ctrl.policy == CONTROL_POLICY && reliable.policy == LOSSLESS_POLICY
    }

    /** At most one of the four lanes has a frame under way. */
    ghost predicate OneLane()
      reads this`timedActive, ctrl`inFlight, ctrl`inFlightOff, reliable`inFlight, reliable`inFlightOff, video`inFlight,
            video`inFlightOff
    {
      && (ctrl.InFlightActive() ==> !reliable.InFlightActive() && !video.InFlightActive())
      && (reliable.InFlightActive() ==> !video.InFlightActive())
      && (timedActive.Some? ==> AtBoundary())
    }

    /** No outbox has a frame under way. */
    predicate AtBoundary()
      reads ctrl`inFlight, ctrl`inFlightOff, reliable`inFlight, reliable`inFlightOff, video`inFlight, video`inFlightOff
    {
      !ctrl.InFlightActive() && !reliable.InFlightActive() && !video.InFlightActive()
    }

    ghost predicate TimedOk()
      reads this`timedQueue, this`timedActive, this`timedPending, this`timedOffered, this`timedSent, this`timedNow
    {
      TimedHolds(codec, timedQueue, timedActive, timedPending, timedOffered, timedSent, timedNow)
    }

    /** Some of the timed frame is on the wire. */
    ghost predicate TimedStarted()
      reads this`timedActive
    {
      timedActive.Some? && 0 < timedActive.value.offset <= |timedActive.value.bytes|
    }

    /** The bytes of the frame or batch under way that the fd has taken. */
    ghost function Current(): seq<byte>
      reads this`timedActive, ctrl`inFlight, ctrl`inFlightOff, reliable`inFlight, reliable`inFlightOff, video`inFlight,
            video`inFlightOff
    {
      if TimedStarted() then timedActive.value.bytes[..timedActive.value.offset]
      else ctrl.Partial() + reliable.Partial() + video.Partial()
    }

    /** The frames of the unit under way. */
    ghost function CurrentUnit(): seq<Tagged>
      reads this`timedActive, ctrl`unit, reliable`unit, video`unit
    {
      if TimedStarted() then [Tagged(Timed, timedActive.value.bytes)]
      else Tag(Control, Frames(ctrl.unit)) + Tag(Reliable, Frames(reliable.unit)) + Tag(Video, Frames(video.unit))
    }

    ghost function Offered(): Offers
      reads this`timedOffered, ctrl`offered, reliable`offered, video`offered
    {
      Offers(ctrl.offered, reliable.offered, video.offered, timedOffered)
    }

    /** Lane by lane, what the open fd took whole is what the lane wrote since. */
    ghost predicate SourcesOk()
      reads this`done, this`opening, this`timedSent, this`timedOffered, ctrl`wrote, reliable`wrote, video`wrote
    {
      && TailIs(Of(done, Control), ctrl.wrote, opening.ctrl)
      && TailIs(Of(done, Reliable), reliable.wrote, opening.reliable)
      && TailIs(Of(done, Video), video.wrote, opening.video)
      && opening.timed <= |timedSent|
      && TimedTrue(codec, Of(done, Timed), timedSent[opening.timed..], timedOffered)
    }

    /** The open link so far. */
    ghost function Link(): Transcript
      requires fd != null && SourcesOk()
      reads this`fd, this`before, this`done, this`opening, this`timedActive, this`timedSent, this`timedNow,
            this`timedOffered, ctrl`wrote, ctrl`unit, reliable`wrote, reliable`unit, video`wrote, video`unit, fd
    {
      Transcript(before, fd.accepted, done, CurrentUnit(),
                 ctrl.Committed()[opening.ctrl..], reliable.Committed()[opening.reliable..],
                 video.Committed()[opening.video..],
                 timedSent[opening.timed..] +
                   if TimedStarted() then [timedNow] else [])
    }

    /** How far the link has come. */
    ghost function SoFar(): Progress
      reads this`fd, this`before, this`done, this`timedActive, ctrl`unit, reliable`unit, video`unit, fd
    {
      Progress(before, if fd == null then [] else fd.accepted, done, done + CurrentUnit())
    }

    /** What is told of links that have ended, if these are all of them. */
    ghost predicate Tells(ts: seq<Transcript>, goingOn: seq<byte>)
      reads this`timedOffered, ctrl`offered, reliable`offered, video`offered
    {
      AllHold(codec, ts, Offered()) && Chained(ts) && GoesOnFrom(goingOn, ts)
    }

    ghost predicate EndedOk()
      reads this`ended, this`before, this`timedOffered, ctrl`offered, reliable`offered, video`offered
    {
      Tells(ended, before)
    }

    /** What is out of the link's units. */
    ghost function Taken(): seq<byte>
      reads this`fd, this`before, fd
    {
      before + if fd == null then [] else fd.accepted
    }

    /** What is out is whole frames, and then what was taken of the unit under way. */
    ghost predicate StreamOk()
      reads this`fd, this`before, this`done, this`timedActive, fd, ctrl`inFlight, ctrl`inFlightOff, reliable`inFlight,
            reliable`inFlightOff, video`inFlight, video`inFlightOff
    {
      && AllFramed(codec, Untagged(done))
      && (fd == null ==> done == [] && timedActive.None?)
      && Taken() == Flat(Untagged(done)) + Current()
    }

    /** What is out of the lane's unit is whole frames. */
    ghost predicate CutBetween(o: Outbox)
      reads o`unit, o`inFlightOff
    {
      AtFrameEnd(Frames(o.unit), o.inFlightOff)
    }

    ghost predicate Valid()
      reads this`fd, this`timedQueue, this`timedActive, this`timedPending, this`before, this`done, this`opening,
            this`ended, this`timedOffered, this`timedSent, this`timedNow, ctrl, reliable, video, fd
    {
      && codec.Valid()
      && LanesOk() && OneLane() && TimedOk() && SourcesOk() && EndedOk() && StreamOk()
    }

    /** What became of the link that `was` had and that had come as far as `p`: it is
        still open, or it has ended and its transcript says what it took. */
    ghost predicate Follows(was: Fd, p: Progress, ended0: seq<Transcript>)
      reads this`fd, this`before, this`done, this`ended, this`timedActive, ctrl`unit, reliable`unit, video`unit, fd, was
    {
      if fd == was then Further(p, SoFar()) && ended == ended0
      else
        && fd == null && |ended| == |ended0| + 1 && ended[..|ended0|] == ended0
        && ended[|ended0|].accepted == was.accepted && Further(p, ProgressOf(ended[|ended0|]))
    }

    constructor (codec: HeaderCodec, fd: Fd?, policy: Policy, stallNs: int, degradeHoldNs: int)
      requires codec.Valid()
      requires fd != null ==> fd.accepted == []
      ensures Valid() && this.fd == fd && this.codec == codec && before == [] && done == [] && ended == []
      ensures reliableLinkUp == (fd != null)
      ensures this.stallNs == stallNs && this.degradeHoldNs == degradeHoldNs && video.policy == policy
      ensures ctrl.policy == CONTROL_POLICY && ctrl != reliable && ctrl != video && reliable != video
      ensures ctrl.wrote == reliable.wrote == video.wrote == []
      ensures timedQueue == [] && timedActive.None? && Offered() == Offers([], [], [], [])
      ensures ctrl.queue == reliable.queue == video.queue == [] && AtBoundary()
      ensures fresh(ctrl) && fresh(reliable) && fresh(video) && fresh(rx) && rx.bytes == []
      ensures fresh(door) && door.Valid() && door.policy.None? && !door.stalled && door.degradeHoldUntilNs == 0
    {
      hide Outbox.Valid, Endpoint.Valid;
      this.codec := codec;
      ctrl := new Outbox(CONTROL_POLICY);
      reliable := new Outbox(LOSSLESS_POLICY);
      video := new Outbox(policy);
      rx := new RxBuffer();
      door := new Door();
      this.stallNs, this.degradeHoldNs, lastProgressNs, evictionsSeen := stallNs, degradeHoldNs, 0, 0;
      this.fd := fd;
      timedQueue, timedActive, timedPending := [], None, 0;
      bulkFlush, reliableLinkUp := false, fd != null;
      before, done, opening, ended := [], [], Opening(0, 0, 0, 0), [];
      timedOffered, timedSent, timedNow := [], [], TimedOut(0, []);
      new;
      StartsValid();
    }

    /** With nothing handed in and nothing sent. */
    lemma StartsValid()
      requires codec.Valid() && ctrl != reliable && ctrl != video && reliable != video
      requires ctrl.Valid() && reliable.Valid() && video.Valid()
      requires ctrl.policy == CONTROL_POLICY && reliable.policy == LOSSLESS_POLICY
      requires !ctrl.HasPending() && !reliable.HasPending() && !video.HasPending()
      requires Offered() == Offers([], [], [], []) && ctrl.wrote == reliable.wrote == video.wrote == []
      requires timedQueue == [] && timedActive.None? && timedPending == 0 && timedSent == []
      requires before == [] && done == [] && opening == Opening(0, 0, 0, 0) && ended == []
      requires fd != null ==> fd.accepted == []
      ensures Valid()
    {
      hide Outbox.Valid, Endpoint.TimedOk, Endpoint.SourcesOk, Endpoint.EndedOk, Endpoint.StreamOk;
      TimedStarts();
      StreamStarts();
    }

    lemma TimedStarts()
      requires Offered() == Offers([], [], [], []) && ctrl.wrote == reliable.wrote == video.wrote == []
      requires timedQueue == [] && timedActive.None? && timedPending == 0 && timedSent == []
      requires before == [] && done == [] && opening == Opening(0, 0, 0, 0) && ended == []
      ensures TimedOk() && SourcesOk() && EndedOk()
    {
      hide Of, TailIs, TimedTrue, AllHold, OutBefore, Stamped, ActiveOk;
      NothingSent(codec);
      assert timedSent[0..] == [] && timedOffered[0..] == [];
    }

    lemma StreamStarts()
      requires !ctrl.InFlightActive() && !reliable.InFlightActive() && !video.InFlightActive()
      requires before == [] && done == [] && timedActive.None? && (fd != null ==> fd.accepted == [])
      ensures StreamOk()
    {
      hide Flat, IsFramed;
      NothingSent(codec);
    }

    // ---- the producers' side -----------------------------------------------

    lemma EndedAre()
      requires EndedOk()
      ensures AllHold(codec, ended, Offered()) && Chained(ended) && GoesOnFrom(before, ended)
    {}

    /** More was handed in, and nothing else changed. */
    lemma OffersGrew(was: Offers)
      requires AllHold(codec, ended, was) && Chained(ended) && GoesOnFrom(before, ended)
      requires MoreOffered(was, Offered())
      ensures EndedOk()
    {
      hide AllHold, MoreOffered, Chained, GoesOnFrom;
      AllHoldStill(codec, ended, was, Offered());
    }

    /** Past every gate, frame a message and queue it: bulk to the video lane, the
        rest to control. */
    method EnqueueOne(o: Outgoing, stalled: bool, nowNs: int, nowUs: int) returns (ok: bool)
      requires Valid() && door.Valid()
      modifies door, ctrl, video
      ensures Valid() && door.Valid() && Current() == old(Current()) && CurrentUnit() == old(CurrentUnit())
      ensures OnlyQueued(ctrl) && OnlyQueued(video)
      ensures video.cleared == old(video.cleared)
      ensures !ok ==> ctrl.offered == old(ctrl.offered) && video.offered == old(video.offered)
      ensures ok ==>
        var lane, other := if o.bulk then video else ctrl, if o.bulk then ctrl else video;
        lane.offered == old(lane.offered) + [Entry(EncodeFramed(codec, o.msg), nowUs, o.msg.keyframe)] &&
        other.offered == old(other.offered)
      ensures ok == Opens(old(door.State()), old(door.degradeHoldUntilNs), stalled, o, nowUs)
      ensures door.Answered(o, stalled, nowNs, nowUs)
    {
      hide Endpoint.Valid, Endpoint.Current, Endpoint.CurrentUnit, EncodeFramed, Door.Valid;
      PrefixSelf(ctrl.offered);
      PrefixSelf(reliable.offered);
      PrefixSelf(video.offered);
      ok := door.Admits(o, stalled, nowNs, nowUs);
      if !ok { return; }
      QueueFramed(o, nowUs);
    }

    method QueueFramed(o: Outgoing, nowUs: int)
      requires Valid()
      modifies ctrl, video
      ensures Valid() && Current() == old(Current()) && CurrentUnit() == old(CurrentUnit())
      ensures OnlyQueued(ctrl) && OnlyQueued(video)
      ensures video.cleared == old(video.cleared)
      ensures var lane, other := if o.bulk then video else ctrl, if o.bulk then ctrl else video;
        lane.offered == old(lane.offered) + [Entry(EncodeFramed(codec, o.msg), nowUs, o.msg.keyframe)] &&
        other.offered == old(other.offered)
      ensures var lane, f := if o.bulk then video else ctrl, EncodeFramed(codec, o.msg);
        !Rejects(lane.policy, old(lane.queue)) ==>
          lane.queue == Bounded(lane.policy, old(lane.queue), |f|, SIZE) + [Entry(f, nowUs, o.msg.keyframe)]
    {
      hide Endpoint.OneLane, Endpoint.TimedOk, Endpoint.SourcesOk, Endpoint.EndedOk, Endpoint.StreamOk,
           Endpoint.Current, Endpoint.CurrentUnit, Outbox.Valid, Outbox.InFlightActive, EncodeFramed, Bounded,
           ShedFor, AllHold, Chained, GoesOnFrom, Rejects;
      EndedAre();
      var framed := EncodeFramed(codec, o.msg);
      assert FramedAs(codec, framed, o.msg);
      PrefixSelf(ctrl.offered);
      PrefixSelf(reliable.offered);
      PrefixSelf(video.offered);
      if o.bulk {
        var _ := video.Enqueue(Some(framed), o.msg.keyframe, nowUs);
      } else {
        var _ := ctrl.Enqueue(Some(framed), o.msg.keyframe, nowUs);
      }
      OffersGrew(old(Offered()));
    }

    /** A group of messages, under the stall flag as it was when the group began. True
        if the I/O thread is to be woken. */
    method SendBatch(os: seq<Outgoing>, clockNs: nat -> int, clockUs: nat -> int) returns (wake: bool)
      requires Valid() && door.Valid()
      modifies door, ctrl, video
      ensures Valid() && door.Valid() && Current() == old(Current()) && CurrentUnit() == old(CurrentUnit())
      ensures OnlyQueued(ctrl) && OnlyQueued(video)
      ensures video.cleared == old(video.cleared)
      ensures door.stalled == old(door.stalled) && door.policy == old(door.policy)
      ensures door.doorDropped == old(door.doorDropped) + Shuts(old(door.stalled), os)
      ensures old(door.stalled) ==> !wake && video.offered == old(video.offered)
      ensures !old(door.stalled) ==>
        wake == (|ctrl.offered| + |video.offered| > old(|ctrl.offered| + |video.offered|))
    {
      hide Endpoint.Valid, Endpoint.Current, Endpoint.CurrentUnit, Door.Valid, EncodeFramed;
      var stalled, any := door.stalled, false;
      PrefixSelf(ctrl.offered);
      PrefixSelf(video.offered);
      var i := 0;
      while i < |os|
        invariant 0 <= i <= |os| && Valid() && door.Valid()
        invariant Current() == old(Current()) && CurrentUnit() == old(CurrentUnit())
        invariant OnlyQueued(ctrl) && OnlyQueued(video)
        invariant video.cleared == old(video.cleared)
        invariant door.stalled == stalled && door.policy == old(door.policy)
        invariant door.doorDropped == old(door.doorDropped) + Shuts(stalled, os[..i])
        invariant stalled ==> video.offered == old(video.offered)
        invariant any == (|ctrl.offered| + |video.offered| > old(|ctrl.offered| + |video.offered|))
      {
        ghost var a, b := ctrl.offered, video.offered;
        var ok := EnqueueOne(os[i], stalled, clockNs(i), clockUs(i));
        PrefixTrans(old(ctrl.offered), a, ctrl.offered);
        PrefixTrans(old(video.offered), b, video.offered);
        ShutsMore(stalled, os, i);
        if ok { any := true; }
        i := i + 1;
      }
      assert os[..i] == os;
      wake := any && !stalled;
    }

    method TrySendReliable(msg: Message, nowUs: int) returns (result: SendResult)
      requires Valid()
      modifies reliable
      ensures Valid() && Current() == old(Current()) && CurrentUnit() == old(CurrentUnit())
      ensures OnlyQueued(reliable)
      ensures result == (var size := |EncodeFramed(codec, msg)|;
        if !reliableLinkUp then Closed
        else if size > RELIABLE_QUEUE_BYTES then Unsupported
        else if old(reliable.queueBytes) + size <= RELIABLE_QUEUE_BYTES then Accepted
        else Backpressure)
      ensures reliable.offered == old(reliable.offered) +
        if result.Accepted? then [Entry(EncodeFramed(codec, msg), nowUs, false)] else []
    {
      hide Endpoint.OneLane, Endpoint.TimedOk, Endpoint.SourcesOk, Endpoint.EndedOk, Endpoint.StreamOk,
           Endpoint.Current, Endpoint.CurrentUnit, Outbox.Valid, Outbox.InFlightActive, EncodeFramed, DecodeRun,
           FindZero;
      EndedAre();
      PrefixSelf(ctrl.offered);
      PrefixSelf(reliable.offered);
      PrefixSelf(video.offered);
      if !reliableLinkUp { return Closed; }
      var framed := EncodeFramed(codec, msg);
      assert FramedAs(codec, framed, msg);
      FramedRun(codec, msg);
      if |framed| > RELIABLE_QUEUE_BYTES { return Unsupported; }
      var ok := reliable.TryEnqueue(Some(framed), RELIABLE_QUEUE_BYTES, nowUs);
      OffersGrew(old(Offered()));
      result := if ok then Accepted else Backpressure;
    }

    method DiscardReliable()
      requires Valid()
      modifies reliable
      ensures Valid() && Current() == old(Current()) && CurrentUnit() == old(CurrentUnit())
      ensures OnlyQueued(reliable)
      ensures reliable.queue == []
    {
      hide Endpoint.OneLane, Endpoint.TimedOk, Endpoint.SourcesOk, Endpoint.EndedOk, Endpoint.StreamOk,
           Endpoint.Current, Endpoint.CurrentUnit, Outbox.Valid, Outbox.InFlightActive;
      PrefixSelf(ctrl.offered);
      PrefixSelf(reliable.offered);
      PrefixSelf(video.offered);
      reliable.DiscardQueued();
    }

    method SendTimed(frame: TimedFrame)
      requires Valid()
      modifies this`timedQueue, this`timedPending, this`timedOffered
      ensures Valid() && Current() == old(Current()) && CurrentUnit() == old(CurrentUnit())
      ensures timedOffered == old(timedOffered) + [frame]
      ensures timedQueue ==
        (if |old(timedQueue)| >= TIMED_QUEUE_LIMIT then old(timedQueue)[1..] else old(timedQueue)) + [frame]
    {
      hide Endpoint.Valid, Endpoint.Current, Endpoint.CurrentUnit;
      TimedBound();
      if |timedQueue| >= TIMED_QUEUE_LIMIT { DropOldestTimed(); }
      PushTimed(frame);
    }

    lemma TimedBound()
      requires Valid()
      ensures |timedQueue| <= TIMED_QUEUE_LIMIT
    {
      hide Endpoint.LanesOk, Endpoint.OneLane, Endpoint.EndedOk, Endpoint.SourcesOk, Endpoint.StreamOk;
    }

    method DropOldestTimed()
      requires Valid() && timedQueue != []
      modifies this`timedQueue, this`timedPending
      ensures Valid() && timedQueue == old(timedQueue)[1..]
    {
      hide Endpoint.LanesOk, Endpoint.OneLane, Endpoint.EndedOk, Endpoint.SourcesOk, Endpoint.StreamOk, TimedHolds;
      TimedDropped(codec, timedQueue, timedActive, timedPending, timedOffered, timedSent, timedNow);
      timedQueue := timedQueue[1..];
      timedPending := timedPending - 1;
    }

    method PushTimed(frame: TimedFrame)
      requires Valid() && |timedQueue| < TIMED_QUEUE_LIMIT
      modifies this`timedQueue, this`timedPending, this`timedOffered
      ensures Valid() && timedOffered == old(timedOffered) + [frame] && timedQueue == old(timedQueue) + [frame]
    {
      hide Endpoint.LanesOk, Endpoint.OneLane, Endpoint.EndedOk, Endpoint.SourcesOk, Endpoint.StreamOk, TimedHolds,
           TailIs, TimedTrue, Of, AllHold, Chained, GoesOnFrom;
      SourcesAre();
      EndedAre();
      PrefixSelf(ctrl.offered);
      PrefixSelf(reliable.offered);
      PrefixSelf(video.offered);
      TimedQueued(codec, timedQueue, timedActive, timedPending, timedOffered, timedSent, timedNow, frame);
      TimedStays(codec, Of(done, Timed), timedSent[opening.timed..], timedOffered, frame);
      timedQueue := timedQueue + [frame];
      timedPending := timedPending + 1;
      timedOffered := timedOffered + [frame];
      SourcesAreNow();
      OffersGrew(old(Offered()));
    }

    method RequestBulkFlush()
      requires Valid()
      modifies this`bulkFlush
      ensures Valid() && bulkFlush && Current() == old(Current()) && CurrentUnit() == old(CurrentUnit())
    {
      hide Endpoint.LanesOk, Endpoint.OneLane, Endpoint.TimedOk, Endpoint.SourcesOk, Endpoint.EndedOk,
           Endpoint.StreamOk, Endpoint.Current, Endpoint.CurrentUnit;
      bulkFlush := true;
    }

    /** Offer only keyframes from now on, until the hold is over. */
    method RequestVideoDegrade(nowNs: int)
      modifies door`degradeHoldUntilNs
      ensures door.degradeHoldUntilNs == nowNs + degradeHoldNs
    {
      door.degradeHoldUntilNs := nowNs + degradeHoldNs;
    }

    /** One call by a producer. */
    method ProduceOne(call: ProducerCall)
      requires Valid() && door.Valid()
      modifies this`timedQueue, this`timedPending, this`timedOffered, this`bulkFlush, door, ctrl, reliable, video
      ensures Valid() && door.Valid() && Current() == old(Current()) && CurrentUnit() == old(CurrentUnit())
      ensures OnlyQueued(ctrl) && OnlyQueued(reliable) && OnlyQueued(video) && door.stalled == old(door.stalled)
      ensures video.cleared == old(video.cleared)
      ensures MoreOffered(old(Offered()), Offered())
    {
      hide Door.Valid, EncodeFramed, Endpoint.Valid, Endpoint.Current, Endpoint.CurrentUnit, Shuts;
      PrefixSelf(ctrl.offered);
      PrefixSelf(reliable.offered);
      PrefixSelf(video.offered);
      LanesAreSeparate(this);
      match call {
        case CallBatch(os, clockNs, clockUs) => var _ := SendBatch(os, clockNs, clockUs);
        case CallReliable(msg, nowUs) => var _ := TrySendReliable(msg, nowUs);
        case CallDiscard => DiscardReliable();
        case CallTimed(frame) => SendTimed(frame);
        case CallFlush => RequestBulkFlush();
        case CallDegrade(nowNs) => RequestVideoDegrade(nowNs);
        case CallPolicy(table) => door.SetStreamPolicy(table);
      }
    }

    /** Any number of calls by producers. */
    method Produce(calls: seq<ProducerCall>)
      requires Valid() && door.Valid()
      modifies this`timedQueue, this`timedPending, this`timedOffered, this`bulkFlush, door, ctrl, reliable, video
      ensures Valid() && door.Valid() && Current() == old(Current()) && CurrentUnit() == old(CurrentUnit())
      ensures OnlyQueued(ctrl) && OnlyQueued(reliable) && OnlyQueued(video) && door.stalled == old(door.stalled)
      ensures video.cleared == old(video.cleared)
      ensures MoreOffered(old(Offered()), Offered())
    {
      hide Door.Valid, IsPrefix, Endpoint.Valid, Endpoint.Current, Endpoint.CurrentUnit;
      var i := 0;
      PrefixSelf(ctrl.offered);
      PrefixSelf(reliable.offered);
      PrefixSelf(video.offered);
      OffersSelf(Offered());
      while i < |calls|
        invariant 0 <= i <= |calls| && Valid() && door.Valid()
        invariant OnlyQueued(ctrl) && OnlyQueued(reliable) && OnlyQueued(video) && door.stalled == old(door.stalled)
        invariant video.cleared == old(video.cleared)
        invariant Current() == old(Current()) && CurrentUnit() == old(CurrentUnit())
        invariant MoreOffered(old(Offered()), Offered())
      {
        ghost var was := Offered();
        ghost var a, b, c := ctrl.offered, reliable.offered, video.offered;
        ProduceOne(calls[i]);
        PrefixTrans(old(ctrl.offered), a, ctrl.offered);
        PrefixTrans(old(reliable.offered), b, reliable.offered);
        PrefixTrans(old(video.offered), c, video.offered);
        OffersTrans(old(Offered()), was, Offered());
        i := i + 1;
      }
    }

    // ---- the end of a link ----------------------------------------------------

    /** The open link's transcript, if there is one. */
    ghost function Last(): seq<Transcript>
      requires SourcesOk()
      reads this`fd, this`before, this`done, this`opening, this`timedActive, this`timedSent, this`timedNow,
            this`timedOffered, ctrl`wrote, ctrl`unit, reliable`wrote, reliable`unit, video`wrote, video`unit, fd
    {
      if fd == null then [] else [Link()]
    }

    /** The transcript of the open link may join those of the links before it. */
    lemma LastTells() returns (told: seq<Transcript>)
      requires Valid()
      ensures told == ended + Last() && Tells(told, Current())
    {
      hide Endpoint.LanesOk, Endpoint.OneLane, Endpoint.TimedOk, Endpoint.SourcesOk, Endpoint.Current, Holds,
           Endpoint.CurrentUnit, Chained, GoesOnFrom, AllFramed, Endpoint.Offered, Flat;
      told := ended + Last();
      if fd == null {
        FlatOfNone(Untagged(done));
        assert told == ended && Taken() == before && before == Current();
      } else {
        LinkHolds(this);
        ChainedMore(ended, Link());
        UnitLeftOver(Link(), Current(), ended);
        assert told == ended + [Link()] && AllHold(codec, told, Offered());
      }
    }

    /** The link is gone: nothing of it may reach the next reader. What it took is
        written down. */
    method MarkLinkDead()
      requires Valid()
      modifies this, ctrl, reliable, video, rx, door`stalled, door`degradeHoldUntilNs
      ensures Valid() && fd == null && before == [] && done == [] && rx.bytes == [] && !reliableLinkUp
      ensures ctrl.queue == reliable.queue == video.queue == [] && timedQueue == [] && AtBoundary()
      ensures Offered() == old(Offered()) && video.aged == old(video.aged)
      ensures ended == old(ended + Last())
      ensures IsPrefix(old(video.cleared), video.cleared)
      ensures !door.stalled && door.degradeHoldUntilNs == 0 && evictionsSeen == video.dropped && lastProgressNs == 0
    {
      hide Endpoint.Valid, Endpoint.Last, Endpoint.Offered, Endpoint.AtBoundary, Endpoint.Tells, Endpoint.Current;
      ghost var told := LastTells();
      Unstall();
      TearDown(told);
    }

    /** A fresh link starts unstalled and undegraded, with nothing received. */
    method Unstall()
      requires Valid()
      modifies this`evictionsSeen, this`lastProgressNs, this`reliableLinkUp, rx, door`stalled, door`degradeHoldUntilNs
      ensures Valid() && rx.bytes == [] && !reliableLinkUp
      ensures !door.stalled && door.degradeHoldUntilNs == 0 && evictionsSeen == video.dropped && lastProgressNs == 0
    {
      hide Endpoint.Valid;
      reliableLinkUp := false;
      rx.bytes := [];
      door.stalled, door.degradeHoldUntilNs := false, 0;
      evictionsSeen, lastProgressNs := video.dropped, 0;
    }

    /** Forget everything queued or under way, on every lane. */
    method TearDown(ghost told: seq<Transcript>)
      requires Valid() && Tells(told, Current())
      modifies this`fd, this`timedQueue, this`timedActive, this`timedPending, this`before, this`done, this`opening,
               this`ended, ctrl, reliable, video
      ensures Valid() && fd == null && before == [] && done == [] && timedQueue == [] && AtBoundary()
      ensures ctrl.queue == reliable.queue == video.queue == [] && Offered() == old(Offered())
      ensures video.dropped == old(video.dropped) && video.aged == old(video.aged) && ended == told
      ensures IsPrefix(old(video.cleared), video.cleared)
    {
      hide Endpoint.LanesOk, Endpoint.OneLane, Endpoint.TimedOk, Endpoint.SourcesOk, Endpoint.Current,
           Endpoint.StreamOk, Endpoint.AtBoundary, AllHold, Chained;
      Unlink([], told);
      ClearLanes();
      NoLink();
    }

    /** The descriptor is closed, and the next link's story begins here. */
    method Unlink(ghost left: seq<byte>, ghost told: seq<Transcript>)
      requires TimedOk()
      modifies this`fd, this`timedQueue, this`timedActive, this`timedPending, this`before, this`done, this`opening,
               this`ended
      ensures fd == null && timedQueue == [] && timedActive.None? && done == [] && TimedOk() && SourcesOk()
      ensures before == left && ended == told
    {
      hide FramedAs, Stamped;
      fd := null;
      timedQueue, timedActive, timedPending := [], None, 0;
      before, done, ended := left, [], told;
      opening := Opening(|ctrl.wrote|, |reliable.wrote|, |video.wrote|, |timedSent|);
    }

    lemma NoLink()
      requires fd == null && done == [] && timedActive.None? && before == Current()
      ensures StreamOk()
    {
      assert Flat([]) == [];
    }

    method ClearLanes()
      requires LanesOk() && timedActive.None?
      modifies ctrl, reliable, video
      ensures LanesOk() && AtBoundary() && OneLane() && Current() == []
      ensures ctrl.queue == reliable.queue == video.queue == []
      ensures ctrl.offered == old(ctrl.offered) && reliable.offered == old(reliable.offered)
      ensures video.offered == old(video.offered)
      ensures ctrl.wrote == old(ctrl.wrote) && reliable.wrote == old(reliable.wrote) && video.wrote == old(video.wrote)
      ensures video.dropped == old(video.dropped) && video.aged == old(video.aged)
      ensures IsPrefix(old(video.cleared), video.cleared)
    {
      hide Flat, Accounted, EntriesFramed, Sum;
      reliable.Clear();
      ctrl.Clear();
      video.Clear();
    }

    /** The I/O thread has ended. Only two lanes are emptied: what is out of a control or
        video unit stays out, and the rest of it goes to the next descriptor. */
    method Stop()
      requires Valid()
      modifies this, reliable
      ensures Valid() && fd == null && !reliableLinkUp && timedQueue == [] && reliable.queue == []
      ensures !reliable.InFlightActive()
      ensures ended == old(ended + Last()) && before == ctrl.Partial() + video.Partial()
      ensures Offered() == old(Offered())
    {
      hide Endpoint.Valid, Endpoint.Last, Endpoint.Tells, Endpoint.Current;
      LanesAreSeparate(this);
      reliableLinkUp := false;
      ghost var told := LastTells();
      EndLink(told);
    }

    method EndLink(ghost told: seq<Transcript>)
      requires Valid() && Tells(told, Current())
      modifies this`fd, this`timedQueue, this`timedActive, this`timedPending, this`before, this`done, this`opening,
               this`ended, reliable
      ensures Valid() && fd == null && timedQueue == [] && reliable.queue == [] && !reliable.InFlightActive()
      ensures ended == told && before == ctrl.Partial() + video.Partial() && Offered() == old(Offered())
    {
      hide Endpoint.LanesOk, Endpoint.OneLane, Endpoint.TimedOk, Endpoint.SourcesOk, Endpoint.Current,
           Endpoint.StreamOk, AllHold, Chained, GoesOnFrom;
      LanesAreSeparate(this);
      OneLaneWithout(told);
      Unlink(ctrl.Partial() + video.Partial(), told);
      ClearReliable();
      NoLink();
    }

    /** One lane less is under way. */
    lemma OneLaneWithout(told: seq<Transcript>)
      requires OneLane() && GoesOnFrom(Current(), told)
      ensures ctrl.InFlightActive() ==> !video.InFlightActive()
      ensures GoesOnFrom(ctrl.Partial() + video.Partial(), told)
    {
      hide TakenOf;
    }

    method ClearReliable()
      requires LanesOk() && timedActive.None? && (ctrl.InFlightActive() ==> !video.InFlightActive())
      modifies reliable
      ensures LanesOk() && OneLane() && reliable.queue == [] && !reliable.InFlightActive()
      ensures Current() == ctrl.Partial() + video.Partial()
      ensures reliable.offered == old(reliable.offered) && reliable.wrote == old(reliable.wrote)
    {
      hide Flat, Accounted, EntriesFramed, Sum;
      reliable.Clear();
    }

    /** A fresh descriptor for a link that was down. What it takes is whole frames from
        its first byte on exactly if on every lane what is out of the unit under way is
        whole frames. */
    method AdoptFd(fresh_: Fd)
      requires Valid() && fd == null && fresh_.accepted == []
      modifies this`fd, this`reliableLinkUp, rx
      ensures Valid() && fd == fresh_ && rx.bytes == [] && reliableLinkUp && SoFar() == old(SoFar())
      ensures StartsWhole(Link()) <==> CutBetween(ctrl) && CutBetween(reliable) && CutBetween(video)
    {
      hide Endpoint.LanesOk, Endpoint.OneLane, Endpoint.TimedOk, Endpoint.SourcesOk, Endpoint.EndedOk, Endpoint.Current,
           Endpoint.CurrentUnit, Endpoint.CutBetween, AtFrameEnd, Untagged, Outbox.Committed;
      UnitIsCut(this);
      fd := fresh_;
      reliableLinkUp := true;
      rx.bytes := [];
    }

    /** Stopped, started again, and reopened. What the new descriptor takes is whole
        frames from its first byte on exactly if the I/O thread ended with the control
        and the video unit cut between two of its frames, or not begun. */
    method Restart(fresh_: Fd)
      requires Valid() && fresh_.accepted == [] && fresh_ != fd
      modifies this, reliable, rx
      ensures Valid() && fd == fresh_ && ended == old(ended + Last())
      ensures Link().before == old(ctrl.Partial() + video.Partial())
      ensures StartsWhole(Link()) <==> old(CutBetween(ctrl) && CutBetween(video))
    {
      hide Endpoint.Valid, Endpoint.Last, Endpoint.Offered, Outbox.InFlightActive, StartsWhole, AtFrameEnd;
      LanesAreSeparate(this);
      Stop();
      ReliableNotCut(this);
      AdoptFd(fresh_);
    }

    // ---- the I/O thread -------------------------------------------------------

    /** Take the next timed frame if none is active, and stamp it, in place, unless
        some of it is already on the wire. */
    method StampTimed(stampNs: int)
      requires Valid() && fd != null && AtBoundary() && (timedActive.Some? || timedQueue != [])
      modifies this`timedActive, this`timedQueue, this`timedNow
      ensures Valid() && timedActive.Some?
      ensures FramedAs(codec, timedActive.value.bytes, timedActive.value.frame.msg)
      ensures old(timedActive.Some? && timedActive.value.offset > 0) ==>
        timedActive == old(timedActive) && timedNow == old(timedNow)
      ensures !old(timedActive.Some? && timedActive.value.offset > 0) ==>
        var was := if old(timedActive).Some? then old(timedActive).value.frame else old(timedQueue)[0];
        && timedActive.value.frame == was.(msg := was.finalize(was.msg, stampNs)) && timedActive.value.offset == 0
        && timedNow == (if old(timedActive).Some? then old(timedNow).(stamps := old(timedNow).stamps + [stampNs])
                        else TimedOut(|timedOffered| - |old(timedQueue)|, [stampNs]))
      ensures timedQueue == (if old(timedActive).Some? then old(timedQueue) else old(timedQueue)[1..])
      ensures SoFar() == old(SoFar())
    {
      hide Endpoint.LanesOk, Endpoint.OneLane, Endpoint.SourcesOk, Endpoint.EndedOk, Endpoint.StreamOk,
           Endpoint.AtBoundary, Endpoint.CurrentUnit, EncodeFramed;
      if timedActive.Some? && timedActive.value.offset > 0 { return; }
      TimedUnit();
      if timedActive.None? { TakeTimed(); }
      Stamp(stampNs);
      TimedUnit();
    }

    method TakeTimed()
      requires Valid() && fd != null && AtBoundary() && timedActive.None? && timedQueue != []
      modifies this`timedActive, this`timedQueue, this`timedNow
      ensures Valid() && timedActive == Some(TimedActive(old(timedQueue)[0], [], 0))
      ensures timedQueue == old(timedQueue)[1..]
      ensures timedNow == TimedOut(|timedOffered| - |old(timedQueue)|, [])
    {
      hide Endpoint.LanesOk, Endpoint.OneLane, Endpoint.SourcesOk, Endpoint.EndedOk, Endpoint.StreamOk,
           Endpoint.AtBoundary, FramedAs;
      AtRest();
      timedNow := TimedOut(|timedOffered| - |timedQueue|, []);
      timedActive := Some(TimedActive(timedQueue[0], [], 0));
      timedQueue := timedQueue[1..];
      TimedSoFarNow();
    }

    /** No lane is mid-frame. */
    lemma AtRest()
      requires StreamOk() && fd != null && AtBoundary() && !TimedStarted()
      ensures AllFramed(codec, Untagged(done)) && Taken() == Flat(Untagged(done)) + []
    {
      hide Flat, AllFramed;
    }

    method Stamp(stampNs: int)
      requires Valid() && fd != null && AtBoundary() && timedActive.Some? && timedActive.value.offset == 0
      modifies this`timedActive, this`timedNow
      ensures Valid()
      ensures var f := old(timedActive).value.frame;
        && timedActive.Some? && timedActive.value.offset == 0
        && timedActive.value.frame == f.(msg := f.finalize(f.msg, stampNs))
        && FramedAs(codec, timedActive.value.bytes, timedActive.value.frame.msg)
      ensures timedNow == old(timedNow).(stamps := old(timedNow).stamps + [stampNs])
    {
      hide Endpoint.LanesOk, Endpoint.OneLane, Endpoint.SourcesOk, Endpoint.EndedOk, Endpoint.StreamOk,
           Endpoint.AtBoundary, EncodeFramed;
      AtRest();
      var f := timedActive.value;
      var msg := f.frame.finalize(f.frame.msg, stampNs);
      ghost var stamps := timedNow.stamps + [stampNs];
      assert stamps[..|stamps| - 1] == timedNow.stamps;
      timedNow := timedNow.(stamps := stamps);
      timedActive := Some(f.(frame := f.frame.(msg := msg), bytes := EncodeFramed(codec, msg)));
      TimedSoFarNow();
    }

    /** Start or go on with the timed frame: one write. */
    method PumpTimed(link: Fd, stampNs: int) returns (n: int)
      requires Valid() && fd == link && AtBoundary()
      modifies this`timedActive, this`timedQueue, this`timedNow, this`timedPending, this`timedSent, this`done, link
      ensures Valid() && AtBoundary() && Further(old(SoFar()), SoFar())
      ensures old(timedPending) > 0 ==> link.writes == old(link.writes) + 1
      ensures old(timedPending) > 0 ==> TimedServed() && (n <= 0 ==> timedActive.Some?)
    {
      hide Endpoint.Valid, Endpoint.AtBoundary, FramedAs, Further;
      FurtherSelf(SoFar());
      TimedPendingIs();
      if timedActive.None? && timedQueue == [] { return 0; }
      StampTimed(stampNs);
      n := WriteStamped(link);
    }

    lemma TimedPendingIs()
      requires Valid()
      ensures timedPending > 0 <==> timedActive.Some? || timedQueue != []
    {
      hide Endpoint.LanesOk, Endpoint.OneLane, Endpoint.SourcesOk, Endpoint.EndedOk, Endpoint.StreamOk, ActiveOk,
           OutBefore;
    }

    /** The active timed frame, or else the one that waits longest, is out whole, or is
        active now. */
    twostate predicate TimedServed()
      reads this`timedActive, this`timedQueue, this`timedSent, this`timedNow, this`timedOffered, this`done
    {
      var number := if old(timedActive).Some? then old(timedNow).number else |timedOffered| - |old(timedQueue)|;
      && timedQueue == (if old(timedActive).Some? || old(timedQueue) == [] then old(timedQueue)
                        else old(timedQueue)[1..])
      && if timedActive.Some? then timedNow.number == number && timedSent == old(timedSent) && done == old(done)
         else
           && |timedSent| == |old(timedSent)| + 1 && timedSent[..|old(timedSent)|] == old(timedSent)
           && timedSent[|old(timedSent)|].number == number
           && |done| == |old(done)| + 1 && done[..|old(done)|] == old(done) && done[|old(done)|].lane == Timed
    }

    method WriteStamped(link: Fd) returns (n: int)
      requires Valid() && fd == link && AtBoundary()
      requires timedActive.Some? && FramedAs(codec, timedActive.value.bytes, timedActive.value.frame.msg)
      modifies this`timedActive, this`timedPending, this`timedSent, this`done, link
      ensures Valid() && AtBoundary() && Further(old(SoFar()), SoFar())
      ensures link.writes == old(link.writes) + 1 && (n <= 0 ==> timedActive.Some?)
      ensures TimedStep(old(timedActive), timedActive, n, old(done), done, old(timedSent), timedSent, timedNow)
    {
      hide Endpoint.Valid, Endpoint.CurrentUnit, Endpoint.AtBoundary, FramedAs, Further;
      TimedUnit();
      ghost var unit, taken := CurrentUnit(), Rest(timedActive);
      n := WriteTimed(link);
      TimedUnit();
      assert done == old(done) + done[|old(done)|..];
      WroteOn(before, old(link.accepted), if n < 0 then [] else taken[..n], old(done), unit, done[|old(done)|..],
              CurrentUnit());
    }

    /** Which frames are under way when only the timed lane may be. */
    lemma TimedUnit()
      requires Valid() && AtBoundary()
      ensures CurrentUnit() == if TimedStarted() then [Tagged(Timed, timedActive.value.bytes)] else []
    {
      hide Accounted, EntriesFramed, Flat, Endpoint.TimedOk, Endpoint.SourcesOk, Endpoint.EndedOk, Endpoint.StreamOk;
    }

    /** One write of the stamped frame. */
    method WriteTimed(link: Fd) returns (n: int)
      requires Valid() && fd == link && AtBoundary()
      requires timedActive.Some? && FramedAs(codec, timedActive.value.bytes, timedActive.value.frame.msg)
      modifies this`timedActive, this`timedPending, this`timedSent, this`done, link
      ensures Valid() && AtBoundary()
      ensures link.writes == old(link.writes) + 1 && n == link.Answer(old(link.writes), |Rest(old(timedActive))|)
      ensures link.accepted == old(link.accepted) + (if n < 0 then [] else Rest(old(timedActive))[..n])
      ensures TimedStep(old(timedActive), timedActive, n, old(done), done, old(timedSent), timedSent, timedNow)
    {
      hide Endpoint.LanesOk, Endpoint.OneLane, Endpoint.TimedOk, Endpoint.SourcesOk, Endpoint.EndedOk,
           Endpoint.StreamOk, Endpoint.Current, Endpoint.AtBoundary, FramedAs;
      TimedSoFar();
      var f := timedActive.value;
      n := link.WriteSome(f.bytes[f.offset..]);
      if n <= 0 {
        TimedSoFarNow();
        return;
      }
      assert f.bytes[f.offset..][..n] == f.bytes[f.offset..f.offset + n];
      assert Taken() == old(Taken()) + f.bytes[f.offset..f.offset + n];
      Advance(Flat(Untagged(done)), f.bytes, f.offset, n);
      if f.offset + n == |f.bytes| {
        TimedWhole();
      } else {
        TimedPart(f.offset + n);
      }
    }

    /** What the fd has taken, when only the timed lane may be mid-frame. */
    lemma TimedSoFar()
      requires StreamOk() && TimedOk() && fd != null && AtBoundary() && timedActive.Some?
      requires FramedAs(codec, timedActive.value.bytes, timedActive.value.frame.msg) && codec.Valid()
      ensures AllFramed(codec, Untagged(done)) && timedActive.value.offset < |timedActive.value.bytes|
      ensures Taken() == Flat(Untagged(done)) + timedActive.value.bytes[..timedActive.value.offset]
    {
      hide Flat, AllFramed, EncodeFramed, DecodeRun, FindZero, OutBefore;
      FramedRun(codec, timedActive.value.frame.msg);
    }

    lemma TimedSoFarNow()
      requires fd != null && AtBoundary() && AllFramed(codec, Untagged(done))
      requires timedActive.Some? ==> timedActive.value.offset <= |timedActive.value.bytes|
      requires Taken() == Flat(Untagged(done)) +
        if timedActive.Some? then timedActive.value.bytes[..timedActive.value.offset] else []
      ensures StreamOk() && OneLane()
    {
      hide Flat, AllFramed;
    }

    /** Some of the active timed frame is out. */
    method TimedPart(offset: nat)
      requires codec.Valid() && fd != null && LanesOk() && TimedOk() && AtBoundary() && SourcesOk() && EndedOk()
      requires timedActive.Some? && FramedAs(codec, timedActive.value.bytes, timedActive.value.frame.msg)
      requires offset < |timedActive.value.bytes| && AllFramed(codec, Untagged(done))
      requires Taken() == Flat(Untagged(done)) + timedActive.value.bytes[..offset]
      modifies this`timedActive
      ensures Valid() && AtBoundary() && timedActive == Some(old(timedActive).value.(offset := offset))
    {
      hide Endpoint.LanesOk, Endpoint.OneLane, Endpoint.SourcesOk, Endpoint.EndedOk, Endpoint.StreamOk,
           Endpoint.AtBoundary, FramedAs, OutBefore;
      timedActive := Some(timedActive.value.(offset := offset));
      TimedSoFarNow();
    }

    /** The active timed frame is out. */
    method TimedWhole()
      requires codec.Valid() && fd != null && LanesOk() && TimedOk() && AtBoundary() && SourcesOk() && EndedOk()
      requires timedActive.Some? && FramedAs(codec, timedActive.value.bytes, timedActive.value.frame.msg)
      requires AllFramed(codec, Untagged(done)) && Taken() == Flat(Untagged(done)) + timedActive.value.bytes
      modifies this`timedActive, this`timedPending, this`timedSent, this`done
      ensures Valid() && AtBoundary() && timedActive.None?
      ensures done == old(done) + [Tagged(Timed, old(timedActive).value.bytes)]
      ensures timedSent == old(timedSent) + [timedNow]
    {
      hide Endpoint.LanesOk, Endpoint.OneLane, Endpoint.SourcesOk, Endpoint.EndedOk, Endpoint.StreamOk,
           Endpoint.AtBoundary, FramedAs, OutBefore, TailIs, TimedTrue, Of, Flat, AllFramed;
      ghost var f := timedActive.value.bytes;
      SourcesAre();
      OneMoreTimed(codec, done, f, timedSent, opening.timed, timedOffered, timedNow);
      FlatPush(done, Tagged(Timed, f));
      timedActive := None;
      timedPending := timedPending - 1;
      done := done + [Tagged(Timed, f)];
      timedSent := timedSent + [timedNow];
      LaterLimit(timedSent, timedNow.number + 1, |timedOffered| - |timedQueue|);
      SourcesAreNow();
      TimedSoFarNow();
    }

    /** The lane to serve: the one mid-frame if there is one, else control
        before reliable before video. */
    function Pick(): (lane: Outbox)
      reads ctrl, reliable, video
      ensures lane == ctrl || lane == reliable || lane == video
      ensures ctrl.InFlightActive() ==> lane == ctrl
      ensures !ctrl.InFlightActive() && reliable.InFlightActive() ==> lane == reliable
      ensures !ctrl.InFlightActive() && !reliable.InFlightActive() && video.InFlightActive() ==> lane == video
      ensures AtBoundary() && ctrl.queue != [] ==> lane == ctrl
      ensures AtBoundary() && ctrl.queue == [] && reliable.queue != [] ==> lane == reliable
    {
      if ctrl.InFlightActive() then ctrl
      else if reliable.InFlightActive() then reliable
      else if !video.InFlightActive() then
        if ctrl.HasPending() then ctrl else if reliable.HasPending() then reliable else video
      else video
    }

    ghost function TagOf(lane: Outbox): Lane
    {
      if lane == ctrl then Control else if lane == reliable then Reliable else Video
    }

    /** One drain of the picked lane. */
    method DrainPicked(link: Fd, pick: Outbox, nowUs: int)
      returns (ok: bool, ghost more: seq<Entry>, ghost gain: seq<byte>)
      requires Valid() && fd == link && timedActive.None? && pick == Pick()
      modifies this`done, pick, link
      ensures Valid() && pick.Drained(link) && pick.wrote == old(pick.wrote) + more
      ensures link.accepted == old(link.accepted) + gain
      ensures pick.Served(link, pick == reliable, nowUs)
      ensures done == old(done) + Tag(TagOf(pick), Frames(more))
      ensures old(AtBoundary()) && pick == ctrl ==> ctrl.BatchCommitted(link)
    {
      hide Endpoint.TimedOk, Endpoint.OneLane, Endpoint.SourcesOk, Endpoint.EndedOk, Endpoint.StreamOk,
           Endpoint.Current, Flat, Outbox.Committed, Outbox.Valid, Outbox.BatchCommitted, Outbox.Served,
           Outbox.Drained, AllFramed, EntriesFramed, TailIs, TimedTrue, Of, Tag, Untagged, Outbox.Sent,
           Outbox.Partial;
      OthersIdle(this);
      PartialsAre(pick);
      SentIs(pick);
      StreamIs(pick);
      SourcesAre();
      ghost var sent0, wrote0, partial0, flat0 := pick.Sent(), pick.wrote, pick.Partial(), Flat(Frames(pick.wrote));
      QueuedFramed(codec, pick);
      ok, more, gain := pick.DrainFrames(link, pick == reliable, nowUs);
      FlatMore(wrote0, more);
      SentIs(pick);
      StreamGrows(Flat(Untagged(done)), partial0, flat0, Flat(Frames(more)), pick.Partial(), sent0, gain, pick.Sent());
      TakenMore(old(Taken()), gain);
      NoteWritten(pick, wrote0, more);
    }

    /** The picked lane wrote `more` entries. */
    ghost method NoteWritten(pick: Outbox, wrote0: seq<Entry>, more: seq<Entry>)
      requires codec.Valid() && LanesOk() && TimedOk() && EndedOk() && OthersAreIdle(pick)
      requires fd != null && timedActive.None? && (pick == ctrl || pick == reliable || pick == video)
      requires pick.wrote == wrote0 + more && AllFramed(codec, Untagged(done))
      requires TailIs(Of(done, Control), if pick == ctrl then wrote0 else ctrl.wrote, opening.ctrl)
      requires TailIs(Of(done, Reliable), if pick == reliable then wrote0 else reliable.wrote, opening.reliable)
      requires TailIs(Of(done, Video), if pick == video then wrote0 else video.wrote, opening.video)
      requires opening.timed <= |timedSent|
      requires TimedTrue(codec, Of(done, Timed), timedSent[opening.timed..], timedOffered)
      requires Taken() == Flat(Untagged(done)) + Flat(Frames(more)) + pick.Partial()
      modifies this`done
      ensures Valid() && done == old(done) + Tag(TagOf(pick), Frames(more))
    {
      hide Endpoint.TimedOk, Endpoint.OneLane, Endpoint.SourcesOk, Endpoint.EndedOk, Endpoint.StreamOk,
           Endpoint.Current, Flat, Outbox.Valid, AllFramed, EntriesFramed, TailIs, TimedTrue, Of, Tag;
      CommittedFramed(codec, pick, more);
      LaneGrew(pick, wrote0, more);
      done := done + Tag(TagOf(pick), Frames(more));
      SourcesAreNow();
      OneLaneNow(pick);
      StreamIsNow(pick);
    }

    /** One turn of an outbox's. */
    method ServePicked(link: Fd, pick: Outbox, nowUs: int) returns (ok: bool)
      requires Valid() && fd == link && timedActive.None? && pick == Pick()
      modifies this`done, pick, link
      ensures Valid() && Further(old(SoFar()), SoFar()) && pick.Drained(link) && IsPrefix(old(done), done)
      ensures pick.Served(link, pick == reliable, nowUs)
      ensures old(AtBoundary()) && pick == ctrl ==> ctrl.BatchCommitted(link)
    {
      hide Endpoint.Valid, Endpoint.CurrentUnit, Tag, Further, Outbox.BatchCommitted, Outbox.Served,
           Outbox.InFlightActive;
      ghost var wrote0, unit0, done0, accepted0 := pick.wrote, pick.unit, done, link.accepted;
      LanesAreSeparate(this);
      OthersIdle(this);
      PickedUnit(pick);
      ghost var more, gain;
      ok, more, gain := DrainPicked(link, pick, nowUs);
      PickedUnit(pick);
      CommittedMore(pick, wrote0, unit0, more);
      AllGrows(TagOf(pick), unit0, more, pick.unit);
      WroteOn(before, accepted0, gain, done0, Tag(TagOf(pick), Frames(unit0)),
              Tag(TagOf(pick), Frames(more)), Tag(TagOf(pick), Frames(pick.unit)));
    }

    /** Which frames are under way when only `pick` may be. */
    lemma PickedUnit(pick: Outbox)
      requires Valid() && OthersAreIdle(pick) && timedActive.None?
      requires pick == ctrl || pick == reliable || pick == video
      ensures CurrentUnit() == Tag(TagOf(pick), Frames(pick.unit))
    {
      hide Accounted, EntriesFramed, Flat, Endpoint.TimedOk, Endpoint.SourcesOk, Endpoint.EndedOk, Endpoint.StreamOk;
    }

    lemma TakenMore(taken: seq<byte>, gain: seq<byte>)
      requires fd != null && |gain| <= |fd.accepted|
      requires taken == before + fd.accepted[..|fd.accepted| - |gain|] && gain == fd.accepted[|fd.accepted| - |gain|..]
      ensures Taken() == taken + gain
    {}

    lemma SentIs(pick: Outbox)
      ensures pick.Sent() == Flat(Frames(pick.wrote)) + pick.Partial()
    {}

    lemma SourcesAre()
      requires SourcesOk()
      ensures TailIs(Of(done, Control), ctrl.wrote, opening.ctrl)
      ensures TailIs(Of(done, Reliable), reliable.wrote, opening.reliable)
      ensures TailIs(Of(done, Video), video.wrote, opening.video)
      ensures opening.timed <= |timedSent|
      ensures TimedTrue(codec, Of(done, Timed), timedSent[opening.timed..], timedOffered)
    {}

    lemma SourcesAreNow()
      requires TailIs(Of(done, Control), ctrl.wrote, opening.ctrl)
      requires TailIs(Of(done, Reliable), reliable.wrote, opening.reliable)
      requires TailIs(Of(done, Video), video.wrote, opening.video)
      requires opening.timed <= |timedSent|
      requires TimedTrue(codec, Of(done, Timed), timedSent[opening.timed..], timedOffered)
      ensures SourcesOk()
    {}

    /** What the fd has taken, when only `pick` may be mid-frame. */
    lemma StreamIs(pick: Outbox)
      requires StreamOk() && fd != null && timedActive.None?
      requires ctrl.Partial() + reliable.Partial() + video.Partial() == pick.Partial()
      ensures AllFramed(codec, Untagged(done)) && Taken() == Flat(Untagged(done)) + pick.Partial()
    {}

    lemma StreamIsNow(pick: Outbox)
      requires fd != null && timedActive.None? && (pick == ctrl || pick == reliable || pick == video)
      requires OthersAreIdle(pick) && ctrl != reliable && ctrl != video && reliable != video
      requires AllFramed(codec, Untagged(done)) && Taken() == Flat(Untagged(done)) + pick.Partial()
      ensures StreamOk()
    {
      hide Flat, AllFramed;
      PartialsAre(pick);
    }

    ghost predicate OthersAreIdle(pick: Outbox)
      reads ctrl`inFlight, ctrl`inFlightOff, reliable`inFlight, reliable`inFlightOff, video`inFlight, video`inFlightOff
    {
      && (pick != ctrl ==> !ctrl.InFlightActive()) && (pick != reliable ==> !reliable.InFlightActive())
      && (pick != video ==> !video.InFlightActive())
    }

    lemma PartialsAre(pick: Outbox)
      requires pick == ctrl || pick == reliable || pick == video
      requires OthersAreIdle(pick) && ctrl != reliable && ctrl != video && reliable != video
      ensures ctrl.Partial() + reliable.Partial() + video.Partial() == pick.Partial()
    {}

    lemma OneLaneNow(pick: Outbox)
      requires timedActive.None? && (pick == ctrl || pick == reliable || pick == video) && OthersAreIdle(pick)
      requires ctrl != reliable && ctrl != video && reliable != video
      ensures OneLane()
    {}

    /** The timed lane is only mid-frame when no other is. */
    lemma TimedHasTurn()
      requires Valid()
      ensures timedActive.Some? ==> AtBoundary() && timedPending > 0
      ensures ctrl != reliable && ctrl != video && reliable != video && !Ages(ctrl.policy) && !Ages(reliable.policy)
      ensures ctrl.policy.drain.BatchAll?
    {
      hide Endpoint.SourcesOk, Endpoint.EndedOk, Endpoint.StreamOk;
    }

    /** The timed lane has the next turn: it is mid-frame, or it waits and no other is. */
    predicate TimedIsNext()
      reads this`timedActive, this`timedPending, ctrl`inFlight, ctrl`inFlightOff, reliable`inFlight,
            reliable`inFlightOff, video`inFlight, video`inFlightOff
    {
      timedActive.Some? || (timedPending != 0 && AtBoundary())
    }

    /** Every lane but `pick` is left alone, and the timed one too. */
    twostate predicate OthersUntouched(pick: Outbox)
      reads this`timedActive, this`timedQueue, this`timedSent, this`timedPending, ctrl, reliable, video
    {
      && timedActive == old(timedActive) && timedQueue == old(timedQueue) && timedSent == old(timedSent)
      && timedPending == old(timedPending)
      && (ctrl != pick ==> Untouched(ctrl)) && (reliable != pick ==> Untouched(reliable))
      && (video != pick ==> Untouched(video))
    }

    /** One turn of the pump; false when the pass is over. A timed frame that is due is
        served, and nothing else; otherwise the picked outbox, at this time. */
    method PumpTurn(nowNs: int, ghost was: Progress, ghost ended0: seq<Transcript>) returns (again: bool)
      requires Valid() && fd != null && Follows(fd, was, ended0)
      modifies this, ctrl, reliable, video, rx, fd, door`stalled, door`degradeHoldUntilNs
      ensures Valid() && (fd == old(fd) || (fd == null && !again)) && Follows(old(fd), was, ended0)
      ensures Offered() == old(Offered())
      ensures IsPrefix(old(video.cleared), video.cleared)
      ensures fd != null && old(TimedIsNext()) ==>
        && TimedServed() && again == timedActive.None? && fd.writes == old(fd.writes) + 1
        && Untouched(ctrl) && Untouched(reliable) && Untouched(video)
      ensures fd != null && !old(TimedIsNext()) ==>
        var pick := old(Pick()); pick.Served(fd, pick == reliable, Micros(nowNs)) && OthersUntouched(pick)
      ensures video.aged == old(video.aged) ||
        video.aged == old(video.aged) + AgedOut(video.policy, old(video.queue), Micros(nowNs))
      ensures fd != null ==> IsPrefix(old(ctrl.Committed()), ctrl.Committed())
      ensures fd != null ==> IsPrefix(old(timedSent), timedSent) && IsPrefix(old(done), done)
      ensures fd != null && old(AtBoundary() && timedPending == 0) ==>
        IsPrefix(old(ctrl.Committed() + ctrl.queue), ctrl.Committed())
      ensures again && !Ages(video.policy) ==> fd.writes > old(fd.writes)
      ensures !again && fd != null ==> Quiet()
      ensures fd != null ==> door.stalled == old(door.stalled)
    {
      hide Endpoint.Valid, Outbox.Committed, Endpoint.Offered, Endpoint.SoFar, Endpoint.Follows, Outbox.Served,
           Outbox.InFlightActive, AgedOut;
      TimedHasTurn();
      if timedActive.Some? || (timedPending != 0 && AtBoundary()) {
        again := TimedTurn(nowNs, was, ended0);
      } else {
        again := LaneTurn(nowNs, was, ended0);
      }
    }

    /** The timed lane's turn. */
    method TimedTurn(nowNs: int, ghost was: Progress, ghost ended0: seq<Transcript>) returns (again: bool)
      requires Valid() && fd != null && Follows(fd, was, ended0) && AtBoundary() && timedPending > 0
      modifies this, ctrl, reliable, video, rx, fd, door`stalled, door`degradeHoldUntilNs
      ensures Valid() && (fd == old(fd) || (fd == null && !again)) && Follows(old(fd), was, ended0)
      ensures Offered() == old(Offered()) && video.aged == old(video.aged)
      ensures IsPrefix(old(video.cleared), video.cleared)
      ensures fd != null ==>
        && TimedServed() && again == timedActive.None? && fd.writes == old(fd.writes) + 1
        && Untouched(ctrl) && Untouched(reliable) && Untouched(video) && door.stalled == old(door.stalled)
    {
      hide Endpoint.LanesOk, Endpoint.OneLane, Endpoint.TimedOk, Endpoint.SourcesOk, Endpoint.EndedOk,
           Endpoint.StreamOk, Outbox.Committed, Endpoint.Offered, Endpoint.SoFar, Endpoint.TimedServed, Further;
      ghost var start := SoFar();
      var progress := PumpTimed(fd, nowNs);
      FurtherTrans(was, start, SoFar());
      if progress < 0 {
        LoseLink(was, ended0);
        return false;
      }
      again := timedActive.None?;
    }

    /** The picked outbox's turn. */
    method LaneTurn(nowNs: int, ghost was: Progress, ghost ended0: seq<Transcript>) returns (again: bool)
      requires Valid() && fd != null && Follows(fd, was, ended0) && timedActive.None?
      modifies this, ctrl, reliable, video, rx, fd, door`stalled, door`degradeHoldUntilNs
      ensures Valid() && (fd == old(fd) || (fd == null && !again)) && Follows(old(fd), was, ended0)
      ensures Offered() == old(Offered())
      ensures IsPrefix(old(video.cleared), video.cleared)
      ensures fd != null ==>
        var pick := old(Pick()); pick.Served(fd, pick == reliable, Micros(nowNs)) && OthersUntouched(pick)
      ensures video.aged == old(video.aged) ||
        video.aged == old(video.aged) + AgedOut(video.policy, old(video.queue), Micros(nowNs))
      ensures fd != null ==> IsPrefix(old(ctrl.Committed()), ctrl.Committed()) && IsPrefix(old(done), done)
      ensures fd != null && old(AtBoundary()) ==> IsPrefix(old(ctrl.Committed() + ctrl.queue), ctrl.Committed())
      ensures again && !Ages(video.policy) ==> fd.writes > old(fd.writes)
      ensures !again && fd != null ==> Quiet()
      ensures fd != null ==> door.stalled == old(door.stalled)
    {
      hide Endpoint.LanesOk, Endpoint.OneLane, Endpoint.TimedOk, Endpoint.SourcesOk, Endpoint.EndedOk,
           Endpoint.StreamOk, Outbox.Committed, Endpoint.SoFar, Further, AgedOut, NextUnit, AfterNext;
      TimedHasTurn();
      ghost var start := SoFar();
      var pick := Pick();
      PickOrder(this);
      var ok := ServePicked(fd, pick, Micros(nowNs));
      FurtherTrans(was, start, SoFar());
      if !ok {
        LoseLink(was, ended0);
        return false;
      }
      if pick.InFlightActive() { return false; }
      again := ctrl.HasPending() || reliable.HasPending() || video.HasPending();
    }

    /** The link dies in a turn. */
    method LoseLink(ghost was: Progress, ghost ended0: seq<Transcript>)
      requires Valid() && fd != null && Further(was, SoFar()) && ended == ended0
      modifies this, ctrl, reliable, video, rx, door`stalled, door`degradeHoldUntilNs
      ensures Valid() && fd == null && Follows(old(fd), was, ended0)
      ensures Offered() == old(Offered()) && video.aged == old(video.aged)
      ensures IsPrefix(old(video.cleared), video.cleared)
    {
      hide Endpoint.LanesOk, Endpoint.OneLane, Endpoint.TimedOk, Endpoint.SourcesOk, Endpoint.EndedOk,
           Endpoint.StreamOk, Endpoint.Offered, Endpoint.SoFar, Further;
      LinkSoFar();
      MarkLinkDead();
    }

    lemma LinkSoFar()
      requires fd != null && SourcesOk()
      ensures ProgressOf(Link()) == SoFar() && Link().accepted == fd.accepted && Last() == [Link()]
    {}

    /** Why a pass ends early: the link stopped taking bytes, or nothing is
        queued in the outboxes. */
    predicate Quiet()
      reads this`timedActive, ctrl, reliable, video
    {
      || !AtBoundary() || timedActive.Some?
      || (ctrl.queue == [] && reliable.queue == [] && video.queue == [])
    }

    /** One pass of the I/O thread: turn after turn while the link keeps taking
        bytes, at most a fixed number of frames. `clock` is read anew on every turn,
        and between two turns producers make any calls they like. If the link dies in
        it, its transcript still tells what it took. */
    method Pump(clock: nat -> int, producers: nat -> seq<ProducerCall>)
      requires Valid() && door.Valid()
      modifies this, ctrl, reliable, video, rx, fd, door
      ensures Valid() && door.Valid() && (fd == old(fd) || fd == null)
      ensures old(fd) != null ==> Follows(old(fd), old(SoFar()), old(ended))
      ensures old(fd) == null ==> ended == old(ended)
      ensures MoreOffered(old(Offered()), Offered())
      // A timed frame that is due goes out before any other, or is active still.
      ensures fd != null && old(TimedIsNext()) ==>
        TimedFirst(old(TimedNext()), |old(timedSent)|, |old(done)|)
      // What is aged out of the video lane was stale at the time of some turn.
      ensures AgedBy(video.policy, video.aged, |old(video.aged)|, clock, MAX_FRAMES_PER_PUMP)
      // Video a client no longer wants is shed, and new evictions have been seen.
      ensures old(fd != null && bulkFlush && !video.InFlightActive()) ==>
        IsPrefix(old(video.cleared + video.queue), video.cleared)
      ensures fd != null ==> evictionsSeen == video.dropped
      // Every control frame queued at a frame boundary is committed.
      ensures fd != null && old(AtBoundary() && timedPending == 0) ==>
        IsPrefix(old(ctrl.Committed() + ctrl.queue), ctrl.Committed())
      // It ends for a full link, empty queues, or the frame budget.
      ensures fd != null && !Ages(video.policy) ==>
        Quiet() || fd.writes >= old(fd.writes) + MAX_FRAMES_PER_PUMP
      // A link that takes bytes is not stalled.
      ensures fd != null && |fd.accepted| > |old(fd.accepted)| ==> !door.stalled
    {
      hide Endpoint.Valid, Endpoint.Quiet, Endpoint.Follows, Endpoint.Offered, Endpoint.AtBoundary, Endpoint.SoFar,
           Endpoint.Pending, Endpoint.TimedIsNext, Endpoint.TimedNext, Door.Valid, IsPrefix, MoreOffered,
           Outbox.Committed, Endpoint.Current, Endpoint.TimedFirst, AgedBy;
      OffersSelf(Offered());
      if fd == null {
        NoneAged(video.policy, video.aged, clock);
        AgedLater(video.policy, video.aged, |video.aged|, clock, 0);
        return;
      }
      LanesAreSeparate(this);
      ghost var was, ended0 := SoFar(), ended;
      var accepted0 := fd.accepted;
      FlushBulk();
      FollowsSelf();
      var i := Turns(clock, producers, was, ended0);
      if fd == null { return; }
      UpdateStallState(|fd.accepted| - |accepted0|, clock(i));
    }

    /** The turns of a pass. */
    method Turns(clock: nat -> int, producers: nat -> seq<ProducerCall>, ghost was: Progress,
                 ghost ended0: seq<Transcript>)
      returns (i: nat)
      requires Valid() && door.Valid() && fd != null && Follows(fd, was, ended0)
      modifies this, ctrl, reliable, video, rx, fd, door
      ensures Valid() && door.Valid() && (fd == old(fd) || fd == null) && Follows(old(fd), was, ended0)
      ensures MoreOffered(old(Offered()), Offered())
      ensures IsPrefix(old(video.cleared), video.cleared)
      ensures fd != null && old(TimedIsNext()) ==>
        TimedFirst(old(TimedNext()), |old(timedSent)|, |old(done)|)
      ensures AgedBy(video.policy, video.aged, |old(video.aged)|, clock, MAX_FRAMES_PER_PUMP)
      ensures fd != null && old(AtBoundary() && timedPending == 0) ==>
        IsPrefix(old(ctrl.Committed() + ctrl.queue), ctrl.Committed())
      ensures fd != null && !Ages(video.policy) ==>
        Quiet() || fd.writes >= old(fd.writes) + MAX_FRAMES_PER_PUMP
    {
      hide Endpoint.Valid, Endpoint.Quiet, Endpoint.Follows, Endpoint.Offered, Endpoint.AtBoundary, Endpoint.SoFar,
           Endpoint.TimedIsNext, Endpoint.TimedNext, Door.Valid, IsPrefix, MoreOffered, Outbox.Committed,
           Endpoint.TimedFirst, AgedBy, AgedOut;
      OffersSelf(Offered());
      ghost var due := ctrl.Committed() + ctrl.queue;
      ghost var number, sent, out := TimedNext(), |timedSent|, |done|;
      PrefixSelf(video.cleared);
      NoneAged(video.policy, video.aged, clock);
      i := 0;
      var again := true;
      while again && i < MAX_FRAMES_PER_PUMP
        invariant i <= MAX_FRAMES_PER_PUMP
        invariant Valid() && door.Valid() && (fd == old(fd) || (fd == null && !again))
        invariant Follows(old(fd), was, ended0) && MoreOffered(old(Offered()), Offered())
        invariant IsPrefix(old(video.cleared), video.cleared)
        invariant again && !Ages(video.policy) ==> fd.writes >= old(fd.writes) + i
        invariant i == 0 && again ==>
          && AtBoundary() == old(AtBoundary()) && timedPending == old(timedPending)
          && TimedIsNext() == old(TimedIsNext()) && number == TimedNext() && sent == |timedSent| && out == |done|
          && due == ctrl.Committed() + ctrl.queue
        invariant fd != null && (i > 0 || !again) && old(TimedIsNext()) ==>
          TimedFirst(number, sent, out) && (again ==> |timedSent| > sent)
        invariant AgedBy(video.policy, video.aged, |old(video.aged)|, clock, i)
        invariant fd != null && (i > 0 || !again) && old(AtBoundary() && timedPending == 0) ==>
          IsPrefix(due, ctrl.Committed())
        invariant !again && fd != null ==> Quiet()
      {
        ghost var offers, aged, queue, cleared := Offered(), video.aged, video.queue, video.cleared;
        again := TurnThenProducers(clock(i), producers(i), was, ended0, due, number, sent, out);
        OffersTrans(old(Offered()), offers, Offered());
        PrefixTrans(old(video.cleared), cleared, video.cleared);
        AgedOn(video.policy, aged, |old(video.aged)|, clock, i, queue, video.aged);
        i := i + 1;
      }
      AgedLater(video.policy, video.aged, |old(video.aged)|, clock, i);
    }

    /** The number of the timed frame that is due next. */
    ghost function TimedNext(): int
      reads this`timedActive, this`timedNow, this`timedOffered, this`timedQueue
    {
      if timedActive.Some? then timedNow.number else |timedOffered| - |timedQueue|
    }

    /** That frame is out, the first of the lane's after `sent` and of the link's after
        `out` frames; or it is active and nothing is out after those. */
    ghost predicate TimedFirst(number: int, sent: nat, out: nat)
      reads this`timedActive, this`timedNow, this`timedSent, this`done
    {
      || (sent < |timedSent| && timedSent[sent].number == number && out < |done| && done[out].lane == Timed)
      || (timedActive.Some? && timedNow.number == number && |timedSent| == sent && |done| == out)
    }

    lemma FollowsSelf()
      requires fd != null
      ensures Follows(fd, SoFar(), ended)
    {
      FurtherSelf(SoFar());
    }

    /** A turn, and if another follows, what producers do before it. */
    method TurnThenProducers(nowNs: int, calls: seq<ProducerCall>, ghost was: Progress, ghost ended0: seq<Transcript>,
                             ghost due: seq<Entry>, ghost number: int, ghost sent: nat, ghost out: nat)
      returns (again: bool)
      requires Valid() && door.Valid() && fd != null && Follows(fd, was, ended0)
      modifies this, ctrl, reliable, video, rx, fd, door
      ensures Valid() && door.Valid() && (fd == old(fd) || (fd == null && !again))
      ensures Follows(old(fd), was, ended0) && MoreOffered(old(Offered()), Offered())
      ensures IsPrefix(old(video.cleared), video.cleared)
      ensures fd != null && old(TimedIsNext() && number == TimedNext() && sent == |timedSent| && out == |done|) ==>
        TimedFirst(number, sent, out) && (again ==> |timedSent| > sent)
      ensures fd != null && old(TimedFirst(number, sent, out) && |timedSent| > sent) ==>
        TimedFirst(number, sent, out) && |timedSent| > sent
      ensures video.aged == old(video.aged) ||
        video.aged == old(video.aged) + AgedOut(video.policy, old(video.queue), Micros(nowNs))
      ensures fd != null && old(IsPrefix(due, ctrl.Committed())) ==> IsPrefix(due, ctrl.Committed())
      ensures fd != null && old(AtBoundary() && timedPending == 0 && due == ctrl.Committed() + ctrl.queue) ==>
        IsPrefix(due, ctrl.Committed())
      ensures again && !Ages(video.policy) ==> fd.writes > old(fd.writes)
      ensures !again && fd != null ==> Quiet()
    {
      hide Endpoint.Valid, Quiet, Door.Valid, Endpoint.Current, Endpoint.CurrentUnit, Outbox.Served, AgedOut;
      again := PumpTurn(nowNs, was, ended0);
      OffersSelf(Offered());
      if again { Produce(calls); }
    }

    /** Shed the queued video a client no longer wants, at a frame boundary of
        its lane only. */
    method FlushBulk()
      requires Valid() && fd != null
      modifies this`bulkFlush, video
      ensures Valid() && Current() == old(Current()) && AtBoundary() == old(AtBoundary()) && SoFar() == old(SoFar())
      ensures video.offered == old(video.offered) && video.aged == old(video.aged)
      ensures TimedIsNext() == old(TimedIsNext())
      ensures video.cleared ==
        old(video.cleared) + if old(bulkFlush && !video.InFlightActive()) then old(video.queue) else []
      ensures old(bulkFlush && !video.InFlightActive()) ==> video.queue == [] && !bulkFlush
      ensures !old(bulkFlush && !video.InFlightActive()) ==>
        video.queue == old(video.queue) && bulkFlush == old(bulkFlush)
    {
      hide Flat, EncodeFramed, Accounted, EntriesFramed, AllHold, TailIs, TimedTrue, OutBefore, AllFramed, Chained,
           GoesOnFrom;
      if bulkFlush && !video.InFlightActive() {
        video.Clear();
        bulkFlush := false;
      }
    }

    predicate Pending()
      reads this`timedPending, ctrl, reliable, video
    {
      ctrl.HasPending() || reliable.HasPending() || video.HasPending() || timedPending != 0
    }

    /** After a pass that took `accepted` bytes. New evictions arm the keyframes-only
        hold; progress, or nothing to send, restarts the stall clock, and bytes taken
        end a stall; otherwise a clock that has run out starts one. */
    method UpdateStallState(accepted: int, nowNs: int)
      requires Valid()
      modifies this`evictionsSeen, this`lastProgressNs, this`bulkFlush, door`stalled, door`degradeHoldUntilNs
      ensures Valid() && evictionsSeen == video.dropped
      ensures door.degradeHoldUntilNs ==
        if video.dropped != old(evictionsSeen) then nowNs + degradeHoldNs else old(door.degradeHoldUntilNs)
      ensures door.stalled ==
        if accepted > 0 then false
        else old(door.stalled) ||
             (Pending() && old(lastProgressNs) != 0 && nowNs - old(lastProgressNs) > stallNs)
      ensures lastProgressNs ==
        if accepted > 0 || !Pending() || old(lastProgressNs) == 0 then nowNs else old(lastProgressNs)
      ensures bulkFlush == (old(bulkFlush) || (old(door.stalled) && accepted > 0))
    {
      hide Endpoint.LanesOk, Endpoint.OneLane, Endpoint.TimedOk, Endpoint.SourcesOk, Endpoint.EndedOk,
           Endpoint.StreamOk, Endpoint.Pending;
      if video.dropped != evictionsSeen {
        evictionsSeen := video.dropped;
        door.degradeHoldUntilNs := nowNs + degradeHoldNs;
      }
      if accepted > 0 || !Pending() {
        lastProgressNs := nowNs;
        if door.stalled && accepted > 0 {
          door.stalled := false;
          bulkFlush := true;
        }
        return;
      }
      if lastProgressNs == 0 {
        lastProgressNs := nowNs;
      } else if nowNs - lastProgressNs > stallNs && !door.stalled {
        door.stalled := true;
      }
    }

    /** One read: `chunk` is what arrived, nothing at end of file. The messages
        it completes go to the owner. */
    method ReadInbound(table: array<nat>, chunk: Option<seq<byte>>) returns (delivered: seq<Message>)
      requires Valid() && fd != null && TableHolds(table[..])
      modifies this, ctrl, reliable, video, rx, door`stalled, door`degradeHoldUntilNs
      ensures Valid() && Follows(old(fd), old(SoFar()), old(ended))
      ensures chunk.None? ==> fd == null && delivered == []
      ensures chunk.Some? ==>
        && fd == old(fd) && Current() == old(Current())
        && delivered == Messages(codec, old(rx.bytes) + chunk.value)
        && rx.bytes == Remainder(old(rx.bytes) + chunk.value)
    {
      hide Endpoint.LanesOk, Endpoint.OneLane, Endpoint.TimedOk, Endpoint.EndedOk, AllFramed, Messages, Remainder,
           TableHolds, TailIs, TimedTrue, Endpoint.SoFar, Further;
      FurtherSelf(SoFar());
      LinkSoFar();
      if chunk.None? {
        MarkLinkDead();
        return [];
      }
      delivered := rx.Receive(codec, table, chunk.value);
    }

    /** The picked lane wrote `more` entries. */
    lemma LaneGrew(pick: Outbox, wrote0: seq<Entry>, more: seq<Entry>)
      requires pick == ctrl || pick == reliable || pick == video
      requires ctrl != reliable && ctrl != video && reliable != video && pick.wrote == wrote0 + more
      requires TailIs(Of(done, Control), if pick == ctrl then wrote0 else ctrl.wrote, opening.ctrl)
      requires TailIs(Of(done, Reliable), if pick == reliable then wrote0 else reliable.wrote, opening.reliable)
      requires TailIs(Of(done, Video), if pick == video then wrote0 else video.wrote, opening.video)
      requires AllFramed(codec, Untagged(done)) && AllFramed(codec, Frames(more))
      ensures var done' := done + Tag(TagOf(pick), Frames(more));
        && TailIs(Of(done', Control), ctrl.wrote, opening.ctrl)
        && TailIs(Of(done', Reliable), reliable.wrote, opening.reliable)
        && TailIs(Of(done', Video), video.wrote, opening.video)
        && Of(done', Timed) == Of(done, Timed)
        && AllFramed(codec, Untagged(done'))
        && Flat(Untagged(done')) == Flat(Untagged(done)) + Flat(Frames(more))
    {
      hide Of, Flat, IsFramed;
      var tag, fs := TagOf(pick), Frames(more);
      var tail := Tag(tag, fs);
      OfAppend(done, tail, Control);
      OfAppend(done, tail, Reliable);
      OfAppend(done, tail, Video);
      OfAppend(done, tail, Timed);
      OfTag(tag, fs, Control);
      OfTag(tag, fs, Reliable);
      OfTag(tag, fs, Video);
      OfTag(tag, fs, Timed);
      UntaggedAppend(done, tail);
      UntaggedTag(tag, fs);
      TailGrows(Of(done, tag), wrote0, if pick == ctrl then opening.ctrl else if pick == reliable then opening.reliable
                                       else opening.video, more);
    }
  }

  /** A link that has taken nothing. */
  lemma NothingSent(codec: HeaderCodec)
    ensures forall lane :: Of([], lane) == []
    ensures TailIs([], [], 0) && TimedTrue(codec, [], [][0..], []) && OutBefore([], 0)
    ensures AllHold(codec, [], Offers([], [], [], [])) && Untagged([]) == [] && Flat([]) == []
  {}

  lemma TailGrows(fs: seq<FrameBytes>, wrote: seq<Entry>, n: nat, more: seq<Entry>)
    requires TailIs(fs, wrote, n)
    ensures TailIs(fs + Frames(more), wrote + more, n)
  {
    assert (wrote + more)[n..] == wrote[n..] + more;
  }

  lemma ShutsMore(stalled: bool, os: seq<Outgoing>, i: nat)
    requires i < |os|
    ensures Shuts(stalled, os[..i + 1]) == Shuts(stalled, os[..i]) + if Shut(stalled, os[i]) then 1 else 0
  {
    assert os[..i + 1][..i] == os[..i];
  }

  lemma TimedStays(codec: HeaderCodec, fs: seq<FrameBytes>, outs: seq<TimedOut>, offered: seq<TimedFrame>,
                   frame: TimedFrame)
    requires TimedTrue(codec, fs, outs, offered)
    ensures TimedTrue(codec, fs, outs, offered + [frame])
  {
    hide FramedAs;
  }

  /** A timed frame went out whole. */
  lemma OneMoreTimed(codec: HeaderCodec, done: seq<Tagged>, f: FrameBytes, sent: seq<TimedOut>, n: nat,
                     offered: seq<TimedFrame>, out: TimedOut)
    requires n <= |sent| && TimedTrue(codec, Of(done, Timed), sent[n..], offered)
    requires out.number < |offered| && FramedAs(codec, f, Stamped(offered[out.number], out.stamps))
    requires OutBefore(sent, out.number) && AllFramed(codec, Untagged(done))
    ensures var done' := done + [Tagged(Timed, f)];
      && TimedTrue(codec, Of(done', Timed), (sent + [out])[n..], offered) && OutBefore(sent + [out], out.number + 1)
      && Of(done', Control) == Of(done, Control) && Of(done', Reliable) == Of(done, Reliable)
      && Of(done', Video) == Of(done, Video) && AllFramed(codec, Untagged(done'))
  {
    hide FramedAs, Stamped, Of, AllFramed;
    assert (sent + [out])[n..] == sent[n..] + [out];
    OneMoreFramed(codec, Untagged(done), f, Stamped(offered[out.number], out.stamps));
    UntaggedAppend(done, [Tagged(Timed, f)]);
    UntaggedTag(Timed, [f]);
    assert Tag(Timed, [f]) == [Tagged(Timed, f)];
    forall lane
      ensures Of(done + [Tagged(Timed, f)], lane) == Of(done, lane) + if lane == Timed then [f] else []
    {
      OfAppend(done, Tag(Timed, [f]), lane);
      OfTag(Timed, [f], lane);
    }
  }

  lemma OneMoreFramed(codec: HeaderCodec, fs: seq<FrameBytes>, f: FrameBytes, m: Message)
    requires AllFramed(codec, fs) && FramedAs(codec, f, m)
    ensures AllFramed(codec, fs + [f])
  {
    hide FramedAs;
    assert IsFramed(codec, f);
  }

  /** Only the picked lane has partial bytes. */
  lemma OthersIdle(e: Endpoint)
    requires e.ctrl != e.reliable && e.ctrl != e.video && e.reliable != e.video && e.OneLane()
    ensures e.OthersAreIdle(e.Pick())
  {}

  lemma OffersSelf(a: Offers)
    ensures MoreOffered(a, a)
  {}

  lemma OffersTrans(a: Offers, b: Offers, c: Offers)
    requires MoreOffered(a, b) && MoreOffered(b, c)
    ensures MoreOffered(a, c)
  {}

  /** One control message, on a link that will take `taken` bytes of it. */
  method OneQueued(codec: HeaderCodec, m: Message, taken: nat) returns (e: Endpoint, first: Fd)
    requires codec.Valid()
    ensures fresh(e) && fresh(e.ctrl) && fresh(e.reliable) && fresh(e.video) && fresh(e.rx) && fresh(e.door)
    ensures fresh(first)
    ensures e.Valid() && e.fd == first && e.codec == codec && e.before == [] && e.done == [] && e.timedActive.None?
    ensures e.AtBoundary()
    ensures e.ctrl.wrote == e.ctrl.unit == [] && e.ctrl.queue == [Entry(EncodeFramed(codec, m), 0, m.keyframe)]
    ensures e.ctrl.policy == CONTROL_POLICY && e.ctrl != e.reliable && (forall k :: first.outcome(k) == taken)
  {
    hide Endpoint.Valid, Endpoint.Current, Endpoint.CurrentUnit, Endpoint.Offered, Outbox.Valid, EncodeFramed, Bounded;
    first := new Fd(k => taken);
    e := new Endpoint(codec, first, LOSSLESS_POLICY, 0, 0);
    BoundedNothing(e.ctrl.policy, |EncodeFramed(codec, m)|);
    NothingUnderWay(e);
    e.QueueFramed(Outgoing(m, false, false, false), 0);
  }

  lemma NothingUnderWay(e: Endpoint)
    requires e.Valid() && e.AtBoundary()
    ensures e.ctrl.unit == []
  {
    hide Endpoint.OneLane, Endpoint.TimedOk, Endpoint.SourcesOk, Endpoint.EndedOk, Endpoint.StreamOk, Accounted, Flat;
  }

  /** The link takes all bytes of the message but the last. */
  method HalfWritten(codec: HeaderCodec, m: Message) returns (e: Endpoint, first: Fd)
    requires codec.Valid()
    ensures fresh(e) && fresh(e.ctrl) && fresh(e.reliable) && fresh(e.video) && fresh(e.rx) && fresh(e.door)
    ensures fresh(first)
    ensures e.Valid() && e.fd == first && e.ctrl.Valid() && e.ctrl != e.reliable && e.ctrl.policy == CONTROL_POLICY
    ensures var f := EncodeFramed(codec, m);
      && first.accepted == f[..|f| - 1] && e.ctrl.inFlight == Some(f) && e.ctrl.inFlightOff == |f| - 1
      && e.ctrl.wrote == [] && e.ctrl.queue == [] && e.ctrl.Committed() == [Entry(f, 0, m.keyframe)]
  {
    hide Outbox.Served, Outbox.Drained, Endpoint.Valid, Endpoint.Current, Endpoint.CurrentUnit, Outbox.Valid,
         EncodeFramed, Flat, Outbox.Partial;
    var f := EncodeFramed(codec, m);
    FramedRun(codec, m);
    e, first := OneQueued(codec, m, |f| - 1);
    ghost var queue := e.ctrl.queue;
    FlatOne(f);
    assert Frames(queue) == [f];
    var ok, _, _ := e.DrainPicked(first, e.Pick(), 0);
    TakenSoFar(e);
  }

  lemma BoundedNothing(policy: Policy, incoming: nat)
    ensures Bounded<Entry>(policy, [], incoming, SIZE) == []
  {}

  lemma TakenSoFar(e: Endpoint)
    requires e.Valid() && e.fd != null && e.timedActive.None? && e.before == [] && e.done == []
    requires e.ctrl.InFlightActive()
    ensures e.fd.accepted == e.ctrl.inFlight.value[..e.ctrl.inFlightOff] && e.ctrl.Valid()
  {
    hide Outbox.Valid, Of, TimedTrue, AllHold;
    e.PartialsAre(e.ctrl);
    FlatOfNone(Untagged(e.done));
    assert e.Taken() == e.fd.accepted;
  }

  /** For instance: a link takes all of a frame but its last byte, and stops; the next
      one is given what is left. It takes a byte no frame begins with, and of the
      message, which counts as written, nothing reaches either reader. */
  method StoppedMidFrame(codec: HeaderCodec, m: Message) returns (e: Endpoint, first: Fd, second: Fd)
    requires codec.Valid()
    ensures first.accepted + second.accepted == EncodeFramed(codec, m) && second.accepted == [0]
    ensures forall fs :: AllFramed(codec, fs) && fs != [] ==> !IsPrefix(second.accepted, Flat(fs))
    ensures Messages(codec, first.accepted) == Messages(codec, second.accepted) == []
    ensures Frames(e.ctrl.wrote) == [EncodeFramed(codec, m)]
  {
    hide Endpoint.Valid, Endpoint.Link, Endpoint.Offered, StartsWhole, Endpoint.CutBetween, Endpoint.SoFar,
         Outbox.Valid, EncodeFramed, Messages, AllFramed, Flat, Outbox.Sent, Outbox.Committed;
    e, first := HalfWritten(codec, m);
    SentPart(e.ctrl, EncodeFramed(codec, m), |first.accepted|);
    e.Stop();
    second := new Fd(k => 1);
    e.AdoptFd(second);
    NoBytes([]);
    var ok := e.ctrl.Drain(second, false, 0);
    RestIsOneZero(codec, m, first.accepted, e.ctrl);
  }

  /** And one that is harmless: a link takes the first of two messages committed
      together, and stops. The next one is given the second, and each reader has one. */
  method StoppedBetweenFrames(codec: HeaderCodec, m1: Message, m2: Message)
    returns (e: Endpoint, first: Fd, second: Fd)
    requires codec.Valid()
    ensures first.accepted == EncodeFramed(codec, m1) && second.accepted == EncodeFramed(codec, m2)
    ensures Messages(codec, first.accepted) == [Normalized(m1)]
    ensures Messages(codec, second.accepted) == [Normalized(m2)]
  {
    hide Endpoint.Valid, Endpoint.Link, Endpoint.Offered, StartsWhole, Endpoint.CutBetween, Endpoint.SoFar,
         Outbox.Valid, EncodeFramed, Messages, AllFramed, Flat, Outbox.Sent, Outbox.Committed, Normalized;
    var f1, f2 := EncodeFramed(codec, m1), EncodeFramed(codec, m2);
    e, first := HalfBatch(codec, m1, m2);
    SentPart(e.ctrl, f1 + f2, |f1|);
    e.Stop();
    second := new Fd(k => |f2|);
    e.AdoptFd(second);
    NoBytes([]);
    var ok := e.ctrl.Drain(second, false, 0);
    RestIsTheSecond(codec, m1, m2, e.ctrl);
  }

  /** Two control messages, on a link that will take the bytes of the first. */
  method TwoQueued(codec: HeaderCodec, m1: Message, m2: Message) returns (e: Endpoint, first: Fd)
    requires codec.Valid()
    ensures fresh(e) && fresh(e.ctrl) && fresh(e.reliable) && fresh(e.video) && fresh(e.rx) && fresh(e.door)
    ensures fresh(first)
    ensures e.Valid() && e.fd == first && e.codec == codec && e.before == [] && e.done == [] && e.timedActive.None?
    ensures var f1, f2 := EncodeFramed(codec, m1), EncodeFramed(codec, m2);
      && |f2| > 0 && Frames(e.ctrl.queue) == [f1, f2] && Flat(Frames(e.ctrl.queue)) == f1 + f2
      && e.ctrl.queue == [Entry(f1, 0, m1.keyframe), Entry(f2, 0, m2.keyframe)]
      && (forall k :: first.outcome(k) == |f1|)
    ensures e.AtBoundary() && e.ctrl.wrote == e.ctrl.unit == []
    ensures e.ctrl.policy == CONTROL_POLICY && e.ctrl != e.reliable
  {
    hide Endpoint.Valid, Endpoint.Current, Endpoint.CurrentUnit, Outbox.Valid, EncodeFramed, Flat, Bounded;
    var f1, f2 := EncodeFramed(codec, m1), EncodeFramed(codec, m2);
    FramedRun(codec, m2);
    e, first := OneQueued(codec, m1, |f1|);
    BoundedOne(e.ctrl.queue, |f2|);
    e.QueueFramed(Outgoing(m2, false, false, false), 0);
    FlatTwo(f1, f2);
    assert Frames(e.ctrl.queue) == [f1, f2];
  }

  /** Two messages are committed together, and the link takes the first. */
  method HalfBatch(codec: HeaderCodec, m1: Message, m2: Message) returns (e: Endpoint, first: Fd)
    requires codec.Valid()
    ensures fresh(e) && fresh(e.ctrl) && fresh(e.reliable) && fresh(e.video) && fresh(e.rx) && fresh(e.door)
    ensures fresh(first)
    ensures e.Valid() && e.fd == first && e.ctrl.Valid() && e.ctrl != e.reliable && e.ctrl.policy == CONTROL_POLICY
    ensures var f1, f2 := EncodeFramed(codec, m1), EncodeFramed(codec, m2);
      && |f2| > 0 && first.accepted == f1 && e.ctrl.inFlight == Some(f1 + f2) && e.ctrl.inFlightOff == |f1|
      && e.ctrl.wrote == [] && e.ctrl.queue == []
      && e.ctrl.Committed() == [Entry(f1, 0, m1.keyframe), Entry(f2, 0, m2.keyframe)]
  {
    hide Outbox.Served, Outbox.Drained, Endpoint.Valid, Endpoint.Current, Endpoint.CurrentUnit, Outbox.Valid,
         EncodeFramed, Flat, Outbox.Partial;
    e, first := TwoQueued(codec, m1, m2);
    var ok, _, _ := e.DrainPicked(first, e.Pick(), 0);
    TakenSoFar(e);
  }

  lemma BoundedOne(q: seq<Entry>, incoming: nat)
    requires |q| == 1
    ensures Bounded(CONTROL_POLICY, q, incoming, SIZE) == q
  {}

  lemma FlatTwo(a: FrameBytes, b: FrameBytes)
    ensures Flat([a, b]) == a + b
  {
    FlatOne(b);
    assert [a, b][1..] == [b];
  }

  lemma RestIsTheSecond(codec: HeaderCodec, m1: Message, m2: Message, o: Outbox)
    requires codec.Valid() && o.Valid() && !o.InFlightActive()
    requires o.Committed() ==
      [Entry(EncodeFramed(codec, m1), 0, m1.keyframe), Entry(EncodeFramed(codec, m2), 0, m2.keyframe)]
    ensures var f1, f2 := EncodeFramed(codec, m1), EncodeFramed(codec, m2);
      && o.Sent() == f1 + f2 && o.Sent()[|f1|..] == f2
      && Messages(codec, f1) == [Normalized(m1)] && Messages(codec, f2) == [Normalized(m2)]
  {
    hide EncodeFramed, Accounted, Flat, Sum, Messages, Normalized;
    var f1, f2 := EncodeFramed(codec, m1), EncodeFramed(codec, m2);
    UnitUnderWay(o);
    assert o.Committed() == o.wrote && Frames(o.wrote) == [f1, f2];
    FlatTwo(f1, f2);
    OneAlone(codec, m1);
    OneAlone(codec, m2);
  }

  lemma OneAlone(codec: HeaderCodec, m: Message)
    requires codec.Valid()
    ensures Messages(codec, EncodeFramed(codec, m)) == [Normalized(m)]
  {
    hide EncodeFramed, Messages, Normalized;
    FramedFirst(codec, m, []);
    NoDelimiter(codec, []);
    assert EncodeFramed(codec, m) + [] == EncodeFramed(codec, m);
  }

  lemma SentPart(o: Outbox, f: FrameBytes, n: nat)
    requires o.Valid() && o.wrote == [] && o.inFlight == Some(f) && o.inFlightOff == n < |f|
    ensures |o.Sent()| == n && o.InFlightActive() && o.InFlightSize() - o.inFlightOff == |f| - n
  {
    NoBytes([]);
  }

  lemma RestIsOneZero(codec: HeaderCodec, m: Message, taken: seq<byte>, o: Outbox)
    requires codec.Valid() && o.Valid() && !o.InFlightActive()
    requires var f := EncodeFramed(codec, m);
      taken == f[..|f| - 1] && o.Committed() == [Entry(f, 0, m.keyframe)]
    ensures var f := EncodeFramed(codec, m);
      && o.Sent() == f && o.Sent()[|f| - 1..] == [0] && taken + [0] == f
      && Messages(codec, taken) == Messages(codec, [0]) == [] && Frames(o.wrote) == [f]
    ensures forall fs :: AllFramed(codec, fs) && fs != [] ==> !IsPrefix([0], Flat(fs))
  {
    hide EncodeFramed, AllFramed, Accounted, Flat, Sum, DecodeRun;
    var f := EncodeFramed(codec, m);
    FramedRun(codec, m);
    PartialFrame(codec, m, |f| - 1);
    UnitUnderWay(o);
    FlatOne(f);
    assert o.Committed() == o.wrote;
    assert Frames(o.wrote) == [f];
    OnlyADelimiter(codec);
    forall fs | AllFramed(codec, fs) && fs != []
      ensures !IsPrefix([0], Flat(fs))
    {
      NoZeroFirst(codec, fs);
    }
  }

  lemma OnlyADelimiter(codec: HeaderCodec)
    ensures Messages(codec, [0]) == []
  {
    assert FindZero([0]) == 0;
    NoDelimiter(codec, []);
    assert [0][..0] == [] && [0][1..] == [];
  }

  /** Framed messages do not begin with a delimiter. */
  lemma NoZeroFirst(codec: HeaderCodec, fs: seq<FrameBytes>)
    requires codec.Valid() && AllFramed(codec, fs) && fs != []
    ensures Flat(fs) != [] && Flat(fs)[0] != 0
  {
    hide EncodeFramed, DecodeRun;
    assert IsFramed(codec, fs[0]);
    var m :| FramedAs(codec, fs[0], m);
    FramedRun(codec, m);
    assert Flat(fs) == fs[0] + Flat(fs[1..]);
    assert 0 !in fs[0][..FindZero(fs[0])] && fs[0][..FindZero(fs[0])][0] == fs[0][0];
  }

  /** A framed message is never empty. */
  lemma QueuedFramed(codec: HeaderCodec, o: Outbox)
    requires o.Valid() && EntriesFramed(codec, o.offered)
    ensures forall e :: e in o.queue ==> e.data != []
  {
    hide Outbox.Valid;
    LiveWasOffered(o);
    forall e | e in o.queue
      ensures e.data != []
    {
      assert e in o.Committed() + o.queue;
      assert IsFramed(codec, e.data);
    }
  }

  lemma CommittedFramed(codec: HeaderCodec, o: Outbox, es: seq<Entry>)
    requires o.Valid() && EntriesFramed(codec, o.offered)
    requires forall e :: e in es ==> e in o.wrote || e in o.unit
    ensures AllFramed(codec, Frames(es))
  {
    hide Outbox.Valid, IsFramed;
    LiveWasOffered(o);
    forall f | f in Frames(es)
      ensures IsFramed(codec, f)
    {
      var i :| 0 <= i < |es| && es[i].data == f;
      assert es[i] in o.Committed() + o.queue;
    }
  }

  lemma LanesAreSeparate(e: Endpoint)
    requires e.Valid()
    ensures e.ctrl != e.reliable && e.ctrl != e.video && e.reliable != e.video && e.OneLane()
  {}

  lemma PickOrder(e: Endpoint)
    requires e.ctrl != e.reliable && e.ctrl != e.video && e.reliable != e.video && e.OneLane()
    ensures !e.Pick().HasPending() ==>
      !e.ctrl.HasPending() && !e.reliable.HasPending() && !e.video.HasPending()
    ensures e.AtBoundary() && e.ctrl.queue != [] ==> e.Pick() == e.ctrl
    ensures forall o :: o in {e.ctrl, e.reliable, e.video} && o != e.Pick() ==> !o.InFlightActive()
  {}

  /** What a lane adds to its own stream is what the shared stream gains: the
      end of its unit, then whole units, then part of the next. */
  lemma StreamGrows(done: seq<byte>, partial: seq<byte>, lane: seq<byte>, more: seq<byte>, partial': seq<byte>,
                    sent: seq<byte>, gain: seq<byte>, sent': seq<byte>)
    requires sent == lane + partial && sent' == lane + more + partial' && sent' == sent + gain
    ensures done + partial + gain == done + more + partial'
  {
    assert sent + gain == lane + (partial + gain) && lane + more + partial' == lane + (more + partial');
    assert partial + gain == (lane + (partial + gain))[|lane|..];
    assert more + partial' == (lane + (more + partial'))[|lane|..];
    assert done + partial + gain == done + (partial + gain);
    assert done + more + partial' == done + (more + partial');
  }

  lemma CommittedMore(o: Outbox, wrote: seq<Entry>, unit: seq<Entry>, more: seq<Entry>)
    requires o.wrote == wrote + more && IsPrefix(wrote + unit, o.Committed())
    ensures IsPrefix(unit, more + o.unit)
  {
    var a, b := wrote + unit, wrote + more + o.unit;
    assert forall i :: 0 <= i < |unit| ==> unit[i] == a[|wrote| + i] == b[|wrote| + i] == (more + o.unit)[i];
  }

  /** A lane that commits more frames adds to what is out or under way. */
  lemma AllGrows(tag: Lane, unit: seq<Entry>, more: seq<Entry>, unit': seq<Entry>)
    requires IsPrefix(unit, more + unit')
    ensures IsPrefix(Tag(tag, Frames(unit)), Tag(tag, Frames(more)) + Tag(tag, Frames(unit')))
  {
    assert Tag(tag, Frames(more)) + Tag(tag, Frames(unit')) == Tag(tag, Frames(more + unit'));
  }

  /** The link took `gain`, and finished `more` of its frames. */
  lemma WroteOn(before: seq<byte>, accepted: seq<byte>, gain: seq<byte>, done: seq<Tagged>, unit: seq<Tagged>,
                more: seq<Tagged>, unit': seq<Tagged>)
    requires IsPrefix(unit, more + unit')
    ensures Further(Progress(before, accepted, done, done + unit),
                    Progress(before, accepted + gain, done + more, done + more + unit'))
  {
    assert done + more + unit' == done + (more + unit');
  }

  lemma FlatPush(done: seq<Tagged>, t: Tagged)
    ensures Flat(Untagged(done + [t])) == Flat(Untagged(done)) + t.frame
  {
    UntaggedAppend(done, [t]);
    assert Untagged([t]) == [t.frame];
    FlatOne(t.frame);
  }

  // ---- what a link took --------------------------------------------------------

  /** What the open link took is whole frames and then part of the unit under way,
      itself made of frames; lane by lane they are some of those handed in, in order. */
  lemma LinkHolds(e: Endpoint)
    requires e.Valid() && e.fd != null
    ensures Holds(e.codec, e.Link(), e.Offered())
  {
    hide Flat, Of, AllFramed, LaneTrue, TimedTrue, Outbox.Valid, Endpoint.Current, Endpoint.CurrentUnit, AllHold,
         EntriesFramed;
    CurrentStartsTheUnit(e);
    UnitHasOneLane(e);
    UntaggedAppend(e.done, e.CurrentUnit());
    UnitsFramed(e);
    UnitByLane(e);
    OfAppend(e.done, e.CurrentUnit(), Control);
    OfAppend(e.done, e.CurrentUnit(), Reliable);
    OfAppend(e.done, e.CurrentUnit(), Video);
    OfAppend(e.done, e.CurrentUnit(), Timed);
    LaneIsTail(e.ctrl, Of(e.done, Control), e.opening.ctrl);
    LaneIsTail(e.reliable, Of(e.done, Reliable), e.opening.reliable);
    LaneIsTail(e.video, Of(e.done, Video), e.opening.video);
    TimedIsTail(e);
  }

  lemma LanePartial(o: Outbox)
    requires o.Valid()
    ensures o.inFlightOff <= o.InFlightSize()
    ensures IsPrefix(o.Partial(), Flat(Frames(o.unit)))
    ensures !o.InFlightActive() ==> o.unit == [] && o.Partial() == [] && Frames(o.unit) == []
  {
    hide Flat, Accounted;
  }

  /** What the fd has taken beyond its whole frames starts the unit under way. */
  lemma CurrentStartsTheUnit(e: Endpoint)
    requires e.LanesOk() && e.OneLane() && e.TimedOk()
    ensures IsPrefix(e.Current(), Flat(Untagged(e.CurrentUnit())))
  {
    hide Flat, EntriesFramed, Outbox.Valid, Outbox.Partial, OutBefore, FramedAs;
    LanePartial(e.ctrl);
    LanePartial(e.reliable);
    LanePartial(e.video);
    if e.TimedStarted() {
      FlatOne(e.timedActive.value.bytes);
      assert Untagged(e.CurrentUnit()) == [e.timedActive.value.bytes];
    } else {
      UnitIsOneLane(Frames(e.ctrl.unit), Frames(e.reliable.unit), Frames(e.video.unit));
    }
  }

  lemma UnitHasOneLane(e: Endpoint)
    requires e.LanesOk() && e.OneLane()
    ensures OfOneLane(e.CurrentUnit())
  {
    hide Flat, EntriesFramed, Outbox.Valid;
    LanePartial(e.ctrl);
    LanePartial(e.reliable);
    LanePartial(e.video);
  }

  /** What is out of the unit under way, seen from the link's transcript. */
  lemma UnitLeftOver(t: Transcript, part: seq<byte>, ts: seq<Transcript>)
    requires t.before + t.accepted == Flat(Untagged(t.done)) + part
    ensures GoesOnFrom(part, ts + [t])
  {
    hide Flat;
  }

  /** A link that has taken nothing yet starts with a whole frame exactly if on every
      lane what is out of the unit under way is whole frames. */
  lemma UnitIsCut(e: Endpoint)
    requires e.LanesOk() && e.OneLane() && e.TimedOk() && e.StreamOk() && e.fd == null
    ensures AtFrameEnd(Untagged(e.done + e.CurrentUnit()), |e.before|) <==>
      e.CutBetween(e.ctrl) && e.CutBetween(e.reliable) && e.CutBetween(e.video)
  {
    hide Flat, EntriesFramed, Outbox.Valid, OutBefore, FramedAs, AtFrameEnd, Untagged, AllFramed;
    assert e.done + e.CurrentUnit() == e.CurrentUnit();
    assert Untagged([]) == [];
    FlatOfNone([]);
    IdleIsNotCut(e, e.ctrl);
    IdleIsNotCut(e, e.reliable);
    IdleIsNotCut(e, e.video);
    LanePartial(e.ctrl);
    LanePartial(e.reliable);
    LanePartial(e.video);
    UnitIsOneLane(Frames(e.ctrl.unit), Frames(e.reliable.unit), Frames(e.video.unit));
    NothingIsWhole();
  }

  lemma ReliableNotCut(e: Endpoint)
    requires e.Valid() && !e.reliable.InFlightActive()
    ensures e.CutBetween(e.reliable)
  {
    hide Endpoint.CutBetween, Outbox.Valid;
    IdleIsNotCut(e, e.reliable);
  }

  lemma NothingIsWhole()
    ensures AtFrameEnd([], 0)
  {
    var none: seq<FrameBytes> := [];
    assert none[..0] == none;
    FlatOfNone(none);
  }

  lemma IdleIsNotCut(e: Endpoint, o: Outbox)
    requires o.Valid()
    ensures !o.InFlightActive() ==> e.CutBetween(o)
  {
    hide Flat, Accounted;
    if !o.InFlightActive() {
      NothingIsWhole();
      assert Frames(o.unit) == [];
    }
  }

  lemma UnitIsOneLane(a: seq<FrameBytes>, b: seq<FrameBytes>, c: seq<FrameBytes>)
    ensures Untagged(Tag(Control, a) + Tag(Reliable, b) + Tag(Video, c)) == a + b + c
    ensures a == [] && b == [] ==> a + b + c == c
    ensures a == [] && c == [] ==> a + b + c == b
    ensures b == [] && c == [] ==> a + b + c == a
  {}

  lemma UnitsFramed(e: Endpoint)
    requires e.Valid()
    ensures AllFramed(e.codec, Untagged(e.done + e.CurrentUnit()))
  {
    hide Flat, IsFramed, Outbox.Valid, Endpoint.Current, TailIs, TimedTrue, AllHold, OutBefore;
    UntaggedAppend(e.done, e.CurrentUnit());
    if e.TimedStarted() {
      OneIsFramed(e.codec, e.timedActive.value.bytes, e.timedActive.value.frame.msg);
    } else {
      CommittedFramed(e.codec, e.ctrl, e.ctrl.unit);
      CommittedFramed(e.codec, e.reliable, e.reliable.unit);
      CommittedFramed(e.codec, e.video, e.video.unit);
      UnitIsOneLane(Frames(e.ctrl.unit), Frames(e.reliable.unit), Frames(e.video.unit));
    }
  }

  lemma OneIsFramed(codec: HeaderCodec, f: FrameBytes, m: Message)
    requires FramedAs(codec, f, m)
    ensures IsFramed(codec, f)
  {}

  /** The unit under way, lane by lane. */
  lemma UnitByLane(e: Endpoint)
    requires e.LanesOk() && e.OneLane() && e.TimedOk()
    ensures Of(e.CurrentUnit(), Control) == Frames(e.ctrl.unit)
    ensures Of(e.CurrentUnit(), Reliable) == Frames(e.reliable.unit)
    ensures Of(e.CurrentUnit(), Video) == Frames(e.video.unit)
    ensures Of(e.CurrentUnit(), Timed) ==
      if e.TimedStarted() then [e.timedActive.value.bytes] else []
  {
    hide Of, Flat, EntriesFramed, Outbox.Valid, OutBefore, FramedAs;
    LanePartial(e.ctrl);
    LanePartial(e.reliable);
    LanePartial(e.video);
    if e.TimedStarted() {
      var f := e.timedActive.value.bytes;
      assert Tag(Timed, [f]) == [Tagged(Timed, f)];
      forall lane { OfTag(Timed, [f], lane); }
    } else {
      forall lane { ThreeLanes(Frames(e.ctrl.unit), Frames(e.reliable.unit), Frames(e.video.unit), lane); }
    }
  }

  lemma ThreeLanes(a: seq<FrameBytes>, b: seq<FrameBytes>, c: seq<FrameBytes>, lane: Lane)
    ensures Of(Tag(Control, a) + Tag(Reliable, b) + Tag(Video, c), lane) ==
      match lane case Control => a case Reliable => b case Video => c case Timed => []
  {
    hide Of;
    OfAppend(Tag(Control, a) + Tag(Reliable, b), Tag(Video, c), lane);
    OfAppend(Tag(Control, a), Tag(Reliable, b), lane);
    OfTag(Control, a, lane);
    OfTag(Reliable, b, lane);
    OfTag(Video, c, lane);
  }

  /** What a lane committed since the link came up. */
  lemma LaneIsTail(o: Outbox, fs: seq<FrameBytes>, n: nat)
    requires o.Valid() && TailIs(fs, o.wrote, n)
    ensures LaneTrue(fs + Frames(o.unit), o.Committed()[n..], o.offered)
  {
    hide Outbox.Valid, Subsequence;
    LiveInOrder(o);
    TailInOrder(fs, o.wrote, o.unit, o.queue, o.offered, n);
  }

  lemma LiveInOrder(o: Outbox)
    requires o.Valid()
    ensures Subsequence(o.wrote + o.unit + o.queue, o.offered)
  {
    hide Sum, Flat, Subsequence;
  }

  lemma TailInOrder(fs: seq<FrameBytes>, wrote: seq<Entry>, unit: seq<Entry>, queue: seq<Entry>, offered: seq<Entry>,
                    n: nat)
    requires TailIs(fs, wrote, n) && Subsequence(wrote + unit + queue, offered)
    ensures LaneTrue(fs + Frames(unit), (wrote + unit)[n..], offered)
  {
    hide Subsequence, Frames;
    var tail := wrote[n..] + unit;
    TailSlices(wrote, unit, queue, n);
    FramesAppend(wrote[n..], unit);
    MiddleIsSubsequence(wrote[..n], tail, queue);
    SubsequenceTrans(tail, wrote + unit + queue, offered);
  }

  lemma TailSlices(wrote: seq<Entry>, unit: seq<Entry>, queue: seq<Entry>, n: nat)
    requires n <= |wrote|
    ensures (wrote + unit)[n..] == wrote[n..] + unit
    ensures wrote[..n] + (wrote[n..] + unit) + queue == wrote + unit + queue
  {
    assert wrote[..n] + wrote[n..] == wrote;
  }

  lemma FramesAppend(a: seq<Entry>, b: seq<Entry>)
    ensures Frames(a + b) == Frames(a) + Frames(b)
  {}

  lemma TimedIsTail(e: Endpoint)
    requires e.TimedOk() && e.SourcesOk() && e.fd != null
    ensures TimedTrue(e.codec, Of(e.done, Timed) +
      (if e.TimedStarted() then [e.timedActive.value.bytes] else []),
      e.Link().timed, e.timedOffered)
  {
    hide Of, FramedAs, TailIs;
  }
}
