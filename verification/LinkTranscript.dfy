/**
 What one open descriptor was given (cpp/src/transport/framed_fd.cc): the frames
 that went out over it, each with the lane it came from, and what of the lane's
 own history they are.
 */
module LinkTranscript {
  import opened Bytes
  import opened Frame
  import opened FramedOutbox
  import opened Framing
  import opened Lists

  datatype Lane = Control | Reliable | Video | Timed

  /** A frame, and the lane it came from. */
  datatype Tagged = Tagged(lane: Lane, frame: FrameBytes)

  /** A message whose last fields are filled in at the moment it goes out. */
  datatype TimedFrame = TimedFrame(msg: Message, finalize: (Message, int) -> Message)

  /** One that went out: which of those handed in, and the times it was stamped at. */
  datatype TimedOut = TimedOut(number: nat, stamps: seq<int>)

  /** Everything producers handed in, lane by lane. */
  datatype Offers = Offers(ctrl: seq<Entry>, reliable: seq<Entry>, video: seq<Entry>, timed: seq<TimedFrame>)

  /** The bytes a descriptor took, and those of its first unit that the one before it
      had taken; the frames of the units that are out, and of the one under way; and
      what they are, lane by lane. */
  datatype Transcript = Transcript(
    before: seq<byte>, accepted: seq<byte>, done: seq<Tagged>, unit: seq<Tagged>,
    ctrl: seq<Entry>, reliable: seq<Entry>, video: seq<Entry>, timed: seq<TimedOut>)

  /** The message after stamping it once for every try, each on top of the last. */
  function Stamped(f: TimedFrame, stamps: seq<int>): Message
  {
    if stamps == [] then f.msg else f.finalize(Stamped(f, stamps[..|stamps| - 1]), stamps[|stamps| - 1])
  }

  /** `f` is `m`, framed for the wire. */
  ghost predicate FramedAs(codec: HeaderCodec, f: FrameBytes, m: Message)
  {
    |codec.encode(ToHeader(m))| <= 255 && f == EncodeFramed(codec, m)
  }

  /** `f` is one message, framed for the wire. */
  ghost predicate IsFramed(codec: HeaderCodec, f: FrameBytes)
  {
    exists m: Message :: FramedAs(codec, f, m)
  }

  ghost predicate AllFramed(codec: HeaderCodec, fs: seq<FrameBytes>)
  {
    forall f :: f in fs ==> IsFramed(codec, f)
  }

  // ---- frames by lane --------------------------------------------------------

  function Untagged(ts: seq<Tagged>): (r: seq<FrameBytes>)
    ensures |r| == |ts| && forall i :: 0 <= i < |ts| ==> r[i] == ts[i].frame
  {
    seq(|ts|, i requires 0 <= i < |ts| => ts[i].frame)
  }

  function Tag(lane: Lane, fs: seq<FrameBytes>): (r: seq<Tagged>)
    ensures |r| == |fs| && forall i :: 0 <= i < |fs| ==> r[i] == Tagged(lane, fs[i])
  {
    seq(|fs|, i requires 0 <= i < |fs| => Tagged(lane, fs[i]))
  }

  /** The frames of one lane, in the order they went out. */
  function Of(ts: seq<Tagged>, lane: Lane): seq<FrameBytes>
  {
    if ts == [] then []
    else Of(ts[..|ts| - 1], lane) + if ts[|ts| - 1].lane == lane then [ts[|ts| - 1].frame] else []
  }

  lemma {:induction false} OfAppend(a: seq<Tagged>, b: seq<Tagged>, lane: Lane)
    ensures Of(a + b, lane) == Of(a, lane) + Of(b, lane)
  {
    if b == [] {
      assert a + b == a;
    } else {
      assert (a + b)[..|a + b| - 1] == a + b[..|b| - 1];
      OfAppend(a, b[..|b| - 1], lane);
    }
  }

  lemma {:induction false} OfTag(tag: Lane, fs: seq<FrameBytes>, lane: Lane)
    ensures Of(Tag(tag, fs), lane) == if tag == lane then fs else []
  {
    if fs != [] {
      OfTag(tag, fs[..|fs| - 1], lane);
      assert Tag(tag, fs)[..|fs| - 1] == Tag(tag, fs[..|fs| - 1]);
    }
  }

  lemma UntaggedAppend(a: seq<Tagged>, b: seq<Tagged>)
    ensures Untagged(a + b) == Untagged(a) + Untagged(b)
    ensures Flat(Untagged(a + b)) == Flat(Untagged(a)) + Flat(Untagged(b))
  {
    assert Untagged(a + b) == Untagged(a) + Untagged(b);
    FlatAppend(Untagged(a), Untagged(b));
  }

  lemma UntaggedTag(lane: Lane, fs: seq<FrameBytes>)
    ensures Untagged(Tag(lane, fs)) == fs
  {}

  ghost predicate OfOneLane(ts: seq<Tagged>)
  {
    forall i, j :: 0 <= i < |ts| && 0 <= j < |ts| ==> ts[i].lane == ts[j].lane
  }

  // ---- a stream of frames, cut ---------------------------------------------------

  /** How many of these frames lie wholly inside the first `n` bytes. */
  function WholeFrames(fs: seq<FrameBytes>, n: nat): (k: nat)
    ensures k <= |fs|
  {
    if fs == [] || n < |fs[0]| then 0 else 1 + WholeFrames(fs[1..], n - |fs[0]|)
  }

  /** How many begin there. */
  function Begun(fs: seq<FrameBytes>, n: nat): (k: nat)
    ensures k <= |fs|
  {
    if n == 0 || fs == [] then 0 else 1 + Begun(fs[1..], if n < |fs[0]| then 0 else n - |fs[0]|)
  }

  /** What is left of the frame that a cut after `n` bytes goes through. */
  function CutOff(fs: seq<FrameBytes>, n: nat): seq<byte>
  {
    if n == 0 || fs == [] then []
    else if n < |fs[0]| then fs[0][n..] else CutOff(fs[1..], n - |fs[0]|)
  }

  /** The first `n` bytes are whole frames. */
  ghost predicate AtFrameEnd(fs: seq<FrameBytes>, n: nat)
  {
    exists j :: 0 <= j <= |fs| && n == |Flat(fs[..j])|
  }

  /** After a cut come the rest of the frame it went through and whole frames. */
  lemma {:induction false} AfterCut(fs: seq<FrameBytes>, n: nat)
    requires n <= |Flat(fs)|
    ensures Flat(fs)[n..] == CutOff(fs, n) + Flat(fs[Begun(fs, n)..])
    decreases |fs|
  {
    if n != 0 && n >= |fs[0]| {
      AfterCut(fs[1..], n - |fs[0]|);
      assert fs[1..][Begun(fs, n) - 1..] == fs[Begun(fs, n)..];
    }
  }

  /** A cut goes through no frame exactly if it comes after a number of whole ones. */
  lemma {:induction false} CutAtFrameEnd(fs: seq<FrameBytes>, n: nat)
    requires n <= |Flat(fs)|
    ensures CutOff(fs, n) == [] <==> AtFrameEnd(fs, n)
    decreases |fs|
  {
    hide Flat;
    FlatStarts(fs, 0);
    if n != 0 {
      assert fs != [] by { FlatOfNone(fs); }
      FlatFirst(fs);
      if n < |fs[0]| {
        forall j | 0 <= j <= |fs|
          ensures n != |Flat(fs[..j])|
        {
          FlatStarts(fs, j);
        }
      } else {
        CutAtFrameEnd(fs[1..], n - |fs[0]|);
        FrameEndAfterFirst(fs, n);
      }
    }
  }

  lemma FrameEndAfterFirst(fs: seq<FrameBytes>, n: nat)
    requires fs != [] && |fs[0]| <= n && n > 0
    ensures AtFrameEnd(fs, n) <==> AtFrameEnd(fs[1..], n - |fs[0]|)
  {
    hide Flat;
    if AtFrameEnd(fs, n) {
      var j :| 0 <= j <= |fs| && n == |Flat(fs[..j])|;
      FlatStarts(fs, j);
      assert fs[1..][..j - 1] == fs[..j][1..];
    }
    if AtFrameEnd(fs[1..], n - |fs[0]|) {
      var j :| 0 <= j <= |fs| - 1 && n - |fs[0]| == |Flat(fs[1..][..j])|;
      FlatStarts(fs, j + 1);
      assert fs[1..][..j] == fs[..j + 1][1..];
    }
  }

  lemma FlatStarts(fs: seq<FrameBytes>, j: nat)
    requires j <= |fs|
    ensures j == 0 ==> Flat(fs[..j]) == []
    ensures j > 0 ==> Flat(fs[..j]) == fs[0] + Flat(fs[..j][1..])
  {}

  lemma FlatFirst(fs: seq<FrameBytes>)
    requires fs != []
    ensures Flat(fs) == fs[0] + Flat(fs[1..])
  {}

  lemma FlatOfNone(fs: seq<FrameBytes>)
    ensures fs == [] ==> Flat(fs) == []
  {}

  /** Where a cut falls does not depend on what comes later. */
  lemma FrameEndStays(fs: seq<FrameBytes>, gs: seq<FrameBytes>, n: nat)
    requires IsPrefix(fs, gs) && n <= |Flat(fs)|
    ensures AtFrameEnd(fs, n) <==> AtFrameEnd(gs, n)
  {
    hide Flat;
    if AtFrameEnd(fs, n) {
      var j :| 0 <= j <= |fs| && n == |Flat(fs[..j])|;
      assert gs[..j] == fs[..j];
    }
    if AtFrameEnd(gs, n) {
      var j :| 0 <= j <= |gs| && n == |Flat(gs[..j])|;
      if j <= |fs| {
        assert gs[..j] == fs[..j];
      } else {
        assert gs[..j] == fs + gs[|fs|..j] && fs[..|fs|] == fs;
        FlatAppend(fs, gs[|fs|..j]);
      }
    }
  }

  // ---- what a transcript tells --------------------------------------------------

  /** The frames `fs` are timed frames handed in, each at most once and in their
      order, as they were last stamped. */
  ghost predicate TimedTrue(codec: HeaderCodec, fs: seq<FrameBytes>, outs: seq<TimedOut>, offered: seq<TimedFrame>)
  {
    && |fs| == |outs|
    && (forall i :: 0 <= i < |outs| ==>
          outs[i].number < |offered| && FramedAs(codec, fs[i], Stamped(offered[outs[i].number], outs[i].stamps)))
    && (forall i, j :: 0 <= i < j < |outs| ==> outs[i].number < outs[j].number)
  }

  /** Each handed in after the last, and all before number `limit`. */
  ghost predicate OutBefore(outs: seq<TimedOut>, limit: int)
  {
    && (forall i :: 0 <= i < |outs| ==> outs[i].number < limit)
    && (forall i, j :: 0 <= i < j < |outs| ==> outs[i].number < outs[j].number)
  }

  /** The frames `fs` are the entries `es`, some of those offered, in their order. */
  ghost predicate LaneTrue(fs: seq<FrameBytes>, es: seq<Entry>, offered: seq<Entry>)
  {
    fs == Frames(es) && Subsequence(es, offered)
  }

  ghost predicate Holds(codec: HeaderCodec, t: Transcript, offers: Offers)
  {
    var all, taken := t.done + t.unit, t.before + t.accepted;
    && IsPrefix(Flat(Untagged(t.done)), taken) && IsPrefix(taken, Flat(Untagged(all)))
    && OfOneLane(t.unit) && AllFramed(codec, Untagged(all))
    && LaneTrue(Of(all, Control), t.ctrl, offers.ctrl)
    && LaneTrue(Of(all, Reliable), t.reliable, offers.reliable)
    && LaneTrue(Of(all, Video), t.video, offers.video)
    && TimedTrue(codec, Of(all, Timed), t.timed, offers.timed)
  }

  ghost predicate AllHold(codec: HeaderCodec, ts: seq<Transcript>, offers: Offers)
  {
    forall t :: t in ts ==> Holds(codec, t, offers)
  }

  /** All the frames of the link's. */
  function AllOf(t: Transcript): seq<FrameBytes>
  {
    Untagged(t.done + t.unit)
  }

  /** What was taken of the unit under way. */
  function TakenOf(t: Transcript): seq<byte>
    requires |Flat(Untagged(t.done))| <= |t.before + t.accepted|
  {
    (t.before + t.accepted)[|Flat(Untagged(t.done))|..]
  }

  /** `before` is what the last of these links took of its last unit, or nothing. */
  ghost predicate GoesOnFrom(before: seq<byte>, ts: seq<Transcript>)
  {
    before != [] ==>
      && ts != [] && |Flat(Untagged(ts[|ts| - 1].done))| <= |ts[|ts| - 1].before + ts[|ts| - 1].accepted|
      && before == TakenOf(ts[|ts| - 1])
  }

  /** Each link goes on where the one before it was cut, or starts anew. */
  ghost predicate Chained(ts: seq<Transcript>)
  {
    forall i :: 0 <= i < |ts| ==> GoesOnFrom(ts[i].before, ts[..i])
  }

  lemma ChainedMore(ts: seq<Transcript>, t: Transcript)
    requires Chained(ts) && GoesOnFrom(t.before, ts)
    ensures Chained(ts + [t])
  {
    hide GoesOnFrom;
    forall i | 0 <= i <= |ts|
      ensures GoesOnFrom((ts + [t])[i].before, (ts + [t])[..i])
    {
      assert (ts + [t])[..i] == ts[..i];
      assert ts[..|ts|] == ts;
    }
  }

  /** What a link takes starts with a whole frame. */
  ghost predicate StartsWhole(t: Transcript)
  {
    AtFrameEnd(AllOf(t), |t.before|)
  }

  /** From its first byte on a link takes the rest of a frame, then whole frames, then
      part of one. The rest of a frame is nothing exactly if it starts whole. */
  lemma LinkTakes(codec: HeaderCodec, t: Transcript, offers: Offers)
    requires Holds(codec, t, offers)
    ensures var fs, n := AllOf(t), |t.before|;
      && IsPrefix(t.accepted, CutOff(fs, n) + Flat(fs[Begun(fs, n)..]))
      && (CutOff(fs, n) == [] <==> StartsWhole(t))
  {
    hide Flat, CutOff, Begun, AllFramed, LaneTrue, TimedTrue, Of, AtFrameEnd;
    var fs, n := AllOf(t), |t.before|;
    AfterCut(fs, n);
    CutAtFrameEnd(fs, n);
    assert t.accepted == (t.before + t.accepted)[n..];
    assert IsPrefix(t.accepted, Flat(fs)[n..]);
  }

  /** Whether it does is settled when it comes up. */
  lemma StartIsSettled(t: Transcript, later: Transcript)
    requires IsPrefix(t.before + t.accepted, Flat(AllOf(t))) && Further(ProgressOf(t), ProgressOf(later))
    ensures StartsWhole(t) <==> StartsWhole(later)
  {
    hide Flat, AtFrameEnd;
    FrameEndStays(AllOf(t), AllOf(later), |t.before|);
  }

  /** How far a link has come. */
  datatype Progress = Progress(before: seq<byte>, accepted: seq<byte>, done: seq<Tagged>, all: seq<Tagged>)

  function ProgressOf(t: Transcript): Progress
  {
    Progress(t.before, t.accepted, t.done, t.done + t.unit)
  }

  /** The same link, later. */
  ghost predicate Further(p: Progress, q: Progress)
  {
    q.before == p.before && IsPrefix(p.accepted, q.accepted) && IsPrefix(p.done, q.done) && IsPrefix(p.all, q.all)
  }

  lemma FurtherSelf(p: Progress)
    ensures Further(p, p)
  {}

  lemma FurtherTrans(p: Progress, q: Progress, r: Progress)
    requires Further(p, q) && Further(q, r)
    ensures Further(p, r)
  {}

  ghost predicate MoreOffered(a: Offers, b: Offers)
  {
    && IsPrefix(a.ctrl, b.ctrl) && IsPrefix(a.reliable, b.reliable)
    && IsPrefix(a.video, b.video) && IsPrefix(a.timed, b.timed)
  }

  /** What a transcript tells stays true as more is handed in. */
  lemma HoldsStill(codec: HeaderCodec, t: Transcript, a: Offers, b: Offers)
    requires Holds(codec, t, a) && MoreOffered(a, b)
    ensures Holds(codec, t, b)
  {
    hide Of, Flat, AllFramed, FramedAs, Subsequence;
    SubsequenceOfMore(t.ctrl, a.ctrl, b.ctrl);
    SubsequenceOfMore(t.reliable, a.reliable, b.reliable);
    SubsequenceOfMore(t.video, a.video, b.video);
  }

  lemma AllHoldStill(codec: HeaderCodec, ts: seq<Transcript>, a: Offers, b: Offers)
    requires AllHold(codec, ts, a) && MoreOffered(a, b)
    ensures AllHold(codec, ts, b)
  {
    hide Holds, MoreOffered;
    forall t | t in ts { HoldsStill(codec, t, a, b); }
  }
}
