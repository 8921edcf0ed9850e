/**
 The two ends of a link: what an endpoint writes is what the stream splitter
 delivers, whatever the writes and the reads cut the bytes into, and it is what
 producers handed in. This holds of the open link and of every one that died.
 */
module EndToEnd {
  import opened Bytes
  import opened Frame
  import opened FramedFd
  import opened FramedOutbox
  import opened Framing
  import opened LinkTranscript
  import opened Lists
  import opened RateGate
  import opened Wire

  /** The message a frame off the wire decodes to, or nothing. */
  function Meaning(codec: HeaderCodec, f: FrameBytes): (r: seq<Message>)
    ensures |r| <= 1
  {
    if f == [] then [] else DecodeRun(codec, f[..|f| - 1])
  }

  function Meanings(codec: HeaderCodec, fs: seq<FrameBytes>): seq<Message>
  {
    if fs == [] then [] else Meaning(codec, fs[0]) + Meanings(codec, fs[1..])
  }

  /** A message framed means that message. */
  lemma MeansTheMessage(codec: HeaderCodec, f: FrameBytes, m: Message)
    requires codec.Valid() && FramedAs(codec, f, m)
    ensures f != [] && Meaning(codec, f) == [Normalized(m)]
  {
    hide EncodeFramed, DecodeRun, FindZero;
    FramedRun(codec, m);
  }

  /** Any prefix of a run of framed messages delivers exactly the ones it holds whole. */
  lemma {:induction false} PrefixOfFrames(codec: HeaderCodec, fs: seq<FrameBytes>, n: nat)
    requires codec.Valid() && AllFramed(codec, fs) && n <= |Flat(fs)|
    ensures Messages(codec, Flat(fs)[..n]) == Meanings(codec, fs[..WholeFrames(fs, n)])
    decreases |fs|
  {
    hide EncodeFramed, DecodeRun, Messages, Remainder, FramedAs, Meaning;
    if fs == [] {
      assert Flat(fs)[..n] == [];
      NoDelimiter(codec, []);
    } else {
      var later := Flat(fs[1..]);
      assert Flat(fs) == fs[0] + later && IsFramed(codec, fs[0]);
      if n < |fs[0]| {
        RestOfOne(codec, fs[0], 0, n);
        assert (fs[0] + later)[..n] == fs[0][0..0 + n];
      } else {
        DelimiterIsLast(codec, fs[0]);
        RestFirst(codec, fs[0], 0, later[..n - |fs[0]|]);
        assert fs[0][0..] == fs[0];
        PrefixOfFrames(codec, fs[1..], n - |fs[0]|);
        assert (fs[0] + later)[..n] == fs[0] + later[..n - |fs[0]|];
        var k := WholeFrames(fs, n);
        assert fs[..k][1..] == fs[1..][..k - 1];
      }
    }
  }

  /** The end of the frames that begin after `from` bytes and lie inside `n` more. */
  function WholeEnd(fs: seq<FrameBytes>, from: nat, n: nat): (k: nat)
    ensures Begun(fs, from) <= k <= |fs|
  {
    var k := WholeFrames(fs, from + n);
    if k < Begun(fs, from) then Begun(fs, from) else k
  }

  /** Any slice of it delivers those, after what the rest of the frame it starts in
      decodes to, if that is there. */
  lemma {:induction false} SliceOfFrames(codec: HeaderCodec, fs: seq<FrameBytes>, from: nat, n: nat)
    requires codec.Valid() && AllFramed(codec, fs) && from + n <= |Flat(fs)|
    ensures var b, k := Begun(fs, from), WholeFrames(fs, from + n);
      && Messages(codec, Flat(fs)[from..from + n]) ==
           (if k < b then [] else Meaning(codec, CutOff(fs, from)) + Meanings(codec, fs[b..k]))
      && (k < b ==> n < |CutOff(fs, from)|)
    decreases |fs|
  {
    hide EncodeFramed, DecodeRun, Messages, IsFramed, Meaning, Meanings, Begun, WholeFrames, CutOff, Flat;
    if from == 0 {
      PrefixOfFrames(codec, fs, n);
      NoMeaning(codec);
      FromTheStart(fs, n);
      assert Flat(fs)[0..0 + n] == Flat(fs)[..n];
    } else {
      FlatOfNone(fs);
      FlatFirst(fs);
      var f, later := fs[0], Flat(fs[1..]);
      assert IsFramed(codec, f);
      if from >= |f| {
        SliceOfFrames(codec, fs[1..], from - |f|, n);
        assert (f + later)[from..from + n] == later[from - |f|..from - |f| + n];
        PastTheFirst(fs, from, n);
      } else if from + n < |f| {
        InTheFirst(fs, from, n);
        RestOfOne(codec, f, from, n);
        assert (f + later)[from..from + n] == f[from..from + n];
      } else {
        RestFirst(codec, f, from, later[..from + n - |f|]);
        PrefixOfFrames(codec, fs[1..], from + n - |f|);
        InTheFirst(fs, from, n);
        assert (f + later)[from..from + n] == f[from..] + later[..from + n - |f|];
      }
    }
  }

  lemma FromTheStart(fs: seq<FrameBytes>, n: nat)
    ensures Begun(fs, 0) == 0 && CutOff(fs, 0) == [] && fs[0..WholeFrames(fs, n)] == fs[..WholeFrames(fs, n)]
  {}

  lemma PastTheFirst(fs: seq<FrameBytes>, from: nat, n: nat)
    requires fs != [] && 0 < from && |fs[0]| <= from
    ensures var b, k := Begun(fs, from), WholeFrames(fs, from + n);
      && b == Begun(fs[1..], from - |fs[0]|) + 1 && k == WholeFrames(fs[1..], from - |fs[0]| + n) + 1
      && CutOff(fs, from) == CutOff(fs[1..], from - |fs[0]|)
      && (b <= k ==> fs[b..k] == fs[1..][b - 1..k - 1])
  {
    var b, k := Begun(fs, from), WholeFrames(fs, from + n);
    if b <= k { SamePart(fs, b, k); }
  }

  lemma SamePart(fs: seq<FrameBytes>, b: nat, k: nat)
    requires 1 <= b <= k <= |fs|
    ensures fs[b..k] == fs[1..][b - 1..k - 1]
  {
    assert forall i :: 0 <= i < k - b ==> fs[b..k][i] == fs[1..][b - 1..k - 1][i];
  }

  /** The slice starts in the first frame. */
  lemma InTheFirst(fs: seq<FrameBytes>, from: nat, n: nat)
    requires fs != [] && 0 < from < |fs[0]|
    ensures Begun(fs, from) == 1 && CutOff(fs, from) == fs[0][from..]
    ensures var k := WholeFrames(fs, from + n);
      if from + n < |fs[0]| then k == 0
      else k == WholeFrames(fs[1..], from + n - |fs[0]|) + 1 && fs[1..k] == fs[1..][..k - 1]
  {}

  lemma NoMeaning(codec: HeaderCodec)
    ensures Meaning(codec, []) == []
  {}

  /** The only delimiter of a framed message is its last byte. */
  lemma DelimiterIsLast(codec: HeaderCodec, f: FrameBytes)
    requires codec.Valid() && IsFramed(codec, f)
    ensures |f| > 0 && f[|f| - 1] == 0 && 0 !in f[..|f| - 1]
  {
    hide EncodeFramed, DecodeRun;
    var m :| FramedAs(codec, f, m);
    FramedRun(codec, m);
  }

  lemma RestOfOne(codec: HeaderCodec, f: FrameBytes, from: nat, n: nat)
    requires codec.Valid() && IsFramed(codec, f) && from + n < |f|
    ensures Messages(codec, f[from..from + n]) == []
  {
    hide Messages;
    DelimiterIsLast(codec, f);
    var part := f[from..from + n];
    assert forall i :: 0 <= i < n ==> part[i] == f[..|f| - 1][from + i];
    NoDelimiter(codec, part);
  }

  lemma RestFirst(codec: HeaderCodec, f: FrameBytes, from: nat, rest: seq<byte>)
    requires codec.Valid() && IsFramed(codec, f) && from < |f|
    ensures Messages(codec, f[from..] + rest) == Meaning(codec, f[from..]) + Messages(codec, rest)
  {
    hide Messages, DecodeRun, IsFramed;
    DelimiterIsLast(codec, f);
    var run := f[from..|f| - 1];
    assert forall i :: 0 <= i < |run| ==> run[i] == f[..|f| - 1][from + i];
    assert f[from..] == run + [0] && (run + [0])[..|run|] == run;
    RunFirst(codec, run, rest);
  }

  lemma RunFirst(codec: HeaderCodec, run: seq<byte>, rest: seq<byte>)
    requires 0 !in run
    ensures Messages(codec, run + [0] + rest) == DecodeRun(codec, run) + Messages(codec, rest)
  {
    hide Messages, DecodeRun;
    var s := run + ([0] + rest);
    NoDelimiter(codec, run);
    FindZeroAppend(run, [0] + rest);
    FirstRun(codec, s, |run|);
    assert s == run + [0] + rest && s[..|run|] == run && s[|run| + 1..] == rest;
  }

  /** Frames `i` to `j` of a link, on one lane: some of those offered, in their order. */
  ghost predicate LanePart(ts: seq<Tagged>, i: nat, j: nat, lane: Lane, es: seq<Entry>, offered: seq<Entry>)
    requires i <= j <= |ts|
  {
    var m, n := |Of(ts[..i], lane)|, |Of(ts[..j], lane)|;
    m <= n <= |es| && LaneTrue(Of(ts[i..j], lane), es[m..n], offered)
  }

  ghost predicate TimedPart(codec: HeaderCodec, ts: seq<Tagged>, i: nat, j: nat, outs: seq<TimedOut>,
                            offered: seq<TimedFrame>)
    requires i <= j <= |ts|
  {
    var m, n := |Of(ts[..i], Timed)|, |Of(ts[..j], Timed)|;
    m <= n <= |outs| && TimedTrue(codec, Of(ts[i..j], Timed), outs[m..n], offered)
  }

  /** The first frame of a link that the link itself began. */
  function FirstOf(t: Transcript): (b: nat)
    ensures b <= |t.done + t.unit|
  {
    Begun(AllOf(t), |t.before|)
  }

  /** The end of those it had taken whole once it had taken `n` bytes. */
  function EndOf(t: Transcript, n: nat): (k: nat)
    ensures FirstOf(t) <= k <= |t.done + t.unit|
  {
    WholeEnd(AllOf(t), |t.before|, n)
  }

  /** End to end: of any part of what a link took, read in any pieces, the receiver
      yields exactly the messages of the frames that are whole in it, in the order
      they went out, and nothing else; but if the link did not start with a whole frame,
      what the rest of the frame it started in decodes to comes first, at most one
      message. Lane by lane the whole frames are some of those handed in, in the order
      they were handed in. And with everything taken read, no unit that is out is
      missing. */
  lemma ReceiverGetsWholeFrames(codec: HeaderCodec, t: Transcript, offers: Offers, chunks: seq<seq<byte>>)
    requires codec.Valid() && Holds(codec, t, offers) && IsPrefix(Flat(chunks), t.accepted)
    ensures var all, b, k := t.done + t.unit, FirstOf(t), EndOf(t, |Flat(chunks)|);
      var rest := CutOff(AllOf(t), |t.before|);
      && Delivered(codec, [], chunks) ==
           (if |Flat(chunks)| < |rest| then [] else Meaning(codec, rest)) + Meanings(codec, Untagged(all[b..k]))
      && (StartsWhole(t) <==> rest == [])
      && LanePart(all, b, k, Control, t.ctrl, offers.ctrl)
      && LanePart(all, b, k, Reliable, t.reliable, offers.reliable)
      && LanePart(all, b, k, Video, t.video, offers.video)
      && TimedPart(codec, all, b, k, t.timed, offers.timed)
      && (Flat(chunks) == t.accepted ==> |t.done| <= k)
  {
    hide Flat, Delivered, AllFramed, LaneTrue, TimedTrue, Meanings, Meaning, Untagged, Of, Begun, WholeFrames, CutOff,
         AtFrameEnd, LanePart, TimedPart, WholeEnd;
    var all, b, k := t.done + t.unit, FirstOf(t), EndOf(t, |Flat(chunks)|);
    SliceTaken(t.before, t.accepted, Flat(AllOf(t)), |Flat(chunks)|);
    ReadsOfSlice(codec, AllOf(t), |t.before|, chunks);
    UntaggedPart(all, b, k);
    CutAtFrameEnd(AllOf(t), |t.before|);
    LaneOfPart(all, b, k, Control, t.ctrl, offers.ctrl);
    LaneOfPart(all, b, k, Reliable, t.reliable, offers.reliable);
    LaneOfPart(all, b, k, Video, t.video, offers.video);
    TimedOfPart(codec, all, b, k, t.timed, offers.timed);
    if Flat(chunks) == t.accepted { DoneFits(t); }
  }

  /** What a receiver makes of a slice, however it is read. */
  lemma ReadsOfSlice(codec: HeaderCodec, fs: seq<FrameBytes>, from: nat, chunks: seq<seq<byte>>)
    requires codec.Valid() && AllFramed(codec, fs)
    requires from + |Flat(chunks)| <= |Flat(fs)| && Flat(fs)[from..from + |Flat(chunks)|] == Flat(chunks)
    ensures Delivered(codec, [], chunks) ==
      (if |Flat(chunks)| < |CutOff(fs, from)| then [] else Meaning(codec, CutOff(fs, from))) +
      Meanings(codec, fs[Begun(fs, from)..WholeEnd(fs, from, |Flat(chunks)|)])
  {
    hide Flat, Messages, Delivered, AllFramed, Meanings, Meaning, Begun, WholeFrames, CutOff;
    ReadsDeliverTheStream(codec, [], chunks);
    assert [] + Flat(chunks) == Flat(chunks);
    SliceOfFrames(codec, fs, from, |Flat(chunks)|);
    BegunFits(fs, from, |Flat(chunks)|);
    NoMeanings(codec, fs[Begun(fs, from)..Begun(fs, from)]);
  }

  lemma SliceTaken(before: seq<byte>, accepted: seq<byte>, all: seq<byte>, n: nat)
    requires IsPrefix(before + accepted, all) && n <= |accepted|
    ensures |before| + n <= |all| && all[|before|..|before| + n] == accepted[..n]
  {}

  lemma NoMeanings(codec: HeaderCodec, fs: seq<FrameBytes>)
    ensures fs == [] ==> Meanings(codec, fs) == []
  {}

  /** A slice reaches the end of the frame it starts in exactly if it is no shorter than
      the rest of it. */
  lemma {:induction false} BegunFits(fs: seq<FrameBytes>, from: nat, n: nat)
    requires from <= |Flat(fs)|
    ensures Begun(fs, from) <= WholeFrames(fs, from + n) <==> |CutOff(fs, from)| <= n
    decreases |fs|
  {
    if from != 0 && from >= |fs[0]| { BegunFits(fs[1..], from - |fs[0]|, n); }
  }

  /** So the messages a lane delivers are some of those handed in to it, in the order
      they were handed in. */
  lemma DeliveredWereOffered(codec: HeaderCodec, fs: seq<FrameBytes>, es: seq<Entry>, offered: seq<Entry>)
    requires codec.Valid() && LaneTrue(fs, es, offered) && EntriesFramed(codec, offered)
    ensures Subsequence(Meanings(codec, fs), Meanings(codec, Frames(offered)))
  {
    hide Subsequence, Meanings, IsFramed;
    MeaningsInOrder(codec, es, offered);
  }

  lemma {:induction false} MeaningsInOrder(codec: HeaderCodec, a: seq<Entry>, b: seq<Entry>)
    requires codec.Valid() && Subsequence(a, b) && EntriesFramed(codec, b)
    ensures Subsequence(Meanings(codec, Frames(a)), Meanings(codec, Frames(b)))
    decreases |b|
  {
    hide Meanings, IsFramed;
    if a == [] {
      MeaningsOfNone(codec, a);
    } else {
      var a', b', x := a[..|a| - 1], b[..|b| - 1], b[|b| - 1];
      var y := OneMessage(codec, x.data);
      LastMeaning(codec, b', x, y);
      assert b == b' + [x];
      if Subsequence(a, b') {
        MeaningsInOrder(codec, a, b');
        SubsequencePush(Meanings(codec, Frames(a)), Meanings(codec, Frames(b')), y);
      } else {
        MeaningsInOrder(codec, a', b');
        LastMeaning(codec, a', x, y);
        assert a == a' + [x];
        SubsequencePush(Meanings(codec, Frames(a')), Meanings(codec, Frames(b')), y);
      }
    }
  }

  lemma MeaningsOfNone(codec: HeaderCodec, a: seq<Entry>)
    requires a == []
    ensures Meanings(codec, Frames(a)) == []
  {}

  /** A framed message means exactly one message. */
  lemma OneMessage(codec: HeaderCodec, f: FrameBytes) returns (m: Message)
    requires codec.Valid() && IsFramed(codec, f)
    ensures Meaning(codec, f) == [m]
  {
    hide Meaning, EncodeFramed;
    var sent :| FramedAs(codec, f, sent);
    MeansTheMessage(codec, f, sent);
    m := Normalized(sent);
  }

  lemma LastMeaning(codec: HeaderCodec, q: seq<Entry>, e: Entry, m: Message)
    requires Meaning(codec, e.data) == [m]
    ensures Meanings(codec, Frames(q + [e])) == Meanings(codec, Frames(q)) + [m]
  {
    hide Meaning;
    assert Frames(q + [e]) == Frames(q) + [e.data];
    MeaningsAppend(codec, Frames(q), [e.data]);
    assert [e.data][1..] == [];
  }

  lemma {:induction false} MeaningsAppend(codec: HeaderCodec, a: seq<FrameBytes>, b: seq<FrameBytes>)
    ensures Meanings(codec, a + b) == Meanings(codec, a) + Meanings(codec, b)
    decreases |a|
  {
    hide Meaning;
    if a == [] {
      assert a + b == b;
    } else {
      assert (a + b)[0] == a[0] && (a + b)[1..] == a[1..] + b;
      MeaningsAppend(codec, a[1..], b);
    }
  }

  lemma UntaggedPart(ts: seq<Tagged>, i: nat, j: nat)
    requires i <= j <= |ts|
    ensures Untagged(ts)[i..j] == Untagged(ts[i..j])
  {}

  lemma OfPart(ts: seq<Tagged>, i: nat, j: nat, lane: Lane)
    requires i <= j <= |ts|
    ensures var m, n := |Of(ts[..i], lane)|, |Of(ts[..j], lane)|;
      m <= n <= |Of(ts, lane)| && Of(ts[i..j], lane) == Of(ts, lane)[m..n]
  {
    hide Of;
    OfAppend(ts[..i], ts[i..j], lane);
    OfAppend(ts[..j], ts[j..], lane);
    assert ts == ts[..j] + ts[j..] && ts[..j] == ts[..i] + ts[i..j];
  }

  lemma LaneOfPart(ts: seq<Tagged>, i: nat, j: nat, lane: Lane, es: seq<Entry>, offered: seq<Entry>)
    requires i <= j <= |ts| && LaneTrue(Of(ts, lane), es, offered)
    ensures LanePart(ts, i, j, lane, es, offered)
  {
    hide Of, Subsequence;
    OfPart(ts, i, j, lane);
    var m, n := |Of(ts[..i], lane)|, |Of(ts[..j], lane)|;
    MiddleIsSubsequence(es[..m], es[m..n], es[n..]);
    assert es[..m] + es[m..n] + es[n..] == es;
    SubsequenceTrans(es[m..n], es, offered);
    assert Frames(es)[m..n] == Frames(es[m..n]);
  }

  lemma TimedOfPart(codec: HeaderCodec, ts: seq<Tagged>, i: nat, j: nat, outs: seq<TimedOut>, offered: seq<TimedFrame>)
    requires i <= j <= |ts| && TimedTrue(codec, Of(ts, Timed), outs, offered)
    ensures TimedPart(codec, ts, i, j, outs, offered)
  {
    hide Of, FramedAs;
    OfPart(ts, i, j, Timed);
  }

  lemma DoneFits(t: Transcript)
    requires |Flat(Untagged(t.done))| <= |t.before + t.accepted|
    ensures |t.done| <= EndOf(t, |t.accepted|)
  {
    hide Flat, Untagged, WholeFrames, Begun;
    WholeOnesFit(t.done, t.unit, |t.before| + |t.accepted|);
  }

  lemma WholeOnesFit(done: seq<Tagged>, unit: seq<Tagged>, n: nat)
    requires |Flat(Untagged(done))| <= n
    ensures |done| <= WholeFrames(Untagged(done + unit), n)
  {
    hide Flat, Untagged, WholeFrames;
    UntaggedAppend(done, unit);
    FirstOnesFit(Untagged(done), Untagged(unit), n);
  }

  lemma {:induction false} FirstOnesFit(fs: seq<FrameBytes>, more: seq<FrameBytes>, n: nat)
    requires |Flat(fs)| <= n
    ensures |fs| <= WholeFrames(fs + more, n)
    decreases |fs|
  {
    if fs != [] {
      assert (fs + more)[0] == fs[0] && (fs + more)[1..] == fs[1..] + more;
      FirstOnesFit(fs[1..], more, n - |fs[0]|);
    }
  }

  /** The messages timed frames were as they went out. */
  function SentMessages(outs: seq<TimedOut>, offered: seq<TimedFrame>): (r: seq<Message>)
    requires forall i :: 0 <= i < |outs| ==> outs[i].number < |offered|
    ensures |r| == |outs|
    ensures forall i :: 0 <= i < |outs| ==> r[i] == Normalized(Stamped(offered[outs[i].number], outs[i].stamps))
  {
    seq(|outs|, i requires 0 <= i < |outs| => Normalized(Stamped(offered[outs[i].number], outs[i].stamps)))
  }

  /** The timed lane delivers the messages handed in to it that went out, as stamped. */
  lemma {:induction false} TimedMeanings(codec: HeaderCodec, fs: seq<FrameBytes>, outs: seq<TimedOut>,
                                         offered: seq<TimedFrame>)
    requires codec.Valid() && TimedTrue(codec, fs, outs, offered)
    ensures Meanings(codec, fs) == SentMessages(outs, offered)
    decreases |fs|
  {
    hide Meaning, FramedAs, Stamped;
    if fs != [] {
      MeansTheMessage(codec, fs[0], Stamped(offered[outs[0].number], outs[0].stamps));
      TimedMeanings(codec, fs[1..], outs[1..], offered);
      assert SentMessages(outs, offered) ==
        [Normalized(Stamped(offered[outs[0].number], outs[0].stamps))] + SentMessages(outs[1..], offered);
    }
  }

  /** The open link of an endpoint, and every one it had before, is of this kind, and
      each goes on where the one before it was cut, or starts anew. */
  lemma EveryLinkHolds(e: Endpoint)
    requires e.Valid()
    ensures e.codec.Valid() && Chained(e.ended) && GoesOnFrom(e.before, e.ended)
    ensures e.fd != null ==>
      Holds(e.codec, e.Link(), e.Offered()) && e.Link().accepted == e.fd.accepted && e.Link().before == e.before
    ensures forall t :: t in e.ended ==> Holds(e.codec, t, e.Offered())
  {
    hide Holds, Endpoint.LanesOk, Endpoint.TimedOk, Endpoint.SourcesOk, Chained, GoesOnFrom;
    if e.fd != null { LinkHolds(e); }
  }

  lemma OfferedAreFramed(e: Endpoint)
    requires e.Valid()
    ensures EntriesFramed(e.codec, e.ctrl.offered) && EntriesFramed(e.codec, e.reliable.offered)
    ensures EntriesFramed(e.codec, e.video.offered)
  {
    hide Outbox.Valid, EntriesFramed, Endpoint.TimedOk, Endpoint.SourcesOk, Endpoint.EndedOk, Endpoint.StreamOk;
  }

  /** Message by message: over any link an endpoint has or had, cut into any reads, the
      receiver yields the messages of the frames that are whole, after at most one from
      the rest of a frame the link did not begin. Lane by lane these are messages
      producers handed in, in the order they did; on the timed lane, as last stamped. */
  lemma LinkDelivers(e: Endpoint, t: Transcript, chunks: seq<seq<byte>>)
    requires e.Valid() && (t in e.ended || (e.fd != null && t == e.Link()))
    requires IsPrefix(Flat(chunks), t.accepted)
    ensures var all, b, k := t.done + t.unit, FirstOf(t), EndOf(t, |Flat(chunks)|);
      var got, rest := all[b..k], CutOff(AllOf(t), |t.before|);
      && Delivered(e.codec, [], chunks) ==
           (if |Flat(chunks)| < |rest| then [] else Meaning(e.codec, rest)) + Meanings(e.codec, Untagged(got))
      && (StartsWhole(t) <==> rest == [])
      && Subsequence(Meanings(e.codec, Of(got, Control)), Meanings(e.codec, Frames(e.ctrl.offered)))
      && Subsequence(Meanings(e.codec, Of(got, Reliable)), Meanings(e.codec, Frames(e.reliable.offered)))
      && Subsequence(Meanings(e.codec, Of(got, Video)), Meanings(e.codec, Frames(e.video.offered)))
      && TimedPart(e.codec, all, b, k, t.timed, e.timedOffered)
      && Meanings(e.codec, Of(got, Timed)) ==
           SentMessages(t.timed[|Of(all[..b], Timed)|..|Of(all[..k], Timed)|], e.timedOffered)
  {
    hide Endpoint.Valid, Holds, LaneTrue, FramedAs, Subsequence, Meanings, Meaning, Flat, Delivered, EntriesFramed, Of,
         Endpoint.Link, StartsWhole, CutOff, Chained, GoesOnFrom, Untagged;
    EveryLinkHolds(e);
    OfferedAreFramed(e);
    ReceiverGetsWholeFrames(e.codec, t, e.Offered(), chunks);
    var all, b, k := t.done + t.unit, FirstOf(t), EndOf(t, |Flat(chunks)|);
    DeliveredFrom(e.codec, all, b, k, Control, t.ctrl, e.ctrl.offered);
    DeliveredFrom(e.codec, all, b, k, Reliable, t.reliable, e.reliable.offered);
    DeliveredFrom(e.codec, all, b, k, Video, t.video, e.video.offered);
    TimedMeanings(e.codec, Of(all[b..k], Timed), t.timed[|Of(all[..b], Timed)|..|Of(all[..k], Timed)|], e.timedOffered);
  }

  lemma DeliveredFrom(codec: HeaderCodec, ts: seq<Tagged>, i: nat, j: nat, lane: Lane, es: seq<Entry>,
                      offered: seq<Entry>)
    requires codec.Valid() && i <= j <= |ts| && LanePart(ts, i, j, lane, es, offered) && EntriesFramed(codec, offered)
    ensures Subsequence(Meanings(codec, Of(ts[i..j], lane)), Meanings(codec, Frames(offered)))
  {
    hide Of, Meanings, Subsequence, EntriesFramed, LaneTrue;
    DeliveredWereOffered(codec, Of(ts[i..j], lane), es[|Of(ts[..i], lane)|..|Of(ts[..j], lane)|], offered);
  }

  // ---- a stopped endpoint ------------------------------------------------------

  /** Stopped, started again on another descriptor, and then any number of passes with
      any producers. Whatever that descriptor has taken by then is the rest of a frame,
      then whole frames, then part of one; and the rest of a frame is nothing exactly if
      the stop found the control and the video unit cut between two of their frames, or
      not begun. */
  method RestartAndRun(e: Endpoint, second: Fd, clocks: seq<nat -> int>, calls: seq<nat -> seq<ProducerCall>>)
    returns (ghost t: Transcript)
    requires e.Valid() && e.door.Valid() && second.accepted == [] && second != e.fd && |calls| == |clocks|
    modifies e, e.ctrl, e.reliable, e.video, e.rx, e.door, second
    ensures e.Valid() && (t in e.ended || (e.fd != null && t == e.Link())) && t.accepted == second.accepted
    ensures IsPrefix(second.accepted, CutOff(AllOf(t), |t.before|) + Flat(AllOf(t)[FirstOf(t)..]))
    ensures CutOff(AllOf(t), |t.before|) == [] <==> old(e.CutBetween(e.ctrl) && e.CutBetween(e.video))
  {
    hide Endpoint.Valid, Endpoint.Link, Endpoint.Last, Endpoint.Follows, Door.Valid, StartsWhole, Endpoint.CutBetween,
         CutOff, Flat, IsPrefix;
    e.Restart(second);
    ghost var t0 := JustUp(e);
    ghost var ended0 := e.ended;
    var i := 0;
    while i < |clocks|
      invariant 0 <= i <= |clocks| && e.Valid() && e.door.Valid() && (e.fd == second || e.fd == null)
      invariant e.Follows(second, ProgressOf(t0), ended0)
    {
      OnePass(e, second, clocks[i], calls[i], ProgressOf(t0), ended0);
      i := i + 1;
    }
    t := WhatItTook(e, second, t0, ended0);
  }

  /** One pass, on the link that `second` has or had. */
  method OnePass(e: Endpoint, second: Fd, clock: nat -> int, calls: nat -> seq<ProducerCall>, ghost start: Progress,
                 ghost ended0: seq<Transcript>)
    requires e.Valid() && e.door.Valid() && (e.fd == second || e.fd == null) && e.Follows(second, start, ended0)
    modifies e, e.ctrl, e.reliable, e.video, e.rx, e.door, second
    ensures e.Valid() && e.door.Valid() && (e.fd == second || e.fd == null) && e.Follows(second, start, ended0)
  {
    hide Endpoint.Valid, Endpoint.SoFar, Endpoint.Offered, Door.Valid, MoreOffered, Outbox.Committed, Endpoint.Quiet,
         Further;
    ghost var was, p := e.fd, e.SoFar();
    e.Pump(clock, calls);
    if was == second { FollowsTrans(e, second, start, p, ended0); }
  }

  lemma FollowsTrans(e: Endpoint, was: Fd, p: Progress, q: Progress, ended0: seq<Transcript>)
    requires Further(p, q) && e.Follows(was, q, ended0)
    ensures e.Follows(was, p, ended0)
  {
    hide Further, Endpoint.SoFar;
    FurtherTrans(p, q, if e.fd == was then e.SoFar() else ProgressOf(e.ended[|ended0|]));
  }

  /** A link that has just come up. */
  lemma JustUp(e: Endpoint) returns (t: Transcript)
    requires e.Valid() && e.fd != null
    ensures t == e.Link() && e.Follows(e.fd, ProgressOf(t), e.ended)
    ensures IsPrefix(t.before + t.accepted, Flat(AllOf(t)))
  {
    hide Flat, LaneTrue, TimedTrue, AllFramed, Of, IsPrefix, Endpoint.LanesOk, Endpoint.TimedOk, Endpoint.StreamOk,
         Endpoint.EndedOk, Endpoint.OneLane;
    t := e.Link();
    EveryLinkHolds(e);
    e.LinkSoFar();
    e.FollowsSelf();
  }

  /** The link later: open still, or dead. */
  lemma WhatItTook(e: Endpoint, second: Fd, t0: Transcript, ended0: seq<Transcript>) returns (t: Transcript)
    requires e.Valid() && (e.fd == second || e.fd == null) && e.Follows(second, ProgressOf(t0), ended0)
    requires IsPrefix(t0.before + t0.accepted, Flat(AllOf(t0)))
    ensures (t in e.ended || (e.fd != null && t == e.Link())) && t.accepted == second.accepted
    ensures IsPrefix(second.accepted, CutOff(AllOf(t), |t.before|) + Flat(AllOf(t)[FirstOf(t)..]))
    ensures CutOff(AllOf(t), |t.before|) == [] <==> StartsWhole(t0)
  {
    hide Flat, CutOff, Begun, StartsWhole, Holds, IsPrefix, Further, Endpoint.LanesOk, Endpoint.TimedOk,
         Endpoint.StreamOk, Endpoint.EndedOk, Endpoint.OneLane, Endpoint.SoFar;
    EveryLinkHolds(e);
    if e.fd == second {
      t := e.Link();
      e.LinkSoFar();
    } else {
      t := e.ended[|ended0|];
    }
    LinkTakes(e.codec, t, e.Offered());
    StartIsSettled(t0, t);
  }
}
