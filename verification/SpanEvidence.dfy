/** What the read-back's counters stand for, in terms of what the medium returned
    and was handed. */
module SpanEvidence {
  import opened Bytes
  import opened Lists
  import opened PartReadbackFile
  import opened SpanRing

  /** Byte `at` of an access, which was not what the writer wrote. */
  datatype Mismatch = Mismatch(index: nat, at: nat)

  /** Why a span is given up: the writer has reserved over it; the medium failed to serve
      call `answer`; it was written over from access `wrote` on and read again from access
      `from` on, and another byte was wrong; or the recording closed. */
  datatype Cause =
    | RingMoved
    | Failed(answer: nat)
    | Again(second: Mismatch, wrote: nat, from: nat, bytes: seq<byte>)
    | Closing

  /** What became of a span. It was read back right, from access `from` on; or so after
      a mismatch and being written over, from access `wrote` on; or it was left as it
      is, after a mismatch or an I/O error; or it could not be read; or it was skipped. */
  datatype Verdict =
    | Verified(from: nat, bytes: seq<byte>)
    | Repaired(mismatch: Mismatch, wrote: nat, from: nat, bytes: seq<byte>)
    | LeftWrong(found: Option<Mismatch>, cause: Cause)
    | Unread(answer: nat)
    | Skipped(cause: Cause)

  /** How many accesses the medium has seen, and how many calls it has answered. */
  datatype Moment = Moment(accesses: nat, asked: nat)

  predicate NotAfter(a: Moment, b: Moment)
  {
    a.accesses <= b.accesses && a.asked <= b.asked
  }

  /** The verdict on a span. What the medium did from `since` up to `end` was about it. */
  datatype Judged = Judged(span: Span, since: Moment, end: Moment, verdict: Verdict)

  /** What the stepper has seen and done: since when the medium works on the span in
      flight; the pass under way, from access `from` up to `upTo`, and its bytes, with
      `pending` if one more access is not judged yet; the mismatch that was found, if
      one was; where the span was written over, and with what; whether it has its
      verdict; how many queued ones have theirs ahead of it; and the verdicts so far. */
  datatype Trail = Trail(since: Moment, from: nat, upTo: nat, bytes: seq<byte>, pending: bool,
                         found: Option<Mismatch>, wrote: nat, rewrote: seq<byte>, judged: bool,
                         ahead: nat, evidence: seq<Judged>)

  /** The verdicts with one more on the span in flight. */
  function With(t: Trail, span: Span, end: Moment, v: Verdict): seq<Judged>
  {
    t.evidence + [Judged(span, t.since, end, v)]
  }

  /** All that verdicts are judged by: the stream, the parts, what the medium returned, was
      handed and answered, and how far the writer has reserved. */
  datatype World = World(written: Stream, bases: seq<nat>, h: seq<Access>, answers: nat -> Answer, reserve: nat,
                         ringBytes: nat, closing: bool)

  ghost predicate WorldGrew(a: World, b: World)
  {
    && Extends(a.written, b.written) && IsPrefix(a.bases, b.bases) && IsPrefix(a.h, b.h)
    && b.answers == a.answers && a.reserve <= b.reserve && b.ringBytes == a.ringBytes && (a.closing ==> b.closing)
  }

  // What each verdict counts for.
  const VERIFIED: Judged -> nat := (j: Judged) => if j.verdict.Verified? || j.verdict.Repaired? then 1 else 0
  const BYTES: Judged -> nat := (j: Judged) => if j.verdict.Verified? || j.verdict.Repaired? then j.span.len else 0
  const REPAIRED: Judged -> nat := (j: Judged) => if j.verdict.Repaired? then 1 else 0
  const LEFT_WRONG: Judged -> nat := (j: Judged) => if j.verdict.LeftWrong? then 1 else 0
  const GIVEN_UP: Judged -> nat := (j: Judged) => if j.verdict.LeftWrong? && j.verdict.found.Some? then 1 else 0
  const UNREAD: Judged -> nat := (j: Judged) => if j.verdict.Unread? then 1 else 0
  const MISMATCHED: Judged -> nat := (j: Judged) => REPAIRED(j) + GIVEN_UP(j)

  /** `bytes` are what the writer wrote from stream position `pos` on. */
  ghost predicate WrittenAt(written: Stream, pos: nat, bytes: seq<byte>)
  {
    forall q :: pos <= q < pos + |bytes| ==> q in written && written[q] == bytes[q - pos]
  }

  /** A span's stream position is its file offset, counted from its part's base. */
  ghost predicate Placed(s: Span, bases: seq<nat>)
  {
    s.part < |bases| && s.ringPos == bases[s.part] + s.fileOff
  }

  /** Accesses that read, or write, `bytes` of a part one after the other from offset
      `off` on. */
  ghost predicate Run(h: seq<Access>, reading: bool, part: nat, off: nat, bytes: seq<byte>)
  {
    if h == [] then bytes == []
    else
      var a := h[|h| - 1];
      && a.Read? == reading && a.part == part && |a.bytes| <= |bytes|
      && a.off == off + |bytes| - |a.bytes| && a.bytes == bytes[|bytes| - |a.bytes|..]
      && Run(h[..|h| - 1], reading, part, off, bytes[..|bytes| - |a.bytes|])
  }

  lemma RunGrows(h: seq<Access>, from: nat, reading: bool, part: nat, off: nat, bytes: seq<byte>, a: Access)
    requires from <= |h| && Run(h[from..], reading, part, off, bytes)
    requires a.Read? == reading && a.part == part && a.off == off + |bytes|
    ensures Run((h + [a])[from..], reading, part, off, bytes + a.bytes)
  {
    var g, all := (h + [a])[from..], bytes + a.bytes;
    assert g == h[from..] + [a] && g[..|g| - 1] == h[from..];
    assert all[..|all| - |a.bytes|] == bytes && all[|all| - |a.bytes|..] == a.bytes;
  }

  /** The accesses `h` are reads that cover the span and returned `bytes`, and that is
      what the writer wrote. */
  ghost predicate ReadRight(s: Span, h: seq<Access>, bytes: seq<byte>, written: Stream)
  {
    |bytes| == s.len && WrittenAt(written, s.ringPos, bytes) && Run(h, true, s.part, s.fileOff, bytes)
  }

  /** A read within the span returned a byte other than the one written there. */
  ghost predicate MismatchTrue(s: Span, m: Mismatch, written: Stream, h: seq<Access>)
  {
    && m.index < |h| && h[m.index].Read? && h[m.index].part == s.part
    && s.fileOff <= h[m.index].off && h[m.index].off + |h[m.index].bytes| <= s.fileOff + s.len
    && m.at < |h[m.index].bytes|
    && var q := s.ringPos + (h[m.index].off - s.fileOff) + m.at;
       q in written && written[q] != h[m.index].bytes[m.at]
  }

  ghost predicate CauseTrue(c: Cause, j: Judged, w: World)
  {
    match c
    case RingMoved => w.reserve > j.span.ringPos + w.ringBytes
    case Failed(k) => j.since.asked <= k < j.end.asked && !w.answers(k).ok
    case Again(m, wrote, from, bytes) =>
      && j.since.accesses <= wrote < from <= m.index < j.end.accesses <= |w.h|
      && MismatchTrue(j.span, m, w.written, w.h)
      && |bytes| == j.span.len && WrittenAt(w.written, j.span.ringPos, bytes)
      && Run(w.h[wrote..from], false, j.span.part, j.span.fileOff, bytes)
    case Closing => w.closing
  }

  /** A verdict has its reason. A span is left wrong only for a cause, after a mismatch or
      for an I/O error; it is unread only if the medium failed, otherwise than by an I/O
      error; it is skipped only if the writer overran it, or at the close. */
  ghost predicate JudgedTrue(j: Judged, w: World)
  {
    && Placed(j.span, w.bases) && NotAfter(j.since, j.end) && j.end.accesses <= |w.h|
    && match j.verdict
       case Verified(from, bytes) =>
         j.since.accesses <= from < j.end.accesses && ReadRight(j.span, w.h[from..j.end.accesses], bytes, w.written)
       case Repaired(m, wrote, from, bytes) =>
         && j.since.accesses <= m.index < wrote < from < j.end.accesses && MismatchTrue(j.span, m, w.written, w.h)
         && Run(w.h[wrote..from], false, j.span.part, j.span.fileOff, bytes)
         && ReadRight(j.span, w.h[from..j.end.accesses], bytes, w.written)
       case LeftWrong(found, cause) =>
         && CauseTrue(cause, j, w)
         && if found.None? then cause.Failed? && w.answers(cause.answer).eio
            else
              && j.since.accesses <= found.value.index < j.end.accesses
              && MismatchTrue(j.span, found.value, w.written, w.h)
              && (cause.Again? ==> found.value.index < cause.wrote)
       case Unread(k) => CauseTrue(Failed(k), j, w) && (w.answers(k).short || !w.answers(k).eio)
       case Skipped(cause) => (cause.RingMoved? || cause.Closing?) && CauseTrue(cause, j, w)
  }

  ghost predicate WriteTrue(a: Access, written: Stream, bases: seq<nat>)
  {
    a.Write? ==> a.part < |bases| && WrittenAt(written, bases[a.part] + a.off, a.bytes)
  }

  /** Every verdict is true, and only what the writer wrote is written. */
  ghost predicate AllTrue(e: seq<Judged>, w: World)
  {
    && (forall j :: j in e ==> JudgedTrue(j, w))
    && (forall a :: a in w.h ==> WriteTrue(a, w.written, w.bases))
  }

  /** Nothing the medium did is evidence twice: what each verdict is about comes after the
      last one's, and all before `limit`. */
  ghost predicate Ordered(e: seq<Judged>, limit: Moment)
  {
    && (forall i :: 0 <= i < |e| ==> NotAfter(e[i].end, limit))
    && (forall i, k :: 0 <= i < k < |e| ==> NotAfter(e[i].end, e[k].since))
  }

  /** The i-th verdict is on the i-th span ever queued. */
  ghost predicate InQueueOrder(e: seq<Judged>, pushed: seq<Span>)
  {
    |e| <= |pushed| && forall i :: 0 <= i < |e| ==> e[i].span == pushed[i]
  }

  lemma MismatchStays(s: Span, m: Mismatch, a: Stream, b: Stream, h: seq<Access>, h': seq<Access>)
    requires MismatchTrue(s, m, a, h) && Extends(a, b) && IsPrefix(h, h')
    ensures MismatchTrue(s, m, b, h')
  {
    assert h'[m.index] == h[m.index];
  }

  lemma SamePart(h: seq<Access>, h': seq<Access>, i: nat, j: nat)
    requires IsPrefix(h, h') && i <= j <= |h|
    ensures h'[i..j] == h[i..j]
  {}

  lemma CauseStays(c: Cause, j: Judged, w: World, w': World)
    requires CauseTrue(c, j, w) && WorldGrew(w, w')
    ensures CauseTrue(c, j, w')
  {
    hide Run, MismatchTrue, WrittenAt, Extends;
    if c.Again? {
      WrittenStays(w.written, w'.written, j.span.ringPos, c.bytes);
      MismatchStays(j.span, c.second, w.written, w'.written, w.h, w'.h);
      SamePart(w.h, w'.h, c.wrote, c.from);
    }
  }

  lemma JudgedStays(j: Judged, w: World, w': World)
    requires JudgedTrue(j, w) && WorldGrew(w, w')
    ensures JudgedTrue(j, w')
  {
    hide Run, MismatchTrue, WrittenAt, Extends, CauseTrue;
    match j.verdict
    case Verified(from, bytes) =>
      WrittenStays(w.written, w'.written, j.span.ringPos, bytes);
      SamePart(w.h, w'.h, from, j.end.accesses);
    case Repaired(m, wrote, from, bytes) =>
      WrittenStays(w.written, w'.written, j.span.ringPos, bytes);
      MismatchStays(j.span, m, w.written, w'.written, w.h, w'.h);
      SamePart(w.h, w'.h, from, j.end.accesses);
      SamePart(w.h, w'.h, wrote, from);
    case LeftWrong(found, cause) =>
      CauseStays(cause, j, w, w');
      if found.Some? { MismatchStays(j.span, found.value, w.written, w'.written, w.h, w'.h); }
    case Unread(k) => CauseStays(Failed(k), j, w, w');
    case Skipped(cause) => CauseStays(cause, j, w, w');
  }

  lemma WriteStays(w: Access, a: Stream, b: Stream, bases: seq<nat>, bases': seq<nat>)
    requires WriteTrue(w, a, bases) && Extends(a, b) && IsPrefix(bases, bases')
    ensures WriteTrue(w, b, bases')
  {
    if w.Write? { WrittenStays(a, b, bases[w.part] + w.off, w.bytes); }
  }

  /** What is true stays true as the stream, the parts and the history grow. */
  lemma TrueStaysTrue(e: seq<Judged>, w: World, w': World)
    requires AllTrue(e, w) && WorldGrew(w, w')
    requires forall i :: |w.h| <= i < |w'.h| ==> WriteTrue(w'.h[i], w'.written, w'.bases)
    ensures AllTrue(e, w')
  {
    hide JudgedTrue, WriteTrue, Extends, IsPrefix;
    forall j | j in e { JudgedStays(j, w, w'); }
    forall x | x in w'.h ensures WriteTrue(x, w'.written, w'.bases) {
      WriteKept(x, w.written, w'.written, w.bases, w'.bases, w.h, w'.h);
    }
  }

  /** Nothing but the reservation or the close has moved. */
  lemma TrueAsBefore(e: seq<Judged>, w: World, w': World)
    requires AllTrue(e, w) && w' == w.(reserve := w'.reserve, closing := w'.closing)
    requires w.reserve <= w'.reserve && (w.closing ==> w'.closing)
    ensures AllTrue(e, w')
  {
    hide JudgedTrue, WriteTrue, Extends, AllTrue;
    ExtendsSelf(w.written);
    TrueStaysTrue(e, w, w');
  }

  lemma WriteKept(w: Access, a: Stream, b: Stream, bases: seq<nat>, bases': seq<nat>, h: seq<Access>,
                  h': seq<Access>)
    requires w in h' && Extends(a, b) && IsPrefix(bases, bases') && IsPrefix(h, h')
    requires forall v :: v in h ==> WriteTrue(v, a, bases)
    requires forall i :: |h| <= i < |h'| ==> WriteTrue(h'[i], b, bases')
    ensures WriteTrue(w, b, bases')
  {
    hide WriteTrue, Extends;
    var i :| 0 <= i < |h'| && h'[i] == w;
    if i < |h| {
      assert h'[i] == h[i];
      WriteStays(w, a, b, bases, bases');
    }
  }

  lemma WrittenStays(a: Stream, b: Stream, pos: nat, bytes: seq<byte>)
    requires WrittenAt(a, pos, bytes) && Extends(a, b)
    ensures WrittenAt(b, pos, bytes)
  {}

  lemma WrittenMore(written: Stream, pos: nat, a: seq<byte>, b: seq<byte>)
    requires WrittenAt(written, pos, a) && WrittenAt(written, pos + |a|, b)
    ensures WrittenAt(written, pos, a + b)
  {}

  lemma OneMoreJudged(e: seq<Judged>, w: World, limit: Moment, j: Judged)
    requires AllTrue(e, w) && JudgedTrue(j, w)
    requires Ordered(e, limit) && NotAfter(limit, j.since) && NotAfter(j.since, j.end)
    ensures AllTrue(e + [j], w) && Ordered(e + [j], j.end)
  {
    hide JudgedTrue, WriteTrue;
  }

  lemma OrderedLater(e: seq<Judged>, limit: Moment, later: Moment)
    requires Ordered(e, limit) && NotAfter(limit, later)
    ensures Ordered(e, later)
  {}

  lemma SumPush(e: seq<Judged>, j: Judged, f: Judged -> nat)
    ensures Sum(e + [j], f) == Sum(e, f) + f(j)
  {
    SumAppend(e, [j], f);
    SumOne(j, f);
  }

  /** A span is mismatched if it is repaired, or given up on, and never both. */
  lemma {:induction false} MismatchesSplit(e: seq<Judged>)
    ensures Sum(e, MISMATCHED) == Sum(e, REPAIRED) + Sum(e, GIVEN_UP)
    ensures Sum(e, GIVEN_UP) <= Sum(e, LEFT_WRONG)
  {
    if e != [] { MismatchesSplit(e[..|e| - 1]); }
  }

  /** Nothing went wrong for the span: it was not overrun or given up, every call was
      answered, and every read returned what the writer wrote. */
  ghost predicate WellServed(s: Span, from: Moment, to: Moment, w: World)
  {
    && w.reserve <= s.ringPos + w.ringBytes && !w.closing
    && (forall k :: from.asked <= k < to.asked ==> w.answers(k).ok)
    && (forall i :: from.accesses <= i < to.accesses && i < |w.h| && w.h[i].Read? ==>
          w.h[i].part < |w.bases| && WrittenAt(w.written, w.bases[w.h[i].part] + w.h[i].off, w.h[i].bytes))
  }

  /** A byte that is wrong is not what the writer wrote at its place in the part. */
  lemma MismatchShows(s: Span, m: Mismatch, w: World)
    requires Placed(s, w.bases) && MismatchTrue(s, m, w.written, w.h)
    ensures var a := w.h[m.index]; !WrittenAt(w.written, w.bases[a.part] + a.off, a.bytes)
  {
    var a := w.h[m.index];
    var pos := w.bases[a.part] + a.off;
    assert pos <= pos + m.at < pos + |a.bytes| && w.written[pos + m.at] != a.bytes[(pos + m.at) - pos];
  }

  lemma NoMismatch(s: Span, m: Mismatch, from: Moment, to: Moment, w: World)
    requires Placed(s, w.bases) && WellServed(s, from, to, w) && MismatchTrue(s, m, w.written, w.h)
    ensures !(from.accesses <= m.index < to.accesses)
  {
    hide WrittenAt;
    MismatchShows(s, m, w);
  }

  /** Then its verdict is that it is verified. */
  lemma WellServedIsVerified(j: Judged, w: World)
    requires JudgedTrue(j, w) && WellServed(j.span, j.since, j.end, w)
    ensures j.verdict.Verified?
  {
    hide Run, WrittenAt, MismatchTrue, WellServed;
    match j.verdict
    case Verified(_, _) =>
    case Repaired(m, _, _, _) => NoMismatch(j.span, m, j.since, j.end, w);
    case LeftWrong(found, cause) =>
      if found.Some? {
        NoMismatch(j.span, found.value, j.since, j.end, w);
      } else {
        AllAnswered(j, cause.answer, w);
      }
    case Unread(k) => AllAnswered(j, k, w);
    case Skipped(_) => NotGivenUp(j, w);
  }

  lemma AllAnswered(j: Judged, k: nat, w: World)
    requires WellServed(j.span, j.since, j.end, w)
    ensures !CauseTrue(Failed(k), j, w)
  {}

  lemma NotGivenUp(j: Judged, w: World)
    requires WellServed(j.span, j.since, j.end, w)
    ensures !CauseTrue(RingMoved, j, w) && !CauseTrue(Closing, j, w)
  {}

  // ---- bytes as written ------------------------------------------------------------

  lemma NoneWritten(written: Stream, pos: nat, bytes: seq<byte>)
    requires bytes == []
    ensures WrittenAt(written, pos, bytes)
  {}

  lemma OneWritten(written: Stream, q: nat, c: byte)
    requires q in written && written[q] == c
    ensures WrittenAt(written, q, [c])
  {}

  lemma OneMoreWritten(written: Stream, pos: nat, got: seq<byte>, from: nat, i: nat)
    requires from <= i < |got| && WrittenAt(written, pos + from, got[from..i])
    requires pos + i in written && written[pos + i] == got[i]
    ensures WrittenAt(written, pos + from, got[from..i + 1])
  {
    OneWritten(written, pos + i, got[i]);
    WrittenMore(written, pos + from, got[from..i], [got[i]]);
    assert got[from..i] + [got[i]] == got[from..i + 1];
  }

  lemma DifferenceStays(a: Stream, b: Stream, pos: nat, got: seq<byte>, i: nat)
    requires Extends(a, b) && i < |got| && pos + i in a && a[pos + i] != got[i]
    ensures pos + i in b && b[pos + i] != got[i] && !WrittenAt(b, pos, got) && !WrittenAt(b, pos, got[..i + 1])
  {
    assert b[pos + i] == a[pos + i] && got[..i + 1][i] == got[i];
  }

  lemma WrittenBytes(written: Stream, pos: nat, bytes: seq<byte>)
    requires WrittenAt(written, pos, bytes)
    ensures forall k :: 0 <= k < |bytes| ==> pos + k in written && written[pos + k] == bytes[k]
  {}

  lemma WrittenOnce(written: Stream, pos: nat, a: seq<byte>, b: seq<byte>)
    requires WrittenAt(written, pos, a) && WrittenAt(written, pos, b) && |a| == |b|
    ensures a == b
  {
    WrittenBytes(written, pos, a);
    WrittenBytes(written, pos, b);
  }
}
