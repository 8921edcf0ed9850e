/**
 The write-time read-back (cpp/src/mcap/span_readback.cc). The stepping thread's
 methods are written out; between any two of their accesses to shared state the
 writer thread may run any number of its own steps, down to the copying of a
 single byte, as an arbitrary script decides.
 */
module SpanReadback {
  import opened Bytes
  import opened Lists
  import opened PartReadbackFile
  import opened SpanEvidence
  import opened SpanRing

  datatype Pass = Verify | Rewrite | Reverify

  /** The span being checked, and the bytes of it done in the current pass. */
  datatype InFlight = InFlight(span: Span, pass: Pass, done: nat)

  /** What becomes of the span at the front of the queue, if there is one. */
  datatype Fate = NoSpan | Overrun | Unsettled | Taken

  /** The stepper's counters. */
  datatype Stats = Stats(
    spansVerified: nat, bytesVerified: nat, spansMismatched: nat, spansRewrittenOk: nat,
    spansUnrepaired: nat, readFailed: nat, maxLagBytes: nat)

  /** One step of the writer thread, between two of the stepper's. */
  datatype WriterStep =
    | StepOpenPart
    | StepReserve(data: seq<byte>)
    | StepCopy(at: nat)
    | StepPublish
    | StepEvict(fileOff: nat, len: nat)
    | StepSyncDisabled
    | StepPartEnd(from: nat, disabled: bool)
    | StepCommitTail

  // ---- what the writer does ------------------------------------------------------

  /** The writer's side: the stream, where its parts begin, the tail it remembers, the spans
      it has queued, and how many it skipped and offered. */
  datatype Writer = Writer(view: RingState, bases: seq<nat>, tail: Option<Span>, pushed: seq<Span>, skipped: int,
                           offered: nat)

  /** A span queued, or skipped if it is longer than the ring or the queue is full. */
  function Queued(w: Writer, s: Span, popped: nat, ringBytes: nat): Writer
  {
    if s.len <= ringBytes && |w.pushed| - popped < QUEUE_SLOTS then w.(pushed := w.pushed + [s])
    else w.(skipped := w.skipped + 1)
  }

  /** A step of the writer's; one that is out of turn does nothing. */
  function StepOf(w: Writer, step: WriterStep, popped: nat, ringBytes: nat, over: bool): Writer
  {
    var v, number := w.view, |w.bases| - 1;
    var idle := v.copying.None? && !over;
    var base := if w.bases == [] then 0 else w.bases[number];
    match step
    case StepOpenPart =>
      var next := RoundUpToPage(v.head);
      if !idle then w
      else w.(view := v.(reserve := next, copying := Some(Copy(next, [], {}))), bases := w.bases + [next],
              tail := None, skipped := w.skipped + if w.tail.Some? then 1 else 0)
    case StepReserve(data) => if idle && w.bases != [] && data != [] then w.(view := v.Reserve(v.head, data)) else w
    case StepCopy(q) =>
      if v.copying.Some? && q in v.copying.value.left && |v.ring| > 0 && v.copying.value.pos <= q < v.reserve &&
         q < v.copying.value.pos + |v.copying.value.data|
      then w.(view := v.CopyByte(q)) else w
    case StepPublish => if v.copying.Some? && v.copying.value.left == {} then w.(view := v.Publish()) else w
    case StepEvict(fileOff, len) =>
      if !idle || w.bases == [] || base + fileOff + len > v.head then w
      else
        Queued(w.(offered := w.offered + 1), Span(number, fileOff, len, base + fileOff, false), popped, ringBytes)
    case StepSyncDisabled => if idle then w.(offered := w.offered + 1, skipped := w.skipped + 1) else w
    case StepPartEnd(from, disabled) =>
      if !idle || w.bases == [] || w.tail.Some? || v.head - base <= from then w
      else if disabled then w.(offered := w.offered + 1, skipped := w.skipped + 1)
      else w.(offered := w.offered + 1, tail := Some(Span(number, from, v.head - base - from, base + from, true)))
    case StepCommitTail =>
      if idle && w.tail.Some? then Queued(w.(tail := None), w.tail.value, popped, ringBytes) else w
  }

  function StepsOf(w: Writer, steps: seq<WriterStep>, popped: nat, ringBytes: nat, over: bool): Writer
  {
    if steps == [] then w
    else StepOf(StepsOf(w, steps[..|steps| - 1], popped, ringBytes, over), steps[|steps| - 1], popped, ringBytes, over)
  }

  // ---- spans and parts ---------------------------------------------------------

  /** The span lies in the written bytes of one part. */
  ghost predicate SpanWritten(s: Span, bases: seq<nat>, head: nat, written: Stream)
  {
    && Placed(s, bases) && s.ringPos + s.len <= head
    && forall q :: s.ringPos <= q < s.ringPos + s.len ==> q in written
  }

  /** The paths still kept, by part number, and where the open part's offset 0 is
      in the stream. The open part is the last. */
  datatype Parts = Parts(paths: seq<nat>, base: nat)

  /** The open part is the last; its bytes start at its base. */
  ghost predicate PartOpen(bases: seq<nat>, partBase: nat, reserve: nat, written: Stream)
  {
    bases != [] ==>
      && bases[|bases| - 1] == partBase && partBase <= reserve
      && forall q :: partBase <= q < reserve ==> q in written
  }

  /** The kept paths are those of the newest parts. */
  ghost predicate PathsKept(parts: seq<nat>, count: nat)
  {
    && |parts| <= count && (count > 0 ==> parts != [])
    && forall i :: 0 <= i < |parts| ==> parts[i] == count - |parts| + i
  }

  /** Every span not yet finished lies in written bytes, fits the ring, names a
      kept path, and the queue is in part order. */
  ghost predicate QueuedOk(pushed: seq<Span>, popped: nat, bases: seq<nat>, kept: nat, head: nat, written: Stream,
                           ringBytes: nat)
  {
    && (forall i :: popped <= i < |pushed| ==>
          SpanWritten(pushed[i], bases, head, written) && pushed[i].len <= ringBytes &&
          pushed[i].part + kept >= |bases|)
    && (forall i, j :: popped <= i < j < |pushed| ==> pushed[i].part <= pushed[j].part)
  }

  lemma SpanStays(s: Span, bases: seq<nat>, head: nat, written: Stream, bases': seq<nat>, head': nat, written': Stream)
    requires SpanWritten(s, bases, head, written)
    requires IsPrefix(bases, bases') && head <= head' && Extends(written, written')
    ensures SpanWritten(s, bases', head', written')
  {}

  lemma QueuedStays(pushed: seq<Span>, popped: nat, bases: seq<nat>, kept: nat, head: nat, written: Stream,
                    ringBytes: nat, bases': seq<nat>, kept': nat, head': nat, written': Stream)
    requires QueuedOk(pushed, popped, bases, kept, head, written, ringBytes)
    requires IsPrefix(bases, bases') && head <= head' && Extends(written, written')
    requires kept' - kept == |bases'| - |bases|
    ensures QueuedOk(pushed, popped, bases', kept', head', written', ringBytes)
  {
    hide SpanWritten, Extends;
    forall i | popped <= i < |pushed|
      ensures SpanWritten(pushed[i], bases', head', written')
    {
      SpanStays(pushed[i], bases, head, written, bases', head', written');
    }
  }

  /** A run of ring slots: `firstLen` from `firstIdx`, the rest from 0. */
  datatype RingSlice = RingSlice(firstIdx: nat, firstLen: nat)

  // ---- passes --------------------------------------------------------------------

  /** The mismatch was found in the accesses about the span, before access `limit`. */
  ghost predicate FoundBefore(s: Span, m: Mismatch, since: nat, limit: nat, written: Stream, h: seq<Access>)
  {
    since <= m.index < limit && MismatchTrue(s, m, written, h)
  }

  /** A mismatch is found before the span is written over. */
  function FoundLimit(f: InFlight, t: Trail): nat
  {
    if f.pass.Rewrite? then t.from else t.wrote
  }

  /** How a span's check stands: this pass has covered the first `done` bytes, and
      what it read or wrote is right; past the first pass there is a mismatch; a span
      read again was written over whole. */
  ghost predicate FlightHolds(f: InFlight, t: Trail, written: Stream, h: seq<Access>)
  {
    var s := f.span;
    && f.done <= s.len && (f.done == s.len ==> s.len == 0)
    && |t.bytes| == f.done && WrittenAt(written, s.ringPos, t.bytes)
    && t.since.accesses <= t.from <= t.upTo && |h| == t.upTo + (if t.pending then 1 else 0)
    && (f.done > 0 ==> t.from < t.upTo)
    && (t.found.Some? <==> !f.pass.Verify?)
    && (t.found.Some? ==> FoundBefore(s, t.found.value, t.since.accesses, FoundLimit(f, t), written, h))
    && Run(h[t.from..t.upTo], !f.pass.Rewrite?, s.part, s.fileOff, t.bytes)
    && (f.pass.Reverify? ==>
          && t.wrote < t.from && |t.rewrote| == s.len && WrittenAt(written, s.ringPos, t.rewrote)
          && Run(h[t.wrote..t.from], false, s.part, s.fileOff, t.rewrote))
  }

  lemma FlightStays(f: InFlight, t: Trail, a: Stream, b: Stream, h: seq<Access>)
    requires FlightHolds(f, t, a, h) && Extends(a, b)
    ensures FlightHolds(f, t, b, h)
  {
    hide Run, WrittenAt, MismatchTrue, Extends;
    WrittenStays(a, b, f.span.ringPos, t.bytes);
    if f.pass.Reverify? { WrittenStays(a, b, f.span.ringPos, t.rewrote); }
    if t.found.Some? { MismatchStays(f.span, t.found.value, a, b, h, h); }
  }

  /** One more access, not judged yet. */
  lemma FlightPending(f: InFlight, t: Trail, written: Stream, h: seq<Access>, a: Access)
    requires FlightHolds(f, t, written, h) && !t.pending
    ensures FlightHolds(f, t.(pending := true), written, h + [a])
  {
    hide Run, WrittenAt, MismatchTrue;
    var g := h + [a];
    assert g[t.from..t.upTo] == h[t.from..t.upTo];
    ExtendsSelf(written);
    if t.found.Some? { MismatchStays(f.span, t.found.value, written, written, h, g); }
    if f.pass.Reverify? { assert g[t.wrote..t.from] == h[t.wrote..t.from]; }
  }

  /** The pending access was the right bytes, and the pass goes on. */
  lemma FlightMoves(f: InFlight, t: Trail, written: Stream, h: seq<Access>)
    requires FlightHolds(f, t, written, h) && t.pending
    requires var a := h[|h| - 1];
      && a.Read? == !f.pass.Rewrite? && a.part == f.span.part && a.off == f.span.fileOff + f.done
      && WrittenAt(written, f.span.ringPos + f.done, a.bytes)
    ensures var a := h[|h| - 1];
      && WrittenAt(written, f.span.ringPos, t.bytes + a.bytes)
      && t.from < |h| && Run(h[t.from..|h|], !f.pass.Rewrite?, f.span.part, f.span.fileOff, t.bytes + a.bytes)
      && (f.done + |a.bytes| < f.span.len ==>
            FlightHolds(f.(done := f.done + |a.bytes|), t.(upTo := |h|, bytes := t.bytes + a.bytes, pending := false),
                        written, h))
  {
    hide Run, WrittenAt, MismatchTrue;
    var g, a := h[..|h| - 1], h[|h| - 1];
    assert g[t.from..] == h[t.from..t.upTo] && g + [a] == h;
    RunGrows(g, t.from, !f.pass.Rewrite?, f.span.part, f.span.fileOff, t.bytes, a);
    WrittenMore(written, f.span.ringPos, t.bytes, a.bytes);
    assert h[t.from..] == h[t.from..|h|];
  }

  /** A pass starts here. */
  lemma FlightStarts(f: InFlight, t: Trail, written: Stream, h: seq<Access>)
    requires f.done == 0 && t.since.accesses <= t.from == t.upTo == |h| && t.bytes == [] && !t.pending
    requires t.found.Some? <==> !f.pass.Verify?
    requires t.found.Some? ==> FoundBefore(f.span, t.found.value, t.since.accesses, FoundLimit(f, t), written, h)
    requires f.pass.Reverify? ==>
      && t.wrote < t.from && |t.rewrote| == f.span.len && WrittenAt(written, f.span.ringPos, t.rewrote)
      && Run(h[t.wrote..t.from], false, f.span.part, f.span.fileOff, t.rewrote)
    ensures FlightHolds(f, t, written, h)
  {
    assert h[t.from..t.upTo] == [];
  }

  function PassesAfter(p: Pass): nat
  {
    match p case Verify => 2 case Rewrite => 1 case Reverify => 0
  }

  /** Pieces that `len` bytes take; even no bytes take one. */
  function Pieces(len: nat, piece: nat): (r: nat)
    requires piece > 0
    ensures r >= 1
    decreases len
  {
    if len <= piece then 1 else 1 + Pieces(len - piece, piece)
  }

  /** That is the ceiling of `len / piece`. */
  lemma {:induction false} PiecesIsCeiling(len: nat, piece: nat)
    requires piece > 0
    ensures Pieces(len, piece) == if len == 0 then 1 else (len + piece - 1) / piece
    decreases len
  {
    if len > piece {
      PiecesIsCeiling(len - piece, piece);
      OneLess(len - 1, piece);
    } else if len > 0 {
      OneLess(len - 1, piece);
    }
  }

  lemma OneLess(n: nat, piece: nat)
    requires piece > 0
    ensures (n + piece) / piece == n / piece + 1
  {
    var q, p := n / piece, (n + piece) / piece;
    var r, s := n % piece, (n + piece) % piece;
    assert n == q * piece + r && n + piece == p * piece + s;
    assert (p - q - 1) * piece == p * piece - q * piece - piece;
    NoMultiple(p - q - 1, piece);
  }

  lemma NoMultiple(d: int, piece: int)
    requires -piece < d * piece < piece
    ensures d == 0
  {}

  /** The most pieces a span can still cost. */
  function PiecesLeft(f: InFlight, piece: nat): nat
    requires piece > 0 && f.done <= f.span.len
  {
    PassesAfter(f.pass) * Pieces(f.span.len, piece) + Pieces(f.span.len - f.done, piece)
  }

  predicate NextPiece(f: InFlight, g: InFlight, n: nat)
  {
    || (g.pass == f.pass && f.done + n < f.span.len && g.done == f.done + n)
    || (g.done == 0 && PassesAfter(g.pass) + 1 == PassesAfter(f.pass))
  }

  /** A piece either moves on within its pass or starts the next, and costs at
      least one of the pieces left. */
  lemma PieceCosts(f: InFlight, g: InFlight, piece: nat)
    requires piece > 0 && f.done <= f.span.len && f.span == g.span
    requires NextPiece(f, g, Min(piece, f.span.len - f.done))
    ensures g.done <= g.span.len && PiecesLeft(g, piece) < PiecesLeft(f, piece)
    ensures PassesAfter(g.pass) <= PassesAfter(f.pass)
  {
    var p := Pieces(f.span.len, piece);
    if g.done == 0 && PassesAfter(g.pass) + 1 == PassesAfter(f.pass) {
      assert PassesAfter(f.pass) * p == PassesAfter(g.pass) * p + p;
    }
  }

  /** At most three passes over the span, so at most two after a first. */
  lemma AtMostThreePasses(f: InFlight, piece: nat)
    requires piece > 0 && f.done <= f.span.len
    ensures PiecesLeft(f, piece) <= 3 * Pieces(f.span.len, piece)
  {
    MorePieces(f.span.len - f.done, f.span.len, piece);
    var p := Pieces(f.span.len, piece);
    assert PassesAfter(f.pass) * p <= 2 * p;
  }

  lemma {:induction false} MorePieces(a: nat, b: nat, piece: nat)
    requires piece > 0 && a <= b
    ensures Pieces(a, piece) <= Pieces(b, piece)
    decreases b
  {
    if a > piece { MorePieces(a - piece, b - piece, piece); }
  }

  // ---- the books -----------------------------------------------------------------

  /** Every span offered is counted once, or still open; the fault flag is up exactly
      if some span was left wrong. */
  ghost predicate Balanced(stats: Stats, skipped: nat, fault: bool, offered: nat, open: int)
  {
    && offered == stats.spansVerified + stats.spansUnrepaired + skipped + stats.readFailed + open
    && (fault <==> stats.spansUnrepaired > 0)
  }

  /** The counters count verdicts; a mismatch still being repaired has none yet. */
  ghost predicate Counted(stats: Stats, e: seq<Judged>, repairing: bool)
  {
    && stats.spansVerified == Sum(e, VERIFIED) && stats.bytesVerified == Sum(e, BYTES)
    && stats.spansRewrittenOk == Sum(e, REPAIRED) && stats.spansUnrepaired == Sum(e, LEFT_WRONG)
    && stats.readFailed == Sum(e, UNREAD)
    && stats.spansMismatched == Sum(e, MISMATCHED) + (if repairing then 1 else 0)
  }

  /** The counters after one more verdict. */
  function Tally(was: Stats, j: Judged): Stats
  {
    was.(spansVerified := was.spansVerified + VERIFIED(j), bytesVerified := was.bytesVerified + BYTES(j),
         spansRewrittenOk := was.spansRewrittenOk + REPAIRED(j),
         spansUnrepaired := was.spansUnrepaired + LEFT_WRONG(j), readFailed := was.readFailed + UNREAD(j))
  }

  lemma TallyByVerdict(was: Stats, j: Judged)
    ensures Tally(was, j) == match j.verdict
      case Verified(_, _) =>
        was.(spansVerified := was.spansVerified + 1, bytesVerified := was.bytesVerified + j.span.len)
      case Repaired(_, _, _, _) =>
        was.(spansVerified := was.spansVerified + 1, bytesVerified := was.bytesVerified + j.span.len,
             spansRewrittenOk := was.spansRewrittenOk + 1)
      case LeftWrong(_, _) => was.(spansUnrepaired := was.spansUnrepaired + 1)
      case Unread(_) => was.(readFailed := was.readFailed + 1)
      case Skipped(_) => was
  {}

  lemma LagCounts(stats: Stats, e: seq<Judged>, repairing: bool, skipped: nat, fault: bool, offered: nat, open: int,
                  lag: nat)
    requires Counted(stats, e, repairing) && Balanced(stats, skipped, fault, offered, open)
    ensures var s := stats.(maxLagBytes := lag);
      Counted(s, e, repairing) && Balanced(s, skipped, fault, offered, open)
  {}

  lemma CountedMore(stats: Stats, e: seq<Judged>, repairing: bool, j: Judged)
    requires Counted(stats, e, repairing) && MISMATCHED(j) == if repairing then 1 else 0
    ensures Counted(Tally(stats, j), e + [j], false)
  {
    hide Sum;
    SumPush(e, j, VERIFIED);
    SumPush(e, j, BYTES);
    SumPush(e, j, REPAIRED);
    SumPush(e, j, LEFT_WRONG);
    SumPush(e, j, UNREAD);
    SumPush(e, j, MISMATCHED);
  }

  lemma SomePiecesLeft(f: InFlight, piece: nat)
    requires piece > 0 && f.done <= f.span.len
    ensures PiecesLeft(f, piece) >= 1
  {
    assert PassesAfter(f.pass) * Pieces(f.span.len, piece) >= 0;
  }

  /** Spans skipped at one moment. */
  function SkippedAll(spans: seq<Span>, n: Moment, cause: Cause): (r: seq<Judged>)
    ensures |r| == |spans| && forall i :: 0 <= i < |spans| ==> r[i] == Judged(spans[i], n, n, Skipped(cause))
  {
    seq(|spans|, i requires 0 <= i < |spans| => Judged(spans[i], n, n, Skipped(cause)))
  }

  lemma OneSkipped(spans: seq<Span>, i: nat, n: Moment, cause: Cause)
    requires i < |spans|
    ensures SkippedAll(spans[i..i + 1], n, cause) == [Judged(spans[i], n, n, Skipped(cause))]
  {}

  /** The span may be skipped for this cause: the writer has overrun it, or the recording
      closes. */
  ghost predicate MaySkip(s: Span, cause: Cause, w: World)
  {
    && Placed(s, w.bases) && (cause.RingMoved? || cause.Closing?)
    && (cause.RingMoved? ==> w.reserve > s.ringPos + w.ringBytes) && (cause.Closing? ==> w.closing)
  }

  lemma {:induction false} SkipsAreTrue(e: seq<Judged>, w: World, now: Moment, spans: seq<Span>, cause: Cause,
                                        stats: Stats)
    requires AllTrue(e, w) && Ordered(e, now) && Counted(stats, e, false) && now.accesses <= |w.h|
    requires forall s :: s in spans ==> MaySkip(s, cause, w)
    ensures var e' := e + SkippedAll(spans, now, cause);
      AllTrue(e', w) && Ordered(e', now) && Counted(stats, e', false)
    decreases |spans|
  {
    hide AllTrue, Ordered, Counted;
    if spans == [] {
      assert e + SkippedAll(spans, now, cause) == e;
    } else {
      var front, j := spans[..|spans| - 1], Judged(spans[|spans| - 1], now, now, Skipped(cause));
      SkipsAreTrue(e, w, now, front, cause, stats);
      assert MaySkip(spans[|spans| - 1], cause, w);
      OneMoreJudged(e + SkippedAll(front, now, cause), w, now, j);
      CountedMore(stats, e + SkippedAll(front, now, cause), false, j);
      assert e + SkippedAll(spans, now, cause) == e + SkippedAll(front, now, cause) + [j];
    }
  }

  /** The medium did not serve the read, which was its call `k`: over, and counted as a
      fault or as a read failure. */
  ghost predicate Unserved(f: InFlight, short: bool, eio: bool, k: nat, g: Option<InFlight>, was: Stats, now: Stats,
                           t: Trail, u: Trail, end: Moment, spanDone: bool)
  {
    var fault := !f.pass.Verify? || (!short && eio);
    && spanDone && g == Some(f)
    && now == (if fault then was.(spansUnrepaired := was.spansUnrepaired + 1)
               else was.(readFailed := was.readFailed + 1))
    && u.evidence == With(t, f.span, end, if fault then LeftWrong(t.found, Failed(k)) else Unread(k))
  }

  /** Given up for this cause: over, and nothing learned from this piece. */
  ghost predicate Abandoned(f: InFlight, cause: Cause, g: Option<InFlight>, was: Stats, now: Stats, t: Trail,
                            u: Trail, end: Moment, spanDone: bool)
  {
    && spanDone && g == Some(f)
    && now == (if f.pass.Verify? then was else was.(spansUnrepaired := was.spansUnrepaired + 1))
    && u.evidence == With(t, f.span, end, if f.pass.Verify? then Skipped(cause) else LeftWrong(t.found, cause))
  }

  /** A trusted compare, every byte as written: on within the pass, or the span is
      verified by this pass, and repaired if it was written over before. */
  ghost predicate SameBytes(f: InFlight, got: seq<byte>, g: Option<InFlight>, was: Stats, now: Stats, t: Trail,
                            u: Trail, end: Moment, spanDone: bool)
  {
    if f.done + |got| < f.span.len then
      && !spanDone && g == Some(f.(done := f.done + |got|)) && now == was
      && u == t.(upTo := end.accesses, bytes := t.bytes + got, pending := false)
    else
      && spanDone && g.Some? && g.value.span == f.span
      && (f.pass.Reverify? ==> t.found.Some?)
      && u.evidence == With(t, f.span, end,
           if f.pass.Reverify? then Repaired(t.found.value, t.wrote, t.from, t.bytes + got)
           else Verified(t.from, t.bytes + got))
      && now == was.(spansVerified := was.spansVerified + 1, bytesVerified := was.bytesVerified + f.span.len,
                     spansRewrittenOk := was.spansRewrittenOk + if f.pass.Reverify? then 1 else 0)
  }

  /** A trusted compare, byte `i` not as written: a mismatch, and the span is written
      over; or the span is left wrong if it was already. */
  ghost predicate OtherBytes(f: InFlight, i: nat, g: Option<InFlight>, was: Stats, now: Stats, t: Trail, u: Trail,
                             end: Moment, spanDone: bool)
  {
    && end.accesses > 0
    && var m := Mismatch(end.accesses - 1, i);
    if f.pass.Verify? then
      && !spanDone && g == Some(InFlight(f.span, Rewrite, 0))
      && now == was.(spansMismatched := was.spansMismatched + 1)
      && u.found == Some(m) && u.since == t.since && u.evidence == t.evidence
    else
      && spanDone && g == Some(f) && now == was.(spansUnrepaired := was.spansUnrepaired + 1)
      && u.evidence == With(t, f.span, end, LeftWrong(t.found, Again(m, t.wrote, t.from, t.rewrote)))
  }

  function Max(a: int, b: int): int
  {
    if a < b then b else a
  }

  function Min(a: nat, b: nat): nat
  {
    if a < b then a else b
  }

  lemma MovedOn(w0: Stream, w1: Stream, w2: Stream, p0: seq<Span>, p1: seq<Span>, p2: seq<Span>,
                b0: seq<nat>, b1: seq<nat>, b2: seq<nat>)
    requires Extends(w0, w1) && Extends(w1, w2) && IsPrefix(p0, p1) && IsPrefix(p1, p2)
    requires IsPrefix(b0, b1) && IsPrefix(b1, b2)
    ensures Extends(w0, w2) && IsPrefix(p0, p2) && IsPrefix(b0, b2)
  {
    ExtendsTrans(w0, w1, w2);
  }

  lemma SamePlaces<T(!new)>(a: seq<T>, b: seq<T>)
    requires IsPrefix(a, b)
    ensures |a| <= |b| && forall i :: 0 <= i < |a| ==> b[i] == a[i]
  {}

  lemma WithOneMore<T(!new)>(a: seq<T>, b: seq<T>)
    requires |b| == |a| + 1 && b[..|a|] == a
    ensures IsPrefix(a, b)
  {}

  /** What pieces a span in flight can still have used. */
  lemma BudgetUsed(f: InFlight, g: InFlight, more: nat, piece: nat)
    requires piece > 0 && f.done <= f.span.len && g.done <= g.span.len && g.span == f.span
    requires PiecesLeft(g, piece) + more + 1 <= PiecesLeft(f, piece)
    ensures more + 1 < 3 * Pieces(g.span.len, piece)
    ensures g.pass.Verify? ==> more + 1 < Pieces(g.span.len, piece)
  {
    AtMostThreePasses(f, piece);
    SomePiecesLeft(g, piece);
  }

  lemma NothingAppended(written: Stream, pos: nat)
    ensures Appended(written, pos, []) == written
  {}

  lemma NothingLeft(left: set<nat>, pos: nat, n: nat)
    requires forall q :: q in left ==> pos <= q < pos + n
    requires forall q :: pos <= q < pos + n ==> q !in left
    ensures left == {}
  {}

  lemma PartFresh(bases: seq<nat>, partBase: nat, written: Stream)
    requires bases != [] && bases[|bases| - 1] == partBase
    ensures PartOpen(bases, partBase, partBase, written)
  {}

  lemma PartGrows(bases: seq<nat>, partBase: nat, head: nat, written: Stream, data: seq<byte>)
    requires PartOpen(bases, partBase, head, written)
    ensures PartOpen(bases, partBase, head + |data|, Appended(written, head, data))
  {}

  lemma PathAdded(parts: seq<nat>, count: nat)
    requires PathsKept(parts, count)
    ensures parts == [] <==> count == 0
    ensures parts != [] ==> parts[|parts| - 1] + 1 == count
    ensures PathsKept(parts + [count], count + 1)
  {}

  lemma ReserveNothing(v: RingState, pos: nat)
    ensures v.Reserve(pos, []) == v.(reserve := pos, copying := Some(Copy(pos, [], {})))
  {
    assert Appended(v.written, pos, []) == v.written;
  }

  lemma QueuedPush(pushed: seq<Span>, popped: nat, bases: seq<nat>, kept: nat, head: nat, written: Stream,
                   ringBytes: nat, s: Span)
    requires QueuedOk(pushed, popped, bases, kept, head, written, ringBytes)
    requires SpanWritten(s, bases, head, written) && s.part == |bases| - 1 && s.len <= ringBytes && kept > 0
    ensures QueuedOk(pushed + [s], popped, bases, kept, head, written, ringBytes)
  {
    assert forall i :: popped <= i < |pushed| ==> pushed[i].part < |bases|;
  }

  lemma QueuedPop(pushed: seq<Span>, popped: nat, bases: seq<nat>, kept: nat, head: nat, written: Stream,
                  ringBytes: nat, k: nat)
    requires QueuedOk(pushed, popped, bases, kept, head, written, ringBytes)
    ensures QueuedOk(pushed, popped + k, bases, kept, head, written, ringBytes)
  {
    hide SpanWritten;
  }

  lemma BalancedSkip(stats: Stats, skipped: nat, fault: bool, offered: nat, open: int, k: nat)
    requires Balanced(stats, skipped, fault, offered, open)
    ensures Balanced(stats, skipped + k, fault, offered, open - k)
  {}

  lemma IdleMeansPublished(v: RingState)
    requires v.Holds() && v.copying.None?
    ensures v.head == v.reserve
  {}

  lemma CopyEnds(v: RingState)
    requires v.Holds() && v.copying.Some?
    ensures v.head <= v.reserve && v.reserve == v.copying.value.pos + |v.copying.value.data|
  {}

  /** Before anything is written. */
  lemma NothingYet(slots: seq<Span>, ring: seq<byte>, ringBytes: nat)
    requires |slots| == QUEUE_SLOTS && |ring| == ringBytes > 0
    ensures QueueHolds(slots, 0, 0, [], 0) && RingState(ring, 0, 0, map[], None).Holds()
    ensures PartOpen([], 0, 0, map[]) && PathsKept([], 0) && QueuedOk([], 0, [], 0, 0, map[], ringBytes)
    ensures forall w: World :: w.h == [] ==> AllTrue([], w)
    ensures Ordered([], Moment(0, 0)) && InQueueOrder([], [])
    ensures Counted(Stats(0, 0, 0, 0, 0, 0, 0), [], false) && Balanced(Stats(0, 0, 0, 0, 0, 0, 0), 0, false, 0, 0)
  {}

  class SpanReadback {
    const ringBytes: nat
    const pieceBytes: nat
    const settleBytes: nat
    const ring: array<byte>
    const queue: array<Span>

    // The environment: the writer's steps, and the medium.
    const script: seq<seq<WriterStep>>
    const medium: Medium
    var now: nat

    // The stream.
    var at: Cursor
    ghost var written: Stream

    // The writer's parts.
    var part: Parts
    var pendingTail: Option<Span>
    ghost var bases: seq<nat>

    // The span queue.
    var push: uint32
    var pop: uint32
    var noMoreWrites: bool
    var released: bool
    ghost var pushed: seq<Span>
    ghost var popped: nat

    // The stepper.
    var inFlight: Option<InFlight>
    var stats: Stats
    var storageFault: bool
    ghost var trail: Trail

    // Both count skips.
    var spansSkipped: nat
    ghost var offered: nat    // spans ever handed over for checking
    ghost var arriving: bool  // one is being queued
    ghost var closing: bool   // what is left is being given up

    ghost function View(): RingState
      reads this`at, this`written, ring
    {
      RingState(ring[..], at.head, at.reserve, written, at.copying)
    }

    ghost predicate ShapeOk()
      reads this`now
    {
      && ringBytes > 0 && ring.Length == ringBytes && pieceBytes > 0 && queue.Length == QUEUE_SLOTS
      && now <= |script|
    }

    ghost predicate QueueOk()
      reads this`push, this`pop, this`pushed, this`popped, queue
    {
      QueueHolds(queue[..], push, pop, pushed, popped)
    }

    ghost predicate PartsOk()
      reads this`bases, this`part, this`at, this`written
    {
      PartOpen(bases, part.base, at.reserve, written) && PathsKept(part.paths, |bases|)
    }

    ghost predicate SpansOk()
      reads this`pushed, this`popped, this`bases, this`part, this`at, this`written, this`pendingTail
    {
      && QueuedOk(pushed, popped, bases, |part.paths|, at.head, written, ringBytes)
      && (pendingTail.Some? ==>
            bases != [] && pendingTail.value.part == |bases| - 1 &&
            SpanWritten(pendingTail.value, bases, at.head, written))
    }

    ghost predicate FlightOk()
      reads this`inFlight, this`trail, this`pushed, this`popped, this`written, this`released, medium`history
    {
      && (trail.judged ==> inFlight.Some?)
      && (released ==> inFlight.None?)
      && |trail.evidence| == popped + trail.ahead + (if trail.judged then 1 else 0)
      && InQueueOrder(trail.evidence, pushed) && (inFlight.Some? ==> trail.ahead == 0)
      && (inFlight.Some? ==>
            && popped < |pushed| && inFlight.value.span == pushed[popped]
            && (!trail.judged ==> FlightHolds(inFlight.value, trail, written, medium.history)))
    }

    ghost function Open(): int
      reads this`pushed, this`popped, this`pendingTail, this`arriving, this`trail
    {
      |pushed| - popped + (if pendingTail.Some? then 1 else 0)
        + (if arriving then 1 else 0) - trail.ahead - (if trail.judged then 1 else 0)
    }

    ghost predicate Repairing()
      reads this`inFlight, this`trail
    {
      inFlight.Some? && !trail.judged && inFlight.value.pass != Verify
    }

    ghost predicate BooksOk()
      reads this`stats, this`spansSkipped, this`storageFault, this`offered, this`pushed, this`popped,
            this`pendingTail, this`arriving, this`inFlight, this`trail
    {
      && Balanced(stats, spansSkipped, storageFault, offered, Open())
      && Counted(stats, trail.evidence, Repairing())
    }

    ghost function Facts(): World
      reads this`written, this`bases, this`at, this`closing, medium`history
    {
      World(written, bases, medium.history, medium.answers, at.reserve, ringBytes, closing)
    }

    ghost function Now(): Moment
      reads medium`history, medium`asked
    {
      Moment(|medium.history|, medium.asked)
    }

    /** Every verdict so far has its reason. */
    ghost predicate VerdictsOk()
      reads this`trail, this`written, this`bases, this`at, this`closing, medium`history, medium`asked
    {
      && AllTrue(trail.evidence, Facts()) && Ordered(trail.evidence, trail.since) && NotAfter(trail.since, Now())
    }

    ghost predicate Valid()
      reads this, ring, queue, medium
    {
      ShapeOk() && View().Holds() && QueueOk() && PartsOk() && SpansOk() && FlightOk() && BooksOk() && VerdictsOk()
    }

    constructor (ringBytes: nat, pieceBytes: nat, settleBytes: nat, script: seq<seq<WriterStep>>,
                 answers: nat -> Answer)
      ensures Valid() && fresh(ring) && fresh(queue) && fresh(medium) && medium.answers == answers
      ensures this.ringBytes == RoundUpToPage(if ringBytes < PAGE_BYTES then PAGE_BYTES else ringBytes)
      ensures this.pieceBytes == RoundUpToPage(if pieceBytes < PAGE_BYTES then PAGE_BYTES else pieceBytes)
      ensures Resting() && offered == 0 && !noMoreWrites && !released && !closing
    {
      hide QueueHolds, RingState.Holds, Balanced, Counted, AllTrue, Ordered, QueuedOk, PartOpen, PathsKept, Sum;
      this.ringBytes := RoundUpToPage(if ringBytes < PAGE_BYTES then PAGE_BYTES else ringBytes);
      this.pieceBytes := RoundUpToPage(if pieceBytes < PAGE_BYTES then PAGE_BYTES else pieceBytes);
      this.settleBytes := settleBytes;
      this.script, now := script, 0;
      medium := new Medium(answers);
      ring := new byte[RoundUpToPage(if ringBytes < PAGE_BYTES then PAGE_BYTES else ringBytes)];
      queue := new Span[QUEUE_SLOTS](i => Span(0, 0, 0, 0, false));
      at, written := Cursor(0, 0, None), map[];
      part, pendingTail, bases := Parts([], 0), None, [];
      push, pop, noMoreWrites, released, pushed, popped := 0, 0, false, false, [], 0;
      inFlight, trail := None, Trail(Moment(0, 0), 0, 0, [], false, None, 0, [], false, 0, []);
      stats, storageFault := Stats(0, 0, 0, 0, 0, 0, 0), false;
      spansSkipped, offered, arriving, closing := 0, 0, false, false;
      new;
      NothingYet(queue[..], ring[..], this.ringBytes);
    }

    // ---- the writer's thread ---------------------------------------------------

    /** The writer only ever adds. */
    twostate predicate WriterAdded()
      reads this`at, this`written, this`pushed, this`bases
    {
      && old(at.reserve) <= at.reserve && old(at.head) <= at.head && Extends(old(written), written)
      && IsPrefix(old(pushed), pushed) && IsPrefix(old(bases), bases)
    }

    /** And nothing once it has finished. */
    twostate predicate WriterMoved()
      reads this`at, this`written, this`pushed, this`bases, this`noMoreWrites
    {
      && WriterAdded()
      && (old(at.copying.None? && noMoreWrites) ==> at == old(at) && pushed == old(pushed))
    }

    ghost function TheWriter(): Writer
      reads this`at, this`written, this`bases, this`pendingTail, this`pushed, this`spansSkipped, this`offered, ring
    {
      Writer(View(), bases, pendingTail, pushed, spansSkipped, offered)
    }

    /** Valid, with no call of the writer's half way through queueing. */
    ghost predicate Steady()
      reads this, ring, queue, medium
    {
      Valid() && !arriving
    }

    /** The writer is between calls, and has not finished. */
    predicate WriterIdle()
      reads this`at, this`noMoreWrites
    {
      at.copying.None? && !noMoreWrites
    }

    method CountSkipped(n: nat)
      modifies this`spansSkipped
      ensures spansSkipped == old(spansSkipped) + n
    {
      spansSkipped := spansSkipped + n;
    }

    /** Drop the paths no queued span names. */
    method ForgetPartsNoSpanNames()
      requires Valid()
      modifies this`part
      ensures Valid() && part.base == old(part).base
      ensures |part.paths| <= |old(part).paths| && part.paths == old(part).paths[|old(part).paths| - |part.paths|..]
      ensures |part.paths| > 1 ==> popped < |pushed| && part.paths[0] == pushed[popped].part
    {
      hide SpanReadback.VerdictsOk, SpanWritten, RingState.Holds, PartOpen, QueueHolds, Slot, SpanReadback.FlightOk,
           SpanReadback.BooksOk;
      QueueFront();
      QueueSize(queue[..], push, pop, pushed, popped);
      var oldest := if push == pop then None else Some(queue[Slot(pop, QUEUE_SLOTS)].part);
      var paths := part.paths;
      while |paths| > 1 && Some(paths[0]) != oldest && paths[0] != part.paths[|part.paths| - 1]
        invariant PathsKept(paths, |bases|) && QueuedOk(pushed, popped, bases, |paths|, at.head, written, ringBytes)
        invariant |paths| <= |part.paths| && paths == part.paths[|part.paths| - |paths|..]
        decreases |paths|
      {
        paths := paths[1..];
      }
      part := part.(paths := paths);
    }

    /** A part opens: its offset 0 is the next page of the stream. The new head is
        not published yet. */
    method OpenPart()
      requires Valid() && WriterIdle()
      modifies this`pendingTail, this`spansSkipped, this`part, this`at, this`bases
      ensures Valid() && WriterAdded() && pendingTail.None?
      ensures spansSkipped == old(spansSkipped) + if old(pendingTail).Some? then 1 else 0
      ensures part.base == RoundUpToPage(at.head) && bases == old(bases) + [part.base]
      ensures at == Cursor(old(at.head), part.base, Some(Copy(part.base, [], {})))
    {
      hide SpanReadback.Valid;
      DropTail();
      ForgetPartsNoSpanNames();
      StartPart();
    }

    method StartPart()
      requires Valid() && WriterIdle() && pendingTail.None?
      modifies this`part, this`at, this`bases
      ensures Valid() && WriterAdded()
      ensures part.base == RoundUpToPage(at.head) && bases == old(bases) + [part.base]
      ensures at == Cursor(old(at.head), part.base, Some(Copy(part.base, [], {})))
    {
      hide SpanWritten, Extends, RingState.Holds, QueuedOk, RoundUpToPage, RingState.Reserve, PathsKept, PartOpen,
           SpanReadback.QueueOk, SpanReadback.FlightOk, Balanced, Counted, AllTrue;
      var paths := part.paths;
      var number := if paths == [] then 0 else paths[|paths| - 1] + 1;
      var base := RoundUpToPage(at.head);
      ghost var v, bases' := View(), bases + [base];
      PathAdded(paths, |bases|);
      IdleMeansPublished(v);
      ReserveKeeps(v, base, []);
      ReserveNothing(v, base);
      ExtendsSelf(written);
      QueuedStays(pushed, popped, bases, |paths|, at.head, written, ringBytes, bases', |paths| + 1, at.head, written);
      PartFresh(bases', base, written);
      TrueStaysTrue(trail.evidence, Facts(), Facts().(bases := bases', reserve := base));
      part := Parts(paths + [number], base);
      bases := bases';
      at := at.(reserve := base, copying := Some(Copy(base, [], {})));
      assert View() == v.Reserve(base, []);
    }

    /** A tail that was never committed counts as skipped. */
    method DropTail()
      requires Valid()
      modifies this`pendingTail, this`spansSkipped
      ensures Valid() && pendingTail.None?
      ensures spansSkipped == old(spansSkipped) + if old(pendingTail).Some? then 1 else 0
    {
      hide SpanReadback.VerdictsOk, SpanWritten, Extends, AllTrue, FlightHolds, RingState.Holds, QueueHolds,
           PathsKept, PartOpen;
      if pendingTail.Some? {
        CountSkipped(1);
        pendingTail := None;
      }
    }

    /** Announce a write, before the ring is touched. */
    method ReserveBytes(fileOff: nat, data: seq<byte>)
      requires Valid() && WriterIdle() && bases != [] && part.base + fileOff == at.head && data != []
      modifies this`at, this`written
      ensures Valid() && WriterAdded()
      ensures View() == old(View()).Reserve(part.base + fileOff, data)
    {
      hide SpanWritten, Balanced, Counted, AllTrue, FlightHolds, RingState.Holds, QueuedOk, Extends, PartOpen,
           PathsKept, Appended, Positions, SpanReadback.QueueOk;
      var pos := part.base + fileOff;
      var drop := if |data| > ringBytes then |data| - ringBytes else 0;
      ghost var v := View();
      IdleMeansPublished(v);
      ReserveKeeps(v, pos, data);
      ghost var written' := v.Reserve(pos, data).written;
      StreamGrew(written', pos + |data|);
      PartGrows(bases, part.base, at.head, written, data);
      at := Cursor(at.head, pos + |data|, Some(Copy(pos + drop, data[drop..], Positions(pos + drop, |data| - drop))));
      written := written';
      assert View() == v.Reserve(pos, data);
    }

    /** What only reads the stream stays as it was when the stream grows. */
    lemma StreamGrew(written': Stream, reserve: nat)
      requires Valid() && Extends(written, written') && at.reserve <= reserve
      ensures QueuedOk(pushed, popped, bases, |part.paths|, at.head, written', ringBytes)
      ensures pendingTail.Some? ==> SpanWritten(pendingTail.value, bases, at.head, written')
      ensures inFlight.Some? && !trail.judged ==> FlightHolds(inFlight.value, trail, written', medium.history)
      ensures AllTrue(trail.evidence, Facts().(written := written', reserve := reserve))
    {
      hide SpanWritten, Balanced, Counted, AllTrue, FlightHolds, RingState.Holds, QueueHolds, QueuedOk, Extends;
      ghost var n := |part.paths|;
      QueuedStays(pushed, popped, bases, n, at.head, written, ringBytes, bases, n, at.head, written');
      if pendingTail.Some? { SpanStays(pendingTail.value, bases, at.head, written, bases, at.head, written'); }
      if inFlight.Some? && !trail.judged { FlightStays(inFlight.value, trail, written, written', medium.history); }
      TrueStaysTrue(trail.evidence, Facts(), Facts().(written := written', reserve := reserve));
    }

    /** Copy one byte of the write under way. */
    method CopyByte(q: nat, idx: nat)
      requires ringBytes > 0 && idx == Slot(q, ringBytes)
      requires Valid() && at.copying.Some? && q in at.copying.value.left && at.copying.value.pos <= q < at.reserve
      modifies ring, this`at
      ensures Valid() && WriterAdded()
      ensures View() == old(View()).CopyByte(q)
    {
      hide SpanWritten, RingState.Holds, QueuedOk, SpanReadback.QueueOk, SpanReadback.FlightOk, SpanReadback.BooksOk,
           PartOpen, PathsKept;
      ghost var v := View();
      CopyEnds(v);
      CopyByteKeeps(v, q);
      var c := at.copying.value;
      ring[idx] := c.data[q - c.pos];
      at := at.(copying := Some(c.(left := c.left - {q})));
      assert View() == v.CopyByte(q);
    }

    /** Everything is copied: publish the head. */
    method Publish()
      requires Valid() && at.copying.Some? && at.copying.value.left == {}
      modifies this`at
      ensures Valid() && WriterAdded() && at == Cursor(old(at.reserve), old(at.reserve), None)
    {
      hide SpanWritten, RingState.Holds, QueuedOk, SpanReadback.QueueOk, SpanReadback.FlightOk, SpanReadback.BooksOk,
           PartOpen, PathsKept;
      ghost var v, n := View(), |part.paths|;
      CopyEnds(v);
      PublishKeeps(v);
      ExtendsSelf(written);
      QueuedStays(pushed, popped, bases, n, at.head, written, ringBytes, bases, n, at.reserve, written);
      if pendingTail.Some? { SpanStays(pendingTail.value, bases, at.head, written, bases, at.reserve, written); }
      at := Cursor(at.reserve, at.reserve, None);
      assert View() == v.Publish();
    }

    /** Queue a span the writer no longer holds dirty; a full queue skips it. */
    method Enqueue(s: Span)
      requires Valid() && arriving && bases != [] && s.part == |bases| - 1 && SpanWritten(s, bases, at.head, written)
      modifies this`spansSkipped, this`push, this`pushed, this`arriving, queue
      ensures Valid() && !arriving && WriterAdded()
      ensures pushed == old(pushed) + if s.len <= ringBytes && |old(pushed)| - popped < QUEUE_SLOTS then [s] else []
      ensures spansSkipped == old(spansSkipped) + 1 - (|pushed| - |old(pushed)|)
    {
      hide SpanReadback.VerdictsOk, SpanWritten, Sum, AllTrue, FlightHolds, QueueHolds, PathsKept, Slot, Extends,
           QueuedOk, RingState.Holds, PartOpen;
      ExtendsSelf(written);
      QueueSize(queue[..], push, pop, pushed, popped);
      if s.len > ringBytes || Minus32(push, pop) == QUEUE_SLOTS {
        arriving := false;
        CountSkipped(1);
        return;
      }
      PushSpan(s);
    }

    method PushSpan(s: Span)
      requires Valid() && arriving && bases != [] && s.part == |bases| - 1 && SpanWritten(s, bases, at.head, written)
      requires s.len <= ringBytes && |pushed| - popped < QUEUE_SLOTS
      modifies this`push, this`pushed, this`arriving, queue
      ensures Valid() && !arriving && pushed == old(pushed) + [s]
    {
      hide SpanReadback.VerdictsOk, SpanWritten, Counted, AllTrue, FlightHolds, QueueHolds, PathsKept, Slot,
           QueuedOk, RingState.Holds, PartOpen, Ordered, Balanced;
      PathAdded(part.paths, |bases|);
      ghost var slots := queue[..];
      PushKeeps(slots, push, pop, pushed, popped, s);
      QueuedPush(pushed, popped, bases, |part.paths|, at.head, written, ringBytes, s);
      queue[Slot(push, QUEUE_SLOTS)] := s;
      assert queue[..] == slots[Slot(push, QUEUE_SLOTS) := s];
      push := Next32(push);
      pushed := pushed + [s];
      arriving := false;
    }

    /** A span of the open part is on the medium and out of the page cache. */
    method OnSpanEvicted(fileOff: nat, len: nat)
      requires Valid() && WriterIdle() && !arriving && bases != [] && part.base + fileOff + len <= at.head
      modifies this`spansSkipped, this`push, this`pushed, this`arriving, this`offered, queue
      ensures Valid() && !arriving && WriterAdded() && offered == old(offered) + 1
      ensures var s := Span(|bases| - 1, fileOff, len, part.base + fileOff, false);
        pushed == old(pushed) + if len <= ringBytes && |old(pushed)| - popped < QUEUE_SLOTS then [s] else []
      ensures spansSkipped == old(spansSkipped) + 1 - (|pushed| - |old(pushed)|)
    {
      hide SpanReadback.VerdictsOk, RingState.Holds, QueueHolds, QueuedOk, FlightHolds, AllTrue, Counted, PathsKept;
      PathAdded(part.paths, |bases|);
      PublishedInPart();
      Arrive();
      Enqueue(Span(part.paths[|part.paths| - 1], fileOff, len, part.base + fileOff, false));
    }

    lemma PublishedInPart()
      requires Valid() && at.copying.None? && bases != []
      ensures bases[|bases| - 1] == part.base <= at.head
      ensures forall q :: part.base <= q < at.head ==> q in written
    {
      hide QueueHolds, QueuedOk, FlightHolds, AllTrue, Counted, PathsKept;
    }

    /** One more span is handed over. */
    ghost method Arrive()
      requires Valid() && !arriving
      modifies this`arriving, this`offered
      ensures Valid() && arriving && offered == old(offered) + 1
    {
      hide SpanReadback.VerdictsOk, SpanWritten, Counted, AllTrue, FlightHolds, QueueHolds, PathsKept, QueuedOk,
           RingState.Holds, PartOpen;
      arriving := true;
      offered := offered + 1;
    }

    /** The rest of the part will not be evicted. */
    method OnSyncDisabled()
      requires Valid()
      modifies this`spansSkipped, this`offered
      ensures Valid() && offered == old(offered) + 1 && spansSkipped == old(spansSkipped) + 1
    {
      hide SpanReadback.VerdictsOk, SpanWritten, Counted, AllTrue, FlightHolds, QueueHolds, PathsKept, QueuedOk,
           RingState.Holds, PartOpen;
      CountSkipped(1);
      offered := offered + 1;
    }

    /** The part's stream ended: what was never evicted is kept for later. */
    method NotePartEnd(from: nat, fileSize: nat, syncDisabled: bool)
      requires Valid() && WriterIdle() && bases != [] && pendingTail.None? && fileSize == at.head - part.base
      modifies this`spansSkipped, this`offered, this`pendingTail
      ensures Valid() && offered == old(offered) + (if fileSize <= from then 0 else 1)
      ensures pendingTail == if fileSize <= from || syncDisabled then None
                             else Some(Span(|bases| - 1, from, fileSize - from, part.base + from, true))
      ensures spansSkipped == old(spansSkipped) + if fileSize > from && syncDisabled then 1 else 0
    {
      hide SpanReadback.VerdictsOk, QueueHolds, QueuedOk, FlightHolds, AllTrue, Counted, PathsKept, RingState.Holds;
      if fileSize <= from { return; }
      if syncDisabled {
        OnSyncDisabled();
        return;
      }
      PathAdded(part.paths, |bases|);
      PublishedInPart();
      pendingTail := Some(Span(part.paths[|part.paths| - 1], from, fileSize - from, part.base + from, true));
      offered := offered + 1;
    }

    /** After the part's fsync: queue its tail. */
    method CommitTail()
      requires Valid() && !arriving
      modifies this`spansSkipped, this`push, this`pushed, this`arriving, this`pendingTail, queue
      ensures Valid() && !arriving && pendingTail.None? && WriterAdded()
      ensures old(pendingTail).None? ==> pushed == old(pushed)
      ensures old(pendingTail).Some? ==>
        var s := old(pendingTail).value;
        pushed == old(pushed) + if s.len <= ringBytes && |old(pushed)| - popped < QUEUE_SLOTS then [s] else []
      ensures spansSkipped == old(spansSkipped) + if old(pendingTail).None? then 0 else 1 - (|pushed| - |old(pushed)|)
    {
      hide SpanReadback.VerdictsOk, SpanWritten, Counted, AllTrue, FlightHolds, QueueHolds, PathsKept, QueuedOk,
           RingState.Holds, PartOpen, Extends;
      ExtendsSelf(written);
      if pendingTail.None? { return; }
      var s := pendingTail.value;
      pendingTail := None;
      arriving := true;
      Enqueue(s);
    }

    /** A part opens. */
    method BeginPart()
      requires Valid() && WriterIdle() && !arriving
      modifies this`pendingTail, this`spansSkipped, this`part, this`at, this`bases
      ensures Valid() && WriterIdle()
      ensures part.base == RoundUpToPage(old(at.head)) && at.head == part.base && bases == old(bases) + [part.base]
    {
      hide SpanReadback.Valid;
      OpenPart();
      Publish();
    }

    /** The writer's bytes land in the file, and in the ring: announced, copied up to
        the wrap and past it, published. */
    method OnBytesWritten(fileOff: nat, data: seq<byte>)
      requires Valid() && WriterIdle() && bases != [] && part.base + fileOff == at.head
      modifies this`at, this`written, ring
      ensures Valid() && WriterIdle()
      ensures at.head == old(at.head) + |data| && written == Appended(old(written), old(at.head), data)
    {
      hide SpanReadback.Valid, Appended, Positions, Slot, Extends;
      if data == [] {
        NothingAppended(written, at.head);
        return;
      }
      SizeOk();
      ReserveBytes(fileOff, data);
      CopyAll();
      Publish();
    }

    /** Both memcpys of the write under way. */
    method CopyAll()
      requires Valid() && at.copying.Some? && ringBytes > 0 && |at.copying.value.data| <= ringBytes
      requires at.reserve == at.copying.value.pos + |at.copying.value.data|
      requires forall q :: q in at.copying.value.left <==> at.copying.value.pos <= q < at.reserve
      modifies this`at, ring
      ensures Valid() && at.copying.Some? && at.copying.value.left == {} && at == old(at).(copying := at.copying)
    {
      hide SpanReadback.Valid, Slot, SpanReadback.SliceAtWrap;
      var pos, n := at.copying.value.pos, |at.copying.value.data|;
      var slice := SliceAtWrap(pos, n);
      SliceIsSlots(pos, n);
      CopyRun(pos, 0, slice.firstLen, slice.firstIdx);
      if slice.firstLen < n {
        CopyRun(pos, slice.firstLen, n, 0);
      }
      NothingLeft(at.copying.value.left, pos, n);
    }

    lemma SizeOk()
      requires Valid()
      ensures ringBytes == ring.Length > 0 && pieceBytes > 0
    {}

    /** Where stream positions `[pos, pos + n)` sit in the ring. */
    function SliceAtWrap(pos: nat, n: nat): RingSlice
      requires ringBytes > 0
    {
      var idx := pos % ringBytes;
      RingSlice(idx, if n <= ringBytes - idx then n else ringBytes - idx)
    }

    lemma SliceIsSlots(pos: nat, n: nat)
      requires 0 < ringBytes && n <= ringBytes
      ensures var s := SliceAtWrap(pos, n);
        && s.firstLen <= n
        && (forall q :: pos <= q < pos + s.firstLen ==> Slot(q, ringBytes) == s.firstIdx + (q - pos))
        && (forall q :: pos + s.firstLen <= q < pos + n ==> Slot(q, ringBytes) == q - pos - s.firstLen)
    {
      var s := SliceAtWrap(pos, n);
      forall q | pos <= q < pos + n
        ensures Slot(q, ringBytes) == if q < pos + s.firstLen then s.firstIdx + (q - pos) else q - pos - s.firstLen
      {
        SlotRuns(pos, q - pos, ringBytes);
      }
    }

    /** One memcpy of the write under way: its bytes `from` to `to`, to slot `idx`
        on. */
    method CopyRun(pos: nat, from: nat, to: nat, idx: nat)
      requires Valid() && ringBytes > 0 && at.copying.Some? && from <= to <= |at.copying.value.data|
      requires at.copying.value.pos == pos && at.reserve == pos + |at.copying.value.data|
      requires forall q :: pos + from <= q < pos + to ==>
        q in at.copying.value.left && Slot(q, ringBytes) == idx + (q - pos - from)
      modifies this`at, ring
      ensures Valid() && at.copying.Some? && at == old(at).(copying := at.copying)
      ensures at.copying.value == old(at.copying.value).(left := at.copying.value.left)
      ensures forall q :: q in at.copying.value.left <==>
        q in old(at.copying.value.left) && !(pos + from <= q < pos + to)
    {
      hide SpanReadback.Valid, Slot, Extends;
      var k := from;
      while k < to
        invariant from <= k <= to && Valid()
        invariant at.copying.Some? && at == old(at).(copying := at.copying)
        invariant at.copying.value == old(at.copying.value).(left := at.copying.value.left)
        invariant forall q :: q in at.copying.value.left <==>
          q in old(at.copying.value.left) && !(pos + from <= q < pos + k)
      {
        CopyByte(pos + k, idx + (k - from));
        k := k + 1;
      }
    }

    // ---- interleaving ------------------------------------------------------------

    /** One step of the writer's, if it can take it now: a call of its own in the
        order its contract allows, or the next part of one under way. */
    method WriterDoes(step: WriterStep)
      requires Steady()
      modifies this`at, this`written, this`part, this`bases, this`pendingTail, this`push, this`pushed,
               this`spansSkipped, this`offered, this`arriving, ring, queue
      ensures Steady() && WriterMoved()
      ensures TheWriter() == StepOf(old(TheWriter()), step, popped, ringBytes, noMoreWrites)
    {
      hide SpanReadback.Valid, SpanReadback.WriterMoved, StepOf;
      if step.StepReserve? || step.StepCopy? || step.StepPublish? {
        WritesBytes(step);
      } else {
        HandsOver(step);
      }
    }

    /** A step of a write of bytes. */
    method WritesBytes(step: WriterStep)
      requires Steady() && (step.StepReserve? || step.StepCopy? || step.StepPublish?)
      modifies this`at, this`written, ring
      ensures Steady() && WriterMoved()
      ensures TheWriter() == StepOf(old(TheWriter()), step, popped, ringBytes, noMoreWrites)
    {
      hide SpanReadback.Valid, Slot, Extends, IsPrefix, Appended, RoundUpToPage, RingState.CopyByte, RingState.Reserve;
      Unchanged();
      match step
      case StepReserve(data) =>
        if WriterIdle() && part.paths != [] && data != [] { ReserveBytes(at.head - part.base, data); }
      case StepCopy(q) =>
        if at.copying.Some? && q in at.copying.value.left && at.copying.value.pos <= q < at.reserve {
          CopyByte(q, Slot(q, ringBytes));
        }
      case StepPublish =>
        if at.copying.Some? && at.copying.value.left == {} { Publish(); }
      case _ =>
    }

    /** A call that opens a part, or hands over spans. */
    method HandsOver(step: WriterStep)
      requires Steady() && !step.StepReserve? && !step.StepCopy? && !step.StepPublish?
      modifies this`at, this`part, this`bases, this`pendingTail, this`push, this`pushed, this`spansSkipped,
               this`offered, this`arriving, queue
      ensures Steady() && WriterMoved()
      ensures TheWriter() == StepOf(old(TheWriter()), step, popped, ringBytes, noMoreWrites)
    {
      hide SpanReadback.Valid, Slot, Extends, IsPrefix, Appended, RoundUpToPage, RingState.CopyByte, RingState.Reserve;
      Unchanged();
      match step
      case StepOpenPart =>
        if WriterIdle() { OpenPart(); }
      case StepEvict(fileOff, len) =>
        if WriterIdle() && part.paths != [] && part.base + fileOff + len <= at.head { OnSpanEvicted(fileOff, len); }
      case StepSyncDisabled =>
        if WriterIdle() { OnSyncDisabled(); }
      case StepPartEnd(from, disabled) =>
        if WriterIdle() && part.paths != [] && pendingTail.None? { NotePartEnd(from, at.head - part.base, disabled); }
      case StepCommitTail =>
        if WriterIdle() { CommitTail(); }
      case _ =>
    }

    /** What every step starts from. */
    lemma Unchanged()
      requires Valid()
      ensures Extends(written, written) && IsPrefix(pushed, pushed) && IsPrefix(bases, bases)
      ensures part.paths == [] <==> bases == []
      ensures at.copying.None? && bases != [] ==> part.base <= at.head
      ensures ringBytes == ring.Length > 0 && (bases != [] ==> bases[|bases| - 1] == part.base)
      ensures at.copying.Some? ==> at.reserve == at.copying.value.pos + |at.copying.value.data|
    {
      hide RingState.Holds, QueueHolds, QueuedOk, FlightHolds, AllTrue, Counted, SpanWritten;
      if at.copying.None? && bases != [] { PublishedInPart(); }
      if at.copying.Some? { CopyEnds(View()); }
    }

    /** The writer has taken the steps the script has here, and no others. */
    twostate predicate WroteAsScripted()
      reads this`now, this`at, this`written, this`bases, this`pendingTail, this`pushed, this`spansSkipped,
            this`offered, this`popped, this`noMoreWrites, ring
    {
      var steps := if old(now) < |script| then script[old(now)] else [];
      TheWriter() == StepsOf(old(TheWriter()), steps, popped, ringBytes, noMoreWrites)
    }

    /** The stepper is about to touch shared state: the writer runs first, for as
        long as it likes. */
    method Yield()
      requires Steady()
      modifies this`now, this`at, this`written, this`part, this`bases, this`pendingTail, this`push, this`pushed,
               this`spansSkipped, this`offered, this`arriving, ring, queue
      ensures Steady() && WriterMoved()
      ensures now == if old(now) < |script| then old(now) + 1 else old(now)
      ensures now == old(now) ==> pushed == old(pushed)
      ensures WroteAsScripted()
    {
      hide SpanReadback.Valid, Extends, IsPrefix, StepOf;
      Unchanged();
      if now >= |script| {
        Exhausted();
        return;
      }
      var steps := script[now];
      Tick();
      var i := 0;
      while i < |steps|
        invariant 0 <= i <= |steps| && Steady() && WriterMoved() && now == old(now) + 1
        invariant TheWriter() == StepsOf(old(TheWriter()), steps[..i], popped, ringBytes, noMoreWrites)
      {
        ghost var w, p, b := written, pushed, bases;
        WriterDoes(steps[i]);
        assert steps[..i + 1][..i] == steps[..i];
        MovedOn(old(written), w, written, old(pushed), p, pushed, old(bases), b, bases);
        i := i + 1;
      }
      assert steps[..i] == steps;
    }

    lemma Exhausted()
      requires Valid()
      ensures now <= |script|
    {}

    method Tick()
      requires Valid() && now < |script|
      modifies this`now
      ensures Valid() && now == old(now) + 1
    {
      hide SpanReadback.VerdictsOk, RingState.Holds, QueueHolds, QueuedOk, FlightHolds, Balanced, AllTrue, Counted,
           SpanWritten, PathsKept, PartOpen;
      now := now + 1;
    }

    // ---- the stepper's thread: what it reads ------------------------------------

    /** The writer has not reserved over any byte of the span in flight. */
    predicate SpanStillInRing()
      requires inFlight.Some?
      reads this`at, this`inFlight
    {
      at.reserve <= inFlight.value.span.ringPos + ringBytes
    }

    /** A ring byte of the span in flight, read while the span is still in the ring,
        is the byte written there. */
    lemma RingByte(q: nat)
      requires Valid() && inFlight.Some?
      requires inFlight.value.span.ringPos <= q < inFlight.value.span.ringPos + inFlight.value.span.len
      ensures ring.Length == ringBytes > 0 && Slot(q, ringBytes) < ringBytes && q in written
      ensures SpanStillInRing() ==> ring[Slot(q, ringBytes)] == written[q]
    {
      hide QueueHolds, AllTrue, Counted, Balanced, PartOpen, PathsKept, Slot;
      assert SpanWritten(pushed[popped], bases, at.head, written);
      assert View().ring[Slot(q, ringBytes)] == ring[Slot(q, ringBytes)];
      if SpanStillInRing() { TrustedByte(View(), q); }
    }

    /** One run of the compare, `got[from..to]` against the slots from `idx` on: the
        index of the first difference, or `to`. */
    method MatchRun(pos: nat, got: seq<byte>, from: nat, to: nat, idx: nat) returns (i: nat)
      requires Steady() && inFlight.Some? && ringBytes > 0 && from <= to <= |got|
      requires var s := inFlight.value.span; s.ringPos <= pos && pos + |got| <= s.ringPos + s.len
      requires forall q :: pos + from <= q < pos + to ==> Slot(q, ringBytes) == idx + (q - pos - from)
      modifies this`now, this`at, this`written, this`part, this`bases, this`pendingTail, this`push, this`pushed,
               this`spansSkipped, this`offered, this`arriving, ring, queue
      ensures Steady() && WriterMoved() && from <= i <= to
      ensures SpanStillInRing() ==> WrittenAt(written, pos + from, got[from..i])
      ensures SpanStillInRing() && i < to ==> pos + i in written && written[pos + i] != got[i]
    {
      hide SpanReadback.WroteAsScripted, SpanReadback.Valid, Extends, IsPrefix, Slot, WrittenAt;
      Unchanged();
      NoneWritten(written, pos + from, got[from..from]);
      i := from;
      while i < to
        invariant from <= i <= to && Steady() && WriterMoved()
        invariant SpanStillInRing() ==> WrittenAt(written, pos + from, got[from..i])
      {
        ghost var w, p, b := written, pushed, bases;
        Yield();
        MovedOn(old(written), w, written, old(pushed), p, pushed, old(bases), b, bases);
        RingByte(pos + i);
        if SpanStillInRing() { WrittenStays(w, written, pos + from, got[from..i]); }
        if ring[idx + (i - from)] != got[i] { return; }
        if SpanStillInRing() { OneMoreWritten(written, pos, got, from, i); }
        i := i + 1;
      }
    }

    /** The first byte of `got` that is not in the ring at `pos` on; `|got|` if all
        are. Only to be believed if the span is still in the ring afterwards. */
    method FindFirstDiffAgainstRing(pos: nat, got: seq<byte>) returns (i: nat)
      requires Steady() && inFlight.Some? && |got| <= ringBytes && ringBytes > 0
      requires var s := inFlight.value.span; s.ringPos <= pos && pos + |got| <= s.ringPos + s.len
      modifies this`now, this`at, this`written, this`part, this`bases, this`pendingTail, this`push, this`pushed,
               this`spansSkipped, this`offered, this`arriving, ring, queue
      ensures Steady() && WriterMoved() && i <= |got|
      ensures SpanStillInRing() ==> WrittenAt(written, pos, got[..i])
      ensures SpanStillInRing() && i < |got| ==> pos + i in written && written[pos + i] != got[i]
    {
      hide SpanReadback.Valid, Extends, IsPrefix, Slot, WrittenAt, SpanReadback.SliceAtWrap;
      var slice := SliceAtWrap(pos, |got|);
      SliceIsSlots(pos, |got|);
      i := MatchRun(pos, got, 0, slice.firstLen, slice.firstIdx);
      assert got[0..i] == got[..i];
      if i == slice.firstLen && slice.firstLen < |got| {
        ghost var w, p, b := written, pushed, bases;
        i := MatchRun(pos, got, slice.firstLen, |got|, 0);
        MovedOn(old(written), w, written, old(pushed), p, pushed, old(bases), b, bases);
        if SpanStillInRing() {
          WrittenStays(w, written, pos, got[..slice.firstLen]);
          WrittenMore(written, pos, got[..slice.firstLen], got[slice.firstLen..i]);
          assert got[..slice.firstLen] + got[slice.firstLen..i] == got[..i];
        }
      }
    }

    /** One memcpy out of the ring. */
    method CopyOutRun(pos: nat, n: nat, idx: nat) returns (bytes: seq<byte>)
      requires Steady() && inFlight.Some? && ringBytes > 0
      requires var s := inFlight.value.span; s.ringPos <= pos && pos + n <= s.ringPos + s.len
      requires forall q :: pos <= q < pos + n ==> Slot(q, ringBytes) == idx + (q - pos)
      modifies this`now, this`at, this`written, this`part, this`bases, this`pendingTail, this`push, this`pushed,
               this`spansSkipped, this`offered, this`arriving, ring, queue
      ensures Steady() && WriterMoved() && |bytes| == n
      ensures SpanStillInRing() ==> WrittenAt(written, pos, bytes)
    {
      hide SpanReadback.WroteAsScripted, SpanReadback.Valid, Extends, IsPrefix, Slot, WrittenAt;
      Unchanged();
      bytes := [];
      NoneWritten(written, pos, bytes);
      var i := 0;
      while i < n
        invariant 0 <= i <= n && |bytes| == i && Steady() && WriterMoved()
        invariant SpanStillInRing() ==> WrittenAt(written, pos, bytes)
      {
        ghost var w, p, b := written, pushed, bases;
        Yield();
        MovedOn(old(written), w, written, old(pushed), p, pushed, old(bases), b, bases);
        RingByte(pos + i);
        var c := ring[idx + i];
        if SpanStillInRing() {
          WrittenStays(w, written, pos, bytes);
          OneWritten(written, pos + i, c);
          WrittenMore(written, pos, bytes, [c]);
        }
        bytes := bytes + [c];
        i := i + 1;
      }
    }

    method CopyFromRing(pos: nat, n: nat) returns (bytes: seq<byte>)
      requires Steady() && inFlight.Some? && n <= ringBytes && ringBytes > 0
      requires var s := inFlight.value.span; s.ringPos <= pos && pos + n <= s.ringPos + s.len
      modifies this`now, this`at, this`written, this`part, this`bases, this`pendingTail, this`push, this`pushed,
               this`spansSkipped, this`offered, this`arriving, ring, queue
      ensures Steady() && WriterMoved() && |bytes| == n
      ensures SpanStillInRing() ==> WrittenAt(written, pos, bytes)
    {
      hide SpanReadback.Valid, Extends, IsPrefix, Slot, WrittenAt, SpanReadback.SliceAtWrap;
      var slice := SliceAtWrap(pos, n);
      SliceIsSlots(pos, n);
      bytes := CopyOutRun(pos, slice.firstLen, slice.firstIdx);
      if slice.firstLen < n {
        ghost var w, p, b := written, pushed, bases;
        var rest := CopyOutRun(pos + slice.firstLen, n - slice.firstLen, 0);
        MovedOn(old(written), w, written, old(pushed), p, pushed, old(bases), b, bases);
        if SpanStillInRing() {
          WrittenStays(w, written, pos, bytes);
          WrittenMore(written, pos, bytes, rest);
        }
        bytes := bytes + rest;
      }
    }

    // ---- the stepper's thread: what it concludes -----------------------------------

    /** Between steps: the span in flight, if any, has no verdict yet. */
    ghost predicate Resting()
      reads this, ring, queue, medium
    {
      Steady() && !trail.judged && !trail.pending && trail.ahead == 0
    }

    /** Within a step: no verdict yet. */
    ghost predicate Deciding()
      reads this, ring, queue, medium
    {
      Steady() && !trail.judged && inFlight.Some? && trail.ahead == 0
    }

    predicate Started(f: InFlight, n: nat)
      reads this`inFlight
    {
      inFlight == Some(f) && f.done <= f.span.len && n == Min(pieceBytes, f.span.len - f.done)
    }

    lemma FlightPlaced()
      requires Valid() && inFlight.Some?
      ensures Placed(inFlight.value.span, bases)
    {
      hide QueueHolds, FlightHolds, AllTrue, Counted, Balanced, RingState.Holds, PartOpen, PathsKept;
      assert SpanWritten(pushed[popped], bases, at.head, written);
    }

    /** The verdict `v` on the span in flight, as of now. */
    ghost function Judgement(v: Verdict): Judged
      requires inFlight.Some?
      reads this`inFlight, this`trail, medium`history, medium`asked
    {
      Judged(inFlight.value.span, trail.since, Now(), v)
    }

    /** The span in flight gets its verdict; the counters have yet to follow. */
    ghost method Judge(v: Verdict)
      requires Deciding() && JudgedTrue(Judgement(v), Facts())
      requires MISMATCHED(Judgement(v)) == if Repairing() then 1 else 0
      modifies this`trail
      ensures trail == old(trail).(since := Now(), judged := true,
                                   evidence := With(old(trail), inFlight.value.span, Now(), v))
      ensures FlightOk() && VerdictsOk()
      ensures Counted(Tally(stats, old(Judgement(v))), trail.evidence, false)
    {
      hide QueuedOk, AllTrue, Ordered, SpanWritten, RingState.Holds, PartOpen, PathsKept, Sum, QueueHolds, FlightHolds;
      hide Counted, Balanced, JudgedTrue;
      ghost var n, j := Now(), Judgement(v);
      OneMoreJudged(trail.evidence, Facts(), trail.since, j);
      CountedMore(stats, trail.evidence, Repairing(), j);
      trail := trail.(since := n, judged := true, evidence := trail.evidence + [j]);
    }

    /** There is cause for the verdict, and it is one the pass allows. */
    ghost predicate HasCause(v: Verdict)
      requires inFlight.Some?
      reads this`inFlight, this`trail, this`written, this`bases, this`at, this`closing, medium`history, medium`asked
    {
      var j, w, first := Judgement(v), Facts(), inFlight.value.pass.Verify?;
      match v
      case LeftWrong(found, cause) =>
        && found == trail.found && CauseTrue(cause, j, w)
        && (first ==> cause.Failed? && w.answers(cause.answer).eio)
        && (cause.Again? ==> inFlight.value.pass.Reverify? && cause.wrote == trail.wrote)
      case Unread(k) => first && CauseTrue(Failed(k), j, w) && (w.answers(k).short || !w.answers(k).eio)
      case Skipped(cause) => first && (cause.RingMoved? || cause.Closing?) && CauseTrue(cause, j, w)
      case _ => false
    }

    /** Past the first pass any failure is cause enough. */
    lemma FailedIsCause(k: nat)
      requires Valid() && inFlight.Some? && !inFlight.value.pass.Verify?
      requires trail.since.asked <= k < medium.asked && !medium.answers(k).ok
      ensures HasCause(LeftWrong(trail.found, Failed(k)))
    {
      hide SpanReadback.Valid;
    }

    lemma UnservedIsCause(short: bool, eio: bool, k: nat)
      requires Valid() && inFlight.Some? && trail.since.asked <= k < medium.asked && !medium.answers(k).ok
      requires eio == medium.answers(k).eio && (short ==> medium.answers(k).short)
      ensures if !inFlight.value.pass.Verify? || (!short && eio) then HasCause(LeftWrong(trail.found, Failed(k)))
              else HasCause(Unread(k))
    {
      hide SpanReadback.Valid;
    }

    lemma AbandonedForCause(cause: Cause)
      requires Valid() && inFlight.Some? && (cause.RingMoved? || cause.Closing?)
      requires (cause.RingMoved? ==> !SpanStillInRing()) && (cause.Closing? ==> closing)
      ensures if inFlight.value.pass.Verify? then HasCause(Skipped(cause)) else HasCause(LeftWrong(trail.found, cause))
    {
      hide SpanReadback.Valid;
    }

    /** What is known of the span in flight, whatever becomes of it. */
    lemma WithoutReading(v: Verdict)
      requires Valid() && inFlight.Some? && !trail.judged && HasCause(v)
      ensures JudgedTrue(Judgement(v), Facts())
      ensures MISMATCHED(Judgement(v)) == if Repairing() then 1 else 0
      ensures inFlight.value.pass.Verify? ==> trail.found.None?
    {
      hide QueueHolds, QueuedOk, AllTrue, Counted, Balanced, RingState.Holds, PartOpen, PathsKept, Run, WrittenAt,
           Ordered, CauseTrue, MismatchTrue;
      FlightPlaced();
    }

    /** The medium is known not to hold what was written. */
    method NoteUnrepaired(ghost cause: Cause)
      requires Deciding() && HasCause(LeftWrong(trail.found, cause))
      modifies this`stats, this`storageFault, this`trail
      ensures Steady() && trail.judged && storageFault
      ensures trail.evidence == With(old(trail), inFlight.value.span, Now(), LeftWrong(old(trail).found, cause))
      ensures stats == old(stats).(spansUnrepaired := old(stats).spansUnrepaired + 1)
    {
      hide SpanReadback.HasCause, SpanReadback.VerdictsOk, QueuedOk, FlightHolds, AllTrue, Ordered, SpanWritten,
           RingState.Holds, PartOpen, PathsKept, Sum, QueueHolds;
      hide Counted, InQueueOrder, JudgedTrue, CauseTrue;
      WithoutReading(LeftWrong(trail.found, cause));
      Judge(LeftWrong(trail.found, cause));
      stats := stats.(spansUnrepaired := stats.spansUnrepaired + 1);
      storageFault := true;
    }

    /** Give up on the span in flight: past its first pass the medium is known to be
        wrong, before it nothing is known. */
    method AbandonInFlight(ghost cause: Cause)
      requires Deciding() && (cause.RingMoved? || cause.Closing?)
      requires cause.RingMoved? ==> !SpanStillInRing()
      requires cause.Closing? ==> closing
      modifies this`stats, this`storageFault, this`trail, this`spansSkipped
      ensures Steady() && trail.judged
      ensures Abandoned(inFlight.value, cause, inFlight, old(stats), stats, old(trail), trail, Now(), true)
      ensures if inFlight.value.pass.Verify?
        then storageFault == old(storageFault) && spansSkipped == old(spansSkipped) + 1
        else storageFault && spansSkipped == old(spansSkipped)
    {
      hide SpanReadback.HasCause, SpanReadback.VerdictsOk, QueuedOk, FlightHolds, AllTrue, Ordered, SpanWritten,
           RingState.Holds, PartOpen, PathsKept, Sum, QueueHolds;
      hide Counted, InQueueOrder, JudgedTrue;
      AbandonedForCause(cause);
      if !inFlight.value.pass.Verify? {
        NoteUnrepaired(cause);
      } else {
        WithoutReading(Skipped(cause));
        Judge(Skipped(cause));
        CountSkipped(1);
      }
    }

    /** A read the medium could not serve, by its answer `k`: an I/O error, or any failure
        past the first pass, is a fault of the medium's. */
    method NoteReadFailed(short: bool, eio: bool, ghost k: nat)
      requires Deciding() && trail.since.asked <= k < medium.asked && !medium.answers(k).ok
      requires eio == medium.answers(k).eio && (short ==> medium.answers(k).short)
      modifies this`stats, this`storageFault, this`trail
      ensures Steady() && trail.judged
      ensures Unserved(inFlight.value, short, eio, k, inFlight, old(stats), stats, old(trail), trail, Now(), true)
      ensures storageFault == (old(storageFault) || !inFlight.value.pass.Verify? || (!short && eio))
    {
      hide SpanReadback.HasCause, SpanReadback.VerdictsOk, QueuedOk, FlightHolds, AllTrue, Ordered, SpanWritten,
           RingState.Holds, PartOpen, PathsKept, Sum, QueueHolds;
      hide Counted, InQueueOrder, JudgedTrue;
      UnservedIsCause(short, eio, k);
      if !inFlight.value.pass.Verify? || (!short && eio) {
        NoteUnrepaired(Failed(k));
        return;
      }
      WithoutReading(Unread(k));
      Judge(Unread(k));
      stats := stats.(readFailed := stats.readFailed + 1);
    }

    /** The last access is the piece of the span in flight that `bytes` are, and it is
        not judged yet. */
    ghost predicate Holding(bytes: seq<byte>)
      reads this`inFlight, this`trail, medium`history
      requires inFlight.Some?
    {
      var f := inFlight.value;
      && trail.pending && medium.history != [] && Started(f, |bytes|)
      && medium.history[|medium.history| - 1] ==
           (if f.pass.Rewrite? then Write(f.span.part, f.span.fileOff + f.done, bytes)
            else Read(f.span.part, f.span.fileOff + f.done, bytes))
    }

    /** A trusted compare found the piece right. */
    method Matched(got: seq<byte>) returns (spanDone: bool)
      requires Deciding() && !inFlight.value.pass.Rewrite? && Holding(got)
      requires WrittenAt(written, inFlight.value.span.ringPos + inFlight.value.done, got)
      modifies this`stats, this`inFlight, this`trail
      ensures Steady() && spanDone == trail.judged && (!spanDone ==> Resting())
      ensures SameBytes(old(inFlight.value), got, inFlight, old(stats), stats, old(trail), trail, Now(), spanDone)
    {
      hide SpanReadback.Valid, WrittenAt;
      if inFlight.value.done + |got| < inFlight.value.span.len {
        MoveOn(got);
        return false;
      }
      Confirm(got);
      return true;
    }

    method MoveOn(ghost bytes: seq<byte>)
      requires Deciding() && Holding(bytes)
      requires WrittenAt(written, inFlight.value.span.ringPos + inFlight.value.done, bytes)
      requires inFlight.value.done + |bytes| < inFlight.value.span.len
      modifies this`inFlight, this`trail
      ensures Resting() && inFlight == Some(old(inFlight.value).(done := old(inFlight.value).done + |bytes|))
      ensures trail == old(trail).(upTo := |medium.history|, bytes := old(trail).bytes + bytes, pending := false)
    {
      hide SpanReadback.Facts, QueueHolds, QueuedOk, SpanWritten, RingState.Holds, PartOpen, PathsKept, WrittenAt,
           AllTrue, Ordered, Counted, Run;
      var f := inFlight.value;
      FlightMoves(f, trail, written, medium.history);
      inFlight := Some(f.(done := f.done + Min(pieceBytes, f.span.len - f.done)));
      trail := trail.(upTo := |medium.history|, bytes := trail.bytes + bytes, pending := false);
    }

    /** The whole span has been read back as written. */
    method Confirm(ghost got: seq<byte>)
      requires Deciding() && !inFlight.value.pass.Rewrite? && Holding(got)
      requires WrittenAt(written, inFlight.value.span.ringPos + inFlight.value.done, got)
      requires inFlight.value.done + |got| == inFlight.value.span.len
      modifies this`stats, this`inFlight, this`trail
      ensures Steady() && trail.judged
      ensures SameBytes(old(inFlight.value), got, inFlight, old(stats), stats, old(trail), trail, Now(), true)
    {
      hide SpanReadback.VerdictsOk, QueuedOk, SpanWritten, RingState.Holds, Sum, AllTrue, Ordered,
           SpanReadback.PartsOk, SpanReadback.SpansOk;
      hide SpanReadback.QueueOk, SpanReadback.ShapeOk, SpanReadback.View, FlightHolds, JudgedTrue, Counted, Tally,
           InQueueOrder, WrittenAt;
      var f := inFlight.value;
      ghost var bytes := trail.bytes + got;
      ghost var v := if f.pass.Reverify? && trail.found.Some?
                     then Repaired(trail.found.value, trail.wrote, trail.from, bytes)
                     else Verified(trail.from, bytes);
      WithReading(got, v);
      TallyByVerdict(stats, Judgement(v));
      Judge(v);
      inFlight := Some(f.(done := f.span.len));
      stats := stats.(spansVerified := stats.spansVerified + 1, bytesVerified := stats.bytesVerified + f.span.len,
                      spansRewrittenOk := stats.spansRewrittenOk + if f.pass.Reverify? then 1 else 0);
    }

    /** The span in flight has been read whole, and right. */
    lemma WithReading(got: seq<byte>, v: Verdict)
      requires Deciding() && !inFlight.value.pass.Rewrite? && Holding(got)
      requires WrittenAt(written, inFlight.value.span.ringPos + inFlight.value.done, got)
      requires inFlight.value.done + |got| == inFlight.value.span.len
      requires v == if inFlight.value.pass.Reverify? && trail.found.Some?
                    then Repaired(trail.found.value, trail.wrote, trail.from, trail.bytes + got)
                    else Verified(trail.from, trail.bytes + got)
      ensures inFlight.value.pass.Reverify? ==> trail.found.Some?
      ensures JudgedTrue(Judgement(v), Facts())
      ensures MISMATCHED(Judgement(v)) == if Repairing() then 1 else 0
    {
      hide QueueHolds, QueuedOk, AllTrue, Counted, Balanced, RingState.Holds, PartOpen, PathsKept, Run, WrittenAt;
      hide MismatchTrue;
      FlightPlaced();
      FlightMoves(inFlight.value, trail, written, medium.history);
      if inFlight.value.pass.Reverify? {
        WrittenOnce(written, inFlight.value.span.ringPos, trail.rewrote, trail.bytes + got);
      }
    }

    /** A trusted compare found byte `i` of the piece wrong. */
    method Differs(got: seq<byte>, i: nat) returns (spanDone: bool)
      requires Deciding() && !inFlight.value.pass.Rewrite? && Holding(got) && i < |got|
      requires var q := inFlight.value.span.ringPos + inFlight.value.done + i; q in written && written[q] != got[i]
      modifies this`stats, this`storageFault, this`inFlight, this`trail
      ensures Steady() && spanDone == trail.judged && (!spanDone ==> Resting())
      ensures OtherBytes(old(inFlight.value), i, inFlight, old(stats), stats, old(trail), trail, Now(), spanDone)
      ensures storageFault == (old(storageFault) || spanDone)
    {
      hide SpanReadback.Valid;
      if inFlight.value.pass.Verify? {
        NoteMismatch(got, i);
        return false;
      }
      SecondMismatch(got, i);
      NoteUnrepaired(Again(Mismatch(|medium.history| - 1, i), trail.wrote, trail.from, trail.rewrote));
      return true;
    }

    /** The span was written over and read again, and a byte is wrong still. */
    lemma SecondMismatch(got: seq<byte>, i: nat)
      requires Deciding() && inFlight.value.pass.Reverify? && Holding(got) && i < |got|
      requires var q := inFlight.value.span.ringPos + inFlight.value.done + i; q in written && written[q] != got[i]
      ensures var cause := Again(Mismatch(|medium.history| - 1, i), trail.wrote, trail.from, trail.rewrote);
        HasCause(LeftWrong(trail.found, cause))
    {
      hide QueueHolds, QueuedOk, AllTrue, Counted, Balanced, RingState.Holds, PartOpen, PathsKept, Run, WrittenAt,
           Ordered;
      FlightPlaced();
    }

    method NoteMismatch(ghost got: seq<byte>, ghost i: nat)
      requires Deciding() && inFlight.value.pass.Verify? && Holding(got) && i < |got|
      requires var q := inFlight.value.span.ringPos + inFlight.value.done + i; q in written && written[q] != got[i]
      modifies this`stats, this`inFlight, this`trail
      ensures Resting()
      ensures OtherBytes(old(inFlight.value), i, inFlight, old(stats), stats, old(trail), trail, Now(), false)
    {
      hide SpanReadback.Facts, QueueHolds, QueuedOk, SpanWritten, RingState.Holds, PartOpen, PathsKept, Sum, Run,
           AllTrue, Ordered, WrittenAt;
      var f := inFlight.value;
      ghost var n := |medium.history|;
      stats := stats.(spansMismatched := stats.spansMismatched + 1);
      inFlight := Some(InFlight(f.span, Rewrite, 0));
      trail := trail.(from := n, upTo := n, bytes := [], pending := false, found := Some(Mismatch(n - 1, i)));
      NoneWritten(written, f.span.ringPos, []);
      FlightStarts(inFlight.value, trail, written, medium.history);
    }

    /** Read one piece from the medium and compare it with the ring. */
    method VerifyPiece(off: nat, pos: nat, n: nat) returns (spanDone: bool)
      requires Resting() && inFlight.Some? && !inFlight.value.pass.Rewrite? && Started(inFlight.value, n)
      requires pos == inFlight.value.span.ringPos + inFlight.value.done
      requires off == inFlight.value.span.fileOff + inFlight.value.done
      modifies this`now, this`at, this`written, this`part, this`bases, this`pendingTail, this`push, this`pushed,
               this`spansSkipped, this`offered, this`arriving, ring, queue,
               this`stats, this`storageFault, this`inFlight, this`trail, medium
      ensures Steady() && WriterMoved() && spanDone == trail.judged && (!spanDone ==> Resting())
      ensures var f, a := old(inFlight.value), medium.answers(old(medium.asked));
        && medium.asked == old(medium.asked) + 1
        && medium.history == (if a.ok then old(medium.history) + [Read(f.span.part, off, a.Content(n))]
                              else old(medium.history))
        && (!a.ok ==>
              Unserved(f, a.short, a.eio, old(medium.asked), inFlight, old(stats), stats, old(trail), trail, Now(),
                       spanDone))
        && (a.ok ==> Concluded(f, a.Content(n), inFlight, old(stats), stats, old(trail), trail, spanDone))
    {
      hide SpanReadback.Valid, Extends, IsPrefix, SpanReadback.Started, SpanReadback.Concluded, Answer.Content;
      Unchanged();
      var answer, got := FetchPiece(off, n);
      if !answer.ok {
        NoteReadFailed(answer.short, answer.eio, medium.asked - 1);
        return true;
      }
      ghost var f, was, t := inFlight.value, stats, trail;
      spanDone := ComparePiece(pos, got);
      PendingOrNot(f, got, was, old(trail), t, spanDone);
    }

    lemma PendingOrNot(f: InFlight, got: seq<byte>, was: Stats, t: Trail, t': Trail, spanDone: bool)
      requires t' == t.(pending := true) && Concluded(f, got, inFlight, was, stats, t', trail, spanDone)
      ensures Concluded(f, got, inFlight, was, stats, t, trail, spanDone)
    {
      hide WrittenAt;
    }

    method FetchPiece(off: nat, n: nat) returns (a: Answer, got: seq<byte>)
      requires Resting() && inFlight.Some? && !inFlight.value.pass.Rewrite? && Started(inFlight.value, n)
      requires off == inFlight.value.span.fileOff + inFlight.value.done
      modifies this`trail, medium
      ensures Deciding() && medium.asked == old(medium.asked) + 1 && a == medium.answers(old(medium.asked))
      ensures trail.since.asked <= old(medium.asked)
      ensures got == a.Content(n) && trail == old(trail).(pending := a.ok)
      ensures medium.history == if a.ok then old(medium.history) + [Read(inFlight.value.span.part, off, got)]
                                else old(medium.history)
      ensures a.ok ==> Holding(got)
    {
      hide QueueHolds, QueuedOk, SpanWritten, RingState.Holds, PartOpen, PathsKept, Sum, Run, AllTrue, Ordered,
           WrittenAt, Balanced, Counted, FlightHolds, Answer.Content;
      var f := inFlight.value;
      a, got := medium.ReadPiece(f.span.part, off, n);
      if a.ok {
        ghost var h := old(medium.history);
        FlightPending(f, trail, written, h, Read(f.span.part, off, got));
        ExtendsSelf(written);
      TrueStaysTrue(trail.evidence, Facts().(h := h), Facts());
        trail := trail.(pending := true);
      }
    }

    /** What a piece read back as `got` leads to, by what was written: a compare the
        writer tore is discarded, whatever it found. */
    ghost predicate Concluded(f: InFlight, got: seq<byte>, g: Option<InFlight>, was: Stats, now: Stats, t: Trail,
                              u: Trail, spanDone: bool)
      reads this`at, this`written, medium`history, medium`asked
    {
      var pos := f.span.ringPos + f.done;
      if at.reserve > f.span.ringPos + ringBytes then Abandoned(f, RingMoved, g, was, now, t, u, Now(), spanDone)
      else if WrittenAt(written, pos, got) then SameBytes(f, got, g, was, now, t, u, Now(), spanDone)
      else exists i ::
        && 0 <= i < |got| && WrittenAt(written, pos, got[..i]) && !WrittenAt(written, pos, got[..i + 1])
        && OtherBytes(f, i, g, was, now, t, u, Now(), spanDone)
    }

    method ComparePiece(pos: nat, got: seq<byte>) returns (spanDone: bool)
      requires Deciding() && !inFlight.value.pass.Rewrite? && Holding(got)
      requires pos == inFlight.value.span.ringPos + inFlight.value.done
      modifies this`now, this`at, this`written, this`part, this`bases, this`pendingTail, this`push, this`pushed,
               this`spansSkipped, this`offered, this`arriving, ring, queue,
               this`stats, this`storageFault, this`inFlight, this`trail
      ensures Steady() && WriterMoved() && spanDone == trail.judged && (!spanDone ==> Resting())
      ensures Concluded(old(inFlight.value), got, inFlight, old(stats), stats, old(trail), trail, spanDone)
    {
      hide SpanReadback.WroteAsScripted, SpanReadback.Valid, SpanReadback.Facts, Extends, IsPrefix, WrittenAt,
           SpanReadback.Started, Abandoned, SameBytes, OtherBytes;
      var n := |got|;
      PieceFits(n);
      var i := FindFirstDiffAgainstRing(pos, got);
      ghost var w, p, b := written, pushed, bases;
      Yield();
      MovedOn(old(written), w, written, old(pushed), p, pushed, old(bases), b, bases);
      if !SpanStillInRing() {
        AbandonInFlight(RingMoved);
        return true;
      }
      WrittenStays(w, written, pos, got[..i]);
      if i < n {
        DifferenceStays(w, written, pos, got, i);
        spanDone := Differs(got, i);
      } else {
        assert got[..i] == got;
        spanDone := Matched(got);
      }
    }

    lemma PieceFits(n: nat)
      requires Valid() && inFlight.Some? && Started(inFlight.value, n)
      ensures ringBytes > 0 && pieceBytes > 0 && n <= ringBytes
      ensures n == Min(pieceBytes, inFlight.value.span.len - inFlight.value.done)
      ensures inFlight.value.done + n <= inFlight.value.span.len
    {
      hide QueueHolds, AllTrue, Ordered, Counted, Balanced, PartOpen, PathsKept, RingState.Holds;
    }

    /** Copy one piece out of the ring, prove the copy whole, and only then hand it to
        the medium: nothing if the writer tore the copy, else what was written there. */
    method RewritePiece(off: nat, pos: nat, n: nat) returns (spanDone: bool)
      requires Resting() && inFlight.Some? && inFlight.value.pass.Rewrite? && Started(inFlight.value, n)
      requires pos == inFlight.value.span.ringPos + inFlight.value.done
      requires off == inFlight.value.span.fileOff + inFlight.value.done
      modifies this`now, this`at, this`written, this`part, this`bases, this`pendingTail, this`push, this`pushed,
               this`spansSkipped, this`offered, this`arriving, ring, queue,
               this`stats, this`storageFault, this`inFlight, this`trail, medium
      ensures Steady() && WriterMoved() && spanDone == trail.judged && (!spanDone ==> Resting())
      ensures Replaced(old(inFlight.value), n, old(medium.history), old(medium.asked), inFlight, old(stats), stats,
                       old(trail), trail, spanDone)
    {
      hide SpanReadback.WroteAsScripted, SpanReadback.Valid, Extends, IsPrefix, WrittenAt, SpanReadback.Started,
           SpanReadback.WrittenOver;
      Unchanged();
      PieceFits(n);
      var scratch := CopyFromRing(pos, n);
      ghost var w, p, b := written, pushed, bases;
      Yield();
      MovedOn(old(written), w, written, old(pushed), p, pushed, old(bases), b, bases);
      if !SpanStillInRing() {
        AbandonInFlight(RingMoved);
        return true;
      }
      WrittenStays(w, written, pos, scratch);
      spanDone := WriteOver(off, scratch);
    }

    /** Hand the medium one piece, as it was written. */
    method WriteOver(off: nat, bytes: seq<byte>) returns (spanDone: bool)
      requires Resting() && inFlight.Some? && inFlight.value.pass.Rewrite? && Started(inFlight.value, |bytes|)
      requires off == inFlight.value.span.fileOff + inFlight.value.done
      requires WrittenAt(written, inFlight.value.span.ringPos + inFlight.value.done, bytes)
      modifies this`stats, this`storageFault, this`inFlight, this`trail, medium
      ensures Steady() && spanDone == trail.judged && (!spanDone ==> Resting())
      ensures WrittenOver(old(inFlight.value), |bytes|, old(medium.history), old(medium.asked), inFlight, old(stats),
                          stats, old(trail), trail, spanDone)
    {
      hide SpanReadback.Valid, WrittenAt, SpanReadback.Started, SpanReadback.HasCause, SpanReadback.Facts;
      var ok := HandOver(off, bytes);
      if !ok {
        FailedIsCause(medium.asked - 1);
        NoteUnrepaired(Failed(medium.asked - 1));
        return true;
      }
      Rewritten(bytes);
      return false;
    }

    /** What a piece of `n` bytes handed to the medium leads to. */
    ghost predicate WrittenOver(f: InFlight, n: nat, h: seq<Access>, asked: nat, g: Option<InFlight>, was: Stats,
                                now: Stats, t: Trail, u: Trail, spanDone: bool)
      reads this`written, medium
    {
      && medium.asked == asked + 1 && |medium.history| == |h| + 1 && medium.history[..|h|] == h
      && medium.history[|h|].Write? && |medium.history[|h|].bytes| == n
      && medium.history[|h|].part == f.span.part && medium.history[|h|].off == f.span.fileOff + f.done
      && WrittenAt(written, f.span.ringPos + f.done, medium.history[|h|].bytes)
      && spanDone == !medium.answers(asked).ok
      && now == (if spanDone then was.(spansUnrepaired := was.spansUnrepaired + 1) else was)
      && u.evidence == (if spanDone then With(t, f.span, Now(), LeftWrong(t.found, Failed(asked))) else t.evidence)
      && g == Some(if spanDone then f
                   else if f.done + n < f.span.len then f.(done := f.done + n) else InFlight(f.span, Reverify, 0))
    }

    /** What a piece of `n` bytes to be written over leads to. */
    ghost predicate Replaced(f: InFlight, n: nat, h: seq<Access>, asked: nat, g: Option<InFlight>, was: Stats,
                             now: Stats, t: Trail, u: Trail, spanDone: bool)
      reads this`at, this`written, medium
    {
      if at.reserve > f.span.ringPos + ringBytes then
        && medium.history == h && medium.asked == asked
        && Abandoned(f, RingMoved, g, was, now, t, u, Now(), spanDone)
      else WrittenOver(f, n, h, asked, g, was, now, t, u, spanDone)
    }

    method HandOver(off: nat, bytes: seq<byte>) returns (ok: bool)
      requires Resting() && inFlight.Some? && inFlight.value.pass.Rewrite? && Started(inFlight.value, |bytes|)
      requires off == inFlight.value.span.fileOff + inFlight.value.done
      requires WrittenAt(written, inFlight.value.span.ringPos + inFlight.value.done, bytes)
      modifies this`trail, medium
      ensures Deciding() && medium.asked == old(medium.asked) + 1 && ok == medium.answers(old(medium.asked)).ok
      ensures trail.since.asked <= old(medium.asked)
      ensures trail == old(trail).(pending := true) && Holding(bytes)
      ensures medium.history == old(medium.history) + [Write(inFlight.value.span.part, off, bytes)]
    {
      hide QueueHolds, QueuedOk, SpanWritten, RingState.Holds, PartOpen, PathsKept, Sum, Run, AllTrue, Ordered,
           WrittenAt, Balanced, Counted, FlightHolds;
      var f := inFlight.value;
      FlightPlaced();
      ok := medium.WritePiece(f.span.part, off, bytes);
      ghost var h := old(medium.history);
      FlightPending(f, trail, written, h, Write(f.span.part, off, bytes));
      ExtendsSelf(written);
      TrueStaysTrue(trail.evidence, Facts().(h := h), Facts());
      trail := trail.(pending := true);
    }

    method Rewritten(ghost bytes: seq<byte>)
      requires Deciding() && inFlight.value.pass.Rewrite? && Holding(bytes)
      requires WrittenAt(written, inFlight.value.span.ringPos + inFlight.value.done, bytes)
      modifies this`inFlight, this`trail
      ensures Resting() && inFlight.Some? && trail.evidence == old(trail.evidence)
      ensures var f := old(inFlight.value);
        inFlight.value == if f.done + |bytes| < f.span.len then f.(done := f.done + |bytes|)
                          else InFlight(f.span, Reverify, 0)
    {
      hide SpanReadback.Valid, WrittenAt;
      var f := inFlight.value;
      if f.done + Min(pieceBytes, f.span.len - f.done) < f.span.len {
        MoveOn(bytes);
      } else {
        ReadAgain(bytes);
      }
    }

    /** The whole span is written over: read it once more. */
    method ReadAgain(ghost bytes: seq<byte>)
      requires Deciding() && inFlight.value.pass.Rewrite? && Holding(bytes)
      requires WrittenAt(written, inFlight.value.span.ringPos + inFlight.value.done, bytes)
      requires inFlight.value.done + |bytes| == inFlight.value.span.len
      modifies this`inFlight, this`trail
      ensures Resting() && inFlight == Some(InFlight(old(inFlight.value).span, Reverify, 0))
      ensures trail.evidence == old(trail.evidence)
    {
      hide SpanReadback.Facts, QueueHolds, QueuedOk, SpanWritten, RingState.Holds, PartOpen, PathsKept, WrittenAt,
           AllTrue, Ordered, Counted, Run;
      var f := inFlight.value;
      ghost var n := |medium.history|;
      FlightMoves(f, trail, written, medium.history);
      NoneWritten(written, f.span.ringPos, []);
      inFlight := Some(InFlight(f.span, Reverify, 0));
      trail := trail.(wrote := trail.from, rewrote := trail.bytes + bytes, from := n, upTo := n, bytes := [],
                      pending := false);
      FlightStarts(inFlight.value, trail, written, medium.history);
    }

    /** The next piece of the span in flight. Every piece that does not end it costs
        one of the pieces it has left. */
    method RunPiece() returns (spanDone: bool)
      requires Resting() && inFlight.Some?
      modifies this`now, this`at, this`written, this`part, this`bases, this`pendingTail, this`push, this`pushed,
               this`spansSkipped, this`offered, this`arriving, ring, queue,
               this`stats, this`storageFault, this`inFlight, this`trail, medium
      ensures Steady() && WriterMoved() && spanDone == trail.judged && inFlight.Some? && (!spanDone ==> Resting())
      ensures pieceBytes > 0 && old(inFlight.value).done <= old(inFlight.value).span.len
      ensures IsPrefix(old(trail.evidence), trail.evidence) && medium.asked <= old(medium.asked) + 2
      ensures !spanDone ==>
        && inFlight.value.span == old(inFlight.value).span && inFlight.value.done <= inFlight.value.span.len
        && PiecesLeft(inFlight.value, pieceBytes) < PiecesLeft(old(inFlight.value), pieceBytes)
        && PassesAfter(inFlight.value.pass) <= PassesAfter(old(inFlight.value).pass)
      ensures var f, h, c := old(inFlight.value), old(medium.history), old(medium.asked);
        var n, next := Min(pieceBytes, f.span.len - f.done), old(medium.AfterOpen(f.span.part));
        var a := medium.answers(next);
        if !old(medium.Opens(f.span.part)) then
          && medium.history == h
          && Unserved(f, false, medium.answers(c).eio, c, inFlight, old(stats), stats, old(trail), trail, Now(),
                      spanDone)
        else if f.pass.Rewrite? then
          Replaced(f, n, h, next, inFlight, old(stats), stats, old(trail), trail, spanDone)
        else if a.ok then
          && medium.history == h + [Read(f.span.part, f.span.fileOff + f.done, a.Content(n))]
          && Concluded(f, a.Content(n), inFlight, old(stats), stats, old(trail), trail, spanDone)
        else
          && medium.history == h
          && Unserved(f, a.short, a.eio, next, inFlight, old(stats), stats, old(trail), trail, Now(), spanDone)
    {
      hide SpanReadback.Valid, Extends, IsPrefix, WrittenAt, PiecesLeft, Answer.Content, SpanReadback.Replaced,
           SpanReadback.Concluded, NextPiece;
      Unchanged();
      FlightFits();
      var f := inFlight.value;
      var found, eio := OpenFile(f.span.part);
      if !found {
        NoteReadFailed(false, eio, medium.asked - 1);
        UnservedAdds(f, false, eio, medium.asked - 1, old(stats), old(trail), Now());
        return true;
      }
      var n := Min(pieceBytes, f.span.len - f.done);
      ghost var was, t, h, next := stats, trail, medium.history, medium.asked;
      if f.pass.Rewrite? {
        spanDone := RewritePiece(f.span.fileOff + f.done, f.span.ringPos + f.done, n);
        ReplacedAdds(f, n, h, next, was, t, spanDone);
      } else {
        spanDone := VerifyPiece(f.span.fileOff + f.done, f.span.ringPos + f.done, n);
        ghost var a := medium.answers(next);
        if a.ok {
          ConcludedAdds(f, a.Content(n), was, t, spanDone);
        } else {
          UnservedIsOver(f, a.short, a.eio, next, was, t, Now(), spanDone);
          UnservedAdds(f, a.short, a.eio, next, was, t, Now());
        }
      }
      if !spanDone { PieceCosts(f, inFlight.value, pieceBytes); }
    }

    method OpenFile(part: nat) returns (ok: bool, eio: bool)
      requires Resting()
      modifies medium`asked, medium`current
      ensures Resting() && ok == old(medium.Opens(part)) && medium.asked == old(medium.AfterOpen(part))
      ensures !ok ==> !medium.answers(old(medium.asked)).ok && eio == medium.answers(old(medium.asked)).eio
      ensures !ok ==> medium.asked == old(medium.asked) + 1 && trail.since.asked <= old(medium.asked)
    {
      hide QueueHolds, QueuedOk, FlightHolds, AllTrue, Ordered, SpanWritten, RingState.Holds, PartOpen, PathsKept, Sum;
      ok, eio := medium.Open(part);
    }

    lemma ConcludedAdds(f: InFlight, got: seq<byte>, was: Stats, t: Trail, spanDone: bool)
      requires Concluded(f, got, inFlight, was, stats, t, trail, spanDone) && !f.pass.Rewrite?
      ensures IsPrefix(t.evidence, trail.evidence) && inFlight.Some? && inFlight.value.span == f.span
      ensures !spanDone ==> NextPiece(f, inFlight.value, |got|)
    {
      hide WrittenAt;
    }

    lemma UnservedAdds(f: InFlight, short: bool, eio: bool, k: nat, was: Stats, t: Trail, end: Moment)
      requires Unserved(f, short, eio, k, inFlight, was, stats, t, trail, end, true)
      ensures IsPrefix(t.evidence, trail.evidence) && inFlight == Some(f)
    {}

    lemma UnservedIsOver(f: InFlight, short: bool, eio: bool, k: nat, was: Stats, t: Trail, end: Moment, spanDone: bool)
      requires Unserved(f, short, eio, k, inFlight, was, stats, t, trail, end, spanDone)
      ensures spanDone
    {}

    lemma ReplacedAdds(f: InFlight, n: nat, h: seq<Access>, asked: nat, was: Stats, t: Trail, spanDone: bool)
      requires Replaced(f, n, h, asked, inFlight, was, stats, t, trail, spanDone) && f.pass.Rewrite?
      ensures IsPrefix(t.evidence, trail.evidence) && inFlight.Some? && inFlight.value.span == f.span
      ensures medium.asked <= asked + 1 && (!spanDone ==> NextPiece(f, inFlight.value, n))
    {
      hide WrittenAt;
    }

    lemma FlightFits()
      requires Valid() && inFlight.Some? && !trail.judged
      ensures pieceBytes > 0 && inFlight.value.done <= inFlight.value.span.len <= ringBytes
    {
      hide QueueHolds, AllTrue, Counted, Balanced, PartOpen, PathsKept, RingState.Holds;
    }

    /** The span in flight has its verdict: it leaves the queue. */
    method FinishSpan()
      requires Steady() && inFlight.Some? && trail.judged
      modifies this`inFlight, this`trail, this`pop, this`popped
      ensures Resting() && inFlight.None? && popped == old(popped) + 1 && trail.evidence == old(trail.evidence)
    {
      hide SpanReadback.Facts, QueueHolds, SpanWritten, RingState.Holds, SpanReadback.PartsOk, AllTrue, Counted,
           FlightHolds, QueuedOk, InQueueOrder;
      QueuedPop(pushed, popped, bases, |part.paths|, at.head, written, ringBytes, 1);
      PopKeeps(queue[..], push, pop, pushed, popped);
      inFlight := None;
      trail := trail.(judged := false, pending := false);
      pop := Next32(pop);
      popped := popped + 1;
    }

    /** A span the writer has overrun leaves the queue unread. */
    method SkipOverrun()
      requires Resting() && inFlight.None? && popped < |pushed| && at.head > pushed[popped].ringPos + ringBytes
      modifies this`now, this`at, this`written, this`part, this`bases, this`pendingTail, this`push, this`pushed,
               this`spansSkipped, this`offered, this`arriving, ring, queue, this`trail, this`pop, this`popped
      ensures Resting() && WriterMoved() && popped == old(popped) + 1 == |trail.evidence| && popped <= |pushed|
      ensures pushed[old(popped)] == old(pushed[popped]) && IsPrefix(old(trail.evidence), trail.evidence)
      ensures trail.evidence == old(trail.evidence) + [Judged(pushed[old(popped)], Now(), Now(), Skipped(RingMoved))]
      ensures now > old(now) || (now == old(now) && pushed == old(pushed))
    {
      hide SpanReadback.WroteAsScripted, SpanReadback.Valid, Extends, IsPrefix;
      ghost var p := pushed;
      Yield();
      SamePlaces(p, pushed);
      HeadReserved();
      PopSkipped();
      QueueBounds();
    }

    lemma HeadReserved()
      requires Valid()
      ensures at.head <= at.reserve
    {
      hide QueueHolds, QueuedOk, FlightHolds, AllTrue, Counted, PathsKept, Ordered;
    }

    /** The span at the front of the queue is counted and popped. */
    method PopSkipped()
      requires Resting() && inFlight.None? && popped < |pushed| && at.reserve > pushed[popped].ringPos + ringBytes
      modifies this`spansSkipped, this`trail, this`pop, this`popped
      ensures Resting() && popped == old(popped) + 1 == |trail.evidence|
      ensures IsPrefix(old(trail.evidence), trail.evidence)
      ensures trail.evidence == old(trail.evidence) + [Judged(pushed[old(popped)], Now(), Now(), Skipped(RingMoved))]
    {
      hide SpanReadback.Valid, IsPrefix;
      FrontMaySkip();
      ghost var skips := SkippedOnes(1, RingMoved);
      JudgeAhead(1, RingMoved, skips);
      PopAhead(Next32(pop));
    }

    /** The next `k` queued spans are counted as skipped, and have their verdicts. */
    method JudgeAhead(k: nat, ghost cause: Cause, ghost skips: seq<Judged>)
      requires Resting() && inFlight.None? && popped + k <= |pushed| && |trail.evidence + skips| == popped + k
      requires var e := trail.evidence + skips;
        && AllTrue(e, Facts()) && Ordered(e, Now()) && Counted(stats, e, false) && InQueueOrder(e, pushed)
      modifies this`spansSkipped, this`trail
      ensures Steady() && !trail.judged && !trail.pending && trail.ahead == k
      ensures trail.evidence == old(trail.evidence) + skips && spansSkipped == old(spansSkipped) + k
    {
      hide SpanReadback.View, SpanReadback.Facts, SpanReadback.ShapeOk, SpanReadback.QueueOk, SpanReadback.PartsOk,
           SpanReadback.SpansOk, RingState.Holds, AllTrue, Counted, FlightHolds, Ordered, InQueueOrder, Balanced;
      BalancedSkip(stats, spansSkipped, storageFault, offered, Open(), k);
      spansSkipped := spansSkipped + k;
      trail := trail.(since := Now(), ahead := k, evidence := trail.evidence + skips);
    }

    /** Those with their verdicts ahead leave the queue: the first, or all. */
    method PopAhead(next: uint32)
      requires Steady() && inFlight.None? && !trail.judged && !trail.pending && popped + trail.ahead <= |pushed|
      requires (trail.ahead == 1 && next == Next32(pop)) || (trail.ahead == |pushed| - popped && next == push)
      modifies this`trail, this`pop, this`popped
      ensures Resting() && popped == old(popped) + old(trail.ahead) && trail.evidence == old(trail.evidence)
    {
      hide SpanReadback.View, SpanReadback.Facts, SpanReadback.ShapeOk, SpanReadback.PartsOk, QueueHolds, SpanWritten,
           QueuedOk, RingState.Holds, AllTrue, Counted, FlightHolds, Ordered, InQueueOrder, Balanced;
      QueuedPop(pushed, popped, bases, |part.paths|, at.head, written, ringBytes, trail.ahead);
      if trail.ahead == 1 && next == Next32(pop) {
        PopKeeps(queue[..], push, pop, pushed, popped);
      } else {
        DrainKeeps(queue[..], push, pop, pushed, popped);
      }
      pop := next;
      popped := popped + trail.ahead;
      trail := trail.(ahead := 0);
    }

    lemma FrontMaySkip()
      requires Valid() && popped < |pushed| && at.reserve > pushed[popped].ringPos + ringBytes
      ensures MaySkip(pushed[popped], RingMoved, Facts())
    {
      QueuedPlaced(popped);
    }

    /** The next `k` queued spans may be skipped. */
    lemma SkippedOnes(k: nat, cause: Cause) returns (skips: seq<Judged>)
      requires Resting() && inFlight.None? && popped + k <= |pushed|
      requires forall i :: popped <= i < popped + k ==> MaySkip(pushed[i], cause, Facts())
      ensures skips == SkippedAll(pushed[popped..popped + k], Now(), cause) && |trail.evidence + skips| == popped + k
      ensures k == 1 ==> skips == [Judged(pushed[popped], Now(), Now(), Skipped(cause))]
      ensures k == |pushed| - popped ==> skips == SkippedAll(pushed[popped..], Now(), cause)
      ensures var e := trail.evidence + skips;
        && AllTrue(e, Facts()) && Ordered(e, Now()) && Counted(stats, e, false) && InQueueOrder(e, pushed)
      ensures IsPrefix(trail.evidence, trail.evidence + skips)
    {
      hide SkippedAll, QueueHolds, RingState.Holds, PartOpen, PathsKept, AllTrue, Counted, FlightHolds, Ordered,
           SpanWritten, Balanced, MaySkip;
      skips := SkippedAll(pushed[popped..popped + k], Now(), cause);
      OrderedLater(trail.evidence, trail.since, Now());
      SkipsAreTrue(trail.evidence, Facts(), Now(), pushed[popped..popped + k], cause, stats);
      assert k == |pushed| - popped ==> pushed[popped..popped + k] == pushed[popped..];
      if k == 1 { OneSkipped(pushed, popped, Now(), cause); }
    }

    lemma QueuedPlaced(i: nat)
      requires Valid() && popped <= i < |pushed|
      ensures Placed(pushed[i], bases)
    {
      hide QueueHolds, FlightHolds, AllTrue, Counted, Balanced, RingState.Holds, PartOpen, PathsKept;
      assert SpanWritten(pushed[i], bases, at.head, written);
    }

    /** Take the next queued span that is settled and still in the ring; the ones
        that are not in the ring any more are skipped. */
    method StartNextSpan() returns (ok: bool)
      requires Resting() && inFlight.None? && !released
      modifies this`now, this`at, this`written, this`part, this`bases, this`pendingTail, this`push, this`pushed,
               this`spansSkipped, this`offered, this`arriving, ring, queue, this`stats, this`inFlight, this`trail,
               this`pop, this`popped
      ensures Resting() && WriterMoved() && ok == inFlight.Some?
      ensures old(popped) <= popped <= |pushed| && IsPrefix(old(trail.evidence), trail.evidence)
      ensures |trail.evidence| == popped
      ensures forall i :: old(popped) <= i < popped ==>
        at.head > pushed[i].ringPos + ringBytes && trail.evidence[i].verdict == Skipped(RingMoved)
      ensures !ok && popped < |pushed| ==>
        !noMoreWrites && at.head < pushed[popped].ringPos + pushed[popped].len + settleBytes
      ensures ok ==>
        && popped < |pushed| && inFlight == Some(InFlight(pushed[popped], Verify, 0))
        && at.head <= pushed[popped].ringPos + ringBytes
        && (noMoreWrites || at.head >= pushed[popped].ringPos + pushed[popped].len + settleBytes)
      ensures stats == if !ok then old(stats)
        else var lag := at.head - (pushed[popped].ringPos + pushed[popped].len);
          old(stats).(maxLagBytes := Max(old(stats.maxLagBytes), lag))
    {
      hide SpanReadback.Valid, Extends, IsPrefix;
      Unchanged();
      QueueBounds();
      PrefixSelf(trail.evidence);
      while true
        invariant Resting() && inFlight.None? && WriterMoved() && !released
        invariant old(popped) <= popped <= |pushed| && IsPrefix(old(trail.evidence), trail.evidence)
        invariant |trail.evidence| == popped && now <= |script|
        invariant forall i :: old(popped) <= i < popped ==>
          at.head > pushed[i].ringPos + ringBytes && trail.evidence[i].verdict == Skipped(RingMoved)
        invariant stats == old(stats)
        decreases |script| - now, |pushed| - popped
      {
        ghost var w, p, b, e := written, pushed, bases, trail.evidence;
        var fate := TryFront();
        MovedOn(old(written), w, written, old(pushed), p, pushed, old(bases), b, bases);
        SamePlaces(p, pushed);
        SamePlaces(e, trail.evidence);
        PrefixTrans(old(trail.evidence), e, trail.evidence);
        QueueBounds();
        if fate != Overrun { return fate == Taken; }
      }
    }

    /** One turn of that loop. */
    method TryFront() returns (fate: Fate)
      requires Resting() && inFlight.None? && !released
      modifies this`now, this`at, this`written, this`part, this`bases, this`pendingTail, this`push, this`pushed,
               this`spansSkipped, this`offered, this`arriving, ring, queue, this`stats, this`inFlight, this`trail,
               this`pop, this`popped
      ensures Resting() && WriterMoved() && fate.Taken? == inFlight.Some?
      ensures popped == old(popped) + if fate.Overrun? then 1 else 0
      ensures IsPrefix(old(trail.evidence), trail.evidence)
      ensures fate.NoSpan? ==> popped == |pushed|
      ensures fate.Overrun? ==>
        && 0 < popped <= |pushed| && at.head > pushed[old(popped)].ringPos + ringBytes
        && |trail.evidence| == popped && trail.evidence[old(popped)].verdict == Skipped(RingMoved)
      ensures fate.Unsettled? ==>
        popped < |pushed| && !noMoreWrites && at.head < pushed[popped].ringPos + pushed[popped].len + settleBytes
      ensures fate.Taken? ==>
        && popped < |pushed| && inFlight == Some(InFlight(pushed[popped], Verify, 0))
        && at.head <= pushed[popped].ringPos + ringBytes
        && (noMoreWrites || at.head >= pushed[popped].ringPos + pushed[popped].len + settleBytes)
      ensures stats == if !fate.Taken? then old(stats)
        else var lag := at.head - (pushed[popped].ringPos + pushed[popped].len);
          old(stats).(maxLagBytes := Max(old(stats.maxLagBytes), lag))
      ensures now > old(now) || (now == old(now) && pushed == old(pushed))
    {
      hide SpanReadback.Valid, Extends, IsPrefix, Max;
      fate := LookAtFront();
      PrefixSelf(trail.evidence);
      if fate == Overrun {
        ghost var w, p, b := written, pushed, bases;
        SkipOverrun();
        MovedOn(old(written), w, written, old(pushed), p, pushed, old(bases), b, bases);
      }
    }

    /** What becomes of the span at the front, which is taken up if it is to be. */
    method LookAtFront() returns (fate: Fate)
      requires Resting() && inFlight.None? && !released
      modifies this`now, this`at, this`written, this`part, this`bases, this`pendingTail, this`push, this`pushed,
               this`spansSkipped, this`offered, this`arriving, ring, queue, this`stats, this`inFlight, this`trail
      ensures Resting() && WriterMoved() && fate.Taken? == inFlight.Some? && trail.evidence == old(trail.evidence)
      ensures fate.NoSpan? ==> popped == |pushed|
      ensures !fate.NoSpan? ==> popped < |pushed|
      ensures fate.Overrun? ==> at.head > pushed[popped].ringPos + ringBytes
      ensures fate.Unsettled? ==>
        !noMoreWrites && at.head < pushed[popped].ringPos + pushed[popped].len + settleBytes
      ensures fate.Taken? ==>
        && inFlight == Some(InFlight(pushed[popped], Verify, 0)) && at.head <= pushed[popped].ringPos + ringBytes
        && (noMoreWrites || at.head >= pushed[popped].ringPos + pushed[popped].len + settleBytes)
      ensures stats == if !fate.Taken? then old(stats)
        else var lag := at.head - (pushed[popped].ringPos + pushed[popped].len);
          old(stats).(maxLagBytes := Max(old(stats.maxLagBytes), lag))
      ensures now > old(now) || (now == old(now) && pushed == old(pushed))
    {
      hide SpanReadback.Facts, SpanReadback.TheWriter, SpanReadback.WroteAsScripted, SpanReadback.Valid, Extends,
           IsPrefix, Slot, Max;
      Unchanged();
      var s := FrontSpan();
      if s.None? { return NoSpan; }
      ghost var w, p, b := written, pushed, bases;
      Yield();
      SamePlaces(p, pushed);
      MovedOn(old(written), w, written, old(pushed), p, pushed, old(bases), b, bases);
      fate := TakeFront(s.value);
    }

    /** The span at the front of the queue, as the writer has left it. */
    method FrontSpan() returns (s: Option<Span>)
      requires Resting() && inFlight.None?
      modifies this`now, this`at, this`written, this`part, this`bases, this`pendingTail, this`push, this`pushed,
               this`spansSkipped, this`offered, this`arriving, ring, queue
      ensures Resting() && WriterMoved() && (now > old(now) || (now == old(now) && pushed == old(pushed)))
      ensures popped <= |pushed| && s == if popped < |pushed| then Some(pushed[popped]) else None
    {
      hide SpanReadback.WroteAsScripted, SpanReadback.Valid, Extends, IsPrefix, Slot;
      Yield();
      QueueFront();
      return if push == pop then None else Some(queue[Slot(pop, QUEUE_SLOTS)]);
    }

    /** Take up the span at the front of the queue, unless the writer has overrun it or
        it has not settled. */
    method TakeFront(s: Span) returns (fate: Fate)
      requires Resting() && inFlight.None? && popped < |pushed| && s == pushed[popped] && !released
      modifies this`stats, this`inFlight, this`trail
      ensures Resting() && !fate.NoSpan? && fate.Taken? == inFlight.Some? && trail.evidence == old(trail.evidence)
      ensures fate.Overrun? <==> at.head > s.ringPos + ringBytes
      ensures fate.Unsettled? ==> !noMoreWrites && at.head < s.ringPos + s.len + settleBytes
      ensures fate.Taken? ==>
        inFlight == Some(InFlight(s, Verify, 0)) && (noMoreWrites || at.head >= s.ringPos + s.len + settleBytes)
      ensures stats == if !fate.Taken? then old(stats)
        else old(stats).(maxLagBytes := Max(old(stats.maxLagBytes), at.head - (s.ringPos + s.len)))
    {
      hide SpanReadback.Valid;
      FrontFits();
      if at.head - s.ringPos > ringBytes { return Overrun; }
      var lag := at.head - (s.ringPos + s.len);
      if !noMoreWrites && lag < settleBytes { return Unsettled; }
      TakeUp(s, lag);
      return Taken;
    }

    lemma ReleasedIsIdle()
      requires Valid() && released
      ensures inFlight.None?
    {}

    lemma QueueBounds()
      requires Valid()
      ensures popped <= |pushed| && now <= |script|
      ensures |trail.evidence| == popped + trail.ahead + if trail.judged then 1 else 0
    {}

    lemma QueueFront()
      requires Valid()
      ensures queue.Length == QUEUE_SLOTS && (push == pop <==> |pushed| == popped) && popped <= |pushed|
      ensures popped < |pushed| ==> queue[Slot(pop, QUEUE_SLOTS)] == pushed[popped]
    {
      QueueSize(queue[..], push, pop, pushed, popped);
    }

    lemma FrontFits()
      requires Valid() && popped < |pushed|
      ensures pushed[popped].ringPos + pushed[popped].len <= at.head
    {
      hide QueueHolds, AllTrue, Counted, Balanced, PartOpen, PathsKept, RingState.Holds, FlightHolds;
    }

    method TakeUp(s: Span, lag: nat)
      requires Resting() && inFlight.None? && popped < |pushed| && s == pushed[popped] && !released
      modifies this`stats, this`inFlight, this`trail
      ensures Resting() && inFlight == Some(InFlight(s, Verify, 0)) && trail.evidence == old(trail.evidence)
      ensures stats == old(stats).(maxLagBytes := Max(old(stats.maxLagBytes), lag))
    {
      hide SpanReadback.Valid;
      NoteLag(lag);
      PutInFlight(s);
    }

    method NoteLag(lag: nat)
      requires Resting() && inFlight.None?
      modifies this`stats
      ensures Resting() && stats == old(stats).(maxLagBytes := Max(old(stats.maxLagBytes), lag))
    {
      hide AllTrue, Ordered, RingState.Holds, SpanReadback.QueueOk, SpanReadback.PartsOk, SpanReadback.SpansOk,
           SpanReadback.ShapeOk, SpanReadback.View, SpanReadback.VerdictsOk, SpanReadback.FlightOk, Counted, Balanced;
      LagCounts(stats, trail.evidence, false, spansSkipped, storageFault, offered, Open(), lag);
      if lag > stats.maxLagBytes {
        stats := stats.(maxLagBytes := lag);
      }
    }

    method PutInFlight(s: Span)
      requires Resting() && inFlight.None? && popped < |pushed| && s == pushed[popped] && !released
      modifies this`inFlight, this`trail
      ensures Resting() && inFlight == Some(InFlight(s, Verify, 0)) && trail.evidence == old(trail.evidence)
    {
      hide AllTrue, Ordered, SpanWritten, Sum, RingState.Holds, SpanReadback.QueueOk, SpanReadback.PartsOk,
           SpanReadback.SpansOk, SpanReadback.ShapeOk, SpanReadback.View, SpanReadback.Facts, Run, WrittenAt, Counted,
           Balanced, InQueueOrder;
      ghost var n := |medium.history|;
      trail := trail.(since := Now(), from := n, upTo := n, bytes := [], found := None);
      FlightStarts(InFlight(s, Verify, 0), trail, written, medium.history);
      OrderedLater(trail.evidence, old(trail).since, Now());
      inFlight := Some(InFlight(s, Verify, 0));
    }

    /** Run at least one piece of the span in flight, and at most `more` further ones. */
    method RunSpan(more: nat)
      requires Resting() && inFlight.Some? && pieceBytes > 0 && inFlight.value.done <= inFlight.value.span.len
      modifies this`now, this`at, this`written, this`part, this`bases, this`pendingTail, this`push, this`pushed,
               this`spansSkipped, this`offered, this`arriving, ring, queue,
               this`stats, this`storageFault, this`inFlight, this`trail, this`pop, this`popped, medium
      ensures Resting() && WriterMoved() && IsPrefix(old(trail.evidence), trail.evidence)
      ensures popped == old(popped) + if inFlight.None? then 1 else 0
      ensures medium.asked <= old(medium.asked) + 2 * (more + 1)
      ensures inFlight.Some? ==>
        && inFlight.value.span == old(inFlight.value).span && inFlight.value.done <= inFlight.value.span.len
        && PiecesLeft(inFlight.value, pieceBytes) + more + 1 <= PiecesLeft(old(inFlight.value), pieceBytes)
        && PassesAfter(inFlight.value.pass) <= PassesAfter(old(inFlight.value).pass)
    {
      hide SpanReadback.Valid, Extends, PiecesLeft, Pieces, IsPrefix, SpanReadback.Concluded, SpanReadback.Replaced,
           Unserved, Answer.Content, Medium.Opens, Medium.AfterOpen, Max;
      Unchanged();
      PrefixSelf(trail.evidence);
      var k := more;
      while true
        invariant Resting() && WriterMoved() && inFlight.Some? && popped == old(popped) && 0 <= k <= more
        invariant IsPrefix(old(trail.evidence), trail.evidence)
        invariant inFlight.value.done <= inFlight.value.span.len && inFlight.value.span == old(inFlight.value).span
        invariant PiecesLeft(inFlight.value, pieceBytes) + (more - k) <= PiecesLeft(old(inFlight.value), pieceBytes)
        invariant PassesAfter(inFlight.value.pass) <= PassesAfter(old(inFlight.value).pass)
        invariant medium.asked <= old(medium.asked) + 2 * (more - k)
        decreases k
      {
        ghost var w, p, b, e := written, pushed, bases, trail.evidence;
        var spanDone := RunPiece();
        MovedOn(old(written), w, written, old(pushed), p, pushed, old(bases), b, bases);
        PrefixTrans(old(trail.evidence), e, trail.evidence);
        if spanDone {
          w, p, b := written, pushed, bases;
          PopJudged();
          MovedOn(old(written), w, written, old(pushed), p, pushed, old(bases), b, bases);
          return;
        }
        SomePiecesLeft(inFlight.value, pieceBytes);
        if k == 0 { return; }
        k := k - 1;
      }
    }

    /** The writer may run before the judged span leaves the queue. */
    method PopJudged()
      requires Steady() && inFlight.Some? && trail.judged
      modifies this`now, this`at, this`written, this`part, this`bases, this`pendingTail, this`push, this`pushed,
               this`spansSkipped, this`offered, this`arriving, ring, queue, this`inFlight, this`trail, this`pop,
               this`popped
      ensures Resting() && WriterMoved() && inFlight.None? && popped == old(popped) + 1
      ensures trail.evidence == old(trail.evidence)
    {
      hide SpanReadback.WroteAsScripted, SpanReadback.Valid, Extends, IsPrefix;
      Yield();
      FinishSpan();
    }

    /** One step: start or resume a span, and run at least one piece of it and at
        most `more` further ones. */
    method StepLocked(more: nat) returns (worked: bool)
      requires Resting()
      modifies this`now, this`at, this`written, this`part, this`bases, this`pendingTail, this`push, this`pushed,
               this`spansSkipped, this`offered, this`arriving, ring, queue,
               this`stats, this`storageFault, this`inFlight, this`trail, this`pop, this`popped, medium
      ensures Resting() && WriterMoved() && pieceBytes > 0
      ensures |trail.evidence| == popped >= old(popped) && IsPrefix(old(trail.evidence), trail.evidence)
      // Without work: there is nothing queued, or the front has not settled.
      ensures !worked ==> inFlight.None?
      ensures !worked && !released && popped < |pushed| ==>
        !noMoreWrites && at.head < pushed[popped].ringPos + pushed[popped].len + settleBytes
      // All but the span it works on were overrun, and that one gets its pieces.
      ensures forall i :: old(popped) <= i < popped - (if worked && inFlight.None? then 1 else 0) ==>
        trail.evidence[i].verdict == Skipped(RingMoved)
      ensures worked && inFlight.None? ==> popped > old(popped)
      ensures worked && inFlight.Some? ==>
        && more + 1 < 3 * Pieces(inFlight.value.span.len, pieceBytes)
        && (inFlight.value.pass.Verify? ==> more + 1 < Pieces(inFlight.value.span.len, pieceBytes))
      // A span resumed leaves the queue; or is still in flight, has used up its pieces, and
      // never goes back a pass.
      ensures old(inFlight).Some? && inFlight.None? ==> worked && popped == old(popped) + 1
      ensures old(inFlight).Some? && inFlight.Some? ==>
        && worked && inFlight.value.span == old(inFlight.value).span && popped == old(popped)
        && inFlight.value.done <= inFlight.value.span.len && old(inFlight.value).done <= old(inFlight.value).span.len
        && PiecesLeft(inFlight.value, pieceBytes) + more + 1 <= PiecesLeft(old(inFlight.value), pieceBytes)
        && PassesAfter(inFlight.value.pass) <= PassesAfter(old(inFlight.value).pass)
      // A piece costs the medium two calls at most.
      ensures medium.asked <= old(medium.asked) + if worked then 2 * (more + 1) else 0
      // With a budget for a pass over it, a span that is served well ends verified.
      ensures worked && more + 1 >= Pieces(ringBytes, pieceBytes) ==>
        if inFlight.Some? then !WellServed(inFlight.value.span, trail.since, Now(), Facts())
        else
          var j := trail.evidence[popped - 1];
          WellServed(j.span, j.since, j.end, Facts()) ==> j.verdict.Verified?
    {
      hide SpanReadback.Valid, Extends, PiecesLeft, Pieces, IsPrefix, WellServed, Max;
      Unchanged();
      QueueBounds();
      SizeOk();
      PrefixSelf(trail.evidence);
      if released {
        ReleasedIsIdle();
        return false;
      }
      ghost var n, e := popped, trail.evidence;
      ghost var w, p, b := written, pushed, bases;
      if inFlight.None? {
        var ok := StartNextSpan();
        if !ok { return false; }
        n, e := popped, trail.evidence;
        w, p, b := written, pushed, bases;
      }
      FlightFits();
      ghost var f := inFlight.value;
      RunSpan(more);
      MovedOn(old(written), w, written, old(pushed), p, pushed, old(bases), b, bases);
      PrefixTrans(old(trail.evidence), e, trail.evidence);
      SamePlaces(e, trail.evidence);
      QueueBounds();
      if inFlight.Some? { BudgetUsed(f, inFlight.value, more, pieceBytes); }
      StepJudges(more);
      worked := true;
    }

    /** What a step's budget did for the span it worked on. */
    lemma StepJudges(more: nat)
      requires Resting() && pieceBytes > 0 && (inFlight.None? ==> popped > 0)
      requires inFlight.Some? && inFlight.value.pass.Verify? ==>
        more + 1 < Pieces(inFlight.value.span.len, pieceBytes)
      ensures |trail.evidence| == popped
      ensures more + 1 >= Pieces(ringBytes, pieceBytes) ==>
        if inFlight.Some? then !WellServed(inFlight.value.span, trail.since, Now(), Facts())
        else
          var j := trail.evidence[popped - 1];
          WellServed(j.span, j.since, j.end, Facts()) ==> j.verdict.Verified?
    {
      hide SpanReadback.Valid, WellServed, Pieces, JudgedTrue;
      QueueBounds();
      if inFlight.Some? {
        FlightFits();
        MorePieces(inFlight.value.span.len, ringBytes, pieceBytes);
        if !inFlight.value.pass.Verify? { NotWellServed(); }
      } else {
        VerdictHolds(trail.evidence[popped - 1]);
        var j := trail.evidence[popped - 1];
        if WellServed(j.span, j.since, j.end, Facts()) { WellServedIsVerified(j, Facts()); }
      }
    }

    lemma VerdictHolds(j: Judged)
      requires Valid() && j in trail.evidence
      ensures JudgedTrue(j, Facts())
    {
      hide QueueHolds, QueuedOk, FlightHolds, RingState.Holds, PartOpen, PathsKept, Counted, Balanced, JudgedTrue,
           WriteTrue;
    }

    /** Past its first pass a span has had a mismatch. */
    lemma NotWellServed()
      requires Resting() && inFlight.Some? && !inFlight.value.pass.Verify?
      ensures !WellServed(inFlight.value.span, trail.since, Now(), Facts())
    {
      hide QueueHolds, QueuedOk, AllTrue, Counted, Balanced, RingState.Holds, PartOpen, PathsKept, Run, WrittenAt,
           WellServed, MismatchTrue;
      FlightPlaced();
      if WellServed(inFlight.value.span, trail.since, Now(), Facts()) {
        NoMismatch(inFlight.value.span, trail.found.value, trail.since, Now(), Facts());
      }
    }

    /** The writer's last call: step inline within the given budgets, then give up on
        what is left. Afterwards every span ever offered has been counted. With enough
        budgets for what is queued, each for three passes over a ringful, nothing is
        given up. */
    method Finish(budgets: seq<nat>)
      requires Resting() && WriterIdle() && !released && !closing
      modifies this, ring, queue, medium
      ensures Resting() && released && inFlight.None? && pendingTail.None? && popped == |pushed| == |old(pushed)|
      ensures offered == stats.spansVerified + stats.spansUnrepaired + spansSkipped + stats.readFailed
      ensures pieceBytes > 0 && IsPrefix(old(trail.evidence), trail.evidence)
      ensures
        && |budgets| >= |old(pushed)| - old(popped)
        && (forall b :: b in budgets ==> b + 1 >= 3 * Pieces(ringBytes, pieceBytes))
        ==> !closing
    {
      hide SpanReadback.Valid, Extends, IsPrefix, Pieces, PiecesLeft, WellServed, Abandoned, SkippedAll;
      SizeOk();
      QueueBounds();
      PrefixSelf(trail.evidence);
      StopWriter();
      StepWithin(budgets);
      ghost var e := trail.evidence;
      GiveUpRest();
      PrefixTrans(old(trail.evidence), e, trail.evidence);
      DropTail();
      Release();
      AllCounted();
    }

    /** Step inline, within each budget in turn. */
    method StepWithin(budgets: seq<nat>)
      requires Resting() && noMoreWrites && !released && !closing && at.copying.None? && pieceBytes > 0
      modifies this`now, this`at, this`written, this`part, this`bases, this`pendingTail, this`push, this`pushed,
               this`spansSkipped, this`offered, this`arriving, ring, queue,
               this`stats, this`storageFault, this`inFlight, this`trail, this`pop, this`popped, medium
      ensures Resting() && IsPrefix(old(trail.evidence), trail.evidence) && pushed == old(pushed) && popped <= |pushed|
      ensures
        && |budgets| >= |old(pushed)| - old(popped)
        && (forall b :: b in budgets ==> b + 1 >= 3 * Pieces(ringBytes, pieceBytes))
        ==> popped == |pushed|
    {
      hide SpanReadback.Valid, SpanReadback.WriterAdded, IsPrefix, Pieces, PiecesLeft, WellServed;
      QueueBounds();
      PrefixSelf(trail.evidence);
      ghost var enough := forall b :: b in budgets ==> b + 1 >= 3 * Pieces(ringBytes, pieceBytes);
      var i := 0;
      while i < |budgets|
        invariant 0 <= i <= |budgets| && Resting() && noMoreWrites && !released && !closing && at.copying.None?
        invariant IsPrefix(old(trail.evidence), trail.evidence) && pushed == old(pushed) && popped <= |pushed|
        invariant enough ==> popped >= old(popped) + i && (i > 0 ==> inFlight.None?)
      {
        ghost var e := trail.evidence;
        var worked := StepLocked(budgets[i]);
        PrefixTrans(old(trail.evidence), e, trail.evidence);
        QueueBounds();
        if !worked { break; }
        assert budgets[i] in budgets;
        if inFlight.Some? {
          FlightFits();
          MorePieces(inFlight.value.span.len, ringBytes, pieceBytes);
        }
        i := i + 1;
      }
    }

    /** What is in flight is queued still. */
    lemma FlightQueued()
      requires Valid() && inFlight.Some?
      ensures popped < |pushed|
    {
      hide QueueHolds, QueuedOk, AllTrue, Counted, Balanced, RingState.Holds, PartOpen, PathsKept, FlightHolds;
    }

    method StopWriter()
      requires Resting() && WriterIdle()
      modifies this`noMoreWrites
      ensures Resting() && noMoreWrites
    {
      noMoreWrites := true;
    }

    /** The span in flight keeps its verdict, the rest is skipped. */
    method GiveUpRest()
      requires Resting() && noMoreWrites && !closing
      modifies this`stats, this`storageFault, this`inFlight, this`trail, this`spansSkipped, this`pop, this`popped,
               this`closing
      ensures Resting() && inFlight.None? && popped == |pushed| && IsPrefix(old(trail.evidence), trail.evidence)
      ensures closing == (old(popped) < |pushed|)
    {
      hide SpanReadback.Valid, IsPrefix, SkippedAll;
      PrefixSelf(trail.evidence);
      QueueBounds();
      if inFlight.Some? { FlightQueued(); }
      if popped < |pushed| { CloseDown(); }
      ghost var e := trail.evidence;
      if inFlight.Some? {
        AbandonInFlight(Closing);
        WithOneMore(e, trail.evidence);
        FinishSpan();
      }
      e := trail.evidence;
      SkipQueued();
      PrefixTrans(old(trail.evidence), e, trail.evidence);
    }

    /** From now on spans are given up. */
    ghost method CloseDown()
      requires Resting()
      modifies this`closing
      ensures Resting() && closing
    {
      hide QueueHolds, QueuedOk, AllTrue, Counted, Balanced, RingState.Holds, PartOpen, PathsKept, FlightHolds, Ordered,
           SpanWritten;
      TrueAsBefore(trail.evidence, Facts(), Facts().(closing := true));
      closing := true;
    }

    /** Count what is still queued as skipped. */
    method SkipQueued()
      requires Resting() && inFlight.None? && (popped < |pushed| ==> closing)
      modifies this`pop, this`popped, this`spansSkipped, this`trail
      ensures Resting() && popped == |pushed| && IsPrefix(old(trail.evidence), trail.evidence)
      ensures trail.evidence == old(trail.evidence) + SkippedAll(pushed[old(popped)..], Now(), Closing)
    {
      hide SpanReadback.Valid, IsPrefix, SkippedAll;
      QueueFront();
      QueueCount();
      RestMaySkip();
      ghost var skips := SkippedOnes(|pushed| - popped, Closing);
      JudgeAhead(Minus32(push, pop), Closing, skips);
      PopAhead(push);
    }

    lemma QueueCount()
      requires Valid()
      ensures Minus32(push, pop) == |pushed| - popped
    {
      hide FlightHolds, AllTrue, Counted, Balanced, RingState.Holds, PartOpen, PathsKept, QueuedOk, Ordered;
      QueueSize(queue[..], push, pop, pushed, popped);
    }

    lemma RestMaySkip()
      requires Valid() && (popped < |pushed| ==> closing)
      ensures forall i :: popped <= i < |pushed| ==> MaySkip(pushed[i], Closing, Facts())
    {
      forall i | popped <= i < |pushed| ensures MaySkip(pushed[i], Closing, Facts()) { QueuedPlaced(i); }
    }

    method Release()
      requires Resting() && inFlight.None?
      modifies this`released
      ensures Resting() && released
    {
      released := true;
    }

    lemma AllCounted()
      requires Resting() && popped == |pushed| && pendingTail.None?
      ensures offered == stats.spansVerified + stats.spansUnrepaired + spansSkipped + stats.readFailed
    {
      hide QueueHolds, SpanWritten, RingState.Holds, PartOpen, PathsKept, AllTrue, Counted, FlightHolds, QueuedOk;
    }
  }

  // ---- what holds at every moment --------------------------------------------

  /** What the writer wrote at an offset of a part's file. */
  ghost predicate WroteAt(r: SpanReadback, part: nat, fileOff: nat, c: byte)
    reads r
  {
    part < |r.bases| && r.bases[part] + fileOff in r.written && r.written[r.bases[part] + fileOff] == c
  }

  /** What the medium was handed or returned is what the writer wrote there. */
  ghost predicate AsWritten(r: SpanReadback, a: Access)
    reads r
  {
    forall k :: 0 <= k < |a.bytes| ==> WroteAt(r, a.part, a.off + k, a.bytes[k])
  }

  /** The writer wrote another byte there. */
  ghost predicate WroteOther(r: SpanReadback, part: nat, fileOff: nat, c: byte)
    reads r
  {
    part < |r.bases| && r.bases[part] + fileOff in r.written && r.written[r.bases[part] + fileOff] != c
  }

  /** From access `from` to the end of the verdict's accesses: reads that cover its span,
      one after the other, and returned `bytes`, which is what the writer wrote. */
  ghost predicate WasRead(r: SpanReadback, j: Judged, from: nat, bytes: seq<byte>)
    reads r, r.medium
  {
    && j.since.accesses <= from < j.end.accesses <= |r.medium.history| && |bytes| == j.span.len
    && Run(r.medium.history[from..j.end.accesses], true, j.span.part, j.span.fileOff, bytes)
    && forall k :: 0 <= k < j.span.len ==> WroteAt(r, j.span.part, j.span.fileOff + k, bytes[k])
  }

  /** A byte of the span was read that differs from the one the writer wrote there. */
  ghost predicate WasMismatched(r: SpanReadback, j: Judged, m: Mismatch)
    reads r, r.medium
  {
    && j.since.accesses <= m.index < j.end.accesses <= |r.medium.history|
    && var a := r.medium.history[m.index];
    && a.Read? && a.part == j.span.part && m.at < |a.bytes|
    && j.span.fileOff <= a.off + m.at < j.span.fileOff + j.span.len
    && WroteOther(r, j.span.part, a.off + m.at, a.bytes[m.at])
  }

  /** The medium's answer `k` was about the span, and it was a failure. */
  ghost predicate DidFail(r: SpanReadback, j: Judged, k: nat)
    reads r, r.medium
  {
    j.since.asked <= k < j.end.asked <= r.medium.asked && !r.medium.answers(k).ok
  }

  /** Why a span was given up: the writer has reserved over it; the medium failed; it was
      written over whole and then mismatched again; or the close. */
  ghost predicate WasCause(r: SpanReadback, j: Judged, cause: Cause)
    reads r, r.medium
  {
    match cause
    case RingMoved => r.at.reserve > j.span.ringPos + r.ringBytes
    case Failed(k) => DidFail(r, j, k)
    case Again(m, wrote, from, bytes) =>
      && WasMismatched(r, j, m) && j.since.accesses <= wrote < from <= m.index && |bytes| == j.span.len
      && Run(r.medium.history[wrote..from], false, j.span.part, j.span.fileOff, bytes)
    case Closing => r.closing
  }

  ghost predicate Justified(r: SpanReadback, j: Judged)
    reads r, r.medium
  {
    match j.verdict
    case Verified(from, bytes) => WasRead(r, j, from, bytes)
    case Repaired(m, wrote, from, bytes) =>
      && WasMismatched(r, j, m) && WasRead(r, j, from, bytes) && m.index < wrote < from
      && Run(r.medium.history[wrote..from], false, j.span.part, j.span.fileOff, bytes)
    case LeftWrong(found, cause) =>
      && WasCause(r, j, cause)
      && if found.None? then cause.Failed? && r.medium.answers(cause.answer).eio
         else WasMismatched(r, j, found.value) && (cause.Again? ==> found.value.index < cause.wrote)
    case Unread(k) => DidFail(r, j, k) && (r.medium.answers(k).short || !r.medium.answers(k).eio)
    case Skipped(cause) => (cause.RingMoved? || cause.Closing?) && WasCause(r, j, cause)
  }

  /** Nothing is counted that is not so, by what the medium returned, was handed and
      answered. The i-th span ever queued has the i-th verdict, the counters count the
      verdicts, and nothing the medium did is evidence for two. A span is verified only by
      reads that cover it and returned what the writer wrote; mismatched only if a byte
      read in it differs; repaired only if writes covered it in between; left wrong only
      after a mismatch, for a cause, or for an I/O error; unread only if the medium failed;
      skipped only if the writer overran it, or at the close. So one that is served well is
      verified. And nothing but what the writer wrote is ever written. */
  lemma CountsAreTrue(r: SpanReadback)
    requires r.Valid()
    ensures var e := r.trail.evidence;
      && |e| == r.popped + r.trail.ahead + (if r.trail.judged then 1 else 0) && InQueueOrder(e, r.pushed)
      && r.stats.spansVerified == Sum(e, VERIFIED) && r.stats.bytesVerified == Sum(e, BYTES)
      && r.stats.spansRewrittenOk == Sum(e, REPAIRED) && r.stats.spansUnrepaired == Sum(e, LEFT_WRONG)
      && r.stats.readFailed == Sum(e, UNREAD)
      && (forall i, k :: 0 <= i < k < |e| ==> NotAfter(e[i].end, e[k].since))
      && (forall j :: j in e ==> Justified(r, j))
      && (forall j :: j in e && WellServed(j.span, j.since, j.end, r.Facts()) ==> j.verdict.Verified?)
    ensures forall a :: a in r.medium.history && a.Write? ==> AsWritten(r, a)
  {
    hide QueueHolds, SpanWritten, RingState.Holds, PartOpen, PathsKept, Sum, FlightHolds, QueuedOk, Balanced, WrittenAt,
         Run, JudgedTrue, Justified, WriteTrue, WellServed;
    forall j | j in r.trail.evidence
      ensures Justified(r, j) && (WellServed(j.span, j.since, j.end, r.Facts()) ==> j.verdict.Verified?)
    {
      EndsBefore(r.trail.evidence, r.trail.since, j);
      TrueIsJustified(r, j);
      if WellServed(j.span, j.since, j.end, r.Facts()) { WellServedIsVerified(j, r.Facts()); }
    }
    forall a | a in r.medium.history && a.Write? { TrueIsAsWritten(r, a); }
  }

  lemma EndsBefore(e: seq<Judged>, limit: Moment, j: Judged)
    requires Ordered(e, limit) && j in e
    ensures NotAfter(j.end, limit)
  {}

  lemma TrueIsAsWritten(r: SpanReadback, a: Access)
    requires a.Write? && WriteTrue(a, r.written, r.bases)
    ensures AsWritten(r, a)
  {
    hide WrittenAt;
    WrittenBytes(r.written, r.bases[a.part] + a.off, a.bytes);
  }

  lemma TrueIsJustified(r: SpanReadback, j: Judged)
    requires JudgedTrue(j, r.Facts()) && j.end.asked <= r.medium.asked
    ensures Justified(r, j)
  {
    hide WrittenAt, Run;
    match j.verdict
    case Verified(from, bytes) => WrittenBytes(r.written, j.span.ringPos, bytes);
    case Repaired(m, wrote, from, bytes) => WrittenBytes(r.written, j.span.ringPos, bytes);
    case LeftWrong(found, cause) =>
    case Unread(k) =>
    case Skipped(cause) =>
  }

  /** Every span offered is in exactly one place; the fault flag is up exactly when
      some span was left wrong; every mismatch ever counted is exactly one of repaired,
      given up on, or the one in flight, and one given up on is a span left wrong. */
  lemma SpansAreConserved(r: SpanReadback)
    requires r.Resting()
    ensures r.offered == r.stats.spansVerified + r.stats.spansUnrepaired + r.spansSkipped + r.stats.readFailed
                       + Minus32(r.push, r.pop) + (if r.pendingTail.Some? then 1 else 0)
    ensures r.storageFault <==> r.stats.spansUnrepaired > 0
    ensures r.stats.spansMismatched == r.stats.spansRewrittenOk + Sum(r.trail.evidence, GIVEN_UP)
              + (if r.inFlight.Some? && !r.inFlight.value.pass.Verify? then 1 else 0)
    ensures Sum(r.trail.evidence, GIVEN_UP) <= r.stats.spansUnrepaired
    ensures r.inFlight.Some? ==> (r.trail.found.Some? <==> !r.inFlight.value.pass.Verify?)
  {
    hide QueueHolds, SpanWritten, RingState.Holds, PartOpen, PathsKept, AllTrue, QueuedOk, Sum, Run, WrittenAt;
    hide MismatchTrue;
    QueueSize(r.queue[..], r.push, r.pop, r.pushed, r.popped);
    MismatchesSplit(r.trail.evidence);
  }

  /** The path a queued, pending or in-flight span names is still owned. */
  lemma PathsAreOwned(r: SpanReadback)
    requires r.Valid()
    ensures forall i :: r.popped <= i < |r.pushed| ==> r.pushed[i].part in r.part.paths
    ensures r.pendingTail.Some? ==> r.pendingTail.value.part in r.part.paths
    ensures r.inFlight.Some? ==> r.inFlight.value.span.part in r.part.paths
  {
    hide QueueHolds, RingState.Holds, PartOpen, Counted, AllTrue, FlightHolds, Balanced;
    var paths, n := r.part.paths, |r.bases|;
    forall p: nat | p < n && p + |paths| >= n
      ensures p in paths
    {
      assert paths[p + |paths| - n] == p;
    }
    assert forall i :: r.popped <= i < |r.pushed| ==> SpanWritten(r.pushed[i], r.bases, r.at.head, r.written);
  }

  /** A whole recording: any script of the writer's, any medium, any number of steps
      with any budgets, and a close once the writer is between calls. */
  method Recording(ringBytes: nat, pieceBytes: nat, settleBytes: nat, script: seq<seq<WriterStep>>,
                   answers: nat -> Answer, steps: seq<nat>, closing: seq<nat>)
    returns (r: SpanReadback)
    ensures r.Resting()
    ensures r.released ==>
      r.offered == r.stats.spansVerified + r.stats.spansUnrepaired + r.spansSkipped + r.stats.readFailed
  {
    hide SpanReadback.WroteAsScripted, SpanReadback.Valid, Pieces, IsPrefix, Extends, RoundUpToPage;
    r := new SpanReadback(ringBytes, pieceBytes, settleBytes, script, answers);
    var i := 0;
    while i < |steps|
      invariant 0 <= i <= |steps| && r.Resting() && !r.released && !r.noMoreWrites && !r.closing
      invariant fresh(r) && fresh(r.ring) && fresh(r.queue) && fresh(r.medium)
    {
      r.Yield();
      var _ := r.StepLocked(steps[i]);
      i := i + 1;
    }
    r.Yield();
    if r.WriterIdle() {
      r.Finish(closing);
    }
  }
}
