# A verified model of the recording and link layers

This project models, in Dafny, the parts of the repository where bytes are most
easily lost, reordered or trusted by mistake, and proves what they promise.

- **The link.** `Crc16`, `Cobs`, `Frame` and `Framing` are the wire codec and the
  stream splitter; `WritePolicy`, `FramedOutbox`, `RateGate` and `FramedFd` are the
  sending endpoint with its three outboxes, its timed lane and its door; `Wire` is
  the file descriptor they share, whose every write is answered by an arbitrary
  environment. `LinkTranscript` says what one descriptor took, frame by frame and lane
  by lane; the endpoint keeps one for every link it ever had, those that died included,
  and each goes on where the one before it was cut or starts anew. `EndToEnd` joins the
  two ends: whatever the writes and reads cut the bytes into, the receiver gets exactly
  the whole frames, in order, and per lane they are some of those producers handed in, in
  their order. A link that did not start with a whole frame adds at most one message in
  front.
- **The write-time read-back.** `SpanRing` is the reserve-copy-publish protocol and
  the span queue on values, `PartReadbackFile` the medium with the history of all it
  returned and was handed, `SpanEvidence` what the counters stand for in terms of that
  history; `SpanReadback` is the class with both threads. The stepping thread's methods
  are written out, and before each of their accesses to the ring, the stream's cursor and
  the queue's indices the writer runs an arbitrary number of its own steps, down to the
  copying of one byte, taken from a script. The invariant holds at every one of those
  points, so what is proved holds for every interleaving. Every span has one verdict, and
  each verdict its reason in what the medium or the writer did. (The count of skipped spans,
  which both threads only add to, is left out of this: such an addition commutes with
  the steps of the other thread.)
- **The recorder.** `PayloadArena` is the chunked memory of the recorder's queue and
  `WriterEndpoint` the queue above it, again with one thread written out and the
  other run from a script wherever the lock is not held. The queue reads its payloads
  out of the arena byte by byte and gives them to storage, which keeps what it is given;
  that history is proved to be the bytes that were sent, of every frame the policy did
  not give up, unless storage threw or refused.
- **Reading back.** `Reorder` is the streaming merge of the reader, `RecordingCrypto`
  the encrypted container as the C++ side writes it and the Python side reads it,
  `Manifest` the text a session's digest covers.

`Bytes`, `Bits` and `Lists` hold what these share. The lanes, the endpoint, the
read-back, the arena and the recorder each have a `Valid()` invariant that all their
methods keep, and ghost fields for their history (what was offered, written, shed,
seen), so that statements about whole runs are statements about that history in every
reachable state.

## Findings

Five promises do not hold of the code in full. Each is proved with the exact condition
under which it does hold, and with a concrete case in which it does not.

- `PassesRateGate` refuses a message a full period after the last accepted one when
  that one re-seeded the grid from a time before zero that is not a multiple of the
  period, because the division is toward zero
  (`RateGate.FullPeriodPasses`, `RateGate.FullPeriodRefused`). Nor does a stream's
  first message always pass: the grid starts at zero, and a time a little before that
  counts as late (`RateGate.FirstMessagePasses`).
- `_reorder` starts its watermark at zero, so with arrivals far enough before zero it
  releases elements at once, out of order, although its documented contract is met
  (`Reorder.BudgetBeforeZero`; `Reorder.NoneTooLate` is the exact condition).
- `RecordingCipher::SeekTo` leaves the recorded position in place when it fails, while
  the context is lost; a later call at the old position does not seek, says it worked,
  and gives other bytes (`RecordingCrypto.RecordingCipher.XorAt` has the exact condition,
  `RecordingCrypto.FailedSeekLosesThePlace` the case).
- `FramedFdEndpoint::Stop` empties the reliable and timed lanes only, while a link that
  dies empties all of them so that no later reader starts within a frame. An endpoint
  stopped and started again gives the next descriptor the rest of what was partly
  written. Whatever that descriptor then takes is whole frames from its first byte on
  exactly if the stop found the control and the video unit cut between two of their
  frames, or not begun; else the rest of a frame comes first
  (`FramedFd.Endpoint.Restart`, `EndToEnd.RestartAndRun`). `FramedFd.StoppedMidFrame` is
  a message that is lost this way, `FramedFd.StoppedBetweenFrames` a batch that is not.
- `manifest_lines` depends on the input order when two parts share a name
  (`Manifest.OrderDoesNotMatter`, `Manifest.EqualNamesMatter`).

## Conventions

- Unsigned 64-bit positions, sizes and counters and signed 64-bit times are unbounded
  integers; wrap-around is modelled where the code relies on it (the 32-bit span
  queue indices, the 16-bit checksum, the 32-bit block counter).
- Atomics and locks are sequentially consistent. A region under a lock, and a group
  of the span queue's own index loads at one instant, is one step.
- In the endpoint producers run between the turns of a pass, and a group of messages
  sent together is one step. Inside one drain a call that queues a frame and the write
  of what is in flight touch different state, so a call there is the same as one before
  or after the drain.
- A time budget is a number of pieces or frames; a clock is a value or a function.
  Each turn of a pass reads the clock once: in nanoseconds to stamp, in microseconds to
  age the queue.
- C++ division toward zero is written out (`RateGate.TruncDiv`).
- The protobuf header codec, HMAC-SHA256 and the ChaCha20 block function are
  parameters, assumed to round-trip within 255 bytes and to give 64-byte blocks.

## Model

| member | source | states |
|---|---|---|
| SpanRing.ReserveKeeps | cpp/src/mcap/span_readback.cc:99-116 | announcing a write, of any size, keeps the ring invariant: every published position not reserved over holds the byte written there |
| SpanRing.CopyByteKeeps | cpp/src/mcap/span_readback.cc:117-120 | copying any one byte of a write under way, in any order, keeps the ring invariant |
| SpanRing.PublishKeeps | cpp/src/mcap/span_readback.cc:121-122 | publishing the head once all is copied keeps the ring invariant |
| SpanRing.PushKeeps | cpp/src/mcap/span_readback.cc:160-166 | a push below 64 entries keeps the queue first in, first out, across index wrap-around |
| SpanRing.QueueSize | cpp/src/mcap/span_readback.cc:160-164 | the wrapped 32-bit difference of the indices is the true number queued, never above 64, and the front slot is the oldest span |
| SpanReadback.SpanReadback.constructor | cpp/src/mcap/span_readback.cc:38-59 | sizes rounded up to whole pages, at least one |
| PartReadbackFile.Medium.Open | cpp/src/mcap/part_readback_file.cc:68-93 | the open file is kept; any other part is opened, and a failure leaves none open |
| PartReadbackFile.Medium.ReadPiece | cpp/src/mcap/part_readback_file.cc:115-135 | a read that succeeds returns all its bytes, and they join the history of the medium |
| PartReadbackFile.Medium.WritePiece | cpp/src/mcap/part_readback_file.cc:137-155 | exactly the bytes handed over, at their offset, join the history of the medium |
| SpanReadback.SpanReadback.ForgetPartsNoSpanNames | cpp/src/mcap/span_readback.cc:89-97 | drops exactly the paths older than the one the front span names, and keeps every path a queued, in-flight or pending span names |
| SpanReadback.SpanReadback.OpenPart | cpp/src/mcap/span_readback.cc:72-82 | an uncommitted tail is counted skipped; the new part starts at the next page, reserved before it is published |
| SpanReadback.SpanReadback.BeginPart | cpp/src/mcap/span_readback.cc:72-83 | a part opens at the page-rounded head, everything else kept valid |
| SpanReadback.SpanReadback.ReserveBytes | cpp/src/mcap/span_readback.cc:99-115 | the reservation is announced before a byte of the ring changes; a huge write keeps its last ringful |
| SpanReadback.SpanReadback.OnBytesWritten | cpp/src/mcap/span_readback.cc:99-122 | the stream grows by exactly the bytes written, copied up to the wrap and past it |
| SpanReadback.SpanReadback.SliceIsSlots | cpp/src/mcap/span_readback.cc:385-390 | the two runs of a slice are the ring slots of the stream positions |
| SpanReadback.SpanReadback.OnSpanEvicted | cpp/src/mcap/span_readback.cc:124-126 | one more span offered, queued unless it is longer than the ring or the queue is full |
| SpanReadback.SpanReadback.Enqueue | cpp/src/mcap/span_readback.cc:154-167 | queued or counted skipped, exactly one of the two |
| SpanReadback.SpanReadback.OnSyncDisabled | cpp/src/mcap/span_readback.cc:128 | the rest of the part is offered and skipped |
| SpanReadback.SpanReadback.NotePartEnd | cpp/src/mcap/span_readback.cc:130-139 | the tail is remembered, or skipped when writeback was off, or there is none |
| SpanReadback.SpanReadback.CommitTail | cpp/src/mcap/span_readback.cc:141-152 | the remembered tail is queued or skipped |
| SpanReadback.SpanReadback.WriterDoes | cpp/src/mcap/span_readback.hpp:16-31 | any step of the writer, down to one byte copied, does to stream, parts, queue and counts exactly what that step does, or nothing out of turn; it keeps the whole invariant and touches nothing of the stepper |
| SpanReadback.SpanReadback.Yield | cpp/src/mcap/span_readback.hpp:16-31 | between two of the stepper the writer has taken exactly the steps the script has there |
| SpanReadback.SpanReadback.RingByte | cpp/src/mcap/span_readback.cc:377-383 | a ring byte read while the reservation has not passed the span is the byte written there |
| SpanReadback.SpanReadback.FindFirstDiffAgainstRing | cpp/src/mcap/span_readback.cc:402-422 | if the span is still in the ring afterwards: all bytes before the index match what was written, and the one at it does not |
| SpanReadback.SpanReadback.CopyFromRing | cpp/src/mcap/span_readback.cc:392-400 | if the span is still in the ring afterwards: the copy is what was written |
| SpanReadback.SpanReadback.VerifyPiece | cpp/src/mcap/span_readback.cc:282-317 | one more read in the history; unserved, torn, matching and differing pieces each lead where they should: on, to a mismatch at the first differing byte, or to a verdict on the span, which joins the evidence with that reading |
| SpanReadback.SpanReadback.RewritePiece | cpp/src/mcap/span_readback.cc:319-339 | a torn copy hands the medium nothing; otherwise exactly one write, of n bytes at the right offset, all of them the bytes originally written; a failed write ends the span as left wrong, with the mismatch found before; the last piece starts the re-read |
| SpanReadback.SpanReadback.NoteReadFailed | cpp/src/mcap/span_readback.cc:354-369 | an I/O error, or any failure past the first pass, is a storage fault and the verdict left wrong, with the mismatch if there was one; otherwise a read failure and the verdict unread; either way with the answer that failed |
| SpanReadback.SpanReadback.AbandonInFlight | cpp/src/mcap/span_readback.cc:341-349 | only for a span the writer has overrun, or at the close: past the first pass a fault and the verdict left wrong, with its mismatch; before it a skip and the verdict skipped |
| SpanReadback.SpanReadback.NoteUnrepaired | cpp/src/mcap/span_readback.cc:434-446 | counts the span unrepaired and latches the fault; its verdict is left wrong, with the mismatch if one was found, and a cause that holds |
| SpanReadback.SpanReadback.StartNextSpan | cpp/src/mcap/span_readback.cc:241-262 | skips exactly the overrun spans at the front, leaves one only if it has not settled and writing is not over, records the lag of the one it takes up |
| SpanReadback.SpanReadback.RunPiece | cpp/src/mcap/span_readback.cc:269-280 | what the medium was asked, returned and was handed decides the piece; every piece that does not end the span lowers the pieces it has left, and passes only move on |
| SpanReadback.PieceCosts | cpp/src/mcap/span_readback.cc:225-236 | the step of the measure: within a pass or into the next |
| SpanReadback.AtMostThreePasses | cpp/src/mcap/span_readback.cc:282-339 | a span has at most three passes of pieces left |
| SpanReadback.PiecesIsCeiling | cpp/src/mcap/span_readback.cc:274-275 | a pass over a span takes the ceiling of its length by the piece size, at least one piece |
| SpanReadback.SpanReadback.StepLocked | cpp/src/mcap/span_readback.cc:225-236 | no work only if nothing is queued or the front has not settled; all but the span worked on were overrun; that one runs more + 1 pieces, two calls of the medium each at most, unless it is over before; resumed, it never goes back a pass, so three passes and one rewrite bound it; and with a budget for one pass a span served well ends verified |
| SpanReadback.SpanReadback.FinishSpan | cpp/src/mcap/span_readback.cc:371-375 | the judged span leaves the queue |
| SpanReadback.SpanReadback.Finish | cpp/src/mcap/span_readback.cc:173-203 | nothing left queued, in flight or pending; every span ever offered is counted once; with enough budgets of three passes nothing is given up |
| SpanReadback.CountsAreTrue | cpp/src/mcap/span_readback.cc:282-339 | in every reachable state: the i-th span queued has the i-th verdict and the counters count the verdicts; by what the medium returned, was handed and answered, a span verified is covered by consecutive reads that returned what was written there, a mismatch is a byte read where another was written, a repaired span had one and was then covered by writes, one left wrong had one, or an I/O error, and a cause, one unread a failed call, one skipped was overrun or met the close, nothing counting for two spans; so one served well is verified; and every byte ever written to the medium was originally written there |
| SpanEvidence.WellServedIsVerified | cpp/src/mcap/span_readback.cc:282-317 | a judged span that was not overrun or given up, with every call answered and every read as written, is verified |
| SpanReadback.SpansAreConserved | cpp/src/mcap/span_readback.cc:124-203 | offered = verified + unrepaired + skipped + read failures + queued + pending tail; fault iff unrepaired > 0; each mismatch is one of repaired, given up on (a verdict in the evidence, and then a span unrepaired) or in flight |
| SpanEvidence.MismatchesSplit | cpp/src/mcap/span_readback.cc:282-349 | of the spans judged, those mismatched are the repaired and the given up, and a span given up on is left wrong |
| SpanReadback.PathsAreOwned | cpp/src/mcap/span_readback.cc:86-97 | every queued, pending or in-flight span names a path still kept |
| SpanReadback.Recording | cpp/src/mcap/span_readback.hpp:16-27 | a whole recording under any script of the writer, any medium and any budgets |
| WritePolicy.ApplyDropBound | cpp/include/visio_schema/transport/write_policy.hpp:67-98 | refused only by a full DropOnFail queue; otherwise the shed queue, with its byte count |
| WritePolicy.BoundedKeepsOrder | cpp/include/visio_schema/transport/write_policy.hpp:67-98 | shedding keeps order, accounts for every entry, and stops at the bound |
| WritePolicy.BoundIsKept | cpp/include/visio_schema/transport/write_policy.hpp:67-98 | the depth, or the bytes with the frame that comes in, after shedding; nothing is shed for a frame that fits |
| WritePolicy.NewestAreKept | cpp/include/visio_schema/transport/write_policy.hpp:67-98 | with no protected frames those kept are the newest |
| WritePolicy.ProtectedGoLast | cpp/include/visio_schema/transport/write_policy.hpp:70-86 | a frame below the protected size is shed only when no larger one is left |
| FramedOutbox.Outbox.Enqueue | cpp/src/transport/framed_outbox.cc:16-33 | queued after the shed queue, or refused; every entry shed is counted |
| FramedOutbox.AcceptedFits | cpp/src/transport/framed_outbox.cc:16-33 | a queue that has taken a frame in is within its depth or bytes, or holds that frame alone |
| FramedOutbox.Outbox.TryEnqueue | cpp/src/transport/framed_outbox.cc:42-50 | accepted exactly if non-empty and within the byte limit |
| FramedOutbox.Outbox.DiscardQueued | cpp/src/transport/framed_outbox.cc:52-56 | the queue goes, what is in flight stays |
| FramedOutbox.Outbox.WriteInFlight | cpp/src/transport/framed_outbox.cc:61-76 | one write of the bytes in flight: what the fd takes is what the lane has sent |
| FramedOutbox.Outbox.PromoteToInFlight | cpp/src/transport/framed_outbox.cc:129-156 | commits one frame or the whole queue as one batch, bytes unchanged |
| FramedOutbox.Outbox.EvictStale | cpp/src/transport/framed_outbox.cc:81-108 | sheds exactly the stale, unprotected non-keyframes |
| FramedOutbox.AgeOut | cpp/src/transport/framed_outbox.cc:91-108 | the eviction pass against its specification, with byte count and tally |
| FramedOutbox.AgingSplits | cpp/src/transport/framed_outbox.cc:91-108 | aging keeps order, and entries and bytes are split between kept and shed |
| FramedOutbox.ExpiredAreStale | cpp/src/transport/framed_outbox.cc:91-108 | what is aged out was queued and stale, and never a sync point |
| FramedFd.StaleInNanoseconds | cpp/src/transport/framed_outbox.cc:79-95 | an entry is stale once its age limit, in microseconds from when it was queued, has passed on the nanosecond clock; never a sync point or a protected one |
| FramedOutbox.Outbox.CommitNext | cpp/src/transport/framed_outbox.cc:78-126 | at a frame boundary: shed, commit, one write |
| FramedOutbox.Outbox.Drain | cpp/src/transport/framed_outbox.cc:61-126 | a whole drain: writes, what the fd takes, what is committed, shed and left, for full, partial, zero and failing writes |
| FramedOutbox.Outbox.Clear | cpp/src/transport/framed_outbox.cc:158-166 | everything not yet wholly written is cleared, the in-flight remainder included |
| FramedOutbox.LiveWasOffered | cpp/src/transport/framed_outbox.cc:16-166 | what is committed or queued was offered |
| FramedOutbox.LosslessStream | cpp/src/transport/framed_outbox.cc:129-156 | with nothing shed or cleared the lane writes the offered frames back to back, in either drain mode |
| RateGate.Door.SetStreamPolicy | cpp/src/transport/framed_fd.cc:286-297 | the phase of every stream whose period is unchanged survives; the same table again changes nothing |
| RateGate.Door.PassesRateGate | cpp/src/transport/framed_fd.cc:315-368 | verdict and gate after one message, by its capture time, or by its send time if it has none; a gap of zero or less always passes |
| RateGate.Door.Admits | cpp/src/transport/framed_fd.cc:202-264 | every gate before framing: stall, keyframes-only, drop rule, rate cap |
| RateGate.FirstInEachSlot | cpp/src/transport/framed_fd.cc:299-314 | for nondecreasing capture times from zero on, the messages that pass are exactly the first in each occupied period |
| RateGate.SendsAreNotTimed | cpp/src/transport/framed_fd.cc:299-306 | two runs that differ only in when messages with a capture time are handed over have the same verdicts: a group sent at once is not one message |
| RateGate.FirstCapturedPasses | cpp/src/transport/framed_fd.cc:299-367 | over any run with other streams and re-installed tables: a message passes exactly if no earlier one of its stream was captured in the same period |
| RateGate.FirstSentPasses | cpp/src/transport/framed_fd.cc:322-367 | without capture times, exactly if no earlier one was handed over in the same period |
| RateGate.SlotsIncrease | cpp/src/transport/framed_fd.cc:348-367 | whatever the times, accepted slots increase strictly between epoch re-seeds |
| RateGate.FullPeriodPasses | cpp/src/transport/framed_fd.cc:349-367 | no message a full period after the last accepted is refused, exactly unless that one re-seeded the gate from an off-grid time before zero |
| RateGate.FullPeriodRefused | cpp/src/transport/framed_fd.cc:349-367 | a concrete message refused a full period after the last accepted |
| RateGate.FirstMessagePasses | cpp/src/transport/framed_fd.cc:330-362 | a first message passes exactly if its time is not a little before zero |
| RateGate.StreamsAreIndependent | cpp/src/transport/framed_fd.cc:268-284 | verdicts depend on the stream's own times alone: not on batching, other streams, or re-installed tables |
| FramedFd.Endpoint.constructor | cpp/src/transport/framed_fd.cc:58-66 | an endpoint over a fresh fd |
| FramedFd.Endpoint.EnqueueOne | cpp/src/transport/framed_fd.cc:202-278 | past every gate, and only then, one frame offered to the video or the control lane; the door afterwards, gate, counters and hold; nothing on the wire changes |
| FramedFd.Endpoint.SendBatch | cpp/src/transport/framed_fd.cc:191-198 | the stall flag is read once; what it shuts out is counted; the I/O thread is woken exactly if something entered and the link was not stalled |
| FramedFd.Endpoint.TrySendReliable | cpp/src/transport/framed_fd.cc:158-169 | the four results, exactly |
| FramedFd.Endpoint.DiscardReliable | cpp/src/transport/framed_fd.cc:171-173 | only queued frames go |
| FramedFd.Endpoint.SendTimed | cpp/src/transport/framed_fd.cc:113-124 | at most 16 waiting, oldest dropped |
| FramedFd.Endpoint.Produce | cpp/src/transport/framed_fd.cc:108-198 | any calls by producers leave what is committed and on the wire as it is, and only add to what is offered |
| FramedFd.Endpoint.MarkLinkDead | cpp/src/transport/framed_fd.cc:512-561 | every lane, the timed queue and the receive buffer are emptied, the stall and the keyframes-only hold lifted, and the transcript of the link is kept |
| FramedFd.Endpoint.Stop | cpp/src/transport/framed_fd.cc:91-106 | the reliable and timed lanes are emptied and the others left as they are, with what is out of their unit; the transcript of the link is kept |
| FramedFd.Endpoint.AdoptFd | cpp/src/transport/framed_fd.cc:23-37 | everything stays valid, and the new descriptor starts with a whole frame exactly if on every lane what is out of the unit under way is whole frames |
| FramedFd.Endpoint.Restart | cpp/src/transport/framed_fd.cc:91-106 | stopped, started again and reopened: the next descriptor starts with a whole frame exactly if the control and the video unit were cut between two of their frames, or not begun |
| FramedFd.StoppedMidFrame | cpp/src/transport/framed_fd.cc:91-106 | a concrete message cut by a stop: the next descriptor takes a byte no frame begins with, neither reader gets the message, and it counts as written |
| FramedFd.StoppedBetweenFrames | cpp/src/transport/framed_fd.cc:91-106 | a concrete batch of two messages cut between them by a stop: each descriptor takes one of them whole, and each reader gets it |
| EndToEnd.RestartAndRun | cpp/src/transport/framed_fd.cc:91-106 | stopped, reopened and run for any passes with any producers: what the next descriptor has taken is the rest of a frame, then whole frames, then part of one, and that rest is nothing exactly if the control and the video unit were cut between two of their frames, or not begun |
| LinkTranscript.LinkTakes | cpp/src/transport/framed_fd.cc:377-450 | from its first byte on a link takes the rest of a frame, whole frames, and part of one; the rest is nothing exactly if it starts at a frame boundary |
| LinkTranscript.StartIsSettled | cpp/src/transport/framed_fd.cc:377-450 | whether a link starts at a frame boundary is settled when it comes up |
| FramedFd.Endpoint.StampTimed | cpp/src/transport/framed_fd.cc:133-144 | a timed frame is stamped again on every try, on top of the last, until some of it is on the wire |
| FramedFd.Endpoint.WriteTimed | cpp/src/transport/framed_fd.cc:145-155 | one write of the stamped frame: kept, advanced or done |
| FramedFd.Endpoint.PumpTimed | cpp/src/transport/framed_fd.cc:133-156 | one write for the timed frame that is active, or else for the one that waits longest; it is then out whole or active; the stream stays whole |
| FramedFd.Endpoint.Pick | cpp/src/transport/framed_fd.cc:423-436 | the lane mid-frame first, else control, reliable, video |
| FramedFd.Endpoint.DrainPicked | cpp/src/transport/framed_fd.cc:437-440 | one drain of the picked lane keeps the stream whole; control queued at a boundary is committed at once |
| FramedFd.Endpoint.PumpTurn | cpp/src/transport/framed_fd.cc:409-447 | a timed frame that is due is served, with one write and no other lane touched; otherwise the picked outbox is drained at this time and no other lane touched; what is aged out is exactly what is stale then, in microseconds; the stream stays whole, and if the link dies its transcript still tells what it took |
| FramedFd.Endpoint.Pump | cpp/src/transport/framed_fd.cc:377-450 | a whole pass, with producers calling between its turns: the stream stays whole and a link that dies leaves its transcript; a timed frame that is due goes out before any other; video is aged out only when stale at the time of a turn; unwanted video is shed; control queued at a boundary is committed; it ends for a full link, empty queues or the frame budget; a link that took bytes is not stalled |
| FramedFd.Endpoint.UpdateStallState | cpp/src/transport/framed_fd.cc:452-504 | new evictions arm the hold; bytes taken end a stall and ask for a flush; a stall starts only with something pending and the clock run out |
| FramedFd.Endpoint.FlushBulk | cpp/src/transport/framed_fd.cc:379-388 | queued video is shed at a frame boundary of its lane only |
| FramedFd.Endpoint.ReadInbound | cpp/src/transport/framed_fd.cc:615-635 | one read delivers the messages it completes; end of file kills the link and keeps its transcript |
| FramedFd.LinkHolds | cpp/src/transport/framed_fd.cc:377-450 | what the open link took is whole frames and then part of one unit, and lane by lane these are some of the frames handed in, in order, timed ones as last stamped; the unit under way is of one lane |
| EndToEnd.EveryLinkHolds | cpp/src/transport/framed_fd.cc:377-561 | the same of every link the endpoint ever had, open or dead, and each goes on where the one before it was cut or starts anew |
| EndToEnd.ReceiverGetsWholeFrames | cpp/src/transport/framing.cc:13-54 | of any part of what such a link took, in any reads, the receiver yields exactly the messages of the frames whole in it, in order, after at most one from the rest of a frame it did not begin, and nothing else; lane by lane they are some of those handed in, in their order; with all of it read no unit that is out is missing |
| EndToEnd.SliceOfFrames | cpp/src/transport/framing.cc:13-61 | any slice of a run of framed messages delivers what the rest of the frame it starts in decodes to, if that is whole, and then exactly the messages it holds whole |
| EndToEnd.MeansTheMessage | cpp/src/transport/framing.cc:13-61 | a frame handed in decodes to its message |
| EndToEnd.DeliveredWereOffered | cpp/src/transport/framing.cc:13-61 | the messages of a lane's frames are some of those handed in to it, in the order they were handed in |
| EndToEnd.TimedMeanings | cpp/src/transport/framed_fd.cc:133-156 | the messages of the timed frames that went out are those handed in, stamped at the times of all their tries |
| EndToEnd.LinkDelivers | cpp/src/transport/framed_fd.cc:377-561 | message by message, over any link the endpoint has or had and any reads: what the receiver yields, and that on each of the four lanes it was handed in, in that order, on the timed one as stamped |
| Crc16.MakeTable | cpp/src/codec/crc16.cc:9-20 | every table entry is the remainder of its byte shifted up eight bits |
| Crc16.ComputeCrc16 | cpp/src/codec/crc16.cc:26-34 | the table loop equals bit-serial division |
| Crc16.CrcIsPolynomialRemainder | cpp/src/codec/crc16.cc:9-34 | the checksum is the remainder of the message and sixteen zeros, leading bits inverted, by the polynomial 0x1021 |
| Crc16.BurstChangesCrc | cpp/src/codec/crc16.cc:26-34 | any change inside sixteen consecutive bits changes the checksum |
| Frame.EncodeFrameInto | cpp/src/codec/frame.cc:51-68 | the frame, field by field, equals the layout |
| Frame.DecodeFrameInto | cpp/src/codec/frame.cc:70-103 | the decoder with its four refusals in order |
| Frame.FrameRoundTrip | cpp/src/codec/frame.cc:51-103 | a message comes back as sent, up to an invalid sync point |
| Frame.BurstIsRejected | cpp/src/codec/frame.cc:70-84 | damage inside sixteen consecutive covered bits of an accepted frame is refused |
| Frame.AdjacentDamageIsRejected | cpp/src/codec/frame.cc:51-84 | any change to one covered byte or two adjacent ones of an encoded frame is refused |
| Cobs.CobsEncode | cpp/src/codec/cobs.cc:5-49 | every write inside the preallocated buffer, result as specified |
| Cobs.CobsDecode | cpp/src/codec/cobs.cc:51-71 | the decoder loop as specified, for malformed input too |
| Cobs.RoundTrip | cpp/src/codec/cobs.cc:5-71 | decode(encode(d)) = d |
| Cobs.EncodeHasNoZero | cpp/src/codec/cobs.cc:5-49 | no zero byte in an encoding |
| Cobs.EncodeLength | cpp/src/codec/cobs.cc:5-49 | n+1 <= length <= n+1+n/254 |
| Cobs.CanonicalIff | cpp/src/codec/cobs.cc:51-71 | encode(decode(e)) = e exactly unless e is empty or ends in a full block and a lone 0x01 |
| Framing.RxBuffer.ExtractFrames | cpp/src/transport/framing.cc:13-54 | every whole run decoded, the partial one kept |
| Framing.RxBuffer.Receive | cpp/src/transport/framed_fd.cc:628-634 | one read appended and extracted |
| Framing.SplitInvariant | cpp/src/transport/framing.cc:13-54 | splitting a stream changes neither messages nor remainder |
| Framing.ReadsDeliverTheStream | cpp/src/transport/framing.cc:13-54 | so for any number of reads |
| Framing.StreamThen | cpp/src/transport/framing.cc:13-61 | framed messages come out as they went in |
| Framing.GarbageCostsAtMostTheFirst | cpp/src/transport/framing.cc:13-54 | arbitrary garbage in front costs at most the first message |
| Framing.DelimitedGarbageCostsNothing | cpp/src/transport/framing.cc:13-54 | garbage that is empty or ends in a delimiter costs none |
| Framing.PrefixDeliversWholeFrames | cpp/src/transport/framing.cc:13-54 | any prefix delivers exactly the whole frames in it |
| PayloadArena.PayloadArena.constructor | cpp/src/mcap/payload_arena.cc:43-62 | as many whole chunks as fit; none without a reservation |
| PayloadArena.PayloadArena.LowestFreeChunk | cpp/src/mcap/payload_arena.cc:110-116 | the lowest chunk that is empty, not current and not being handed back |
| PayloadArena.PayloadArena.ChooseChunk | cpp/src/mcap/payload_arena.cc:88-92 | the current chunk if the record fits, else the lowest free one |
| PayloadArena.PayloadArena.CanPut | cpp/src/mcap/payload_arena.cc:84-86 | exactly whether there is room |
| PayloadArena.PayloadArena.Put | cpp/src/mcap/payload_arena.cc:68-82 | refused exactly without room, and then nothing changes; a new record right after the last one put if that still fits its chunk, else at the start of the lowest free one, and the next goes after it; no other record or claimed chunk touched |
| PayloadArena.PutTwo | cpp/src/mcap/payload_arena.cc:68-92 | with a chunk free, two records that fit one together are both taken, one after the other if the chunk the first went to has room |
| PayloadArena.PutAll | cpp/src/mcap/payload_arena.cc:68-92 | records that fit what is left of the current chunk are all taken, back to back |
| PayloadArena.PayloadArena.Free | cpp/src/mcap/payload_arena.cc:94-108 | the record goes; a chunk emptied above the resident set, and only such a one, is claimed, and current no more; an emptied current chunk of the resident set is begun again |
| PayloadArena.PayloadArena.RunReclaim | cpp/src/mcap/payload_arena.cc:118-130 | any part of a claimed chunk may become anything at any time; every live record stays |
| PayloadArena.PayloadArena.CompleteReclaim | cpp/src/mcap/payload_arena.cc:132-138 | untouched again, or touched if the kernel refused |
| PayloadArena.PayloadArena.ResidentBytes | cpp/src/mcap/payload_arena.cc:140-144 | chunk size times the chunks not untouched |
| PayloadArena.LiveRecordsAreSafe | cpp/src/mcap/payload_arena.cc:68-138 | in every reachable state live records hold their bytes, never overlap, and are never in a chunk being handed back |
| PayloadArena.EmptyChunksAreUntouched | cpp/src/mcap/payload_arena.cc:94-138 | as long as no hand-back failed, every chunk above the resident set that holds nothing and is not being handed back is untouched |
| PayloadArena.DrainedLeavesTheResidentSet | cpp/src/mcap/payload_arena.cc:94-138 | so once drained, with hand-backs done, only the resident set can hold pages |
| WriterEndpoint.Recorder.Send | cpp/src/mcap/writer_endpoint.cc:206-252 | it waits exactly while a hand-back runs and there is no room; refused and counted by a full DropOnFail queue, else queued behind what the policy keeps, with the shed counted, and in the arena exactly if there is room; after a stop nothing is taken |
| WriterEndpoint.Recorder.EvictTo | cpp/src/mcap/writer_endpoint.cc:217-226 | shed entries are counted and their memory freed |
| WriterEndpoint.Recorder.PayloadOf | cpp/src/mcap/writer_endpoint.cc:316-320 | read without the lock, byte by byte, the payload is what was sent |
| WriterEndpoint.Recorder.ReleaseFront | cpp/src/mcap/writer_endpoint.cc:376-389 | the front entry goes with its record; a hand-back runs outside the lock |
| WriterEndpoint.Recorder.SwapBatch | cpp/src/mcap/writer_endpoint.cc:268-274 | the swap moves queue and byte count together |
| WriterEndpoint.Recorder.DrainBatch | cpp/src/mcap/writer_endpoint.cc:341-374 | storage gets exactly the bytes sent of the entries that leave the batch, in order; refused storage sheds the rest; a throw leaves the rest uncounted for its caller |
| WriterEndpoint.Recorder.WriteOut | cpp/src/mcap/writer_endpoint.cc:350-357 | one write of the bytes read from the arena; counted exactly if storage did not throw |
| WriterEndpoint.Recorder.WriteBatch | cpp/src/mcap/writer_endpoint.cc:284-300 | without a failure what is due is flushed and the whole batch written; a failure has its cause in storage, and what is not written is counted dropped |
| WriterEndpoint.Recorder.WriterTurn | cpp/src/mcap/writer_endpoint.cc:258-312 | a turn takes all it finds in the queue; unless storage threw or refused, every frame taken before it is then stored or was given up by the policy; nothing is held and nothing uncounted; told to stop it ends exactly when nothing was queued |
| WriterEndpoint.Recorder.WriterLoop | cpp/src/mcap/writer_endpoint.cc:254-314 | when it finalizes, frames taken = written + dropped and the gauges read zero; told to stop it needs two turns for that; without trouble every frame the policy did not give up is stored |
| WriterEndpoint.Recorder.StopInline | cpp/src/mcap/writer_endpoint.cc:98-114 | the same without a writer thread |
| WriterEndpoint.GaugeNeverUnderReports | cpp/src/mcap/writer_endpoint.cc:396-402 | at every moment queued plus in-flight bytes are at least the bytes held |
| WriterEndpoint.RecordingIsWhatWasSent | cpp/src/mcap/writer_endpoint.cc:206-389 | everything storage was ever given is some of the frames taken, whole, unaltered, in order; once finalized the others are counted dropped; unless storage threw or refused those dropped are exactly the ones the policy gave up, by the queues they met |
| WriterEndpoint.NothingIsLeaked | cpp/src/mcap/writer_endpoint.cc:376-389 | the arena holds the records of the entries held and nothing else, and no chunk is being handed back but the one waited for; once finalized it is empty, and unless a hand-back failed only the resident set has pages |
| Reorder.Reorder | python/visio_schema/reader/rows.py:196-225 | always a permutation, in which each item leaves in the round in which the arrivals have passed it, and within a round by time; the stable sort of the input exactly if no item is too late |
| Reorder.WithinBudgetIsSorted | python/visio_schema/reader/rows.py:199-213 | under the documented contract, with no arrival more than the budget before zero, the output is the stable sort |
| Reorder.BudgetBeforeZero | python/visio_schema/reader/rows.py:215-217 | the documented contract alone does not suffice: two items before time zero |
| Reorder.SortSorts | python/visio_schema/reader/rows.py:199-213 | the offline sort sorts and permutes |
| RecordingCrypto.CipherContext.Update | cpp/src/mcap/recording_crypto.cc:192-205 | the stateful context produces the keystream from its position on |
| RecordingCrypto.RecordingCipher.SeekTo | cpp/src/mcap/recording_crypto.cc:151-181 | positioned at the offset, or nothing changed in the cipher's own record and the context lost |
| RecordingCrypto.RecordingCipher.XorAt | cpp/src/mcap/recording_crypto.cc:183-212 | it works exactly if every library call it needs does; a faithful cipher gives the stateless XOR, in place or not; it stays faithful exactly unless a seek fails while it was positioned, and then still says it worked at the old place, with whatever the context produces |
| RecordingCrypto.FailedSeekLosesThePlace | cpp/src/mcap/recording_crypto.cc:151-212 | a concrete failing seek after which a call at the old position says it worked and gives a byte other than the stateless XOR |
| RecordingCrypto.XorRangeTwice | cpp/src/mcap/recording_crypto.cc:183-212 | encrypting twice is the identity |
| RecordingCrypto.XorRangePart | cpp/src/mcap/recording_crypto.cc:6-8 | any part of a stream can be processed on its own at its offset |
| RecordingCrypto.XorRangeConcat | cpp/src/mcap/recording_crypto.cc:183-212 | pieces one after the other are the whole |
| RecordingCrypto.WriteVrecHeader | cpp/src/mcap/recording_crypto.cc:78-93 | the 32 header bytes |
| RecordingCrypto.ParsersAgree | python/visio_schema/mcap/crypto.py:163-178 | the C++ and the Python parser accept the same headers and read the same fields |
| RecordingCrypto.HeaderRoundTrip | cpp/src/mcap/recording_crypto.cc:101-126 | a header is read back exactly if its format and cipher are the ones implemented |
| RecordingCrypto.ValidLengthInPlace | cpp/include/visio_schema/mcap/recording_crypto.hpp:119-121 | the valid length can be rewritten in place |
| RecordingCrypto.VrecReader.constructor | python/visio_schema/mcap/crypto.py:376-396 | size cut at the recorded valid length; none for a file shorter than the header |
| RecordingCrypto.VrecReader.Seek | python/visio_schema/mcap/crypto.py:408-420 | the three origins; an invalid or negative target changes nothing |
| RecordingCrypto.VrecReader.ReadInto | python/visio_schema/mcap/crypto.py:429-440 | the next slice of the plaintext, as long as buffer and view allow |
| RecordingCrypto.VrecReader.XorAt | python/visio_schema/mcap/crypto.py:442-455 | the stateless definition, from a fresh context |
| RecordingCrypto.ReaderShowsThePlaintext | python/visio_schema/mcap/crypto.py:369-455 | what the C++ side wrote the Python side shows, cut at the recorded length |
| Manifest.TextCoversTheParts | python/visio_schema/ingest/signing.py:159-169 | equal texts hold the same multiset of parts |
| Manifest.OrderDoesNotMatter | python/visio_schema/ingest/signing.py:159-169 | the text is independent of input order exactly if parts of equal name are equal |
| Manifest.SwapMatters | python/visio_schema/ingest/signing.py:168 | swapping two different parts of one name changes the text |
| Manifest.EqualNamesMatter | python/visio_schema/ingest/signing.py:159-169 | two concrete parts of one name whose order shows in the text |
| Manifest.LineReadsBack | python/visio_schema/ingest/signing.py:162-169 | a line determines its part and what follows |
| Manifest.SortSorts | python/visio_schema/ingest/signing.py:168 | ordered by name, nothing lost |
| Manifest.SortIsStable | python/visio_schema/ingest/signing.py:168 | parts of equal name keep their order |

## Left out

- FramedFd.Endpoint.UpdateStallState: the running total of accepted bytes kept for the
  serial watchdog is not part of this model.
- FramedFd.Endpoint.SendTimed: the callback told when a timed frame's first bytes went
  out is left out.
- FramedFd.Endpoint.AdoptFd: a negative descriptor and one that cannot be made
  non-blocking are not modelled; the endpoint then simply stays down.
- Real descriptors, polling, wake-ups, threads, the closed callback and reopen timing:
  a descriptor is an arbitrary sequence of answers.
- SpanReadback.SpanReadback.Finish: allocation failure of the ring is not modelled; the
  ring is there until the recording closes.
- SpanReadback.SpanReadback.FindFirstDiffAgainstRing: the eight bytes shown in the log
  line are left out, as is all log text.
- PartReadbackFile.Medium.WritePiece: bytes are handed to the medium, whether or not the
  call then fails; what a medium does with them is only seen through the re-read.
- PartReadbackFile.Medium.ReadPiece: direct and buffered access, alignment and eviction
  are not modelled; a read that fails returns no bytes.
- Weak-memory behaviour below the sequentially consistent fences.
- PayloadArena.PayloadArena.RunReclaim: a hand-back is arbitrary bytes in the claimed
  chunk; mapping, page residency and the once-only log are not modelled.
- WriterEndpoint.Recorder.Send: stream resolution, membership and the unmapped count
  come before this model; a frame arrives past those gates. Allocation failure inside
  it is not modelled. A frame that must wait for a hand-back is offered again later.
- WriterEndpoint.Recorder.DrainBatch: the container writer keeps what it is given, and
  otherwise is an arbitrary sequence of success, exception and refusal; its parts, chunks
  and rotation are not modelled, and neither are the timing statistics.
- Reorder.Reorder: the heap of the standard library is its sorted contents.
- RecordingCrypto.CipherContext.Update: offsets stay below 2^38, where a 32-bit block
  counter does not wrap; a call that succeeds produces every byte it was given.
- RecordingCrypto.VrecReader.ReadInto: the file does not change while it is read, and a
  read returns all that was asked for up to its end.
- The keyring and key resolution of the reader, nonces from the system, and container
  suites other than by magic and label.
- Manifest.TextCoversTheParts: names are their UTF-8 bytes, so a name that has no UTF-8
  encoding is not modelled.
- The other signatures of the ingest protocol, the message registry, the Python
  transport, display, provisioning and dataset code.
