/**
 The read-back's handles on one part file at a time
 (cpp/src/mcap/part_readback_file.cc), and all the medium behind them returned and
 was handed.
 */
module PartReadbackFile {
  import opened Bytes

  /** What the medium answers to one call: it works or not; why not; what is read. */
  datatype Answer = Answer(ok: bool, short: bool, eio: bool, content: seq<byte>)
  {
    function Content(n: nat): (r: seq<byte>)
      ensures |r| == n
    {
      if |content| >= n then content[..n] else content + seq(n - |content|, i => 0 as byte)
    }
  }

  /** Bytes the medium returned for a part's file offset, or was handed for it. */
  datatype Access =
    | Read(part: nat, off: nat, bytes: seq<byte>)
    | Write(part: nat, off: nat, bytes: seq<byte>)

  /** The medium, reached through the handles on one part file at a time. Every call
      that reaches it gets the next answer. `history` is all it returned and was handed. */
  class Medium {
    const answers: nat -> Answer
    var asked: nat
    var current: Option<nat>
    ghost var history: seq<Access>

    constructor (answers: nat -> Answer)
      ensures this.answers == answers && asked == 0 && current.None? && history == []
    {
      this.answers, asked, current, history := answers, 0, None, [];
    }

    /** The call the next access would be, if the part has to be current for it. */
    function AfterOpen(part: nat): nat
      reads this`asked, this`current
    {
      if current == Some(part) then asked else asked + 1
    }

    predicate Opens(part: nat)
      reads this`asked, this`current
    {
      current == Some(part) || answers(asked).ok
    }

    method Open(part: nat) returns (ok: bool, eio: bool)
      modifies this`asked, this`current
      ensures ok == old(Opens(part)) && asked == old(AfterOpen(part))
      ensures !ok ==> eio == answers(old(asked)).eio
      ensures current == if ok then Some(part) else None
    {
      if current == Some(part) { return true, false; }
      ok, eio := answers(asked).ok, answers(asked).eio;
      asked := asked + 1;
      current := if ok then Some(part) else None;
    }

    method ReadPiece(part: nat, off: nat, n: nat) returns (a: Answer, got: seq<byte>)
      modifies this`asked, this`history
      ensures asked == old(asked) + 1 && a == answers(old(asked)) && got == a.Content(n)
      ensures history == if a.ok then old(history) + [Read(part, off, got)] else old(history)
    {
      a, got := answers(asked), answers(asked).Content(n);
      asked := asked + 1;
      if a.ok { history := history + [Read(part, off, got)]; }
    }

    method WritePiece(part: nat, off: nat, bytes: seq<byte>) returns (ok: bool)
      modifies this`asked, this`history
      ensures asked == old(asked) + 1 && ok == answers(old(asked)).ok
      ensures history == old(history) + [Write(part, off, bytes)]
    {
      ok := answers(asked).ok;
      asked := asked + 1;
      history := history + [Write(part, off, bytes)];
    }
  }
}
