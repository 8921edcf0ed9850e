/**
 The door of a link (cpp/src/transport/framed_fd.cc): what is refused before
 any framing work, and the rate gate that thins a capped stream to one message
 per slot of its period.
 */
module RateGate {
  import opened Bytes
  import opened Frame

  /** How far behind its grid a message may be before it starts a new epoch. */
  const EPOCH_RESET_US: nat := 1_000_000

  datatype StreamRule = StreamRule(drop: bool, minGapUs: int)

  type Table = map<uint32, StreamRule>

  /** The earliest time that may pass next, and which clock the stream uses. */
  datatype Gate = Gate(gridUs: int, captureTimed: bool, mixedWarned: bool)

  const FRESH_GATE := Gate(0, false, false)

  /** A message as a producer hands it over, with its in-memory markings. */
  datatype Outgoing = Outgoing(msg: Message, bulk: bool, decimatable: bool, noDegrade: bool)

  function GapIn(table: Option<Table>, id: uint32): int
  {
    if table.Some? && id in table.value then table.value[id].minGapUs else 0
  }

  predicate Drops(table: Option<Table>, id: uint32)
  {
    table.Some? && id in table.value && table.value[id].drop
  }

  /** Division as the machine does it, toward zero. */
  function TruncDiv(a: int, b: int): int
    requires b > 0
  {
    if a >= 0 then a / b else -((-a) / b)
  }

  function TimestampNs(ts: Timestamp): int
  {
    ts.seconds as int * 1_000_000_000 + ts.nanos as int
  }

  /** The time a message is gated by: its capture time, or now without one. */
  function GateTime(captureNs: int, nowUs: int): int
  {
    if captureNs != 0 then TruncDiv(captureNs, 1000) else nowUs
  }

  /** A message too far behind the grid to be jitter. */
  predicate NewEpoch(grid: int, gap: int, t: int)
  {
    t < grid && grid - gap - t > EPOCH_RESET_US
  }

  predicate Passes(grid: int, gap: int, t: int)
  {
    t >= grid || NewEpoch(grid, gap, t)
  }

  /** The grid after a message that passed. */
  function NextGrid(grid: int, gap: int, t: int): int
    requires gap > 0
  {
    var base := if NewEpoch(grid, gap, t) then 0 else grid;
    base + gap * (1 + TruncDiv(t - base, gap))
  }

  function GridAfter(grid: int, gap: int, t: int): int
    requires gap > 0
  {
    if Passes(grid, gap, t) then NextGrid(grid, gap, t) else grid
  }

  // ---- the door ---------------------------------------------------------------

  function GateFor(gates: map<uint32, Gate>, id: uint32): Gate
  {
    if id in gates then gates[id] else FRESH_GATE
  }

  /** A stream's gate after one message at time `t`. */
  function GateAfter(g: Gate, gap: int, captureNs: int, t: int): Gate
    requires gap > 0
  {
    var timed := captureNs != 0;
    Gate(GridAfter(g.gridUs, gap, t),
         if g.gridUs == 0 then timed else g.captureTimed,
         g.mixedWarned || (g.gridUs != 0 && timed != g.captureTimed))
  }

  /** The gates a new table keeps: those of streams whose period is unchanged. */
  function Kept(gates: map<uint32, Gate>, was: Option<Table>, now: Option<Table>): map<uint32, Gate>
  {
    map id | id in gates && GapIn(now, id) != 0 && GapIn(now, id) == GapIn(was, id) :: gates[id]
  }

  /** The keyframes-only degradation refuses this message. */
  predicate Degraded(holdUntilNs: int, o: Outgoing)
  {
    o.bulk && !o.noDegrade && holdUntilNs != 0 && !o.msg.keyframe
  }

  /** The rate cap applies to this message: never to bulk video. */
  predicate Capped(policy: Option<Table>, o: Outgoing)
  {
    GapIn(policy, o.msg.streamId) > 0 && !o.bulk
  }

  predicate Shut(stalled: bool, o: Outgoing)
  {
    stalled && (o.bulk || o.decimatable)
  }

  /** The door lets this message through. */
  predicate Opens(s: DoorState, holdUntilNs: int, stalled: bool, o: Outgoing, nowUs: int)
  {
    var id := o.msg.streamId;
    && !Shut(stalled, o) && !Degraded(holdUntilNs, o) && !Drops(s.policy, id)
    && (Capped(s.policy, o) ==>
          Passes(GateFor(s.gates, id).gridUs, GapIn(s.policy, id), GateTime(TimestampNs(o.msg.timestamp), nowUs)))
  }

  class Door {
    var policy: Option<Table>
    var gates: map<uint32, Gate>
    var degradeHoldUntilNs: int
    var stalled: bool
    var doorDropped: nat
    var degradeDropped: nat

    /** Only capped streams have a gate. */
    ghost predicate Valid()
      reads this`policy, this`gates
    {
      forall id :: id in gates ==> GapIn(policy, id) > 0
    }

    ghost function State(): DoorState
      reads this`policy, this`gates
    {
      DoorState(policy, gates)
    }

    constructor ()
      ensures Valid() && policy == None && gates == map[] && !stalled && degradeHoldUntilNs == 0
    {
      policy, gates := None, map[];
      degradeHoldUntilNs, stalled, doorDropped, degradeDropped := 0, false, 0, 0;
    }

    /** Install a table. The phase of every stream whose period is unchanged
        survives; installing the same table again changes nothing. */
    method SetStreamPolicy(table: Option<Table>)
      requires Valid()
      modifies this`policy, this`gates
      ensures Valid() && policy == table
      ensures State() == After(old(State()), Install(table))
      ensures table == old(policy) ==> gates == old(gates)
    {
      var rest := gates.Keys;
      while rest != {}
        invariant rest <= old(gates.Keys)
        invariant policy == old(policy)
        invariant forall id :: id in gates <==>
          id in old(gates) && (id in rest || id in Kept(old(gates), policy, table))
        invariant forall id :: id in gates ==> gates[id] == old(gates)[id]
        decreases |rest|
      {
        var id :| id in rest;
        var oldGap, newGap := GapIn(policy, id), GapIn(table, id);
        if !(newGap != 0 && newGap == oldGap) {
          gates := gates - {id};
        }
        rest := rest - {id};
      }
      policy := table;
    }

    /** The rate gate of one stream. */
    method PassesRateGate(id: uint32, captureNs: int, minGapUs: int, nowUs: int) returns (ok: bool)
      modifies this`gates
      ensures minGapUs <= 0 ==> ok && gates == old(gates)
      ensures minGapUs > 0 ==>
        var g, t := GateFor(old(gates), id), GateTime(captureNs, nowUs);
        ok == Passes(g.gridUs, minGapUs, t) && gates == old(gates)[id := GateAfter(g, minGapUs, captureNs, t)]
    {
      if minGapUs <= 0 { return true; }
      var t := if captureNs != 0 then TruncDiv(captureNs, 1000) else nowUs;
      var st := GateFor(gates, id);
      gates := gates[id := st];
      if st.gridUs == 0 {
        st := st.(captureTimed := captureNs != 0);
      } else if (captureNs != 0) != st.captureTimed && !st.mixedWarned {
        st := st.(mixedWarned := true);
      }
      gates := gates[id := st];
      var grid := st.gridUs;
      if t < grid {
        if grid - minGapUs - t <= EPOCH_RESET_US { return false; }
        grid := 0;
      }
      grid := grid + minGapUs * (1 + TruncDiv(t - grid, minGapUs));
      gates := gates[id := st.(gridUs := grid)];
      return true;
    }

    /** What one message does to the door. For anything but shed-safe video it is an
        event of the runs below. */
    twostate predicate Answered(o: Outgoing, stalled: bool, nowNs: int, nowUs: int)
      reads this
    {
      var shut := Shut(stalled, o);
      var degraded := !shut && Degraded(old(degradeHoldUntilNs), o);
      var open := !shut && !degraded && !Drops(policy, o.msg.streamId);
      var g, gap := GateFor(old(gates), o.msg.streamId), GapIn(policy, o.msg.streamId);
      var capture := TimestampNs(o.msg.timestamp);
      && policy == old(policy) && this.stalled == old(this.stalled)
      && gates == (if open && Capped(policy, o)
                   then old(gates)[o.msg.streamId := GateAfter(g, gap, capture, GateTime(capture, nowUs))]
                   else old(gates))
      && doorDropped == old(doorDropped) + (if shut then 1 else 0)
      && degradeDropped == old(degradeDropped) + (if degraded then 1 else 0)
      && degradeHoldUntilNs ==
         (if !shut && o.bulk && !o.noDegrade && o.msg.keyframe && nowNs >= old(degradeHoldUntilNs)
          then 0 else old(degradeHoldUntilNs))
      && (!o.bulk && !(stalled && o.decimatable) ==>
            State() == After(old(State()), Offer(o.msg.streamId, capture, nowUs)))
    }

    /** Every gate a message passes before it is framed. */
    method Admits(o: Outgoing, stalled: bool, nowNs: int, nowUs: int) returns (ok: bool)
      requires Valid()
      modifies this`gates, this`degradeHoldUntilNs, this`doorDropped, this`degradeDropped
      ensures Valid() && Answered(o, stalled, nowNs, nowUs)
      ensures ok == Opens(old(State()), old(degradeHoldUntilNs), stalled, o, nowUs)
      ensures !o.bulk && !(stalled && o.decimatable) ==>
        ok == Admitted(old(State()), o.msg.streamId, GateTime(TimestampNs(o.msg.timestamp), nowUs))
    {
      if stalled && (o.bulk || o.decimatable) {
        doorDropped := doorDropped + 1;
        return false;
      }
      if o.bulk && !o.noDegrade {
        var hold := degradeHoldUntilNs;
        if hold != 0 {
          if !o.msg.keyframe {
            degradeDropped := degradeDropped + 1;
            return false;
          } else if nowNs >= hold {
            degradeHoldUntilNs := 0;
          }
        }
      }
      var id := o.msg.streamId;
      if Drops(policy, id) { return false; }
      if GapIn(policy, id) != 0 && !o.bulk {
        ok := PassesRateGate(id, TimestampNs(o.msg.timestamp), GapIn(policy, id), nowUs);
        return ok;
      }
      return true;
    }
  }

  // ---- one stream's run -----------------------------------------------------

  /** Which of the messages at times `ts` pass, from a gate at `grid`. */
  function Verdicts(grid: int, gap: int, ts: seq<int>): (r: seq<bool>)
    requires gap > 0
    ensures |r| == |ts|
    decreases |ts|
  {
    if ts == [] then []
    else [Passes(grid, gap, ts[0])] + Verdicts(GridAfter(grid, gap, ts[0]), gap, ts[1..])
  }

  function GridThrough(grid: int, gap: int, ts: seq<int>): int
    requires gap > 0
    decreases |ts|
  {
    if ts == [] then grid else GridAfter(GridThrough(grid, gap, ts[..|ts| - 1]), gap, ts[|ts| - 1])
  }

  lemma {:induction false} GridThroughFirst(grid: int, gap: int, ts: seq<int>)
    requires gap > 0 && ts != []
    ensures GridThrough(grid, gap, ts) == GridThrough(GridAfter(grid, gap, ts[0]), gap, ts[1..])
    decreases |ts|
  {
    if |ts| == 1 {
      assert ts[..0] == [] && ts[1..] == [];
    } else {
      var front := ts[..|ts| - 1];
      GridThroughFirst(grid, gap, front);
      assert front[1..] == ts[1..][..|ts| - 2];
    }
  }

  lemma {:induction false} VerdictAt(grid: int, gap: int, ts: seq<int>, i: nat)
    requires gap > 0 && i < |ts|
    ensures Verdicts(grid, gap, ts)[i] == Passes(GridThrough(grid, gap, ts[..i]), gap, ts[i])
    decreases |ts|
  {
    if i == 0 {
      assert ts[..0] == [];
    } else {
      VerdictAt(GridAfter(grid, gap, ts[0]), gap, ts[1..], i - 1);
      GridThroughFirst(grid, gap, ts[..i]);
      assert ts[..i][1..] == ts[1..][..i - 1] && ts[..i][0] == ts[0];
    }
  }

  /** Where slot `k` of the grid starts. */
  function GridAt(k: int, gap: int): int
  {
    k * gap
  }

  /** Which slot a time falls in. */
  function Slot(t: int, gap: int): (k: int)
    requires gap > 0
  {
    t / gap
  }

  lemma GridStep(k: int, gap: int)
    ensures GridAt(k + 1, gap) == GridAt(k, gap) + gap
    ensures GridAt(0, gap) == 0
  {}

  lemma GridOrder(j: int, k: int, gap: int)
    requires gap > 0 && j < k
    ensures GridAt(j, gap) + gap <= GridAt(k, gap)
  {
    assert (j + 1) * gap <= k * gap;
  }

  lemma SlotBounds(t: int, gap: int)
    requires gap > 0
    ensures GridAt(Slot(t, gap), gap) <= t < GridAt(Slot(t, gap), gap) + gap
  {}

  lemma SlotIs(t: int, gap: int, k: int)
    requires gap > 0 && GridAt(k, gap) <= t < GridAt(k, gap) + gap
    ensures Slot(t, gap) == k
  {
    hide GridAt, Slot;
    var s := Slot(t, gap);
    SlotBounds(t, gap);
    if s != k { GridOrder(if s < k then s else k, if s < k then k else s, gap); }
  }

  /** The step from a grid point at or before `t`, and its counterpart for a time
      before zero, where the division is toward zero. */
  lemma StepForward(k: int, gap: int, t: int)
    requires gap > 0 && t >= GridAt(k, gap)
    ensures GridAt(k, gap) + gap * (1 + TruncDiv(t - GridAt(k, gap), gap)) == GridAt(Slot(t, gap) + 1, gap)
  {
    var a := t - k * gap;
    var q := a / gap;
    assert q * gap <= a < q * gap + gap;
    assert GridAt(k + q, gap) == k * gap + q * gap;
    SlotIs(t, gap, k + q);
    GridStep(k + q, gap);
  }

  lemma StepFromBefore(gap: int, t: int)
    requires gap > 0 && t < 0
    ensures gap * (1 + TruncDiv(t, gap))
         == GridAt(Slot(t, gap) + (if GridAt(Slot(t, gap), gap) == t then 1 else 2), gap)
  {
    var q := (-t) / gap;
    assert q * gap <= -t < q * gap + gap;
    assert GridAt(1 - q, gap) == gap * (1 - q) == gap - q * gap;
    GridStep(-q, gap);
    GridStep(-q - 1, gap);
    SlotIs(t, gap, if q * gap == -t then -q else -q - 1);
  }

  /** How many slots past its own the grid lands for a message at `t`. */
  function Skip(grid: int, gap: int, t: int): int
    requires gap > 0
  {
    if OffGridReseed(grid, gap, t) then 2 else 1
  }

  /** A re-seed from a time before zero that is not on the grid. */
  predicate OffGridReseed(grid: int, gap: int, t: int)
    requires gap > 0
  {
    NewEpoch(grid, gap, t) && t < 0 && GridAt(Slot(t, gap), gap) != t
  }

  /** Every message that passes moves the grid past its own slot: to its end, but
      for a re-seed off the grid before time zero, which lands a slot further. */
  lemma NextGridIs(k: int, gap: int, t: int)
    requires gap > 0 && Passes(GridAt(k, gap), gap, t)
    ensures NextGrid(GridAt(k, gap), gap, t) == GridAt(Slot(t, gap) + Skip(GridAt(k, gap), gap, t), gap)
  {
    hide GridAt, Slot, TruncDiv;
    GridStep(0, gap);
    if !NewEpoch(GridAt(k, gap), gap, t) {
      StepForward(k, gap, t);
    } else if t >= 0 {
      StepForward(0, gap, t);
    } else {
      StepFromBefore(gap, t);
    }
  }

  ghost predicate Nondecreasing(ts: seq<int>)
  {
    forall i, j :: 0 <= i < j < |ts| ==> ts[i] <= ts[j]
  }

  lemma {:induction false} GridFollows(gap: int, ts: seq<int>)
    requires gap > 0 && ts != [] && Nondecreasing(ts) && ts[0] >= 0
    ensures GridThrough(0, gap, ts) == GridAt(Slot(ts[|ts| - 1], gap) + 1, gap)
  {
    hide GridAt, Slot, TruncDiv, NextGrid;
    var n := |ts| - 1;
    var t := ts[n];
    GridStep(0, gap);
    if n == 0 {
      assert ts[..0] == [];
      NextGridIs(0, gap, t);
    } else {
      GridFollows(gap, ts[..n]);
      var p := Slot(ts[n - 1], gap);
      SlotBounds(ts[n - 1], gap);
      GridStep(p, gap);
      if t >= GridAt(p + 1, gap) {
        NextGridIs(p + 1, gap, t);
      } else {
        SlotIs(t, gap, p);
      }
    }
  }

  /** For capture times that do not run backwards, the messages that pass are
      exactly the first of each period that has any. */
  lemma FirstInEachSlot(gap: int, ts: seq<int>, i: nat)
    requires gap > 0 && Nondecreasing(ts) && i < |ts| && ts[0] >= 0
    ensures Verdicts(0, gap, ts)[i] <==> forall j :: 0 <= j < i ==> Slot(ts[j], gap) != Slot(ts[i], gap)
  {
    hide GridAt, Slot, Verdicts;
    VerdictAt(0, gap, ts, i);
    var t := ts[i];
    if i == 0 {
      assert ts[..0] == [];
    } else {
      GridFollows(gap, ts[..i]);
      var p := Slot(ts[i - 1], gap);
      SlotBounds(ts[i - 1], gap);
      GridStep(p, gap);
      if t < GridAt(p + 1, gap) {
        SlotIs(t, gap, p);
      } else {
        forall j | 0 <= j < i
          ensures Slot(ts[j], gap) != Slot(t, gap)
        {
          SlotBounds(ts[j], gap);
          SlotBounds(t, gap);
          if Slot(ts[j], gap) == Slot(t, gap) {
            SlotIs(ts[i - 1], gap, Slot(t, gap));
          }
        }
      }
    }
  }

  // ---- arbitrary times --------------------------------------------------------

  /** The grid never leaves the slot boundaries. */
  lemma {:induction false} GridIsOnASlot(gap: int, ts: seq<int>) returns (k: int)
    requires gap > 0
    ensures GridThrough(0, gap, ts) == GridAt(k, gap)
  {
    hide GridAt, Slot, NextGrid;
    GridStep(0, gap);
    k := 0;
    if ts != [] {
      var n := |ts| - 1;
      k := GridIsOnASlot(gap, ts[..n]);
      if Passes(GridAt(k, gap), gap, ts[n]) {
        NextGridIs(k, gap, ts[n]);
        k := Slot(ts[n], gap) + Skip(GridAt(k, gap), gap, ts[n]);
      }
    }
  }

  /** Whatever the times: when message `j` passes without a re-seed, and `i` was
      the last to pass before it, `j` is in a later slot. */
  lemma SlotsIncrease(gap: int, ts: seq<int>, i: nat, j: nat)
    requires gap > 0 && i < j < |ts|
    requires Verdicts(0, gap, ts)[i] && Verdicts(0, gap, ts)[j]
    requires forall m :: i < m < j ==> !Verdicts(0, gap, ts)[m]
    requires !NewEpoch(GridThrough(0, gap, ts[..j]), gap, ts[j])
    ensures Slot(ts[i], gap) < Slot(ts[j], gap)
  {
    hide GridAt, Slot, NextGrid, Verdicts, NewEpoch;
    var k := LastPass(gap, ts, i, j);
    VerdictAt(0, gap, ts, j);
    SlotBounds(ts[j], gap);
    var s := Slot(ts[j], gap);
    if s < k { GridOrder(s, k, gap); }
  }

  /** Up to message `j` the grid is where message `i`, the last to pass, put it. */
  lemma {:induction false} LastPass(gap: int, ts: seq<int>, i: nat, j: nat) returns (k: int)
    requires gap > 0 && i < j < |ts| && Verdicts(0, gap, ts)[i]
    requires forall m :: i < m < j ==> !Verdicts(0, gap, ts)[m]
    ensures k > Slot(ts[i], gap) && GridThrough(0, gap, ts[..j]) == GridAt(k, gap)
    decreases j
  {
    hide GridAt, Slot, NextGrid, Verdicts, NewEpoch;
    var m := j - 1;
    VerdictAt(0, gap, ts, m);
    assert ts[..j][..m] == ts[..m];
    if m == i {
      k := GridIsOnASlot(gap, ts[..i]);
      NextGridIs(k, gap, ts[i]);
      k := Slot(ts[i], gap) + Skip(GridAt(k, gap), gap, ts[i]);
    } else {
      k := LastPass(gap, ts, i, m);
    }
  }

  /** A message a full period after the last that passed is never refused,
      exactly when that one did not re-seed the gate from a time before zero
      that is off its grid. */
  lemma FullPeriodPasses(gap: int, before: seq<int>, a: int)
    requires gap > 0 && Passes(GridThrough(0, gap, before), gap, a)
    ensures var g0 := GridThrough(0, gap, before);
      (forall b :: b >= a + gap ==> Passes(NextGrid(g0, gap, a), gap, b)) <==> !OffGridReseed(g0, gap, a)
  {
    hide GridAt, Slot, NextGrid;
    var k := GridIsOnASlot(gap, before);
    var g0, s := GridAt(k, gap), Slot(a, gap);
    NextGridIs(k, gap, a);
    SlotBounds(a, gap);
    GridStep(s, gap);
    GridStep(s + 1, gap);
    if OffGridReseed(g0, gap, a) {
      assert !Passes(NextGrid(g0, gap, a), gap, a + gap);
    }
  }

  /** A stream's very first message passes exactly when its time is not a little
      before zero. */
  lemma FirstMessagePasses(gap: int, t: int)
    requires gap > 0
    ensures Verdicts(0, gap, [t])[0] <==> t >= 0 || t < -gap - EPOCH_RESET_US
  {}

  /** For instance: a message at -2.5 s, then one a full second later under a
      one-second cap, which is refused. */
  lemma FullPeriodRefused()
    ensures Verdicts(0, 1_000_000, [-2_500_000, -1_500_000]) == [true, false]
  {
    var ts := [-2_500_000, -1_500_000];
    VerdictAt(0, 1_000_000, ts, 0);
    VerdictAt(0, 1_000_000, ts, 1);
    assert ts[..0] == [] && ts[..1] == [-2_500_000];
    assert ts[..1][..0] == [];
  }

  // ---- many streams, any batching, any table changes -------------------------------

  datatype Event = Offer(id: uint32, captureNs: int, nowUs: int) | Install(table: Option<Table>)

  datatype DoorState = DoorState(policy: Option<Table>, gates: map<uint32, Gate>)

  /** What a message that is neither bulk nor shed at a stall, or a table, does to
      the door. */
  function After(s: DoorState, e: Event): DoorState
  {
    match e
    case Install(table) => DoorState(table, Kept(s.gates, s.policy, table))
    case Offer(id, captureNs, nowUs) =>
      if Drops(s.policy, id) || GapIn(s.policy, id) <= 0 then s
      else
        var t := GateTime(captureNs, nowUs);
        s.(gates := s.gates[id := GateAfter(GateFor(s.gates, id), GapIn(s.policy, id), captureNs, t)])
  }

  predicate Admitted(s: DoorState, id: uint32, t: int)
  {
    !Drops(s.policy, id) &&
    (GapIn(s.policy, id) > 0 ==> Passes(GateFor(s.gates, id).gridUs, GapIn(s.policy, id), t))
  }

  /** The verdicts on stream `id`'s messages over a run of events. */
  function VerdictsOn(s: DoorState, events: seq<Event>, id: uint32): seq<bool>
    decreases |events|
  {
    if events == [] then []
    else
      var e := events[0];
      (if e.Offer? && e.id == id then [Admitted(s, id, GateTime(e.captureNs, e.nowUs))] else []) +
      VerdictsOn(After(s, e), events[1..], id)
  }

  function TimesOn(events: seq<Event>, id: uint32): seq<int>
  {
    if events == [] then []
    else
      var e := events[0];
      (if e.Offer? && e.id == id then [GateTime(e.captureNs, e.nowUs)] else []) + TimesOn(events[1..], id)
  }

  /** The table caps stream `id` at one message per `gap`. */
  predicate CapsAt(table: Option<Table>, id: uint32, gap: int)
  {
    gap > 0 && !Drops(table, id) && GapIn(table, id) == gap
  }

  /** As long as every table installed caps a stream alike, its verdicts depend
      on its own times alone: not on other streams, not on how often tables are
      installed, not on where in the run they are. */
  lemma {:induction false} StreamsAreIndependent(s: DoorState, events: seq<Event>, id: uint32, gap: int)
    requires CapsAt(s.policy, id, gap)
    requires forall i :: 0 <= i < |events| && events[i].Install? ==> CapsAt(events[i].table, id, gap)
    ensures VerdictsOn(s, events, id) == Verdicts(GateFor(s.gates, id).gridUs, gap, TimesOn(events, id))
    decreases |events|
  {
    if events != [] {
      var e, s' := events[0], After(s, events[0]);
      StreamsAreIndependent(s', events[1..], id, gap);
      var ts := TimesOn(events, id);
      if e.Offer? && e.id == id {
        assert ts[1..] == TimesOn(events[1..], id);
      } else {
        assert GateFor(s'.gates, id).gridUs == GateFor(s.gates, id).gridUs;
        assert ts == TimesOn(events[1..], id);
      }
    }
  }

  // ---- which clock ------------------------------------------------------------------

  /** The same but for when it was handed over, if it has a capture time. */
  predicate SameCapture(a: Event, b: Event)
  {
    a == b || (a.Offer? && b.Offer? && a.id == b.id && a.captureNs == b.captureNs != 0)
  }

  /** The send is not timed: messages with a capture time get the same verdicts whenever
      they are handed over, alone or as a group. */
  lemma {:induction false} SendsAreNotTimed(s: DoorState, events: seq<Event>, others: seq<Event>, id: uint32)
    requires |events| == |others| && forall i :: 0 <= i < |events| ==> SameCapture(events[i], others[i])
    ensures VerdictsOn(s, events, id) == VerdictsOn(s, others, id)
    decreases |events|
  {
    if events != [] {
      assert SameCapture(events[0], others[0]);
      SendsAreNotTimed(After(s, events[0]), events[1..], others[1..], id);
    }
  }

  /** The capture times of stream `id`'s messages, zero for one without. */
  function CapturesOn(events: seq<Event>, id: uint32): seq<int>
  {
    if events == [] then []
    else
      (if events[0].Offer? && events[0].id == id then [events[0].captureNs] else []) + CapturesOn(events[1..], id)
  }

  /** The times they were handed over at. */
  function SendsOn(events: seq<Event>, id: uint32): seq<int>
  {
    if events == [] then []
    else (if events[0].Offer? && events[0].id == id then [events[0].nowUs] else []) + SendsOn(events[1..], id)
  }

  lemma {:induction false} TimesAre(events: seq<Event>, id: uint32)
    ensures |TimesOn(events, id)| == |CapturesOn(events, id)| == |SendsOn(events, id)|
    ensures forall i :: 0 <= i < |TimesOn(events, id)| ==>
      var c := CapturesOn(events, id)[i];
      && (c > 0 ==> TimesOn(events, id)[i] == c / 1000)
      && (c == 0 ==> TimesOn(events, id)[i] == SendsOn(events, id)[i])
    decreases |events|
  {
    if events != [] { TimesAre(events[1..], id); }
  }

  /** Over any run of a capped stream that starts fresh and whose capture times do not run
      backwards, a message passes exactly if it is the first captured in its period. */
  lemma FirstCapturedPasses(s: DoorState, events: seq<Event>, id: uint32, gap: int, i: nat)
    requires CapsAt(s.policy, id, gap) && GateFor(s.gates, id).gridUs == 0
    requires forall j :: 0 <= j < |events| && events[j].Install? ==> CapsAt(events[j].table, id, gap)
    requires var cs := CapturesOn(events, id); i < |cs| && Nondecreasing(cs) && cs[0] > 0
    ensures var cs, vs := CapturesOn(events, id), VerdictsOn(s, events, id);
      |vs| == |cs| && (vs[i] <==> forall j :: 0 <= j < i ==> cs[j] / 1000 / gap != cs[i] / 1000 / gap)
  {
    var ts, cs := TimesOn(events, id), CapturesOn(events, id);
    StreamsAreIndependent(s, events, id, gap);
    TimesAre(events, id);
    forall j | 0 <= j < |cs| ensures cs[j] > 0 && ts[j] == cs[j] / 1000 { assert cs[0] <= cs[j]; }
    forall j, k | 0 <= j < k < |ts| ensures ts[j] <= ts[k] { assert cs[j] <= cs[k]; }
    FirstInEachSlot(gap, ts, i);
    assert forall j :: 0 <= j <= i ==> Slot(ts[j], gap) == cs[j] / 1000 / gap;
  }

  /** Without capture times, exactly if it is the first handed over in its period. */
  lemma FirstSentPasses(s: DoorState, events: seq<Event>, id: uint32, gap: int, i: nat)
    requires CapsAt(s.policy, id, gap) && GateFor(s.gates, id).gridUs == 0
    requires forall j :: 0 <= j < |events| && events[j].Install? ==> CapsAt(events[j].table, id, gap)
    requires forall c :: c in CapturesOn(events, id) ==> c == 0
    requires var ns := SendsOn(events, id); i < |ns| && Nondecreasing(ns) && ns[0] >= 0
    ensures var ns, vs := SendsOn(events, id), VerdictsOn(s, events, id);
      |vs| == |ns| && (vs[i] <==> forall j :: 0 <= j < i ==> ns[j] / gap != ns[i] / gap)
  {
    var ts, ns := TimesOn(events, id), SendsOn(events, id);
    StreamsAreIndependent(s, events, id, gap);
    TimesAre(events, id);
    var cs := CapturesOn(events, id);
    forall j | 0 <= j < |ts| ensures ts[j] == ns[j] { assert cs[j] in cs; }
    assert ts == ns;
    FirstInEachSlot(gap, ts, i);
    assert forall j :: 0 <= j <= i ==> Slot(ts[j], gap) == ns[j] / gap;
  }
}
