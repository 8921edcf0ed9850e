/**
 The shedding policy shared by the outboxes and the recorder queue
 (cpp/include/visio_schema/transport/write_policy.hpp).
 */
module WritePolicy {
  import opened Lists

  datatype DropMode = DropOldest | DropOnFail | StaleEviction
  datatype DrainMode = OneAtATime | BatchAll

  datatype Policy = Policy(
    drop: DropMode, drain: DrainMode, maxDepth: nat, maxBytes: nat,
    maxAgeUs: int, protectBelowBytes: nat)

  /** The policy still wants a frame out before `incoming` bytes come in. */
  predicate OverBound<T>(policy: Policy, q: seq<T>, incoming: nat, size: T -> nat)
  {
    match policy.drop
    case DropOldest => |q| >= policy.maxDepth
    case StaleEviction => Sum(q, size) + incoming > policy.maxBytes
    case DropOnFail => false
  }

  /** The entry to shed: the oldest one large enough, or the oldest of all. */
  function Victim<T>(policy: Policy, q: seq<T>, size: T -> nat): (i: nat)
    requires q != []
    ensures i < |q|
    ensures size(q[i]) < policy.protectBelowBytes ==>
      forall j :: 0 <= j < |q| ==> size(q[j]) < policy.protectBelowBytes
    ensures forall j :: 0 <= j < i ==> size(q[j]) < policy.protectBelowBytes
  {
    var i := FirstAtLeast(q, policy.protectBelowBytes, size);
    if policy.protectBelowBytes > 0 && i < |q| then i else 0
  }

  function FirstAtLeast<T>(q: seq<T>, least: nat, size: T -> nat): (i: nat)
    ensures i <= |q|
    ensures i < |q| ==> size(q[i]) >= least
    ensures forall j :: 0 <= j < i ==> size(q[j]) < least
  {
    if q == [] || size(q[0]) >= least then 0
    else 1 + FirstAtLeast(q[1..], least, size)
  }

  /** What the queue holds after shedding for `incoming` more bytes. */
  function Bounded<T>(policy: Policy, q: seq<T>, incoming: nat, size: T -> nat): seq<T>
    decreases |q|
  {
    if q == [] || !OverBound(policy, q, incoming, size) then q
    else Bounded(policy, Without(q, Victim(policy, q, size)), incoming, size)
  }

  /** What was shed to get there, in the order it went. */
  function ShedFor<T>(policy: Policy, q: seq<T>, incoming: nat, size: T -> nat): seq<T>
    decreases |q|
  {
    if q == [] || !OverBound(policy, q, incoming, size) then []
    else
      var i := Victim(policy, q, size);
      [q[i]] + ShedFor(policy, Without(q, i), incoming, size)
  }

  /** Only a full DropOnFail queue refuses the new frame. */
  predicate Rejects<T>(policy: Policy, q: seq<T>)
  {
    policy.drop.DropOnFail? && |q| >= policy.maxDepth
  }

  /** Make room for one frame of `incoming` bytes; false rejects it. */
  method ApplyDropBound<T>(policy: Policy, q: seq<T>, bytes: nat, incoming: nat, size: T -> nat)
    returns (ok: bool, q': seq<T>, bytes': nat)
    requires bytes == Sum(q, size)
    ensures ok == !Rejects(policy, q)
    ensures q' == Bounded(policy, q, incoming, size)
    ensures bytes' == Sum(q', size)
  {
    q', bytes' := q, bytes;
    match policy.drop
    case DropOldest =>
      while |q'| >= policy.maxDepth && q' != []
        invariant bytes' == Sum(q', size)
        invariant Bounded(policy, q, incoming, size) == Bounded(policy, q', incoming, size)
        decreases |q'|
      {
        q', bytes' := EvictOne(policy, q', bytes', size);
      }
      ok := true;
    case StaleEviction =>
      while bytes' + incoming > policy.maxBytes && q' != []
        invariant bytes' == Sum(q', size)
        invariant Bounded(policy, q, incoming, size) == Bounded(policy, q', incoming, size)
        decreases |q'|
      {
        q', bytes' := EvictOne(policy, q', bytes', size);
      }
      ok := true;
    case DropOnFail =>
      ok := |q'| < policy.maxDepth;
  }

  method EvictOne<T>(policy: Policy, q: seq<T>, bytes: nat, size: T -> nat)
    returns (q': seq<T>, bytes': nat)
    requires q != [] && bytes == Sum(q, size)
    ensures q' == Without(q, Victim(policy, q, size))
    ensures bytes' == Sum(q', size)
  {
    if policy.protectBelowBytes > 0 {
      var i := 0;
      while i < |q|
        invariant 0 <= i <= |q|
        invariant FirstAtLeast(q, policy.protectBelowBytes, size)
               == i + FirstAtLeast(q[i..], policy.protectBelowBytes, size)
      {
        if size(q[i]) >= policy.protectBelowBytes {
          SumWithout(q, i, size);
          return Without(q, i), bytes - size(q[i]);
        }
        assert q[i..][1..] == q[i + 1..];
        i := i + 1;
      }
    }
    SumWithout(q, 0, size);
    assert q[1..] == Without(q, 0);
    return q[1..], bytes - size(q[0]);
  }

  // ---- what the policy guarantees ------------------------------------------

  /** Shedding keeps order, loses nothing unaccounted, and stops at the bound. */
  lemma {:induction false} BoundedKeepsOrder<T(!new)>(policy: Policy, q: seq<T>, incoming: nat, size: T -> nat)
    ensures Subsequence(Bounded(policy, q, incoming, size), q)
    ensures multiset(q) == multiset(Bounded(policy, q, incoming, size))
                         + multiset(ShedFor(policy, q, incoming, size))
    ensures |q| == |Bounded(policy, q, incoming, size)| + |ShedFor(policy, q, incoming, size)|
    ensures var kept := Bounded(policy, q, incoming, size);
      kept == [] || !OverBound(policy, kept, incoming, size)
    decreases |q|
  {
    if q == [] || !OverBound(policy, q, incoming, size) {
      SubsequenceSelf(q);
    } else {
      var i := Victim(policy, q, size);
      var rest := Without(q, i);
      WithoutIsSubsequence(q, i);
      BoundedKeepsOrder(policy, rest, incoming, size);
      SubsequenceTrans(Bounded(policy, rest, incoming, size), rest, q);
    }
  }

  /** What the policy promises of the queue it makes room in: its depth, or its bytes with
      the frame that comes in; and nothing is shed if the frame fits. */
  lemma {:induction false} BoundIsKept<T(!new)>(policy: Policy, q: seq<T>, incoming: nat, size: T -> nat)
    ensures var kept := Bounded(policy, q, incoming, size);
      match policy.drop
      case DropOldest =>
        |kept| == if |q| < policy.maxDepth then |q| else if policy.maxDepth == 0 then 0 else policy.maxDepth - 1
      case StaleEviction =>
        && (Sum(kept, size) + incoming <= policy.maxBytes || kept == [])
        && (Sum(q, size) + incoming <= policy.maxBytes ==> kept == q)
      case DropOnFail => kept == q
    ensures |Bounded(policy, q, incoming, size)| + |ShedFor(policy, q, incoming, size)| == |q|
    decreases |q|
  {
    hide Victim, Without, Sum;
    if q != [] && OverBound(policy, q, incoming, size) {
      BoundIsKept(policy, Without(q, Victim(policy, q, size)), incoming, size);
    }
  }

  /** With no protected frames those kept are the newest. */
  lemma {:induction false} NewestAreKept<T(!new)>(policy: Policy, q: seq<T>, incoming: nat, size: T -> nat)
    requires policy.protectBelowBytes == 0
    ensures var kept := Bounded(policy, q, incoming, size); |kept| <= |q| && kept == q[|q| - |kept|..]
    decreases |q|
  {
    hide OverBound;
    if q != [] && OverBound(policy, q, incoming, size) {
      assert Without(q, Victim(policy, q, size)) == q[1..];
      NewestAreKept(policy, q[1..], incoming, size);
      var kept := Bounded(policy, q[1..], incoming, size);
      assert q[1..][|q| - 1 - |kept|..] == q[|q| - |kept|..];
    }
  }

  lemma KeptWasQueued<T(!new)>(policy: Policy, q: seq<T>, incoming: nat, size: T -> nat)
    ensures forall e :: e in Bounded(policy, q, incoming, size) ==> e in q
  {
    hide Bounded, ShedFor, OverBound, Subsequence;
    BoundedKeepsOrder(policy, q, incoming, size);
    forall e | e in Bounded(policy, q, incoming, size)
      ensures e in q
    {
      assert e in multiset(q);
    }
  }

  /** A protected frame is shed only once no larger one is left to shed. */
  lemma {:induction false} ProtectedGoLast<T(!new)>(policy: Policy, q: seq<T>, incoming: nat, size: T -> nat, k: nat)
    requires k < |ShedFor(policy, q, incoming, size)|
    requires size(ShedFor(policy, q, incoming, size)[k]) < policy.protectBelowBytes
    ensures forall e :: e in Bounded(policy, q, incoming, size) ==> size(e) < policy.protectBelowBytes
    decreases |q|
  {
    hide Victim, OverBound, Without;
    if k > 0 {
      ProtectedGoLast(policy, Without(q, Victim(policy, q, size)), incoming, size, k - 1);
    } else {
      KeptWasQueued(policy, q, incoming, size);
    }
  }
}
