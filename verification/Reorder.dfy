/**
 The reader's streaming merge (python/visio_schema/reader/rows.py, `_reorder`):
 elements wait in a heap and leave in time order once an arrival watermark has
 passed them by the lateness budget.
 */
module Reorder {
  import opened Lists

  datatype Item<E> = Item(t: int, arrival: int, el: E)

  /** A heap entry: ties in time go by the order in which the items came. */
  datatype Keyed<E> = Keyed(t: int, number: nat, el: E)

  predicate Before<E>(a: Keyed<E>, b: Keyed<E>)
  {
    a.t < b.t || (a.t == b.t && a.number < b.number)
  }

  ghost predicate Sorted<E>(s: seq<Keyed<E>>)
  {
    forall i, j :: 0 <= i < j < |s| ==> Before(s[i], s[j])
  }

  function KeyedAll<E>(items: seq<Item<E>>): (r: seq<Keyed<E>>)
    ensures |r| == |items|
    ensures forall i :: 0 <= i < |items| ==> r[i] == Keyed(items[i].t, i, items[i].el)
  {
    seq(|items|, i requires 0 <= i < |items| => Keyed(items[i].t, i, items[i].el))
  }

  function Elements<E>(s: seq<Keyed<E>>): (r: seq<E>)
    ensures |r| == |s| && forall i :: 0 <= i < |s| ==> r[i] == s[i].el
  {
    seq(|s|, i requires 0 <= i < |s| => s[i].el)
  }

  function Max(a: int, b: int): int
  {
    if a < b then b else a
  }

  /** How far the arrivals have come; it starts at zero. */
  function Watermark<E>(items: seq<Item<E>>): int
  {
    if items == [] then 0 else Max(Watermark(items[..|items| - 1]), items[|items| - 1].arrival)
  }

  // ---- the offline sort ---------------------------------------------------------

  /** Insert into a sorted list. */
  function Insert<E>(s: seq<Keyed<E>>, e: Keyed<E>): seq<Keyed<E>>
  {
    if s == [] || !Before(e, s[|s| - 1]) then s + [e] else Insert(s[..|s| - 1], e) + [s[|s| - 1]]
  }

  /** The stable sort of everything by time. */
  function StableSort<E>(s: seq<Keyed<E>>): seq<Keyed<E>>
  {
    if s == [] then [] else Insert(StableSort(s[..|s| - 1]), s[|s| - 1])
  }

  ghost predicate Distinct<E>(s: seq<Keyed<E>>)
  {
    forall i, j :: 0 <= i < j < |s| ==> s[i].number != s[j].number
  }

  lemma Split<E>(s: seq<Keyed<E>>, k: nat)
    requires k <= |s|
    ensures multiset(s) == multiset(s[..k]) + multiset(s[k..])
    ensures forall x :: x in s <==> x in multiset(s)
  {
    assert s == s[..k] + s[k..];
  }

  lemma SortedPush<E>(s: seq<Keyed<E>>, e: Keyed<E>)
    requires Sorted(s) && forall x :: x in s ==> Before(x, e)
    ensures Sorted(s + [e])
  {
    forall i | 0 <= i < |s|
      ensures Before(s[i], e)
    {
      assert s[i] in s;
    }
  }

  lemma LastIsLatest<E>(s: seq<Keyed<E>>, x: Keyed<E>)
    requires Sorted(s) && x in s
    ensures Sorted(s[..|s| - 1]) && (x == s[|s| - 1] || Before(x, s[|s| - 1]))
  {
    var i :| 0 <= i < |s| && s[i] == x;
  }

  lemma {:induction false} InsertKeeps<E>(s: seq<Keyed<E>>, e: Keyed<E>)
    requires Sorted(s) && forall x :: x in s ==> x.number != e.number
    ensures Sorted(Insert(s, e)) && multiset(Insert(s, e)) == multiset(s) + multiset{e}
  {
    hide Sorted;
    forall x | x in s
      ensures x == s[|s| - 1] || Before(x, s[|s| - 1])
    {
      LastIsLatest(s, x);
    }
    if s == [] || !Before(e, s[|s| - 1]) {
      SortedPush(s, e);
    } else {
      var front, last := s[..|s| - 1], s[|s| - 1];
      LastIsLatest(s, last);
      InsertKeeps(front, e);
      SplitLast(s);
      var r := Insert(front, e);
      forall x | x in r
        ensures Before(x, last)
      {
        assert x in multiset(r);
        assert x in front || x == e;
        if x in front { NotLast(s, x); }
      }
      SortedPush(r, last);
    }
  }

  lemma NotLast<E>(s: seq<Keyed<E>>, x: Keyed<E>)
    requires Sorted(s) && s != [] && x in s[..|s| - 1]
    ensures x in s && Before(x, s[|s| - 1])
  {
    var i :| 0 <= i < |s| - 1 && s[..|s| - 1][i] == x;
    assert s[i] == x;
  }

  lemma {:induction false} SortSorts<E>(s: seq<Keyed<E>>)
    requires Distinct(s)
    ensures Sorted(StableSort(s)) && multiset(StableSort(s)) == multiset(s)
  {
    hide Sorted, Insert;
    if s == [] {
      SortedNone<E>(StableSort(s));
    } else {
      var front, last := s[..|s| - 1], s[|s| - 1];
      SortSorts(front);
      forall x | x in StableSort(front)
        ensures x.number != last.number
      {
        assert x in multiset(front);
        assert x in front;
      }
      InsertKeeps(StableSort(front), last);
      SplitLast(s);
    }
  }

  lemma SortedNone<E>(s: seq<Keyed<E>>)
    requires s == []
    ensures Sorted(s)
  {}

  /** There is only one sorted arrangement. */
  lemma {:induction false} SortedIsUnique<E>(a: seq<Keyed<E>>, b: seq<Keyed<E>>)
    requires Sorted(a) && Sorted(b) && multiset(a) == multiset(b)
    ensures a == b
  {
    hide Sorted, Before;
    assert |multiset(a)| == |a| && |multiset(b)| == |b|;
    if a != [] {
      var x, y := a[|a| - 1], b[|b| - 1];
      assert x in multiset(b) && y in multiset(a);
      LastIsLatest(a, y);
      LastIsLatest(b, x);
      OneFirst(x, y);
      SplitLast(a);
      SplitLast(b);
      SameRest(multiset(a[..|a| - 1]), multiset(b[..|b| - 1]), x);
      SortedIsUnique(a[..|a| - 1], b[..|b| - 1]);
      assert a == a[..|a| - 1] + [x] && b == b[..|b| - 1] + [y];
    }
  }

  lemma OneFirst<E>(x: Keyed<E>, y: Keyed<E>)
    ensures !(Before(x, y) && Before(y, x))
  {}

  // ---- the stream -----------------------------------------------------------------

  /** No item comes after one of a later time has left: whatever precedes an item
      with a later time is still held when it arrives. */
  ghost predicate NoneTooLate<E>(items: seq<Item<E>>, reorderNs: int)
  {
    forall i, j :: 0 <= j < i < |items| ==>
      items[j].t <= items[i].t || items[j].t > Watermark(items[..i]) - reorderNs
  }

  /** Where the stream stands after `items`: what has left and what waits. */
  ghost predicate Stands<E>(items: seq<Item<E>>, reorderNs: int, out: seq<Keyed<E>>, heap: seq<Keyed<E>>)
  {
    var cutoff := Watermark(items) - reorderNs;
    && multiset(out) + multiset(heap) == multiset(KeyedAll(items))
    && Sorted(heap)
    && (forall x :: x in out ==> x.t <= cutoff)
    && (items != [] ==> forall x :: x in heap ==> x.t > cutoff)
    && (Sorted(out) <==> NoneTooLate(items, reorderNs))
  }

  /** The first round from `n` on in which the arrivals have passed `x` by the budget; the
      round after the last item if there is none. */
  function RoundFrom<E>(items: seq<Item<E>>, reorderNs: int, x: Keyed<E>, n: nat): nat
    decreases |items| + 1 - n
  {
    if n > |items| || x.t <= Watermark(items[..n]) - reorderNs then n else RoundFrom(items, reorderNs, x, n + 1)
  }

  /** The round in which `x` leaves: round `n` comes with the n-th item. */
  function Round<E>(items: seq<Item<E>>, reorderNs: int, x: Keyed<E>): nat
  {
    RoundFrom(items, reorderNs, x, x.number + 1)
  }

  predicate LeavesBefore<E>(items: seq<Item<E>>, reorderNs: int, a: Keyed<E>, b: Keyed<E>)
  {
    var m, n := Round(items, reorderNs, a), Round(items, reorderNs, b);
    m < n || (m == n && Before(a, b))
  }

  ghost predicate InRounds<E>(items: seq<Item<E>>, reorderNs: int, order: seq<Keyed<E>>)
  {
    forall i, j :: 0 <= i < j < |order| ==> LeavesBefore(items, reorderNs, order[i], order[j])
  }

  /** After round `n`: what has left did so in its round, and what waits has not had its
      own yet. */
  ghost predicate Leaving<E>(items: seq<Item<E>>, reorderNs: int, n: nat, out: seq<Keyed<E>>, heap: seq<Keyed<E>>)
  {
    && InRounds(items, reorderNs, out) && (forall x :: x in out ==> Round(items, reorderNs, x) <= n)
    && forall x :: x in heap ==> Round(items, reorderNs, x) == RoundFrom(items, reorderNs, x, n + 1)
  }

  lemma LeavesPush<E>(items: seq<Item<E>>, reorderNs: int, n: nat, out: seq<Keyed<E>>, more: seq<Keyed<E>>)
    requires InRounds(items, reorderNs, out) && (forall x :: x in out ==> Round(items, reorderNs, x) <= n)
    requires Sorted(more) && forall x :: x in more ==> Round(items, reorderNs, x) == n + 1
    ensures InRounds(items, reorderNs, out + more)
    ensures forall x :: x in out + more ==> Round(items, reorderNs, x) <= n + 1
  {
    hide Round, Before;
    var all := out + more;
    forall i, j | 0 <= i < j < |all|
      ensures LeavesBefore(items, reorderNs, all[i], all[j])
    {
      if j < |out| {
        assert all[i] == out[i] && all[j] == out[j];
      } else {
        assert all[j] == more[j - |out|] && all[j] in more;
        if i < |out| {
          assert all[i] in out;
        } else {
          assert all[i] == more[i - |out|] && all[i] in more;
        }
      }
    }
  }

  /** One round: exactly those leave whose round it is. */
  lemma RoundLeaves<E>(items: seq<Item<E>>, n: nat, reorderNs: int, out: seq<Keyed<E>>, heap: seq<Keyed<E>>, k: nat)
    requires n < |items| && Leaving(items, reorderNs, n, out, heap)
    requires var e := Keyed(items[n].t, n, items[n].el);
      var cutoff, waiting := Watermark(items[..n + 1]) - reorderNs, Insert(heap, e);
      && k <= |waiting| && Sorted(waiting) && multiset(waiting) == multiset(heap) + multiset{e}
      && (forall x :: x in waiting[..k] ==> x.t <= cutoff) && (forall x :: x in waiting[k..] ==> x.t > cutoff)
    ensures var waiting := Insert(heap, Keyed(items[n].t, n, items[n].el));
      Leaving(items, reorderNs, n + 1, out + waiting[..k], waiting[k..])
  {
    hide Watermark, Insert, Before, InRounds;
    var e := Keyed(items[n].t, n, items[n].el);
    var waiting := Insert(heap, e);
    forall x | x in waiting
      ensures Round(items, reorderNs, x) == RoundFrom(items, reorderNs, x, n + 1)
    {
      assert x in multiset(waiting);
    }
    forall x | x in waiting[..k] ensures Round(items, reorderNs, x) == n + 1 { assert x in waiting; }
    forall x | x in waiting[k..]
      ensures Round(items, reorderNs, x) == RoundFrom(items, reorderNs, x, n + 2)
    {
      assert x in waiting;
    }
    LeavesPush(items, reorderNs, n, out, waiting[..k]);
  }

  /** What waits at the end leaves after the last round. */
  lemma TailLeaves<E>(items: seq<Item<E>>, reorderNs: int, out: seq<Keyed<E>>, heap: seq<Keyed<E>>)
    requires Leaving(items, reorderNs, |items|, out, heap) && Sorted(heap)
    ensures InRounds(items, reorderNs, out + heap)
  {
    hide Before;
    LeavesPush(items, reorderNs, |items|, out, heap);
  }

  /** `out` are the items in some order, each once: each leaves in the round in which the
      arrivals have passed it, and within a round they go by time. That is the offline
      sort's order exactly when none comes too late. */
  ghost predicate Merged<E>(items: seq<Item<E>>, reorderNs: int, out: seq<E>, order: seq<Keyed<E>>)
  {
    && out == Elements(order) && multiset(order) == multiset(KeyedAll(items)) && InRounds(items, reorderNs, order)
    && (NoneTooLate(items, reorderNs) <==> order == StableSort(KeyedAll(items)))
  }

  /** The streaming merge. The heap is kept as its sorted contents. */
  method Reorder<E>(items: seq<Item<E>>, reorderNs: int) returns (out: seq<E>)
    ensures exists order :: Merged(items, reorderNs, out, order)
    ensures NoneTooLate(items, reorderNs) ==> out == Elements(StableSort(KeyedAll(items)))
  {
    hide Before, Watermark, NoneTooLate, StableSort, Stands, Insert, Sorted, Leaving, InRounds;
    ghost var order: seq<Keyed<E>> := [];
    var heap: seq<Keyed<E>>, number, watermark := [], 0, 0;
    out := [];
    NothingStands<E>(reorderNs);
    NothingLeaves(items, reorderNs);
    assert items[..0] == [];
    while number < |items|
      invariant 0 <= number <= |items| && out == Elements(order)
      invariant watermark == Watermark(items[..number])
      invariant Stands(items[..number], reorderNs, order, heap) && Leaving(items, reorderNs, number, order, heap)
    {
      var item := items[number];
      NextWatermark(items, number);
      watermark := Max(watermark, item.arrival);
      ghost var order0, heap0, waiting := order, heap, Insert(heap, Keyed(item.t, number, item.el));
      heap := Insert(heap, Keyed(item.t, number, item.el));
      var cutoff := watermark - reorderNs;
      ghost var k := 0;
      assert order == order0 + waiting[..0] && heap == waiting[0..];
      while heap != [] && heap[0].t <= cutoff
        invariant 0 <= k <= |waiting| && heap == waiting[k..] && order == order0 + waiting[..k]
        invariant out == Elements(order)
        invariant forall x :: x in waiting[..k] ==> x.t <= cutoff
        decreases |heap|
      {
        assert waiting[..k + 1] == waiting[..k] + [heap[0]];
        out, order := out + [heap[0].el], order + [heap[0]];
        heap := heap[1..];
        k := k + 1;
      }
      WaitingIs(items, number, reorderNs, order0, heap0, k);
      RoundLeaves(items, number, reorderNs, order0, heap0, k);
      RoundKeeps(items, number, reorderNs, order0, heap0, k);
      number := number + 1;
    }
    assert items[..number] == items;
    Drained(items, reorderNs, order, heap);
    HeapSorted(items, reorderNs, order, heap);
    TailLeaves(items, reorderNs, order, heap);
    ghost var order0, tail := order, heap;
    ghost var k := 0;
    while heap != []
      invariant 0 <= k <= |tail| && heap == tail[k..] && order == order0 + tail[..k] && out == Elements(order)
      decreases |heap|
    {
      assert tail[..k + 1] == tail[..k] + [heap[0]];
      out, order := out + [heap[0].el], order + [heap[0]];
      heap := heap[1..];
      k := k + 1;
    }
    assert order == order0 + tail;
    assert Merged(items, reorderNs, out, order);
  }

  lemma NothingStands<E>(reorderNs: int)
    ensures Stands<E>([], reorderNs, [], []) && Watermark<E>([]) == 0
  {}

  lemma NothingLeaves<E>(items: seq<Item<E>>, reorderNs: int)
    ensures Leaving<E>(items, reorderNs, 0, [], [])
  {}

  lemma HeapSorted<E>(items: seq<Item<E>>, reorderNs: int, out: seq<Keyed<E>>, heap: seq<Keyed<E>>)
    requires Stands(items, reorderNs, out, heap)
    ensures Sorted(heap)
  {
    hide Sorted, NoneTooLate;
  }

  /** What waits in a round is what waited and the item that comes, in order; those up to
      the cutoff are in front. */
  lemma WaitingIs<E>(items: seq<Item<E>>, n: nat, reorderNs: int, out: seq<Keyed<E>>, heap: seq<Keyed<E>>, k: nat)
    requires n < |items| && Stands(items[..n], reorderNs, out, heap)
    requires
      var cutoff, waiting := Watermark(items[..n + 1]) - reorderNs, Insert(heap, Keyed(items[n].t, n, items[n].el));
      k <= |waiting| && (k < |waiting| ==> waiting[k].t > cutoff)
    ensures
      var e := Keyed(items[n].t, n, items[n].el);
      var cutoff, waiting := Watermark(items[..n + 1]) - reorderNs, Insert(heap, e);
      && Sorted(waiting) && multiset(waiting) == multiset(heap) + multiset{e}
      && forall x :: x in waiting[k..] ==> x.t > cutoff
  {
    hide Watermark, NoneTooLate, Insert;
    AllEarlier(items[..n], out, heap);
    InsertKeeps(heap, Keyed(items[n].t, n, items[n].el));
  }

  lemma NextWatermark<E>(items: seq<Item<E>>, n: nat)
    requires n < |items|
    ensures Watermark(items[..n + 1]) == Max(Watermark(items[..n]), items[n].arrival)
  {
    assert items[..n + 1][..n] == items[..n];
  }

  /** One round: item `n` joins the heap, and the first `k` of it, no later than the
      new cutoff, leave. */
  lemma RoundKeeps<E>(items: seq<Item<E>>, n: nat, reorderNs: int, out: seq<Keyed<E>>, heap: seq<Keyed<E>>, k: nat)
    requires n < |items| && Stands(items[..n], reorderNs, out, heap)
    requires
      var cutoff, waiting := Watermark(items[..n + 1]) - reorderNs, Insert(heap, Keyed(items[n].t, n, items[n].el));
      && k <= |waiting| && (forall x :: x in waiting[..k] ==> x.t <= cutoff)
      && (k < |waiting| ==> waiting[k].t > cutoff)
    ensures var waiting := Insert(heap, Keyed(items[n].t, n, items[n].el));
      Stands(items[..n + 1], reorderNs, out + waiting[..k], waiting[k..])
  {
    hide Before, Watermark, NoneTooLate, Insert, Sorted;
    var was, now, e := items[..n], items[..n + 1], Keyed(items[n].t, n, items[n].el);
    var waiting, cutoff := Insert(heap, e), Watermark(now) - reorderNs;
    NextWatermark(items, n);
    KeyedMore(items, n);
    AllEarlier(was, out, heap);
    InsertKeeps(heap, e);
    Split(waiting, k);
    assert multiset(KeyedAll(now)) == multiset(KeyedAll(was)) + multiset{e};
    Regroup(multiset(out), multiset(heap), multiset{e}, multiset(waiting[..k]), multiset(waiting[k..]));
    assert multiset(out + waiting[..k]) == multiset(out) + multiset(waiting[..k]);
    SortedParts(waiting, k, cutoff);
    WhoLeaves(heap, e, waiting, k, cutoff);
    StillSortedIff(items, n, reorderNs, out, heap, waiting[..k]);
  }

  lemma Regroup<E>(out: multiset<Keyed<E>>, heap: multiset<Keyed<E>>, e: multiset<Keyed<E>>,
                   first: multiset<Keyed<E>>, rest: multiset<Keyed<E>>)
    requires first + rest == heap + e
    ensures out + first + rest == out + heap + e
  {
    assert out + first + rest == out + (first + rest);
    assert out + heap + e == out + (heap + e);
  }

  lemma WhoLeaves<E>(heap: seq<Keyed<E>>, e: Keyed<E>, waiting: seq<Keyed<E>>, k: nat, cutoff: int)
    requires multiset(waiting) == multiset(heap) + multiset{e} && k <= |waiting|
    requires forall x :: x in waiting[k..] ==> x.t > cutoff
    ensures forall x :: x in waiting[..k] ==> x in heap || x == e
    ensures e.t <= cutoff ==> e in waiting[..k]
  {
    Split(waiting, k);
    forall x | x in waiting[..k]
      ensures x in heap || x == e
    {
      assert x in multiset(waiting[..k]) && x in multiset(waiting);
    }
    assert e in multiset(waiting);
    assert e in multiset(waiting[..k]) || e in multiset(waiting[k..]);
  }

  lemma KeyedMore<E>(items: seq<Item<E>>, n: nat)
    requires n < |items|
    ensures KeyedAll(items[..n + 1]) == KeyedAll(items[..n]) + [Keyed(items[n].t, n, items[n].el)]
  {}

  /** Everything that came before carries a smaller number, and is an item. */
  lemma AllEarlier<E>(items: seq<Item<E>>, out: seq<Keyed<E>>, heap: seq<Keyed<E>>)
    requires multiset(out) + multiset(heap) == multiset(KeyedAll(items))
    ensures forall x :: x in out || x in heap ==> x.number < |items| && x == KeyedAll(items)[x.number]
    ensures forall x :: x in KeyedAll(items) ==> x in out || x in heap
  {
    forall x | x in out || x in heap
      ensures x.number < |items| && x == KeyedAll(items)[x.number]
    {
      assert x in multiset(out) + multiset(heap);
      assert x in KeyedAll(items);
    }
    forall x | x in KeyedAll(items)
      ensures x in out || x in heap
    {
      assert x in multiset(out) + multiset(heap);
    }
  }

  lemma SortedParts<E>(s: seq<Keyed<E>>, k: nat, cutoff: int)
    requires Sorted(s) && k <= |s| && (k < |s| ==> s[k].t > cutoff)
    ensures Sorted(s[..k]) && Sorted(s[k..])
    ensures forall x :: x in s[k..] ==> x.t > cutoff
  {
    forall x | x in s[k..]
      ensures x.t > cutoff
    {
      var i :| k <= i < |s| && s[i] == x;
      if k < i { assert Before(s[k], s[i]); }
    }
  }

  /** What leaves now keeps the output sorted exactly if the new item is not too
      late. */
  lemma StillSortedIff<E>(items: seq<Item<E>>, n: nat, reorderNs: int, out: seq<Keyed<E>>, heap: seq<Keyed<E>>,
                          leaving: seq<Keyed<E>>)
    requires n < |items| && Stands(items[..n], reorderNs, out, heap) && Sorted(leaving)
    requires var e, cutoff := Keyed(items[n].t, n, items[n].el), Watermark(items[..n + 1]) - reorderNs;
      && (forall x :: x in leaving ==> x in heap || x == e)
      && (e.t <= cutoff ==> e in leaving)
    ensures Sorted(out + leaving) <==> NoneTooLate(items[..n + 1], reorderNs)
  {
    hide Watermark;
    var was, e := items[..n], Keyed(items[n].t, n, items[n].el);
    var cutoff := Watermark(was) - reorderNs;
    NextWatermark(items, n);
    AllEarlier(was, out, heap);
    TooLateLast(items, n, reorderNs);
    SortedAppend(out, leaving);
    if forall x :: x in out ==> x.t <= e.t {
      forall x, y | x in out && y in leaving
        ensures Before(x, y)
      {}
      forall j | 0 <= j < n
        ensures items[j].t <= e.t || items[j].t > cutoff
      {
        assert KeyedAll(was)[j] in KeyedAll(was);
      }
    } else {
      var x :| x in out && x.t > e.t;
      assert e in leaving && !Before(x, e);
      assert items[x.number].t > e.t && items[x.number].t <= cutoff;
    }
  }

  lemma SortedAppend<E>(a: seq<Keyed<E>>, b: seq<Keyed<E>>)
    requires Sorted(b)
    ensures Sorted(a + b) <==> Sorted(a) && forall x, y :: x in a && y in b ==> Before(x, y)
  {
    hide Before;
    if Sorted(a + b) {
      assert forall i :: 0 <= i < |a| ==> (a + b)[i] == a[i];
      forall x, y | x in a && y in b
        ensures Before(x, y)
      {
        var i, j :| 0 <= i < |a| && a[i] == x && 0 <= j < |b| && b[j] == y;
        assert (a + b)[i] == x && (a + b)[|a| + j] == y;
      }
    }
  }

  lemma TooLateLast<E>(items: seq<Item<E>>, n: nat, reorderNs: int)
    requires n < |items|
    ensures NoneTooLate(items[..n + 1], reorderNs) <==>
      NoneTooLate(items[..n], reorderNs) &&
      forall j :: 0 <= j < n ==> items[j].t <= items[n].t || items[j].t > Watermark(items[..n]) - reorderNs
  {
    hide Watermark;
    var was, now := items[..n], items[..n + 1];
    assert forall i :: 0 <= i <= n ==> now[..i] == items[..i] && (i < n ==> was[..i] == items[..i]);
  }

  /** What still waits at the end is later than all that has left. */
  lemma Drained<E>(items: seq<Item<E>>, reorderNs: int, out: seq<Keyed<E>>, heap: seq<Keyed<E>>)
    requires Stands(items, reorderNs, out, heap)
    ensures multiset(out + heap) == multiset(KeyedAll(items))
    ensures NoneTooLate(items, reorderNs) <==> out + heap == StableSort(KeyedAll(items))
  {
    hide Watermark, NoneTooLate, StableSort;
    SortedAppend(out, heap);
    assert items == [] ==> multiset(out) == multiset{};
    SortSorts(KeyedAll(items));
    if Sorted(out + heap) {
      SortedIsUnique(out + heap, StableSort(KeyedAll(items)));
    }
  }

  // ---- what the documentation promises ---------------------------------------------

  /** The reader's contract: no element before its own arrival, no arrival behind an
      earlier one by more than the budget. */
  ghost predicate WithinBudget<E>(items: seq<Item<E>>, reorderNs: int)
  {
    && (forall i :: 0 <= i < |items| ==> items[i].t >= items[i].arrival)
    && (forall i, j :: 0 <= j < i < |items| ==> items[i].arrival >= items[j].arrival - reorderNs)
  }

  /** Under that contract, with no arrival more than the budget before time zero, the
      stream comes out as the offline stable sort. */
  lemma WithinBudgetIsSorted<E>(items: seq<Item<E>>, reorderNs: int)
    requires WithinBudget(items, reorderNs)
    requires forall i :: 0 <= i < |items| ==> items[i].arrival >= -reorderNs
    ensures NoneTooLate(items, reorderNs)
  {
    forall i, j | 0 <= j < i < |items|
      ensures items[j].t <= items[i].t || items[j].t > Watermark(items[..i]) - reorderNs
    {
      WatermarkIs(items[..i]);
    }
  }

  lemma {:induction false} WatermarkIs<E>(items: seq<Item<E>>)
    ensures Watermark(items) == 0 || exists i :: 0 <= i < |items| && items[i].arrival == Watermark(items)
  {
    if items != [] {
      var front := items[..|items| - 1];
      WatermarkIs(front);
      if Watermark(items) != items[|items| - 1].arrival && Watermark(items) != 0 {
        var i :| 0 <= i < |front| && front[i].arrival == Watermark(front);
        assert items[i].arrival == Watermark(items);
      }
    }
  }

  /** The contract alone is not enough: the watermark starts at zero, so before time
      zero elements leave at once. */
  lemma BudgetBeforeZero()
    ensures var items := [Item(-30, -30, 'a'), Item(-40, -40, 'b')];
      WithinBudget(items, 20) && !NoneTooLate(items, 20)
  {
    var items := [Item(-30, -30, 'a'), Item(-40, -40, 'b')];
    assert items[..1] == [Item(-30, -30, 'a')];
    assert items[..1][..0] == [];
    assert Watermark(items[..1]) == 0;
    assert items[0].t == -30 && items[1].t == -40;
  }
}
