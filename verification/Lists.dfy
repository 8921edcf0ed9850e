/** Selecting from a list in order, summing over it, and its elements as a multiset. */
module Lists {
  import opened Bytes

  /** `a` is `b` with some elements left out, order kept. */
  ghost predicate Subsequence<T(!new)>(a: seq<T>, b: seq<T>)
    decreases |b|
  {
    if a == [] then true
    else if b == [] then false
    else
      (a[|a| - 1] == b[|b| - 1] && Subsequence(a[..|a| - 1], b[..|b| - 1])) ||
      Subsequence(a, b[..|b| - 1])
  }

  lemma {:induction false} SubsequenceSelf<T(!new)>(a: seq<T>)
    ensures Subsequence(a, a)
  {
    if a != [] { SubsequenceSelf(a[..|a| - 1]); }
  }

  lemma SubsequencePush<T(!new)>(a: seq<T>, b: seq<T>, x: T)
    requires Subsequence(a, b)
    ensures Subsequence(a + [x], b + [x])
    ensures Subsequence(a, b + [x])
  {
    assert (a + [x])[..|a|] == a && (b + [x])[..|b|] == b;
  }

  lemma {:induction false} SubsequenceTrans<T(!new)>(a: seq<T>, b: seq<T>, c: seq<T>)
    requires Subsequence(a, b) && Subsequence(b, c)
    ensures Subsequence(a, c)
    decreases |c|
  {
    if a != [] && b != [] && c != [] {
      var b', c' := b[..|b| - 1], c[..|c| - 1];
      if Subsequence(b, c') {
        SubsequenceTrans(a, b, c');
      } else if Subsequence(a, b') {
        SubsequenceTrans(a, b', c');
      } else {
        SubsequenceTrans(a[..|a| - 1], b', c');
      }
    }
  }

  /** Selecting from a tail, with the head untouched. */
  lemma {:induction false} SubsequenceBehind<T(!new)>(head: seq<T>, a: seq<T>, b: seq<T>)
    requires Subsequence(a, b)
    ensures Subsequence(head + a, head + b)
    decreases |b|
  {
    if b == [] {
      assert a == [] && head + a == head && head + b == head;
      SubsequenceSelf(head);
    } else {
      var b' := b[..|b| - 1];
      assert (head + b)[..|head + b| - 1] == head + b';
      if a != [] && a[|a| - 1] == b[|b| - 1] && Subsequence(a[..|a| - 1], b') {
        assert (head + a)[..|head + a| - 1] == head + a[..|a| - 1];
        SubsequenceBehind(head, a[..|a| - 1], b');
      } else {
        assert Subsequence(a, b');
        SubsequenceBehind(head, a, b');
        assert (head + b) == (head + b') + [b[|b| - 1]];
        SubsequencePush(head + a, head + b', b[|b| - 1]);
      }
    }
  }

  lemma {:induction false} SubsequenceOfMore<T(!new)>(a: seq<T>, b: seq<T>, c: seq<T>)
    requires Subsequence(a, b) && IsPrefix(b, c)
    ensures Subsequence(a, c)
    decreases |c|
  {
    if |b| < |c| {
      var c', x := c[..|c| - 1], c[|c| - 1];
      SubsequenceOfMore(a, b, c');
      SubsequencePush(a, c', x);
      assert c == c' + [x];
    } else {
      assert b == c;
    }
  }

  lemma {:induction false} PrefixIsSubsequence<T(!new)>(s: seq<T>, n: nat)
    requires n <= |s|
    ensures Subsequence(s[..n], s)
    decreases |s|
  {
    if n < |s| {
      var s' := s[..|s| - 1];
      PrefixIsSubsequence(s', n);
      SubsequencePush(s'[..n], s', s[|s| - 1]);
      assert s'[..n] == s[..n] && s == s' + [s[|s| - 1]];
    } else {
      SubsequenceSelf(s);
      assert s[..n] == s;
    }
  }

  lemma {:induction false} NothingBefore<T(!new)>(a: seq<T>, b: seq<T>)
    ensures Subsequence(b, a + b)
    decreases |b|
  {
    if b != [] {
      var b', x := b[..|b| - 1], b[|b| - 1];
      NothingBefore(a, b');
      SubsequencePush(b', a + b', x);
      assert b == b' + [x] && a + b == (a + b') + [x];
    }
  }

  lemma MiddleIsSubsequence<T(!new)>(a: seq<T>, b: seq<T>, c: seq<T>)
    ensures Subsequence(b, a + b + c)
  {
    SubsequenceSelf(b);
    NothingBefore(a, b);
    assert IsPrefix(a + b, a + b + c);
    SubsequenceOfMore(b, a + b, a + b + c);
  }

  lemma {:induction false} SubsequenceLength<T(!new)>(a: seq<T>, b: seq<T>)
    requires Subsequence(a, b)
    ensures |a| <= |b|
    decreases |b|
  {
    if a != [] && b != [] {
      var a', b' := a[..|a| - 1], b[..|b| - 1];
      if Subsequence(a, b') { SubsequenceLength(a, b'); } else { SubsequenceLength(a', b'); }
    }
  }

  lemma {:induction false} WholeSubsequence<T(!new)>(a: seq<T>, b: seq<T>)
    requires Subsequence(a, b) && |a| == |b|
    ensures a == b
  {
    if a != [] {
      var a', b' := a[..|a| - 1], b[..|b| - 1];
      if Subsequence(a, b') {
        SubsequenceLength(a, b');
      }
      WholeSubsequence(a', b');
      assert a == a' + [a[|a| - 1]] && b == b' + [b[|b| - 1]];
    }
  }

  lemma {:induction false} SubsequenceMembers<T(!new)>(a: seq<T>, b: seq<T>)
    requires Subsequence(a, b)
    ensures forall x :: x in a ==> x in b
    decreases |b|
  {
    if a != [] {
      var a', b' := a[..|a| - 1], b[..|b| - 1];
      assert forall x :: x in b' ==> x in b;
      if Subsequence(a, b') {
        SubsequenceMembers(a, b');
      } else {
        SubsequenceMembers(a', b');
        assert forall x :: x in a ==> x in a' || x == a[|a| - 1];
      }
    }
  }

  lemma SplitLast<T>(s: seq<T>)
    requires s != []
    ensures multiset(s) == multiset(s[..|s| - 1]) + multiset{s[|s| - 1]}
    ensures forall x :: x in s[..|s| - 1] ==> x in s
  {
    assert s == s[..|s| - 1] + [s[|s| - 1]];
  }

  lemma SameRest<T>(a: multiset<T>, b: multiset<T>, x: T)
    requires a + multiset{x} == b + multiset{x}
    ensures a == b
  {
    assert a == (a + multiset{x}) - multiset{x};
    assert b == (b + multiset{x}) - multiset{x};
  }

  /** Dropping one element. */
  function Without<T>(s: seq<T>, i: nat): (r: seq<T>)
    requires i < |s|
    ensures |r| == |s| - 1
  {
    s[..i] + s[i + 1..]
  }

  lemma WithoutIsSubsequence<T(!new)>(s: seq<T>, i: nat)
    requires i < |s|
    ensures Subsequence(Without(s, i), s)
    ensures multiset(s) == multiset(Without(s, i)) + multiset{s[i]}
  {
    hide Subsequence;
    SplitAt(s, i);
    OneBetween(s[..i], s[i], s[i + 1..]);
  }

  lemma SplitAt<T>(s: seq<T>, i: nat)
    requires i < |s|
    ensures s == s[..i] + ([s[i]] + s[i + 1..])
  {}

  lemma OneBetween<T(!new)>(a: seq<T>, x: T, b: seq<T>)
    ensures multiset(a + ([x] + b)) == multiset(a + b) + multiset{x}
    ensures Subsequence(a + b, a + ([x] + b))
  {
    hide Subsequence;
    MiddleIsSubsequence([x], b, []);
    assert [x] + b + [] == [x] + b;
    SubsequenceBehind(a, b, [x] + b);
  }

  /** The sum of a measure over a list. */
  function Sum<T>(s: seq<T>, size: T -> nat): nat
  {
    if s == [] then 0 else Sum(s[..|s| - 1], size) + size(s[|s| - 1])
  }

  lemma {:induction false} SumAppend<T>(a: seq<T>, b: seq<T>, size: T -> nat)
    ensures Sum(a + b, size) == Sum(a, size) + Sum(b, size)
  {
    if b == [] {
      assert a + b == a;
    } else {
      assert (a + b)[..|a + b| - 1] == a + b[..|b| - 1];
      SumAppend(a, b[..|b| - 1], size);
    }
  }

  lemma SumOne<T>(x: T, size: T -> nat)
    ensures Sum([x], size) == size(x)
  {
    assert [x][..0] == [];
  }

  lemma {:induction false} SumWithout<T>(s: seq<T>, i: nat, size: T -> nat)
    requires i < |s|
    ensures Sum(s, size) == Sum(Without(s, i), size) + size(s[i])
  {
    var n := |s| - 1;
    if i == n {
      assert Without(s, i) == s[..n];
    } else {
      assert Without(s, i)[..n - 1] == Without(s[..n], i);
      SumWithout(s[..n], i, size);
    }
  }
}
