/** Octets, and the few sequence facts every byte-level module shares. */
module Bytes {

  datatype Option<+T> = None | Some(value: T)

  type byte = x: int | 0 <= x < 256

  /** The concatenation of a list of byte strings. */
  function Flat(parts: seq<seq<byte>>): (r: seq<byte>)
  {
    if parts == [] then [] else parts[0] + Flat(parts[1..])
  }

  lemma {:induction false} FlatAppend(a: seq<seq<byte>>, b: seq<seq<byte>>)
    ensures Flat(a + b) == Flat(a) + Flat(b)
  {
    if a == [] {
      assert a + b == b;
    } else {
      assert (a + b)[0] == a[0] && (a + b)[1..] == a[1..] + b;
      FlatAppend(a[1..], b);
    }
  }

  lemma FlatOne(p: seq<byte>)
    ensures Flat([p]) == p
  {
    assert [p][1..] == [];
    assert Flat([]) == [];
  }

  /** `a` is an initial part of `b`. */
  ghost predicate IsPrefix<T(!new)>(a: seq<T>, b: seq<T>)
  {
    |a| <= |b| && a == b[..|a|]
  }

  lemma PrefixSelf<T(!new)>(a: seq<T>)
    ensures IsPrefix(a, a)
  {}

  lemma PrefixTrans<T(!new)>(a: seq<T>, b: seq<T>, c: seq<T>)
    ensures IsPrefix(a, b) && IsPrefix(b, c) ==> IsPrefix(a, c)
  {}

  lemma PrefixSplit<T(!new)>(a: seq<T>, b: seq<T>)
    requires IsPrefix(a, b)
    ensures b == a + b[|a|..]
  {}
}
