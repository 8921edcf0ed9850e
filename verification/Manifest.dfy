/**
 The text a session's content digest covers
 (python/visio_schema/ingest/signing.py, `manifest_lines`). Names and text are
 their UTF-8 bytes, which is what is compared and hashed.
 */
module Manifest {
  import opened Bytes
  import opened Lists

  const COLON: byte := 58
  const NEWLINE: byte := 10

  /** One recording part as the digest covers it. */
  datatype Part = Part(name: seq<byte>, size: int, md5: seq<byte>)

  predicate LowerHex(c: byte)
  {
    48 <= c <= 57 || 97 <= c <= 102
  }

  /** The part can be put on a line of its own, unambiguously. */
  predicate Digestible(p: Part)
  {
    && COLON !in p.name && NEWLINE !in p.name && p.size >= 0
    && (p.md5 == [] || (|p.md5| == 32 && forall c :: c in p.md5 ==> LowerHex(c)))
  }

  ghost predicate Accepted(parts: seq<Part>)
  {
    forall p :: p in parts ==> Digestible(p)
  }

  function Decimal(n: nat): (r: seq<byte>)
    ensures r != [] && (|r| == 1 <==> n < 10)
    ensures forall c :: c in r ==> 48 <= c <= 57
  {
    if n < 10 then [48 + n] else Decimal(n / 10) + [48 + n % 10]
  }

  function Line(p: Part): seq<byte>
    requires p.size >= 0
  {
    p.name + ([COLON] + (Decimal(p.size) + ([COLON] + (p.md5 + [NEWLINE]))))
  }

  /** Byte-wise lexicographic order. */
  predicate Less(a: seq<byte>, b: seq<byte>)
  {
    b != [] && (a == [] || a[0] < b[0] || (a[0] == b[0] && Less(a[1..], b[1..])))
  }

  /** Into a list ordered by name, after the parts of equal name. */
  function Insert(s: seq<Part>, p: Part): seq<Part>
  {
    if s == [] || !Less(p.name, s[|s| - 1].name) then s + [p]
    else Insert(s[..|s| - 1], p) + [s[|s| - 1]]
  }

  /** The stable sort by name. */
  function SortByName(parts: seq<Part>): seq<Part>
  {
    if parts == [] then [] else Insert(SortByName(parts[..|parts| - 1]), parts[|parts| - 1])
  }

  function Text(parts: seq<Part>): seq<byte>
    requires forall p :: p in parts ==> p.size >= 0
  {
    if parts == [] then [] else Line(parts[0]) + Text(parts[1..])
  }

  /** Nothing where the source raises. */
  function ManifestLines(parts: seq<Part>): Option<seq<byte>>
  {
    if exists p :: p in parts && !Digestible(p) then None
    else
      SortIsPermutation(parts);
      Some(Text(SortByName(parts)))
  }

  // ---- the sort -------------------------------------------------------------------------

  lemma {:induction false} LessIsTotal(a: seq<byte>, b: seq<byte>)
    ensures Less(a, b) || Less(b, a) || a == b
    ensures !(Less(a, b) && Less(b, a))
  {
    if a != [] && b != [] {
      LessIsTotal(a[1..], b[1..]);
      assert a == [a[0]] + a[1..] && b == [b[0]] + b[1..];
    }
  }

  lemma {:induction false} LessIsTransitive(a: seq<byte>, b: seq<byte>, c: seq<byte>)
    requires !Less(b, a) && !Less(c, b)
    ensures !Less(c, a)
  {
    if a != [] && b != [] && c != [] && a[0] == b[0] == c[0] {
      LessIsTransitive(a[1..], b[1..], c[1..]);
    }
  }

  ghost predicate Ordered(s: seq<Part>)
  {
    forall i, j :: 0 <= i < j < |s| ==> !Less(s[j].name, s[i].name)
  }

  lemma OrderedPush(s: seq<Part>, p: Part)
    requires Ordered(s) && forall x :: x in s ==> !Less(p.name, x.name)
    ensures Ordered(s + [p])
  {
    forall i | 0 <= i < |s|
      ensures !Less(p.name, s[i].name)
    {
      assert s[i] in s;
    }
  }

  lemma OrderedFront(s: seq<Part>)
    requires Ordered(s) && s != []
    ensures Ordered(s[..|s| - 1])
  {}

  lemma NotBefore(s: seq<Part>, p: Part)
    requires Ordered(s) && p in s
    ensures !Less(s[|s| - 1].name, p.name)
  {
    var i :| 0 <= i < |s| && s[i] == p;
    LessIsTotal(p.name, p.name);
  }

  lemma {:induction false} InsertKeeps(s: seq<Part>, p: Part)
    requires Ordered(s)
    ensures Ordered(Insert(s, p)) && multiset(Insert(s, p)) == multiset(s) + multiset{p}
    ensures forall x :: x in Insert(s, p) ==> x in s || x == p
  {
    hide Less, Ordered;
    if s == [] || !Less(p.name, s[|s| - 1].name) {
      forall x | x in s
        ensures !Less(p.name, x.name)
      {
        NotBefore(s, x);
        LessIsTransitive(x.name, s[|s| - 1].name, p.name);
      }
      OrderedPush(s, p);
    } else {
      var front, last := s[..|s| - 1], s[|s| - 1];
      SplitLast(s);
      OrderedFront(s);
      InsertKeeps(front, p);
      LessIsTotal(p.name, last.name);
      forall x | x in Insert(front, p)
        ensures !Less(last.name, x.name)
      {
        if x in front { NotBefore(s, x); }
      }
      OrderedPush(Insert(front, p), last);
    }
  }

  lemma {:induction false} SortSorts(parts: seq<Part>)
    ensures Ordered(SortByName(parts)) && multiset(SortByName(parts)) == multiset(parts)
  {
    hide Insert, Ordered, Less;
    if parts == [] {
      OrderedNone(parts);
    } else {
      var front, last := parts[..|parts| - 1], parts[|parts| - 1];
      SortSorts(front);
      InsertKeeps(SortByName(front), last);
      SplitLast(parts);
    }
  }

  lemma OrderedNone(s: seq<Part>)
    requires s == []
    ensures Ordered(s)
  {}

  lemma SortIsPermutation(parts: seq<Part>)
    ensures multiset(SortByName(parts)) == multiset(parts)
    ensures forall p :: p in SortByName(parts) <==> p in parts
  {
    SortSorts(parts);
    assert forall p :: p in SortByName(parts) <==> p in multiset(SortByName(parts));
  }

  /** The parts of one name, in order. */
  function Named(s: seq<Part>, name: seq<byte>): seq<Part>
  {
    if s == [] then []
    else Named(s[..|s| - 1], name) + if s[|s| - 1].name == name then [s[|s| - 1]] else []
  }

  lemma {:induction false} NamedAppend(a: seq<Part>, b: seq<Part>, name: seq<byte>)
    ensures Named(a + b, name) == Named(a, name) + Named(b, name)
  {
    if b == [] {
      assert a + b == a;
    } else {
      assert (a + b)[..|a + b| - 1] == a + b[..|b| - 1];
      NamedAppend(a, b[..|b| - 1], name);
    }
  }

  lemma NamedOne(p: Part, name: seq<byte>)
    ensures Named([p], name) == if p.name == name then [p] else []
  {
    assert [p][..0] == [];
  }

  lemma {:induction false} InsertIsStable(s: seq<Part>, p: Part, name: seq<byte>)
    ensures Named(Insert(s, p), name) == Named(s, name) + Named([p], name)
  {
    hide Less, Named, Insert;
    InsertStep(s, p);
    if s == [] || !Less(p.name, s[|s| - 1].name) {
      NamedAppend(s, [p], name);
    } else {
      var front, last := s[..|s| - 1], s[|s| - 1];
      InsertIsStable(front, p, name);
      NamedAppend(Insert(front, p), [last], name);
      NamedAppend(front, [last], name);
      LessIsTotal(p.name, last.name);
      NamedApart(Named(front, name), p, last, name);
    }
  }

  lemma InsertStep(s: seq<Part>, p: Part)
    ensures s == [] || !Less(p.name, s[|s| - 1].name) ==> Insert(s, p) == s + [p]
    ensures s != [] && Less(p.name, s[|s| - 1].name) ==>
      Insert(s, p) == Insert(s[..|s| - 1], p) + [s[|s| - 1]] && s == s[..|s| - 1] + [s[|s| - 1]]
  {}

  /** Of two parts of different names at most one has this name. */
  lemma NamedApart(before: seq<Part>, p: Part, q: Part, name: seq<byte>)
    requires p.name != q.name
    ensures before + Named([p], name) + Named([q], name) == before + Named([q], name) + Named([p], name)
  {
    NamedOne(p, name);
    NamedOne(q, name);
  }

  /** Parts of equal name keep their order. */
  lemma {:induction false} SortIsStable(parts: seq<Part>, name: seq<byte>)
    ensures Named(SortByName(parts), name) == Named(parts, name)
  {
    hide Insert, Less;
    if parts != [] {
      var front, last := parts[..|parts| - 1], parts[|parts| - 1];
      SortIsStable(front, name);
      InsertIsStable(SortByName(front), last, name);
      NamedOne(last, name);
    }
  }

  // ---- the text ------------------------------------------------------------------------------

  /** A delimiter that neither head holds separates them for good. */
  lemma {:induction false} SplitsAlike(a: seq<byte>, b: seq<byte>, c: byte, x: seq<byte>, y: seq<byte>)
    requires c !in a && c !in b && a + ([c] + x) == b + ([c] + y)
    ensures a == b && x == y
  {
    var s, t := a + ([c] + x), b + ([c] + y);
    assert s[0] == (if a == [] then c else a[0]) && t[0] == (if b == [] then c else b[0]);
    if a == [] {
      assert s[1..] == x && t[1..] == y;
    } else {
      assert s[1..] == a[1..] + ([c] + x) && t[1..] == b[1..] + ([c] + y);
      SplitsAlike(a[1..], b[1..], c, x, y);
      assert a == [a[0]] + a[1..] && b == [b[0]] + b[1..];
    }
  }

  lemma {:induction false} DecimalInjective(m: nat, n: nat)
    requires Decimal(m) == Decimal(n)
    ensures m == n
  {
    var a, b := Decimal(m), Decimal(n);
    if m < 10 {
      assert a[0] == 48 + m && b[0] == 48 + n;
    } else {
      assert a[..|a| - 1] == Decimal(m / 10) && b[..|b| - 1] == Decimal(n / 10);
      assert a[|a| - 1] == 48 + m % 10 && b[|b| - 1] == 48 + n % 10;
      DecimalInjective(m / 10, n / 10);
    }
  }

  /** A line can be read back, whatever follows it. */
  lemma LineReadsBack(p: Part, q: Part, x: seq<byte>, y: seq<byte>)
    requires Digestible(p) && Digestible(q) && Line(p) + x == Line(q) + y
    ensures p == q && x == y
  {
    LineParts(p, x);
    LineParts(q, y);
    var px, qy := p.md5 + ([NEWLINE] + x), q.md5 + ([NEWLINE] + y);
    SplitsAlike(p.name, q.name, COLON, Decimal(p.size) + ([COLON] + px), Decimal(q.size) + ([COLON] + qy));
    SplitsAlike(Decimal(p.size), Decimal(q.size), COLON, px, qy);
    SplitsAlike(p.md5, q.md5, NEWLINE, x, y);
    DecimalInjective(p.size, q.size);
  }

  lemma LineParts(p: Part, x: seq<byte>)
    requires p.size >= 0
    ensures Line(p) + x == p.name + ([COLON] + (Decimal(p.size) + ([COLON] + (p.md5 + ([NEWLINE] + x)))))
  {
    hide Decimal;
    assert p.md5 + [NEWLINE] + x == p.md5 + ([NEWLINE] + x);
    var d := Decimal(p.size);
    assert d + ([COLON] + (p.md5 + [NEWLINE])) + x == d + ([COLON] + (p.md5 + ([NEWLINE] + x)));
  }

  /** A manifest text determines its lines. */
  lemma {:induction false} TextReadsBack(a: seq<Part>, b: seq<Part>)
    requires Accepted(a) && Accepted(b) && Text(a) == Text(b)
    ensures a == b
  {
    hide Line, Digestible;
    AcceptedParts(a);
    AcceptedParts(b);
    if a != [] { LineNotEmpty(a[0]); }
    if b != [] { LineNotEmpty(b[0]); }
    if a != [] && b != [] {
      LineReadsBack(a[0], b[0], Text(a[1..]), Text(b[1..]));
      TextReadsBack(a[1..], b[1..]);
      assert a == [a[0]] + a[1..] && b == [b[0]] + b[1..];
    }
  }

  lemma AcceptedParts(a: seq<Part>)
    requires Accepted(a)
    ensures a != [] ==> a[0].size >= 0 && Digestible(a[0]) && Accepted(a[1..])
    ensures a != [] ==> forall p :: p in a[1..] ==> p.size >= 0
  {
    if a != [] {
      assert a[0] in a;
      assert forall p :: p in a[1..] ==> p in a;
    }
  }

  lemma LineNotEmpty(p: Part)
    requires p.size >= 0
    ensures Line(p) != []
  {}

  /** Two accepted manifests with the same text hold the same parts: a digest of the
      text covers the manifest. */
  lemma TextCoversTheParts(a: seq<Part>, b: seq<Part>)
    requires ManifestLines(a).Some? && ManifestLines(a) == ManifestLines(b)
    ensures multiset(a) == multiset(b)
  {
    hide Line, SortByName;
    SortIsPermutation(a);
    SortIsPermutation(b);
    TextReadsBack(SortByName(a), SortByName(b));
  }

  // ---- order ---------------------------------------------------------------------------------

  /** Parts of equal name are equal. */
  ghost predicate NamesDecide(parts: seq<Part>)
  {
    forall p, q :: p in parts && q in parts && p.name == q.name ==> p == q
  }

  lemma {:induction false} OrderedIsUnique(a: seq<Part>, b: seq<Part>)
    requires Ordered(a) && Ordered(b) && multiset(a) == multiset(b) && NamesDecide(a)
    ensures a == b
  {
    hide Less, Ordered;
    assert |multiset(a)| == |a| && |multiset(b)| == |b|;
    if a != [] {
      var x, y := a[|a| - 1], b[|b| - 1];
      SameElements(a, b);
      NotBefore(a, y);
      NotBefore(b, x);
      LessIsTotal(x.name, y.name);
      SplitLast(a);
      SplitLast(b);
      OrderedFront(a);
      OrderedFront(b);
      SameRest(multiset(a[..|a| - 1]), multiset(b[..|b| - 1]), x);
      OrderedIsUnique(a[..|a| - 1], b[..|b| - 1]);
      assert a == a[..|a| - 1] + [x] && b == b[..|b| - 1] + [y];
    }
  }

  /** The text does not depend on the order the parts are given in, exactly when
      parts of equal name are equal. */
  lemma OrderDoesNotMatter(parts: seq<Part>)
    requires Accepted(parts)
    ensures NamesDecide(parts) <==>
      forall other :: multiset(other) == multiset(parts) ==> ManifestLines(other) == ManifestLines(parts)
  {
    hide Line, Text, SortByName;
    if NamesDecide(parts) {
      forall other | multiset(other) == multiset(parts)
        ensures ManifestLines(other) == ManifestLines(parts)
      {
        SameElements(other, parts);
        SortSorts(other);
        SortSorts(parts);
        SortIsPermutation(parts);
        OrderedIsUnique(SortByName(parts), SortByName(other));
      }
    } else {
      var p, q :| p in parts && q in parts && p.name == q.name && p != q;
      var i :| 0 <= i < |parts| && parts[i] == p;
      var j :| 0 <= j < |parts| && parts[j] == q;
      var other := SwapMatters(parts, if i < j then i else j, if i < j then j else i);
      assert ManifestLines(other) != ManifestLines(parts);
    }
  }

  lemma SameElements(a: seq<Part>, b: seq<Part>)
    requires multiset(a) == multiset(b)
    ensures forall p :: p in a <==> p in b
  {
    assert forall p :: p in a <==> p in multiset(a);
    assert forall p :: p in b <==> p in multiset(b);
  }

  /** Swapping two different parts of one name changes the text. */
  lemma SwapMatters(parts: seq<Part>, i: nat, j: nat) returns (other: seq<Part>)
    requires Accepted(parts) && i < j < |parts| && parts[i].name == parts[j].name && parts[i] != parts[j]
    ensures other == parts[i := parts[j]][j := parts[i]]
    ensures multiset(other) == multiset(parts) && ManifestLines(other) != ManifestLines(parts)
  {
    hide Line, Text, SortByName, Named, Digestible;
    var name := parts[i].name;
    other := parts[i := parts[j]][j := parts[i]];
    SameElements(other, parts);
    assert other[..i] == parts[..i];
    if ManifestLines(other) == ManifestLines(parts) {
      SortIsPermutation(other);
      SortIsPermutation(parts);
      TextReadsBack(SortByName(other), SortByName(parts));
      SortIsStable(other, name);
      SortIsStable(parts, name);
      NamedAt(parts, i);
      NamedAt(other, i);
    }
  }

  /** For instance two parts of one name and different sizes. */
  lemma EqualNamesMatter(p: Part, q: Part)
    requires p == Part([97], 1, []) && q == Part([97], 2, [])
    ensures ManifestLines([p, q]).Some? && ManifestLines([p, q]) != ManifestLines([q, p])
  {
    hide Line, Text, SortByName;
    var other := SwapMatters([p, q], 0, 1);
    assert other == [q, p];
  }

  /** Where a part stands among those of its name. */
  lemma NamedAt(s: seq<Part>, i: nat)
    requires i < |s|
    ensures var name := s[i].name;
      var k := |Named(s[..i], name)|;
      k < |Named(s, name)| && Named(s, name)[k] == s[i]
  {
    var name := s[i].name;
    assert s == s[..i] + [s[i]] + s[i + 1..];
    NamedAppend(s[..i] + [s[i]], s[i + 1..], name);
    NamedAppend(s[..i], [s[i]], name);
    NamedOne(s[i], name);
  }
}
