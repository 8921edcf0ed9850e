/** Unsigned machine words as numbers, and the bit strings they stand for. */
module Bits {

  /** Bitwise exclusive or. */
  function Xor(a: nat, b: nat): (r: nat)
    decreases a + b
  {
    if a == 0 && b == 0 then 0
    else 2 * Xor(a / 2, b / 2) + (if a % 2 != b % 2 then 1 else 0)
  }

  /** The low `width` bits of `n`, most significant first. */
  function BitsOf(n: nat, width: nat): (r: seq<bool>)
    ensures |r| == width
  {
    if width == 0 then [] else BitsOf(n / 2, width - 1) + [n % 2 == 1]
  }

  function XorBits(a: seq<bool>, b: seq<bool>): (r: seq<bool>)
    requires |a| == |b|
    ensures |r| == |a|
    ensures forall i :: 0 <= i < |a| ==> r[i] == (a[i] != b[i])
  {
    seq(|a|, i requires 0 <= i < |a| => a[i] != b[i])
  }

  function Zeros(n: nat): (r: seq<bool>)
    ensures |r| == n
    ensures forall i :: 0 <= i < n ==> !r[i]
  {
    seq(n, i => false)
  }

  function Pow2(n: nat): (r: nat)
    ensures r >= 1
  {
    if n == 0 then 1 else 2 * Pow2(n - 1)
  }

  lemma {:induction false} BitsOfXor(a: nat, b: nat, width: nat)
    ensures BitsOf(Xor(a, b), width) == XorBits(BitsOf(a, width), BitsOf(b, width))
  {
    if width > 0 {
      BitsOfXor(a / 2, b / 2, width - 1);
      assert Xor(a, b) / 2 == Xor(a / 2, b / 2);
      assert (Xor(a, b) % 2 == 1) == (a % 2 != b % 2);
    }
  }

  lemma {:induction false} XorFits(a: nat, b: nat, width: nat)
    requires a < Pow2(width) && b < Pow2(width)
    ensures Xor(a, b) < Pow2(width)
  {
    if width > 0 {
      XorFits(a / 2, b / 2, width - 1);
    }
  }

  lemma {:induction false} BitsOfInjective(a: nat, b: nat, width: nat)
    requires a < Pow2(width) && b < Pow2(width)
    requires BitsOf(a, width) == BitsOf(b, width)
    ensures a == b
  {
    if width > 0 {
      var u, v := BitsOf(a, width), BitsOf(b, width);
      assert u[..width - 1] == BitsOf(a / 2, width - 1);
      assert v[..width - 1] == BitsOf(b / 2, width - 1);
      assert u[width - 1] == v[width - 1];
      BitsOfInjective(a / 2, b / 2, width - 1);
    }
  }

  /** A left shift inside `width` bits drops the top bits and brings zeros in. */
  lemma {:induction false} BitsOfShifted(n: nat, width: nat, count: nat)
    requires count <= width
    ensures BitsOf(n * Pow2(count), width) == BitsOf(n, width - count) + Zeros(count)
  {
    if count == 0 {
      assert n * Pow2(0) == n;
    } else {
      BitsOfShifted(n, width - 1, count - 1);
      var m := n * Pow2(count - 1);
      assert n * Pow2(count) == 2 * m;
      assert (2 * m) / 2 == m && (2 * m) % 2 == 0;
      assert Zeros(count) == Zeros(count - 1) + [false];
    }
  }

  lemma {:induction false} BitsOfMod(n: nat, width: nat)
    ensures BitsOf(n % Pow2(width), width) == BitsOf(n, width)
  {
    if width > 0 {
      var p := Pow2(width - 1);
      assert n % (2 * p) == 2 * (n / 2 % p) + n % 2 by { DoubleMod(n, p); }
      BitsOfMod(n / 2, width - 1);
    }
  }

  lemma DoubleMod(n: nat, p: nat)
    requires p >= 1
    ensures n % (2 * p) == 2 * (n / 2 % p) + n % 2
  {
    var h := n / 2;
    assert h == p * (h / p) + h % p;
    var r := 2 * (h % p) + n % 2;
    assert n == (2 * p) * (h / p) + r by {
      assert (2 * p) * (h / p) == 2 * (p * (h / p));
    }
    assert 0 <= r < 2 * p;
    ModUnique(n, 2 * p, h / p, r);
  }

  lemma ModUnique(n: int, d: int, q: int, r: int)
    requires d > 0 && n == d * q + r && 0 <= r < d
    ensures n % d == r && n / d == q
  {
    var e := q - n / d;
    assert d * e == d * q - d * (n / d);
    assert n == d * (n / d) + n % d;
    assert d * e == n % d - r;
    assert e >= 1 ==> d * e >= d;
    assert e <= -1 ==> d * e <= -d;
  }

  /** `n` shifted right by `count` bits. */
  function Halved(n: nat, count: nat): nat
  {
    if count == 0 then n else Halved(n / 2, count - 1)
  }

  /** The high bits, then the low ones. */
  lemma {:induction false} BitsOfSplit(n: nat, high: nat, low: nat)
    ensures BitsOf(n, high + low) == BitsOf(Halved(n, low), high) + BitsOf(n, low)
  {
    if low > 0 {
      BitsOfSplit(n / 2, high, low - 1);
    }
  }

  lemma HalvedFour(n: nat, k: nat)
    requires k >= 4
    ensures Halved(n, k) == Halved(n / 16, k - 4)
  {
    assert Halved(n, k) == Halved(n / 2, k - 1) == Halved(n / 4, k - 2);
    assert Halved(n / 4, k - 2) == Halved(n / 8, k - 3) == Halved(n / 16, k - 4);
  }

  lemma HalvedByte(n: nat)
    ensures Halved(n, 8) == n / 256
  {
    hide Halved;
    HalvedFour(n, 8);
    HalvedFour(n / 16, 4);
    HalvedNone(n / 256);
  }

  lemma HalvedNone(n: nat)
    ensures Halved(n, 0) == n
  {}
}
