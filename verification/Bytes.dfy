/** Byte strings, in-place overwriting, and the endian integer codec of `src/wire.rs`. */
module Bytes {
  type Byte = b: int | 0 <= b < 256

  datatype Order = Little | Big

  /** One integer wire: its width in bytes, its alignment on the target and its byte order.
      A native wire is the one whose order is the target's. */
  datatype Wire = Wire(width: nat, align: nat, order: Order)

  predicate AllZero(b: seq<Byte>) {
    forall i :: 0 <= i < |b| ==> b[i] == 0
  }

  function Zeros(n: nat): (z: seq<Byte>)
    ensures |z| == n && AllZero(z)
  {
    seq(n, _ => 0)
  }

  /** `b` with the bytes from `at` on replaced by `x`. */
  function Splice(b: seq<Byte>, at: nat, x: seq<Byte>): (r: seq<Byte>)
    requires at + |x| <= |b|
    ensures |r| == |b|
    ensures r[at..at + |x|] == x
    ensures forall i :: 0 <= i < |b| && !(at <= i < at + |x|) ==> r[i] == b[i]
  {
    b[..at] + x + b[at + |x|..]
  }

  lemma SpliceSelf(b: seq<Byte>, at: nat, n: nat)
    requires at + n <= |b|
    ensures Splice(b, at, b[at..at + n]) == b
  {}

  /** A splice leaves every range beside it alone. */
  lemma SpliceAside(b: seq<Byte>, at: nat, x: seq<Byte>, lo: nat, hi: nat)
    requires at + |x| <= |b| && lo <= hi <= |b|
    requires hi <= at || at + |x| <= lo
    ensures Splice(b, at, x)[lo..hi] == b[lo..hi]
  {}

  /** A slice of a slice is a slice. */
  lemma Slices(b: seq<Byte>, lo: nat, n: nat, o: nat, k: nat)
    requires lo + n <= |b| && o + k <= n
    ensures b[lo..lo + n][o..o + k] == b[lo + o..lo + o + k]
  {
    var x, y := b[lo..lo + n][o..o + k], b[lo + o..lo + o + k];
    forall i | 0 <= i < |x| ensures x[i] == y[i] {}
  }

  // ----- the integer codec -----

  function Pow256(n: nat): (p: nat)
    ensures p >= 1
  {
    if n == 0 then 1 else 256 * Pow256(n - 1)
  }

  function LoadLittle(b: seq<Byte>): (n: nat)
    ensures n < Pow256(|b|)
  {
    if b == [] then 0 else b[0] + 256 * LoadLittle(b[1..])
  }

  function StoreLittle(n: nat, width: nat): (b: seq<Byte>)
    ensures |b| == width
  {
    if width == 0 then [] else [n % 256] + StoreLittle(n / 256, width - 1)
  }

  function Reverse(b: seq<Byte>): (r: seq<Byte>)
    ensures |r| == |b| && forall i :: 0 <= i < |b| ==> r[i] == b[|b| - 1 - i]
  {
    seq(|b|, i requires 0 <= i < |b| => b[|b| - 1 - i])
  }

  function Load(order: Order, b: seq<Byte>): (n: nat)
    ensures n < Pow256(|b|)
  {
    LoadLittle(if order == Little then b else Reverse(b))
  }

  function Store(w: Wire, n: nat): (b: seq<Byte>)
    ensures |b| == w.width
  {
    var le := StoreLittle(n, w.width);
    if w.order == Little then le else Reverse(le)
  }

  lemma {:induction false} LoadStoreLittle(n: nat, width: nat)
    requires n < Pow256(width)
    ensures LoadLittle(StoreLittle(n, width)) == n
  {
    if width != 0 {
      LoadStoreLittle(n / 256, width - 1);
      assert StoreLittle(n, width)[1..] == StoreLittle(n / 256, width - 1);
    }
  }

  lemma {:induction false} StoreLoadLittle(b: seq<Byte>)
    ensures StoreLittle(LoadLittle(b), |b|) == b
  {
    if b != [] {
      StoreLoadLittle(b[1..]);
      assert LoadLittle(b) % 256 == b[0] && LoadLittle(b) / 256 == LoadLittle(b[1..]);
    }
  }

  /** Every representable value survives a store and a load, in either byte order. */
  lemma LoadStore(w: Wire, n: nat)
    requires n < Pow256(w.width)
    ensures Load(w.order, Store(w, n)) == n
  {
    LoadStoreLittle(n, w.width);
    assert Reverse(Reverse(StoreLittle(n, w.width))) == StoreLittle(n, w.width);
  }

  /** Storing what was loaded changes no byte. */
  lemma StoreLoad(w: Wire, b: seq<Byte>)
    requires |b| == w.width
    ensures Store(w, Load(w.order, b)) == b
  {
    StoreLoadLittle(b);
    StoreLoadLittle(Reverse(b));
    assert Reverse(Reverse(b)) == b;
  }

  lemma {:induction false} LoadLittleZero(b: seq<Byte>)
    ensures LoadLittle(b) == 0 <==> AllZero(b)
  {
    if b != [] {
      LoadLittleZero(b[1..]);
      assert AllZero(b) <==> b[0] == 0 && AllZero(b[1..]) by {
        assert forall i :: 1 <= i < |b| ==> b[i] == b[1..][i - 1];
      }
    }
  }

  /** Zero is the value of the all-zero wire and of no other. */
  lemma LoadZero(order: Order, b: seq<Byte>)
    ensures Load(order, b) == 0 <==> AllZero(b)
  {
    LoadLittleZero(b);
    LoadLittleZero(Reverse(b));
    if AllZero(Reverse(b)) {
      forall i | 0 <= i < |b| ensures b[i] == 0 {
        assert b[i] == Reverse(b)[|b| - 1 - i];
      }
    }
  }

  // ----- what each byte means -----

  /** The power of 256 byte `i` counts: the first byte is the least significant in little-endian order, the
      last one in big-endian order. */
  function Weight(order: Order, width: nat, i: nat): (e: nat)
    requires i < width
    ensures e < width
  {
    if order == Little then i else width - 1 - i
  }

  /** Every stored byte is the base-256 digit of the number at its weight. */
  lemma StoreAt(w: Wire, n: nat, i: nat)
    requires i < w.width
    ensures Store(w, n)[i] == n / Pow256(Weight(w.order, w.width, i)) % 256
  {
    StoreLittleAt(n, w.width, Weight(w.order, w.width, i));
  }

  lemma {:induction false} StoreLittleAt(n: nat, width: nat, i: nat)
    requires i < width
    ensures StoreLittle(n, width)[i] == n / Pow256(i) % 256
  {
    if i != 0 {
      StoreLittleAt(n / 256, width - 1, i - 1);
      DivideTwice(n, Pow256(i - 1));
    }
  }

  lemma DivideTwice(n: nat, p: nat)
    requires p > 0
    ensures n / 256 / p == n / (256 * p)
  {
    var q, r := n / 256 / p, n / 256 % p;
    assert n / 256 == p * q + r by { Divided(n / 256, p); }
    assert p * q * 256 == 256 * p * q by { Regroup(q, 256, p); }
    DivisionUnique(n, 256 * p, q, 256 * r + n % 256);
  }

  lemma Divided(x: nat, a: nat)
    requires a > 0
    ensures x == a * (x / a) + x % a
  {}

  lemma Regroup(x: nat, y: nat, z: nat)
    ensures x * (y * z) == z * x * y == y * z * x
  {}

  lemma DivisionUnique(x: nat, a: nat, q: nat, r: nat)
    requires a > 0 && x == a * q + r && r < a
    ensures x / a == q && x % a == r
  {
    var d: int, e: int := x / a - q, 0 - a;
    assert d >= 1 ==> a * d >= a;
    assert d <= -1 ==> a * d <= e;
    assert a * d == r - x % a;
  }

  /** The sum of the first `k` bytes, each times its power of 256. */
  function Sum(order: Order, b: seq<Byte>, k: nat): nat
    requires k <= |b|
  {
    if k == 0 then 0 else Sum(order, b, k - 1) + b[k - 1] * Pow256(Weight(order, |b|, k - 1))
  }

  /** A loaded number is the sum of its bytes, each at its weight. */
  lemma LoadSum(order: Order, b: seq<Byte>)
    ensures Load(order, b) == Sum(order, b, |b|)
  {
    if order == Little {
      LoadLittleSum(b, 0);
      assert b[0..] == b;
    } else {
      LoadBigSum(b, |b|);
      assert b[..|b|] == b;
    }
  }

  /** Little-endian: what the bytes from `k` on add. */
  lemma {:induction false} LoadLittleSum(b: seq<Byte>, k: nat)
    requires k <= |b|
    ensures Sum(Little, b, |b|) == Sum(Little, b, k) + LoadLittle(b[k..]) * Pow256(k)
    decreases |b| - k
  {
    if k < |b| {
      LoadLittleSum(b, k + 1);
      assert b[k..][1..] == b[k + 1..];
      OneDigit(b[k], LoadLittle(b[k + 1..]), Pow256(k));
    }
  }

  lemma OneDigit(digit: nat, rest: nat, p: nat)
    ensures (digit + 256 * rest) * p == digit * p + rest * (256 * p)
  {}

  /** Big-endian: the first `k` bytes are the number they load, shifted past the rest. */
  lemma {:induction false} LoadBigSum(b: seq<Byte>, k: nat)
    requires k <= |b|
    ensures Sum(Big, b, k) == LoadLittle(Reverse(b[..k])) * Pow256(|b| - k)
  {
    if k != 0 {
      LoadBigSum(b, k - 1);
      assert Reverse(b[..k])[1..] == Reverse(b[..k - 1]);
      OneDigit(b[k - 1], LoadLittle(Reverse(b[..k - 1])), Pow256(|b| - k));
    }
  }
}
