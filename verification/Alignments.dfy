/** Multiples and power-of-two alignments, by subtraction so that no proof needs division. */
module Alignments {
  import opened Bytes
  import opened Leaves

  /** `x` is a multiple of `a`. */
  predicate Multiple(x: nat, a: nat) {
    x == 0 || (0 < a <= x && Multiple(x - a, a))
  }

  predicate Pow2(a: nat) {
    a == 1 || (a > 1 && a % 2 == 0 && Pow2(a / 2))
  }

  lemma {:induction false} MultipleAdd(x: nat, y: nat, a: nat)
    requires Multiple(x, a) && Multiple(y, a)
    ensures Multiple(x + y, a)
  {
    if x != 0 { MultipleAdd(x - a, y, a); }
  }

  lemma {:induction false} MultipleTrans(x: nat, b: nat, a: nat)
    requires Multiple(x, b) && Multiple(b, a)
    ensures Multiple(x, a)
  {
    if x != 0 {
      MultipleTrans(x - b, b, a);
      MultipleAdd(x - b, b, a);
    }
  }

  lemma {:induction false} MultipleTimes(k: nat, x: nat, a: nat)
    requires Multiple(x, a)
    ensures Multiple(k * x, a)
  {
    if k != 0 {
      MultipleTimes(k - 1, x, a);
      MultipleAdd((k - 1) * x, x, a);
      assert (k - 1) * x + x == k * x;
    } else {
      assert k * x == 0;
    }
  }

  lemma {:induction false} MultipleDouble(x: nat, a: nat)
    requires Multiple(x, a)
    ensures Multiple(2 * x, 2 * a)
  {
    if x != 0 { MultipleDouble(x - a, a); }
  }

  lemma {:induction false} MultipleOne(x: nat)
    ensures Multiple(x, 1)
  {
    if x != 0 { MultipleOne(x - 1); }
  }

  /** Of two powers of two the larger is a multiple of the smaller. */
  lemma {:induction false} Pow2Divides(a: nat, b: nat)
    requires Pow2(a) && Pow2(b) && a <= b
    ensures Multiple(b, a)
  {
    if a == 1 {
      MultipleOne(b);
    } else {
      Pow2Divides(a / 2, b / 2);
      MultipleDouble(b / 2, a / 2);
    }
  }

  /** Rounding up ends on a multiple, and moves nothing that already is one. */
  lemma {:induction false} AlignUpMultiple(x: nat, a: nat)
    requires a > 0
    ensures Multiple(AlignUp(x, a), a)
    ensures Multiple(x, a) ==> AlignUp(x, a) == x
  {
    if x > a {
      AlignUpMultiple(x - a, a);
    } else {
      assert Multiple(0, a) && (x < a && x != 0 ==> !Multiple(x, a));
    }
  }

  /** The least multiple: no multiple lies between. */
  lemma {:induction false} AlignUpLeast(x: nat, a: nat, y: nat)
    requires a > 0 && x <= y && Multiple(y, a)
    ensures AlignUp(x, a) <= y
  {
    if x > a {
      AlignUpLeast(x - a, a, y - a);
    }
  }

  /** Multiples are what the remainder test accepts. */
  lemma {:induction false} MultipleMod(x: nat, a: nat)
    requires a > 0
    ensures Multiple(x, a) <==> x % a == 0
  {
    if x >= a {
      MultipleMod(x - a, a);
      ModStep(x, a);
    } else if x != 0 {
      assert x % a == x;
    }
  }

  lemma ModStep(x: nat, a: nat)
    requires 0 < a <= x
    ensures x % a == (x - a) % a
  {
    var q, r := (x - a) / a, (x - a) % a;
    assert x == a * (q + 1) + r;
    DivisionUnique(x, a, q + 1, r);
  }
}
