/** Facts about multiplication and whole-page division that the solver does
    not find on its own: sizes in the loader are counted in bytes but move
    in whole pages. */
module Arith {
  lemma MulStep(k: nat, d: nat)
    ensures (k + 1) * d == d + k * d
  {
  }

  lemma MulMono(a: int, b: int, d: nat)
    ensures a <= b ==> a * d <= b * d
  {
  }

  /** Quotient and remainder are the only ones. */
  lemma DivUnique(x: nat, d: nat, q: nat, r: nat)
    requires d > 0 && r < d && x == q * d + r
    ensures x / d == q && x % d == r
  {
    var p := x / d;
    var s := x % d;
    assert x == p * d + s;
    assert (q - p) * d == s - r;
    MulMono(1, q - p, d);
    MulMono(1, p - q, d);
  }

  /** A multiple of `d` divides back exactly. */
  lemma MulDiv(q: nat, d: nat)
    requires d > 0
    ensures (q * d) / d == q && (q * d) % d == 0
  {
    DivUnique(q * d, d, q, 0);
  }

  /** Taking `d` away takes one away from the quotient. */
  lemma DivStep(x: nat, d: nat)
    requires d > 0 && x >= d
    ensures x / d == (x - d) / d + 1
  {
    var q := (x - d) / d;
    var r := (x - d) % d;
    assert x == (q + 1) * d + r;
    DivUnique(x, d, q + 1, r);
  }

  lemma ModAdd(a: nat, d: nat)
    requires d > 0 && a % d == 0
    ensures (a + d) % d == 0
  {
    var q := a / d;
    assert a == q * d;
    assert a + d == (q + 1) * d;
    MulDiv(q + 1, d);
  }

  lemma ModSub(b: nat, a: nat, d: nat)
    requires d > 0 && a % d == 0 && b % d == 0 && a <= b
    ensures (b - a) % d == 0
  {
    var qa := a / d;
    var qb := b / d;
    assert a == qa * d && b == qb * d;
    assert qa <= qb by {
      MulMono(qb + 1, qa, d);
    }
    assert b - a == (qb - qa) * d;
    MulDiv(qb - qa, d);
  }

  /** Below a multiple of `d`, the next multiple of `d` still fits. */
  lemma ModGap(a: nat, b: nat, d: nat)
    requires d > 0 && a % d == 0 && b % d == 0 && a < b
    ensures a + d <= b
  {
    var qa := a / d;
    var qb := b / d;
    assert a == qa * d && b == qb * d;
    assert qa < qb by {
      MulMono(qb, qa, d);
    }
    MulMono(qa + 1, qb, d);
  }

  /** `ceil(x / d)`: the least `q` with `q * d >= x`. */
  function CeilDiv(x: nat, d: nat): (q: nat)
    requires d > 0
    ensures q * d >= x && (q == 0 || (q - 1) * d < x)
    ensures x > 0 ==> q >= 1
  {
    var q := (x + d - 1) / d;
    assert q * d >= x by { assert (x + d - 1) % d < d; }
    q
  }

  /** An amount within `b` multiples of `d` takes at most `b` of them. */
  lemma CeilBelow(x: nat, d: nat, b: nat)
    requires d > 0 && x <= b * d
    ensures CeilDiv(x, d) <= b
  {
    var q := CeilDiv(x, d);
    if q > b {
      MulMono(b, q - 1, d);
    }
  }

  /** An amount of at least `a` multiples of `d` takes at least `a` of them. */
  lemma CeilAbove(x: nat, d: nat, a: nat)
    requires d > 0 && a * d <= x
    ensures a <= CeilDiv(x, d)
  {
    var q := CeilDiv(x, d);
    if a > q {
      MulMono(q + 1, a, d);
      MulStep(q, d);
    }
  }

  lemma MulSub(a: nat, b: nat, d: nat)
    requires b <= a
    ensures (a - b) * d == a * d - b * d
  {
  }

  lemma CeilStep(x: nat, d: nat)
    requires d > 0 && x > d
    ensures CeilDiv(x, d) == CeilDiv(x - d, d) + 1
  {
    DivStep(x + d - 1, d);
    assert x + d - 1 - d == (x - d) + d - 1;
  }
}
