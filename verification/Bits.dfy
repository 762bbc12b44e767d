// Bitwise operations on unsigned integers, and what they amount to in arithmetic.
module Bits {

  function Pow2(k: nat): (p: nat)
    ensures p >= 1
  {
    if k == 0 then 1 else 2 * Pow2(k - 1)
  }

  function And(a: nat, b: nat): nat {
    if a == 0 || b == 0 then 0
    else 2 * And(a / 2, b / 2) + (if a % 2 == 1 && b % 2 == 1 then 1 else 0)
  }

  function Or(a: nat, b: nat): nat
    decreases a + b
  {
    if a == 0 then b
    else if b == 0 then a
    else 2 * Or(a / 2, b / 2) + (if a % 2 == 1 || b % 2 == 1 then 1 else 0)
  }

  function Shr(a: nat, k: nat): nat {
    if k == 0 then a else Shr(a / 2, k - 1)
  }

  // Bits shifted beyond the width are lost.
  function Shl(a: nat, k: nat, width: nat): nat {
    (a * Pow2(k)) % Pow2(width)
  }

  lemma {:induction false} Pow2Adds(j: nat, k: nat)
    ensures Pow2(j + k) == Pow2(j) * Pow2(k)
  {
    if j > 0 {
      Pow2Adds(j - 1, k);
    }
  }

  lemma {:induction false} Pow2Ascends(j: nat, k: nat)
    requires j <= k
    ensures Pow2(j) <= Pow2(k)
  {
    if j < k {
      Pow2Ascends(j, k - 1);
    }
  }

  // Ones from bit k up to the width.
  function HighMask(k: nat, width: nat): nat
    requires k <= width
  {
    Pow2Ascends(k, width);
    Pow2(width) - Pow2(k)
  }

  // ---- Halving ----

  lemma OneMore(d: nat, x: nat)
    ensures d * (x + 1) == d * x + d
  {
  }

  lemma {:induction false} FarApart(d: nat, x: nat, y: nat)
    requires x < y
    ensures d * x + d <= d * y
    decreases y
  {
    OneMore(d, y - 1);
    if x < y - 1 {
      FarApart(d, x, y - 1);
    }
  }

  lemma QuotientUnique(a: nat, d: nat, q: nat, r: nat)
    requires d >= 1 && r < d && a == d * q + r
    ensures a / d == q && a % d == r
  {
    var p := a / d;
    assert a == d * p + a % d;
    if p < q {
      FarApart(d, p, q);
    } else if q < p {
      FarApart(d, q, p);
    }
  }

  lemma Doubled(m: nat, q: nat)
    ensures (2 * m) * q == 2 * (m * q) == m * (2 * q)
  {
  }

  lemma Halved(a: nat, m: nat)
    requires m >= 1
    ensures a % (2 * m) == 2 * ((a / 2) % m) + a % 2
    ensures a / (2 * m) == (a / 2) / m
  {
    var h := a / 2;
    var q, r := h / m, h % m;
    assert h == m * q + r;
    Doubled(m, q);
    assert a == (2 * m) * q + (2 * r + a % 2);
    QuotientUnique(a, 2 * m, q, 2 * r + a % 2);
  }

  // ---- What the operations amount to ----

  lemma OrDoubled(x: nat, b: nat)
    ensures Or(2 * x, b) == 2 * Or(x, b / 2) + b % 2
  {
  }

  // Filling in the zero bits below a shifted number adds.
  lemma {:induction false} OrAdds(a: nat, k: nat, b: nat)
    requires b < Pow2(k)
    ensures Or(a * Pow2(k), b) == a * Pow2(k) + b
  {
    if k > 0 {
      var y := Pow2(k - 1);
      assert Pow2(k) == 2 * y;
      OrAdds(a, k - 1, b / 2);
      hide *;
      Doubled(a, y);
      OrDoubled(a * y, b);
    }
  }

  lemma AndDoubled(a: nat, m: nat, bit: nat)
    requires bit < 2
    ensures And(a, 2 * m + bit) == 2 * And(a / 2, m) + (if bit == 1 then a % 2 else 0)
  {
    var b := 2 * m + bit;
    assert b / 2 == m && b % 2 == bit;
    if a == 0 || b == 0 {
      assert And(a / 2, m) == 0;
    } else {
      assert And(a, b) == 2 * And(a / 2, m) + (if a % 2 == 1 && bit == 1 then 1 else 0);
    }
  }

  // Masking the low bits is the remainder.
  lemma {:induction false} AndLow(a: nat, k: nat)
    ensures And(a, Pow2(k) - 1) == a % Pow2(k)
  {
    if k > 0 {
      var m := Pow2(k - 1);
      AndLow(a / 2, k - 1);
      assert Pow2(k) == 2 * m;
      hide *;
      AndDoubled(a, m - 1, 1);
      Halved(a, m);
    }
  }

  // Masking the high bits of a number of `width` bits clears the low k.
  lemma {:induction false} AndHigh(a: nat, k: nat, width: nat)
    requires k <= width && a < Pow2(width)
    ensures And(a, HighMask(k, width)) == Pow2(k) * (a / Pow2(k))
  {
    if k == 0 {
      AndLow(a, width);
      QuotientUnique(a, Pow2(width), 0, a);
    } else {
      var m := Pow2(k - 1);
      AndHigh(a / 2, k - 1, width - 1);
      assert HighMask(k, width) == 2 * HighMask(k - 1, width - 1) && Pow2(k) == 2 * m;
      hide *;
      AndDoubled(a, HighMask(k - 1, width - 1), 0);
      Halved(a, m);
      Doubled(m, (a / 2) / m);
    }
  }

  // Shifting right is dividing.
  lemma {:induction false} ShrDivides(a: nat, k: nat)
    ensures Shr(a, k) == a / Pow2(k)
  {
    if k > 0 {
      ShrDivides(a / 2, k - 1);
      Halved(a, Pow2(k - 1));
    }
  }
}
