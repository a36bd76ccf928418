/** Facts about division, products and remainders, and the size of a machine word. */
module Arithmetic {
  const WORD := 0x1_0000_0000_0000_0000    // 2 to the width of size_t and of unsigned long

  type Byte = nat

  function Max(a: nat, b: nat): nat { if a < b then b else a }

  function Min(a: nat, b: nat): nat { if a < b then a else b }

  lemma DivUnique(q: nat, r: nat, s: nat)
    requires r < s
    ensures (q * s + r) / s == q && (q * s + r) % s == r
  {
    var x := q * s + r;
    var d := x / s - q;
    assert x == x / s * s + x % s;
    assert d * s == x / s * s - q * s == r - x % s;
    assert d > 0 ==> d * s >= s;
    assert d < 0 ==> d * s <= 0 - s;
  }

  lemma AddMultiple(q: nat, s: nat, r: nat)
    requires s > 0
    ensures (q * s + r) / s == q + r / s && (q * s + r) % s == r % s
  {
    var y := r / s;
    assert r == y * s + r % s;
    assert q * s + r == (q + y) * s + r % s;
    DivUnique(q + y, r % s, s);
  }

  lemma DivDiv(x: nat, a: nat, b: nat)
    requires a > 0 && b > 0
    ensures a * b > 0 && x / a / b == x / (a * b)
  {
    var y := x / a;
    AddMultipleOf(y / b, y % b, a, x % a);
    assert y == y / b * b + y % b;
    assert x == y * a + x % a;
    Carry(y % b, b, a, x % a);
    DivUnique(y / b, y % b * a + x % a, a * b);
  }

  lemma AddMultipleOf(q: nat, r: nat, a: nat, s: nat)
    ensures forall b: nat :: (q * b + r) * a + s == q * (a * b) + (r * a + s)
  {
  }

  lemma Carry(r: nat, b: nat, a: nat, s: nat)
    requires r < b && s < a
    ensures a * b > 0 && r * a + s < a * b
  {
    assert r * a <= (b - 1) * a;
  }

  lemma SmallModulus(x: nat, m: nat)
    requires x < m
    ensures x % m == x && (x + m) % m == x
  {
    DivUnique(0, x, m);
    DivUnique(1, x, m);
  }

  /** A counter that is kept modulo `n`. */
  lemma ModNext(k: nat, n: nat)
    requires n > 0
    ensures (k + 1) % n == (k % n + 1) % n
  {
    var q, r := k / n, k % n;
    assert k == q * n + r;
    if r + 1 < n {
      DivUnique(q, r + 1, n);
      SmallModulus(r + 1, n);
    } else {
      assert k + 1 == (q + 1) * n + 0;
      DivUnique(q + 1, 0, n);
      SmallModulus(0, n);
    }
  }

  lemma TimesMonotone(i: nat, j: nat, x: nat)
    requires i <= j
    ensures i * x <= j * x
  {
  }

  function Power(b: nat, k: nat): (p: nat)
    ensures b > 0 ==> p > 0
  {
    if k == 0 then 1 else b * Power(b, k - 1)
  }

  lemma {:induction false} PowerMonotone(a: nat, b: nat, k: nat)
    requires a <= b
    ensures Power(a, k) <= Power(b, k)
  {
    if k > 0 {
      PowerMonotone(a, b, k - 1);
      TimesMonotone(a, b, Power(a, k - 1));
      TimesMonotone(Power(a, k - 1), Power(b, k - 1), b);
    }
  }
}
