/** Powers of two and the division facts that the bit-level codec relies on. */
module Arith {

  function Pow2(n: nat): (p: nat)
    ensures p >= 1
  {
    if n == 0 then 1 else 2 * Pow2(n - 1)
  }

  /** v shifted left by n bits. */
  function Shl(v: nat, n: nat): (r: nat)
  {
    if n == 0 then v else 2 * Shl(v, n - 1)
  }

  lemma {:induction false} ShlIsMul(v: nat, n: nat)
    ensures Shl(v, n) == v * Pow2(n)
  {
    if n > 0 {
      ShlIsMul(v, n - 1);
      MulDouble(v, Pow2(n - 1));
    }
  }

  lemma {:induction false} Pow2Add(a: nat, b: nat)
    ensures Pow2(a + b) == Pow2(a) * Pow2(b)
  {
    if b > 0 {
      Pow2Add(a, b - 1);
      assert Pow2(a + b) == 2 * Pow2(a + b - 1);
    }
  }

  lemma {:induction false} Pow2Monotone(a: nat, b: nat)
    requires a <= b
    ensures Pow2(a) <= Pow2(b)
  {
    if a < b {
      Pow2Monotone(a, b - 1);
    }
  }

  /** Division and remainder are determined by any decomposition v == q * d + r with 0 <= r < d. */
  lemma DivModUnique(v: int, d: int, q: int, r: int)
    requires d > 0 && 0 <= r < d && v == q * d + r
    ensures v / d == q && v % d == r
  {
    var q', r' := v / d, v % d;
    assert v == q' * d + r';
    assert (q' - q) * d == r - r' by {
      assert (q' - q) * d == q' * d - q * d;
    }
    if q' > q {
      MulAtLeast(q' - q, d);
      assert false;
    } else if q' < q {
      MulAtLeast(q - q', d);
      assert false;
    }
  }

  lemma MulAtLeast(a: int, d: int)
    requires a >= 1 && d > 0
    ensures a * d >= d
  {
    assert a * d == (a - 1) * d + d;
  }

  /** Dividing in two steps is dividing by the product. */
  lemma DivDiv(v: nat, a: nat, b: nat)
    requires a > 0 && b > 0
    ensures v / a / b == v / (a * b)
  {
    var q := v / a / b;
    var r := (v / a) % b;
    var r0 := v % a;
    assert v == (q * b + r) * a + r0;
    assert v == q * (a * b) + (r * a + r0);
    assert r * a + r0 < a * b by {
      assert r * a <= (b - 1) * a;
    }
    DivModUnique(v, a * b, q, r * a + r0);
  }

  /** The remainder modulo m * d seen through a division by d. */
  lemma ModOfDiv(v: nat, d: nat, m: nat)
    requires d > 0 && m > 0
    ensures (v / d) % m == (v % (m * d)) / d
  {
    var q := v / d;
    var r0 := v % d;
    var t := q / m;
    var u := q % m;
    assert v == (t * m + u) * d + r0;
    assert v == t * (m * d) + (u * d + r0);
    assert u * d + r0 < m * d by {
      assert u * d <= (m - 1) * d;
    }
    DivModUnique(v, m * d, t, u * d + r0);
    DivModUnique(u * d + r0, d, u, r0);
  }

  /** Taking a remainder by a multiple first does not change a smaller remainder. */
  lemma ModMod(v: nat, a: nat, b: nat)
    requires a > 0 && b > 0
    ensures (v % (a * b)) % a == v % a
  {
    var q := v / (a * b);
    var r := v % (a * b);
    assert v == q * (a * b) + r;
    assert v == (q * b + r / a) * a + r % a;
    DivModUnique(v, a, q * b + r / a, r % a);
  }

  /** Shifting left by n and adding a value below 2^n, then keeping m + n bits. */
  lemma ShiftAddMod(acc: nat, v: nat, n: nat, m: nat)
    requires v < Pow2(n)
    ensures (acc * Pow2(n) + v) % Pow2(m + n) == (acc % Pow2(m)) * Pow2(n) + v
  {
    Pow2Add(m, n);
    MulAddMod(acc, v, Pow2(m), Pow2(n));
  }

  lemma MulAddMod(acc: nat, v: nat, a: nat, b: nat)
    requires a > 0 && v < b
    ensures (acc * b + v) % (a * b) == (acc % a) * b + v
  {
    var q := acc / a;
    var r := acc % a;
    assert acc == q * a + r;
    assert acc * b == q * (a * b) + r * b by {
      assert acc * b == (q * a + r) * b == q * a * b + r * b;
    }
    assert r * b + v < a * b by {
      MulLe(r, a - 1, b);
      assert (a - 1) * b == a * b - b;
    }
    DivModUnique(acc * b + v, a * b, q, r * b + v);
  }

  lemma MulDouble(x: int, y: int)
    ensures 2 * (x * y) == x * (2 * y)
  {
  }

  lemma MulLe(x: int, y: int, b: int)
    requires x <= y && b >= 0
    ensures x * b <= y * b
  {
    assert y * b - x * b == (y - x) * b;
  }
}
