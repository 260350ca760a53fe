/** Unsigned words of the C code as naturals: powers of two, bitwise operators and
    the facts about them that shifts and masks rely on. */
module Bits {

  function Pow2(k: nat): (p: nat)
    ensures p > 0
  {
    if k == 0 then 1 else 2 * Pow2(k - 1)
  }

  lemma {:induction false} Pow2Add(j: nat, k: nat)
    ensures Pow2(j + k) == Pow2(j) * Pow2(k)
  {
    if j == 0 {
    } else {
      Pow2Add(j - 1, k);
      assert Pow2(j) * Pow2(k) == 2 * (Pow2(j - 1) * Pow2(k));
    }
  }

  lemma {:induction false} Pow2Mono(j: nat, k: nat)
    requires j <= k
    ensures Pow2(j) <= Pow2(k)
  {
    if j < k {
      Pow2Mono(j, k - 1);
    }
  }

  /** The bitwise `&` of two unsigned words. */
  function And(x: nat, y: nat): nat
    decreases x + y
  {
    if x == 0 && y == 0 then 0
    else 2 * And(x / 2, y / 2) + (if x % 2 == 1 && y % 2 == 1 then 1 else 0)
  }

  /** The bitwise `|` of two unsigned words. */
  function Or(x: nat, y: nat): nat
    decreases x + y
  {
    if x == 0 && y == 0 then 0
    else 2 * Or(x / 2, y / 2) + (if x % 2 == 1 || y % 2 == 1 then 1 else 0)
  }

  lemma AndStep(p: nat, i: nat, q: nat, j: nat)
    requires i < 2 && j < 2
    ensures And(2 * p + i, 2 * q + j) == 2 * And(p, q) + (if i == 1 && j == 1 then 1 else 0)
  {
    assert (2 * p + i) / 2 == p && (2 * q + j) / 2 == q;
    if p == 0 && q == 0 {
      assert And(p, q) == 0;
    }
  }

  lemma OrStep(p: nat, i: nat, q: nat, j: nat)
    requires i < 2 && j < 2
    ensures Or(2 * p + i, 2 * q + j) == 2 * Or(p, q) + (if i == 1 || j == 1 then 1 else 0)
  {
    assert (2 * p + i) / 2 == p && (2 * q + j) / 2 == q;
    if p == 0 && q == 0 {
      assert Or(p, q) == 0;
    }
  }

  /** The unbounded left shift. */
  function Shl(x: nat, k: nat): nat {
    if k == 0 then x else 2 * Shl(x, k - 1)
  }

  lemma {:induction false} ShlScales(x: nat, k: nat)
    ensures Shl(x, k) == Pow2(k) * x
  {
    if k > 0 {
      ShlScales(x, k - 1);
      assert Pow2(k) * x == 2 * (Pow2(k - 1) * x);
    }
  }

  /** Words combine digit by digit: the low `k` bits never meet the rest. */
  lemma {:induction false} AndShl(k: nat, p: nat, x: nat, q: nat, y: nat)
    requires x < Pow2(k) && y < Pow2(k)
    ensures And(Shl(p, k) + x, Shl(q, k) + y) == Shl(And(p, q), k) + And(x, y)
  {
    hide And;
    if k == 0 {
      AndZero(0);
    } else {
      var u, v := Shl(p, k - 1) + x / 2, Shl(q, k - 1) + y / 2;
      AndShl(k - 1, p, x / 2, q, y / 2);
      AndStep(u, x % 2, v, y % 2);
      AndStep(x / 2, x % 2, y / 2, y % 2);
    }
  }

  lemma AndSplit(k: nat, p: nat, x: nat, q: nat, y: nat)
    requires x < Pow2(k) && y < Pow2(k)
    ensures And(Pow2(k) * p + x, Pow2(k) * q + y) == Pow2(k) * And(p, q) + And(x, y)
  {
    AndShl(k, p, x, q, y);
    ShlScales(p, k);
    ShlScales(q, k);
    ShlScales(And(p, q), k);
  }

  lemma {:induction false} OrShl(k: nat, p: nat, x: nat, q: nat, y: nat)
    requires x < Pow2(k) && y < Pow2(k)
    ensures Or(Shl(p, k) + x, Shl(q, k) + y) == Shl(Or(p, q), k) + Or(x, y)
  {
    hide Or;
    if k == 0 {
      OrZero(0);
    } else {
      var u, v := Shl(p, k - 1) + x / 2, Shl(q, k - 1) + y / 2;
      OrShl(k - 1, p, x / 2, q, y / 2);
      OrStep(u, x % 2, v, y % 2);
      OrStep(x / 2, x % 2, y / 2, y % 2);
    }
  }

  lemma OrSplit(k: nat, p: nat, x: nat, q: nat, y: nat)
    requires x < Pow2(k) && y < Pow2(k)
    ensures Or(Pow2(k) * p + x, Pow2(k) * q + y) == Pow2(k) * Or(p, q) + Or(x, y)
  {
    OrShl(k, p, x, q, y);
    ShlScales(p, k);
    ShlScales(q, k);
    ShlScales(Or(p, q), k);
  }

  lemma {:induction false} AndZero(x: nat)
    ensures And(x, 0) == 0 && And(0, x) == 0
  {
    if x > 0 {
      AndZero(x / 2);
    }
  }

  lemma {:induction false} OrZero(x: nat)
    ensures Or(x, 0) == x && Or(0, x) == x
  {
    if x > 0 {
      OrZero(x / 2);
    }
  }

  /** Masking with `k` ones keeps the low `k` bits. */
  lemma {:induction false} AndOnes(k: nat, x: nat)
    ensures And(x, Pow2(k) - 1) == x % Pow2(k)
  {
    hide And;
    if k == 0 {
      AndZero(x);
    } else {
      AndOnes(k - 1, x / 2);
      AndStep(x / 2, x % 2, Pow2(k - 1) - 1, 1);
      ModDouble(Pow2(k - 1), x);
    }
  }

  lemma {:induction false} OrOnes(k: nat, x: nat)
    requires x < Pow2(k)
    ensures Or(x, Pow2(k) - 1) == Pow2(k) - 1
  {
    if k == 0 {
    } else {
      OrOnes(k - 1, x / 2);
      OrStep(x / 2, x % 2, Pow2(k - 1) - 1, 1);
    }
  }

  lemma {:induction false} OrSymmetric(x: nat, y: nat)
    ensures Or(x, y) == Or(y, x)
    decreases x + y
  {
    if x == 0 && y == 0 {
    } else {
      OrSymmetric(x / 2, y / 2);
    }
  }

  lemma {:induction false} OrBound(k: nat, x: nat, y: nat)
    requires x < Pow2(k) && y < Pow2(k)
    ensures Or(x, y) < Pow2(k)
  {
    if k > 0 {
      OrBound(k - 1, x / 2, y / 2);
    }
  }

  /** Or-ing a value into the cleared low bits of a word adds it. */
  lemma OrLow(k: nat, p: nat, y: nat)
    requires y < Pow2(k)
    ensures Or(Pow2(k) * p, y) == Pow2(k) * p + y
  {
    OrSplit(k, p, 0, 0, y);
    OrZero(p);
    OrZero(y);
    assert Pow2(k) * 0 + y == y && Pow2(k) * p + 0 == Pow2(k) * p;
  }

  lemma ModDouble(P: nat, x: nat)
    requires P > 0
    ensures x % (2 * P) == 2 * ((x / 2) % P) + x % 2
    ensures x / (2 * P) == x / 2 / P
  {
    var h := x / 2;
    var q := h / P;
    assert h == P * q + h % P;
    assert 2 * (P * q) == 2 * P * q;
    ModUnique(x, 2 * P, q, 2 * (h % P) + x % 2);
  }

  lemma MulAtLeast(m: nat, d: int)
    ensures d >= 1 ==> m * d >= m
    ensures d <= -1 ==> m * d <= 0 - m
  {
    if d >= 1 {
      assert m * d == m + m * (d - 1);
    } else if d <= -1 {
      assert m * d == 0 - m + m * (d + 1);
    }
  }

  lemma MulOrder(m: nat, x: int, y: int)
    ensures x <= y ==> m * x <= m * y
    ensures x < y ==> m * x + m <= m * y
  {
    assert m * (y - x) == m * y - m * x;
    MulAtLeast(m, y - x);
  }

  lemma ModUnique(x: int, m: nat, q: int, r: int)
    requires m > 0 && x == m * q + r && 0 <= r < m
    ensures x / m == q && x % m == r
  {
    var q', r' := x / m, x % m;
    assert x == m * q' + r';
    assert m * (q - q') == r' - r;
    MulAtLeast(m, q - q');
  }
}
