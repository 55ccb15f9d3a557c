/**
 What several components share: optional results, powers of two, division, and the bitwise operators
 of the source on unsigned machine words, which are natural numbers here.
 */
module Words {

  datatype Option<T> = None | Some(value: T)

  type Byte = b: nat | b < 256

  /** The low byte. */
  function Low(n: nat): Byte {
    n % 0x100
  }

  // ---------------------------------------------------------------- powers of two and division

  function Pow2(n: nat): (r: nat)
    ensures r > 0
  {
    if n == 0 then 1 else 2 * Pow2(n - 1)
  }

  lemma {:induction false} Pow2Sum(m: nat, n: nat)
    ensures Pow2(m + n) == Pow2(m) * Pow2(n)
  {
    if m > 0 {
      Pow2Sum(m - 1, n);
    }
  }

  lemma {:induction false} Pow2Monotone(m: nat, n: nat)
    requires m < n
    ensures 2 * Pow2(m) <= Pow2(n)
  {
    if m + 1 < n {
      Pow2Monotone(m, n - 1);
    }
  }

  lemma Euclid(i: nat, m: nat)
    requires m > 0
    ensures i == (i / m) * m + i % m && i % m < m && i / m >= 0
  {
  }

  lemma MulMonotone(p: nat, q: nat, m: nat)
    requires p <= q
    ensures p * m <= q * m
  {
    assert (q - p) * m >= 0;
  }

  lemma DivIs(a: nat, d: nat, q: nat, r: nat)
    requires a == d * q + r && r < d
    ensures a / d == q
  {
    Euclid(a, d);
    if a / d < q {
      MulMonotone(a / d + 1, q, d);
    } else if a / d > q {
      MulMonotone(q + 1, a / d, d);
    }
  }

  // ---------------------------------------------------------------- bitwise operators

  function Or(a: nat, b: nat): nat {
    if a == 0 && b == 0 then 0
    else 2 * Or(a / 2, b / 2) + (if a % 2 == 1 || b % 2 == 1 then 1 else 0)
  }

  function Xor(a: nat, b: nat): nat {
    if a == 0 && b == 0 then 0
    else 2 * Xor(a / 2, b / 2) + (if a % 2 != b % 2 then 1 else 0)
  }

  function And(a: nat, b: nat): nat {
    if a == 0 && b == 0 then 0
    else 2 * And(a / 2, b / 2) + (if a % 2 == 1 && b % 2 == 1 then 1 else 0)
  }

  lemma {:induction false} OrZero(a: nat)
    ensures Or(a, 0) == a
  {
    if a > 0 {
      OrZero(a / 2);
    }
  }

  /** Or-ing a field into the zeros below a multiple of 2^n adds it. */
  lemma {:induction false} OrBelow(high: nat, n: nat, low: nat)
    requires low < Pow2(n)
    ensures Or(high * Pow2(n), low) == high * Pow2(n) + low
  {
    if n == 0 {
      OrZero(high);
    } else {
      var h := Pow2(n - 1);
      assert high * Pow2(n) == 2 * (high * h);
      OrBelow(high, n - 1, low / 2);
    }
  }

  lemma {:induction false} OrBounded(a: nat, b: nat, n: nat)
    requires a < Pow2(n) && b < Pow2(n)
    ensures Or(a, b) < Pow2(n)
    ensures Or(a, b) % 2 == 1 <==> a % 2 == 1 || b % 2 == 1
  {
    if n > 0 && (a > 0 || b > 0) {
      OrBounded(a / 2, b / 2, n - 1);
    }
  }

  lemma {:induction false} OrAssoc(a: nat, b: nat, c: nat)
    ensures Or(Or(a, b), c) == Or(a, Or(b, c))
  {
    if a > 0 || b > 0 || c > 0 {
      OrAssoc(a / 2, b / 2, c / 2);
      assert Or(a, b) / 2 == Or(a / 2, b / 2) && Or(b, c) / 2 == Or(b / 2, c / 2);
    }
  }

  /** Bit k of a word. */
  predicate Bit(w: nat, k: nat) {
    if k == 0 then w % 2 == 1 else Bit(w / 2, k - 1)
  }

  lemma HalfDiv(size: int, k: nat)
    requires size >= 0
    ensures size / 2 / Pow2(k) == size / Pow2(k + 1)
  {
    var d := Pow2(k);
    var h := size / 2;
    Euclid(h, d);
    var q, r := h / d, h % d;
    assert size == (2 * d) * q + (2 * r + size % 2) by {
      assert size == 2 * h + size % 2;
      assert h == q * d + r;
    }
    DivIs(size, 2 * d, q, 2 * r + size % 2);
  }

  lemma {:induction false} BitIs(w: nat, k: nat)
    ensures Bit(w, k) <==> w / Pow2(k) % 2 == 1
  {
    if k > 0 {
      BitIs(w / 2, k - 1);
      HalfDiv(w, k - 1);
    }
  }

  lemma {:induction false} NoBit(k: nat)
    ensures !Bit(0, k)
  {
    if k > 0 {
      NoBit(k - 1);
    }
  }

  lemma {:induction false} OrBit(a: nat, b: nat, k: nat)
    ensures Bit(Or(a, b), k) <==> Bit(a, k) || Bit(b, k)
  {
    if a == 0 && b == 0 {
      NoBit(k);
    } else if k > 0 {
      OrBit(a / 2, b / 2, k - 1);
    }
  }

  lemma {:induction false} Pow2Bit(n: nat, k: nat)
    ensures Bit(Pow2(n), k) <==> k == n
  {
    if n == 0 {
      if k > 0 {
        NoBit(k - 1);
      }
    } else if k > 0 {
      Pow2Bit(n - 1, k - 1);
    }
  }
}
