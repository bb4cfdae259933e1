/** Natural numbers as bit strings. */
module Bits {

  function Pow2(n: nat): (p: nat)
    ensures 0 < p
  {
    if n == 0 then 1 else 2 * Pow2(n - 1)
  }

  function ShiftRight(x: nat, n: nat): nat {
    if n == 0 then x else ShiftRight(x / 2, n - 1)
  }

  /** The n lowest bits of a number. */
  function LowBits(x: nat, n: nat): nat {
    if n == 0 then 0 else x % 2 + 2 * LowBits(x / 2, n - 1)
  }

  predicate Bit(x: nat, i: nat) {
    ShiftRight(x, i) % 2 == 1
  }

  lemma MulDouble(q: int, p: int)
    ensures q * (2 * p) == 2 * (q * p)
  {
  }

  lemma MulAssociates(a: int, b: int, c: int)
    ensures a * (b * c) == (a * b) * c
  {
  }

  lemma MulSuccessor(q: int, p: int)
    ensures (q + 1) * p == q * p + p
  {
  }

  lemma MulMono(a: int, b: int, c: nat)
    ensures a <= b ==> a * c <= b * c
  {
  }

  lemma SmallModulo(a: nat, b: nat)
    requires a < b
    ensures a % b == a
  {
  }

  lemma ModuloOnce(a: nat, b: nat)
    requires 0 < b
    ensures (a + b) % b == a % b
  {
    var q, r := a / b, a % b;
    MulSuccessor(q, b);
    assert a + b == (q + 1) * b + r;
    QuotientIs(a + b, q + 1, r, b);
  }

  lemma QuotientIs(a: nat, q: nat, r: nat, b: nat)
    requires r < b && a == q * b + r
    ensures a / b == q && a % b == r
  {
    var p := a / b;
    assert a == p * b + a % b;
    if p < q {
      MulMono(p + 1, q, b);
      MulSuccessor(p, b);
    } else if q < p {
      MulMono(q + 1, p, b);
      MulSuccessor(q, b);
    }
  }

  lemma {:induction false} Pow2Sum(a: nat, b: nat)
    ensures Pow2(a + b) == Pow2(a) * Pow2(b)
  {
    if a > 0 {
      Pow2Sum(a - 1, b);
      MulDouble(Pow2(b), Pow2(a - 1));
    }
  }

  lemma {:induction false} Recombined(x: nat, n: nat)
    ensures x == ShiftRight(x, n) * Pow2(n) + LowBits(x, n) && LowBits(x, n) < Pow2(n)
  {
    if n > 0 {
      Recombined(x / 2, n - 1);
      MulDouble(ShiftRight(x, n), Pow2(n - 1));
    }
  }

  lemma {:induction false} Stitched(q: nat, low: nat, n: nat)
    requires low < Pow2(n)
    ensures ShiftRight(q * Pow2(n) + low, n) == q && LowBits(q * Pow2(n) + low, n) == low
  {
    if n > 0 {
      var x := q * Pow2(n) + low;
      MulDouble(q, Pow2(n - 1));
      assert x / 2 == q * Pow2(n - 1) + low / 2 && x % 2 == low % 2;
      Stitched(q, low / 2, n - 1);
    }
  }

  /** A number is determined by its bits. */
  lemma {:induction false} SameBits(v: nat, w: nat, n: nat)
    requires v < Pow2(n) && w < Pow2(n)
    requires forall i :: 0 <= i < n ==> Bit(v, i) == Bit(w, i)
    ensures v == w
  {
    if n > 0 {
      assert Bit(v, 0) == Bit(w, 0);
      forall i | 0 <= i < n - 1
        ensures Bit(v / 2, i) == Bit(w / 2, i)
      {
        assert Bit(v, i + 1) == Bit(w, i + 1);
      }
      SameBits(v / 2, w / 2, n - 1);
    }
  }

  lemma {:induction false} ShiftedBelow(x: nat, n: nat, bound: nat)
    requires x < bound * Pow2(n)
    ensures ShiftRight(x, n) < bound
  {
    if n > 0 {
      MulDouble(bound, Pow2(n - 1));
      ShiftedBelow(x / 2, n - 1, bound);
    }
  }

  lemma {:induction false} Pow2Grows(a: nat, b: nat)
    requires a <= b
    ensures Pow2(a) <= Pow2(b)
  {
    if a < b {
      Pow2Grows(a, b - 1);
    }
  }

  lemma {:induction false} ShiftedTwice(x: nat, a: nat, b: nat)
    ensures ShiftRight(ShiftRight(x, a), b) == ShiftRight(x, a + b)
  {
    if a > 0 {
      ShiftedTwice(x / 2, a - 1, b);
    }
  }

  lemma {:induction false} LowBitsOfSmall(x: nat, n: nat)
    requires x < Pow2(n)
    ensures LowBits(x, n) == x
  {
    if n > 0 {
      LowBitsOfSmall(x / 2, n - 1);
    }
  }

  lemma {:induction false} LowBitsOfSum(x: nat, m: nat, n: nat)
    ensures LowBits(x + m * Pow2(n), n) == LowBits(x, n)
  {
    if n > 0 {
      MulDouble(m, Pow2(n - 1));
      assert (x + m * Pow2(n)) / 2 == x / 2 + m * Pow2(n - 1);
      LowBitsOfSum(x / 2, m, n - 1);
    }
  }

  lemma Pow2Of32()
    ensures Pow2(32) == 0x1_0000_0000
  {
    assert Pow2(8) == 256;
    Pow2Sum(8, 8);
    Pow2Sum(16, 16);
  }
}
