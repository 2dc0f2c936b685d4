/**
 32-bit unsigned words and the C operators the kernel applies to them.

 A word is a natural number below 2^32. The bitwise operators are defined
 digit by digit in base two, so that no conversion to bit-vectors is needed;
 every operator is characterised by what it does to each single bit.
 */
module Words {

  type Word = w: int | 0 <= w < 0x1_0000_0000

  /** `1 << n` */
  function Pow2(n: nat): (r: nat)
    ensures r > 0
  {
    if n == 0 then 1 else 2 * Pow2(n - 1)
  }

  /** Bit `j` of `w`. */
  predicate Test(w: nat, j: nat)
  {
    if j == 0 then w % 2 == 1 else Test(w / 2, j - 1)
  }

  function Digit(b: bool): nat
  {
    if b then 1 else 0
  }

  /** `a & b` */
  function And(a: nat, b: nat): nat
  {
    if a == 0 then 0
    else 2 * And(a / 2, b / 2) + Digit(a % 2 == 1 && b % 2 == 1)
  }

  /** `a | b` */
  function Or(a: nat, b: nat): nat
    decreases a + b
  {
    if a == 0 && b == 0 then 0
    else 2 * Or(a / 2, b / 2) + Digit(a % 2 == 1 || b % 2 == 1)
  }

  /** `a & ~b` */
  function AndNot(a: nat, b: nat): nat
  {
    if a == 0 then 0
    else 2 * AndNot(a / 2, b / 2) + Digit(a % 2 == 1 && b % 2 == 0)
  }

  lemma {:induction false} TestZero(j: nat)
    ensures !Test(0, j)
  {
    if j > 0 { TestZero(j - 1); }
  }

  lemma {:induction false} TestPow2(n: nat, j: nat)
    ensures Test(Pow2(n), j) <==> n == j
  {
    if n == 0 {
      if j > 0 { TestZero(j - 1); }
    } else if j > 0 {
      assert Pow2(n) / 2 == Pow2(n - 1);
      TestPow2(n - 1, j - 1);
    }
  }

  lemma AndHalf(a: nat, b: nat)
    ensures And(a, b) / 2 == And(a / 2, b / 2) && (And(a, b) % 2 == 1 <==> a % 2 == 1 && b % 2 == 1)
  {
  }

  lemma {:induction false} TestAnd(a: nat, b: nat, j: nat)
    ensures Test(And(a, b), j) <==> Test(a, j) && Test(b, j)
    decreases j
  {
    hide And;
    AndHalf(a, b);
    if j > 0 { TestAnd(a / 2, b / 2, j - 1); }
  }

  lemma OrHalf(a: nat, b: nat)
    ensures Or(a, b) / 2 == Or(a / 2, b / 2) && (Or(a, b) % 2 == 1 <==> a % 2 == 1 || b % 2 == 1)
  {
  }

  lemma {:induction false} TestOr(a: nat, b: nat, j: nat)
    ensures Test(Or(a, b), j) <==> Test(a, j) || Test(b, j)
    decreases j
  {
    hide Or;
    OrHalf(a, b);
    if j > 0 { TestOr(a / 2, b / 2, j - 1); }
  }

  lemma AndNotHalf(a: nat, b: nat)
    ensures AndNot(a, b) / 2 == AndNot(a / 2, b / 2) && (AndNot(a, b) % 2 == 1 <==> a % 2 == 1 && b % 2 == 0)
  {
  }

  lemma {:induction false} TestAndNot(a: nat, b: nat, j: nat)
    ensures Test(AndNot(a, b), j) <==> Test(a, j) && !Test(b, j)
    decreases j
  {
    hide AndNot;
    AndNotHalf(a, b);
    if j > 0 { TestAndNot(a / 2, b / 2, j - 1); }
  }

  lemma {:induction false} AndBounds(a: nat, b: nat)
    ensures And(a, b) <= a && And(a, b) <= b
  {
    if a != 0 { AndBounds(a / 2, b / 2); }
  }

  /** `a & ~b` only ever removes bits of `a`. */
  lemma {:induction false} AndNotIsMinus(a: nat, b: nat)
    ensures AndNot(a, b) == a - And(a, b)
  {
    if a != 0 { AndNotIsMinus(a / 2, b / 2); }
  }

  lemma {:induction false} OrBound(a: nat, b: nat, n: nat)
    requires a < Pow2(n) && b < Pow2(n)
    ensures Or(a, b) < Pow2(n)
    decreases n
  {
    if n > 0 && (a != 0 || b != 0) { OrBound(a / 2, b / 2, n - 1); }
  }

  /** A word is non-zero exactly when one of its bits is set. */
  lemma {:induction false} SomeBit(w: nat, n: nat) returns (j: nat)
    requires 0 < w < Pow2(n)
    ensures j < n && Test(w, j)
    decreases n
  {
    if w % 2 == 1 {
      j := 0;
    } else {
      var i := SomeBit(w / 2, n - 1);
      j := i + 1;
      assert Test(w, j);
    }
  }

  lemma {:induction false} AllOnes(n: nat, j: nat)
    requires j < n
    ensures Test(Pow2(n) - 1, j)
  {
    if j > 0 {
      assert (Pow2(n) - 1) / 2 == Pow2(n - 1) - 1;
      AllOnes(n - 1, j - 1);
    }
  }

  lemma PowerOf32()
    ensures Pow2(32) == 0x1_0000_0000
  {
    assert Pow2(4) == 16;
    assert Pow2(8) == 256 by { assert Pow2(6) == 64; }
    assert Pow2(12) == 4096 by { assert Pow2(10) == 1024; }
    assert Pow2(16) == 65536 by { assert Pow2(14) == 16384; }
    assert Pow2(20) == 0x10_0000 by { assert Pow2(18) == 0x4_0000; }
    assert Pow2(24) == 0x100_0000 by { assert Pow2(22) == 0x40_0000; }
    assert Pow2(28) == 0x1000_0000 by { assert Pow2(26) == 0x400_0000; }
    assert Pow2(30) == 0x4000_0000;
  }

  lemma {:induction false} Pow2Monotone(m: nat, n: nat)
    requires m <= n
    ensures Pow2(m) <= Pow2(n)
    decreases n
  {
    if m < n { Pow2Monotone(m, n - 1); }
  }

  // ---- The three idioms the kernel uses on bit maps ----

  /** `w & (1 << j)` is non-zero. */
  lemma AndBit(w: nat, j: nat)
    ensures And(w, Pow2(j)) != 0 <==> Test(w, j)
  {
    TestAnd(w, Pow2(j), j);
    TestPow2(j, j);
    if And(w, Pow2(j)) == 0 {
      TestZero(j);
    } else {
      var n := Bound(w, Pow2(j));
      var i := SomeBit(And(w, Pow2(j)), n);
      TestAnd(w, Pow2(j), i);
      TestPow2(j, i);
    }
  }

  lemma {:induction false} Bound(w: nat, v: nat) returns (n: nat)
    ensures And(w, v) < Pow2(n)
    ensures w < Pow2(n)
    decreases w
  {
    if w == 0 {
      n := 0;
    } else {
      n := Bound(w / 2, v / 2);
      n := n + 1;
      AndBounds(w, v);
    }
  }

  /** `w | (1 << j)` sets bit `j` and no other. */
  lemma SetBit(w: Word, j: nat, k: nat)
    requires j < 32
    ensures Or(w, Pow2(j)) < 0x1_0000_0000
    ensures Test(Or(w, Pow2(j)), k) <==> k == j || Test(w, k)
  {
    PowerOf32();
    Pow2Strict(j, 32);
    OrBound(w, Pow2(j), 32);
    TestOr(w, Pow2(j), k);
    TestPow2(j, k);
  }

  lemma Pow2Strict(m: nat, n: nat)
    requires m < n
    ensures Pow2(m) < Pow2(n)
  {
    Pow2Monotone(m, n - 1);
  }

  /** `w & ~(1 << j)` clears bit `j` and no other. */
  lemma ClearBit(w: Word, j: nat, k: nat)
    ensures AndNot(w, Pow2(j)) <= w
    ensures Test(AndNot(w, Pow2(j)), k) <==> k != j && Test(w, k)
  {
    AndNotIsMinus(w, Pow2(j));
    TestAndNot(w, Pow2(j), k);
    TestPow2(j, k);
  }

  /** `(w & (1 << j)) == 1`: true for the lowest bit only. */
  lemma AndBitIsOne(w: nat, j: nat)
    ensures And(w, Pow2(j)) == 1 <==> j == 0 && Test(w, 0)
  {
    if w > 0 {
      if j == 0 {
        AndBounds(w / 2, 0);
      } else {
        assert Pow2(j) % 2 == 0;
      }
    }
  }

  lemma {:induction false} OrZero(a: nat)
    ensures Or(a, 0) == a
  {
    if a > 0 { OrZero(a / 2); }
  }

  /** Setting a lowest bit that is set already changes nothing. */
  lemma OrLowBit(a: nat)
    requires a % 2 == 1
    ensures Or(a, 1) == a
  {
    OrZero(a / 2);
  }
}
