// Machine words as natural numbers, with the bitwise operators defined on their binary digits
// and the few lemmas that turn a bit test into arithmetic.
module Bits {
  import opened Basics

  function Pow2(n: nat): (p: nat)
    ensures p > 0
  {
    if n == 0 then 1 else 2 * Pow2(n - 1)
  }

  const WORD: nat := 0x1_0000_0000_0000_0000

  /** Binary digit `i` of `x`. */
  predicate Bit(x: nat, i: nat) {
    if i == 0 then x % 2 == 1 else Bit(x / 2, i - 1)
  }

  function And(a: nat, b: nat): (r: nat)
    ensures r <= a && r <= b
  {
    if a == 0 || b == 0 then 0
    else 2 * And(a / 2, b / 2) + (if a % 2 == 1 && b % 2 == 1 then 1 else 0)
  }

  function Or(a: nat, b: nat): nat
    decreases a + b
  {
    if a == 0 then b else if b == 0 then a
    else 2 * Or(a / 2, b / 2) + (if a % 2 == 1 || b % 2 == 1 then 1 else 0)
  }

  function XorDigits(a: nat, b: nat): nat
    decreases a + b
  {
    if a == 0 then b else if b == 0 then a
    else 2 * XorDigits(a / 2, b / 2) + (if a % 2 != b % 2 then 1 else 0)
  }

  lemma {:induction false} XorBound(a: nat, b: nat, n: nat)
    requires a < Pow2(n) && b < Pow2(n)
    ensures XorDigits(a, b) < Pow2(n)
  {
    if n > 0 { XorBound(a / 2, b / 2, n - 1); }
  }

  function Xor(a: u64, b: u64): u64 {
    Pow2Values();
    XorBound(a, b, 64);
    XorDigits(a, b)
  }

  /** Complement of a 64-bit word. */
  function Not(a: u64): u64 {
    WORD - 1 - a
  }

  lemma {:induction false} BitAnd(a: nat, b: nat, i: nat)
    ensures Bit(And(a, b), i) <==> Bit(a, i) && Bit(b, i)
  {
    if a == 0 || b == 0 {
      BitZero(i);
    } else if i > 0 {
      BitAnd(a / 2, b / 2, i - 1);
      assert And(a, b) / 2 == And(a / 2, b / 2);
    }
  }

  lemma {:induction false} BitZero(i: nat)
    ensures !Bit(0, i)
  {
    if i > 0 { BitZero(i - 1); }
  }

  lemma {:induction false} BitOr(a: nat, b: nat, i: nat)
    ensures Bit(Or(a, b), i) <==> Bit(a, i) || Bit(b, i)
  {
    if a == 0 || b == 0 {
      BitZero(i);
    } else if i > 0 {
      BitOr(a / 2, b / 2, i - 1);
      assert Or(a, b) / 2 == Or(a / 2, b / 2);
    }
  }

  lemma {:induction false} OrBound(a: nat, b: nat, n: nat)
    requires a < Pow2(n) && b < Pow2(n)
    ensures Or(a, b) < Pow2(n)
  {
    if n > 0 { OrBound(a / 2, b / 2, n - 1); }
  }

  lemma {:induction false} BitPow2(i: nat, j: nat)
    ensures Bit(Pow2(i), j) <==> i == j
  {
    if i == 0 && j > 0 {
      BitZero(j - 1);
    } else if i > 0 && j > 0 {
      BitPow2(i - 1, j - 1);
    }
  }

  lemma {:induction false} Pow2Below(i: nat, n: nat)
    requires i < n
    ensures Pow2(i) < Pow2(n)
  {
    if i + 1 < n { Pow2Below(i, n - 1); }
  }

  /** Number of zero digits below the lowest one digit. */
  function TrailingZeros(x: nat): (n: nat)
    requires x > 0
    ensures Bit(x, n) && forall i: nat | i < n :: !Bit(x, i)
  {
    if x % 2 == 1 then 0 else 1 + TrailingZeros(x / 2)
  }

  lemma {:induction false} HighBitsClear(x: nat, n: nat, i: nat)
    requires x < Pow2(n) && n <= i
    ensures !Bit(x, i)
  {
    if n == 0 { BitZero(i); } else { HighBitsClear(x / 2, n - 1, i - 1); }
  }

  lemma {:induction false} BitXorDigits(a: nat, b: nat, i: nat)
    ensures Bit(XorDigits(a, b), i) <==> Bit(a, i) != Bit(b, i)
  {
    if a == 0 || b == 0 {
      BitZero(i);
    } else if i > 0 {
      BitXorDigits(a / 2, b / 2, i - 1);
      assert XorDigits(a, b) / 2 == XorDigits(a / 2, b / 2);
    }
  }

  lemma BitXor(a: u64, b: u64, i: nat)
    ensures Bit(Xor(a, b), i) <==> Bit(a, i) != Bit(b, i)
  {
    BitXorDigits(a, b, i);
  }

  lemma {:induction false} BitComplement(n: nat, a: nat, i: nat)
    requires a < Pow2(n) && i < n
    ensures Bit(Pow2(n) - 1 - a, i) <==> !Bit(a, i)
  {
    if i > 0 {
      BitComplement(n - 1, a / 2, i - 1);
      assert (Pow2(n) - 1 - a) / 2 == Pow2(n - 1) - 1 - a / 2;
    }
  }

  lemma {:induction false} Pow2Sum(a: nat, b: nat)
    ensures Pow2(a + b) == Pow2(a) * Pow2(b)
  {
    if a > 0 {
      Pow2Sum(a - 1, b);
      assert 2 * (Pow2(a - 1) * Pow2(b)) == 2 * Pow2(a - 1) * Pow2(b);
    }
  }

  lemma Pow2Values()
    ensures Pow2(4) == 0x10 && Pow2(5) == 0x20 && Pow2(7) == 0x80 && Pow2(8) == 0x100
    ensures Pow2(15) == 0x8000 && Pow2(16) == 0x1_0000
    ensures Pow2(31) == 0x8000_0000 && Pow2(32) == 0x1_0000_0000
    ensures Pow2(63) == 0x8000_0000_0000_0000 && Pow2(64) == WORD
  {
    assert Pow2(7) == 0x80;
    Pow2Sum(8, 7);
    Pow2Sum(16, 15);
    Pow2Sum(32, 31);
    assert Pow2(8) == 2 * Pow2(7) && Pow2(16) == 2 * Pow2(15) && Pow2(32) == 2 * Pow2(31) && Pow2(64) == 2 * Pow2(63);
  }

  lemma BitNot(a: u64, i: nat)
    requires i < 64
    ensures Bit(Not(a), i) <==> !Bit(a, i)
  {
    Pow2Values();
    BitComplement(64, a, i);
  }

  lemma MulAtLeast(k: nat, d: nat)
    requires k >= 1
    ensures k * d >= d
  {
  }

  lemma ModUnique(x: nat, d: nat, q: nat, m: nat)
    requires d > 0 && x == q * d + m && m < d
    ensures x % d == m && x / d == q
  {
    var q', m' := x / d, x % d;
    assert x == q' * d + m';
    assert (q' - q) * d == m - m' && (q - q') * d == m' - m;
    if q' < q {
      MulAtLeast(q - q', d);
    } else if q' > q {
      MulAtLeast(q' - q, d);
    }
  }

  lemma ModDouble(x: nat, p: nat)
    requires p > 0
    ensures x % (2 * p) == 2 * (x / 2 % p) + x % 2
  {
    var h := x / 2;
    var q, m := h / p, h % p;
    assert h == q * p + m;
    assert x == q * (2 * p) + (2 * m + x % 2);
    ModUnique(x, 2 * p, q, 2 * m + x % 2);
  }

  /** Digit `i` is the top one of the lowest `i + 1` digits. */
  lemma {:induction false} BitIsMod(x: nat, i: nat)
    ensures Bit(x, i) <==> x % Pow2(i + 1) >= Pow2(i)
  {
    if i > 0 {
      BitIsMod(x / 2, i - 1);
      ModDouble(x, Pow2(i));
    }
  }

  lemma AndStep(x: nat, mask: nat)
    requires mask % 2 == 1
    ensures And(x, mask) == 2 * And(x / 2, mask / 2) + x % 2
  {
  }

  lemma {:induction false} AndMask(x: nat, n: nat)
    ensures And(x, Pow2(n) - 1) == x % Pow2(n)
    decreases n
  {
    if n == 0 {
    } else {
      var p := Pow2(n - 1);
      AndMask(x / 2, n - 1);
      ModDouble(x, p);
      AndStep(x, 2 * p - 1);
      assert (2 * p - 1) / 2 == p - 1;
    }
  }

  lemma {:induction false} AndPow2(x: nat, i: nat)
    ensures And(x, Pow2(i)) != 0 <==> Bit(x, i)
  {
    if x == 0 {
      BitZero(i);
    } else if i > 0 {
      AndPow2(x / 2, i - 1);
    }
  }
}
