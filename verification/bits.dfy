/**
 * Bitwise operations on the bit patterns of non-negative Java `int`s, and the
 * facts about powers of two that the buddy-address rule of the route tree
 * relies on. A pattern is a natural number below 2^32; the pattern 2^31 is
 * the one of `Integer.MIN_VALUE`.
 */
module Bits {

  /** `a ^ b`, bit by bit from the least significant one. */
  function Xor(a: nat, b: nat): nat
    decreases a + b
  {
    if a == 0 && b == 0 then 0
    else 2 * Xor(a / 2, b / 2) + (if a % 2 == b % 2 then 0 else 1)
  }

  /** `a & b`, bit by bit from the least significant one. */
  function And(a: nat, b: nat): nat
    decreases a + b
  {
    if a == 0 || b == 0 then 0
    else 2 * And(a / 2, b / 2) + (if a % 2 == 1 && b % 2 == 1 then 1 else 0)
  }

  /** `x` has exactly one bit set. */
  predicate IsPow2(x: nat)
    decreases x
  {
    x == 1 || (x >= 2 && x % 2 == 0 && IsPow2(x / 2))
  }

  lemma {:induction false} XorSelf(a: nat)
    ensures Xor(a, a) == 0
    decreases a
  {
    if a != 0 {
      XorSelf(a / 2);
    }
  }

  lemma {:induction false} XorZeroOnlyForEqual(a: nat, b: nat)
    requires Xor(a, b) == 0
    ensures a == b
    decreases a + b
  {
    if a != 0 || b != 0 {
      XorZeroOnlyForEqual(a / 2, b / 2);
    }
  }

  lemma {:induction false} AndSelf(a: nat)
    ensures And(a, a) == a
    decreases a
  {
    if a != 0 {
      AndSelf(a / 2);
    }
  }

  lemma XorDouble(p: nat, q: nat)
    ensures Xor(2 * p, 2 * q) == 2 * Xor(p, q)
  {
  }

  lemma AndDoubleWithOdd(p: nat, q: nat)
    ensures And(2 * p + 1, 2 * q) == 2 * And(p, q)
  {
  }

  lemma MulDouble(a: nat, h: nat)
    ensures a * (2 * h) == 2 * (a * h)
  {
  }

  /** Shifting both operands left by the same amount shifts their xor. */
  lemma {:induction false} XorScaled(a: nat, b: nat, s: nat)
    requires IsPow2(s)
    ensures Xor(a * s, b * s) == Xor(a, b) * s
    decreases s
  {
    if s != 1 {
      var h := s / 2;
      assert s == 2 * h;
      XorScaled(a, b, h);
      MulDouble(a, h);
      MulDouble(b, h);
      MulDouble(Xor(a, b), h);
      XorDouble(a * h, b * h);
    }
  }

  /** Two neighbours differ in one bit exactly when the lower one is even. */
  lemma XorNeighbours(a: nat)
    ensures a % 2 == 0 ==> Xor(a, a + 1) == 1
    ensures a % 2 == 1 ==> Xor(a, a + 1) % 2 == 1 && Xor(a, a + 1) >= 3
  {
    var c := a / 2;
    if a % 2 == 0 {
      XorSelf(c);
    } else if Xor(c, c + 1) == 0 {
      XorZeroOnlyForEqual(c, c + 1);
    }
  }

  /** The Java test `(x & (x - 1)) == 0` recognises the powers of two among positive patterns. */
  lemma {:induction false} AndPredecessor(x: nat)
    requires x >= 1
    ensures And(x, x - 1) == 0 <==> IsPow2(x)
    decreases x
  {
    if x > 1 {
      var y := x / 2;
      if x % 2 == 0 {
        assert And(x, x - 1) == 2 * And(y, y - 1);
        AndPredecessor(y);
      } else {
        assert And(x, x - 1) == 2 * And(y, y);
        AndSelf(y);
      }
    }
  }

  /** An odd multiple of a power of two is a power of two only when the factor is one. */
  lemma {:induction false} OddFactorOfPow2(o: nat, s: nat)
    requires IsPow2(s) && o % 2 == 1 && IsPow2(o * s)
    ensures o == 1
    decreases s
  {
    if s != 1 {
      var h := s / 2;
      assert o * s == 2 * (o * h);
      OddFactorOfPow2(o, h);
    }
  }

  /** `(L - 1) & L` clears the lowest set bit of `L`: for `L == a * s`, `a` odd, that bit is `s`. */
  lemma {:induction false} ClearLowestBit(a: nat, s: nat)
    requires IsPow2(s) && a % 2 == 1
    ensures a * s >= 1 && And(a * s - 1, a * s) == (a - 1) * s
    decreases s
  {
    if s == 1 {
      AndSelf(a / 2);
    } else {
      var h := s / 2;
      ClearLowestBit(a, h);
      var p, r := a * h, (a - 1) * h;
      assert a * s == 2 * p && (a - 1) * s == 2 * r by {
        MulDouble(a, h);
        MulDouble(a - 1, h);
      }
      AndDoubleWithOdd(p - 1, p);
    }
  }

  /** Of two powers of two, the smaller divides the larger: `t == k * s`. */
  lemma {:induction false} Pow2Divides(s: nat, t: nat) returns (k: nat)
    requires IsPow2(s) && IsPow2(t) && s <= t
    ensures t == k * s
    decreases s
  {
    if s == 1 {
      k := t;
    } else {
      var h, g := s / 2, t / 2;
      assert s == 2 * h && t == 2 * g;
      k := Pow2Divides(h, g);
      MulDouble(k, h);
    }
  }

  lemma DoubleIsPow2(x: nat)
    requires IsPow2(x)
    ensures IsPow2(2 * x)
  {
  }

  /** The hash domain `[0, Integer.MAX_VALUE]` holds a power of two many values: 2^31, doubled up from 1. */
  lemma DomainSizeIsPow2()
    ensures IsPow2(0x8000_0000)
  {
    DoubleIsPow2(0x1); DoubleIsPow2(0x2); DoubleIsPow2(0x4); DoubleIsPow2(0x8);
    DoubleIsPow2(0x10); DoubleIsPow2(0x20); DoubleIsPow2(0x40); DoubleIsPow2(0x80);
    DoubleIsPow2(0x100); DoubleIsPow2(0x200); DoubleIsPow2(0x400); DoubleIsPow2(0x800);
    DoubleIsPow2(0x1000); DoubleIsPow2(0x2000); DoubleIsPow2(0x4000); DoubleIsPow2(0x8000);
    DoubleIsPow2(0x10000); DoubleIsPow2(0x20000); DoubleIsPow2(0x40000); DoubleIsPow2(0x80000);
    DoubleIsPow2(0x100000); DoubleIsPow2(0x200000); DoubleIsPow2(0x400000); DoubleIsPow2(0x800000);
    DoubleIsPow2(0x1000000); DoubleIsPow2(0x2000000); DoubleIsPow2(0x4000000); DoubleIsPow2(0x8000000);
    DoubleIsPow2(0x10000000); DoubleIsPow2(0x20000000); DoubleIsPow2(0x40000000);
  }
}
