/**
 * Siblings and merging in the route tree: `siblingNode`, `isSiblingSplit`,
 * `isSiblingAvailable`, `sibling` and the map that `merge` leaves behind.
 *
 * Every range of a well-formed route map is a halving block (see
 * `Partition.Dyadic`); its sibling is the other half of the block it was
 * split from. `Buddy` states that directly on numbers, and
 * `SiblingNodeIsBuddy` shows that the bit arithmetic of `siblingNode`
 * computes it.
 */
module Siblings {
  import opened Wrappers
  import opened JavaInt
  import opened Bits
  import opened Partition

  // ---------------------------------------------------------------------
  // Aligned blocks

  lemma MulMonotone(a: int, b: int, d: int)
    requires a <= b && d >= 0
    ensures a * d <= b * d
  {
    assert b * d - a * d == (b - a) * d;
  }

  lemma MulCancelLess(a: int, b: int, d: int)
    requires d > 0 && a * d < b * d
    ensures a < b
  {
    if a >= b {
      MulMonotone(b, a, d);
    }
  }

  lemma DivExact(x: int, d: int)
    requires d > 0 && x % d == 0
    ensures x == (x / d) * d
  {
  }

  lemma MulSucc(a: int, d: int)
    ensures (a + 1) * d == a * d + d && (a - 1) * d == a * d - d
  {
  }

  lemma MulAdd(a: int, b: int, d: int)
    ensures (a + b) * d == a * d + b * d
  {
  }

  lemma MulAssoc(a: int, b: int, c: int)
    ensures (a * b) * c == a * (b * c)
  {
  }

  /** Two multiples of `t` less than `t` apart are equal. */
  lemma AlignedSameStart(x: int, y: int, t: int)
    requires t > 0 && x % t == 0 && y % t == 0 && y <= x < y + t
    ensures x == y
  {
    var i, j := x / t, y / t;
    assert i < j + 1 by {
      DivExact(x, t);
      DivExact(y, t);
      MulSucc(j, t);
      MulCancelLess(i, j + 1, t);
    }
    assert j + 1 > i by {
      DivExact(x, t);
      DivExact(y, t);
      if j < i {
        MulMonotone(j, i, t);
      }
    }
    assert i == j by {
      if j < i {
        DivExact(x, t);
        DivExact(y, t);
        MulMonotone(j + 1, i, t);
        MulSucc(j, t);
      }
    }
    DivExact(x, t);
    DivExact(y, t);
  }

  /** A multiple of `s` is a multiple of every `t` that divides `s`. */
  lemma MultipleOfDivisor(x: int, s: int, t: int, k: int)
    requires t > 0 && s == k * t && s > 0 && x % s == 0
    ensures x % t == 0
  {
    var i := x / s;
    assert x == i * s == (i * k) * t;
    MulDivMod(i * k, t);
  }

  /**
   * An aligned block of size `s` that starts inside an aligned block of a
   * larger power-of-two size `t` lies wholly inside it.
   */
  lemma AlignedNest(x: int, s: nat, y: int, t: nat)
    requires IsPow2(s) && IsPow2(t) && s <= t
    requires x % s == 0 && y % t == 0 && y <= x < y + t
    ensures x + s <= y + t
  {
    var k := Pow2Divides(s, t);
    var i, j := x / s, y / t;
    var q := j * k;
    assert x == i * s by { DivExact(x, s); }
    assert y + t == (q + k) * s by {
      DivExact(y, t);
      MulAssoc(j, k, s);
      MulAdd(q, k, s);
    }
    assert i + 1 <= q + k by { MulCancelLess(i, q + k, s); }
    assert x + s <= y + t by {
      MulMonotone(i + 1, q + k, s);
      MulSucc(i, s);
    }
  }

  /** The only odd multiple of a power of two that is the domain size is the power itself. */
  lemma OddFactorOfDomain(o: int, s: nat)
    requires IsPow2(s) && o % 2 == 1 && o * s == DOMAIN_SIZE
    ensures o == 1
  {
    DomainSizeIsPow2();
    OddFactorOfPow2(o, s);
  }

  /** Power-of-two blocks tile the domain: a block that starts inside it ends inside it. */
  lemma NextBlockInDomain(b: int, s: nat)
    requires IsPow2(s) && 1 <= b && b * s < DOMAIN_SIZE
    ensures (b + 1) * s <= DOMAIN_SIZE
  {
    MulAtLeast(b, s);
    DomainSizeIsPow2();
    var k := Pow2Divides(s, DOMAIN_SIZE);
    MulCancelLess(b, k, s);
    MulMonotone(b + 1, k, s);
  }

  // ---------------------------------------------------------------------
  // The sibling of a halving block

  /**
   * The other half of the block that `[L, U]` is a half of: the next block
   * of the same size when `[L, U]` is an even-numbered (lower) half, the
   * previous one when it is an odd-numbered (upper) half. The whole domain
   * is no half; its "sibling" would start at 2^31, which Java writes as the
   * sentinel `MIN_VALUE`.
   */
  function Buddy(L: int, U: int): int
    requires 0 <= L && Dyadic(L, U)
  {
    var s := U - L + 1;
    if (L / s) % 2 == 0 then (if L + s == DOMAIN_SIZE then MIN_VALUE else L + s)
    else L - s
  }

  /** The buddy differs from the block itself; it is the sentinel exactly for the whole domain. */
  lemma BuddyIsOther(L: int, U: int)
    requires 0 <= L && Dyadic(L, U) && U <= MAX_VALUE
    ensures Buddy(L, U) != L
    ensures Buddy(L, U) == MIN_VALUE <==> L == 0 && U == MAX_VALUE
  {
    var s := U - L + 1;
    if (L / s) % 2 == 0 {
      if L + s == DOMAIN_SIZE {
        LastBlockIsDomain(L, s);
      }
    } else {
      PreviousBlock(L, s);
    }
  }

  /**
   * Any other buddy is a halving block of the same size inside the domain,
   * right after or right before `[L, U]`.
   */
  lemma BuddyIsBlock(L: int, U: int)
    requires 0 <= L && Dyadic(L, U) && U <= MAX_VALUE
    ensures var B, s := Buddy(L, U), U - L + 1;
      B != MIN_VALUE ==>
        && 0 <= B && B + s - 1 <= MAX_VALUE
        && (B == U + 1 || B + s == L)
        && Dyadic(B, B + s - 1)
  {
    var s := U - L + 1;
    if (L / s) % 2 == 0 {
      if L + s < DOMAIN_SIZE {
        NextBlockFits(L, s);
        NextBlockAligned(L, s);
      }
    } else {
      PreviousBlock(L, s);
    }
  }

  /** The buddy of the buddy is the block itself. */
  lemma BuddyOfBuddy(L: int, U: int)
    requires 0 <= L && Dyadic(L, U) && U <= MAX_VALUE
    ensures var B, s := Buddy(L, U), U - L + 1;
      B != MIN_VALUE ==> 0 <= B && Dyadic(B, B + s - 1) && Buddy(B, B + s - 1) == L
  {
    var s := U - L + 1;
    BuddyIsBlock(L, U);
    if (L / s) % 2 == 0 {
      if L + s < DOMAIN_SIZE {
        NextBlockOdd(L, s);
      }
    } else {
      PreviousBlock(L, s);
      NextBlockOdd(L - s, s);
    }
  }

  /** A block and its buddy together form the halving block of twice the size. */
  lemma BuddyUnion(L: int, U: int)
    requires 0 <= L && Dyadic(L, U) && U <= MAX_VALUE
    ensures var B, s := Buddy(L, U), U - L + 1;
      B != MIN_VALUE ==>
        var lo := if B < L then B else L;
        Dyadic(lo, lo + 2 * s - 1)
  {
    var s := U - L + 1;
    if (L / s) % 2 == 0 {
      EvenMultipleAligned(L, s);
    } else {
      PreviousBlock(L, s);
      EvenMultipleAligned(L - s, s);
    }
  }

  lemma LastBlockIsDomain(L: int, s: nat)
    requires IsPow2(s) && L % s == 0 && (L / s) % 2 == 0 && L + s == DOMAIN_SIZE
    ensures L == 0
  {
    var a := L / s;
    DivExact(L, s);
    MulSucc(a, s);
    OddFactorOfDomain(a + 1, s);
  }

  lemma NextBlockFits(L: int, s: nat)
    requires 0 <= L && IsPow2(s) && L % s == 0 && L + s < DOMAIN_SIZE
    ensures L + 2 * s <= DOMAIN_SIZE
  {
    var a := L / s;
    DivExact(L, s);
    MulSucc(a, s);
    NextBlockInDomain(a + 1, s);
    MulSucc(a + 1, s);
  }

  lemma NextBlockAligned(L: int, s: nat)
    requires s > 0 && L % s == 0
    ensures (L + s) % s == 0
  {
    var a := L / s;
    DivExact(L, s);
    MulSucc(a, s);
    MulDivMod(a + 1, s);
  }

  lemma NextBlockOdd(L: int, s: nat)
    requires s > 0 && L % s == 0 && (L / s) % 2 == 0
    ensures ((L + s) / s) % 2 == 1
  {
    var a := L / s;
    DivExact(L, s);
    MulSucc(a, s);
    MulDivMod(a + 1, s);
  }

  lemma EvenMultipleAligned(L: int, s: nat)
    requires IsPow2(s) && L % s == 0 && (L / s) % 2 == 0
    ensures IsPow2(2 * s) && L % (2 * s) == 0
  {
    var a := L / s;
    DivExact(L, s);
    MulAssoc(a / 2, 2, s);
    MulDivMod(a / 2, 2 * s);
  }

  lemma PreviousBlock(L: int, s: nat)
    requires 0 <= L && s > 0 && L % s == 0 && (L / s) % 2 == 1
    ensures s <= L && (L - s) % s == 0 && ((L - s) / s) % 2 == 0
  {
    var a := L / s;
    DivExact(L, s);
    MulAtLeast(a, s);
    MulSucc(a, s);
    MulDivMod(a - 1, s);
  }

  /**
   * The bit arithmetic of `siblingNode` on the bounds `[L, U]` of a range.
   * The bit operations act on the two's-complement patterns of their
   * operands read as unsigned numbers: for non-negative bounds these are the
   * values themselves, and `U + 1`, which overflows to `MIN_VALUE` for the
   * last range, has the pattern 2^31. `(x & (x - 1)) == 0` holds when `x` is
   * 0 or a power of two; `(L - 1) & L` clears the lowest set bit of `L`, and
   * is 0 for `L == 0`.
   */
  function BitSibling(L: int, U: int): int
    requires 0 <= L <= U <= MAX_VALUE
  {
    var x := Xor(L, U + 1);
    if x == 0 || And(x, x - 1) == 0 then Wrap(U + 1)
    else if L == 0 then 0 else And(L - 1, L)
  }

  /** `siblingNode(L)`: the bit arithmetic on the bounds of the range keyed by `L`. */
  function SiblingNode<T>(m: RouteMap<T>, L: int): int
    requires L in m && 0 <= L <= m[L].upperBound <= MAX_VALUE
  {
    BitSibling(L, m[L].upperBound)
  }

  /** For a lower half `L ^ (L + s)` is the block size `s`, a power of two. */
  lemma LowerHalfBits(a: nat, s: nat)
    requires IsPow2(s) && a % 2 == 0
    ensures Xor(a * s, (a + 1) * s) == s && s >= 1 && And(s, s - 1) == 0
  {
    XorScaled(a, a + 1, s);
    XorNeighbours(a);
    AndPredecessor(s);
  }

  /**
   * For an upper half `L ^ (L + s)` is an odd multiple of `s` larger than
   * `s`, so no power of two, and clearing the lowest bit of `L` gives `L - s`.
   */
  lemma UpperHalfBits(a: nat, s: nat)
    requires IsPow2(s) && a % 2 == 1
    ensures var x := Xor(a * s, (a + 1) * s); x >= 1 && And(x, x - 1) != 0
    ensures a * s >= 1 && And(a * s - 1, a * s) == (a - 1) * s
  {
    XorScaled(a, a + 1, s);
    XorNeighbours(a);
    OddMultipleIsNoPow2(Xor(a, a + 1), s);
    ClearLowestBit(a, s);
  }

  lemma OddMultipleIsNoPow2(o: nat, s: nat)
    requires IsPow2(s) && o % 2 == 1 && o >= 3
    ensures o * s >= 1 && And(o * s, o * s - 1) != 0
  {
    MulAtLeast(o, s);
    if IsPow2(o * s) {
      OddFactorOfPow2(o, s);
    }
    AndPredecessor(o * s);
  }

  lemma LowerHalfBitsAt(L: int, s: nat)
    requires 0 <= L && IsPow2(s) && L % s == 0 && (L / s) % 2 == 0
    ensures Xor(L, L + s) == s && s >= 1 && And(s, s - 1) == 0
  {
    var a := L / s;
    DivExact(L, s);
    MulSucc(a, s);
    LowerHalfBits(a, s);
  }

  lemma UpperHalfBitsAt(L: int, s: nat)
    requires 0 <= L && IsPow2(s) && L % s == 0 && (L / s) % 2 == 1
    ensures var x := Xor(L, L + s); x >= 1 && And(x, x - 1) != 0
    ensures L >= 1 && And(L - 1, L) == L - s
  {
    var a := L / s;
    DivExact(L, s);
    MulSucc(a, s);
    UpperHalfBits(a, s);
  }

  /**
   * On a halving block the bit arithmetic of `siblingNode` finds the buddy:
   * `L ^ (U + 1)` is the block size exactly when the block is a lower half,
   * so the result is `U + 1`; for an upper half clearing the lowest bit of
   * `L` steps back one block.
   */
  lemma BitSiblingIsBuddy(L: int, U: int)
    requires 0 <= L && Dyadic(L, U) && U <= MAX_VALUE
    ensures BitSibling(L, U) == Buddy(L, U)
  {
    var s := U - L + 1;
    if (L / s) % 2 == 0 {
      LowerHalfBitsAt(L, s);
      BitSiblingOfLowerHalf(L, U);
      BuddyOfLowerHalf(L, U);
    } else {
      UpperHalfBitsAt(L, s);
      BitSiblingOfUpperHalf(L, U);
      BuddyOfUpperHalf(L, U);
    }
  }

  lemma BitSiblingOfLowerHalf(L: int, U: int)
    requires 0 <= L <= U <= MAX_VALUE
    requires Xor(L, U + 1) == U - L + 1 && And(U - L + 1, U - L) == 0
    ensures BitSibling(L, U) == Wrap(U + 1)
  {
  }

  lemma BitSiblingOfUpperHalf(L: int, U: int)
    requires 0 < L <= U <= MAX_VALUE
    requires Xor(L, U + 1) >= 1 && And(Xor(L, U + 1), Xor(L, U + 1) - 1) != 0
    requires And(L - 1, L) == L - (U - L + 1)
    ensures BitSibling(L, U) == L - (U - L + 1)
  {
  }

  lemma BuddyOfLowerHalf(L: int, U: int)
    requires 0 <= L && Dyadic(L, U) && U <= MAX_VALUE && (L / (U - L + 1)) % 2 == 0
    ensures Buddy(L, U) == Wrap(U + 1)
  {
  }

  lemma BuddyOfUpperHalf(L: int, U: int)
    requires 0 <= L && Dyadic(L, U) && (L / (U - L + 1)) % 2 == 1
    ensures Buddy(L, U) == L - (U - L + 1)
  {
  }

  /** `siblingNode(L)` is the buddy of the range keyed by `L`, and so never `L` itself. */
  lemma SiblingNodeIsBuddy<T>(m: RouteMap<T>, L: int)
    requires L in m && 0 <= L && m[L].upperBound <= MAX_VALUE && Dyadic(L, m[L].upperBound)
    ensures SiblingNode(m, L) == Buddy(L, m[L].upperBound)
    ensures SiblingNode(m, L) != L
  {
    BitSiblingIsBuddy(L, m[L].upperBound);
    BuddyIsOther(L, m[L].upperBound);
  }

  // ---------------------------------------------------------------------
  // Siblings in a route map

  /**
   * The block of size `s` before a range that is an upper half starts a
   * range of its own: a range starting at or before it that reached past it
   * would be a larger aligned block and so would reach past `L` as well.
   */
  lemma LeftBuddyPresent<T>(m: RouteMap<T>, L: int, s: nat)
    requires WellFormed(m) && L in m && IsPow2(s) && s <= L
    requires (L - s) % s == 0 && (L - s) % (2 * s) == 0
    ensures L - s in m
  {
    var x := L - s;
    FloorFindsRange(m, x);
    var O := FloorKey(m, x).value;
    AlignedBlockBefore(L, s, O, Size(m, O));
  }

  /**
   * An aligned block of size `so` holding the first value of the
   * even-numbered block `[L - s, L)` either starts exactly there or reaches
   * at least to `L`.
   */
  lemma AlignedBlockBefore(L: int, s: nat, O: int, so: nat)
    requires IsPow2(s) && IsPow2(so) && s <= L
    requires (L - s) % s == 0 && (L - s) % (2 * s) == 0
    requires O % so == 0 && O <= L - s < O + so
    ensures O == L - s || L < O + so
  {
    var x := L - s;
    if so > s {
      assert IsPow2(2 * s);
      assert 2 * s <= so by {
        var k := Pow2Divides(s, so);
        MulCancelLess(1, k, s);
        MulMonotone(2, k, s);
      }
      AlignedNest(x, 2 * s, O, so);
    } else {
      var k := Pow2Divides(so, s);
      MultipleOfDivisor(x, s, so, k);
      AlignedSameStart(x, O, so);
    }
  }

  /**
   * In a well-formed map `siblingNode` never leaves the map: its result is
   * the sentinel (for the whole domain only) or a lower bound, either the
   * one right after the range or the one a block before it.
   */
  lemma SiblingPresent<T>(m: RouteMap<T>, L: int)
    requires WellFormed(m) && L in m
    ensures var S := SiblingNode(m, L);
      && S != L
      && (S == MIN_VALUE <==> L == 0 && m[L].upperBound == MAX_VALUE)
      && (S != MIN_VALUE ==> S in m && (S == Next(m, L) || S + Size(m, L) == L))
  {
    var U := m[L].upperBound;
    assert Size(m, L) == U - L + 1;
    SiblingNodeIsBuddy(m, L);
    BuddyIsOther(L, U);
    BuddyIsBlock(L, U);
    BuddyUnion(L, U);
    var S := Buddy(L, U);
    if S != MIN_VALUE {
      if S == U + 1 {
        assert Next(m, L) == S;
      } else {
        LeftBuddyPresent(m, L, U - L + 1);
      }
    }
  }

  /**
   * `isSiblingSplit(S, L)`: for a sibling after `L`, whether its length
   * differs from the distance between the two lower bounds; for a sibling
   * before `L`, whether it ends anywhere but right before `L`.
   */
  predicate IsSiblingSplit<T>(m: RouteMap<T>, S: int, L: int)
    requires S in m
  {
    var SU := m[S].upperBound;
    if S > L then SU - S != S - 1 - L else SU != L - 1
  }

  /** `isSiblingAvailable(L)`: the sibling exists (is no sentinel) and is not split. */
  predicate IsSiblingAvailable<T>(m: RouteMap<T>, L: int)
    requires WellFormed(m) && L in m
  {
    SiblingPresent(m, L);
    var S := SiblingNode(m, L);
    S >= 0 && !IsSiblingSplit(m, S, L)
  }

  /**
   * A range's sibling is available exactly when it is a range of the map of
   * the same size; the two ranges are then adjacent.
   */
  lemma SiblingAvailableIff<T>(m: RouteMap<T>, L: int)
    requires WellFormed(m) && L in m
    ensures var S := SiblingNode(m, L);
      IsSiblingAvailable(m, L) <==> S != MIN_VALUE && S in m && Size(m, S) == Size(m, L)
    ensures var S := SiblingNode(m, L);
      IsSiblingAvailable(m, L) ==> S == Next(m, L) || Next(m, S) == L
  {
    SiblingPresent(m, L);
  }

  /** `sibling(L)`: the sibling's target, none when there is no sibling or it is split. */
  function Sibling<T>(m: RouteMap<T>, L: int): (r: Option<T>)
    requires WellFormed(m) && L in m
    ensures r.Some? <==> IsSiblingAvailable(m, L)
    ensures r.Some? ==> var S := SiblingNode(m, L);
      && S in m && S != L && Size(m, S) == Size(m, L)
      && r.value == m[S].target
  {
    SiblingPresent(m, L);
    var S := SiblingNode(m, L);
    if S == MIN_VALUE || IsSiblingSplit(m, S, L) then None
    else
      SiblingAvailableIff(m, L);
      SiblingNodeIsBuddy(m, L);
      Some(m[S].target)
  }

  /** The whole-domain range of a new tree has no sibling. */
  lemma RootHasNoSibling<T>(t: T)
    ensures SiblingNode(Root(t), 0) == MIN_VALUE
    ensures !IsSiblingAvailable(Root(t), 0) && Sibling(Root(t), 0).None?
  {
    SiblingPresent(Root(t), 0);
  }

  /** Siblings are mutual: an available sibling has `L` as its own available sibling. */
  lemma SiblingSymmetric<T>(m: RouteMap<T>, L: int)
    requires WellFormed(m) && L in m && IsSiblingAvailable(m, L)
    ensures var S := SiblingNode(m, L);
      S in m && IsSiblingAvailable(m, S) && SiblingNode(m, S) == L
  {
    SiblingAvailableIff(m, L);
    var U := m[L].upperBound;
    var S := SiblingNode(m, L);
    assert Size(m, L) == U - L + 1;
    SiblingNodeIsBuddy(m, L);
    BuddyOfBuddy(L, U);
    assert Size(m, S) == U - L + 1;
    SiblingNodeIsBuddy(m, S);
    SiblingAvailableIff(m, S);
  }

  // ---------------------------------------------------------------------
  // Merging

  /** Joining a range with the range right after it keeps the partition. */
  lemma JoinPreservesPartition<T>(m: RouteMap<T>, lo: int, t: T)
    requires IsPartition(m) && lo in m && m[lo].upperBound < MAX_VALUE
    ensures Next(m, lo) in m
    ensures IsPartition((m - {Next(m, lo)})[lo := Node(m[Next(m, lo)].upperBound, t)])
  {
    var hi := Next(m, lo);
    var m' := (m - {hi})[lo := Node(m[hi].upperBound, t)];
    forall x | x in m'
      ensures 0 <= x <= m'[x].upperBound <= MAX_VALUE
      ensures m'[x].upperBound < MAX_VALUE ==> Next(m', x) in m'
    {
      if x == lo {
        assert Next(m', x) == Next(m, hi);
      } else {
        assert m'[x] == m[x] && Next(m', x) == Next(m, x);
      }
    }
    forall x, y | x in m' && y in m' && x < y
      ensures m'[x].upperBound < y
    {
      if x != lo {
        assert m'[x] == m[x];
      }
    }
  }

  /**
   * The map `merge(L)` leaves behind when the sibling `S` is available: the
   * higher of the two lower bounds is gone and the lower one spans both
   * ranges with the sibling's target.
   */
  function MergedMap<T>(m: RouteMap<T>, L: int): RouteMap<T>
    requires WellFormed(m) && L in m && IsSiblingAvailable(m, L)
  {
    SiblingPresent(m, L);
    var S := SiblingNode(m, L);
    var lo := if S < L then S else L;
    var hi := if S < L then L else S;
    (m - {hi})[lo := Node(m[hi].upperBound, m[S].target)]
  }

  /**
   * `merge` keeps the invariant: the two halves become the block they were
   * split from, of twice the size, bound to the sibling's target, and the
   * higher lower bound is no longer a key.
   */
  lemma MergePreservesWellFormed<T>(m: RouteMap<T>, L: int)
    requires WellFormed(m) && L in m && IsSiblingAvailable(m, L)
    ensures var S := SiblingNode(m, L); var lo := if S < L then S else L;
      var m' := MergedMap(m, L);
      && S in m && WellFormed(m')
      && lo in m' && Size(m', lo) == 2 * Size(m, L) && m'[lo].target == m[S].target
      && (if S < L then L else S) !in m'
  {
    SiblingAvailableIff(m, L);
    var U := m[L].upperBound;
    var S := SiblingNode(m, L);
    var lo := if S < L then S else L;
    var hi := if S < L then L else S;
    assert hi == Next(m, lo);
    JoinPreservesPartition(m, lo, m[S].target);
    var m' := MergedMap(m, L);
    assert m' == (m - {hi})[lo := Node(m[hi].upperBound, m[S].target)];
    assert Size(m, L) == U - L + 1;
    SiblingNodeIsBuddy(m, L);
    BuddyIsBlock(L, U);
    BuddyUnion(L, U);
    assert Size(m, S) == U - L + 1;
    JoinPreservesDyadic(m, lo, hi, m[S].target);
    assert m'[lo] == Node(lo + 2 * (U - L + 1) - 1, m[S].target);
  }

  /** `merge` removes exactly one lower bound, the higher of `L` and its sibling. */
  lemma MergeKeys<T>(m: RouteMap<T>, L: int)
    requires WellFormed(m) && L in m && IsSiblingAvailable(m, L)
    ensures var S := SiblingNode(m, L);
      MergedMap(m, L).Keys == m.Keys - {if S < L then L else S}
  {
    SiblingPresent(m, L);
  }

  /** Replacing two ranges by one halving block keeps every range a halving block. */
  lemma JoinPreservesDyadic<T>(m: RouteMap<T>, lo: int, hi: int, t: T)
    requires AllDyadic(m) && lo in m && hi in m && Dyadic(lo, m[hi].upperBound)
    ensures AllDyadic((m - {hi})[lo := Node(m[hi].upperBound, t)])
  {
    var m' := (m - {hi})[lo := Node(m[hi].upperBound, t)];
    forall x | x in m'
      ensures Dyadic(x, m'[x].upperBound)
    {
      if x != lo {
        assert m'[x] == m[x] && Size(m', x) == Size(m, x);
      }
    }
  }

  /**
   * After `merge(L)` the hash values of both ranges go to the sibling's
   * target and every other hash value is routed as before.
   */
  lemma MergeRoutes<T>(m: RouteMap<T>, L: int, key: int)
    requires WellFormed(m) && L in m && IsSiblingAvailable(m, L) && InDomain(key)
    ensures IsPartition(MergedMap(m, L)) && SiblingNode(m, L) in m
    ensures var S := SiblingNode(m, L);
      Route(MergedMap(m, L), key) ==
        if Contains(m, L, key) || Contains(m, S, key) then m[S].target else Route(m, key)
  {
    MergePreservesWellFormed(m, L);
    SiblingAvailableIff(m, L);
    var S := SiblingNode(m, L);
    var lo := if S < L then S else L;
    var hi := if S < L then L else S;
    var m' := MergedMap(m, L);
    assert m' == (m - {hi})[lo := Node(m[hi].upperBound, m[S].target)];
    FloorFindsRange(m, key);
    var owner := FloorKey(m, key).value;
    if owner == L || owner == S {
      assert Contains(m', lo, key);
      GetTargetIsRouteOfRange(m', lo, key);
    } else {
      assert m'[owner] == m[owner];
      GetTargetIsRouteOfRange(m', owner, key);
      GetTargetIsRouteOfRange(m, owner, key);
    }
  }

  /**
   * `split(L, t)` followed by `merge` of the returned lower bound restores
   * the map, and the merge reports `L`; merging `L` instead also joins the
   * halves again, under the new target `t`. The two halves are each other's
   * siblings.
   */
  lemma MergeUndoesSplit<T>(m: RouteMap<T>, L: int, t: T)
    requires WellFormed(m) && L in m && CanBeSplit(m, L)
    ensures var m', N := SplitMap(m, L, t), Midpoint(L, m[L].upperBound) + 1;
      && WellFormed(m') && L in m' && N in m'
      && SiblingNode(m', N) == L && SiblingNode(m', L) == N
      && IsSiblingAvailable(m', N) && MergedMap(m', N) == m
      && IsSiblingAvailable(m', L) && MergedMap(m', L) == m[L := Node(m[L].upperBound, t)]
  {
    SplitPreservesWellFormed(m, L, t);
    var U := m[L].upperBound;
    var mid := Midpoint(L, U);
    var N := mid + 1;
    var m' := SplitMap(m, L, t);
    assert m' == m[L := Node(mid, m[L].target)][N := Node(U, t)];
    assert Size(m, L) == U - L + 1;
    var h := N - L;
    assert Size(m', L) == h && Size(m', N) == h;
    HalvesAligned(L, h);
    SiblingNodeIsBuddy(m', L);
    BuddyOfBuddy(L, mid);
    SiblingNodeIsBuddy(m', N);
    SiblingAvailableIff(m', L);
    SiblingAvailableIff(m', N);
    assert MergedMap(m', N) == m;
    assert MergedMap(m', L) == m[L := Node(U, t)];
  }
}
