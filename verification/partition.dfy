/**
 * The range partition behind `RouteTree` (OutputRouter.java), as a value: a
 * map from each range's lower bound to its node `{upperBound, target}`,
 * which the Java code keeps in a `TreeMap`. The ranges split the hash domain
 * `[0, Integer.MAX_VALUE]`. This module holds the read-only operations, the
 * split step and the partition invariant; siblings and merging are in
 * module Siblings.
 */
module Partition {
  import opened Wrappers
  import opened JavaInt
  import opened Bits

  /** Number of hash values: the domain is `[0, Integer.MAX_VALUE]`. */
  const DOMAIN_SIZE: int := 0x8000_0000

  /** A range `[lowerBound, upperBound]`; its lower bound is its key in the map. */
  datatype Node<T> = Node(upperBound: int, target: T)

  type RouteMap<T> = map<int, Node<T>>

  predicate InDomain(k: int)
  {
    0 <= k <= MAX_VALUE
  }

  /** The range keyed by `L` holds `key`. */
  ghost predicate Contains<T>(m: RouteMap<T>, L: int, key: int)
  {
    L in m && L <= key <= m[L].upperBound
  }

  /** Number of hash values in the range keyed by `L`. */
  function Size<T>(m: RouteMap<T>, L: int): int
    requires L in m
  {
    m[L].upperBound - L + 1
  }

  /** The hash value just after the range keyed by `L`. */
  function Next<T>(m: RouteMap<T>, L: int): int
    requires L in m
  {
    m[L].upperBound + 1
  }

  /**
   * The ranges cover the domain exactly, without gaps or overlaps: the first
   * range starts at 0, each range that does not end the domain is followed by
   * a range starting right after it, and a range ends before any range with a
   * larger lower bound starts.
   */
  ghost predicate IsPartition<T>(m: RouteMap<T>)
  {
    && 0 in m
    && (forall L :: L in m ==> 0 <= L <= m[L].upperBound <= MAX_VALUE)
    && (forall L {:trigger Next(m, L)} :: L in m && m[L].upperBound < MAX_VALUE ==> Next(m, L) in m)
    && (forall L, L' :: L in m && L' in m && L < L' ==> m[L].upperBound < L')
  }

  /** `[L, U]` is a block of the repeated halving of the domain: its size is a power of two and divides `L`. */
  predicate Dyadic(L: int, U: int)
  {
    L <= U && IsPow2(U - L + 1) && L % (U - L + 1) == 0
  }

  /**
   * Every range is a halving block. (The quantifier fires only on `Size`
   * terms, which keeps the arithmetic of `Dyadic` out of proofs that do not
   * ask about sizes.)
   */
  ghost predicate AllDyadic<T>(m: RouteMap<T>)
  {
    forall L {:trigger Size(m, L)} :: L in m ==> Dyadic(L, m[L].upperBound)
  }

  /** The invariant of every route tree: a partition into halving blocks. */
  ghost predicate WellFormed<T>(m: RouteMap<T>)
  {
    IsPartition(m) && AllDyadic(m)
  }

  /** The tree that `new RouteTree(target)` builds: one range over the whole domain. */
  function Root<T>(target: T): (m: RouteMap<T>)
    ensures WellFormed(m)
    ensures forall key :: InDomain(key) ==> Contains(m, 0, key)
  {
    DomainSizeIsPow2();
    var m := map[0 := Node(MAX_VALUE, target)];
    assert Size(m, 0) == DOMAIN_SIZE;
    m
  }

  /**
   * `TreeMap.floorEntry(key)`: the greatest key of `m` not above `key`. Keys
   * below 0 are not considered; no route map has any.
   */
  function FloorKey<T>(m: RouteMap<T>, key: int): (r: Option<int>)
    decreases key
    ensures r.Some? ==> r.value in m && 0 <= r.value <= key
    ensures r.Some? ==> forall L :: L in m && L <= key ==> L <= r.value
    ensures r.None? ==> forall L :: L in m && 0 <= L ==> key < L
  {
    if key < 0 then None
    else if key in m then Some(key)
    else FloorKey(m, key - 1)
  }

  /** Under the partition the floor lookup of a hash value finds the one range that holds it. */
  lemma FloorFindsRange<T>(m: RouteMap<T>, key: int)
    requires IsPartition(m) && InDomain(key)
    ensures FloorKey(m, key).Some? && Contains(m, FloorKey(m, key).value, key)
    ensures forall L :: Contains(m, L, key) ==> L == FloorKey(m, key).value
  {
    var owner := FloorKey(m, key).value;
    assert m[owner].upperBound < MAX_VALUE ==> Next(m, owner) in m;
  }

  /** `route`: the target of the range found by the floor lookup of `key`. */
  function Route<T>(m: RouteMap<T>, key: int): (t: T)
    requires IsPartition(m) && InDomain(key)
    ensures exists L :: Contains(m, L, key)
    ensures forall L :: Contains(m, L, key) ==> t == m[L].target
  {
    FloorFindsRange(m, key);
    m[FloorKey(m, key).value].target
  }

  /** `isValidLowerBound`. */
  predicate IsValidLowerBound<T>(m: RouteMap<T>, L: int)
  {
    L in m
  }

  /** `getTarget`; the source asserts that `L` is a valid lower bound. */
  function GetTarget<T>(m: RouteMap<T>, L: int): T
    requires IsValidLowerBound(m, L)
  {
    m[L].target
  }

  /** The map after `setTarget(L, t)`: the range keyed by `L` keeps its bounds and gets target `t`. */
  function Retarget<T>(m: RouteMap<T>, L: int, t: T): RouteMap<T>
    requires L in m
  {
    m[L := m[L].(target := t)]
  }

  /**
   * `setTarget` keeps every range and reroutes exactly the hash values of the
   * range keyed by `L`, to the new target.
   */
  lemma RetargetRoutes<T>(m: RouteMap<T>, L: int, t: T, key: int)
    requires WellFormed(m) && L in m && InDomain(key)
    ensures WellFormed(Retarget(m, L, t)) && GetTarget(Retarget(m, L, t), L) == t
    ensures Route(Retarget(m, L, t), key) == if Contains(m, L, key) then t else Route(m, key)
  {
    var m' := Retarget(m, L, t);
    RetargetPreservesWellFormed(m, L, t);
    FloorFindsRange(m, key);
    var owner := FloorKey(m, key).value;
    GetTargetIsRouteOfRange(m', owner, key);
    GetTargetIsRouteOfRange(m, owner, key);
  }

  /** `setTarget` keeps every range's bounds, so the map stays a partition into halving blocks. */
  lemma RetargetPreservesWellFormed<T>(m: RouteMap<T>, L: int, t: T)
    requires WellFormed(m) && L in m
    ensures WellFormed(Retarget(m, L, t))
  {
    var m' := Retarget(m, L, t);
    forall x | x in m'
      ensures m'[x].upperBound == m[x].upperBound && Next(m', x) == Next(m, x)
    {
    }
    assert IsPartition(m');
    forall x | x in m'
      ensures Dyadic(x, m'[x].upperBound)
    {
      assert Size(m, x) == Size(m', x);
    }
  }

  /** `canBeSplit`; the source asserts that `L` is a valid lower bound. */
  predicate CanBeSplit<T>(m: RouteMap<T>, L: int)
    requires IsValidLowerBound(m, L)
  {
    L < m[L].upperBound
  }

  /** The middle of a range, computed on unbounded integers. */
  function Midpoint(L: int, U: int): (mid: int)
    requires 0 <= L < U
    ensures L <= mid < U
    ensures U - mid <= mid - L + 1 <= U - mid + 1
  {
    (L + U) / 2
  }

  /** The middle as `split` computes it: the sum wraps around in 32-bit `int` and `/ 2` rounds toward zero. */
  function JavaMidpoint(L: int, U: int): int
    requires InDomain(L) && InDomain(U)
  {
    Half(Wrap(L + U))
  }

  /** Below the overflow the source's middle is the intended one. */
  lemma JavaMidpointAgreesWithoutOverflow(L: int, U: int)
    requires 0 <= L < U && L + U <= MAX_VALUE
    ensures JavaMidpoint(L, U) == Midpoint(L, U)
  {
  }

  /**
   * The upper half of the domain, `[2^30, 2^31 - 1]`, is the range the list
   * constructor splits for its fourth target; the source's middle for it
   * lies below the range, so the split breaks the partition.
   */
  lemma JavaMidpointLeavesRange()
    ensures JavaMidpoint(0x4000_0000, MAX_VALUE) == -0x2000_0000
    ensures JavaMidpoint(0x4000_0000, MAX_VALUE) < 0x4000_0000
  {
  }

  /** The map after `split(L, t)`: `L` keeps `[L, middle]` and its target, `middle + 1` gets `[middle + 1, U]` and `t`. */
  function SplitMap<T>(m: RouteMap<T>, L: int, t: T): RouteMap<T>
    requires L in m && 0 <= L < m[L].upperBound
  {
    var mid := Midpoint(L, m[L].upperBound);
    m[L := m[L].(upperBound := mid)][mid + 1 := Node(m[L].upperBound, t)]
  }

  lemma MulAtLeast(k: int, d: int)
    requires k >= 1 && d > 0
    ensures k * d >= d
  {
  }

  lemma MulDivMod(q: int, d: int)
    requires d > 0
    ensures (q * d) / d == q && (q * d) % d == 0
  {
    var k, r := (q * d) / d, (q * d) % d;
    assert (q - k) * d == r;
    if q - k >= 1 {
      MulAtLeast(q - k, d);
    } else if q - k <= -1 {
      MulAtLeast(k - q, d);
    }
  }

  /** A multiple of `2h` is an even multiple of `h`; adding `h` to it gives an odd multiple of `h`. */
  lemma HalvesAligned(L: int, h: int)
    requires h >= 1 && L % (2 * h) == 0
    ensures L % h == 0 && (L / h) % 2 == 0
    ensures (L + h) % h == 0 && ((L + h) / h) % 2 == 1
  {
    var a := L / (2 * h);
    assert L == (2 * a) * h;
    assert L + h == (2 * a + 1) * h;
    MulDivMod(2 * a, h);
    MulDivMod(2 * a + 1, h);
  }

  /** `canBeSplit(L)` holds exactly when the range holds a second hash value, `L + 1`, that starts no other range. */
  lemma CanBeSplitIffTwoValues<T>(m: RouteMap<T>, L: int)
    requires IsPartition(m) && L in m
    ensures CanBeSplit(m, L) <==> L + 1 <= MAX_VALUE && L + 1 !in m
  {
    if m[L].upperBound == L && L < MAX_VALUE {
      assert Next(m, L) in m;
    }
  }

  /** A hash value is a valid lower bound exactly when the value just below it ends a range. */
  lemma ValidLowerBoundIsBoundary<T>(m: RouteMap<T>, L: int)
    requires IsPartition(m) && 0 < L <= MAX_VALUE
    ensures IsValidLowerBound(m, L) <==> forall L' :: Contains(m, L', L - 1) ==> m[L'].upperBound == L - 1
  {
    FloorFindsRange(m, L - 1);
    var owner := FloorKey(m, L - 1).value;
    if m[owner].upperBound == L - 1 {
      assert Next(m, owner) == L;
    }
  }

  /** Every hash value of the range keyed by `L` is routed to `getTarget(L)`. */
  lemma GetTargetIsRouteOfRange<T>(m: RouteMap<T>, L: int, key: int)
    requires IsPartition(m) && IsValidLowerBound(m, L) && L <= key <= m[L].upperBound
    ensures Route(m, key) == GetTarget(m, L)
  {
  }

  /** Replacing a range by its two halves keeps the partition. */
  lemma SplitPreservesPartition<T>(m: RouteMap<T>, L: int, t: T)
    requires IsPartition(m) && L in m && L < m[L].upperBound
    ensures Midpoint(L, m[L].upperBound) + 1 !in m
    ensures IsPartition(SplitMap(m, L, t))
  {
    var U := m[L].upperBound;
    var mid := Midpoint(L, U);
    var m' := SplitMap(m, L, t);
    assert m' == m[L := Node(mid, m[L].target)][mid + 1 := Node(U, t)];
    forall x | x in m'
      ensures 0 <= x <= m'[x].upperBound <= MAX_VALUE
      ensures m'[x].upperBound < MAX_VALUE ==> Next(m', x) in m'
    {
      if x == L {
        assert Next(m', x) == mid + 1;
      } else if x == mid + 1 {
        assert Next(m', x) == Next(m, L);
      } else {
        assert Next(m', x) == Next(m, x);
      }
    }
    forall x, y | x in m' && y in m' && x < y
      ensures m'[x].upperBound < y
    {
      if x != L && x != mid + 1 {
        assert m'[x] == m[x];
      }
    }
  }

  /** The two halves of a halving block are halving blocks of half its size. */
  lemma HalvesAreDyadic(L: int, U: int)
    requires 0 <= L < U && Dyadic(L, U)
    ensures var mid := Midpoint(L, U);
      && mid - L + 1 == U - mid == (U - L + 1) / 2
      && Dyadic(L, mid) && Dyadic(mid + 1, U)
  {
    var h := (U - L + 1) / 2;
    assert U - L + 1 == 2 * h;
    HalvesAligned(L, h);
  }

  /** Replacing a halving block by its two halves leaves only halving blocks. */
  lemma SplitPreservesDyadic<T>(m: RouteMap<T>, L: int, t: T)
    requires AllDyadic(m) && L in m && 0 <= L < m[L].upperBound
    ensures var mid := Midpoint(L, m[L].upperBound); var m' := SplitMap(m, L, t);
      && Size(m', L) == Size(m', mid + 1) == Size(m, L) / 2
      && AllDyadic(m')
  {
    var U := m[L].upperBound;
    var mid := Midpoint(L, U);
    assert Size(m, L) == U - L + 1;
    HalvesAreDyadic(L, U);
    var m' := SplitMap(m, L, t);
    assert m' == m[L := Node(mid, m[L].target)][mid + 1 := Node(U, t)];
    forall L' | L' in m'
      ensures Dyadic(L', m'[L'].upperBound)
    {
      if L' != L && L' != mid + 1 {
        assert m'[L'] == m[L'] && Size(m, L') == Size(m', L');
      }
    }
  }

  /** `split` adds exactly one lower bound, the first value of the upper half. */
  lemma SplitKeys<T>(m: RouteMap<T>, L: int, t: T)
    requires L in m && 0 <= L < m[L].upperBound
    ensures SplitMap(m, L, t).Keys == m.Keys + {Midpoint(L, m[L].upperBound) + 1}
  {
  }

  /**
   * `split` halves a block: the new key is not yet a lower bound, both halves
   * have half the size, and the map is still a partition into halving blocks.
   */
  lemma SplitPreservesWellFormed<T>(m: RouteMap<T>, L: int, t: T)
    requires WellFormed(m) && L in m && CanBeSplit(m, L)
    ensures var mid := Midpoint(L, m[L].upperBound); var m' := SplitMap(m, L, t);
      && mid + 1 !in m
      && Size(m', L) == Size(m', mid + 1) == Size(m, L) / 2
      && WellFormed(m')
  {
    SplitPreservesPartition(m, L, t);
    SplitPreservesDyadic(m, L, t);
  }

  /** After `split(L, t)` the upper half of the range is routed to `t` and every other hash value as before. */
  lemma SplitRoutes<T>(m: RouteMap<T>, L: int, t: T, key: int)
    requires IsPartition(m) && L in m && CanBeSplit(m, L) && InDomain(key)
    ensures IsPartition(SplitMap(m, L, t))
    ensures Route(SplitMap(m, L, t), key) ==
      if Midpoint(L, m[L].upperBound) < key <= m[L].upperBound then t else Route(m, key)
  {
    var U := m[L].upperBound;
    var mid := Midpoint(L, U);
    SplitPreservesPartition(m, L, t);
    var m' := SplitMap(m, L, t);
    assert m' == m[L := Node(mid, m[L].target)][mid + 1 := Node(U, t)];
    FloorFindsRange(m, key);
    var owner := FloorKey(m, key).value;
    if owner == L && key > mid {
      assert m'[mid + 1] == Node(U, t);
      GetTargetIsRouteOfRange(m', mid + 1, key);
    } else if owner == L {
      assert m'[L] == Node(mid, m[L].target);
      GetTargetIsRouteOfRange(m', L, key);
      GetTargetIsRouteOfRange(m, L, key);
    } else {
      assert owner != mid + 1 && m'[owner] == m[owner];
      GetTargetIsRouteOfRange(m', owner, key);
      GetTargetIsRouteOfRange(m, owner, key);
    }
  }
}
