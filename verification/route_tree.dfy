/**
 * `RouteTree` (OutputRouter.java) as a class: the tree map from lower bounds
 * to nodes is the field `routeMap`, which `split`, `merge` and `setTarget`
 * update in place. The queries are functions of `routeMap`, defined in
 * modules Partition and Siblings.
 */
module OutputRouting {
  import opened JavaInt
  import opened Bits
  import opened Partition
  import opened Siblings

  /**
   * The first `|owners|` targets of a list are spread over the ranges one to
   * one: the distinct lower bounds `owners[i]` carry `targets[i]`, and every
   * range is keyed by one of them.
   */
  ghost predicate OwnedBy<T>(m: RouteMap<T>, owners: seq<int>, targets: seq<T>)
  {
    && |owners| <= |targets|
    && (forall i, j :: 0 <= i < j < |owners| ==> owners[i] != owners[j])
    && (forall i :: 0 <= i < |owners| ==> owners[i] in m && m[owners[i]].target == targets[i])
    && (forall L :: L in m ==> L in owners)
  }

  /** No range is more than twice as large as another. */
  ghost predicate Balanced<T>(m: RouteMap<T>)
  {
    forall L, L' :: L in m && L' in m ==> m[L].upperBound - L + 1 <= 2 * (m[L'].upperBound - L' + 1)
  }

  class RouteTree<T> {
    var routeMap: RouteMap<T>

    /** The ranges partition the hash domain into halving blocks. */
    ghost predicate Valid()
      reads this
    {
      WellFormed(routeMap)
    }

    /** `RouteTree(target)`: one range, `[0, Integer.MAX_VALUE]`, bound to `target`. */
    constructor (target: T)
      ensures Valid() && routeMap == Root(target)
      ensures routeMap.Keys == {0} && routeMap[0] == Node(MAX_VALUE, target)
    {
      routeMap := map[0 := Node(MAX_VALUE, target)];
      new;
      assert routeMap == Root(target);
    }

    /**
     * `RouteTree(targets)`: the whole domain goes to the first target; each
     * further target takes the upper half of the range at the head of a
     * queue, which visits the ranges breadth first, so that the ranges are
     * halved round by round. The map starts empty.
     */
    constructor FromTargets(targets: seq<T>)
      requires 1 <= |targets| <= DOMAIN_SIZE
      ensures Valid() && |routeMap| == |targets|
      ensures exists owners :: |owners| == |targets| && OwnedBy(routeMap, owners, targets)
      ensures Balanced(routeMap)
    {
      routeMap := map[];
      new;
      routeMap := routeMap[0 := Node(MAX_VALUE, targets[0])];
      var lowerBounds := [0];
      var i := 1;
      while i < |targets|
        invariant 1 <= i <= |targets|
        invariant routeMap == Run(targets, i).m && lowerBounds == Run(targets, i).q
      {
        RunStep(targets, i, routeMap, lowerBounds);
        ghost var m0, q0 := routeMap, lowerBounds;
        var lowerBound := lowerBounds[0];
        lowerBounds := lowerBounds[1..];
        lowerBounds := lowerBounds + [lowerBound];
        var newLowerBound := Split(lowerBound, targets[i]);
        lowerBounds := lowerBounds + [newLowerBound];
        RunStepped(targets, i, m0, q0, routeMap, lowerBounds);
        i := i + 1;
      }
      RunFinishes(targets, i, routeMap);
    }

    /** `route`: the target of the range that holds the hash value `key`. */
    function Route(key: int): (t: T)
      reads this
      requires Valid() && InDomain(key)
      ensures exists L :: Contains(routeMap, L, key) && t == routeMap[L].target
    {
      Partition.Route(routeMap, key)
    }

    /** `getTarget`: in a valid tree, the target every hash value of the range keyed by `L` is routed to. */
    function GetTarget(L: int): (t: T)
      reads this
      requires IsValidLowerBound(L)
      ensures Valid() ==> forall key | L <= key <= routeMap[L].upperBound :: Partition.Route(routeMap, key) == t
    {
      assert Valid() ==> forall key | L <= key <= routeMap[L].upperBound ::
          Partition.Route(routeMap, key) == Partition.GetTarget(routeMap, L) by {
        if Valid() {
          forall key | L <= key <= routeMap[L].upperBound
            ensures Partition.Route(routeMap, key) == Partition.GetTarget(routeMap, L)
          {
            GetTargetIsRouteOfRange(routeMap, L, key);
          }
        }
      }
      Partition.GetTarget(routeMap, L)
    }

    /** `isValidLowerBound`: in a valid tree, whether a range ends right before `L`. */
    predicate IsValidLowerBound(L: int)
      reads this
      ensures Valid() && 0 < L <= MAX_VALUE ==>
        (IsValidLowerBound(L) <==> forall L' :: Contains(routeMap, L', L - 1) ==> routeMap[L'].upperBound == L - 1)
    {
      assert Valid() && 0 < L <= MAX_VALUE ==>
          (Partition.IsValidLowerBound(routeMap, L) <==>
           forall L' :: Contains(routeMap, L', L - 1) ==> routeMap[L'].upperBound == L - 1) by {
        if Valid() && 0 < L <= MAX_VALUE {
          ValidLowerBoundIsBoundary(routeMap, L);
        }
      }
      Partition.IsValidLowerBound(routeMap, L)
    }

    /** `canBeSplit`: in a valid tree, whether the range keyed by `L` holds a second hash value. */
    predicate CanBeSplit(L: int)
      reads this
      requires IsValidLowerBound(L)
      ensures Valid() ==> (CanBeSplit(L) <==> L + 1 <= MAX_VALUE && L + 1 !in routeMap)
    {
      assert Valid() ==> (Partition.CanBeSplit(routeMap, L) <==> L + 1 <= MAX_VALUE && L + 1 !in routeMap) by {
        if Valid() {
          CanBeSplitIffTwoValues(routeMap, L);
        }
      }
      Partition.CanBeSplit(routeMap, L)
    }

    /** `isSiblingAvailable`: the sibling is a range of the tree of the same size. */
    predicate IsSiblingAvailable(L: int)
      reads this
      requires Valid() && IsValidLowerBound(L)
      ensures var S := SiblingNode(routeMap, L);
        IsSiblingAvailable(L) <==> S != MIN_VALUE && S in routeMap && Size(routeMap, S) == Size(routeMap, L)
    {
      SiblingAvailableIff(routeMap, L);
      Siblings.IsSiblingAvailable(routeMap, L)
    }

    /** `setTarget`: rebinds the range keyed by `L` and returns its previous target. */
    method SetTarget(L: int, newTarget: T) returns (oldTarget: T)
      requires L in routeMap
      modifies this
      ensures oldTarget == old(routeMap)[L].target
      ensures routeMap == Retarget(old(routeMap), L, newTarget)
      ensures routeMap.Keys == old(routeMap).Keys && routeMap[L] == Node(old(routeMap)[L].upperBound, newTarget)
      ensures old(Valid()) ==> Valid()
    {
      var node := routeMap[L];
      oldTarget := node.target;
      routeMap := routeMap[L := node.(target := newTarget)];
      if WellFormed(old(routeMap)) {
        RetargetRoutes(old(routeMap), L, newTarget, 0);
      }
    }

    /**
     * `split`: the range keyed by `L` keeps its lower half and its target,
     * the upper half becomes a new range bound to `target`, and its lower
     * bound is returned.
     */
    method Split(L: int, target: T) returns (newLowerBound: int)
      requires Valid() && L in routeMap && Partition.CanBeSplit(routeMap, L)
      modifies this
      ensures Valid()
      ensures routeMap == SplitMap(old(routeMap), L, target)
      ensures newLowerBound == Midpoint(L, old(routeMap)[L].upperBound) + 1 && newLowerBound !in old(routeMap)
      ensures var h := routeMap[L].upperBound - L + 1;
        2 * h == old(routeMap)[L].upperBound - L + 1 && routeMap[newLowerBound].upperBound - newLowerBound + 1 == h
    {
      SplitPreservesWellFormed(routeMap, L, target);
      var node := routeMap[L];
      var upperBound := node.upperBound;
      var middle := Midpoint(L, upperBound);
      routeMap := routeMap[L := node.(upperBound := middle)][middle + 1 := Node(upperBound, target)];
      newLowerBound := middle + 1;
    }

    /**
     * `merge`: when the sibling of `L` is available, the two ranges become
     * one with the sibling's target and the lower of the two lower bounds is
     * returned; otherwise -1 and nothing changes.
     */
    method Merge(L: int) returns (r: int)
      requires Valid() && L in routeMap
      modifies this
      ensures Valid()
      ensures r == -1 <==> !Siblings.IsSiblingAvailable(old(routeMap), L)
      ensures r == -1 ==> routeMap == old(routeMap)
      ensures r != -1 ==> var S := SiblingNode(old(routeMap), L);
        r == (if S < L then S else L) && routeMap == MergedMap(old(routeMap), L)
    {
      var siblingLowerBound := SiblingNode(routeMap, L);
      SiblingPresent(routeMap, L);
      if siblingLowerBound == MIN_VALUE || IsSiblingSplit(routeMap, siblingLowerBound, L) {
        return -1;
      }
      MergePreservesWellFormed(routeMap, L);
      ghost var merged := MergedMap(routeMap, L);
      if siblingLowerBound > L {
        routeMap := routeMap[L := routeMap[siblingLowerBound]] - {siblingLowerBound};
        r := L;
      } else {
        routeMap := routeMap[siblingLowerBound := routeMap[siblingLowerBound].(upperBound := routeMap[L].upperBound)] - {L};
        r := siblingLowerBound;
      }
      assert routeMap == merged;
    }

    /** `sibling`: the target of the available sibling, none otherwise. */
    function Sibling(L: int): (r: Wrappers.Option<T>)
      reads this
      requires Valid() && IsValidLowerBound(L)
      ensures r.Some? <==> IsSiblingAvailable(L)
      ensures r.Some? ==> SiblingNode(routeMap, L) in routeMap && r.value == routeMap[SiblingNode(routeMap, L)].target
    {
      Siblings.Sibling(routeMap, L)
    }
  }

  /**
   * `blocks` ranges of size `s` fill the domain: `s` is the domain size
   * halved as many times as `blocks` is 1 doubled.
   */
  ghost predicate Fills(s: nat, blocks: nat)
    decreases blocks
  {
    if blocks <= 1 then blocks == 1 && s == DOMAIN_SIZE
    else blocks % 2 == 0 && Fills(2 * s, blocks / 2)
  }

  lemma {:induction false} FillsDomain(s: nat, blocks: nat)
    requires Fills(s, blocks)
    ensures blocks * s == DOMAIN_SIZE
    decreases blocks
  {
    if blocks > 1 {
      FillsDomain(2 * s, blocks / 2);
      Regroup(blocks / 2, s);
    }
  }

  lemma Regroup(a: int, h: int)
    ensures (2 * a) * h == a * (2 * h)
  {
  }

  /** Halving every range of a round doubles the number of ranges. */
  lemma NextRound(s: nat, blocks: nat)
    requires IsPow2(s) && s >= 2 && Fills(s, blocks)
    ensures IsPow2(s / 2) && Fills(s / 2, 2 * blocks)
  {
    assert 2 * (s / 2) == s;
  }

  /** A split adds one range. */
  lemma SplitCount<T>(m: RouteMap<T>, L: int, t: T)
    requires L in m && 0 <= L < m[L].upperBound && Midpoint(L, m[L].upperBound) + 1 !in m
    ensures |SplitMap(m, L, t)| == |m| + 1
  {
    SplitKeys(m, L, t);
    assert SplitMap(m, L, t).Keys == m.Keys + {Midpoint(L, m[L].upperBound) + 1};
  }

  /** The list constructor's map and queue, with the ghost bookkeeping of its rounds. */
  datatype Progress<T> = Progress(m: RouteMap<T>, q: seq<int>, owners: seq<int>, pending: int, s: nat, blocks: nat)

  /** The list constructor after its first target: the whole domain in one range. */
  function Start<T>(first: T): Progress<T>
  {
    Progress(map[0 := Node(MAX_VALUE, first)], [0], [0], 1, DOMAIN_SIZE, 1)
  }

  /** A finished round starts the next one, on ranges of half the size. */
  function NewRound<T>(p: Progress<T>): Progress<T>
  {
    if p.pending == 0 then p.(pending := |p.q|, s := p.s / 2, blocks := 2 * p.blocks) else p
  }

  /**
   * One iteration of the list constructor: the head of the queue is split,
   * the upper half goes to `t`, and both halves are queued. (The head can
   * always be split, see `AdvanceBuilds`; the guard only keeps this
   * function total.)
   */
  function Advance<T>(p: Progress<T>, t: T): Progress<T>
  {
    if |p.q| == 0 || p.q[0] !in p.m || !(0 <= p.q[0] < p.m[p.q[0]].upperBound) then p
    else
      var L := p.q[0];
      var N := Midpoint(L, p.m[L].upperBound) + 1;
      Progress(SplitMap(p.m, L, t), p.q[1..] + [L] + [N], p.owners + [N], p.pending - 1, p.s, p.blocks)
  }

  /** The list constructor after its first `i` targets. */
  function Run<T>(targets: seq<T>, i: nat): Progress<T>
    requires 1 <= i <= |targets|
    decreases i
  {
    if i == 1 then Start(targets[0]) else Advance(NewRound(Run(targets, i - 1)), targets[i - 1])
  }

  lemma StartBuilds<T>(targets: seq<T>, p: Progress<T>)
    requires 1 <= |targets| <= DOMAIN_SIZE && p == Start(targets[0])
    ensures Building(p.m, p.q, targets, 1, p.pending, p.s, p.blocks)
  {
    DomainSizeIsPow2();
    assert p.m == Root(targets[0]);
    assert Size(p.m, 0) == DOMAIN_SIZE;
  }

  lemma NewRoundBuilds<T>(p: Progress<T>, targets: seq<T>, i: int)
    requires Building(p.m, p.q, targets, i, p.pending, p.s, p.blocks)
    ensures var p' := NewRound(p);
      && p'.m == p.m && p'.q == p.q && p'.owners == p.owners && p'.pending >= 1
      && Building(p'.m, p'.q, targets, i, p'.pending, p'.s, p'.blocks)
  {
    if p.pending == 0 {
      NextRoundBuilding(p.m, p.q, targets, i, p.s, p.blocks);
    }
  }

  lemma AdvanceBuilds<T>(p: Progress<T>, targets: seq<T>, i: int)
    requires Building(p.m, p.q, targets, i - 1, p.pending, p.s, p.blocks) && i <= |targets| && p.pending >= 1
    ensures var p' := Advance(p, targets[i - 1]);
      Building(p'.m, p'.q, targets, i, p'.pending, p'.s, p'.blocks)
  {
    BuildingStep(p.m, p.q, targets, i, p.pending, p.s, p.blocks);
    var L := p.q[0];
    assert 0 <= L <= p.m[L].upperBound;
    AdvanceSplits(p, targets[i - 1]);
  }

  lemma AdvanceSplits<T>(p: Progress<T>, t: T)
    requires |p.q| >= 1 && p.q[0] in p.m && 0 <= p.q[0] < p.m[p.q[0]].upperBound
    ensures var L := p.q[0]; var N := Midpoint(L, p.m[L].upperBound) + 1;
      Advance(p, t) == Progress(SplitMap(p.m, L, t), p.q[1..] + [L] + [N], p.owners + [N], p.pending - 1, p.s, p.blocks)
  {
  }

  /** Every state the list constructor reaches is a building state. */
  lemma {:induction false} RunBuilds<T>(targets: seq<T>, i: nat, p: Progress<T>)
    requires 1 <= i <= |targets| <= DOMAIN_SIZE && p == Run(targets, i)
    ensures Building(p.m, p.q, targets, i, p.pending, p.s, p.blocks)
    decreases i
  {
    if i == 1 {
      StartBuilds(targets, p);
    } else {
      var p0 := Run(targets, i - 1);
      RunBuilds(targets, i - 1, p0);
      StepBuilds(p0, targets, i, p);
    }
  }

  /** One iteration of the list constructor keeps its building state. */
  lemma StepBuilds<T>(p: Progress<T>, targets: seq<T>, i: int, p': Progress<T>)
    requires Building(p.m, p.q, targets, i - 1, p.pending, p.s, p.blocks) && i <= |targets|
    requires p' == Advance(NewRound(p), targets[i - 1])
    ensures Building(p'.m, p'.q, targets, i, p'.pending, p'.s, p'.blocks)
  {
    NewRoundBuilds(p, targets, i - 1);
    AdvanceBuilds(NewRound(p), targets, i);
  }

  /** After `i` targets, each of them owns one range of its own. */
  lemma {:induction false} RunOwned<T>(targets: seq<T>, i: nat)
    requires 1 <= i <= |targets| <= DOMAIN_SIZE
    ensures var p := Run(targets, i); |p.owners| == i && OwnedBy(p.m, p.owners, targets)
    decreases i
  {
    if i > 1 {
      RunOwned(targets, i - 1);
      RunOwnedStep(targets, i);
    }
  }

  /** One iteration of the list constructor hands the new range to the next target. */
  lemma RunOwnedStep<T>(targets: seq<T>, i: nat)
    requires 2 <= i <= |targets| <= DOMAIN_SIZE
    requires var p := Run(targets, i - 1); |p.owners| == i - 1 && OwnedBy(p.m, p.owners, targets)
    ensures var p := Run(targets, i); |p.owners| == i && OwnedBy(p.m, p.owners, targets)
  {
    var p, p' := Run(targets, i - 1), Run(targets, i);
    RunGrows(targets, i, p, p');
    OwnersAfterSplit(p.m, p.owners, targets, p.q[0], targets[i - 1], p'.m, p'.owners);
  }

  /**
   * The list constructor ends with one range per target, each target owning
   * one, and no range more than twice as large as another.
   */
  lemma RunFinishes<T>(targets: seq<T>, n: nat, m: RouteMap<T>)
    requires 1 <= n == |targets| <= DOMAIN_SIZE && m == Run(targets, n).m
    ensures WellFormed(m) && |m| == |targets|
    ensures exists owners :: |owners| == |targets| && OwnedBy(m, owners, targets)
    ensures Balanced(m)
  {
    var p := Run(targets, n);
    RunBuilds(targets, n, p);
    RunOwned(targets, n);
    QueuedIsBalanced(p.m, p.q, p.pending, p.s);
  }

  /** One iteration of the list constructor splits off a fresh range and hands it to the next target. */
  lemma RunGrows<T>(targets: seq<T>, i: nat, p: Progress<T>, p': Progress<T>)
    requires 2 <= i <= |targets| <= DOMAIN_SIZE && p == Run(targets, i - 1) && p' == Run(targets, i)
    ensures |p.q| >= 1 && p.q[0] in p.m && 0 <= p.q[0] < p.m[p.q[0]].upperBound
    ensures var L := p.q[0]; var N := Midpoint(L, p.m[L].upperBound) + 1;
      && N !in p.m
      && p'.m == SplitMap(p.m, L, targets[i - 1])
      && p'.owners == p.owners + [N]
  {
    RunHead(targets, i - 1, p);
    SplitPreservesPartition(p.m, p.q[0], targets[i - 1]);
    RunNext(targets, i, p, p');
    AdvanceSplits(NewRound(p), targets[i - 1]);
  }

  /** The state after `i` targets is one iteration past the state after `i - 1`. */
  lemma RunNext<T>(targets: seq<T>, i: nat, p: Progress<T>, p': Progress<T>)
    requires 2 <= i <= |targets| && p == Run(targets, i - 1) && p' == Run(targets, i)
    ensures p' == Advance(NewRound(p), targets[i - 1])
  {
  }

  /** Before each iteration of the list constructor the map is well formed and the head of its queue can be split. */
  lemma RunStep<T>(targets: seq<T>, i: nat, m: RouteMap<T>, q: seq<int>)
    requires 1 <= i < |targets| <= DOMAIN_SIZE && m == Run(targets, i).m && q == Run(targets, i).q
    ensures WellFormed(m) && |q| >= 1 && q[0] in m && CanBeSplit(m, q[0])
  {
    RunHead(targets, i, Run(targets, i));
  }

  /**
   * An iteration of the list constructor that splits the head of its queue,
   * hands the upper half to `targets[i]` and queues both halves reaches the
   * state after `i + 1` targets.
   */
  lemma RunStepped<T>(targets: seq<T>, i: nat, m: RouteMap<T>, q: seq<int>, m': RouteMap<T>, q': seq<int>)
    requires 1 <= i < |targets| <= DOMAIN_SIZE && m == Run(targets, i).m && q == Run(targets, i).q
    requires |q| >= 1 && q[0] in m && 0 <= q[0] < m[q[0]].upperBound
    requires m' == SplitMap(m, q[0], targets[i]) && q' == q[1..] + [q[0]] + [Midpoint(q[0], m[q[0]].upperBound) + 1]
    ensures m' == Run(targets, i + 1).m && q' == Run(targets, i + 1).q
  {
    RunHead(targets, i, Run(targets, i));
    RunUnfold(targets, i);
    AdvanceSplits(NewRound(Run(targets, i)), targets[i]);
  }

  /** The state after `i + 1` targets is one iteration past the state after `i`. */
  lemma RunUnfold<T>(targets: seq<T>, i: nat)
    requires 1 <= i < |targets|
    ensures Run(targets, i + 1) == Advance(NewRound(Run(targets, i)), targets[i])
  {
  }

  /** Before each iteration the map is well formed and the head of the queue can be split. */
  lemma RunHead<T>(targets: seq<T>, i: nat, p: Progress<T>)
    requires 1 <= i < |targets| <= DOMAIN_SIZE && p == Run(targets, i)
    ensures var p' := NewRound(p);
      && p'.m == p.m && p'.q == p.q && p'.owners == p.owners
      && WellFormed(p.m) && |p.q| >= 1 && p.q[0] in p.m && 0 <= p.q[0] < p.m[p.q[0]].upperBound
  {
    RunBuilds(targets, i, p);
    NewRoundBuilds(p, targets, i);
    var p' := NewRound(p);
    HeadCanBeSplit(p'.m, p'.q, p'.pending, p'.s, p'.blocks);
    assert 0 <= p.q[0] <= p.m[p.q[0]].upperBound;
  }


  /**
   * The state of the list constructor after `i` targets: the map is a
   * partition into halving blocks with one range per target so far; the
   * queue is in round `s` (ranges of size `s` or `s / 2`), and `blocks`
   * ranges of size `s` would fill the domain.
   */
  ghost predicate Building<T>(m: RouteMap<T>, q: seq<int>, targets: seq<T>,
                              i: int, pending: int, s: nat, blocks: nat)
  {
    && 1 <= i <= |targets| && |targets| <= DOMAIN_SIZE
    && |m| == i == |q|
    && WellFormed(m)
    && Queued(m, q, pending, s)
    && IsPow2(s) && Fills(s, blocks) && pending + |q| == 2 * blocks
  }

  /** A finished round starts the next one, on ranges of half the size. */
  lemma NextRoundBuilding<T>(m: RouteMap<T>, q: seq<int>, targets: seq<T>,
                             i: int, s: nat, blocks: nat)
    requires Building(m, q, targets, i, 0, s, blocks)
    ensures s >= 2 && Building(m, q, targets, i, |q|, s / 2, 2 * blocks)
  {
    NextRoundQueued(m, q, s);
    NextRound(s, blocks);
  }

  /**
   * One more target: the head of the queue can be split, and splitting it,
   * queueing both halves and handing the upper one to `targets[i - 1]` keeps
   * the constructor's state.
   */
  lemma BuildingStep<T>(m: RouteMap<T>, q: seq<int>, targets: seq<T>,
                        i: int, pending: int, s: nat, blocks: nat)
    requires Building(m, q, targets, i - 1, pending, s, blocks) && i <= |targets| && pending >= 1
    ensures q[0] in m && CanBeSplit(m, q[0])
    ensures var L := q[0]; var N := Midpoint(L, m[L].upperBound) + 1;
      Building(SplitMap(m, L, targets[i - 1]), q[1..] + [L] + [N], targets, i, pending - 1, s, blocks)
  {
    HeadCanBeSplit(m, q, pending, s, blocks);
    var L := q[0];
    SplitPreservesWellFormed(m, L, targets[i - 1]);
    QueueAfterSplit(m, q, pending, s, targets[i - 1]);
  }

  /**
   * The queue of the list constructor: it holds every lower bound once; the
   * first `pending` ranges have size `s`, the rest are halves of size `s / 2`.
   */
  ghost predicate Queued<T>(m: RouteMap<T>, q: seq<int>, pending: int, s: int)
  {
    && 0 <= pending <= |q|
    && (forall j :: 0 <= j < |q| ==> q[j] in m)
    && (forall j, k :: 0 <= j < k < |q| ==> q[j] != q[k])
    && (forall L :: L in m ==> L in q)
    && (forall j :: 0 <= j < pending ==> m[q[j]].upperBound - q[j] + 1 == s)
    && (forall j :: pending <= j < |q| ==> 2 * (m[q[j]].upperBound - q[j] + 1) == s)
  }

  /** When a round is over, every range has half the size of the last round's. */
  lemma NextRoundQueued<T>(m: RouteMap<T>, q: seq<int>, s: nat)
    requires Queued(m, q, 0, s) && |q| >= 1 && IsPow2(s)
    ensures s >= 2 && Queued(m, q, |q|, s / 2)
  {
    assert 2 * (m[q[0]].upperBound - q[0] + 1) == s;
  }

  /**
   * The head of the queue can be split while there are fewer ranges than
   * hash values: a round of unit ranges would need the whole domain.
   */
  lemma HeadCanBeSplit<T>(m: RouteMap<T>, q: seq<int>, pending: int, s: nat, blocks: nat)
    requires Queued(m, q, pending, s) && 1 <= pending && |q| < DOMAIN_SIZE
    requires Fills(s, blocks) && pending + |q| == 2 * blocks
    ensures s >= 2 && m[q[0]].upperBound - q[0] + 1 == s
  {
    FewerBlocks(blocks, s);
    if pending < |q| {
      assert 2 * (m[q[pending]].upperBound - q[pending] + 1) == s;
    }
  }

  lemma FewerBlocks(blocks: nat, s: nat)
    requires Fills(s, blocks) && blocks < DOMAIN_SIZE
    ensures s >= 2
  {
    FillsDomain(s, blocks);
  }

  /** Splitting the head of the queue and queueing both halves keeps the queue's shape. */
  lemma QueueAfterSplit<T>(m: RouteMap<T>, q: seq<int>, pending: int, s: int, t: T)
    requires Queued(m, q, pending, s) && 1 <= pending && s >= 2 && IsPow2(s)
    requires 0 <= q[0] && Midpoint(q[0], m[q[0]].upperBound) + 1 !in m
    ensures var L := q[0];
      && L < m[L].upperBound
      && Queued(SplitMap(m, L, t), q[1..] + [L] + [Midpoint(L, m[L].upperBound) + 1], pending - 1, s)
      && |SplitMap(m, L, t)| == |m| + 1
  {
    var L := q[0];
    SplitCount(m, L, t);
    QueueStaysDistinct(m, q, Midpoint(L, m[L].upperBound) + 1);
    QueueSizesAfterSplit(m, q, pending, s, t);
    QueueCoversSplit(m, q, t);
  }

  /** Rotating the head to the back and adding a fresh key keeps the queue free of repeats. */
  lemma QueueStaysDistinct<T>(m: RouteMap<T>, q: seq<int>, N: int)
    requires |q| >= 1 && N !in m
    requires forall j :: 0 <= j < |q| ==> q[j] in m
    requires forall j, k :: 0 <= j < k < |q| ==> q[j] != q[k]
    ensures var q' := q[1..] + [q[0]] + [N]; forall j, k :: 0 <= j < k < |q'| ==> q'[j] != q'[k]
  {
    var q' := q[1..] + [q[0]] + [N];
    forall j, k | 0 <= j < k < |q'|
      ensures q'[j] != q'[k]
    {
      if k < |q| - 1 {
        assert q'[j] == q[j + 1] && q'[k] == q[k + 1];
      } else if j < |q| - 1 {
        assert q'[j] == q[j + 1] && q'[j] in m;
      }
    }
  }

  /** After the split the queued halves have half the round's size, the others keep theirs. */
  lemma QueueSizesAfterSplit<T>(m: RouteMap<T>, q: seq<int>, pending: int, s: int, t: T)
    requires Queued(m, q, pending, s) && 1 <= pending && s >= 2 && IsPow2(s)
    requires 0 <= q[0] && Midpoint(q[0], m[q[0]].upperBound) + 1 !in m
    ensures var L := q[0]; var N := Midpoint(L, m[L].upperBound) + 1;
      var m', q' := SplitMap(m, L, t), q[1..] + [L] + [N];
      && L < m[L].upperBound
      && (forall j :: 0 <= j < |q'| ==> q'[j] in m')
      && (forall j :: 0 <= j < pending - 1 ==> m'[q'[j]].upperBound - q'[j] + 1 == s)
      && (forall j :: pending - 1 <= j < |q'| ==> 2 * (m'[q'[j]].upperBound - q'[j] + 1) == s)
  {
    var L := q[0];
    var U := m[L].upperBound;
    var N := Midpoint(L, U) + 1;
    var m' := SplitMap(m, L, t);
    var q' := q[1..] + [L] + [N];
    assert U - L + 1 == s && s % 2 == 0;
    EvenHalves(L, U, s);
    assert m' == m[L := Node(N - 1, m[L].target)][N := Node(U, t)];
    forall j | 0 <= j < |q'|
      ensures q'[j] in m'
      ensures j < pending - 1 ==> m'[q'[j]].upperBound - q'[j] + 1 == s
      ensures pending - 1 <= j ==> 2 * (m'[q'[j]].upperBound - q'[j] + 1) == s
    {
      if j < |q| - 1 {
        assert q'[j] == q[j + 1] && m'[q[j + 1]] == m[q[j + 1]];
      }
    }
  }

  /** A range of even size splits into two halves of half its size. */
  lemma EvenHalves(L: int, U: int, s: int)
    requires 0 <= L < U && U - L + 1 == s && s % 2 == 0
    ensures var N := Midpoint(L, U) + 1; 2 * (N - L) == s && 2 * (U - N + 1) == s
  {
  }

  /** Every range of the split map is queued. */
  lemma QueueCoversSplit<T>(m: RouteMap<T>, q: seq<int>, t: T)
    requires |q| >= 1 && q[0] in m && 0 <= q[0] < m[q[0]].upperBound
    requires forall L :: L in m ==> L in q
    ensures var L := q[0]; var N := Midpoint(L, m[L].upperBound) + 1;
      forall x :: x in SplitMap(m, L, t) ==> x in q[1..] + [L] + [N]
  {
    var L := q[0];
    var N := Midpoint(L, m[L].upperBound) + 1;
    var q' := q[1..] + [L] + [N];
    SplitKeys(m, L, t);
    forall x | x in SplitMap(m, L, t)
      ensures x in q'
    {
      if x != N && x != L {
        assert x in q;
        var j :| 0 <= j < |q| && q[j] == x;
        assert q'[j - 1] == x;
      } else if x == L {
        assert q'[|q| - 1] == x;
      } else {
        assert q'[|q|] == x;
      }
    }
  }

  /** A split hands the next target to the new range and leaves every other target in place. */
  lemma OwnersAfterSplit<T>(m: RouteMap<T>, owners: seq<int>, targets: seq<T>, L: int, t: T, m': RouteMap<T>, owners': seq<int>)
    requires |owners| < |targets| && t == targets[|owners|]
    requires OwnedBy(m, owners, targets) && L in m && 0 <= L < m[L].upperBound
    requires Midpoint(L, m[L].upperBound) + 1 !in m
    requires m' == SplitMap(m, L, t) && owners' == owners + [Midpoint(L, m[L].upperBound) + 1]
    ensures OwnedBy(m', owners', targets)
  {
    var N := Midpoint(L, m[L].upperBound) + 1;
    assert m' == m[L := Node(N - 1, m[L].target)][N := Node(m[L].upperBound, t)];
    forall k | 0 <= k < |owners'|
      ensures owners'[k] in m' && m'[owners'[k]].target == targets[k]
    {
      if k < |owners| && owners[k] != L {
        assert m'[owners[k]] == m[owners[k]];
      }
    }
    forall x | x in m'
      ensures x in owners'
    {
      if x != N {
        assert x in owners;
      } else {
        assert owners'[|owners|] == x;
      }
    }
  }

  /** The queue holds ranges of two sizes only, one twice the other. */
  lemma QueuedIsBalanced<T>(m: RouteMap<T>, q: seq<int>, pending: int, s: nat)
    requires Queued(m, q, pending, s)
    ensures Balanced(m)
  {
    forall L, L' | L in m && L' in m
      ensures m[L].upperBound - L + 1 <= 2 * (m[L'].upperBound - L' + 1)
    {
      assert L in q && L' in q;
    }
  }
}
