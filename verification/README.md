# Routing core of Sault / eBolt, modelled in Dafny

Sault is a stream-processing engine built on Akka actors. This project models
its three routing and counting components.

- **`RouteTree` (OutputRouter.java).** It routes a tuple by its non-negative
  hash value.
  - The hash domain `[0, Integer.MAX_VALUE]` is cut into ranges. Each range
    has a lower bound (its key in a `TreeMap`), an upper bound and a target
    actor.
  - A range can be split in two. Its upper half goes to a new target.
  - Two sibling halves can be merged back.
  - The list constructor builds the tree for a list of targets. It splits
    ranges breadth first, round by round.
- **`RouterMap` and `InputRouter.onReceive` (InputRouter.java).** Each
  tuple key gets one worker. The worker is created by the factory the first
  time the key arrives and is remembered from then on.
- **`WordCounter` (WordCounter.java).** A bolt (a processing step of a
  stream topology).
  - It takes its word from the first tuple and adds up the values in a Java
    `int`.
  - After every tuple that leaves the count at 1000 or more, it emits
    `(word, count)`. Once the count has reached 1000 this repeats for every
    later tuple, as long as the values are non-negative and the sum does not
    overflow.
  - It emits `(word, count)` once more on cleanup.

The modules are:

- **`Wrappers`:** `Option`, standing for a Java reference that may be null.
- **`JavaInt`:** the 32-bit `int` range, its wrap-around, and `/ 2`
  rounding toward zero.
- **`Bits`:** `^` and `&` on the bit patterns of non-negative `int`s, and
  facts about powers of two.
- **`Partition`:** the route map as a value.
  - The invariant `WellFormed` has two parts. The ranges partition the
    domain, and every range is a halving block: its size is a power of two
    that divides its lower bound.
  - It holds `route` (as a floor lookup), `getTarget`, `isValidLowerBound`,
    `canBeSplit` and the map after `split` and `setTarget`.
- **`Siblings`:** `siblingNode`, `isSiblingSplit`, `isSiblingAvailable`,
  `sibling` and the map after `merge`.
  - It proves that the bit arithmetic of `siblingNode` computes the other
    half of the block the range was split from.
- **`OutputRouting`:** class `RouteTree` with both constructors, `setTarget`,
  `split` and `merge`, which update the map in place.
  - It includes the proof of the list constructor's loop.
  - The ghost functions `Start`, `NewRound`, `Advance` and `Run` describe
    the constructor's state after each target.
- **`InputRouting`:** classes `RouterMap`, `WorkerFactory` and
  `InputRouter`.
  - `Receive` and `Run` are value-level functions for one message and for
    a sequence of messages.
- **`WordCount`:** classes `Collector` (its log of emitted tuples) and
  `WordCounter`.
  - `Count` is the `+=` fold on a Java `int`.

## Model

| member | source | states |
|---|---|---|
| JavaInt.Wrap | src/main/java/com/pku/sault/app/wordcount/WordCounter.java:24 | Java `int` addition yields the 32-bit value congruent to the exact result modulo 2^32, which is the exact result whenever that fits in an `int` |
| JavaInt.WrapAdd | src/main/java/com/pku/sault/app/wordcount/WordCounter.java:24 | wrapping after every `+=` gives the same `int` as wrapping the exact total once |
| JavaInt.Half | src/main/java/com/pku/ebolt/engine/OutputRouter.java:90 | Java's `/ 2` rounds toward zero, for negative operands too |
| Bits.AndPredecessor | src/main/java/com/pku/ebolt/engine/OutputRouter.java:155 | for `x >= 1`, `(x & (x - 1)) == 0` holds exactly when `x` is a power of two |
| Bits.ClearLowestBit | src/main/java/com/pku/ebolt/engine/OutputRouter.java:160 | for an odd multiple `a * s` of a power of two `s`, `(a*s - 1) & a*s` is `(a - 1) * s`, the lower bound one block below |
| Bits.XorScaled | src/main/java/com/pku/ebolt/engine/OutputRouter.java:154 | `^` of two multiples of a power of two is the `^` of the factors times that power |
| Partition.Root | src/main/java/com/pku/ebolt/engine/OutputRouter.java:27-30 | the single-target tree is well formed and its one range holds every hash value |
| Partition.FloorKey | src/main/java/com/pku/ebolt/engine/OutputRouter.java:50 | `floorEntry`: the result is a key of the map not above the hash value and no smaller than any such key; there is none exactly when every non-negative key is above the hash value |
| Partition.FloorFindsRange | src/main/java/com/pku/ebolt/engine/OutputRouter.java:46-52 | on a partition the floor lookup of a hash value always succeeds and finds the one range that holds the value |
| Partition.Route | src/main/java/com/pku/ebolt/engine/OutputRouter.java:46-52 | `route` returns the target of the range that holds the hash value, and such a range exists |
| Partition.GetTarget | src/main/java/com/pku/ebolt/engine/OutputRouter.java:54-58 | `getTarget(L)`, the target of the range keyed by `L`; characterised by `Partition.GetTargetIsRouteOfRange` as the route of every hash value of that range |
| Partition.IsValidLowerBound | src/main/java/com/pku/ebolt/engine/OutputRouter.java:69-71 | `isValidLowerBound(L)`, membership of `L` among the lower bounds; characterised by `Partition.ValidLowerBoundIsBoundary` |
| Partition.CanBeSplit | src/main/java/com/pku/ebolt/engine/OutputRouter.java:73-78 | `canBeSplit(L)`, `L` below its upper bound; characterised by `Partition.CanBeSplitIffTwoValues` |
| Partition.Retarget | src/main/java/com/pku/ebolt/engine/OutputRouter.java:60-67 | the map after `setTarget(L, t)`; its effect on the invariant and on routing is stated by `Partition.RetargetPreservesWellFormed` and `Partition.RetargetRoutes` |
| Partition.GetTargetIsRouteOfRange | src/main/java/com/pku/ebolt/engine/OutputRouter.java:54-58 | every hash value of the range keyed by `L` is routed to `getTarget(L)` |
| Partition.ValidLowerBoundIsBoundary | src/main/java/com/pku/ebolt/engine/OutputRouter.java:69-71 | `isValidLowerBound(L)` holds exactly when the range holding `L - 1` ends at `L - 1` |
| Partition.CanBeSplitIffTwoValues | src/main/java/com/pku/ebolt/engine/OutputRouter.java:73-78 | `canBeSplit(L)` holds exactly when `L + 1` is a hash value that starts no range, so the range holds at least two values |
| Partition.RetargetRoutes | src/main/java/com/pku/ebolt/engine/OutputRouter.java:60-67 | `setTarget` keeps the invariant, and sends exactly the hash values of the range keyed by `L` to the new target; all other routes stay as they were |
| Partition.RetargetPreservesWellFormed | src/main/java/com/pku/ebolt/engine/OutputRouter.java:60-67 | `setTarget` keeps every range's bounds, so the map stays a partition into halving blocks |
| Partition.Midpoint | src/main/java/com/pku/ebolt/engine/OutputRouter.java:90 | the middle of `[L, U]` with `L < U` lies in `[L, U)`, and the two halves differ in size by at most one |
| Partition.JavaMidpointAgreesWithoutOverflow | src/main/java/com/pku/ebolt/engine/OutputRouter.java:90 | while `L + U` fits in an `int`, the source's `int` middle equals the middle |
| Partition.JavaMidpointLeavesRange | src/main/java/com/pku/ebolt/engine/OutputRouter.java:90 | for the range `[2^30, 2^31 - 1]` the source's `int` middle is `-2^29`, below the range |
| Partition.JavaMidpoint | src/main/java/com/pku/ebolt/engine/OutputRouter.java:90 | the source's `int` middle (wrapped sum, `/ 2` toward zero); compared with `Partition.Midpoint` by `Partition.JavaMidpointAgreesWithoutOverflow` and `Partition.JavaMidpointLeavesRange` |
| Partition.SplitMap | src/main/java/com/pku/ebolt/engine/OutputRouter.java:81-95 | the map after `split(L, t)`; characterised by `Partition.SplitKeys`, `Partition.SplitPreservesPartition`, `Partition.SplitPreservesWellFormed` and `Partition.SplitRoutes` |
| Partition.SplitKeys | src/main/java/com/pku/ebolt/engine/OutputRouter.java:81-95 | `split` adds exactly one lower bound, `middle + 1` |
| Partition.SplitPreservesPartition | src/main/java/com/pku/ebolt/engine/OutputRouter.java:81-95 | splitting a range holding two or more values keeps the partition, and `middle + 1` was no lower bound before |
| Partition.SplitPreservesWellFormed | src/main/java/com/pku/ebolt/engine/OutputRouter.java:81-95 | splitting a halving block yields two halves of exactly half its size, and the map stays a partition into halving blocks |
| Partition.SplitRoutes | src/main/java/com/pku/ebolt/engine/OutputRouter.java:81-95 | after `split(L, t)`, the hash values of the upper half go to `t` and all others keep their target |
| Siblings.BuddyIsOther | src/main/java/com/pku/ebolt/engine/OutputRouter.java:146-149 | a range's sibling is never the range itself, and it is the sentinel `MIN_VALUE` exactly for the whole domain |
| Siblings.BuddyIsBlock | src/main/java/com/pku/ebolt/engine/OutputRouter.java:146-161 | any other sibling is a halving block of the same size, inside the domain, right after or right before the range |
| Siblings.BuddyOfBuddy | src/main/java/com/pku/ebolt/engine/OutputRouter.java:146-161 | the sibling of the sibling is the range itself |
| Siblings.BuddyUnion | src/main/java/com/pku/ebolt/engine/OutputRouter.java:114-122 | a range and its sibling together form the halving block of twice the size, which `merge` creates |
| Siblings.BitSibling | src/main/java/com/pku/ebolt/engine/OutputRouter.java:150-161 | the bit arithmetic of `siblingNode` on a range's bounds, with `U + 1` wrapping to `MIN_VALUE`; proved equal to the independent `Buddy` by `Siblings.BitSiblingIsBuddy` |
| Siblings.SiblingNode | src/main/java/com/pku/ebolt/engine/OutputRouter.java:146-161 | `siblingNode(L)` on the map; characterised by `Siblings.SiblingNodeIsBuddy` and `Siblings.SiblingPresent` |
| Siblings.BitSiblingIsBuddy | src/main/java/com/pku/ebolt/engine/OutputRouter.java:150-161 | for a halving block, the bit arithmetic of `siblingNode` yields the other half of the block it was split from, or `MIN_VALUE` for the whole domain |
| Siblings.SiblingNodeIsBuddy | src/main/java/com/pku/ebolt/engine/OutputRouter.java:150-161 | `siblingNode(L)` is the sibling block of the range keyed by `L`, and differs from `L` |
| Siblings.SiblingPresent | src/main/java/com/pku/ebolt/engine/OutputRouter.java:146-161 | in a well-formed tree, `siblingNode(L)` is `MIN_VALUE` exactly for the root range; otherwise it is a lower bound of the map, adjacent to the range |
| Siblings.IsSiblingSplit | src/main/java/com/pku/ebolt/engine/OutputRouter.java:137-144 | `isSiblingSplit(S, L)`: the length test on a sibling after `L`, the end test on one before; characterised, through `isSiblingAvailable`, by `Siblings.SiblingAvailableIff` |
| Siblings.IsSiblingAvailable | src/main/java/com/pku/ebolt/engine/OutputRouter.java:97-103 | `isSiblingAvailable(L)`; characterised by `Siblings.SiblingAvailableIff` (a sibling range of the same size) and `Siblings.SiblingSymmetric` |
| Siblings.SiblingAvailableIff | src/main/java/com/pku/ebolt/engine/OutputRouter.java:97-103 | `isSiblingAvailable(L)` holds exactly when the sibling is a range of the map of the same size; the two ranges are then adjacent |
| Siblings.Sibling | src/main/java/com/pku/ebolt/engine/OutputRouter.java:125-135 | `sibling(L)` returns a target exactly when the sibling is available, and that target is the one of the range keyed by `siblingNode(L)`, a different range of the same size |
| Siblings.RootHasNoSibling | src/main/java/com/pku/ebolt/engine/OutputRouter.java:127-133 | the root range's sibling node is `MIN_VALUE`, so it has no available sibling and `sibling` returns none |
| Siblings.SiblingSymmetric | src/main/java/com/pku/ebolt/engine/OutputRouter.java:97-103 | when `L`'s sibling is available, `L` is the sibling's sibling and is available to it |
| Siblings.MergedMap | src/main/java/com/pku/ebolt/engine/OutputRouter.java:108-123 | the map after `merge(L)`; characterised by `Siblings.MergePreservesWellFormed`, `Siblings.MergeKeys`, `Siblings.MergeRoutes` and `Siblings.MergeUndoesSplit` |
| Siblings.MergePreservesWellFormed | src/main/java/com/pku/ebolt/engine/OutputRouter.java:108-123 | merging two available siblings keeps the invariant; the lower bound kept has a range of twice the size with the sibling's target, and the higher one is gone |
| Siblings.MergeKeys | src/main/java/com/pku/ebolt/engine/OutputRouter.java:108-123 | `merge` removes exactly the higher of the two lower bounds |
| Siblings.MergeRoutes | src/main/java/com/pku/ebolt/engine/OutputRouter.java:108-123 | after a merge, the hash values of both halves go to the sibling's target and all others keep theirs |
| Siblings.MergeUndoesSplit | src/main/java/com/pku/ebolt/engine/OutputRouter.java:81-123 | after `split(L, t)` the two halves are each other's available siblings; merging the new range restores the map, and merging `L` restores it with target `t` |
| OutputRouting.RouteTree.constructor | src/main/java/com/pku/ebolt/engine/OutputRouter.java:27-30 | one range `[0, MAX_VALUE]` bound to the target, and the invariant holds |
| OutputRouting.RouteTree.FromTargets | src/main/java/com/pku/ebolt/engine/OutputRouter.java:32-44 | the list constructor leaves a well-formed tree with one range per target; each target owns its own range, and no range is more than twice the size of another |
| OutputRouting.RouteTree.SetTarget | src/main/java/com/pku/ebolt/engine/OutputRouter.java:60-67 | returns the old target; the range keeps its bounds and gets the new target; all other ranges are unchanged |
| OutputRouting.RouteTree.Split | src/main/java/com/pku/ebolt/engine/OutputRouter.java:80-95 | the map becomes the split map and stays well formed; the new lower bound `middle + 1` is returned and was not a lower bound before; the two halves have half the size each |
| OutputRouting.RouteTree.Merge | src/main/java/com/pku/ebolt/engine/OutputRouter.java:105-123 | returns -1 and changes nothing exactly when the sibling is not available; otherwise returns the lower of the two lower bounds and leaves the merged map |
| OutputRouting.RouteTree.Route | src/main/java/com/pku/ebolt/engine/OutputRouter.java:46-52 | `route(key)` on a valid tree is the target of a range that holds `key` |
| OutputRouting.RouteTree.GetTarget | src/main/java/com/pku/ebolt/engine/OutputRouter.java:54-58 | in a valid tree, every hash value of the range keyed by `L` is routed to `getTarget(L)` |
| OutputRouting.RouteTree.IsValidLowerBound | src/main/java/com/pku/ebolt/engine/OutputRouter.java:69-71 | in a valid tree, `isValidLowerBound(L)` holds exactly when the range holding `L - 1` ends at `L - 1` |
| OutputRouting.RouteTree.CanBeSplit | src/main/java/com/pku/ebolt/engine/OutputRouter.java:73-78 | in a valid tree, `canBeSplit(L)` holds exactly when `L + 1` is a hash value that starts no range |
| OutputRouting.RouteTree.IsSiblingAvailable | src/main/java/com/pku/ebolt/engine/OutputRouter.java:97-103 | `isSiblingAvailable(L)` holds exactly when the sibling node is a range of the tree of the same size |
| OutputRouting.RouteTree.Sibling | src/main/java/com/pku/ebolt/engine/OutputRouter.java:125-135 | `sibling(L)` returns a target exactly when the sibling is available, and then the target of the range keyed by `siblingNode(L)` |
| OutputRouting.FillsDomain | src/main/java/com/pku/ebolt/engine/OutputRouter.java:38-43 | a round of the list constructor on ranges of size `s` covers the domain: the number of such ranges times `s` is the domain size |
| OutputRouting.HeadCanBeSplit | src/main/java/com/pku/ebolt/engine/OutputRouter.java:39-40 | while there are fewer targets than hash values, the range at the head of the queue has the size of the current round, which is at least 2; so the source's assertion `canBeSplit(lowerBound)` holds |
| OutputRouting.QueueAfterSplit | src/main/java/com/pku/ebolt/engine/OutputRouter.java:39-42 | polling the head, re-queueing it and queueing the new lower bound keeps the queue a repeat-free list of all lower bounds, with the sizes of the current round before the halves |
| OutputRouting.OwnersAfterSplit | src/main/java/com/pku/ebolt/engine/OutputRouter.java:42 | the split hands the new range to the next target and leaves every earlier target its own range |
| OutputRouting.RunBuilds | src/main/java/com/pku/ebolt/engine/OutputRouter.java:32-44 | after each target, the map is well formed with one range per target so far, and the queue holds every lower bound once, in rounds of halving sizes |
| OutputRouting.RunOwned | src/main/java/com/pku/ebolt/engine/OutputRouter.java:32-44 | after `i` targets, target `j` owns the `j`-th range created, for every `j < i` |
| OutputRouting.RunStep | src/main/java/com/pku/ebolt/engine/OutputRouter.java:38-40 | before each iteration, the map is well formed and the head of the queue is a lower bound that can be split |
| OutputRouting.RunStepped | src/main/java/com/pku/ebolt/engine/OutputRouter.java:39-42 | poll, re-queue, split and queue the new lower bound: this iteration reaches the constructor's state for one more target |
| OutputRouting.RunFinishes | src/main/java/com/pku/ebolt/engine/OutputRouter.java:32-44 | when the targets run out, the map is well formed, has one range per target, gives each target its own range, and is balanced |
| OutputRouting.QueuedIsBalanced | src/main/java/com/pku/ebolt/engine/OutputRouter.java:38-43 | ranges of one round and its halves differ in size by at most a factor of two |
| InputRouting.RouterMap.constructor | src/main/java/com/pku/ebolt/engine/InputRouter.java:13-15 | a new router map has no entries |
| InputRouting.RouterMap.IsTargetAvailable | src/main/java/com/pku/ebolt/engine/InputRouter.java:17-19 | `isTargetAvailable(k)`, membership of `k` in the table; `InputRouting.RouterMap.Route` returns a worker exactly when it holds |
| InputRouting.RouterMap.Route | src/main/java/com/pku/ebolt/engine/InputRouter.java:17-23 | `route(k)` returns a worker exactly when `isTargetAvailable(k)`, and then the worker stored for `k` |
| InputRouting.RouterMap.SetTarget | src/main/java/com/pku/ebolt/engine/InputRouter.java:25-27 | `k` now routes to the target; every other key keeps its entry |
| InputRouting.WorkerFactory.CreateWorker | src/main/java/com/pku/ebolt/engine/InputRouter.java:56 | each call returns a new worker id, one more than the last |
| InputRouting.Receive | src/main/java/com/pku/ebolt/engine/InputRouter.java:50-61 | `onReceive` on the state as a value; characterised by `InputRouting.ReceiveMemoizes` |
| InputRouting.Run | src/main/java/com/pku/ebolt/engine/InputRouter.java:50-61 | `onReceive` over a sequence of messages; characterised by `InputRouting.RunMemoizes`, `InputRouting.RunKeepsMappings`, `InputRouting.RunCountsNewKeys`, `InputRouting.RunForwards` and `InputRouting.OneWorkerPerKey` |
| InputRouting.ReceiveMemoizes | src/main/java/com/pku/ebolt/engine/InputRouter.java:51-61 | a tuple whose key has a worker goes to it with no factory call and no change; a new key gets exactly one new worker, is stored with it, and the tuple goes to it; other messages change nothing; the table stays a memo of the factory |
| InputRouting.RunMemoizes | src/main/java/com/pku/ebolt/engine/InputRouter.java:51-61 | over any sequence of messages, the table keeps distinct workers, one created per entry |
| InputRouting.RunKeepsMappings | src/main/java/com/pku/ebolt/engine/InputRouter.java:54-58 | over any sequence of messages, no existing mapping changes, and the keys mapped are the old ones plus the keys of the tuples received |
| InputRouting.RunCountsNewKeys | src/main/java/com/pku/ebolt/engine/InputRouter.java:55-57 | over any sequence of messages, the factory is called once per distinct key that had no worker |
| InputRouting.RunForwards | src/main/java/com/pku/ebolt/engine/InputRouter.java:54-60 | over any sequence of messages, every tuple is forwarded to the worker its key is mapped to, and other messages are not forwarded |
| InputRouting.OneWorkerPerKey | src/main/java/com/pku/ebolt/engine/InputRouter.java:44-61 | from a new router, the factory is called exactly once per distinct key received, and distinct keys get distinct workers |
| InputRouting.InputRouter.constructor | src/main/java/com/pku/ebolt/engine/InputRouter.java:44-48 | a new router has an empty, fresh router map and keeps the factory it is given |
| InputRouting.InputRouter.OnReceive | src/main/java/com/pku/ebolt/engine/InputRouter.java:50-61 | `onReceive` changes the table and the factory as `Receive` says and returns the worker the message is forwarded to; the table stays a memo of the factory |
| WordCount.Collector.Emit | src/main/java/com/pku/sault/app/wordcount/WordCounter.java:26 | emitting appends the tuple to the collector's log |
| WordCount.Count | src/main/java/com/pku/sault/app/wordcount/WordCounter.java:24 | the count after `+=` on a Java `int`, value by value; characterised by `WordCount.CountStep` and `WordCount.CountIsWrappedSum` (the exact sum wrapped once) |
| WordCount.CountStep | src/main/java/com/pku/sault/app/wordcount/WordCounter.java:24 | one more value adds to the count with Java `int` wrap-around |
| WordCount.CountIsWrappedSum | src/main/java/com/pku/sault/app/wordcount/WordCounter.java:24 | the count is the exact sum of the values since `prepare`, wrapped once to 32 bits |
| WordCount.KeepsEmitting | src/main/java/com/pku/sault/app/wordcount/WordCounter.java:24-26 | once the values reach 1000, every further non-negative value keeps the count at 1000 or more, as long as the exact sum fits in an `int`; so every later `execute` emits |
| WordCount.CountWrapsAround | src/main/java/com/pku/sault/app/wordcount/WordCounter.java:24-26 | values `MAX_VALUE` then `1` make the count `MIN_VALUE`, below 1000, although their sum is above |
| WordCount.WordCounter.constructor | src/main/java/com/pku/sault/app/wordcount/WordCounter.java:7-11 | a new bolt has no collector, no word and a count of 0 |
| WordCount.WordCounter.Prepare | src/main/java/com/pku/sault/app/wordcount/WordCounter.java:14-18 | `prepare` takes the collector and sets the count to 0; the word is not reset |
| WordCount.WordCounter.Execute | src/main/java/com/pku/sault/app/wordcount/WordCounter.java:20-27 | the first tuple fixes the word, which never changes afterwards; the count is the `int` sum of all values since `prepare`; exactly one `(word, count)` is emitted when the new count is 1000 or more, and nothing otherwise |
| WordCount.WordCounter.Cleanup | src/main/java/com/pku/sault/app/wordcount/WordCounter.java:29-32 | `cleanup` appends exactly one `(word, count)` and changes nothing else |

## Left out

- **Actor plumbing.** This is `OutputRouter` (OutputRouter.java:164-188) and
  `InputRouter.props`, `getContext`, `forward` and `unhandled`.
  - Forwarding is modelled as the worker that `OnReceive` returns.
  - A message that is not a tuple returns none.
- **`WorkerFactory`.** Its `setContext` and `createWorker` are outside this
  model. The factory is modelled as a counter that hands out fresh worker
  ids. The invariant that the table holds one worker per id handed out
  assumes the router is the only caller of its factory, which is bound to the
  router's own actor context (InputRouter.java:46).
- **`TupleWrapper.hashCode` and `equals`.**
  - The route tree takes the hash value as a given integer in
    `[0, MAX_VALUE]`. `route`'s `assert(key >= 0)` becomes a `requires`.
  - The router map takes keys of an abstract type with equality.
- **`Tuple`, `Collector.emit` and the Java casts in `execute`.** A tuple is a
  string key and an `int` value. The collector is the log of what was
  emitted. Null keys and values are not modelled.
- **Null targets.**
  - `split` asserts a non-null target.
  - The router map never stores null.
  - `isTargetAvailable` is therefore key membership.
- **The Java `assert`s.** The route tree's `assert(isValidLowerBound(L))` in
  `getTarget`, `setTarget`, `canBeSplit` and `split` becomes a `requires`.
  So does `split`'s `assert(lowerBound < upperBound)`. `merge` and `sibling`
  dereference the node of `L`, so they require `L` to be a lower bound.
- **Aliasing and object identity.**
  - Range nodes are values in the map, whereas the Java code mutates
    `RouteTreeNode` objects in place.
  - The only sharing the Java code creates is a node moved to a new key by
    `merge`. It removes the old key at once, so a value model captures it.
- **`System.err.println` diagnostics.**
- **Concurrency and mailbox ordering.** Messages are handled one at a time.
- **SubOperator.java.** It is not part of this model.
- OutputRouting.RouteTree.FromTargets: starts from an empty map. The Java
  list constructor uses `routeMap` at line 36 without ever assigning it,
  which fails on the null reference.
- OutputRouting.RouteTree.FromTargets: accepts at most 2^31 targets.
  That is one range per hash value.
- OutputRouting.RouteTree.Merge: returns -1 for the root range. The root
  range has no sibling. The Java code looks up the sentinel `MIN_VALUE` in
  `isSiblingSplit` (line 110, then line 139), gets null, and fails
  dereferencing it.
- OutputRouting.RouteTree.Split: uses the mathematical middle. The Java
  `int` middle at line 90 overflows for ranges above `2^30`; see Findings.
- WordCount.WordCounter.Execute: requires a collector.
  - That is, `prepare` must run first.
  - The Java code only fails without one when it actually emits.
- WordCount.WordCounter.Cleanup: requires a collector. That is,
  `prepare` must run first.
- WordCount.KeepsEmitting: only while the exact sum fits in an `int`.
  Beyond that the count wraps around and the emissions stop; see
  `CountWrapsAround`.

## Findings

| source | as written | input that shows it | evidently intended | confidence | as-written member | corrected member |
|---|---|---|---|---|---|---|
| src/main/java/com/pku/ebolt/engine/OutputRouter.java:90 | `int middle = (lowerBound + upperBound) / 2;` adds in 32-bit `int` | `lowerBound = 2^30`, `upperBound = 2^31 - 1`, the range the list constructor splits for its fourth target: the sum wraps to `-2^30 - 1` and `middle` is `-2^29`, outside the range, so the split breaks the partition | the middle of the range on exact integers, for example `lowerBound + (upperBound - lowerBound) / 2` | not executed | Partition.JavaMidpointLeavesRange | Partition.SplitPreservesWellFormed |
