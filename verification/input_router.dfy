/**
 * The exact-key router of the input side (InputRouter.java): `RouterMap`
 * keeps one worker per key, and `InputRouter.onReceive` creates the worker
 * of a key the first time the key arrives and forwards every tuple to the
 * worker of its key. Keys stand for `TupleWrapper`s, compared by equality;
 * workers are the ids handed out by `WorkerFactory.createWorker`, modelled as
 * a counter of fresh ids.
 */
module InputRouting {
  import opened Wrappers

  /** A worker actor, known by the id the factory gave it. */
  type Worker = nat

  /** `RouterMap`: the table from key to the worker of that key. */
  class RouterMap<K(==), W> {
    var routerTable: map<K, W>

    /** A fresh router map has no entries. */
    constructor ()
      ensures routerTable == map[]
    {
      routerTable := map[];
    }

    /** `isTargetAvailable`: the key has a worker. */
    predicate IsTargetAvailable(k: K)
      reads this
    {
      k in routerTable
    }

    /** `route`: the worker of the key, none when the key has none. */
    function Route(k: K): (r: Option<W>)
      reads this
      ensures r.Some? <==> IsTargetAvailable(k)
      ensures r.Some? ==> r.value == routerTable[k]
    {
      if k in routerTable then Some(routerTable[k]) else None
    }

    /** `setTarget`: the key now has `target`; every other key keeps its worker. */
    method SetTarget(k: K, target: W)
      modifies this
      ensures routerTable == old(routerTable)[k := target]
      ensures Route(k) == Some(target)
      ensures forall k' :: k' != k && k' in old(routerTable) ==> k' in routerTable && routerTable[k'] == old(routerTable)[k']
    {
      routerTable := routerTable[k := target];
    }
  }

  /** `WorkerFactory.createWorker`, abstracted to a source of fresh worker ids. */
  class WorkerFactory {
    var nextId: nat

    constructor (firstId: nat)
      ensures nextId == firstId
    {
      nextId := firstId;
    }

    method CreateWorker() returns (w: Worker)
      modifies this
      ensures w == old(nextId) && nextId == old(nextId) + 1
    {
      w := nextId;
      nextId := nextId + 1;
    }
  }

  /** What reaches `onReceive`: a tuple with its key, or any other message. */
  datatype Message<K> = TupleMessage(key: K) | OtherMessage

  /** The router's state as a value: its table and the factory's next id. */
  datatype RouterState<K> = RouterState(table: map<K, Worker>, nextId: nat)

  /**
   * `onReceive` on the state as a value: the new state and the worker the
   * message is forwarded to, none for a message that is not a tuple.
   */
  function Receive<K>(s: RouterState<K>, msg: Message<K>): (RouterState<K>, Option<Worker>)
  {
    match msg
    case OtherMessage => (s, None)
    case TupleMessage(k) =>
      if k in s.table then (s, Some(s.table[k]))
      else (RouterState(s.table[k := s.nextId], s.nextId + 1), Some(s.nextId))
  }

  /** The state after a sequence of messages, and the worker each one went to. */
  function Run<K>(s: RouterState<K>, msgs: seq<Message<K>>): (RouterState<K>, seq<Option<Worker>>)
    decreases |msgs|
  {
    if |msgs| == 0 then (s, [])
    else
      var (s', out) := Receive(s, msgs[0]);
      var (s'', outs) := Run(s', msgs[1..]);
      (s'', [out] + outs)
  }

  /** The keys of the tuples among `msgs`. */
  function KeysOf<K>(msgs: seq<Message<K>>): (ks: set<K>)
    ensures ks == set j | 0 <= j < |msgs| && msgs[j].TupleMessage? :: msgs[j].key
    decreases |msgs|
  {
    if |msgs| == 0 then {}
    else
      var rest := KeysOf(msgs[1..]);
      assert forall j :: 1 <= j < |msgs| ==> msgs[j] == msgs[1..][j - 1];
      match msgs[0]
      case OtherMessage => rest
      case TupleMessage(k) => {k} + rest
  }

  /**
   * The table is a memo of the factory's output since `firstId`: every entry
   * holds a distinct worker created since then, and exactly one worker has
   * been created per entry.
   */
  ghost predicate Memo<K>(s: RouterState<K>, firstId: nat)
  {
    && firstId + |s.table| == s.nextId
    && (forall k :: k in s.table ==> firstId <= s.table[k] < s.nextId)
    && (forall k, k' :: k in s.table && k' in s.table && k != k' ==> s.table[k] != s.table[k'])
  }

  /**
   * One message: a tuple goes to the worker its key already has, without a
   * new worker; otherwise to one new worker, stored under the key. The table
   * only grows, and stays a memo of the factory.
   */
  lemma ReceiveMemoizes<K>(s: RouterState<K>, msg: Message<K>, firstId: nat)
    requires Memo(s, firstId)
    ensures var (s', out) := Receive(s, msg);
      && Memo(s', firstId)
      && (forall k :: k in s.table ==> k in s'.table && s'.table[k] == s.table[k])
      && (msg.OtherMessage? ==> s' == s && out.None?)
      && (msg.TupleMessage? ==> out == Some(s'.table[msg.key]))
      && (msg.TupleMessage? && msg.key in s.table ==> s' == s)
      && (msg.TupleMessage? && msg.key !in s.table ==>
            s'.nextId == s.nextId + 1 && out == Some(s.nextId) && s'.table.Keys == s.table.Keys + {msg.key})
  {
    if msg.TupleMessage? && msg.key !in s.table {
      var k := msg.key;
      var s' := Receive(s, msg).0;
      assert s'.table.Keys == s.table.Keys + {k};
      assert |s'.table| == |s.table| + 1;
    }
  }

  /** Over any sequence of messages the table stays a memo of the factory. */
  lemma {:induction false} RunMemoizes<K>(s: RouterState<K>, msgs: seq<Message<K>>, firstId: nat)
    requires Memo(s, firstId)
    ensures Memo(Run(s, msgs).0, firstId)
    decreases |msgs|
  {
    if |msgs| > 0 {
      var s1 := Receive(s, msgs[0]).0;
      ReceiveMemoizes(s, msgs[0], firstId);
      RunMemoizes(s1, msgs[1..], firstId);
    }
  }

  /**
   * Over any sequence of messages the router keeps every mapping it had and
   * maps exactly the keys seen so far.
   */
  lemma {:induction false} RunKeepsMappings<K>(s: RouterState<K>, msgs: seq<Message<K>>)
    ensures var s' := Run(s, msgs).0;
      && (forall k :: k in s.table ==> k in s'.table && s'.table[k] == s.table[k])
      && s'.table.Keys == s.table.Keys + KeysOf(msgs)
    decreases |msgs|
  {
    if |msgs| > 0 {
      var s1 := Receive(s, msgs[0]).0;
      RunKeepsMappings(s1, msgs[1..]);
      assert KeysOf(msgs) == (if msgs[0].TupleMessage? then {msgs[0].key} else {}) + KeysOf(msgs[1..]);
    }
  }

  /** Over any sequence of messages the factory is called once per key not mapped before. */
  lemma RunCountsNewKeys<K>(s: RouterState<K>, msgs: seq<Message<K>>, firstId: nat)
    requires Memo(s, firstId)
    ensures Run(s, msgs).0.nextId == s.nextId + |KeysOf(msgs) - s.table.Keys|
  {
    RunMemoizes(s, msgs, firstId);
    RunKeepsMappings(s, msgs);
    UnionCount(s.table.Keys, KeysOf(msgs));
  }

  lemma UnionCount<K>(a: set<K>, b: set<K>)
    ensures |a + b| == |a| + |b - a|
  {
    assert a + b == a + (b - a);
  }

  /** Over any sequence of messages each tuple goes to the worker its key ends up with. */
  lemma {:induction false} RunForwards<K>(s: RouterState<K>, msgs: seq<Message<K>>, firstId: nat)
    requires Memo(s, firstId)
    ensures var (s', outs) := Run(s, msgs);
      && |outs| == |msgs|
      && (forall j :: 0 <= j < |msgs| ==>
            (msgs[j].OtherMessage? ==> outs[j].None?) &&
            (msgs[j].TupleMessage? ==> msgs[j].key in s'.table && outs[j] == Some(s'.table[msgs[j].key])))
    decreases |msgs|
  {
    if |msgs| > 0 {
      var (s1, out) := Receive(s, msgs[0]);
      ReceiveMemoizes(s, msgs[0], firstId);
      RunForwards(s1, msgs[1..], firstId);
      RunKeepsMappings(s1, msgs[1..]);
      var (s', outs) := Run(s, msgs);
      var rest := Run(s1, msgs[1..]).1;
      assert outs == [out] + rest;
      forall j | 0 <= j < |msgs|
        ensures msgs[j].OtherMessage? ==> outs[j].None?
        ensures msgs[j].TupleMessage? ==> msgs[j].key in s'.table && outs[j] == Some(s'.table[msgs[j].key])
      {
        if j > 0 {
          assert msgs[j] == msgs[1..][j - 1] && outs[j] == rest[j - 1];
        }
      }
    }
  }

  /**
   * Starting from an empty table, the factory is called exactly once per
   * distinct key among the tuples received.
   */
  lemma OneWorkerPerKey<K>(msgs: seq<Message<K>>, firstId: nat)
    ensures var (s', _) := Run(RouterState(map[], firstId), msgs);
      && s'.table.Keys == KeysOf(msgs)
      && s'.nextId - firstId == |KeysOf(msgs)|
      && (forall k, k' :: k in s'.table && k' in s'.table && k != k' ==> s'.table[k] != s'.table[k'])
  {
    var s := RouterState(map[], firstId);
    assert s.table.Keys == {};
    RunMemoizes(s, msgs, firstId);
    RunKeepsMappings(s, msgs);
    RunCountsNewKeys(s, msgs, firstId);
    assert KeysOf(msgs) - s.table.Keys == KeysOf(msgs);
  }

  /** `InputRouter`: the router map and the worker factory it fills it from. */
  class InputRouter<K(==)> {
    const workerFactory: WorkerFactory
    const routerMap: RouterMap<K, Worker>
    /** The factory's next id when the router was built. */
    ghost const firstId: nat

    /** The router's state as a value. */
    ghost function State(): RouterState<K>
      reads this, routerMap, workerFactory
    {
      RouterState(routerMap.routerTable, workerFactory.nextId)
    }

    ghost predicate Valid()
      reads this, routerMap, workerFactory
    {
      Memo(State(), firstId)
    }

    /** `InputRouter(workerFactory)`: a fresh, empty router map. */
    constructor (workerFactory: WorkerFactory)
      ensures this.workerFactory == workerFactory && fresh(routerMap)
      ensures routerMap.routerTable == map[] && firstId == workerFactory.nextId
      ensures Valid()
    {
      this.workerFactory := workerFactory;
      routerMap := new RouterMap();
      firstId := workerFactory.nextId;
    }

    /**
     * `onReceive`: a tuple goes to the worker of its key, which is created
     * and stored first when the key has none; the result is the worker the
     * message is forwarded to, none for a message left unhandled.
     */
    method OnReceive(msg: Message<K>) returns (target: Option<Worker>)
      requires Valid()
      modifies routerMap, workerFactory
      ensures Valid()
      ensures State() == Receive(old(State()), msg).0 && target == Receive(old(State()), msg).1
    {
      ghost var s := State();
      ReceiveMemoizes(s, msg, firstId);
      if msg.TupleMessage? {
        var k := msg.key;
        target := routerMap.Route(k);
        if target.None? {
          var w := workerFactory.CreateWorker();
          routerMap.SetTarget(k, w);
          target := Some(w);
        }
      } else {
        target := None;
      }
    }
  }
}
