/** The client registry (Listener.cpp): a blocking queue of clients, added on accept, taken out by name. */
module Registry {
  import opened Results
  import opened Monitors

  /** A client object's identity. */
  type ClientId = nat

  /** The default capacity of a BlockingQueue. */
  const SIZE_MAX: nat := 0xFFFF_FFFF_FFFF_FFFF

  /** A goodbye or connection-lost event for c: take(c), whether or not c was there. */
  predicate IsRemoval(op: Op<ClientId>, c: ClientId) {
    op == Removed(c) || op == NotFound(c)
  }

  predicate RemovedIn(log: seq<Op<ClientId>>, c: ClientId) {
    exists i :: 0 <= i < |log| && IsRemoval(log[i], c)
  }

  /** The listener only ever adds clients and takes them by name. */
  ghost predicate RegistryLog(log: seq<Op<ClientId>>) {
    forall i :: 0 <= i < |log| ==> log[i].Added? || log[i].Removed? || log[i].NotFound?
  }

  /** A new client object is none of those in the queue. */
  ghost predicate FreshAdds(log: seq<Op<ClientId>>, capacity: nat) {
    forall i :: 0 <= i < |log| && log[i].Added? ==>
                  var q := Replay(log[..i], capacity); q.Some? && log[i].item !in q.value
  }

  /** What the registry should be: the accepted clients without a removal event after their add, in accept order. */
  function Expected(log: seq<Op<ClientId>>): seq<ClientId> {
    if log == [] then []
    else if log[0].Added? && !RemovedIn(log[1..], log[0].item) then [log[0].item] + Expected(log[1..])
    else Expected(log[1..])
  }

  function Without(q: seq<ClientId>, c: ClientId): (r: seq<ClientId>)
    ensures c !in r
  {
    if q == [] then [] else (if q[0] == c then [] else [q[0]]) + Without(q[1..], c)
  }

  predicate Distinct(q: seq<ClientId>) {
    forall i, j :: 0 <= i < j < |q| ==> q[i] != q[j]
  }

  lemma RemovedInSnoc(log: seq<Op<ClientId>>, op: Op<ClientId>, c: ClientId)
    ensures RemovedIn(log + [op], c) <==> RemovedIn(log, c) || IsRemoval(op, c)
  {
    var log' := log + [op];
    if RemovedIn(log, c) {
      var i :| 0 <= i < |log| && IsRemoval(log[i], c);
      assert IsRemoval(log'[i], c);
    }
    if IsRemoval(op, c) {
      assert IsRemoval(log'[|log|], c);
    }
  }

  /** One more event appends the accepted client, or strikes out the removed one. */
  lemma {:induction false} ExpectedSnoc(log: seq<Op<ClientId>>, op: Op<ClientId>)
    requires op.Added? || op.Removed? || op.NotFound?
    ensures Expected(log + [op]) == if op.Added? then Expected(log) + [op.item] else Without(Expected(log), op.item)
    decreases log
  {
    if log == [] {
      assert log + [op] == [op] && [op][1..] == [];
    } else {
      ExpectedSnoc(log[1..], op);
      assert (log + [op])[1..] == log[1..] + [op];
      if log[0].Added? {
        RemovedInSnoc(log[1..], op, log[0].item);
      }
    }
  }

  lemma {:induction false} WithoutIsRemoveFirst(q: seq<ClientId>, c: ClientId)
    requires Distinct(q)
    ensures Without(q, c) == RemoveFirst(q, c)
    decreases q
  {
    if q != [] {
      if q[0] == c {
        assert c !in q[1..];
        WithoutAbsent(q[1..], c);
      } else {
        WithoutIsRemoveFirst(q[1..], c);
      }
    }
  }

  lemma {:induction false} WithoutAbsent(q: seq<ClientId>, c: ClientId)
    requires c !in q
    ensures Without(q, c) == q
    decreases q
  {
    if q != [] {
      WithoutAbsent(q[1..], c);
    }
  }

  lemma RemoveFirstDistinct(q: seq<ClientId>, c: ClientId)
    requires Distinct(q)
    ensures Distinct(RemoveFirst(q, c))
  {
  }

  /** The log of a listener's queue leaves exactly the expected clients, none of them twice. */
  lemma {:induction false} ReplayIsExpected(log: seq<Op<ClientId>>, capacity: nat)
    requires RegistryLog(log) && FreshAdds(log, capacity) && Replay(log, capacity).Some?
    ensures Replay(log, capacity).value == Expected(log) && Distinct(Expected(log))
    decreases |log|
  {
    if log != [] {
      var before, op := log[..|log| - 1], log[|log| - 1];
      assert log == before + [op];
      assert forall i :: 0 <= i < |before| ==> before[..i] == log[..i] && before[i] == log[i];
      ReplayIsExpected(before, capacity);
      ExpectedSnoc(before, op);
      var q := Replay(before, capacity).value;
      if op.Added? {
        assert log[..|log| - 1] == before;
      } else {
        WithoutIsRemoveFirst(q, op.item);
        RemoveFirstDistinct(q, op.item);
      }
    }
  }

  /** A client is registered exactly when it was accepted and no removal event for it came after that. */
  lemma {:induction false} ExpectedMember(log: seq<Op<ClientId>>, c: ClientId)
    ensures c in Expected(log) <==> exists i :: 0 <= i < |log| && log[i] == Added(c) && !RemovedIn(log[i + 1..], c)
    decreases log
  {
    if log != [] {
      ExpectedMember(log[1..], c);
      if i :| 0 <= i < |log[1..]| && log[1..][i] == Added(c) && !RemovedIn(log[1..][i + 1..], c) {
        assert log[i + 1] == Added(c) && log[i + 2..] == log[1..][i + 1..];
      }
      if i :| 0 <= i < |log| && log[i] == Added(c) && !RemovedIn(log[i + 1..], c) {
        if i > 0 {
          assert log[1..][i - 1] == Added(c) && log[1..][i..] == log[i + 1..];
        }
      }
    }
  }

  /**
   Registry correctness over every concurrent run of the queue, with any number of threads: if only the listener uses
   it, the queue holds exactly the expected clients, without duplicates and in accept order.
  */
  lemma RegistryCorrect(capacity: nat, acts: seq<Action<ClientId>>)
    requires RunOf(Empty<ClientId>(capacity), acts)
    requires var log := Final(Empty<ClientId>(capacity), acts).log; RegistryLog(log) && FreshAdds(log, capacity)
    ensures var m := Final(Empty<ClientId>(capacity), acts); m.queue == Expected(m.log) && Distinct(m.queue)
  {
    Reachable(capacity, acts);
    ReplayIsExpected(Final(Empty<ClientId>(capacity), acts).log, capacity);
  }

  /** So after any such run, a client is queued exactly if some accept of it has no removal event after it. */
  lemma RegisteredExactly(capacity: nat, acts: seq<Action<ClientId>>, c: ClientId)
    requires RunOf(Empty<ClientId>(capacity), acts)
    requires var log := Final(Empty<ClientId>(capacity), acts).log; RegistryLog(log) && FreshAdds(log, capacity)
    ensures var m := Final(Empty<ClientId>(capacity), acts);
            c in m.queue <==>
            exists i :: 0 <= i < |m.log| && m.log[i] == Added(c) && !RemovedIn(m.log[i + 1..], c)
  {
    RegistryCorrect(capacity, acts);
    ExpectedMember(Final(Empty<ClientId>(capacity), acts).log, c);
  }

  /**
   The handlers are installed before the client is queued, so its goodbye can come first. Then taking it finds nothing,
   and after every run in which all removal events of c come before its add, c is still in the queue.
  */
  lemma EarlyGoodbyeStays(capacity: nat, acts: seq<Action<ClientId>>, c: ClientId, i: nat, j: nat)
    requires RunOf(Empty<ClientId>(capacity), acts)
    requires var log := Final(Empty<ClientId>(capacity), acts).log;
             && RegistryLog(log) && FreshAdds(log, capacity)
             && i < j < |log| && log[i] == NotFound(c) && log[j] == Added(c) && !RemovedIn(log[j + 1..], c)
    ensures c in Final(Empty<ClientId>(capacity), acts).queue
  {
    RegisteredExactly(capacity, acts, c);
  }

  /** Such runs exist: one thread handles the goodbye, then another one queues the client. */
  lemma EarlyGoodbyeHappens(capacity: nat, t: Tid, c: ClientId)
    requires capacity > 0
    ensures var acts := [TakeItem(c, None), EnterAdd(t, c, None)];
            && RunOf(Empty<ClientId>(capacity), acts)
            && var m := Final(Empty<ClientId>(capacity), acts);
               m.log == [NotFound(c), Added(c)] && m.queue == [c] && RegistryLog(m.log) && FreshAdds(m.log, capacity)
  {
    var a0: Action<ClientId> := TakeItem(c, None);
    var a1: Action<ClientId> := EnterAdd(t, c, None);
    var m0 := Empty<ClientId>(capacity);
    TwoSteps(m0, a0, a1);
    var log := [NotFound(c), Added(c)];
    assert Step(m0, a0).log == [NotFound(c)] && Step(Step(m0, a0), a1).log == log;
    assert log[..1] == [NotFound(c)];
    GoodbyeReplayed(capacity, c);
  }

  lemma GoodbyeReplayed(capacity: nat, c: ClientId)
    ensures Replay([NotFound(c)], capacity) == Some([])
  {
    assert [NotFound(c)] == [] + [NotFound(c)];
    ReplayPush([], NotFound(c), capacity);
  }

  lemma TwoSteps(m: Monitor<ClientId>, a0: Action<ClientId>, a1: Action<ClientId>)
    requires Enabled(m, a0) && Enabled(Step(m, a0), a1)
    ensures RunOf(m, [a0, a1]) && Final(m, [a0, a1]) == Step(Step(m, a0), a1)
  {
    assert [a0] == [] + [a0] && [a0, a1] == [a0] + [a1];
    assert RunOf(m, []) && Final(m, []) == m;
    RunExtends(m, [], a0);
    RunExtends(m, [a0], a1);
  }
}

/** The listener object. */
module Listeners {
  import opened Results
  import opened Monitors
  import opened BlockingQueues
  import opened Registry

  class Listener {
    const networkClients: BlockingQueue<ClientId>

    ghost predicate Valid()
      reads this, networkClients
    {
      && networkClients.Valid() && networkClients.capacity == SIZE_MAX
      && RegistryLog(networkClients.log) && FreshAdds(networkClients.log, SIZE_MAX)
    }

    constructor ()
      ensures Valid() && fresh(networkClients) && networkClients.queue == []
    {
      networkClients := new BlockingQueue<ClientId>(SIZE_MAX);
    }

    lemma Registered()
      requires Valid()
      ensures networkClients.queue == Expected(networkClients.log) && Distinct(networkClients.queue)
      ensures Replay(networkClients.log, SIZE_MAX) == Some(networkClients.queue)
    {
      Reachable(SIZE_MAX, networkClients.history);
      RegistryCorrect(SIZE_MAX, networkClients.history);
    }

    /** Accepting a new client; no queue in memory is as long as SIZE_MAX. */
    method Accept(t: Tid, c: ClientId)
      requires Valid() && t !in Threads(networkClients.View())
      requires c !in networkClients.queue && |networkClients.queue| < SIZE_MAX
      modifies networkClients
      ensures Valid()
      ensures networkClients.queue == old(networkClients.queue) + [c]
      ensures networkClients.log == old(networkClients.log) + [Added(c)]
    {
      Registered();
      ghost var log := networkClients.log;
      var done, woken := networkClients.Add(t, c);
      assert networkClients.log == log + [Added(c)];
      FreshExtends(log, Added(c));
    }

    lemma FreshExtends(log: seq<Op<ClientId>>, op: Op<ClientId>)
      requires RegistryLog(log) && FreshAdds(log, SIZE_MAX) && Replay(log, SIZE_MAX).Some?
      requires op.Removed? || op.NotFound? || (op.Added? && op.item !in Replay(log, SIZE_MAX).value)
      ensures RegistryLog(log + [op]) && FreshAdds(log + [op], SIZE_MAX)
    {
      var log' := log + [op];
      forall i | 0 <= i < |log'| && log'[i].Added?
        ensures Replay(log'[..i], SIZE_MAX).Some? && log'[i].item !in Replay(log'[..i], SIZE_MAX).value
      {
        assert log'[..i] == log[..i];
        assert log[..|log|] == log;
      }
    }

    /**
     NewClient_OnClientDisconnected and NewClient_OnConnectionLost: both take the client out. Afterwards it is gone and
     all others are where they were, however often the event is repeated.
    */
    method RemoveClient(c: ClientId)
      requires Valid()
      modifies networkClients
      ensures Valid()
      ensures networkClients.queue == Without(old(networkClients.queue), c)
      ensures c !in old(networkClients.queue) ==> networkClients.queue == old(networkClients.queue)
    {
      Registered();
      ghost var log, q := networkClients.log, networkClients.queue;
      var found, woken := networkClients.TakeThe(c);
      WithoutIsRemoveFirst(q, c);
      FreshExtends(log, if found then Removed(c) else NotFound(c));
    }
  }
}
