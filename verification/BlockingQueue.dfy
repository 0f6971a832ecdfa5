/** The queue object of BlockingQueue.h: one method for each lock region, proved against the monitor. */
module BlockingQueues {
  import opened Results
  import opened Monitors

  class BlockingQueue<T(==)> {
    var queue: seq<T>
    const capacity: nat

    /** The threads waiting on the two condition variables, and those woken but not yet running. */
    var asleepTakers: set<Tid>
    var wokenTakers: set<Tid>
    var asleepAdders: map<Tid, T>
    var wokenAdders: map<Tid, T>

    /** Which of the woken threads were woken by notify_one, and the history of operations and actions. */
    ghost var notifiedTakers: set<Tid>
    ghost var notifiedAdders: set<Tid>
    ghost var log: seq<Op<T>>
    ghost var history: seq<Action<T>>

    ghost function View(): Monitor<T>
      reads this
    {
      Monitor(queue, capacity, asleepTakers, wokenTakers, asleepAdders, wokenAdders,
              notifiedTakers, notifiedAdders, log)
    }

    /** The object is where a run of the monitor ends, so all that holds of reachable states holds of it. */
    ghost predicate Valid()
      reads this
    {
      RunOf(Empty<T>(capacity), history) && View() == Final(Empty<T>(capacity), history)
    }

    lemma ValidImpliesInvariant()
      requires Valid()
      ensures Invariant(View())
    {
      Reached(capacity, history);
    }

    /** One action of the monitor, recorded: the object is valid again and every thread is where the action puts it. */
    lemma Acts(before: Monitor<T>, a: Action<T>)
      requires RunOf(Empty<T>(capacity), history) && before == Final(Empty<T>(capacity), history)
      requires Enabled(before, a)
      ensures RunOf(Empty<T>(capacity), history + [a])
      ensures Final(Empty<T>(capacity), history + [a]) == Monitors.Step(before, a)
      ensures Moved(before, Monitors.Step(before, a), Actor(a), Destination(before, a), WokenBy(a))
    {
      Reached(capacity, history);
      StepMoves(before, a);
      RunExtends(Empty<T>(capacity), history, a);
    }

    constructor (maxCapacity: nat)
      ensures Valid() && View() == Empty(maxCapacity)
    {
      queue, capacity := [], maxCapacity;
      asleepTakers, wokenTakers, asleepAdders, wokenAdders := {}, {}, map[], map[];
      notifiedTakers, notifiedAdders, log, history := {}, {}, [], [];
    }

    /** notEmpty.notify_one() */
    method NotifyNotEmpty() returns (woken: Option<Tid>)
      modifies `asleepTakers, `wokenTakers, `notifiedTakers
      ensures Wakes(old(asleepTakers), woken)
      ensures View() == WakeTaker(old(View()), woken)
    {
      woken := None;
      if asleepTakers != {} {
        var t :| t in asleepTakers;
        asleepTakers, wokenTakers := asleepTakers - {t}, wokenTakers + {t};
        notifiedTakers := notifiedTakers + {t};
        woken := Some(t);
      }
    }

    /** notFull.notify_one() */
    method NotifyNotFull() returns (woken: Option<Tid>)
      modifies `asleepAdders, `wokenAdders, `notifiedAdders
      ensures Wakes(old(asleepAdders.Keys), woken)
      ensures View() == WakeAdder(old(View()), woken)
    {
      woken := None;
      if asleepAdders.Keys != {} {
        var t :| t in asleepAdders.Keys;
        wokenAdders := wokenAdders[t := asleepAdders[t]];
        asleepAdders := asleepAdders - {t};
        notifiedAdders := notifiedAdders + {t};
        woken := Some(t);
      }
    }

    /** add, from taking the lock until it returns or waits on notFull. */
    method Add(t: Tid, item: T) returns (done: bool, woken: Option<Tid>)
      requires Valid() && t !in Threads(View())
      modifies this
      ensures Valid()
      ensures Enabled(old(View()), EnterAdd(t, item, woken))
      ensures View() == Monitors.Step(old(View()), EnterAdd(t, item, woken))
      ensures done <==> |old(queue)| < capacity
      ensures queue == if done then old(queue) + [item] else old(queue)
      ensures if done then Wakes(old(asleepTakers), woken) else woken.None?
      ensures Moved(old(View()), View(), Some(t), if done then Outside else AdderAsleep(item), woken)
    {
      ghost var before := View();
      if |queue| < capacity {
        queue := queue + [item];
        log := log + [Added(item)];
        woken := NotifyNotEmpty();
        done := true;
      } else {
        asleepAdders := asleepAdders[t := item];
        done, woken := false, None;
      }
      Acts(before, EnterAdd(t, item, woken));
      history := history + [EnterAdd(t, item, woken)];
    }

    /** add, after its wait was woken and has the lock again. */
    method ResumeAdding(t: Tid) returns (done: bool, woken: Option<Tid>)
      requires Valid() && t in wokenAdders
      modifies this
      ensures Valid()
      ensures Enabled(old(View()), ResumeAdd(t, woken))
      ensures View() == Monitors.Step(old(View()), ResumeAdd(t, woken))
      ensures done <==> |old(queue)| < capacity
      ensures queue == if done then old(queue) + [old(wokenAdders[t])] else old(queue)
      ensures if done then Wakes(old(asleepTakers), woken) else woken.None?
      ensures Moved(old(View()), View(), Some(t), if done then Outside else AdderAsleep(old(wokenAdders[t])), woken)
    {
      ghost var before := View();
      var item := wokenAdders[t];
      wokenAdders := wokenAdders - {t};
      notifiedAdders := notifiedAdders - {t};
      if |queue| < capacity {
        queue := queue + [item];
        log := log + [Added(item)];
        woken := NotifyNotEmpty();
        done := true;
      } else {
        asleepAdders := asleepAdders[t := item];
        done, woken := false, None;
      }
      Acts(before, ResumeAdd(t, woken));
      history := history + [ResumeAdd(t, woken)];
    }

    /** take(), from taking the lock until it returns or waits on notEmpty. */
    method Take(t: Tid) returns (item: Option<T>, woken: Option<Tid>)
      requires Valid() && t !in Threads(View())
      modifies this
      ensures Valid()
      ensures Enabled(old(View()), EnterTake(t, woken))
      ensures View() == Monitors.Step(old(View()), EnterTake(t, woken))
      ensures item == if old(queue) == [] then None else Some(old(queue)[0])
      ensures queue == if item.Some? then old(queue)[1..] else old(queue)
      ensures if item.Some? then Wakes(old(asleepAdders.Keys), woken) else woken.None?
      ensures Moved(old(View()), View(), Some(t), if item.Some? then Outside else TakerAsleep, woken)
    {
      ghost var before := View();
      item, woken := None, None;
      if |queue| > 0 {
        item, woken := PopFront();
      } else {
        asleepTakers := asleepTakers + {t};
      }
      Acts(before, EnterTake(t, woken));
      history := history + [EnterTake(t, woken)];
    }

    method ResumeTaking(t: Tid) returns (item: Option<T>, woken: Option<Tid>)
      requires Valid() && t in wokenTakers
      modifies this
      ensures Valid()
      ensures Enabled(old(View()), ResumeTake(t, woken))
      ensures View() == Monitors.Step(old(View()), ResumeTake(t, woken))
      ensures item == if old(queue) == [] then None else Some(old(queue)[0])
      ensures queue == if item.Some? then old(queue)[1..] else old(queue)
      ensures if item.Some? then Wakes(old(asleepAdders.Keys), woken) else woken.None?
      ensures Moved(old(View()), View(), Some(t), if item.Some? then Outside else TakerAsleep, woken)
    {
      ghost var before := View();
      item, woken := None, None;
      wokenTakers := wokenTakers - {t};
      notifiedTakers := notifiedTakers - {t};
      if |queue| > 0 {
        item, woken := PopFront();
      } else {
        asleepTakers := asleepTakers + {t};
      }
      Acts(before, ResumeTake(t, woken));
      history := history + [ResumeTake(t, woken)];
    }

    method TryTaking() returns (item: Option<T>, woken: Option<Tid>)
      requires Valid()
      modifies this
      ensures Valid()
      ensures Enabled(old(View()), TryTake(woken))
      ensures View() == Monitors.Step(old(View()), TryTake(woken))
      ensures item == if old(queue) == [] then None else Some(old(queue)[0])
      ensures queue == if item.Some? then old(queue)[1..] else old(queue)
      ensures if item.Some? then Wakes(old(asleepAdders.Keys), woken) else woken.None?
      ensures Moved(old(View()), View(), None, Outside, woken)
    {
      ghost var before := View();
      item, woken := None, None;
      if |queue| == 0 {
        log := log + [FoundEmpty];
      } else {
        item, woken := PopFront();
      }
      Acts(before, TryTake(woken));
      history := history + [TryTake(woken)];
    }

    method PopFront() returns (item: Option<T>, woken: Option<Tid>)
      requires queue != []
      modifies `queue, `log, `asleepAdders, `wokenAdders, `notifiedAdders
      ensures item == Some(old(queue)[0])
      ensures Wakes(old(asleepAdders.Keys), woken)
      ensures View() == DoTake(old(View()), woken)
    {
      item := Some(queue[0]);
      log := log + [TookFront(queue[0])];
      queue := queue[1..];
      woken := NotifyNotFull();
    }

    /** std::find over the deque. */
    method Find(x: T) returns (i: nat)
      ensures i <= |queue| && x !in queue[..i] && (i < |queue| ==> queue[i] == x)
      ensures i == IndexOf(queue, x)
    {
      i := 0;
      while i < |queue| && queue[i] != x
        invariant i <= |queue| && x !in queue[..i]
      {
        i := i + 1;
      }
    }

    /** take(item) */
    method TakeThe(x: T) returns (found: bool, woken: Option<Tid>)
      requires Valid()
      modifies this
      ensures Valid()
      ensures Enabled(old(View()), TakeItem(x, woken))
      ensures View() == Monitors.Step(old(View()), TakeItem(x, woken))
      ensures found <==> x in old(queue)
      ensures found ==> exists i :: 0 <= i < |old(queue)| && old(queue)[i] == x && x !in old(queue)[..i]
                                    && queue == old(queue)[..i] + old(queue)[i + 1..]
      ensures !found ==> queue == old(queue)
      ensures if found then Wakes(old(asleepAdders.Keys), woken) else woken.None?
      ensures Moved(old(View()), View(), None, Outside, woken)
    {
      ghost var before := View();
      woken := None;
      var i := Find(x);
      found := i != |queue|;
      if found {
        queue := queue[..i] + queue[i + 1..];
        log := log + [Removed(x)];
        woken := NotifyNotFull();
      } else {
        log := log + [NotFound(x)];
      }
      RemoveFirstMeaning(before.queue, x);
      Acts(before, TakeItem(x, woken));
      history := history + [TakeItem(x, woken)];
    }
  }
}
