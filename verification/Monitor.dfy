/**
 The bounded blocking queue (BlockingQueue.h) as a transition system over any number of threads. One action is one
 lock region of one thread: from acquiring the mutex to releasing it, by returning or by going to sleep.
*/
module Monitors {
  import opened Results
  import opened Sequences

  type Tid = nat

  /** A completed operation, with what it returned. */
  datatype Op<T> = Added(item: T) | TookFront(item: T) | FoundEmpty | Removed(item: T) | NotFound(item: T)

  /**
   Threads asleep on notEmpty (takers) or notFull (adders, with the item they carry), and threads that were woken and
   have not yet run. The notified ones among these were woken by notify_one, the others spuriously. Every other thread
   is outside the queue.
  */
  datatype Monitor<T> = Monitor(
    queue: seq<T>,
    capacity: nat,
    asleepTakers: set<Tid>,
    wokenTakers: set<Tid>,
    asleepAdders: map<Tid, T>,
    wokenAdders: map<Tid, T>,
    notifiedTakers: set<Tid>,
    notifiedAdders: set<Tid>,
    log: seq<Op<T>>)

  /** In an action, `woken` is the thread that its notify_one picks, if the region notifies and one is asleep. */
  datatype Action<T> =
    | EnterAdd(tid: Tid, item: T, woken: Option<Tid>)
    | ResumeAdd(tid: Tid, woken: Option<Tid>)
    | EnterTake(tid: Tid, woken: Option<Tid>)
    | ResumeTake(tid: Tid, woken: Option<Tid>)
    | TryTake(woken: Option<Tid>)
    | TakeItem(item: T, woken: Option<Tid>)
    | SpuriousTaker(tid: Tid)
    | SpuriousAdder(tid: Tid)

  function Empty<T>(capacity: nat): Monitor<T> {
    Monitor([], capacity, {}, {}, map[], map[], {}, {}, [])
  }

  function Threads<T>(m: Monitor<T>): set<Tid> {
    m.asleepTakers + m.wokenTakers + m.asleepAdders.Keys + m.wokenAdders.Keys
  }

  /** notify_one wakes one of the sleepers if there is one; nobody otherwise. */
  predicate Wakes(sleepers: set<Tid>, woken: Option<Tid>) {
    match woken
    case None => sleepers == {}
    case Some(t) => t in sleepers
  }

  function WakeTaker<T>(m: Monitor<T>, woken: Option<Tid>): Monitor<T> {
    if woken.None? then m
    else m.(asleepTakers := m.asleepTakers - {woken.value},
            wokenTakers := m.wokenTakers + {woken.value},
            notifiedTakers := m.notifiedTakers + {woken.value})
  }

  function WakeAdder<T>(m: Monitor<T>, woken: Option<Tid>): Monitor<T>
    requires woken.Some? ==> woken.value in m.asleepAdders
  {
    if woken.None? then m
    else m.(asleepAdders := m.asleepAdders - {woken.value},
            wokenAdders := m.wokenAdders[woken.value := m.asleepAdders[woken.value]],
            notifiedAdders := m.notifiedAdders + {woken.value})
  }

  function IndexOf<T(==)>(q: seq<T>, x: T): (i: nat)
    ensures i <= |q| && x !in q[..i] && (i < |q| ==> q[i] == x)
    ensures i == |q| <==> x !in q
  {
    if q == [] then 0 else if q[0] == x then 0 else
      var i := 1 + IndexOf(q[1..], x);
      assert q[..i] == [q[0]] + q[1..][..i - 1];
      i
  }

  /** erase(find(begin, end, x)) */
  function RemoveFirst<T(==)>(q: seq<T>, x: T): (r: seq<T>)
    ensures x !in q ==> r == q
  {
    var i := IndexOf(q, x);
    if i < |q| then q[..i] + q[i + 1..] else q
  }

  /** push_back and notEmpty.notify_one */
  function DoAdd<T>(m: Monitor<T>, x: T, woken: Option<Tid>): Monitor<T> {
    WakeTaker(m.(queue := m.queue + [x], log := m.log + [Added(x)]), woken)
  }

  /** Removing the front and notFull.notify_one */
  function DoTake<T>(m: Monitor<T>, woken: Option<Tid>): Monitor<T>
    requires m.queue != []
    requires woken.Some? ==> woken.value in m.asleepAdders
  {
    WakeAdder(m.(queue := m.queue[1..], log := m.log + [TookFront(m.queue[0])]), woken)
  }

  /** A woken thread has the lock again. */
  function TakerRuns<T>(m: Monitor<T>, t: Tid): Monitor<T> {
    m.(wokenTakers := m.wokenTakers - {t}, notifiedTakers := m.notifiedTakers - {t})
  }

  function AdderRuns<T>(m: Monitor<T>, t: Tid): Monitor<T> {
    m.(wokenAdders := m.wokenAdders - {t}, notifiedAdders := m.notifiedAdders - {t})
  }

  predicate Enabled<T(==)>(m: Monitor<T>, a: Action<T>) {
    match a
    case EnterAdd(t, _, w) =>
      t !in Threads(m) && if |m.queue| < m.capacity then Wakes(m.asleepTakers, w) else w.None?
    case ResumeAdd(t, w) =>
      t in m.wokenAdders && if |m.queue| < m.capacity then Wakes(m.asleepTakers, w) else w.None?
    case EnterTake(t, w) =>
      t !in Threads(m) && if m.queue != [] then Wakes(m.asleepAdders.Keys, w) else w.None?
    case ResumeTake(t, w) =>
      t in m.wokenTakers && if m.queue != [] then Wakes(m.asleepAdders.Keys, w) else w.None?
    case TryTake(w) => if m.queue != [] then Wakes(m.asleepAdders.Keys, w) else w.None?
    case TakeItem(x, w) => if x in m.queue then Wakes(m.asleepAdders.Keys, w) else w.None?
    case SpuriousTaker(t) => t in m.asleepTakers
    case SpuriousAdder(t) => t in m.asleepAdders
  }

  function Step<T(==)>(m: Monitor<T>, a: Action<T>): Monitor<T>
    requires Enabled(m, a)
  {
    match a
    case EnterAdd(t, x, w) =>
      if |m.queue| < m.capacity then DoAdd(m, x, w) else m.(asleepAdders := m.asleepAdders[t := x])
    case ResumeAdd(t, w) =>
      var x := m.wokenAdders[t];
      var m' := AdderRuns(m, t);
      if |m.queue| < m.capacity then DoAdd(m', x, w) else m'.(asleepAdders := m.asleepAdders[t := x])
    case EnterTake(t, w) =>
      if m.queue != [] then DoTake(m, w) else m.(asleepTakers := m.asleepTakers + {t})
    case ResumeTake(t, w) =>
      var m' := TakerRuns(m, t);
      if m.queue != [] then DoTake(m', w) else m'.(asleepTakers := m.asleepTakers + {t})
    case TryTake(w) =>
      if m.queue != [] then DoTake(m, w) else m.(log := m.log + [FoundEmpty])
    case TakeItem(x, w) =>
      if x in m.queue
      then WakeAdder(m.(queue := RemoveFirst(m.queue, x), log := m.log + [Removed(x)]), w)
      else m.(log := m.log + [NotFound(x)])
    case SpuriousTaker(t) => m.(asleepTakers := m.asleepTakers - {t}, wokenTakers := m.wokenTakers + {t})
    case SpuriousAdder(t) =>
      m.(asleepAdders := m.asleepAdders - {t}, wokenAdders := m.wokenAdders[t := m.asleepAdders[t]])
  }

  /** What a run of the monitor is: every action enabled where it happens. */
  predicate RunOf<T(==)>(m: Monitor<T>, acts: seq<Action<T>>)
    decreases acts
  {
    acts == [] || (Enabled(m, acts[0]) && RunOf(Step(m, acts[0]), acts[1..]))
  }

  function Final<T(==)>(m: Monitor<T>, acts: seq<Action<T>>): Monitor<T>
    requires RunOf(m, acts)
    decreases acts
  {
    if acts == [] then m else Final(Step(m, acts[0]), acts[1..])
  }

  lemma {:induction false} RunExtends<T>(m: Monitor<T>, acts: seq<Action<T>>, a: Action<T>)
    requires RunOf(m, acts) && Enabled(Final(m, acts), a)
    ensures RunOf(m, acts + [a]) && Final(m, acts + [a]) == Step(Final(m, acts), a)
    decreases acts
  {
    if acts == [] {
      assert acts + [a] == [a];
    } else {
      RunExtends(Step(m, acts[0]), acts[1..], a);
      assert (acts + [a])[1..] == acts[1..] + [a];
    }
  }

  // ---------------------------------------------------------------- wake-ups

  ghost predicate ThreadsApart<T>(m: Monitor<T>) {
    && m.asleepTakers !! m.wokenTakers !! m.asleepAdders.Keys !! m.wokenAdders.Keys
    && m.notifiedTakers <= m.wokenTakers && m.notifiedAdders <= m.wokenAdders.Keys
  }

  /**
   Whoever sleeps, there are enough notified threads under way for all the items (resp. all the free places).
   Spurious wake-ups are not needed for it.
  */
  ghost predicate NoLostWakeup<T>(m: Monitor<T>) {
    && |m.queue| <= m.capacity
    && (m.asleepTakers != {} ==> |m.queue| <= |m.notifiedTakers|)
    && (m.asleepAdders.Keys != {} ==> m.capacity - |m.queue| <= |m.notifiedAdders|)
  }

  /** It is the first of the equal items that goes, and all others stay where they were. */
  lemma RemoveFirstMeaning<T>(q: seq<T>, x: T)
    ensures x !in q ==> RemoveFirst(q, x) == q
    ensures x in q ==> exists i :: 0 <= i < |q| && q[i] == x && x !in q[..i] && RemoveFirst(q, x) == q[..i] + q[i + 1..]
  {
    if x in q {
      var i := IndexOf(q, x);
      assert q[i] == x && RemoveFirst(q, x) == q[..i] + q[i + 1..];
    }
  }

  lemma RemoveFirstShorter<T>(q: seq<T>, x: T)
    requires x in q
    ensures |RemoveFirst(q, x)| == |q| - 1
    ensures multiset(RemoveFirst(q, x)) == multiset(q) - multiset{x}
  {
    var i := IndexOf(q, x);
    assert q == q[..i] + [x] + q[i + 1..];
  }

  lemma StepApart<T>(m: Monitor<T>, a: Action<T>)
    requires ThreadsApart(m) && Enabled(m, a)
    ensures ThreadsApart(Step(m, a))
  {
  }

  lemma WakeTakerCounts<T>(m: Monitor<T>, woken: Option<Tid>)
    requires ThreadsApart(m) && Wakes(m.asleepTakers, woken)
    ensures var m' := WakeTaker(m, woken);
            m'.asleepTakers != {} ==> |m'.notifiedTakers| == |m.notifiedTakers| + 1
  {
  }

  lemma WakeAdderCounts<T>(m: Monitor<T>, woken: Option<Tid>)
    requires ThreadsApart(m) && Wakes(m.asleepAdders.Keys, woken)
    ensures var m' := WakeAdder(m, woken);
            m'.asleepAdders.Keys != {} ==> |m'.notifiedAdders| == |m.notifiedAdders| + 1
  {
  }

  /** Adding an item and waking a taker keeps the balance, also when the adder itself was a notified thread. */
  lemma AddKeepsWakeups<T>(m: Monitor<T>, x: T, w: Option<Tid>)
    requires ThreadsApart(m) && Wakes(m.asleepTakers, w) && |m.queue| < m.capacity
    requires m.asleepTakers != {} ==> |m.queue| <= |m.notifiedTakers|
    requires m.asleepAdders.Keys != {} ==> m.capacity - |m.queue| <= |m.notifiedAdders| + 1
    ensures NoLostWakeup(DoAdd(m, x, w))
  {
    WakeTakerCounts(m, w);
  }

  lemma RemoveKeepsWakeups<T>(m: Monitor<T>, q: seq<T>, log: seq<Op<T>>, w: Option<Tid>)
    requires ThreadsApart(m) && Wakes(m.asleepAdders.Keys, w) && |q| + 1 == |m.queue| <= m.capacity
    requires m.asleepTakers != {} ==> |m.queue| <= |m.notifiedTakers| + 1
    requires m.asleepAdders.Keys != {} ==> m.capacity - |m.queue| <= |m.notifiedAdders|
    ensures NoLostWakeup(WakeAdder(m.(queue := q, log := log), w))
  {
    WakeAdderCounts(m.(queue := q, log := log), w);
  }

  lemma StepKeepsWakeups<T>(m: Monitor<T>, a: Action<T>)
    requires ThreadsApart(m) && NoLostWakeup(m) && Enabled(m, a)
    ensures NoLostWakeup(Step(m, a))
  {
    match a
    case EnterAdd(t, x, w) =>
      if |m.queue| < m.capacity {
        AddKeepsWakeups(m, x, w);
      }
    case ResumeAdd(t, w) => ResumeAddKeepsWakeups(m, t, w);
    case EnterTake(t, w) =>
      if m.queue != [] {
        RemoveKeepsWakeups(m, m.queue[1..], m.log + [TookFront(m.queue[0])], w);
      }
    case ResumeTake(t, w) => ResumeTakeKeepsWakeups(m, t, w);
    case TryTake(w) =>
      if m.queue != [] {
        RemoveKeepsWakeups(m, m.queue[1..], m.log + [TookFront(m.queue[0])], w);
      }
    case TakeItem(x, w) =>
      if x in m.queue {
        RemoveFirstShorter(m.queue, x);
        RemoveKeepsWakeups(m, RemoveFirst(m.queue, x), m.log + [Removed(x)], w);
      }
    case SpuriousTaker(t) =>
    case SpuriousAdder(t) =>
  }

  lemma OneFewer(s: set<Tid>, t: Tid)
    ensures |s| - 1 <= |s - {t}| <= |s|
    ensures t in s ==> |s - {t}| == |s| - 1
  {
    if t !in s {
      assert s - {t} == s;
    }
  }

  lemma ResumeAddKeepsWakeups<T>(m: Monitor<T>, t: Tid, w: Option<Tid>)
    requires ThreadsApart(m) && NoLostWakeup(m) && Enabled(m, ResumeAdd(t, w))
    ensures NoLostWakeup(Step(m, ResumeAdd(t, w)))
  {
    var m' := AdderRuns(m, t);
    assert m'.wokenAdders.Keys == m.wokenAdders.Keys - {t};
    OneFewer(m.notifiedAdders, t);
    if |m.queue| < m.capacity {
      AddKeepsWakeups(m', m.wokenAdders[t], w);
    }
  }

  lemma ResumeTakeKeepsWakeups<T>(m: Monitor<T>, t: Tid, w: Option<Tid>)
    requires ThreadsApart(m) && NoLostWakeup(m) && Enabled(m, ResumeTake(t, w))
    ensures NoLostWakeup(Step(m, ResumeTake(t, w)))
  {
    var m' := TakerRuns(m, t);
    OneFewer(m.notifiedTakers, t);
    if m.queue != [] {
      RemoveKeepsWakeups(m', m.queue[1..], m.log + [TookFront(m.queue[0])], w);
    }
  }

  // ---------------------------------------------------------------- linearizability

  /** What one operation leaves of the queue, if its result is right. */
  function Effect<T(==)>(q: seq<T>, op: Op<T>, capacity: nat): Option<seq<T>> {
    match op
    case Added(x) => if |q| < capacity then Some(q + [x]) else None
    case TookFront(x) => if q != [] && q[0] == x then Some(q[1..]) else None
    case FoundEmpty => if q == [] then Some(q) else None
    case Removed(x) => if x in q then Some(RemoveFirst(q, x)) else None
    case NotFound(x) => if x !in q then Some(q) else None
  }

  /** The sequential bounded queue: what a log of completed operations leaves, if every result in it is right. */
  function Replay<T(==)>(log: seq<Op<T>>, capacity: nat): Option<seq<T>> {
    if log == [] then Some([])
    else
      var before := Replay(log[..|log| - 1], capacity);
      if before.None? then None else Effect(before.value, log[|log| - 1], capacity)
  }

  ghost predicate Linearizable<T>(m: Monitor<T>) {
    Replay(m.log, m.capacity) == Some(m.queue)
  }

  lemma ReplayPush<T>(log: seq<Op<T>>, op: Op<T>, capacity: nat)
    requires Replay(log, capacity).Some?
    ensures Replay(log + [op], capacity) == Effect(Replay(log, capacity).value, op, capacity)
  {
    assert (log + [op])[..|log|] == log;
  }

  /** The operation an action completes, if it does not put its thread to sleep or just wake one. */
  function Completed<T(==)>(m: Monitor<T>, a: Action<T>): Option<Op<T>>
    requires Enabled(m, a)
  {
    match a
    case EnterAdd(_, x, _) => if |m.queue| < m.capacity then Some(Added(x)) else None
    case ResumeAdd(t, _) => if |m.queue| < m.capacity then Some(Added(m.wokenAdders[t])) else None
    case EnterTake(_, _) => if m.queue != [] then Some(TookFront(m.queue[0])) else None
    case ResumeTake(_, _) => if m.queue != [] then Some(TookFront(m.queue[0])) else None
    case TryTake(_) => Some(if m.queue != [] then TookFront(m.queue[0]) else FoundEmpty)
    case TakeItem(x, _) => Some(if x in m.queue then Removed(x) else NotFound(x))
    case SpuriousTaker(_) => None
    case SpuriousAdder(_) => None
  }

  /** An action has the effect of the one operation it completes, and otherwise none, on the queue and the log. */
  lemma StepEffect<T>(m: Monitor<T>, a: Action<T>)
    requires Enabled(m, a)
    ensures var m' := Step(m, a);
            && m'.capacity == m.capacity
            && match Completed(m, a)
               case None => m'.queue == m.queue && m'.log == m.log
               case Some(op) =>
                 && m'.log == m.log + [op]
                 && (|m.queue| <= m.capacity ==> Effect(m.queue, op, m.capacity) == Some(m'.queue))
  {
  }

  lemma {:induction false} ReplayBounded<T>(log: seq<Op<T>>, capacity: nat)
    ensures Replay(log, capacity).Some? ==> |Replay(log, capacity).value| <= capacity
    decreases |log|
  {
    if log != [] {
      ReplayBounded(log[..|log| - 1], capacity);
    }
  }

  lemma StepLinearizes<T>(m: Monitor<T>, a: Action<T>)
    requires Linearizable(m) && Enabled(m, a)
    ensures Linearizable(Step(m, a)) && Step(m, a).capacity == m.capacity
  {
    StepEffect(m, a);
    ReplayBounded(m.log, m.capacity);
    if Completed(m, a).Some? {
      ReplayPush(m.log, Completed(m, a).value, m.capacity);
    }
  }

  // ---------------------------------------------------------------- threads

  /** Where a thread is; an adder inside carries its item, and a woken thread was notified or woke spuriously. */
  datatype Place<T> =
    | Outside
    | TakerAsleep
    | TakerWoken(notified: bool)
    | AdderAsleep(item: T)
    | AdderWoken(item: T, notified: bool)

  function PlaceOf<T>(m: Monitor<T>, t: Tid): Place<T> {
    if t in m.asleepTakers then TakerAsleep
    else if t in m.wokenTakers then TakerWoken(t in m.notifiedTakers)
    else if t in m.asleepAdders then AdderAsleep(m.asleepAdders[t])
    else if t in m.wokenAdders then AdderWoken(m.wokenAdders[t], t in m.notifiedAdders)
    else Outside
  }

  function Notified<T>(p: Place<T>): Place<T> {
    match p
    case TakerAsleep => TakerWoken(true)
    case AdderAsleep(x) => AdderWoken(x, true)
    case _ => p
  }

  /** The actor goes to its new place, a notified sleeper wakes, and every other thread stays where it was. */
  ghost predicate Moved<T>(m: Monitor<T>, m': Monitor<T>, actor: Option<Tid>, place: Place<T>, woken: Option<Tid>) {
    forall t: Tid :: PlaceOf(m', t) == if actor == Some(t) then place
                                  else if woken == Some(t) then Notified(PlaceOf(m, t))
                                  else PlaceOf(m, t)
  }

  function Actor<T>(a: Action<T>): Option<Tid> {
    match a
    case EnterAdd(t, _, _) => Some(t)
    case ResumeAdd(t, _) => Some(t)
    case EnterTake(t, _) => Some(t)
    case ResumeTake(t, _) => Some(t)
    case TryTake(_) => None
    case TakeItem(_, _) => None
    case SpuriousTaker(t) => Some(t)
    case SpuriousAdder(t) => Some(t)
  }

  function WokenBy<T>(a: Action<T>): Option<Tid> {
    if a.SpuriousTaker? || a.SpuriousAdder? then None else a.woken
  }

  /** An action that completes its operation leaves the monitor; any other sleeps, with its own item, or just woke. */
  function Destination<T>(m: Monitor<T>, a: Action<T>): Place<T> {
    match a
    case EnterAdd(_, x, _) => if |m.queue| < m.capacity then Outside else AdderAsleep(x)
    case ResumeAdd(t, _) =>
      if |m.queue| < m.capacity || t !in m.wokenAdders then Outside else AdderAsleep(m.wokenAdders[t])
    case EnterTake(_, _) => if m.queue != [] then Outside else TakerAsleep
    case ResumeTake(_, _) => if m.queue != [] then Outside else TakerAsleep
    case SpuriousTaker(_) => TakerWoken(false)
    case SpuriousAdder(t) => if t in m.asleepAdders then AdderWoken(m.asleepAdders[t], false) else Outside
    case _ => Outside
  }

  lemma StepMoves<T>(m: Monitor<T>, a: Action<T>)
    requires ThreadsApart(m) && Enabled(m, a)
    ensures Moved(m, Step(m, a), Actor(a), Destination(m, a), WokenBy(a))
  {
    if Actor(a).None? {
      OthersMove(m, a);
    } else if a.EnterAdd? || a.ResumeAdd? || a.SpuriousAdder? {
      AdderMoves(m, a);
    } else {
      TakerMoves(m, a);
    }
  }

  lemma AdderMoves<T>(m: Monitor<T>, a: Action<T>)
    requires ThreadsApart(m) && Enabled(m, a) && (a.EnterAdd? || a.ResumeAdd? || a.SpuriousAdder?)
    ensures Moved(m, Step(m, a), Actor(a), Destination(m, a), WokenBy(a))
  {
  }

  lemma TakerMoves<T>(m: Monitor<T>, a: Action<T>)
    requires ThreadsApart(m) && Enabled(m, a) && (a.EnterTake? || a.ResumeTake? || a.SpuriousTaker?)
    ensures Moved(m, Step(m, a), Actor(a), Destination(m, a), WokenBy(a))
  {
  }

  lemma OthersMove<T>(m: Monitor<T>, a: Action<T>)
    requires ThreadsApart(m) && Enabled(m, a) && (a.TryTake? || a.TakeItem?)
    ensures Moved(m, Step(m, a), Actor(a), Destination(m, a), WokenBy(a))
  {
  }

  /** A call of add, with its item, or of take(). */
  datatype Call<T> = Adding(item: T) | Taking

  /** The call this action begins, if it is one of t. */
  function Begun<T>(a: Action<T>, t: Tid): seq<Call<T>> {
    match a
    case EnterAdd(u, x, _) => if u == t then [Adding(x)] else []
    case EnterTake(u, _) => if u == t then [Taking] else []
    case _ => []
  }

  /** The call an operation of t's completes. */
  function Ended<T>(actor: Option<Tid>, op: Option<Op<T>>, t: Tid): seq<Call<T>> {
    if actor != Some(t) || op.None? then []
    else match op.value
      case Added(x) => [Adding(x)]
      case TookFront(_) => [Taking]
      case _ => []
  }

  /** The call that t is waiting in. */
  function Waiting<T>(p: Place<T>): seq<Call<T>> {
    match p
    case Outside => []
    case TakerAsleep => [Taking]
    case TakerWoken(_) => [Taking]
    case AdderAsleep(x) => [Adding(x)]
    case AdderWoken(x, _) => [Adding(x)]
  }

  function CallsBegun<T>(acts: seq<Action<T>>, t: Tid): seq<Call<T>> {
    if acts == [] then [] else Begun(acts[0], t) + CallsBegun(acts[1..], t)
  }

  function CallsEnded<T(==)>(m: Monitor<T>, acts: seq<Action<T>>, t: Tid): seq<Call<T>>
    requires RunOf(m, acts)
    decreases acts
  {
    if acts == [] then []
    else Ended(Actor(acts[0]), Completed(m, acts[0]), t) + CallsEnded(Step(m, acts[0]), acts[1..], t)
  }

  /** The operations completed in a run, in order. */
  function CompletedAll<T(==)>(m: Monitor<T>, acts: seq<Action<T>>): seq<Op<T>>
    requires RunOf(m, acts)
    decreases acts
  {
    if acts == [] then []
    else
      var op := Completed(m, acts[0]);
      (if op.Some? then [op.value] else []) + CompletedAll(Step(m, acts[0]), acts[1..])
  }

  lemma {:induction false} LogIsCompleted<T>(m: Monitor<T>, acts: seq<Action<T>>)
    requires RunOf(m, acts)
    ensures Final(m, acts).log == m.log + CompletedAll(m, acts)
    decreases acts
  {
    if acts == [] {
      EmptyNeutral(m.log);
    } else {
      var op := Completed(m, acts[0]);
      StepEffect(m, acts[0]);
      LogIsCompleted(Step(m, acts[0]), acts[1..]);
      Associative(m.log, if op.Some? then [op.value] else [], CompletedAll(Step(m, acts[0]), acts[1..]));
      EmptyNeutral(m.log);
    }
  }

  /** One action of a thread ends the call it waited in or began, or leaves it waiting in that call. */
  lemma StepAccounts<T>(m: Monitor<T>, a: Action<T>, t: Tid)
    requires ThreadsApart(m) && Enabled(m, a)
    ensures Waiting(PlaceOf(m, t)) + Begun(a, t)
            == Ended(Actor(a), Completed(m, a), t) + Waiting(PlaceOf(Step(m, a), t))
  {
    StepMoves(m, a);
  }

  lemma {:induction false} RunAccounts<T>(m: Monitor<T>, acts: seq<Action<T>>, t: Tid)
    requires ThreadsApart(m) && RunOf(m, acts)
    ensures Waiting(PlaceOf(m, t)) + CallsBegun(acts, t)
            == CallsEnded(m, acts, t) + Waiting(PlaceOf(Final(m, acts), t))
    decreases acts
  {
    var w := Waiting(PlaceOf(m, t));
    if acts == [] {
      EmptyNeutral(w);
    } else {
      var a, m' := acts[0], Step(m, acts[0]);
      var e := Ended(Actor(a), Completed(m, a), t);
      StepApart(m, a);
      StepAccounts(m, a, t);
      RunAccounts(m', acts[1..], t);
      Associative(w, Begun(a, t), CallsBegun(acts[1..], t));
      Associative(e, Waiting(PlaceOf(m', t)), CallsBegun(acts[1..], t));
      Associative(e, CallsEnded(m', acts[1..], t), Waiting(PlaceOf(Final(m, acts), t)));
    }
  }

  /**
   No call is lost or made up: in every run, the calls a thread has begun are, in order, those it completed, each add
   with the item it was called with, and then the one it is still waiting in, if any, with its item. The log is the
   operations so completed, in order.
  */
  lemma CallsAccounted<T>(capacity: nat, acts: seq<Action<T>>, t: Tid)
    requires RunOf(Empty<T>(capacity), acts)
    ensures var m0 := Empty<T>(capacity); var m := Final(m0, acts);
            && CallsBegun(acts, t) == CallsEnded(m0, acts, t) + Waiting(PlaceOf(m, t))
            && m.log == CompletedAll(m0, acts)
  {
    RunAccounts(Empty<T>(capacity), acts, t);
    LogIsCompleted(Empty<T>(capacity), acts);
    EmptyNeutral(CallsBegun(acts, t));
    EmptyNeutral(CompletedAll(Empty<T>(capacity), acts));
  }

  // ---------------------------------------------------------------- reachable states

  ghost predicate Invariant<T>(m: Monitor<T>) {
    ThreadsApart(m) && NoLostWakeup(m) && Linearizable(m)
  }

  lemma StepKeepsInvariant<T>(m: Monitor<T>, a: Action<T>)
    requires Invariant(m) && Enabled(m, a)
    ensures Invariant(Step(m, a)) && Step(m, a).capacity == m.capacity
  {
    StepApart(m, a);
    StepKeepsWakeups(m, a);
    StepLinearizes(m, a);
  }

  lemma {:induction false} RunKeepsInvariant<T>(m: Monitor<T>, acts: seq<Action<T>>)
    requires Invariant(m) && RunOf(m, acts)
    ensures Invariant(Final(m, acts)) && Final(m, acts).capacity == m.capacity
    decreases acts
  {
    if acts != [] {
      StepKeepsInvariant(m, acts[0]);
      RunKeepsInvariant(Step(m, acts[0]), acts[1..]);
    }
  }

  lemma EmptyInvariant<T>(capacity: nat)
    ensures Invariant(Empty<T>(capacity))
  {
  }

  lemma Reached<T>(capacity: nat, acts: seq<Action<T>>)
    requires RunOf(Empty<T>(capacity), acts)
    ensures var m := Final(Empty<T>(capacity), acts); Invariant(m) && ThreadsApart(m) && m.capacity == capacity
  {
    EmptyInvariant<T>(capacity);
    RunKeepsInvariant(Empty<T>(capacity), acts);
  }

  /** In every run from the empty queue, with any number of threads, no wake-up is lost and every result is right. */
  lemma Reachable<T>(capacity: nat, acts: seq<Action<T>>)
    requires RunOf(Empty<T>(capacity), acts)
    ensures var m := Final(Empty<T>(capacity), acts);
            && m.capacity == capacity
            && |m.queue| <= capacity
            && m.notifiedTakers <= m.wokenTakers && m.notifiedAdders <= m.wokenAdders.Keys
            && (m.asleepTakers != {} ==> |m.queue| <= |m.notifiedTakers|)
            && (m.asleepAdders.Keys != {} ==> capacity - |m.queue| <= |m.notifiedAdders|)
            && Replay(m.log, capacity) == Some(m.queue)
  {
    Reached(capacity, acts);
  }

  /** With room for an item, adders and takers never sleep together with nobody on the way. */
  lemma NoMutualBlocking<T>(capacity: nat, acts: seq<Action<T>>)
    requires capacity > 0 && RunOf(Empty<T>(capacity), acts)
    ensures var m := Final(Empty<T>(capacity), acts);
            m.asleepTakers != {} && m.asleepAdders.Keys != {} ==> m.notifiedTakers != {} || m.notifiedAdders != {}
  {
    Reachable(capacity, acts);
  }

  /** Once every notified thread has run, takers sleep only on an empty queue and adders only on a full one. */
  lemma SleepIsJustified<T>(capacity: nat, acts: seq<Action<T>>)
    requires RunOf(Empty<T>(capacity), acts)
    ensures var m := Final(Empty<T>(capacity), acts);
            && (m.notifiedTakers == {} && m.asleepTakers != {} ==> m.queue == [])
            && (m.notifiedAdders == {} && m.asleepAdders.Keys != {} ==> |m.queue| == capacity)
  {
    Reachable(capacity, acts);
  }

  predicate IsResume<T>(a: Action<T>) {
    a.ResumeAdd? || a.ResumeTake?
  }

  /** How often woken threads can run before all have left or sleep: each run leaves less of it. */
  function Pending<T>(m: Monitor<T>): nat {
    |Threads(m)| + |m.wokenTakers| + |m.wokenAdders.Keys|
  }

  /** A woken thread that runs finishes its operation and leaves, waking at most one other, or goes back to sleep. */
  lemma ResumingEnds<T>(m: Monitor<T>, a: Action<T>)
    requires ThreadsApart(m) && Enabled(m, a) && IsResume(a)
    ensures Pending(Step(m, a)) < Pending(m)
  {
    var m' := Step(m, a);
    if a.ResumeAdd? {
      AdderLeaves(m, a.tid, a.woken);
      OneFewer(m.wokenAdders.Keys, a.tid);
      AtMostOneMore(m.wokenTakers, a.woken);
    } else {
      TakerLeaves(m, a.tid, a.woken);
      OneFewer(m.wokenTakers, a.tid);
      AtMostOneMore(m.wokenAdders.Keys, a.woken);
    }
    OneFewer(Threads(m), a.tid);
  }

  function Singleton(w: Option<Tid>): set<Tid> {
    if w.Some? then {w.value} else {}
  }

  lemma AtMostOneMore(s: set<Tid>, w: Option<Tid>)
    ensures |s + Singleton(w)| <= |s| + if w.Some? then 1 else 0
  {
    assert w.None? ==> s + Singleton(w) == s;
  }

  lemma AdderLeaves<T>(m: Monitor<T>, t: Tid, w: Option<Tid>)
    requires ThreadsApart(m) && Enabled(m, ResumeAdd(t, w))
    ensures var m' := Step(m, ResumeAdd(t, w));
            && t in Threads(m) && m'.wokenAdders.Keys == m.wokenAdders.Keys - {t}
            && m'.wokenTakers == m.wokenTakers + Singleton(w)
            && Threads(m') == (if |m.queue| < m.capacity then Threads(m) - {t} else Threads(m))
            && (|m.queue| < m.capacity || w.None?)
  {
    var m' := Step(m, ResumeAdd(t, w));
    assert (m.wokenAdders - {t}).Keys == m.wokenAdders.Keys - {t};
    if |m.queue| < m.capacity {
      assert m'.asleepTakers + m'.wokenTakers == m.asleepTakers + m.wokenTakers;
    } else {
      assert m'.asleepAdders.Keys == m.asleepAdders.Keys + {t};
    }
  }

  lemma TakerLeaves<T>(m: Monitor<T>, t: Tid, w: Option<Tid>)
    requires ThreadsApart(m) && Enabled(m, ResumeTake(t, w))
    ensures var m' := Step(m, ResumeTake(t, w));
            && t in Threads(m) && m'.wokenTakers == m.wokenTakers - {t}
            && m'.wokenAdders.Keys == m.wokenAdders.Keys + Singleton(w)
            && Threads(m') == (if m.queue != [] then Threads(m) - {t} else Threads(m))
            && (m.queue != [] || w.None?)
  {
    var m' := Step(m, ResumeTake(t, w));
    if m.queue != [] {
      if w.Some? {
        assert m'.wokenAdders.Keys == m.wokenAdders.Keys + {w.value};
        assert m'.asleepAdders.Keys == m.asleepAdders.Keys - {w.value};
      }
      assert m'.asleepAdders.Keys + m'.wokenAdders.Keys == m.asleepAdders.Keys + m.wokenAdders.Keys;
    }
  }

  lemma WokenCanRun<T>(m: Monitor<T>)
    requires m.wokenTakers != {} || m.wokenAdders.Keys != {}
    ensures exists a :: IsResume(a) && Enabled(m, a)
  {
    if m.wokenTakers != {} {
      var t :| t in m.wokenTakers;
      var w := if m.queue != [] then Pick(m.asleepAdders.Keys) else None;
      var a: Action<T> := ResumeTake(t, w);
      assert IsResume(a) && Enabled(m, a);
    } else {
      var t :| t in m.wokenAdders.Keys;
      var w := if |m.queue| < m.capacity then Pick(m.asleepTakers) else None;
      var a: Action<T> := ResumeAdd(t, w);
      assert IsResume(a) && Enabled(m, a);
    }
  }

  /** No woken thread is left: whoever is inside sleeps, and for a reason. */
  ghost predicate Settled<T>(m: Monitor<T>) {
    && m.wokenTakers == {} && m.wokenAdders.Keys == {}
    && (m.asleepTakers != {} ==> m.queue == [])
    && (m.asleepAdders.Keys != {} ==> |m.queue| == m.capacity)
  }

  ghost predicate Resumes<T>(acts: seq<Action<T>>) {
    forall i :: 0 <= i < |acts| ==> IsResume(acts[i])
  }

  /** Nobody woken is left to run. */
  ghost predicate NoResumption<T(!new)>(m: Monitor<T>) {
    forall a :: IsResume(a) ==> !Enabled(m, a)
  }

  lemma StuckIsSettled<T(!new)>(m: Monitor<T>)
    requires Invariant(m)
    ensures NoResumption(m) <==> Settled(m)
  {
    if m.wokenTakers != {} || m.wokenAdders.Keys != {} {
      WokenCanRun(m);
    }
  }

  /**
   From every reachable state, whenever only woken threads run, in whatever order and with whatever choices, they can do
   so at most Pending(m) times; and where none of them can run any more, every sleep is justified.
  */
  lemma {:induction false} ResumingSettles<T(!new)>(m: Monitor<T>, acts: seq<Action<T>>)
    requires Invariant(m) && RunOf(m, acts) && Resumes(acts)
    ensures |acts| + Pending(Final(m, acts)) <= Pending(m)
    ensures NoResumption(Final(m, acts)) <==> Settled(Final(m, acts))
    decreases acts
  {
    if acts == [] {
      StuckIsSettled(m);
    } else {
      assert IsResume(acts[0]);
      assert forall i :: 0 <= i < |acts[1..]| ==> acts[1..][i] == acts[i + 1];
      StepKeepsInvariant(m, acts[0]);
      ResumingEnds(m, acts[0]);
      ResumingSettles(Step(m, acts[0]), acts[1..]);
    }
  }

  ghost function Pick(sleepers: set<Tid>): (woken: Option<Tid>)
    ensures Wakes(sleepers, woken)
  {
    if sleepers == {} then None else var t :| t in sleepers; Some(t)
  }

  // ---------------------------------------------------------------- what a right log means

  /** What an operation put in, and what it took out, from the front or by name. */
  function PutIn<T>(op: Op<T>): seq<T> {
    if op.Added? then [op.item] else []
  }

  function TakenOut<T>(op: Op<T>): seq<T> {
    if op.TookFront? || op.Removed? then [op.item] else []
  }

  function AddedItems<T>(log: seq<Op<T>>): seq<T> {
    if log == [] then [] else AddedItems(log[..|log| - 1]) + PutIn(log[|log| - 1])
  }

  function OutItems<T>(log: seq<Op<T>>): seq<T> {
    if log == [] then [] else OutItems(log[..|log| - 1]) + TakenOut(log[|log| - 1])
  }

  lemma EffectFifo<T>(q: seq<T>, op: Op<T>, capacity: nat)
    requires Effect(q, op, capacity).Some? && !op.Removed?
    ensures q + PutIn(op) == TakenOut(op) + Effect(q, op, capacity).value
  {
    if op.TookFront? {
      assert q == [q[0]] + q[1..];
    }
  }

  lemma EffectConserves<T>(q: seq<T>, op: Op<T>, capacity: nat)
    requires Effect(q, op, capacity).Some?
    ensures multiset(q) + multiset(PutIn(op)) == multiset(TakenOut(op)) + multiset(Effect(q, op, capacity).value)
  {
    if op.TookFront? {
      assert q == [q[0]] + q[1..];
    } else if op.Removed? {
      RemoveFirstShorter(q, op.item);
    }
  }

  /** Without take(item) the queue is strictly first-in first-out. */
  lemma {:induction false} StrictFifo<T>(log: seq<Op<T>>, capacity: nat)
    requires Replay(log, capacity).Some?
    requires forall i :: 0 <= i < |log| ==> !log[i].Removed?
    ensures OutItems(log) + Replay(log, capacity).value == AddedItems(log)
    decreases |log|
  {
    if log != [] {
      var before, op := log[..|log| - 1], log[|log| - 1];
      StrictFifo(before, capacity);
      var q := Replay(before, capacity).value;
      var q' := Effect(q, op, capacity).value;
      EffectFifo(q, op, capacity);
      Associative(OutItems(before), TakenOut(op), q');
      Associative(OutItems(before), q, PutIn(op));
    }
  }

  /** With it, nothing is lost or made up ... */
  lemma {:induction false} ItemsConserved<T>(log: seq<Op<T>>, capacity: nat)
    requires Replay(log, capacity).Some?
    ensures multiset(AddedItems(log)) == multiset(OutItems(log)) + multiset(Replay(log, capacity).value)
    decreases |log|
  {
    if log != [] {
      var before, op := log[..|log| - 1], log[|log| - 1];
      ItemsConserved(before, capacity);
      var q := Replay(before, capacity).value;
      var q' := Effect(q, op, capacity).value;
      EffectConserves(q, op, capacity);
      Balanced(AddedItems(before), OutItems(before), q, PutIn(op), TakenOut(op), q');
    }
  }

  lemma Balanced<T>(added: seq<T>, out: seq<T>, q: seq<T>, putIn: seq<T>, takenOut: seq<T>, q': seq<T>)
    requires multiset(added) == multiset(out) + multiset(q)
    requires multiset(q) + multiset(putIn) == multiset(takenOut) + multiset(q')
    ensures multiset(added + putIn) == multiset(out + takenOut) + multiset(q')
  {
    Union(multiset(added), multiset(out), multiset(q), multiset(putIn), multiset(takenOut), multiset(q'));
    assert multiset(added + putIn) == multiset(added) + multiset(putIn);
    assert multiset(out + takenOut) == multiset(out) + multiset(takenOut);
  }

  lemma Union<T>(a: multiset<T>, o: multiset<T>, q: multiset<T>, i: multiset<T>, t: multiset<T>, q': multiset<T>)
    requires a == o + q && q + i == t + q'
    ensures a + i == (o + t) + q'
  {
    assert a + i == o + (q + i) == o + (t + q');
  }

  ghost predicate Increasing(at: seq<nat>) {
    forall i, j :: 0 <= i < j < |at| ==> at[i] < at[j]
  }

  /** `at` lists the positions in the log of the add calls whose items are still in the queue. */
  ghost predicate Surviving<T>(log: seq<Op<T>>, q: seq<T>, at: seq<nat>) {
    && |at| == |q| && Increasing(at)
    && forall i :: 0 <= i < |q| ==> at[i] < |log| && log[at[i]] == Added(q[i])
  }

  /** ... and what is left is in the order of the add calls. */
  lemma {:induction false} OrderKept<T>(log: seq<Op<T>>, capacity: nat)
    requires Replay(log, capacity).Some?
    ensures exists at :: Surviving(log, Replay(log, capacity).value, at)
    decreases |log|
  {
    if log == [] {
      assert Surviving(log, Replay(log, capacity).value, []);
    } else {
      var before := log[..|log| - 1];
      OrderKept(before, capacity);
      var at :| Surviving(before, Replay(before, capacity).value, at);
      NextSurvives(log, capacity, at);
    }
  }

  lemma NextSurvives<T>(log: seq<Op<T>>, capacity: nat, at: seq<nat>)
    requires log != [] && Replay(log, capacity).Some?
    requires var before := log[..|log| - 1]; Surviving(before, Replay(before, capacity).value, at)
    ensures exists at' :: Surviving(log, Replay(log, capacity).value, at')
  {
    var q := Replay(log[..|log| - 1], capacity).value;
    match log[|log| - 1]
    case Added(x) => AddedSurvives(log, q, at);
    case TookFront(x) => TailSurvives(log, q, at);
    case Removed(x) => ErasedSurvives(log, q, at, IndexOf(q, x));
    case _ => SameSurvives(log, q, at);
  }

  lemma AddedSurvives<T>(log: seq<Op<T>>, q: seq<T>, at: seq<nat>)
    requires log != [] && log[|log| - 1].Added? && Surviving(log[..|log| - 1], q, at)
    ensures Surviving(log, q + [log[|log| - 1].item], at + [|log| - 1])
  {
  }

  lemma TailSurvives<T>(log: seq<Op<T>>, q: seq<T>, at: seq<nat>)
    requires log != [] && q != [] && Surviving(log[..|log| - 1], q, at)
    ensures Surviving(log, q[1..], at[1..])
  {
  }

  lemma SameSurvives<T>(log: seq<Op<T>>, q: seq<T>, at: seq<nat>)
    requires log != [] && Surviving(log[..|log| - 1], q, at)
    ensures Surviving(log, q, at)
  {
  }

  lemma ErasedSurvives<T>(log: seq<Op<T>>, q: seq<T>, at: seq<nat>, i: nat)
    requires log != [] && i < |q| && Surviving(log[..|log| - 1], q, at)
    ensures Surviving(log, q[..i] + q[i + 1..], at[..i] + at[i + 1..])
  {
    var q', at' := q[..i] + q[i + 1..], at[..i] + at[i + 1..];
    forall k | 0 <= k < |q'|
      ensures at'[k] < |log| && log[at'[k]] == Added(q'[k])
    {
      var k' := if k < i then k else k + 1;
      assert at'[k] == at[k'] && q'[k] == q[k'];
    }
    forall j, k | 0 <= j < k < |at'|
      ensures at'[j] < at'[k]
    {
      assert at'[j] == at[if j < i then j else j + 1] && at'[k] == at[if k < i then k else k + 1];
    }
  }
}
