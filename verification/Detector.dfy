/**
 The heartbeat failure detector (NetworkClient.cpp) under fine-grained interleaving: the checker thread, the thread
 that handles received heartbeats, the two mutexes and the checker's unlocked read of the counter.
*/
module Detector {
  import opened Results

  const MAX_MISSED := 6

  /** std::atomic<int>::operator++ wraps. */
  function Wrap32(n: int): int {
    (n + 0x8000_0000) % 0x1_0000_0000 - 0x8000_0000
  }

  datatype Thread = Checker | Receiver

  /** Where the checker's loop is; each name says what was done last, or comes next. */
  datatype CheckerPc =
    | Sleeping
    | CounterLocked    // holds heartbeatsMutex, about to increment
    | Incremented      // holds heartbeatsMutex, about to release it
    | BeforeRead       // about to read the counter, holding nothing
    | BeforeDeadLock   // read more than MAX_MISSED
    | DeadLocked       // holds aliveMutex, about to clear isAlive
    | DeadWritten      // holds aliveMutex, about to release it
    | BeforeCallback   // about to call onConnectionLostHandler

  datatype ReceiverPc =
    | Idle
    | AliveLocked      // holds aliveMutex, about to set isAlive
    | AliveSet         // holds aliveMutex, about to take heartbeatsMutex
    | BothLocked       // holds both, about to reset the counter
    | CounterReset     // holds both, about to release them

  datatype Event = Tick | Reset | Lost | WroteDead | WroteAlive | Callback

  datatype State = State(
    missedHeartbeats: int,
    isAlive: bool,
    aliveMutex: Option<Thread>,
    heartbeatsMutex: Option<Thread>,
    checker: CheckerPc,
    receiver: ReceiverPc,
    log: seq<Event>)

  const START := State(0, true, None, None, Sleeping, Idle, [])

  /** Whether the thread's next step can be taken; it is blocked only by a mutex the other one holds. */
  predicate Enabled(s: State, t: Thread) {
    match t
    case Checker =>
      (s.checker == Sleeping ==> s.heartbeatsMutex.None?) && (s.checker == BeforeDeadLock ==> s.aliveMutex.None?)
    case Receiver =>
      (s.receiver == Idle ==> s.aliveMutex.None?) && (s.receiver == AliveSet ==> s.heartbeatsMutex.None?)
  }

  function Step(s: State, t: Thread): State
    requires Enabled(s, t)
  {
    match t
    case Checker => CheckerStep(s)
    case Receiver => ReceiverStep(s)
  }

  function CheckerStep(s: State): State {
    match s.checker
    case Sleeping => s.(heartbeatsMutex := Some(Checker), checker := CounterLocked)
    case CounterLocked =>
      s.(missedHeartbeats := Wrap32(s.missedHeartbeats + 1), checker := Incremented, log := s.log + [Tick])
    case Incremented => s.(heartbeatsMutex := None, checker := BeforeRead)
    case BeforeRead =>
      if s.missedHeartbeats > MAX_MISSED then s.(checker := BeforeDeadLock, log := s.log + [Lost])
      else s.(checker := Sleeping)
    case BeforeDeadLock => s.(aliveMutex := Some(Checker), checker := DeadLocked)
    case DeadLocked => s.(isAlive := false, checker := DeadWritten, log := s.log + [WroteDead])
    case DeadWritten => s.(aliveMutex := None, checker := BeforeCallback)
    case BeforeCallback => s.(checker := Sleeping, log := s.log + [Callback])
  }

  function ReceiverStep(s: State): State {
    match s.receiver
    case Idle => s.(aliveMutex := Some(Receiver), receiver := AliveLocked)
    case AliveLocked => s.(isAlive := true, receiver := AliveSet, log := s.log + [WroteAlive])
    case AliveSet => s.(heartbeatsMutex := Some(Receiver), receiver := BothLocked)
    case BothLocked => s.(missedHeartbeats := 0, receiver := CounterReset, log := s.log + [Reset])
    case CounterReset => s.(aliveMutex := None, heartbeatsMutex := None, receiver := Idle)
  }

  /** A schedule says which thread steps next; it has to be one that can. */
  predicate RunOf(s: State, ts: seq<Thread>)
    decreases ts
  {
    ts == [] || (Enabled(s, ts[0]) && RunOf(Step(s, ts[0]), ts[1..]))
  }

  function Final(s: State, ts: seq<Thread>): State
    requires RunOf(s, ts)
    decreases ts
  {
    if ts == [] then s else Final(Step(s, ts[0]), ts[1..])
  }

  // ---------------------------------------------------------------- reading the log

  /** Ticks after the last reset. */
  function TicksSinceReset(log: seq<Event>): nat {
    if log == [] then 0
    else
      var before := log[..|log| - 1];
      match log[|log| - 1]
      case Reset => 0
      case Tick => TicksSinceReset(before) + 1
      case _ => TicksSinceReset(before)
  }

  /** The counter was reset after the checker last read it as too high. */
  predicate ResetSinceLost(log: seq<Event>) {
    log != [] &&
    match log[|log| - 1]
    case Reset => true
    case Lost => false
    case _ => ResetSinceLost(log[..|log| - 1])
  }

  /** isAlive was last written by the checker, acting on a value of the counter that was reset in between. */
  predicate StaleDeath(log: seq<Event>) {
    log != [] &&
    var before := log[..|log| - 1];
    match log[|log| - 1]
    case WroteDead => ResetSinceLost(before)
    case WroteAlive => false
    case _ => StaleDeath(before)
  }

  /** What the checker logged last, of its own. */
  function LastChecked(log: seq<Event>): Option<Event> {
    if log == [] then None
    else
      var last := log[|log| - 1];
      if last == Reset || last == WroteAlive then LastChecked(log[..|log| - 1]) else Some(last)
  }

  /** What the receiver logged last. */
  function LastReceived(log: seq<Event>): Option<Event> {
    if log == [] then None
    else
      var last := log[|log| - 1];
      if last == Reset || last == WroteAlive then Some(last) else LastReceived(log[..|log| - 1])
  }

  /**
   The order in which one turn of a thread makes its marks: a tick, and if the connection is then declared lost, the
   write of isAlive and the callback; the write of isAlive, and the reset.
  */
  predicate MayFollow(checked: Option<Event>, received: Option<Event>, e: Event) {
    match e
    case Tick => checked.None? || checked == Some(Tick) || checked == Some(Callback)
    case Lost => checked == Some(Tick)
    case WroteDead => checked == Some(Lost)
    case Callback => checked == Some(WroteDead)
    case WroteAlive => received.None? || received == Some(Reset)
    case Reset => received == Some(WroteAlive)
  }

  ghost predicate InOrder(log: seq<Event>) {
    forall i :: 0 <= i < |log| ==> MayFollow(LastChecked(log[..i]), LastReceived(log[..i]), log[i])
  }

  /** How often the checker took its connection-lost branch after the last reset. */
  function LostCount(log: seq<Event>): nat {
    if log == [] then 0
    else
      var before := log[..|log| - 1];
      match log[|log| - 1]
      case Reset => 0
      case Lost => LostCount(before) + 1
      case _ => LostCount(before)
  }

  predicate LostSinceReset(log: seq<Event>) {
    LostCount(log) > 0
  }

  /** How many of the first n ticks after a reset leave a counter that reads as too high. */
  function LateTicks(n: nat): nat {
    if n == 0 then 0 else LateTicks(n - 1) + if Wrap32(n) > MAX_MISSED then 1 else 0
  }

  /** Of the n ticks since the last reset, those after which the checker has read the counter. */
  function TicksRead(s: State, n: nat): nat {
    if s.checker in {Incremented, BeforeRead} && n > 0 then n - 1 else n
  }

  /** Until the counter wraps, these are all but the first 6. */
  lemma {:induction false} LateTicksExact(n: nat)
    ensures n < 0x8000_0000 ==> LateTicks(n) == if n <= MAX_MISSED then 0 else n - MAX_MISSED
    ensures n > MAX_MISSED ==> LateTicks(n) > 0
    decreases n
  {
    if n > 0 {
      LateTicksExact(n - 1);
    }
  }

  lemma {:induction false} LostSinceResetMeaning(log: seq<Event>)
    ensures LostSinceReset(log) <==> exists j :: 0 <= j < |log| && LostAt(log, j)
    decreases |log|
  {
    if log != [] {
      var before, last := log[..|log| - 1], log[|log| - 1];
      LostSinceResetMeaning(before);
      forall j | 0 <= j < |log|
        ensures LostAt(log, j) <==> last != Reset && if j < |before| then LostAt(before, j) else last == Lost
      {
        LostAtGrows(log, j);
      }
      if last == Lost {
        assert LostAt(log, |log| - 1);
      }
    }
  }

  /** The branch was taken at j, and there was no reset from then on. */
  predicate LostAt(log: seq<Event>, j: nat)
    requires j < |log|
  {
    log[j] == Lost && Reset !in log[j..]
  }

  lemma LostAtGrows(log: seq<Event>, j: nat)
    requires j < |log|
    ensures var before, last := log[..|log| - 1], log[|log| - 1];
            LostAt(log, j) <==> last != Reset && if j < |before| then LostAt(before, j) else last == Lost
  {
    var before, last := log[..|log| - 1], log[|log| - 1];
    assert log[j..] == before[j..] + [last];
    assert log[j..][|log| - 1 - j] == last;
  }

  function Ticks(log: seq<Event>): nat {
    if log == [] then 0 else Ticks(log[..|log| - 1]) + if log[|log| - 1] == Tick then 1 else 0
  }

  /** k ticks since the last reset: some stretch up to now holds k ticks and no reset. */
  lemma {:induction false} TicksSinceResetMeaning(log: seq<Event>, k: nat)
    ensures TicksSinceReset(log) >= k <==> exists j: nat :: j <= |log| && Reset !in log[j..] && Ticks(log[j..]) >= k
    decreases |log|
  {
    if log == [] {
      assert log[0..] == [];
    } else {
      var before, last := log[..|log| - 1], log[|log| - 1];
      var k' := if last == Tick && k > 0 then k - 1 else k;
      TicksSinceResetMeaning(before, k');
      if TicksSinceReset(log) >= k {
        if k == 0 {
          assert log[|log|..] == [];
        } else {
          var j: nat :| j <= |before| && Reset !in before[j..] && Ticks(before[j..]) >= k';
          StretchGrows(log, j);
        }
      }
      if j: nat :| j <= |log| && Reset !in log[j..] && Ticks(log[j..]) >= k {
        if j < |log| {
          StretchGrows(log, j);
          assert last in log[j..];
        }
      }
    }
  }

  lemma StretchGrows(log: seq<Event>, j: nat)
    requires j < |log|
    ensures var before, last := log[..|log| - 1], log[|log| - 1];
            && log[j..] == before[j..] + [last]
            && Ticks(log[j..]) == Ticks(before[j..]) + if last == Tick then 1 else 0
  {
    var s := log[j..];
    assert s[..|s| - 1] == log[..|log| - 1][j..];
  }

  // ---------------------------------------------------------------- the invariant

  predicate CheckerMid(s: State) {
    s.checker in {Incremented, BeforeRead, BeforeDeadLock, DeadLocked}
  }

  predicate ReceiverMid(s: State) {
    s.receiver in {AliveSet, BothLocked}
  }

  predicate MutexesHeld(s: State) {
    && (s.aliveMutex == Some(Receiver) <==> s.receiver != Idle)
    && (s.aliveMutex == Some(Checker) <==> s.checker in {DeadLocked, DeadWritten})
    && (s.heartbeatsMutex == Some(Receiver) <==> s.receiver in {BothLocked, CounterReset})
    && (s.heartbeatsMutex == Some(Checker) <==> s.checker in {CounterLocked, Incremented})
  }

  /** isAlive against n, the ticks since the last reset, and against stale, whether its last write was stale. */
  predicate AliveAccounted(s: State, n: nat, resetSinceLost: bool, stale: bool) {
    && (s.receiver in {AliveSet, BothLocked, CounterReset} ==> s.isAlive)
    && (n > MAX_MISSED && s.isAlive ==> CheckerMid(s) || ReceiverMid(s))
    && (n > MAX_MISSED + 1 && s.isAlive ==> ReceiverMid(s))
    && (s.checker in {BeforeDeadLock, DeadLocked} ==> if resetSinceLost then n == 0 else n > MAX_MISSED)
    && (!s.isAlive && !stale ==> n > MAX_MISSED)
    && (stale ==> !s.isAlive && n <= MAX_MISSED + 1 && (n == MAX_MISSED + 1 ==> CheckerMid(s)))
  }

  /** Every Lost in the log came when the counter had seen 7 ticks or more since its last reset. */
  ghost predicate LostAccounted(log: seq<Event>) {
    forall i :: 0 <= i < |log| && log[i] == Lost ==> TicksSinceReset(log[..i]) > MAX_MISSED
  }

  /** Whenever the counter has seen 8 ticks since its last reset, the connection was declared lost since then. */
  ghost predicate DeclaredInTime(log: seq<Event>) {
    forall i :: 0 <= i <= |log| && TicksSinceReset(log[..i]) > MAX_MISSED + 1 ==> LostSinceReset(log[..i])
  }

  /** Since the last reset the branch was taken once for every tick that was read as too high. */
  predicate LostCounted(s: State, n: nat, lost: nat) {
    lost == LateTicks(TicksRead(s, n))
  }

  /** How far each thread's turn is, against its last mark in the log. */
  predicate InTurn(s: State, checked: Option<Event>, received: Option<Event>) {
    && (match s.checker
        case Sleeping => checked.None? || checked == Some(Tick) || checked == Some(Callback)
        case CounterLocked => checked.None? || checked == Some(Tick) || checked == Some(Callback)
        case Incremented => checked == Some(Tick)
        case BeforeRead => checked == Some(Tick)
        case BeforeDeadLock => checked == Some(Lost)
        case DeadLocked => checked == Some(Lost)
        case DeadWritten => checked == Some(WroteDead)
        case BeforeCallback => checked == Some(WroteDead))
    && if s.receiver in {AliveSet, BothLocked} then received == Some(WroteAlive)
       else received.None? || received == Some(Reset)
  }

  ghost predicate Ordered(s: State) {
    InOrder(s.log) && InTurn(s, LastChecked(s.log), LastReceived(s.log))
  }

  ghost predicate Invariant(s: State) {
    && Ordered(s)
    && LostCounted(s, TicksSinceReset(s.log), LostCount(s.log))
    && DeclaredInTime(s.log)
    && MutexesHeld(s)
    && s.missedHeartbeats == Wrap32(TicksSinceReset(s.log))
    && AliveAccounted(s, TicksSinceReset(s.log), ResetSinceLost(s.log), StaleDeath(s.log))
    && LostAccounted(s.log)
  }

  lemma Logged(log: seq<Event>, e: Event)
    ensures TicksSinceReset(log + [e])
            == if e == Reset then 0 else TicksSinceReset(log) + if e == Tick then 1 else 0
    ensures ResetSinceLost(log + [e]) == (e == Reset || (e != Lost && ResetSinceLost(log)))
    ensures StaleDeath(log + [e])
            == if e == WroteDead then ResetSinceLost(log) else e != WroteAlive && StaleDeath(log)
    ensures LostCount(log + [e]) == if e == Reset then 0 else LostCount(log) + if e == Lost then 1 else 0
  {
    var log' := log + [e];
    assert log'[..|log'| - 1] == log && log'[|log'| - 1] == e;
  }

  lemma WrapCounts(n: nat)
    ensures Wrap32(Wrap32(n) + 1) == Wrap32(n + 1)
    ensures Wrap32(n) > MAX_MISSED ==> n > MAX_MISSED
    ensures n == MAX_MISSED + 1 ==> Wrap32(n) > MAX_MISSED
  {
  }

  lemma LostStaysAccounted(log: seq<Event>, e: Event)
    requires LostAccounted(log)
    requires e == Lost ==> TicksSinceReset(log) > MAX_MISSED
    ensures LostAccounted(log + [e])
  {
    var log' := log + [e];
    forall i | 0 <= i < |log'| && log'[i] == Lost
      ensures TicksSinceReset(log'[..i]) > MAX_MISSED
    {
      assert log'[..i] == log[..i];
      assert log[..|log|] == log;
    }
  }

  lemma CheckerKeepsAlive(s: State, n: nat, r: bool, stale: bool)
    requires Enabled(s, Checker) && MutexesHeld(s) && AliveAccounted(s, n, r, stale)
    requires s.missedHeartbeats == Wrap32(n)
    ensures var s' := CheckerStep(s);
            match s.checker
            case CounterLocked => AliveAccounted(s', n + 1, r, stale)
            case BeforeRead => AliveAccounted(s', n, r && s.missedHeartbeats <= MAX_MISSED, stale)
            case DeadLocked => AliveAccounted(s', n, r, r)
            case _ => AliveAccounted(s', n, r, stale)
  {
    WrapCounts(n);
  }

  lemma ReceiverKeepsAlive(s: State, n: nat, r: bool, stale: bool)
    requires Enabled(s, Receiver) && MutexesHeld(s) && AliveAccounted(s, n, r, stale)
    ensures var s' := ReceiverStep(s);
            match s.receiver
            case AliveLocked => AliveAccounted(s', n, r, false)
            case BothLocked => AliveAccounted(s', 0, true, stale)
            case _ => AliveAccounted(s', n, r, stale)
  {
  }

  lemma StepKeepsMutexes(s: State, t: Thread)
    requires MutexesHeld(s) && Enabled(s, t)
    ensures MutexesHeld(Step(s, t))
  {
  }

  /** The event a step of the checker (resp. receiver) logs. */
  function CheckerEvent(s: State): Option<Event> {
    match s.checker
    case CounterLocked => Some(Tick)
    case BeforeRead => if s.missedHeartbeats > MAX_MISSED then Some(Lost) else None
    case DeadLocked => Some(WroteDead)
    case BeforeCallback => Some(Callback)
    case _ => None
  }

  function ReceiverEvent(s: State): Option<Event> {
    match s.receiver
    case AliveLocked => Some(WroteAlive)
    case BothLocked => Some(Reset)
    case _ => None
  }

  lemma LogGrows(s: State, t: Thread)
    requires Enabled(s, t)
    ensures var e := if t == Checker then CheckerEvent(s) else ReceiverEvent(s);
            Step(s, t).log == if e.Some? then s.log + [e.value] else s.log
  {
  }

  lemma StepCounts(s: State, t: Thread)
    requires Enabled(s, t)
    ensures var e := if t == Checker then CheckerEvent(s) else ReceiverEvent(s);
            Step(s, t).missedHeartbeats
            == if e == Some(Tick) then Wrap32(s.missedHeartbeats + 1)
               else if e == Some(Reset) then 0
               else s.missedHeartbeats
  {
  }

  lemma StepKeepsCounter(s: State, t: Thread)
    requires Enabled(s, t) && s.missedHeartbeats == Wrap32(TicksSinceReset(s.log))
    ensures Step(s, t).missedHeartbeats == Wrap32(TicksSinceReset(Step(s, t).log))
  {
    LogGrows(s, t);
    StepCounts(s, t);
    WrapCounts(TicksSinceReset(s.log));
    SmallWrap(0);
    var e := if t == Checker then CheckerEvent(s) else ReceiverEvent(s);
    if e.Some? {
      CountAfter(s.log, e.value);
    }
  }

  lemma CountAfter(log: seq<Event>, e: Event)
    ensures TicksSinceReset(log + [e]) == if e == Reset then 0 else TicksSinceReset(log) + if e == Tick then 1 else 0
  {
    Logged(log, e);
  }

  lemma StepKeepsLost(s: State, t: Thread)
    requires Enabled(s, t) && s.missedHeartbeats == Wrap32(TicksSinceReset(s.log)) && LostAccounted(s.log)
    ensures LostAccounted(Step(s, t).log)
  {
    LogGrows(s, t);
    WrapCounts(TicksSinceReset(s.log));
    var e := if t == Checker then CheckerEvent(s) else ReceiverEvent(s);
    if e.Some? {
      LostStaysAccounted(s.log, e.value);
    }
  }

  lemma StepKeepsAlive(s: State, t: Thread)
    requires Enabled(s, t) && MutexesHeld(s) && s.missedHeartbeats == Wrap32(TicksSinceReset(s.log))
    requires AliveAccounted(s, TicksSinceReset(s.log), ResetSinceLost(s.log), StaleDeath(s.log))
    ensures var s' := Step(s, t);
            AliveAccounted(s', TicksSinceReset(s'.log), ResetSinceLost(s'.log), StaleDeath(s'.log))
  {
    LogGrows(s, t);
    var n, r, stale := TicksSinceReset(s.log), ResetSinceLost(s.log), StaleDeath(s.log);
    var e := if t == Checker then CheckerEvent(s) else ReceiverEvent(s);
    if e.Some? {
      Logged(s.log, e.value);
    }
    if t == Checker {
      CheckerKeepsAlive(s, n, r, stale);
    } else {
      ReceiverKeepsAlive(s, n, r, stale);
    }
  }

  lemma StepKeepsLostCount(s: State, t: Thread)
    requires Enabled(s, t) && s.missedHeartbeats == Wrap32(TicksSinceReset(s.log))
    requires LostCounted(s, TicksSinceReset(s.log), LostCount(s.log))
    ensures var s' := Step(s, t); LostCounted(s', TicksSinceReset(s'.log), LostCount(s'.log))
  {
    LogGrows(s, t);
    LostCountAfter(s, t, TicksSinceReset(s.log), LostCount(s.log));
    var e := if t == Checker then CheckerEvent(s) else ReceiverEvent(s);
    if e.Some? {
      Logged(s.log, e.value);
    }
  }

  lemma LostCountAfter(s: State, t: Thread, n: nat, lost: nat)
    requires Enabled(s, t) && s.missedHeartbeats == Wrap32(n) && LostCounted(s, n, lost)
    ensures var e := if t == Checker then CheckerEvent(s) else ReceiverEvent(s);
            LostCounted(Step(s, t),
                        if e == Some(Reset) then 0 else n + if e == Some(Tick) then 1 else 0,
                        if e == Some(Reset) then 0 else lost + if e == Some(Lost) then 1 else 0)
  {
    SmallWrap(0);
  }

  /** After 7 ticks the branch was taken, unless the checker has not read the counter since the last of them. */
  lemma SeventhRead(s: State)
    requires LostCounted(s, TicksSinceReset(s.log), LostCount(s.log))
    ensures var n := TicksSinceReset(s.log);
            n > MAX_MISSED ==> LostSinceReset(s.log) || (n == MAX_MISSED + 1 && s.checker in {Incremented, BeforeRead})
  {
    LateTicksExact(TicksRead(s, TicksSinceReset(s.log)));
  }

  lemma StepKeepsDeclared(s: State, t: Thread)
    requires Enabled(s, t) && DeclaredInTime(s.log)
    requires LostCounted(s, TicksSinceReset(s.log), LostCount(s.log))
    ensures DeclaredInTime(Step(s, t).log)
  {
    LogGrows(s, t);
    SeventhRead(s);
    var e := if t == Checker then CheckerEvent(s) else ReceiverEvent(s);
    if e.Some? {
      var log' := s.log + [e.value];
      Logged(s.log, e.value);
      forall i | 0 <= i <= |log'| && TicksSinceReset(log'[..i]) > MAX_MISSED + 1
        ensures LostSinceReset(log'[..i])
      {
        assert log'[..i] == if i == |log'| then log' else s.log[..i];
      }
    }
  }

  lemma LastMarks(log: seq<Event>, e: Event)
    ensures var own := e != Reset && e != WroteAlive;
            && LastChecked(log + [e]) == (if own then Some(e) else LastChecked(log))
            && LastReceived(log + [e]) == (if own then LastReceived(log) else Some(e))
  {
    assert (log + [e])[..|log|] == log;
  }

  lemma OrderExtends(log: seq<Event>, e: Event)
    requires InOrder(log) && MayFollow(LastChecked(log), LastReceived(log), e)
    ensures InOrder(log + [e])
  {
    var log' := log + [e];
    forall i | 0 <= i < |log'|
      ensures MayFollow(LastChecked(log'[..i]), LastReceived(log'[..i]), log'[i])
    {
      assert log'[..i] == if i < |log| then log[..i] else log;
    }
  }

  /** A step marks what may follow, and gets that far in its turn. */
  lemma TurnAfter(s: State, t: Thread, checked: Option<Event>, received: Option<Event>)
    requires Enabled(s, t) && InTurn(s, checked, received)
    ensures var e := if t == Checker then CheckerEvent(s) else ReceiverEvent(s);
            && (e.Some? ==> MayFollow(checked, received, e.value))
            && InTurn(Step(s, t), if t == Checker && e.Some? then e else checked,
                      if t == Receiver && e.Some? then e else received)
  {
  }

  lemma StepKeepsOrder(s: State, t: Thread)
    requires Enabled(s, t) && Ordered(s)
    ensures Ordered(Step(s, t))
  {
    LogGrows(s, t);
    TurnAfter(s, t, LastChecked(s.log), LastReceived(s.log));
    var e := if t == Checker then CheckerEvent(s) else ReceiverEvent(s);
    if e.Some? {
      OrderExtends(s.log, e.value);
      LastMarks(s.log, e.value);
    }
  }

  lemma StepKeepsInvariant(s: State, t: Thread)
    requires Invariant(s) && Enabled(s, t)
    ensures Invariant(Step(s, t))
  {
    StepKeepsOrder(s, t);
    StepKeepsLostCount(s, t);
    StepKeepsDeclared(s, t);
    StepKeepsMutexes(s, t);
    StepKeepsCounter(s, t);
    StepKeepsAlive(s, t);
    StepKeepsLost(s, t);
  }

  lemma {:induction false} RunKeepsInvariant(s: State, ts: seq<Thread>)
    requires Invariant(s) && RunOf(s, ts)
    ensures Invariant(Final(s, ts))
    decreases ts
  {
    if ts != [] {
      StepKeepsInvariant(s, ts[0]);
      RunKeepsInvariant(Step(s, ts[0]), ts[1..]);
    }
  }

  lemma StartInvariant()
    ensures Invariant(START)
  {
  }

  lemma Reached(ts: seq<Thread>)
    requires RunOf(START, ts)
    ensures Invariant(Final(START, ts))
  {
    StartInvariant();
    RunKeepsInvariant(START, ts);
  }

  /** What the invariant says about the log of a run. */
  lemma RunAccounts(ts: seq<Thread>)
    requires RunOf(START, ts)
    ensures var s := Final(START, ts);
            && InOrder(s.log)
            && LostAccounted(s.log)
            && DeclaredInTime(s.log)
            && LostCounted(s, TicksSinceReset(s.log), LostCount(s.log))
  {
    Reached(ts);
    assert Invariant(Final(START, ts));
  }

  /** The counter always is the number of ticks since the last reset, as a 32-bit int. */
  lemma CounterExact(ts: seq<Thread>)
    requires RunOf(START, ts)
    ensures var s := Final(START, ts); s.missedHeartbeats == Wrap32(TicksSinceReset(s.log))
  {
    Reached(ts);
  }

  /**
   The branch is taken exactly once for every tick after which the counter reads as too high, as soon as the checker has
   read it, under any interleaving. Until the counter wraps these are the ticks from the 7th since the last reset on.
  */
  lemma LostCountExact(ts: seq<Thread>)
    requires RunOf(START, ts)
    ensures var s := Final(START, ts); var read := TicksRead(s, TicksSinceReset(s.log));
            && LostCount(s.log) == LateTicks(read)
            && (read < 0x8000_0000 ==> LostCount(s.log) == if read <= MAX_MISSED then 0 else read - MAX_MISSED)
  {
    Reached(ts);
    var s := Final(START, ts);
    LateTicksExact(TicksRead(s, TicksSinceReset(s.log)));
  }

  /** The connection-lost branch is only taken when 7 ticks went by without a reset. */
  lemma Accuracy(ts: seq<Thread>, i: nat)
    requires RunOf(START, ts)
    requires i < |Final(START, ts).log| && Final(START, ts).log[i] == Lost
    ensures var log := Final(START, ts).log;
            exists j: nat :: j <= i && Reset !in log[j..i] && Ticks(log[j..i]) >= 7
  {
    RunAccounts(ts);
    AccountedMeaning(Final(START, ts).log, i);
  }

  lemma AccountedMeaning(log: seq<Event>, i: nat)
    requires LostAccounted(log) && i < |log| && log[i] == Lost
    ensures exists j: nat :: j <= i && Reset !in log[j..i] && Ticks(log[j..i]) >= 7
  {
    TicksSinceResetMeaning(log[..i], 7);
    var j: nat :| j <= i && Reset !in log[..i][j..] && Ticks(log[..i][j..]) >= 7;
    assert log[..i][j..] == log[j..i];
  }

  /**
   And it is always taken in time: at any moment of any run, if 8 ticks went by without a reset, the branch was taken
   since the last reset. The 7th tick is enough once the checker has read the counter after it.
  */
  lemma Completeness(ts: seq<Thread>, j: nat, i: nat)
    requires RunOf(START, ts) && j <= i <= |Final(START, ts).log|
    requires var log := Final(START, ts).log; Reset !in log[j..i] && Ticks(log[j..i]) >= 8
    ensures var log := Final(START, ts).log; exists k :: 0 <= k < i && LostAt(log[..i], k)
  {
    RunAccounts(ts);
    DeclaredMeaning(Final(START, ts).log, j, i);
  }

  lemma DeclaredMeaning(log: seq<Event>, j: nat, i: nat)
    requires DeclaredInTime(log) && j <= i <= |log| && Reset !in log[j..i] && Ticks(log[j..i]) >= 8
    ensures exists k :: 0 <= k < i && LostAt(log[..i], k)
  {
    var upTo := log[..i];
    assert upTo[j..] == log[j..i];
    TicksSinceResetMeaning(upTo, 8);
    LostSinceResetMeaning(upTo);
  }

  lemma SeventhTickSuffices(ts: seq<Thread>)
    requires RunOf(START, ts) && Final(START, ts).checker !in {Incremented, BeforeRead}
    ensures var log := Final(START, ts).log;
            TicksSinceReset(log) >= 7 ==> exists k :: 0 <= k < |log| && LostAt(log, k)
  {
    RunAccounts(ts);
    SeventhRead(Final(START, ts));
    LostSinceResetMeaning(Final(START, ts).log);
  }

  /**
   Every connection-lost branch writes isAlive and calls its handler exactly once before the checker counts another
   tick, whatever the receiver does in between.
  */
  lemma LostTurnCompletes(ts: seq<Thread>, i: nat, j: nat)
    requires RunOf(START, ts)
    requires var log := Final(START, ts).log;
             i < j < |log| && log[i] == Lost && Tick !in log[i..j] && log[j] == Tick
    ensures var turn := multiset(Final(START, ts).log[i..j]);
            turn[Lost] == 1 && turn[WroteDead] == 1 && turn[Callback] == 1
  {
    RunAccounts(ts);
    MarksAfterLost(Final(START, ts).log, i, j);
  }

  /** The marks since a Lost, against the last one the checker made. */
  ghost predicate LostTurn(turn: seq<Event>, last: Option<Event>) {
    && (last == Some(Lost) || last == Some(WroteDead) || last == Some(Callback))
    && multiset(turn)[Lost] == 1
    && multiset(turn)[WroteDead] == (if last == Some(Lost) then 0 else 1)
    && multiset(turn)[Callback] == (if last == Some(Callback) then 1 else 0)
  }

  lemma {:induction false} MarksAfterLost(log: seq<Event>, i: nat, j: nat)
    requires InOrder(log) && i < j <= |log| && log[i] == Lost && Tick !in log[i..j]
    ensures LostTurn(log[i..j], LastChecked(log[..j]))
    decreases j
  {
    var before, e := log[..j - 1], log[j - 1];
    LastOfStretch(log, i, j);
    LastMarks(before, e);
    if j == i + 1 {
      assert log[i..j] == [e];
    } else {
      MarksAfterLost(log, i, j - 1);
      LostTurnGrows(log[i..j - 1], LastChecked(before), LastReceived(before), e);
    }
  }

  lemma LastOfStretch(log: seq<Event>, i: nat, j: nat)
    requires i < j <= |log|
    ensures log[..j] == log[..j - 1] + [log[j - 1]]
    ensures log[i..j] == log[i..j - 1] + [log[j - 1]]
    ensures Tick !in log[i..j] ==> Tick !in log[i..j - 1] && log[j - 1] != Tick
  {
    assert log[j - 1] == log[i..j][j - 1 - i];
  }

  lemma LostTurnGrows(turn: seq<Event>, checked: Option<Event>, received: Option<Event>, e: Event)
    requires LostTurn(turn, checked) && MayFollow(checked, received, e) && e != Tick
    ensures LostTurn(turn + [e], if e != Reset && e != WroteAlive then Some(e) else checked)
  {
  }

  /** If no stretch without a reset has 7 ticks, no connection is ever declared lost. */
  lemma NeverLost(ts: seq<Thread>)
    requires RunOf(START, ts)
    requires forall j: nat, i: nat :: j <= i <= |Final(START, ts).log| && Ticks(Final(START, ts).log[j..i]) >= 7
                                      ==> Reset in Final(START, ts).log[j..i]
    ensures Lost !in Final(START, ts).log
  {
    var log := Final(START, ts).log;
    if Lost in log {
      var i: nat :| i < |log| && log[i] == Lost;
      Accuracy(ts, i);
    }
  }

  /**
   While the counter is too high and isAlive still set, somebody is in the middle of an update: the checker between its
   increment and its write, or the receiver between setting isAlive and resetting the counter.
  */
  lemma MidUpdate(ts: seq<Thread>)
    requires RunOf(START, ts)
    ensures var s := Final(START, ts); s.missedHeartbeats > MAX_MISSED && s.isAlive ==> CheckerMid(s) || ReceiverMid(s)
  {
    Reached(ts);
    WrapCounts(TicksSinceReset(Final(START, ts).log));
  }

  predicate AtRest(s: State) {
    s.checker == Sleeping && s.receiver == Idle
  }

  /**
   When both threads are at rest, isAlive tells the truth about the last 7 ticks exactly if the last write of it was
   not a stale one: a heartbeat handled between the checker's unlocked read and its write leaves isAlive false.
  */
  lemma AliveExact(ts: seq<Thread>)
    requires RunOf(START, ts) && AtRest(Final(START, ts))
    ensures var s := Final(START, ts);
            (s.isAlive <==> TicksSinceReset(s.log) <= MAX_MISSED) <==> !StaleDeath(s.log)
  {
    Reached(ts);
    RestExact(Final(START, ts), TicksSinceReset(Final(START, ts).log), StaleDeath(Final(START, ts).log));
  }

  lemma RestExact(s: State, n: nat, stale: bool)
    requires AtRest(s) && AliveAccounted(s, n, ResetSinceLost(s.log), stale)
    ensures (s.isAlive <==> n <= MAX_MISSED) <==> !stale
  {
  }

  // ---------------------------------------------------------------- uninterleaved turns

  ghost predicate Reaches(s: State, s': State) {
    exists ts :: RunOf(s, ts) && Final(s, ts) == s'
  }

  lemma ReachesItself(s: State)
    ensures Reaches(s, s)
  {
    assert RunOf(s, []) && Final(s, []) == s;
  }

  lemma {:induction false} RunExtends(s: State, ts: seq<Thread>, t: Thread)
    requires RunOf(s, ts) && Enabled(Final(s, ts), t)
    ensures RunOf(s, ts + [t]) && Final(s, ts + [t]) == Step(Final(s, ts), t)
    decreases ts
  {
    if ts == [] {
      assert ts + [t] == [t];
    } else {
      RunExtends(Step(s, ts[0]), ts[1..], t);
      assert (ts + [t])[1..] == ts[1..] + [t];
    }
  }

  lemma ReachesNext(s: State, s': State, t: Thread)
    requires Reaches(s, s') && Enabled(s', t)
    ensures Reaches(s, Step(s', t))
  {
    var ts :| RunOf(s, ts) && Final(s, ts) == s';
    RunExtends(s, ts, t);
  }

  /** A whole turn of the checker's loop, resp. the handling of a whole heartbeat, when nobody interferes. */
  datatype Turn = CheckTurn | BeatTurn

  function WholeTurn(s: State, turn: Turn): State {
    match turn
    case CheckTurn =>
      var missed := Wrap32(s.missedHeartbeats + 1);
      if missed > MAX_MISSED
      then s.(missedHeartbeats := missed, isAlive := false, log := s.log + [Tick] + LOST_TURN)
      else s.(missedHeartbeats := missed, log := s.log + [Tick])
    case BeatTurn => s.(missedHeartbeats := 0, isAlive := true, log := s.log + [WroteAlive] + [Reset])
  }

  predicate Free(s: State) {
    AtRest(s) && s.aliveMutex.None? && s.heartbeatsMutex.None?
  }

  /** The checker's next lock region, unlocked read or callback, as a whole. */
  function CheckerRegion(s: State): State {
    match s.checker
    case Sleeping => CheckerStep(CheckerStep(CheckerStep(s)))
    case BeforeDeadLock => CheckerStep(CheckerStep(CheckerStep(s)))
    case _ => CheckerStep(s)
  }

  lemma RegionReached(s0: State, s: State)
    requires s.checker in {Sleeping, BeforeRead, BeforeDeadLock, BeforeCallback}
    requires s.aliveMutex.None? && s.heartbeatsMutex.None? && Reaches(s0, s)
    ensures Reaches(s0, CheckerRegion(s))
  {
    ReachesNext(s0, s, Checker);
    if s.checker in {Sleeping, BeforeDeadLock} {
      var s1 := Step(s, Checker);
      var s2 := Step(s1, Checker);
      ReachesNext(s0, s1, Checker);
      ReachesNext(s0, s2, Checker);
    }
  }

  /** The checker up to the point where it knows whether it read too much. */
  lemma HalfTick(s0: State, s: State)
    requires Free(s) && Reaches(s0, s)
    ensures var missed := Wrap32(s.missedHeartbeats + 1);
            Reaches(s0, if missed > MAX_MISSED
                        then s.(missedHeartbeats := missed, checker := BeforeDeadLock, log := s.log + [Tick] + [Lost])
                        else WholeTurn(s, CheckTurn))
  {
    var s1 := Step(s, Checker);
    var s2 := Step(s1, Checker);
    var s3 := Step(s2, Checker);
    ReachesNext(s0, s, Checker);
    ReachesNext(s0, s1, Checker);
    ReachesNext(s0, s2, Checker);
    ReachesNext(s0, s3, Checker);
  }

  lemma OtherHalf(s0: State, s: State)
    requires s.checker == BeforeDeadLock && s.aliveMutex.None? && Reaches(s0, s)
    ensures Reaches(s0, s.(isAlive := false, checker := Sleeping, log := s.log + [WroteDead] + [Callback]))
  {
    var s1 := Step(s, Checker);
    var s2 := Step(s1, Checker);
    var s3 := Step(s2, Checker);
    ReachesNext(s0, s, Checker);
    ReachesNext(s0, s1, Checker);
    ReachesNext(s0, s2, Checker);
    ReachesNext(s0, s3, Checker);
  }

  lemma Beat(s0: State, s: State)
    requires s.receiver == Idle && s.aliveMutex.None? && s.heartbeatsMutex.None? && Reaches(s0, s)
    ensures Reaches(s0, WholeTurn(s, BeatTurn))
  {
    var s1 := Step(s, Receiver);
    var s2 := Step(s1, Receiver);
    var s3 := Step(s2, Receiver);
    var s4 := Step(s3, Receiver);
    ReachesNext(s0, s, Receiver);
    ReachesNext(s0, s1, Receiver);
    ReachesNext(s0, s2, Receiver);
    ReachesNext(s0, s3, Receiver);
    ReachesNext(s0, s4, Receiver);
  }

  /** Whole turns are fine-grained runs. */
  lemma TurnIsRun(s0: State, s: State, turn: Turn)
    requires Free(s) && Reaches(s0, s)
    ensures Reaches(s0, WholeTurn(s, turn)) && Free(WholeTurn(s, turn))
  {
    match turn
    case CheckTurn =>
      HalfTick(s0, s);
      var missed := Wrap32(s.missedHeartbeats + 1);
      if missed > MAX_MISSED {
        OtherHalf(s0, s.(missedHeartbeats := missed, checker := BeforeDeadLock, log := s.log + [Tick] + [Lost]));
        assert s.log + [Tick] + [Lost] + [WroteDead] + [Callback] == s.log + [Tick] + LOST_TURN;
      }
    case BeatTurn => Beat(s0, s);
  }

  lemma RegionsAreTurn(s: State)
    requires Free(s)
    ensures var s1 := CheckerRegion(s); var s2 := CheckerRegion(s1);
            WholeTurn(s, CheckTurn) == if s1.missedHeartbeats > MAX_MISSED then CheckerRegion(CheckerRegion(s2)) else s2
  {
    assert s.log + [Tick] + [Lost] + [WroteDead] + [Callback] == s.log + [Tick] + LOST_TURN;
  }

  function Turns(s: State, turns: seq<Turn>): State {
    if turns == [] then s else WholeTurn(Turns(s, turns[..|turns| - 1]), turns[|turns| - 1])
  }

  /** isAlive holds exactly up to the 6th tick since the last reset. */
  ghost predicate Truthful(s: State) {
    var n := TicksSinceReset(s.log);
    s.missedHeartbeats == Wrap32(n) && (s.isAlive <==> n <= MAX_MISSED)
  }

  /**
   Without interleaving, isAlive is exact after every turn, and the connection-lost branch is taken on every tick from
   the 7th since the last reset on, as long as the 32-bit counter has not wrapped.
  */
  lemma TurnExact(s: State, turn: Turn)
    requires Truthful(s)
    ensures var s' := WholeTurn(s, turn); var n := TicksSinceReset(s'.log);
            && Truthful(s')
            && n == (if turn == BeatTurn then 0 else TicksSinceReset(s.log) + 1)
            && (Lost in s'.log[|s.log|..] <==> turn == CheckTurn && MAX_MISSED < n % 0x1_0000_0000 < 0x8000_0000)
  {
    match turn
    case CheckTurn => CheckTurnExact(s);
    case BeatTurn => BeatTurnLog(s.log);
  }

  lemma CheckTurnExact(s: State)
    requires Truthful(s)
    ensures var s' := WholeTurn(s, CheckTurn); var n := TicksSinceReset(s'.log);
            && Truthful(s')
            && n == TicksSinceReset(s.log) + 1
            && (Lost in s'.log[|s.log|..] <==> MAX_MISSED < n % 0x1_0000_0000 < 0x8000_0000)
  {
    CheckTurnLog(s);
    CountOneMore(TicksSinceReset(s.log), s.missedHeartbeats);
  }

  lemma CheckTurnLog(s: State)
    ensures var s' := WholeTurn(s, CheckTurn);
            && TicksSinceReset(s'.log) == TicksSinceReset(s.log) + 1
            && (Lost in s'.log[|s.log|..] <==> s'.missedHeartbeats > MAX_MISSED)
  {
    LostTurnLog(s.log);
    Logged(s.log, Tick);
    assert (s.log + [Tick])[|s.log|..] == [Tick];
  }

  lemma CountOneMore(n: nat, missed: int)
    requires missed == Wrap32(n)
    ensures var missed' := Wrap32(missed + 1);
            && missed' == Wrap32(n + 1)
            && (missed' > MAX_MISSED <==> MAX_MISSED < (n + 1) % 0x1_0000_0000 < 0x8000_0000)
            && (missed' > MAX_MISSED ==> n + 1 > MAX_MISSED)
            && (missed' <= MAX_MISSED ==> n != MAX_MISSED)
  {
    WrapCounts(n);
    WrapLate(n + 1);
  }

  lemma WrapLate(n: nat)
    ensures Wrap32(n) > MAX_MISSED <==> MAX_MISSED < n % 0x1_0000_0000 < 0x8000_0000
    ensures Wrap32(n) > MAX_MISSED ==> n > MAX_MISSED
  {
  }

  lemma {:induction false} NeutralEvents(log: seq<Event>, es: seq<Event>)
    requires Tick !in es && Reset !in es
    ensures TicksSinceReset(log + es) == TicksSinceReset(log)
  {
    if es == [] {
      assert log + es == log;
    } else {
      var before := es[..|es| - 1];
      NeutralEvents(log, before);
      Logged(log + before, es[|es| - 1]);
      assert (log + before) + [es[|es| - 1]] == log + es;
    }
  }

  const LOST_TURN := [Lost, WroteDead, Callback]

  lemma LostTurnLog(log: seq<Event>)
    ensures var log' := log + [Tick] + LOST_TURN;
            TicksSinceReset(log') == TicksSinceReset(log) + 1 && Lost in log'[|log|..]
  {
    LostTurnNeutral(log + [Tick]);
    CountAfter(log, Tick);
    LostInTurn(log);
  }

  lemma LostTurnNeutral(log: seq<Event>)
    ensures TicksSinceReset(log + LOST_TURN) == TicksSinceReset(log)
  {
    NeutralEvents(log, LOST_TURN);
  }

  lemma LostInTurn(log: seq<Event>)
    ensures Lost in (log + [Tick] + LOST_TURN)[|log|..]
  {
    var log' := log + [Tick] + LOST_TURN;
    assert log'[|log| + 1] == Lost;
    assert log'[|log|..][1] == log'[|log| + 1];
  }

  lemma BeatTurnLog(log: seq<Event>)
    ensures var log' := log + [WroteAlive] + [Reset];
            TicksSinceReset(log') == 0 && Lost !in log'[|log|..]
  {
    Logged(log + [WroteAlive], Reset);
    assert (log + [WroteAlive] + [Reset])[|log|..] == [WroteAlive, Reset];
  }

  /** Check turns after the last heartbeat turn. */
  function ChecksSinceBeat(turns: seq<Turn>): nat {
    if turns == [] || turns[|turns| - 1] == BeatTurn then 0 else ChecksSinceBeat(turns[..|turns| - 1]) + 1
  }

  /** The i-th turn took the connection-lost branch. */
  ghost predicate TookBranch(turns: seq<Turn>, i: nat)
    requires i < |turns|
  {
    var before := Turns(START, turns[..i]);
    Lost in WholeTurn(before, turns[i]).log[|before.log|..]
  }

  /**
   All sequences of whole turns are fine-grained runs. isAlive holds after them exactly if there were at most 6 check
   turns since the last heartbeat, and the turns that took the connection-lost branch are exactly the check turns that
   were the 7th or a later one since the last heartbeat, as a 32-bit counter counts them.
  */
  lemma TurnsExact(turns: seq<Turn>)
    ensures var s := Turns(START, turns); var n := ChecksSinceBeat(turns);
            && Reaches(START, s) && Free(s)
            && s.missedHeartbeats == Wrap32(n)
            && (s.isAlive <==> n <= MAX_MISSED)
    ensures forall i :: 0 <= i < |turns| ==>
              (TookBranch(turns, i) <==>
               turns[i] == CheckTurn && MAX_MISSED < ChecksSinceBeat(turns[..i + 1]) % 0x1_0000_0000 < 0x8000_0000)
  {
    TurnsTruthful(turns);
    forall i | 0 <= i < |turns|
      ensures TookBranch(turns, i) <==>
              turns[i] == CheckTurn && MAX_MISSED < ChecksSinceBeat(turns[..i + 1]) % 0x1_0000_0000 < 0x8000_0000
    {
      BranchExact(turns, i);
    }
  }

  lemma BranchExact(turns: seq<Turn>, i: nat)
    requires i < |turns|
    ensures TookBranch(turns, i) <==>
            turns[i] == CheckTurn && MAX_MISSED < ChecksSinceBeat(turns[..i + 1]) % 0x1_0000_0000 < 0x8000_0000
  {
    var before := Turns(START, turns[..i]);
    TurnsTruthful(turns[..i]);
    TurnExact(before, turns[i]);
    assert turns[..i + 1][..i] == turns[..i];
    assert ChecksSinceBeat(turns[..i + 1]) == TicksSinceReset(WholeTurn(before, turns[i]).log);
  }

  lemma {:induction false} TurnsTruthful(turns: seq<Turn>)
    ensures var s := Turns(START, turns);
            Reaches(START, s) && Free(s) && Truthful(s) && TicksSinceReset(s.log) == ChecksSinceBeat(turns)
    decreases |turns|
  {
    if turns == [] {
      ReachesItself(START);
    } else {
      var before, turn := turns[..|turns| - 1], turns[|turns| - 1];
      TurnsTruthful(before);
      TurnIsRun(START, Turns(START, before), turn);
      TurnExact(Turns(START, before), turn);
    }
  }

  function Checks(n: nat): (turns: seq<Turn>)
    ensures |turns| == n
  {
    if n == 0 then [] else Checks(n - 1) + [CheckTurn]
  }

  lemma SmallWrap(n: nat)
    requires n <= MAX_MISSED
    ensures Wrap32(n) == n
  {
  }

  lemma {:induction false} ChecksCount(n: nat)
    requires n <= MAX_MISSED
    ensures Turns(START, Checks(n)).missedHeartbeats == n
  {
    if n > 0 {
      ChecksCount(n - 1);
      assert Checks(n)[..n - 1] == Checks(n - 1) && Checks(n)[n - 1] == CheckTurn;
      var s := Turns(START, Checks(n - 1));
      assert Turns(START, Checks(n)) == WholeTurn(s, CheckTurn);
      SmallWrap(n);
    }
  }

  /**
   With interleaving it is not exact: a heartbeat handled between the 7th tick's read and its write leaves both threads
   at rest, the counter at 0 and the connection marked dead.
  */
  lemma StaleDeathHappens()
    ensures exists s :: Reaches(START, s) && AtRest(s) && s.missedHeartbeats == 0 && !s.isAlive && StaleDeath(s.log)
  {
    var s := Turns(START, Checks(6));
    TurnsExact(Checks(6));
    ChecksCount(6);
    HalfTick(START, s);
    var s1 := s.(missedHeartbeats := 7, checker := BeforeDeadLock, log := s.log + [Tick] + [Lost]);
    var s2 := WholeTurn(s1, BeatTurn);
    Beat(START, s1);
    OtherHalf(START, s2);
    StaleLog(s1.log + [WroteAlive]);
  }

  lemma StaleLog(log: seq<Event>)
    ensures StaleDeath(log + [Reset] + [WroteDead] + [Callback])
  {
    var l1 := log + [Reset];
    var l2 := l1 + [WroteDead];
    Logged(log, Reset);
    Logged(l1, WroteDead);
    Logged(l2, Callback);
  }
}

/** The detector's part of the NetworkClient object: one method for each lock region and for the unlocked read. */
module HeartbeatDetectors {
  import opened Detector

  class HeartbeatDetector {
    var missedHeartbeats: int
    var isAlive: bool

    /** Which of its regions the checker comes to next, and the history of events. */
    ghost var checker: CheckerPc
    ghost var log: seq<Event>

    /** Between regions no mutex is held and the receiver is idle. */
    ghost function View(): State
      reads this
    {
      Detector.START.(missedHeartbeats := missedHeartbeats, isAlive := isAlive, checker := checker, log := log)
    }

    /** The object is where some fine-grained run leads, between two regions. */
    ghost predicate Valid()
      reads this
    {
      checker in {Sleeping, BeforeRead, BeforeDeadLock, BeforeCallback} && Reaches(Detector.START, View())
    }

    /** So all that is proved of runs holds of the object. */
    lemma ValidImpliesInvariant()
      requires Valid()
      ensures Invariant(View())
    {
      var ts :| RunOf(Detector.START, ts) && Final(Detector.START, ts) == View();
      Reached(ts);
    }

    constructor ()
      ensures Valid() && View() == Detector.START
    {
      missedHeartbeats, isAlive, checker, log := 0, true, Sleeping, [];
      new;
      ReachesItself(Detector.START);
    }

    /** The region under heartbeatsMutex. */
    method CountMissed()
      requires Valid() && checker == Sleeping
      modifies this
      ensures Valid() && View() == CheckerRegion(old(View()))
    {
      RegionReached(Detector.START, View());
      missedHeartbeats := Wrap32(missedHeartbeats + 1);
      log, checker := log + [Tick], BeforeRead;
    }

    /** The unlocked read. */
    method ReadCounter() returns (tooMany: bool)
      requires Valid() && checker == BeforeRead
      modifies this
      ensures Valid() && View() == CheckerRegion(old(View()))
      ensures tooMany <==> missedHeartbeats > MAX_MISSED
    {
      RegionReached(Detector.START, View());
      tooMany := missedHeartbeats > MAX_MISSED;
      if tooMany {
        log, checker := log + [Lost], BeforeDeadLock;
      } else {
        checker := Sleeping;
      }
    }

    /** The region under aliveMutex. */
    method MarkDead()
      requires Valid() && checker == BeforeDeadLock
      modifies this
      ensures Valid() && View() == CheckerRegion(old(View()))
    {
      RegionReached(Detector.START, View());
      isAlive := false;
      log, checker := log + [WroteDead], BeforeCallback;
    }

    /** The call of onConnectionLostHandler. */
    method CallLost()
      requires Valid() && checker == BeforeCallback
      modifies this
      ensures Valid() && View() == CheckerRegion(old(View()))
    {
      RegionReached(Detector.START, View());
      log, checker := log + [Callback], Sleeping;
    }

    lemma LostWhen()
      requires Valid()
      ensures Wrap32(missedHeartbeats + 1) > MAX_MISSED
              <==> MAX_MISSED < (TicksSinceReset(log) + 1) % 0x1_0000_0000 < 0x8000_0000
    {
      var ts :| RunOf(Detector.START, ts) && Final(Detector.START, ts) == View();
      CounterExact(ts);
      CountOneMore(TicksSinceReset(log), missedHeartbeats);
    }

    /** One uninterrupted turn of checkForMissedHeartbeats; lost says whether onConnectionLostHandler is called. */
    method CheckOnce() returns (lost: bool)
      requires Valid() && checker == Sleeping
      modifies this
      ensures Valid() && View() == WholeTurn(old(View()), CheckTurn)
      ensures lost <==> MAX_MISSED < (TicksSinceReset(old(log)) + 1) % 0x1_0000_0000 < 0x8000_0000
      ensures isAlive <==> old(isAlive) && !lost
    {
      LostWhen();
      RegionsAreTurn(View());
      CountMissed();
      lost := ReadCounter();
      if lost {
        MarkDead();
        CallLost();
      }
    }

    /** The Heartbeat branch of the packet handler, wherever between its regions the checker is. */
    method OnHeartbeat()
      requires Valid()
      modifies this
      ensures Valid() && View() == WholeTurn(old(View()), BeatTurn)
      ensures isAlive && missedHeartbeats == 0
    {
      Beat(Detector.START, View());
      isAlive := true;
      log := log + [WroteAlive];
      missedHeartbeats := 0;
      log := log + [Reset];
    }
  }
}
