/**
 The incremental TCP framer (ProcessingBuffer.cpp) as a state machine on values, and the one-shot
 parser it is measured against.
*/
module Framer {
  import opened Bytes
  import opened Packets
  import opened Sequences

  /** addData refuses longer chunks (MAX_PACKET_SIZE in Parlo.h). */
  const MAX_CHUNK := 1024

  datatype Header = Header(id: byte, compressed: bool, length: uint16)

  /**
   AwaitHeader is hasReadHeader == false, AwaitBody is hasReadHeader == true. Aborted is the consumer thread
   gone, because the Packet constructor threw on the empty body that `header` announced.
  */
  datatype Mode = AwaitHeader | AwaitBody(header: Header) | Aborted(header: Header)

  datatype State = State(mode: Mode, buffer: seq<byte>)

  datatype Outcome = Outcome(packets: seq<Packet>, state: State)

  function ReadHeader(s: seq<byte>): Header
    requires |s| >= STANDARD
  {
    Header(s[0], s[1] != 0, s[3] as int * 256 + s[2])
  }

  /** The guard of the payload loop. */
  predicate BodyReady(length: uint16, size: nat) {
    STANDARD <= length && size >= length - STANDARD
  }

  /**
   The source compares the buffer's size with size_t(length - 4). For every size a std::queue can have
   (at most 2^63 - 1) that is BodyReady: a length below 4 wraps to a bound no queue reaches.
  */
  lemma CastGuard(length: uint16, size: nat)
    requires size < 0x8000_0000_0000_0000
    ensures size >= (length - STANDARD) % 0x1_0000_0000_0000_0000 <==> BodyReady(length, size)
  {
    if length < STANDARD {
      assert (length - STANDARD) % 0x1_0000_0000_0000_0000 == length - STANDARD + 0x1_0000_0000_0000_0000;
    }
  }

  /** The packet built from a header and its (nonempty) body. */
  function PacketOf(h: Header, body: seq<byte>): Packet {
    Packet(h.id, if h.compressed then 1 else 0, 0, Uint16(STANDARD + |body|), body, false)
  }

  /** A finished iteration always leaves the header of an empty frame in Aborted, never in AwaitBody. */
  predicate WellFormed(st: State) {
    match st.mode
    case AwaitHeader => true
    case AwaitBody(h) => h.length != STANDARD
    case Aborted(h) => h.length == STANDARD
  }

  /** Reading the header, when there is none yet and four bytes have arrived. */
  function TakeHeader(st: State): State {
    if st.mode.AwaitHeader? && |st.buffer| >= STANDARD
    then State(AwaitBody(ReadHeader(st.buffer)), st.buffer[STANDARD..])
    else st
  }

  /** Reading the payload and handing over the packet, when a header is pending and its payload has arrived. */
  function TakeBody(st: State): Outcome {
    if st.mode.AwaitBody? && BodyReady(st.mode.header.length, |st.buffer|) then
      var h := st.mode.header;
      var n := h.length - STANDARD;
      if n == 0 then Outcome([], State(Aborted(h), st.buffer))
      else Outcome([PacketOf(h, st.buffer[..n])], State(AwaitHeader, st.buffer[n..]))
    else Outcome([], st)
  }

  /** One iteration of the consumer loop. On an empty buffer it waits; an aborted consumer does nothing. */
  function Step(st: State): Outcome {
    if st.mode.Aborted? || st.buffer == [] then Outcome([], st) else TakeBody(TakeHeader(st))
  }

  /** The one-shot parser, resumed from a header state: all the packets in the buffer, and what is left. */
  function Parse(st: State): Outcome
    decreases |st.buffer|
  {
    match st.mode
    case Aborted(_) => Outcome([], st)
    case AwaitHeader =>
      if |st.buffer| < STANDARD then Outcome([], st)
      else Parse(State(AwaitBody(ReadHeader(st.buffer)), st.buffer[STANDARD..]))
    case AwaitBody(h) =>
      if h.length == STANDARD then Outcome([], State(Aborted(h), st.buffer))
      else if !BodyReady(h.length, |st.buffer|) then Outcome([], st)
      else
        var n := h.length - STANDARD;
        var rest := Parse(State(AwaitHeader, st.buffer[n..]));
        Outcome([PacketOf(h, st.buffer[..n])] + rest.packets, rest.state)
  }

  /** No frame can be read off, however often the consumer runs. */
  predicate Residual(st: State) {
    match st.mode
    case AwaitHeader => |st.buffer| < STANDARD
    case AwaitBody(h) => h.length < STANDARD || |st.buffer| < h.length - STANDARD
    case Aborted(h) => h.length == STANDARD
  }

  predicate Quiescent(st: State) {
    Step(st) == Outcome([], st)
  }

  function Fed(st: State, t: seq<byte>): State {
    State(st.mode, st.buffer + t)
  }

  lemma ParseBody(h: Header, s: seq<byte>)
    requires h.length > STANDARD && BodyReady(h.length, |s|)
    ensures var n := h.length - STANDARD; var o := Parse(State(AwaitHeader, s[n..]));
            Parse(State(AwaitBody(h), s)) == Outcome([PacketOf(h, s[..n])] + o.packets, o.state)
  {
  }

  /** Parsing is incremental: what more bytes add is the parse of what was left, followed by them. */
  lemma {:induction false} ParseAppend(st: State, t: seq<byte>)
    ensures var o := Parse(st); var o' := Parse(Fed(o.state, t));
            Parse(Fed(st, t)) == Outcome(o.packets + o'.packets, o'.state)
    decreases |st.buffer|
  {
    if st.mode.AwaitHeader? && |st.buffer| >= STANDARD {
      SplitOfConcat(st.buffer, t, STANDARD);
      ParseAppend(State(AwaitBody(ReadHeader(st.buffer)), st.buffer[STANDARD..]), t);
    } else if st.mode.AwaitBody? && st.mode.header.length > STANDARD && BodyReady(st.mode.header.length, |st.buffer|) {
      var h := st.mode.header;
      var n := h.length - STANDARD;
      var rest := State(AwaitHeader, st.buffer[n..]);
      SplitOfConcat(st.buffer, t, n);
      ParseBody(h, st.buffer);
      ParseBody(h, st.buffer + t);
      ParseAppend(rest, t);
      Associative([PacketOf(h, st.buffer[..n])], Parse(rest).packets, Parse(Fed(Parse(rest).state, t)).packets);
    } else {
      assert Parse(st).packets == [];
      EmptyNeutral(Parse(Fed(Parse(st).state, t)).packets);
    }
  }

  /** One iteration takes the first packet of the parse, if there is one, and leaves the parse of the rest. */
  lemma StepParse(st: State)
    ensures var s := Step(st); var o := Parse(s.state); Parse(st) == Outcome(s.packets + o.packets, o.state)
    ensures |Step(st).packets| == if Parse(st).packets == [] then 0 else 1
    ensures WellFormed(st) ==> WellFormed(Step(st).state)
    ensures WellFormed(st) && Parse(st).packets == [] ==> Step(st).state == Parse(st).state
  {
    if !st.mode.Aborted? && st.buffer != [] {
      var st' := TakeHeader(st);
      assert Parse(st) == Parse(st');
    }
  }

  /** The consumer stutters exactly in the states where no frame can be read off. */
  lemma QuiescentMeaning(st: State)
    requires WellFormed(st)
    ensures Quiescent(st) <==> Residual(st)
    ensures Residual(st) <==> Parse(st) == Outcome([], st)
  {
    StepParse(st);
    ParseEnds(st);
  }

  /** The parser only stops where no frame is left, and delivers only packets whose length field is exact. */
  lemma {:induction false} ParseEnds(st: State)
    requires WellFormed(st)
    ensures Residual(Parse(st).state) && WellFormed(Parse(st).state)
    ensures forall p :: p in Parse(st).packets ==> Framable(p)
    decreases |st.buffer|
  {
    match st.mode
    case Aborted(_) =>
    case AwaitHeader =>
      if |st.buffer| >= STANDARD && ReadHeader(st.buffer).length != STANDARD {
        ParseEnds(State(AwaitBody(ReadHeader(st.buffer)), st.buffer[STANDARD..]));
      }
    case AwaitBody(h) =>
      if BodyReady(h.length, |st.buffer|) {
        ParseEnds(State(AwaitHeader, st.buffer[h.length - STANDARD..]));
      }
  }

  /** Every iteration that is not a stutter shortens the buffer, so draining ends from every state. */
  lemma StepProgress(st: State)
    requires WellFormed(st)
    ensures Step(st).state != st ==> |Step(st).state.buffer| < |st.buffer|
    ensures Step(st).packets != [] ==> Step(st).state != st
  {
  }

  /** k iterations in a row. */
  function Iterations(st: State, k: nat): Outcome
    decreases k
  {
    if k == 0 then Outcome([], st)
    else
      var s := Step(st);
      var o := Iterations(s.state, k - 1);
      Outcome(s.packets + o.packets, o.state)
  }

  /**
   Exact drain progress: while the parse has packets left, each iteration delivers exactly the next one, and one
   iteration more reaches the parser's own final state, where the consumer stays.
  */
  lemma {:induction false} DrainProgress(st: State, k: nat)
    requires WellFormed(st)
    ensures var o := Parse(st);
            && Iterations(st, k).packets == UpTo(o.packets, k)
            && (k > |o.packets| ==> Iterations(st, k).state == o.state)
            && Quiescent(o.state)
    decreases k
  {
    ParseRests(st);
    if k > 0 {
      var s := Step(st);
      StepParse(st);
      DrainProgress(s.state, k - 1);
      UpToOfConcat(s.packets, Parse(s.state).packets, k);
      if Parse(st).packets == [] {
        RestIterates(Parse(st).state, k - 1);
      }
    }
  }

  lemma ParseRests(st: State)
    requires WellFormed(st)
    ensures Quiescent(Parse(st).state)
  {
    ParseEnds(st);
    QuiescentMeaning(Parse(st).state);
  }

  lemma {:induction false} RestIterates(st: State, k: nat)
    requires Quiescent(st)
    ensures Iterations(st, k) == Outcome([], st)
    decreases k
  {
    if k > 0 {
      RestIterates(st, k - 1);
    }
  }

  // ---------------------------------------------------------------- runs

  /** What the two threads do to the buffer: a producer call, or one iteration of the consumer. */
  datatype Event = Add(chunk: seq<byte>) | Iterate

  /** accepted: all bytes addData took; delivered: all packets the consumer built, in order. */
  datatype Run = Run(core: State, accepted: seq<byte>, delivered: seq<Packet>)

  const START := Run(State(AwaitHeader, []), [], [])

  function Apply(r: Run, e: Event): Run {
    match e
    case Add(chunk) =>
      if |chunk| > MAX_CHUNK then r
      else Run(Fed(r.core, chunk), r.accepted + chunk, r.delivered)
    case Iterate =>
      var s := Step(r.core);
      Run(s.state, r.accepted, r.delivered + s.packets)
  }

  function ApplyAll(r: Run, es: seq<Event>): Run
    decreases es
  {
    if es == [] then r else ApplyAll(Apply(r, es[0]), es[1..])
  }

  function ParseStream(s: seq<byte>): Outcome {
    Parse(State(AwaitHeader, s))
  }

  /** Delivered so far, followed by the parse of what is pending, is the one-shot parse of all accepted bytes. */
  ghost predicate Refines(r: Run) {
    && WellFormed(r.core)
    && var o := Parse(r.core);
       ParseStream(r.accepted) == Outcome(r.delivered + o.packets, o.state)
  }

  lemma ApplyRefines(r: Run, e: Event)
    requires Refines(r)
    ensures Refines(Apply(r, e))
  {
    var o := Parse(r.core);
    match e
    case Add(chunk) =>
      if |chunk| <= MAX_CHUNK {
        ParseAppend(r.core, chunk);
        ParseAppend(State(AwaitHeader, r.accepted), chunk);
        var o' := Parse(Fed(o.state, chunk));
        Associative(r.delivered, o.packets, o'.packets);
      }
    case Iterate =>
      StepParse(r.core);
      var s := Step(r.core);
      Associative(r.delivered, s.packets, Parse(s.state).packets);
  }

  lemma {:induction false} ApplyAllRefines(r: Run, es: seq<Event>)
    requires Refines(r)
    ensures Refines(ApplyAll(r, es))
    decreases es
  {
    if es != [] {
      ApplyRefines(r, es[0]);
      ApplyAllRefines(Apply(r, es[0]), es[1..]);
    }
  }

  /**
   Schedule and chunking independence: after any interleaving of addData calls and iterations, the delivered packets
   are a prefix of the one-shot parse of the accepted bytes; once the consumer stutters, they are all of it.
  */
  lemma ScheduleIndependence(es: seq<Event>)
    ensures var r := ApplyAll(START, es); var o := ParseStream(r.accepted);
            && Refines(r)
            && r.delivered <= o.packets
            && (Quiescent(r.core) ==> r.delivered == o.packets && r.core == o.state)
  {
    ApplyAllRefines(START, es);
    QuiescentMeaning(ApplyAll(START, es).core);
  }

  /** Two schedules that accept the same bytes and come to rest are indistinguishable. */
  lemma SchedulesAgree(es: seq<Event>, es': seq<Event>)
    requires ApplyAll(START, es).accepted == ApplyAll(START, es').accepted
    requires Quiescent(ApplyAll(START, es).core) && Quiescent(ApplyAll(START, es').core)
    ensures ApplyAll(START, es) == ApplyAll(START, es')
  {
    ScheduleIndependence(es);
    ScheduleIndependence(es');
  }

  /** All the bytes offered to addData, and the ones it accepts. */
  function Offered(es: seq<Event>): seq<byte> {
    if es == [] then [] else (if es[0].Add? then es[0].chunk else []) + Offered(es[1..])
  }

  function Taken(es: seq<Event>): seq<byte> {
    if es == [] then []
    else (if es[0].Add? && |es[0].chunk| <= MAX_CHUNK then es[0].chunk else []) + Taken(es[1..])
  }

  predicate AllFit(es: seq<Event>) {
    forall i :: 0 <= i < |es| && es[i].Add? ==> |es[i].chunk| <= MAX_CHUNK
  }

  lemma {:induction false} AcceptedIsTaken(r: Run, es: seq<Event>)
    ensures ApplyAll(r, es).accepted == r.accepted + Taken(es)
    decreases es
  {
    if es == [] {
      EmptyNeutral(r.accepted);
    } else {
      AcceptedIsTaken(Apply(r, es[0]), es[1..]);
      if es[0].Add? && |es[0].chunk| <= MAX_CHUNK {
        Associative(r.accepted, es[0].chunk, Taken(es[1..]));
      } else {
        EmptyNeutral(Taken(es[1..]));
      }
    }
  }

  /** Every offered byte is accepted, in order, exactly when no chunk is over the limit. */
  lemma {:induction false} TakenIsOffered(es: seq<Event>)
    ensures |Taken(es)| <= |Offered(es)|
    ensures |Taken(es)| == |Offered(es)| <==> AllFit(es)
    ensures AllFit(es) ==> Taken(es) == Offered(es)
  {
    if es != [] {
      TakenIsOffered(es[1..]);
      if AllFit(es) {
        assert forall i :: 0 <= i < |es[1..]| ==> es[1..][i] == es[i + 1];
      } else if AllFit(es[1..]) {
        assert forall i :: 1 <= i < |es| ==> es[i] == es[1..][i - 1];
      }
    }
  }

  function Idling(n: nat): (es: seq<Event>)
    ensures |es| == n && forall i :: 0 <= i < n ==> es[i] == Iterate
  {
    seq(n, _ => Iterate)
  }

  lemma {:induction false} ApplyAllAppend(r: Run, es: seq<Event>, es': seq<Event>)
    ensures ApplyAll(r, es + es') == ApplyAll(ApplyAll(r, es), es')
    decreases es
  {
    if es == [] {
      EmptyNeutral(es');
    } else {
      ApplyAllAppend(Apply(r, es[0]), es[1..], es');
      TailOfConcat(es, es');
    }
  }

  lemma HistoryExtends(r: Run, es: seq<Event>, e: Event)
    ensures ApplyAll(r, es + [e]) == Apply(ApplyAll(r, es), e)
  {
    ApplyAllAppend(r, es, [e]);
    assert [e][1..] == [];
  }

  lemma {:induction false} IdlingIsIterations(r: Run, n: nat)
    ensures var o := Iterations(r.core, n); ApplyAll(r, Idling(n)) == Run(o.state, r.accepted, r.delivered + o.packets)
    decreases n
  {
    if n > 0 {
      assert Idling(n)[1..] == Idling(n - 1);
      IdlingIsIterations(Apply(r, Iterate), n - 1);
    }
  }

  /** After any run, more iterations than the parse has packets deliver all of it, whatever happened before. */
  lemma DrainCompletes(es: seq<Event>, n: nat)
    requires n > |ParseStream(Taken(es)).packets|
    ensures var r := ApplyAll(START, es + Idling(n)); var o := ParseStream(Taken(es));
            r == Run(o.state, Taken(es), o.packets) && Quiescent(r.core)
  {
    var r := ApplyAll(START, es);
    ScheduleIndependence(es);
    AcceptedIsTaken(START, es);
    ApplyAllAppend(START, es, Idling(n));
    IdlingIsIterations(r, n);
    DrainProgress(r.core, n);
    var o := Parse(r.core);
    assert o.packets[..|o.packets|] == o.packets;
    assert START.accepted + Taken(es) == Taken(es);
  }

  // ---------------------------------------------------------------- wedging

  /** A pending header announcing 0..3 bytes, or a consumer ended by a header announcing an empty body. */
  predicate Dead(st: State) {
    st.mode.Aborted? || (st.mode.AwaitBody? && st.mode.header.length < STANDARD)
  }

  /**
   Bad lengths are final: from then on every continuation of the run only piles up bytes, nothing is consumed or
   delivered. All earlier frames were delivered, and the one-shot parser ends in the same state.
  */
  lemma {:induction false} DeadForever(r: Run, es: seq<Event>)
    requires Dead(r.core)
    ensures ApplyAll(r, es) == Run(Fed(r.core, Taken(es)), r.accepted + Taken(es), r.delivered)
    ensures Refines(r) ==> ParseStream(r.accepted) == Outcome(r.delivered, r.core)
    decreases es
  {
    if es == [] {
      EmptyNeutral(r.core.buffer);
      EmptyNeutral(r.accepted);
    } else {
      var r' := Apply(r, es[0]);
      DeadForever(r', es[1..]);
      var rest := Taken(es[1..]);
      if es[0].Add? && |es[0].chunk| <= MAX_CHUNK {
        var c := es[0].chunk;
        Associative(r.core.buffer, c, rest);
        Associative(r.accepted, c, rest);
      } else {
        assert Taken(es) == [] + rest == rest;
        assert r' == r;
      }
    }
  }

  lemma DeadParse(st: State, t: seq<byte>)
    requires Dead(st)
    ensures Parse(Fed(st, t)).packets == []
  {
  }

  function Zeros(n: nat): (s: seq<byte>)
    ensures |s| == n
  {
    seq(n, _ => 0)
  }

  /** Bytes that complete a frame: a header announcing 256 bytes or more, and a body long enough for any such. */
  function Completion(st: State): seq<byte>
    requires Residual(st) && !Dead(st)
  {
    match st.mode
    case AwaitHeader => Zeros(3 - |st.buffer|) + [1] + Zeros(0x200)
    case AwaitBody(h) => Zeros(h.length - STANDARD - |st.buffer|)
  }

  lemma CompletionDelivers(st: State)
    requires WellFormed(st) && Residual(st) && !Dead(st)
    ensures Parse(Fed(st, Completion(st))).packets != []
  {
    var s := st.buffer + Completion(st);
    match st.mode
    case AwaitHeader =>
      assert s[3] == 1;
      ParseBody(ReadHeader(s), s[STANDARD..]);
    case AwaitBody(h) =>
      ParseBody(h, s);
  }

  /** Among the states where no frame can be read off, exactly the dead ones have no input that completes a frame. */
  lemma DeadExactly(st: State)
    requires WellFormed(st) && Residual(st)
    ensures Dead(st) <==> forall t :: Parse(Fed(st, t)).packets == []
  {
    if Dead(st) {
      forall t
        ensures Parse(Fed(st, t)).packets == []
      {
        DeadParse(st, t);
      }
    } else {
      CompletionDelivers(st);
    }
  }

  /** These bytes, offered one by one. */
  function Singles(t: seq<byte>): seq<Event> {
    if t == [] then [] else [Add([t[0]])] + Singles(t[1..])
  }

  lemma {:induction false} TakenSingles(t: seq<byte>)
    ensures Taken(Singles(t)) == t
  {
    if t != [] {
      TailOfConcat([Add([t[0]])], Singles(t[1..]));
      EmptyNeutral(Singles(t[1..]));
      TakenSingles(t[1..]);
    }
  }

  lemma {:induction false} TakenAppend(es: seq<Event>, es': seq<Event>)
    ensures Taken(es + es') == Taken(es) + Taken(es')
    decreases es
  {
    if es == [] {
      EmptyNeutral(es');
      EmptyNeutral(Taken(es'));
    } else {
      TailOfConcat(es, es');
      TakenAppend(es[1..], es');
      Associative(if es[0].Add? && |es[0].chunk| <= MAX_CHUNK then es[0].chunk else [], Taken(es[1..]), Taken(es'));
    }
  }

  lemma {:induction false} DeliveredGrows(r: Run, es: seq<Event>)
    ensures r.delivered <= ApplyAll(r, es).delivered
    decreases es
  {
    if es != [] {
      DeliveredGrows(Apply(r, es[0]), es[1..]);
    }
  }

  /** After this run no continuation whatever, of chunks and iterations, brings another packet. */
  ghost predicate Wedged(es: seq<Event>) {
    forall es' :: ApplyAll(START, es + es').delivered == ApplyAll(START, es).delivered
  }

  /** The parse of all that a run and a continuation of it accept. */
  lemma ParseOfContinued(es: seq<Event>, es': seq<Event>)
    ensures var o := ParseStream(Taken(es)); var o' := Parse(Fed(o.state, Taken(es')));
            ParseStream(Taken(es + es')) == Outcome(o.packets + o'.packets, o'.state)
  {
    TakenAppend(es, es');
    ParseAppend(State(AwaitHeader, Taken(es)), Taken(es'));
  }

  lemma PendingIsParse(es: seq<Event>)
    ensures var r := ApplyAll(START, es); var o := Parse(r.core);
            && WellFormed(r.core)
            && ParseStream(Taken(es)) == Outcome(r.delivered + o.packets, o.state)
  {
    ScheduleIndependence(es);
    AcceptedIsTaken(START, es);
    EmptyNeutral(Taken(es));
  }

  lemma DeadWedges(es: seq<Event>, es': seq<Event>)
    requires var o := Parse(ApplyAll(START, es).core); o.packets == [] && Dead(o.state)
    ensures ApplyAll(START, es + es').delivered == ApplyAll(START, es).delivered
  {
    var r, r' := ApplyAll(START, es), ApplyAll(START, es + es');
    PendingIsParse(es);
    PendingIsParse(es + es');
    ParseOfContinued(es, es');
    DeadParse(Parse(r.core).state, Taken(es'));
    ApplyAllAppend(START, es, es');
    DeliveredGrows(r, es');
    assert r'.delivered <= ParseStream(Taken(es + es')).packets == r.delivered;
  }

  /** Otherwise the bytes that complete the next frame, and then iterating, do bring one. */
  lemma LiveDelivers(es: seq<Event>)
    requires var o := Parse(ApplyAll(START, es).core); o.packets != [] || !Dead(o.state)
    ensures exists es' :: |ApplyAll(START, es + es').delivered| > |ApplyAll(START, es).delivered|
  {
    var o := Parse(ApplyAll(START, es).core);
    PendingIsParse(es);
    ParseEnds(ApplyAll(START, es).core);
    var t := if Dead(o.state) then [] else Completion(o.state);
    if !Dead(o.state) {
      CompletionDelivers(o.state);
    }
    TakenSingles(t);
    ParseOfContinued(es, Singles(t));
    var n := |ParseStream(Taken(es + Singles(t))).packets| + 1;
    DrainCompletes(es + Singles(t), n);
    Associative(es, Singles(t), Idling(n));
    assert |ApplyAll(START, es + (Singles(t) + Idling(n))).delivered| > |ApplyAll(START, es).delivered|;
  }

  /**
   The exact condition for a framer to deliver nothing more, whatever it is given: all packets pending were delivered,
   and the parser is stuck behind a declared length of 0 to 4. At rest that is the framer's own state.
  */
  lemma WedgedExactly(es: seq<Event>)
    ensures var o := Parse(ApplyAll(START, es).core); Wedged(es) <==> o.packets == [] && Dead(o.state)
    ensures var r := ApplyAll(START, es); Quiescent(r.core) ==> (Wedged(es) <==> Dead(r.core))
  {
    var r := ApplyAll(START, es);
    var o := Parse(r.core);
    if o.packets == [] && Dead(o.state) {
      forall es'
        ensures ApplyAll(START, es + es').delivered == r.delivered
      {
        DeadWedges(es, es');
      }
    } else {
      LiveDelivers(es);
    }
    PendingIsParse(es);
    QuiescentMeaning(r.core);
  }

  /** It does happen: one header is enough, and exactly the lengths 0 to 4 do it. */
  lemma DeadHappens(id: byte, flag: byte, low: byte, high: byte)
    ensures Dead(ApplyAll(START, [Add([id, flag, low, high]), Iterate]).core) <==> high == 0 && low <= 4
  {
    var r := Apply(START, Add([id, flag, low, high]));
    EmptyNeutral([id, flag, low, high]);
    assert [Add([id, flag, low, high]), Iterate][1..] == [Iterate];
    assert [Iterate][1..] == [];
    assert ReadHeader(r.core.buffer).length == high * 256 + low;
  }
}
