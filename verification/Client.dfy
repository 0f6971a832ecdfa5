/** NetworkClient.cpp: what is sent, and what the packet handler does with what the framer delivers. */
module Clients {
  import opened Results
  import opened Bytes
  import opened Sequences
  import opened Packets
  import opened Framer
  import opened Framing
  import opened Codecs

  // ---------------------------------------------------------------- sending

  const COMPRESSION_THRESHOLD := 1024
  const RTT_COMPRESSION_THRESHOLD := 100

  /**
   The state sendAsync looks at, and zlib as an unknown function that may fail. shared: whether shared_from_this() finds
   an owner. In the source it never does, because the Impl it is called on is held by a unique_ptr.
  */
  datatype Sender = Sender(
    connected: bool,
    shared: bool,
    applyCompression: bool,
    lastRTT: int,
    compress: seq<byte> -> Option<seq<byte>>)

  predicate ShouldCompress(snd: Sender, data: seq<byte>) {
    snd.applyCompression && |data| >= COMPRESSION_THRESHOLD && snd.lastRTT > RTT_COMPRESSION_THRESHOLD
  }

  /**
   sendAsync up to the write: the bytes written to the socket, or the exception. It writes its argument unchanged or
   throws. The compressing path always throws: it builds its packet from a buffer that is still empty. What passes all
   guards still throws when the client is not held by a shared_ptr.
  */
  method SendAsync(snd: Sender, data: seq<byte>) returns (r: Result<seq<byte>>)
    ensures var inBounds := 0 < |data| <= 1024;
            var compressing := snd.applyCompression && |data| == 1024 && snd.lastRTT > 100;
            && (r == Success(data) <==> inBounds && snd.connected && !compressing && snd.shared)
            && (r.Success? ==> r.value == data)
            && (r == Failure(InvalidArgument) <==>
                data == [] || (inBounds && snd.connected && compressing && snd.compress(data).Some?))
            && (r == Failure(OverflowError) <==> |data| > 1024)
            && (r == Failure(RuntimeError) <==>
                inBounds && (!snd.connected || (compressing && snd.compress(data).None?)))
            && (r == Failure(BadWeakPtr) <==> inBounds && snd.connected && !compressing && !snd.shared)
    ensures r == Sent(snd, data)
  {
    if |data| == 0 {
      return Failure(InvalidArgument);
    }
    if |data| > MAX_CHUNK {
      return Failure(OverflowError);
    }
    if !snd.connected {
      return Failure(RuntimeError);
    }
    var finalData := [];
    if ShouldCompress(snd, data) {
      var compressedData := snd.compress(data);
      if compressedData.None? {
        return Failure(RuntimeError);
      }
      // finalData is still empty, so the constructor throws
      var compressedPacket := NewTcp(data[0], finalData, true);
      return Failure(compressedPacket.error);
    }
    if !snd.shared {
      return Failure(BadWeakPtr);
    }
    return Success(data);
  }

  function Sent(snd: Sender, data: seq<byte>): Result<seq<byte>> {
    if data == [] then Failure(InvalidArgument)
    else if |data| > MAX_CHUNK then Failure(OverflowError)
    else if !snd.connected then Failure(RuntimeError)
    else if ShouldCompress(snd, data) then Failure(if snd.compress(data).None? then RuntimeError else InvalidArgument)
    else if !snd.shared then Failure(BadWeakPtr)
    else Success(data)
  }

  /** The bytes on the wire after sending these packets in turn; a packet whose sending throws leaves none. */
  function Wire(snds: seq<Sender>, ps: seq<Packet>): seq<byte>
    requires |snds| == |ps|
  {
    if ps == [] then []
    else
      var r := Sent(snds[0], Built(ps[0]));
      (if r.Success? then r.value else []) + Wire(snds[1..], ps[1..])
  }

  /** Those of the packets whose sending did not throw; each send meets the sender in a state of its own. */
  function Through(snds: seq<Sender>, ps: seq<Packet>): seq<Packet>
    requires |snds| == |ps|
  {
    if ps == [] then []
    else (if Sent(snds[0], Built(ps[0])).Success? then [ps[0]] else []) + Through(snds[1..], ps[1..])
  }

  ghost predicate AllTcp(ps: seq<Packet>) {
    forall i :: 0 <= i < |ps| ==> IsTcp(ps[i])
  }

  /** As the source stands, with no client held by a shared_ptr, no byte is ever sent. */
  lemma {:induction false} UnsharedSendNothing(snds: seq<Sender>, ps: seq<Packet>)
    requires |snds| == |ps| && forall i :: 0 <= i < |snds| ==> !snds[i].shared
    ensures Wire(snds, ps) == [] && Through(snds, ps) == []
    decreases ps
  {
    if ps != [] {
      assert !snds[0].shared && forall i :: 0 <= i < |snds[1..]| ==> snds[1..][i] == snds[i + 1];
      UnsharedSendNothing(snds[1..], ps[1..]);
    }
  }

  /** Whatever passes the guards is in the framer's domain, and arrives on the wire as its encoding. */
  lemma {:induction false} WireIsEncoding(snds: seq<Sender>, ps: seq<Packet>)
    requires |snds| == |ps| && AllTcp(ps)
    ensures AllFramable(Through(snds, ps)) && Wire(snds, ps) == EncodeAll(Through(snds, ps))
    decreases ps
  {
    if ps != [] {
      assert IsTcp(ps[0]) && forall i :: 0 <= i < |ps[1..]| ==> ps[1..][i] == ps[i + 1];
      WireIsEncoding(snds[1..], ps[1..]);
      var rest := Through(snds[1..], ps[1..]);
      if Sent(snds[0], Built(ps[0])).Success? {
        FramableMeaning(ps[0]);
        assert |Built(ps[0])| == STANDARD + |ps[0].data|;
        EncodeAppend([ps[0]], rest);
        EncodeOne(ps[0]);
        assert forall p :: p in [ps[0]] + rest ==> p == ps[0] || p in rest;
      } else {
        EmptyNeutral(rest);
        EmptyNeutral(EncodeAll(rest));
      }
    }
  }

  // ---------------------------------------------------------------- dispatch

  const HEARTBEAT: byte := 0xFD
  const SGOODBYE: byte := 0xFE
  const CGOODBYE: byte := 0xFF

  /** Which handlers are installed; zlib's inflate as an unknown function that may fail. */
  datatype Handlers = Handlers(
    onServerDisconnected: bool,
    onClientDisconnected: bool,
    onReceivedHeartbeat: bool,
    onReceivedData: bool,
    decompress: seq<byte> -> Option<seq<byte>>)

  /** DetectorReset: isAlive set and missedHeartbeats cleared, under their locks. The others are handler calls. */
  datatype Effect =
    | ServerDisconnected
    | ClientDisconnected
    | DetectorReset
    | ReceivedHeartbeat
    | ReceivedData(packet: Packet)

  /** What was done, and whether an exception then left the handler (and with it the processing thread). */
  datatype Effects = Effects(done: seq<Effect>, threw: bool)

  function Fire(installed: bool, e: Effect): Effects {
    Effects(if installed then [e] else [], false)
  }

  /** Handing data on: the packet for the data handler is only built if there is one, and must not be empty. */
  function HandOn(h: Handlers, id: byte, data: seq<byte>): Effects {
    if !h.onReceivedData then Effects([], false)
    else match NewTcp(id, data, false)
      case Success(p) => Effects([ReceivedData(p)], false)
      case Failure(_) => Effects([], true)
  }

  /** The packet handler that both constructors install. */
  function Dispatch(h: Handlers, p: Packet): Effects {
    if p.id == SGOODBYE then Fire(h.onServerDisconnected, ServerDisconnected)
    else if p.id == CGOODBYE then Fire(h.onClientDisconnected, ClientDisconnected)
    else if p.id == HEARTBEAT then
      if |p.data| < 17 then Effects([DetectorReset], true)
      else Effects([DetectorReset] + Fire(h.onReceivedHeartbeat, ReceivedHeartbeat).done, false)
    else if p.isCompressed != 0 then
      match h.decompress(p.data)
      case None => Effects([], true)
      case Some(data) => HandOn(h, p.id, data)
    else HandOn(h, p.id, p.data)
  }

  /** Packets in turn, up to and including the first that throws. */
  function DispatchAll(h: Handlers, ps: seq<Packet>): Effects {
    if ps == [] then Effects([], false)
    else
      var e := Dispatch(h, ps[0]);
      if e.threw then e
      else
        var rest := DispatchAll(h, ps[1..]);
        Effects(e.done + rest.done, rest.threw)
  }

  lemma {:induction false} DispatchAppend(h: Handlers, ps: seq<Packet>, qs: seq<Packet>)
    ensures var e, e' := DispatchAll(h, ps), DispatchAll(h, qs);
            DispatchAll(h, ps + qs) == if e.threw then e else Effects(e.done + e'.done, e'.threw)
    decreases ps
  {
    if ps == [] {
      EmptyNeutral(qs);
      EmptyNeutral(DispatchAll(h, qs).done);
    } else {
      TailOfConcat(ps, qs);
      DispatchAppend(h, ps[1..], qs);
      Associative(Dispatch(h, ps[0]).done, DispatchAll(h, ps[1..]).done, DispatchAll(h, qs).done);
    }
  }

  predicate IsInternal(p: Packet) {
    p.id == HEARTBEAT || p.id == SGOODBYE || p.id == CGOODBYE
  }

  /** What the handler accepts without throwing. */
  predicate Acceptable(h: Handlers, p: Packet) {
    if IsInternal(p) then p.id == HEARTBEAT ==> |p.data| >= 17
    else if p.isCompressed == 0 then !h.onReceivedData || p.data != []
    else h.decompress(p.data).Some? && (!h.onReceivedData || h.decompress(p.data).value != [])
  }

  lemma {:induction false} ThrowsExactly(h: Handlers, ps: seq<Packet>)
    ensures DispatchAll(h, ps).threw <==> exists i :: 0 <= i < |ps| && !Acceptable(h, ps[i])
    decreases ps
  {
    if ps != [] {
      assert Dispatch(h, ps[0]).threw <==> !Acceptable(h, ps[0]);
      ThrowsExactly(h, ps[1..]);
      assert forall i :: 1 <= i < |ps| ==> ps[i] == ps[1..][i - 1];
      if Acceptable(h, ps[0]) && (exists i :: 0 <= i < |ps[1..]| && !Acceptable(h, ps[1..][i])) {
        var i :| 0 <= i < |ps[1..]| && !Acceptable(h, ps[1..][i]);
        assert !Acceptable(h, ps[i + 1]);
      }
    }
  }

  function DataEvents(es: seq<Effect>): seq<Packet> {
    if es == [] then []
    else (if es[0].ReceivedData? then [es[0].packet] else []) + DataEvents(es[1..])
  }

  lemma {:induction false} DataEventsAppend(es: seq<Effect>, es': seq<Effect>)
    ensures DataEvents(es + es') == DataEvents(es) + DataEvents(es')
    decreases es
  {
    if es == [] {
      EmptyNeutral(es');
      EmptyNeutral(DataEvents(es'));
    } else {
      TailOfConcat(es, es');
      DataEventsAppend(es[1..], es');
      Associative(if es[0].ReceivedData? then [es[0].packet] else [], DataEvents(es[1..]), DataEvents(es'));
    }
  }

  function Count(es: seq<Effect>, e: Effect): nat {
    if es == [] then 0 else (if es[0] == e then 1 else 0) + Count(es[1..], e)
  }

  lemma {:induction false} CountAppend(es: seq<Effect>, es': seq<Effect>, e: Effect)
    ensures Count(es + es', e) == Count(es, e) + Count(es', e)
    decreases es
  {
    if es == [] {
      EmptyNeutral(es');
    } else {
      TailOfConcat(es, es');
      CountAppend(es[1..], es', e);
    }
  }

  /** Number of packets with this id. */
  function CountId(ps: seq<Packet>, id: byte): nat {
    if ps == [] then 0 else (if ps[0].id == id then 1 else 0) + CountId(ps[1..], id)
  }

  /** The packet an application packet is handed on as: uncompressed if it was flagged. */
  function Unpacked(h: Handlers, p: Packet): Packet
    requires Acceptable(h, p) && !IsInternal(p)
  {
    var data := if p.isCompressed == 0 then p.data else h.decompress(p.data).value;
    Packet(p.id, 0, 0, Uint16(STANDARD + |data|), data, false)
  }

  ghost predicate AllAcceptable(h: Handlers, ps: seq<Packet>) {
    forall p :: p in ps ==> Acceptable(h, p)
  }

  lemma AcceptableParts(h: Handlers, ps: seq<Packet>)
    requires ps != [] && AllAcceptable(h, ps)
    ensures Acceptable(h, ps[0]) && AllAcceptable(h, ps[1..])
  {
    assert ps[0] in ps;
  }

  /** The application packets among ps. */
  ghost function ApplicationData(h: Handlers, ps: seq<Packet>): seq<Packet>
    requires AllAcceptable(h, ps)
  {
    if ps == [] then []
    else
      AcceptableParts(h, ps);
      (if IsInternal(ps[0]) then [] else [Unpacked(h, ps[0])]) + ApplicationData(h, ps[1..])
  }

  /** Dispatch filtering: the data handler sees exactly the application packets, in order. */
  lemma {:induction false} DataFiltered(h: Handlers, ps: seq<Packet>)
    requires AllAcceptable(h, ps)
    ensures !DispatchAll(h, ps).threw
    ensures DataEvents(DispatchAll(h, ps).done) == if h.onReceivedData then ApplicationData(h, ps) else []
    decreases ps
  {
    if ps != [] {
      AcceptableParts(h, ps);
      var e, rest := Dispatch(h, ps[0]), DispatchAll(h, ps[1..]);
      DataFiltered(h, ps[1..]);
      DataOfOne(h, ps[0]);
      DataEventsAppend(e.done, rest.done);
      EmptyNeutral(DataEvents(rest.done));
    }
  }

  lemma DataOfOne(h: Handlers, p: Packet)
    requires Acceptable(h, p)
    ensures !Dispatch(h, p).threw
    ensures DataEvents(Dispatch(h, p).done) == if IsInternal(p) || !h.onReceivedData then [] else [Unpacked(h, p)]
  {
    if p.id == HEARTBEAT {
      DataEventsAppend([DetectorReset], Fire(h.onReceivedHeartbeat, ReceivedHeartbeat).done);
    }
  }

  /** The first packet that the handler throws on, or the end. */
  function FirstRejected(h: Handlers, ps: seq<Packet>): (i: nat)
    ensures i <= |ps|
    ensures i < |ps| ==> !Acceptable(h, ps[i])
    ensures AllAcceptable(h, ps[..i])
  {
    if ps == [] || !Acceptable(h, ps[0]) then 0
    else
      var i := 1 + FirstRejected(h, ps[1..]);
      assert ps[..i] == [ps[0]] + ps[1..][..i - 1];
      i
  }

  /** What the handler does with a packet it accepts: at most one report, and a reset before that of a heartbeat. */
  function Calls(h: Handlers, p: Packet): seq<Effect>
    requires Acceptable(h, p)
  {
    (if p.id == 0xFE && h.onServerDisconnected then [ServerDisconnected] else [])
    + (if p.id == 0xFF && h.onClientDisconnected then [ClientDisconnected] else [])
    + (if p.id == 0xFD then [DetectorReset] else [])
    + (if p.id == 0xFD && h.onReceivedHeartbeat then [ReceivedHeartbeat] else [])
    + (if p.id < 0xFD && h.onReceivedData then [ReceivedData(Unpacked(h, p))] else [])
  }

  /** And with one it throws on: nothing, but for the reset, which comes before a heartbeat's body is looked at. */
  function LastCalls(p: Packet): seq<Effect> {
    if p.id == 0xFD then [DetectorReset] else []
  }

  ghost function AllCalls(h: Handlers, ps: seq<Packet>): seq<Effect>
    requires AllAcceptable(h, ps)
  {
    if ps == [] then []
    else
      AcceptableParts(h, ps);
      Calls(h, ps[0]) + AllCalls(h, ps[1..])
  }

  lemma DispatchOne(h: Handlers, p: Packet)
    ensures Dispatch(h, p) == Effects(if Acceptable(h, p) then Calls(h, p) else LastCalls(p), !Acceptable(h, p))
  {
  }

  /**
   Dispatch of any list: the calls for the packets before the first that is not acceptable, in order, then that
   packet's reset if it is a heartbeat, and nothing of it otherwise, nor of any later packet.
  */
  lemma {:induction false} DispatchExactly(h: Handlers, ps: seq<Packet>)
    ensures var i := FirstRejected(h, ps);
            && DispatchAll(h, ps).threw == (i < |ps|)
            && DispatchAll(h, ps).done == AllCalls(h, ps[..i]) + if i < |ps| then LastCalls(ps[i]) else []
    decreases ps
  {
    if ps != [] {
      DispatchOne(h, ps[0]);
      if Acceptable(h, ps[0]) {
        var i := FirstRejected(h, ps);
        var good := ps[1..][..i - 1];
        DispatchExactly(h, ps[1..]);
        assert ps[..i][1..] == good;
        Associative(Calls(h, ps[0]), AllCalls(h, good), if i < |ps| then LastCalls(ps[i]) else []);
      }
    }
  }

  lemma CallsData(h: Handlers, ps: seq<Packet>)
    requires AllAcceptable(h, ps)
    ensures DataEvents(AllCalls(h, ps)) == if h.onReceivedData then ApplicationData(h, ps) else []
  {
    NoneRejected(h, ps);
    assert ps[..|ps|] == ps;
    DispatchExactly(h, ps);
    EmptyNeutral(AllCalls(h, ps));
    DataFiltered(h, ps);
  }

  /** So the data handler always sees exactly the application packets before the first that is not acceptable. */
  lemma DataUntilThrow(h: Handlers, ps: seq<Packet>)
    ensures DataEvents(DispatchAll(h, ps).done)
            == if h.onReceivedData then ApplicationData(h, ps[..FirstRejected(h, ps)]) else []
  {
    var i := FirstRejected(h, ps);
    var calls := AllCalls(h, ps[..i]);
    DispatchExactly(h, ps);
    CallsData(h, ps[..i]);
    EmptyNeutral(calls);
    EmptyNeutral(DataEvents(calls));
    if i < |ps| {
      DataEventsAppend(calls, LastCalls(ps[i]));
    }
  }

  lemma {:induction false} NoneRejected(h: Handlers, ps: seq<Packet>)
    requires AllAcceptable(h, ps)
    ensures FirstRejected(h, ps) == |ps|
    decreases ps
  {
    if ps != [] {
      AcceptableParts(h, ps);
      NoneRejected(h, ps[1..]);
    }
  }

  /** Which effect reports packets with which id, and whether its handler is installed. */
  predicate Reports(h: Handlers, e: Effect, id: byte, installed: bool) {
    match e
    case ServerDisconnected => id == SGOODBYE && installed == h.onServerDisconnected
    case ClientDisconnected => id == CGOODBYE && installed == h.onClientDisconnected
    case ReceivedHeartbeat => id == HEARTBEAT && installed == h.onReceivedHeartbeat
    case DetectorReset => id == HEARTBEAT && installed
    case ReceivedData(_) => false
  }

  /** Every goodbye and heartbeat is reported exactly once, and every heartbeat resets the detector once. */
  lemma {:induction false} InternalsReported(h: Handlers, ps: seq<Packet>, e: Effect, id: byte, installed: bool)
    requires AllAcceptable(h, ps)
    requires Reports(h, e, id, installed)
    ensures Count(DispatchAll(h, ps).done, e) == if installed then CountId(ps, id) else 0
    decreases ps
  {
    if ps != [] {
      AcceptableParts(h, ps);
      InternalsReported(h, ps[1..], e, id, installed);
      CountAppend(Dispatch(h, ps[0]).done, DispatchAll(h, ps[1..]).done, e);
      OneReported(h, ps[0], e, id, installed);
    }
  }

  lemma OneReported(h: Handlers, p: Packet, e: Effect, id: byte, installed: bool)
    requires Acceptable(h, p) && Reports(h, e, id, installed)
    ensures Count(Dispatch(h, p).done, e) == if installed && p.id == id then 1 else 0
    ensures !Dispatch(h, p).threw
  {
    if p.id == HEARTBEAT {
      CountAppend([DetectorReset], Fire(h.onReceivedHeartbeat, ReceivedHeartbeat).done, e);
    }
  }

  // ---------------------------------------------------------------- receiving

  /** A client's receiving side: the framer with its handler, which may end the processing thread. */
  datatype Client = Client(run: Run, effects: Effects)

  const FRESH := Client(Framer.START, Effects([], false))

  /** An iteration of the processing thread calls the handler on the packet it built, if any. */
  function React(h: Handlers, c: Client, e: Event): Client {
    if e.Iterate? && c.effects.threw then c
    else
      var run := Apply(c.run, e);
      var delivered := run.delivered[|c.run.delivered|..];
      var now := DispatchAll(h, delivered);
      Client(run, if e.Add? then c.effects else Effects(c.effects.done + now.done, now.threw))
  }

  function ReactAll(h: Handlers, c: Client, es: seq<Event>): Client
    decreases es
  {
    if es == [] then c else ReactAll(h, React(h, c, es[0]), es[1..])
  }

  /** Nothing more will happen until new bytes arrive; ever, if the handler threw. */
  predicate Resting(c: Client) {
    c.effects.threw || Quiescent(c.run.core)
  }

  ghost predicate InStep(h: Handlers, c: Client) {
    Refines(c.run) && DispatchAll(h, c.run.delivered) == c.effects
  }

  lemma ReactKeepsStep(h: Handlers, c: Client, e: Event)
    requires InStep(h, c)
    ensures InStep(h, React(h, c, e))
    ensures React(h, c, e).run.accepted == Apply(c.run, e).accepted
  {
    ApplyRefines(c.run, e);
    if e.Iterate? && !c.effects.threw {
      var s := Framer.Step(c.run.core);
      var run := Apply(c.run, e);
      assert run.delivered == c.run.delivered + s.packets;
      assert run.delivered[|c.run.delivered|..] == s.packets;
      DispatchAppend(h, c.run.delivered, s.packets);
    }
  }

  lemma {:induction false} ReactAllKeepsStep(h: Handlers, c: Client, es: seq<Event>)
    requires InStep(h, c)
    ensures InStep(h, ReactAll(h, c, es))
    ensures ReactAll(h, c, es).run.accepted == c.run.accepted + Taken(es)
    decreases es
  {
    if es == [] {
      EmptyNeutral(c.run.accepted);
    } else {
      ReactKeepsStep(h, c, es[0]);
      ReactAllKeepsStep(h, React(h, c, es[0]), es[1..]);
      if es[0].Add? && |es[0].chunk| <= MAX_CHUNK {
        Associative(c.run.accepted, es[0].chunk, Taken(es[1..]));
      } else {
        EmptyNeutral(Taken(es[1..]));
      }
    }
  }

  /**
   Under any schedule and chunking, the handler calls so far are the start of what dispatching the one-shot parse of
   the accepted bytes would do; once the client rests they are all of it, and it has thrown exactly if that throws.
  */
  lemma EventsAreDispatchedParse(h: Handlers, es: seq<Event>)
    ensures var c := ReactAll(h, FRESH, es); var all := DispatchAll(h, ParseStream(Taken(es)).packets);
            && c.effects.done <= all.done
            && (Resting(c) ==> c.effects == all)
  {
    var c := ReactAll(h, FRESH, es);
    EmptyNeutral(Taken(es));
    ReactAllKeepsStep(h, FRESH, es);
    var o := Parse(c.run.core);
    DispatchAppend(h, c.run.delivered, o.packets);
    QuiescentMeaning(c.run.core);
    EmptyNeutral(c.run.delivered);
  }

  lemma RestStays(h: Handlers, c: Client)
    requires Resting(c)
    ensures React(h, c, Iterate) == c
  {
    if !c.effects.threw {
      EmptyNeutral(c.run.delivered);
      EmptyNeutral(c.effects.done);
    }
  }

  lemma IdlingOne(h: Handlers, c: Client, n: nat)
    requires n > 0
    ensures ReactAll(h, c, Idling(n)) == ReactAll(h, React(h, c, Iterate), Idling(n - 1))
  {
    assert Idling(n)[1..] == Idling(n - 1);
  }

  lemma {:induction false} RestIdles(h: Handlers, c: Client, n: nat)
    requires Resting(c)
    ensures ReactAll(h, c, Idling(n)) == c
    decreases n
  {
    if n > 0 {
      IdlingOne(h, c, n);
      RestStays(h, c);
      RestIdles(h, c, n - 1);
    }
  }

  /** Every client comes to rest: after one iteration more than there are packets pending, at the latest. */
  lemma {:induction false} IdlingRests(h: Handlers, c: Client, n: nat)
    requires InStep(h, c) && n > |Parse(c.run.core).packets|
    ensures Resting(ReactAll(h, c, Idling(n)))
    decreases n
  {
    if Resting(c) {
      RestIdles(h, c, n);
    } else {
      var c' := React(h, c, Iterate);
      IdlingOne(h, c, n);
      AdvancesOrRests(h, c);
      if Resting(c') {
        RestIdles(h, c', n - 1);
      } else {
        IdlingRests(h, c', n - 1);
      }
    }
  }

  lemma AdvancesOrRests(h: Handlers, c: Client)
    requires InStep(h, c) && !Resting(c)
    ensures var c' := React(h, c, Iterate);
            InStep(h, c') && (Resting(c') || |Parse(c'.run.core).packets| < |Parse(c.run.core).packets|)
  {
    StepParse(c.run.core);
    ReactKeepsStep(h, c, Iterate);
    if Parse(c.run.core).packets == [] {
      ParseEnds(c.run.core);
      QuiescentMeaning(React(h, c, Iterate).run.core);
    }
  }

  lemma {:induction false} ReactAllAppend(h: Handlers, c: Client, es: seq<Event>, es': seq<Event>)
    ensures ReactAll(h, c, es + es') == ReactAll(h, ReactAll(h, c, es), es')
    decreases es
  {
    if es == [] {
      EmptyNeutral(es');
    } else {
      TailOfConcat(es, es');
      ReactAllAppend(h, React(h, c, es[0]), es[1..], es');
    }
  }

  /**
   After any schedule whatever, more iterations than the one-shot parse of the accepted bytes has packets leave the
   client at rest, having made exactly the handler calls of dispatching that parse.
  */
  lemma EventsDrained(h: Handlers, es: seq<Event>, n: nat)
    requires n > |ParseStream(Taken(es)).packets|
    ensures var c := ReactAll(h, FRESH, es + Idling(n));
            Resting(c) && c.effects == DispatchAll(h, ParseStream(Taken(es)).packets)
  {
    var c := ReactAll(h, FRESH, es);
    EmptyNeutral(Taken(es));
    ReactAllKeepsStep(h, FRESH, es);
    ReactAllAppend(h, FRESH, es, Idling(n));
    IdlingRests(h, c, n);
    EventsAreDispatchedParse(h, es + Idling(n));
    TakenIdling(es, n);
  }

  lemma TakenIdling(es: seq<Event>, n: nat)
    ensures Taken(es + Idling(n)) == Taken(es)
  {
    TakenAppend(es, Idling(n));
    IdlingTakesNothing(n);
    EmptyNeutral(Taken(es));
  }

  lemma {:induction false} IdlingTakesNothing(n: nat)
    ensures Taken(Idling(n)) == []
    decreases n
  {
    if n > 0 {
      assert Idling(n)[1..] == Idling(n - 1);
      IdlingTakesNothing(n - 1);
    }
  }

  /**
   End to end: packets sent through sendAsync, cut into chunks that fit and received under any schedule, cause at any
   time the first of, and after enough iterations exactly, the handler calls of dispatching in order those packets whose
   sending did not throw.
  */
  lemma EndToEnd(snds: seq<Sender>, ps: seq<Packet>, h: Handlers, es: seq<Event>, n: nat)
    requires |snds| == |ps| && AllTcp(ps)
    requires Offered(es) == Wire(snds, ps) && AllFit(es)
    ensures var all := DispatchAll(h, Through(snds, ps));
            && ReactAll(h, FRESH, es).effects.done <= all.done
            && (n > |Through(snds, ps)| ==> ReactAll(h, FRESH, es + Idling(n)).effects == all)
  {
    WireIsEncoding(snds, ps);
    TakenIsOffered(es);
    ParseFrames(Through(snds, ps));
    EventsAreDispatchedParse(h, es);
    if n > |Through(snds, ps)| {
      EventsDrained(h, es, n);
    }
  }

  /** In particular the data handler gets the application packets that were sent, in order, and nothing else. */
  lemma DataEndToEnd(snds: seq<Sender>, ps: seq<Packet>, h: Handlers, es: seq<Event>, n: nat)
    requires |snds| == |ps| && AllTcp(ps) && AllAcceptable(h, Through(snds, ps)) && h.onReceivedData
    requires Offered(es) == Wire(snds, ps) && AllFit(es) && n > |Through(snds, ps)|
    ensures var c := ReactAll(h, FRESH, es + Idling(n));
            !c.effects.threw && DataEvents(c.effects.done) == ApplicationData(h, Through(snds, ps))
  {
    EndToEnd(snds, ps, h, es, n);
    DataFiltered(h, Through(snds, ps));
  }

  /** The packet sendHeartbeatAsync builds. */
  function Pulse(hb: Heartbeat, perMilli: Resolution): (p: Packet)
    ensures NewTcp(HEARTBEAT, EncodeHeartbeat(hb, perMilli), false) == Success(p)
  {
    NewTcp(HEARTBEAT, EncodeHeartbeat(hb, perMilli), false).value
  }

  /**
   The library's own heartbeats do not survive its own receiver: the body is 16 bytes, the decoder wants 17. Whatever is
   sent before such a pulse that the handler accepts, and whatever after it, the receiver resets its detector, throws on
   the pulse, and reports nothing sent after it.
  */
  lemma PulseEndsReceiver(snds: seq<Sender>, all: seq<Packet>, ps: seq<Packet>, hb: Heartbeat, perMilli: Resolution,
                          qs: seq<Packet>, h: Handlers, es: seq<Event>, n: nat)
    requires |snds| == |all| && AllTcp(all)
    requires Through(snds, all) == ps + [Pulse(hb, perMilli)] + qs && AllAcceptable(h, ps)
    requires Offered(es) == Wire(snds, all) && AllFit(es) && n > |Through(snds, all)|
    ensures ReactAll(h, FRESH, es + Idling(n)).effects == Effects(DispatchAll(h, ps).done + [DetectorReset], true)
  {
    var pulse := Pulse(hb, perMilli);
    EndToEnd(snds, all, h, es, n);
    DataFiltered(h, ps);
    DispatchAppend(h, ps, [pulse]);
    DispatchAppend(h, ps + [pulse], qs);
    assert Dispatch(h, pulse) == Effects([DetectorReset], true);
    assert DispatchAll(h, [pulse]) == Dispatch(h, pulse);
  }

  /**
   It does happen: a connected client sends a pulse exactly if shared_from_this() succeeds, and whatever receives one in
   one chunk throws.
  */
  lemma PulseHappens(snd: Sender, hb: Heartbeat, perMilli: Resolution, h: Handlers)
    ensures var data := Built(Pulse(hb, perMilli));
            && |data| == 20 && data[..4] == [0xFD, 0, 20, 0]
            && (Sent(snd, data) == Success(data) <==> snd.connected && snd.shared)
            && ReactAll(h, FRESH, [Add(data)] + Idling(2)).effects == Effects([DetectorReset], true)
  {
    var pulse := Pulse(hb, perMilli);
    var data := Built(pulse);
    var es := [Add(data)];
    var able := snd.(connected := true, shared := true);
    assert |data| == 20 && data[..4] == [0xFD, 0, 20, 0];
    assert Through([able], [pulse]) == [pulse] + Through([], []) == [] + [pulse] + [];
    assert Wire([able], [pulse]) == data + Wire([], []) == data;
    assert es[1..] == [] && Offered(es) == data + Offered([]) == data;
    assert DispatchAll(h, []).done + [DetectorReset] == [DetectorReset];
    PulseEndsReceiver([able], [pulse], [], hb, perMilli, [], h, es, 2);
  }

  /** A receiver that only ever gets heartbeats with a body as short as that resets its detector at most once. */
  lemma PulsesResetOnce(h: Handlers, es: seq<Event>)
    requires forall p :: p in ParseStream(Taken(es)).packets && p.id == HEARTBEAT ==> |p.data| < 17
    ensures Count(ReactAll(h, FRESH, es).effects.done, DetectorReset) <= 1
  {
    var done := ReactAll(h, FRESH, es).effects.done;
    var all := DispatchAll(h, ParseStream(Taken(es)).packets).done;
    EventsAreDispatchedParse(h, es);
    ShortPulsesOnce(h, ParseStream(Taken(es)).packets);
    assert all == done + all[|done|..];
    CountAppend(done, all[|done|..], DetectorReset);
  }

  lemma {:induction false} ShortPulsesOnce(h: Handlers, ps: seq<Packet>)
    requires forall p :: p in ps && p.id == HEARTBEAT ==> |p.data| < 17
    ensures Count(DispatchAll(h, ps).done, DetectorReset) <= 1
    ensures !DispatchAll(h, ps).threw ==> Count(DispatchAll(h, ps).done, DetectorReset) == 0
    decreases ps
  {
    if ps != [] {
      assert ps[0] in ps;
      ShortPulsesOnce(h, ps[1..]);
      CountAppend(Dispatch(h, ps[0]).done, DispatchAll(h, ps[1..]).done, DetectorReset);
      ResetsOfOne(h, ps[0]);
    }
  }

  lemma ResetsOfOne(h: Handlers, p: Packet)
    requires p.id == HEARTBEAT ==> |p.data| < 17
    ensures Count(Dispatch(h, p).done, DetectorReset) == if p.id == HEARTBEAT then 1 else 0
    ensures p.id == HEARTBEAT ==> Dispatch(h, p).threw
  {
  }

  /** The goodbye disconnectAsync builds. */
  function Farewell(g: Goodbye, perSecond: Resolution): (p: Packet)
    ensures NewTcp(CGOODBYE, EncodeGoodbye(g, perSecond), false) == Success(p)
  {
    NewTcp(CGOODBYE, EncodeGoodbye(g, perSecond), false).value
  }

  /** A client whose goodbye is the last it sends is reported as disconnected, once, after everything else it sent. */
  lemma FarewellArrives(snds: seq<Sender>, all: seq<Packet>, ps: seq<Packet>, g: Goodbye, perSecond: Resolution,
                        h: Handlers, es: seq<Event>, n: nat)
    requires |snds| == |all| && AllTcp(all) && Through(snds, all) == ps + [Farewell(g, perSecond)]
    requires h.onClientDisconnected && AllAcceptable(h, ps) && forall p :: p in ps ==> p.id != CGOODBYE
    requires Offered(es) == Wire(snds, all) && AllFit(es) && n > |Through(snds, all)|
    ensures var e := ReactAll(h, FRESH, es + Idling(n)).effects;
            && e == Effects(DispatchAll(h, ps).done + [ClientDisconnected], false)
            && Count(e.done, ClientDisconnected) == 1
  {
    var bye := Farewell(g, perSecond);
    EndToEnd(snds, all, h, es, n);
    DataFiltered(h, ps);
    DispatchAppend(h, ps, [bye]);
    assert Dispatch(h, bye) == Effects([ClientDisconnected], false);
    assert DispatchAll(h, [bye]) == Dispatch(h, bye);
    InternalsReported(h, ps, ClientDisconnected, CGOODBYE, true);
    NoneCounted(ps, CGOODBYE);
    CountAppend(DispatchAll(h, ps).done, [ClientDisconnected], ClientDisconnected);
  }

  lemma {:induction false} NoneCounted(ps: seq<Packet>, id: byte)
    requires forall p :: p in ps ==> p.id != id
    ensures CountId(ps, id) == 0
    decreases ps
  {
    if ps != [] {
      assert ps[0] in ps;
      NoneCounted(ps[1..], id);
    }
  }
}
