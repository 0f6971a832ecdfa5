/** The receiving NetworkClient object: its buffer, its detector and the packet handler that joins them. */
module NetworkClients {
  import opened Results
  import opened Bytes
  import opened Packets
  import opened Sequences
  import opened Framer
  import opened ProcessingBuffers
  import opened HeartbeatDetectors
  import opened Clients
  import opened Codecs
  import Detector

  class NetworkClient {
    const handlers: Handlers
    const processingBuffer: ProcessingBuffer
    const detector: HeartbeatDetector

    /** Ticks of the system clock in a millisecond. */
    const perMilli: Resolution

    /** The handler calls and detector resets so far, and whether an exception ended the processing thread. */
    var calls: seq<Effect>
    var threw: bool
    ghost var history: seq<Event>

    ghost function View(): Client
      reads this, processingBuffer
    {
      Client(processingBuffer.View(), Effects(calls, threw))
    }

    /** The object is where its history of chunks and iterations leads. */
    ghost predicate Valid()
      reads this, processingBuffer, detector
    {
      processingBuffer.Valid() && detector.Valid() && View() == ReactAll(handlers, FRESH, history)
    }

    /**
     So all that is proved of runs holds of the object: the calls made are those of dispatching the delivered packets,
     and a prefix of those for the one-shot parse of all accepted bytes.
    */
    lemma ValidImpliesInStep()
      requires Valid()
      ensures InStep(handlers, View())
      ensures calls <= DispatchAll(handlers, ParseStream(Taken(history)).packets).done
    {
      ReactAllKeepsStep(handlers, FRESH, history);
      EventsAreDispatchedParse(handlers, history);
    }

    lemma HistoryExtends(es: seq<Event>, e: Event)
      ensures ReactAll(handlers, FRESH, es + [e]) == React(handlers, ReactAll(handlers, FRESH, es), e)
    {
      ReactAllAppend(handlers, FRESH, es, [e]);
      assert [e][1..] == [];
    }

    constructor (handlers: Handlers, perMilli: Resolution)
      ensures Valid() && View() == FRESH && this.handlers == handlers
      ensures fresh(processingBuffer) && fresh(detector)
    {
      this.handlers, this.perMilli := handlers, perMilli;
      processingBuffer := new ProcessingBuffer();
      detector := new HeartbeatDetector();
      calls, threw, history := [], false, [];
    }

    /** The packet handler. Only a heartbeat touches the detector, and it does so before it can throw. */
    method HandlePacket(packet: Packet)
      requires detector.Valid()
      modifies `calls, `threw, detector
      ensures threw <==> !Acceptable(handlers, packet)
      ensures calls == old(calls) + if threw then LastCalls(packet) else Calls(handlers, packet)
      ensures var e := Dispatch(handlers, packet); calls == old(calls) + e.done && threw == e.threw
      ensures detector.Valid()
      ensures packet.id == HEARTBEAT ==> detector.isAlive && detector.missedHeartbeats == 0
      ensures detector.View() == if packet.id == HEARTBEAT
                                 then Detector.WholeTurn(old(detector.View()), Detector.BeatTurn)
                                 else old(detector.View())
    {
      threw := false;
      DispatchOne(handlers, packet);
      if packet.id == SGOODBYE {
        if handlers.onServerDisconnected {
          calls := calls + [ServerDisconnected];
        }
        return;
      }
      if packet.id == CGOODBYE {
        if handlers.onClientDisconnected {
          calls := calls + [ClientDisconnected];
        }
        return;
      }
      if packet.id == HEARTBEAT {
        detector.OnHeartbeat();
        calls := calls + [DetectorReset];
        var heartbeat := HeartbeatFromByteArray(packet.data, perMilli);
        if heartbeat == Failure(RuntimeError) {
          threw := true;
          return;
        }
        if handlers.onReceivedHeartbeat {
          calls := calls + [ReceivedHeartbeat];
        }
        return;
      }
      var data := packet.data;
      if packet.isCompressed != 0 {
        var decompressedData := handlers.decompress(packet.data);
        if decompressedData.None? {
          threw := true;
          return;
        }
        data := decompressedData.value;
      }
      if handlers.onReceivedData {
        var copy := NewTcp(packet.id, data, false);
        if copy.Failure? {
          threw := true;
        } else {
          calls := calls + [ReceivedData(copy.value)];
        }
      }
    }

    /** The completion of receiveAsync: a chunk the buffer refuses is logged and dropped. */
    method Receive(data: seq<byte>)
      requires Valid()
      modifies `history, processingBuffer
      ensures Valid() && View() == React(handlers, old(View()), Add(data))
      ensures |data| > MAX_CHUNK ==> View() == old(View())
    {
      HistoryExtends(history, Add(data));
      history := history + [Add(data)];
      var r := processingBuffer.AddData(data);
    }

    /** One iteration of the processing thread, which calls the handler; the detector is reset on a heartbeat only. */
    method Process()
      requires Valid()
      modifies this, processingBuffer, detector
      ensures Valid() && View() == React(handlers, old(View()), Iterate)
      ensures var packets := Step(old(View()).run.core).packets;
              detector.View() == if !old(threw) && packets != [] && packets[0].id == HEARTBEAT
                                 then Detector.WholeTurn(old(detector.View()), Detector.BeatTurn)
                                 else old(detector.View())
    {
      HistoryExtends(history, Iterate);
      history := history + [Iterate];
      if threw {
        return;
      }
      ghost var before := processingBuffer.delivered;
      var packet := processingBuffer.ProcessOnce();
      assert processingBuffer.delivered[|before|..] == if packet.Some? then [packet.value] else [];
      if packet.Some? {
        HandlePacket(packet.value);
        DispatchSingle(handlers, packet.value);
      } else {
        EmptyNeutral(calls);
      }
    }
  }

  lemma DispatchSingle(h: Handlers, p: Packet)
    ensures DispatchAll(h, [p]) == Dispatch(h, p)
  {
    EmptyNeutral(Dispatch(h, p).done);
  }
}
