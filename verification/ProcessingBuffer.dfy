/** The framer as the object the source has (ProcessingBuffer.cpp), proved against its state machine. */
module ProcessingBuffers {
  import opened Results
  import opened Bytes
  import opened Packets
  import opened Framer
  import opened Framing

  class ProcessingBuffer {
    var internalBuffer: seq<byte>
    var hasReadHeader: bool
    var currentID: byte
    var isCompressed: bool
    var currentLength: uint16
    /** The processing thread ended with an exception. */
    var terminated: bool

    /** All bytes addData accepted, and all packets built for the handler. */
    ghost var accepted: seq<byte>
    ghost var delivered: seq<Packet>
    ghost var history: seq<Event>

    ghost function View(): Run
      reads this
    {
      var h := Header(currentID, isCompressed, currentLength);
      var mode := if terminated then Aborted(h) else if hasReadHeader then AwaitBody(h) else AwaitHeader;
      Run(State(mode, internalBuffer), accepted, delivered)
    }

    /** The object is where the run of its history leads. */
    ghost predicate Valid()
      reads this
    {
      View() == ApplyAll(START, history)
    }

    /**
     So all that is proved of runs holds of the object: delivered, then the parse of what is pending, is the one-shot
     parse of all accepted bytes, and no byte is lost.
    */
    lemma ValidImpliesInvariants()
      requires Valid()
      ensures Refines(View()) && Conserved(View())
    {
      ApplyAllRefines(START, history);
      NoByteLost(history);
    }

    constructor ()
      ensures Valid() && View() == START
    {
      internalBuffer, hasReadHeader, terminated := [], false, false;
      currentID, isCompressed, currentLength := 0, false, 0;
      accepted, delivered, history := [], [], [];
    }

    /** A chunk over MAX_PACKET_SIZE throws and changes nothing; any other is appended byte by byte. */
    method AddData(data: seq<byte>) returns (r: Result<()>)
      requires Valid()
      modifies this
      ensures Valid()
      ensures |data| > MAX_CHUNK ==> r == Failure(OverflowError) && View() == old(View())
      ensures |data| <= MAX_CHUNK ==> r == Success(()) && View() == Apply(old(View()), Add(data))
    {
      if |data| > MAX_CHUNK {
        return Failure(OverflowError);
      }
      for i := 0 to |data|
        invariant internalBuffer == old(internalBuffer) + data[..i]
        invariant unchanged(`hasReadHeader, `currentID, `isCompressed, `currentLength, `terminated)
        invariant unchanged(`accepted, `delivered, `history)
      {
        internalBuffer := internalBuffer + [data[i]];
      }
      accepted := accepted + data;
      assert data[..|data|] == data;
      HistoryExtends(START, history, Add(data));
      history := history + [Add(data)];
      return Success(());
    }

    /** operator[]: a copy of the queue is popped `index` times. */
    method At(index: nat) returns (r: Result<byte>)
      ensures r == if index < |internalBuffer| then Success(internalBuffer[index]) else Failure(OutOfRange)
    {
      if index >= |internalBuffer| {
        return Failure(OutOfRange);
      }
      var tempQueue := internalBuffer;
      for i := 0 to index
        invariant tempQueue == internalBuffer[i..]
      {
        tempQueue := tempQueue[1..];
      }
      return Success(tempQueue[0]);
    }

    /** readHeader, called under the lock. */
    method TakeHeaderBytes()
      requires !terminated && !hasReadHeader
      modifies `internalBuffer, `hasReadHeader, `currentID, `isCompressed, `currentLength
      ensures View() == old(View()).(core := TakeHeader(old(View()).core))
    {
      if |internalBuffer| < 4 {
        return;
      }
      currentID := internalBuffer[0];
      internalBuffer := internalBuffer[1..];
      isCompressed := internalBuffer[0] != 0;
      internalBuffer := internalBuffer[1..];
      var lengthLow := internalBuffer[0];
      internalBuffer := internalBuffer[1..];
      var lengthHigh := internalBuffer[0];
      internalBuffer := internalBuffer[1..];
      currentLength := lengthHigh as int * 256 + lengthLow;
      hasReadHeader := true;
      assert internalBuffer == old(internalBuffer)[4..];
    }

    /** The payload loop and the construction of the packet, which is what the handler is called with. */
    method TakeBodyBytes() returns (packet: Option<Packet>)
      requires !terminated && hasReadHeader
      modifies `internalBuffer, `hasReadHeader, `terminated, `delivered
      ensures var o := TakeBody(old(View()).core);
              && View() == Run(o.state, old(accepted), old(delivered) + o.packets)
              && o.packets == if packet.Some? then [packet.value] else []
    {
      packet := None;
      if !BodyReady(currentLength, |internalBuffer|) {
        return;
      }
      var n := currentLength - STANDARD;
      var packetData := new byte[n];
      for i := 0 to n
        invariant packetData[..i] == old(internalBuffer)[..i]
        invariant internalBuffer == old(internalBuffer)[i..]
        invariant unchanged(`hasReadHeader, `currentID, `isCompressed, `currentLength, `terminated)
        invariant unchanged(`accepted, `delivered, `history)
      {
        packetData[i] := internalBuffer[0];
        internalBuffer := internalBuffer[1..];
      }
      assert packetData[..] == packetData[..n];
      hasReadHeader := false;
      var built := NewTcp(currentID, packetData[..], isCompressed);
      if built.Failure? {
        terminated := true;
      } else {
        delivered := delivered + [built.value];
        packet := Some(built.value);
      }
    }

    /** One iteration of processPackets, with the lock held throughout; the result is the packet handed over, if any. */
    method ProcessOnce() returns (packet: Option<Packet>)
      requires Valid()
      modifies this
      ensures Valid() && View() == Apply(old(View()), Iterate)
      ensures delivered == old(delivered) + if packet.Some? then [packet.value] else []
    {
      HistoryExtends(START, history, Iterate);
      history := history + [Iterate];
      packet := None;
      if terminated || |internalBuffer| == 0 {
        return;
      }
      if |internalBuffer| >= STANDARD {
        if !hasReadHeader {
          TakeHeaderBytes();
        }
      }
      if hasReadHeader {
        packet := TakeBodyBytes();
      }
    }
  }
}
