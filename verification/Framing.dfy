/** The framer against the encoder: round trips, conservation of bytes, unique decodability. */
module Framing {
  import opened Bytes
  import opened Packets
  import opened Sequences
  import opened Framer

  ghost predicate AllFramable(ps: seq<Packet>) {
    forall p :: p in ps ==> Framable(p)
  }

  /** The header bytes already consumed for a frame that is not finished. */
  function Pending(m: Mode): seq<byte> {
    if m.AwaitHeader? then []
    else HeaderOf(m.header.id, if m.header.compressed then 1 else 0, m.header.length)
  }

  /** Delivered packets rebuilt, then the pending header, then the buffer. */
  function Reencode(ps: seq<Packet>, st: State): seq<byte> {
    EncodeAll(ps) + Pending(st.mode) + st.buffer
  }

  function Stream(st: State): seq<byte> {
    Pending(st.mode) + st.buffer
  }

  lemma ReencodeNil(st: State)
    ensures Reencode([], st) == Stream(st)
  {
  }

  lemma ReencodeAppend(qs: seq<Packet>, ps: seq<Packet>, st: State)
    ensures Reencode(qs + ps, st) == EncodeAll(qs) + Reencode(ps, st)
  {
    EncodeAppend(qs, ps);
    Associative(EncodeAll(qs), EncodeAll(ps), Pending(st.mode));
    Associative(EncodeAll(qs), EncodeAll(ps) + Pending(st.mode), st.buffer);
  }

  lemma ReencodeCons(p: Packet, ps: seq<Packet>, st: State)
    ensures Reencode([p] + ps, st) == Built(p) + Reencode(ps, st)
  {
    EncodeOne(p);
    ReencodeAppend([p], ps, st);
  }

  lemma EncodeOne(p: Packet)
    ensures EncodeAll([p]) == Built(p)
  {
    assert [p][1..] == [];
  }

  lemma FrameOf(h: Header, body: seq<byte>)
    requires h.length == STANDARD + |body|
    ensures Built(PacketOf(h, body)) == Pending(AwaitBody(h)) + body
  {
    var p := PacketOf(h, body);
    ExactLength(h, body);
    assert Built(p) == HeaderOf(p.id, p.isCompressed, h.length) + body;
  }

  lemma ExactLength(h: Header, body: seq<byte>)
    requires h.length == STANDARD + |body|
    ensures PacketOf(h, body).length == h.length
  {
  }

  /** The frame at the front of a stream whose body has arrived. */
  lemma FrontFrame(h: Header, s: seq<byte>)
    requires h.length > STANDARD && BodyReady(h.length, |s|)
    ensures var n := h.length - STANDARD;
            Stream(State(AwaitBody(h), s)) == Built(PacketOf(h, s[..n])) + Stream(State(AwaitHeader, s[n..]))
  {
    var n := h.length - STANDARD;
    assert s == s[..n] + s[n..];
    FrameOf(h, s[..n]);
    Associative(Pending(AwaitBody(h)), s[..n], s[n..]);
    EmptyNeutral(s[n..]);
  }

  lemma ReadBack(id: byte, flag: byte, length: uint16, t: seq<byte>)
    ensures var s := HeaderOf(id, flag, length) + t;
            ReadHeader(s) == Header(id, flag != 0, length) && s[STANDARD..] == t
  {
    var s := HeaderOf(id, flag, length) + t;
    assert s[0] == id && s[1] == flag && s[2] == length % 256 && s[3] == length / 256 % 256;
  }

  /** Reading a header and writing it again only changes the flag byte, and that only if it was above 1. */
  lemma WriteBack(s: seq<byte>)
    requires |s| >= STANDARD
    ensures var m := AwaitBody(ReadHeader(s));
            && Pending(m)[0] == s[0] && Pending(m)[2] == s[2] && Pending(m)[3] == s[3]
            && Pending(m)[1] == (if s[1] == 0 then 0 else 1)
            && (s[1] <= 1 ==> Pending(m) + s[STANDARD..] == s)
  {
    var n := s[3] as int * 256 + s[2];
    assert n % 256 == s[2] && n / 256 == s[3];
  }

  /** Parsing a stream that starts with a header goes on with its body. */
  lemma ParseHeaderOf(id: byte, flag: byte, length: uint16, t: seq<byte>)
    ensures ParseStream(HeaderOf(id, flag, length) + t) == Parse(State(AwaitBody(Header(id, flag != 0, length)), t))
  {
    ReadBack(id, flag, length, t);
  }

  lemma ParseFrame(p: Packet, rest: seq<byte>)
    requires Framable(p)
    ensures var o := ParseStream(rest); ParseStream(Built(p) + rest) == Outcome([p] + o.packets, o.state)
  {
    var body := p.data + rest;
    Associative(HeaderOf(p.id, p.isCompressed, p.length), p.data, rest);
    ParseHeaderOf(p.id, p.isCompressed, p.length, body);
    SplitOfConcat(p.data, rest, |p.data|);
    var h := Header(p.id, p.isCompressed != 0, p.length);
    ParseBody(h, body);
    assert PacketOf(h, p.data) == p;
  }

  /** Parsing inverts encoding: a list of frames followed by any residue parses to exactly that. */
  lemma {:induction false} ParseEncoded(ps: seq<Packet>, st: State)
    requires AllFramable(ps) && Residual(st)
    ensures ParseStream(Reencode(ps, st)) == Outcome(ps, st)
    decreases ps
  {
    var s := Reencode(ps, st);
    if ps == [] {
      assert s == Stream(st);
      if !st.mode.AwaitHeader? {
        var h := st.mode.header;
        ParseHeaderOf(h.id, if h.compressed then 1 else 0, h.length, st.buffer);
      }
    } else {
      assert ps[0] in ps && ps == [ps[0]] + ps[1..];
      ReencodeCons(ps[0], ps[1..], st);
      ParseFrame(ps[0], Reencode(ps[1..], st));
      ParseEncoded(ps[1..], st);
    }
  }

  /** s with some flag bytes above 1 replaced by 1. */
  ghost predicate Normalised(s: seq<byte>, r: seq<byte>) {
    && |r| == |s|
    && forall i :: 0 <= i < |s| ==> r[i] == s[i] || (s[i] > 1 && r[i] == 1)
  }

  lemma NormalisedTransitive(a: seq<byte>, b: seq<byte>, c: seq<byte>)
    requires Normalised(a, b) && Normalised(b, c)
    ensures Normalised(a, c)
  {
  }

  lemma NormalisedBetween(a: seq<byte>, b: seq<byte>)
    requires Normalised(a, b) && Normalised(b, a)
    ensures a == b
  {
    assert forall i :: 0 <= i < |a| ==> a[i] == b[i];
  }

  lemma NormalisedPrefix(x: seq<byte>, a: seq<byte>, b: seq<byte>)
    requires Normalised(a, b)
    ensures Normalised(x + a, x + b)
  {
  }

  lemma NormalisedSuffix(a: seq<byte>, b: seq<byte>, x: seq<byte>)
    requires Normalised(a, b)
    ensures Normalised(a + x, b + x)
  {
  }

  /** Taking a header off the buffer loses nothing but the exact value of a flag byte above 1. */
  lemma HeaderConserves(st: State)
    ensures Normalised(Stream(st), Stream(TakeHeader(st)))
  {
    if st.mode.AwaitHeader? && |st.buffer| >= STANDARD {
      WriteBack(st.buffer);
      assert st.buffer == st.buffer[..STANDARD] + st.buffer[STANDARD..];
    }
  }

  lemma BodyConserves(st: State)
    ensures var o := TakeBody(st); Reencode(o.packets, o.state) == Stream(st)
  {
    if st.mode.AwaitBody? && BodyReady(st.mode.header.length, |st.buffer|) {
      var h := st.mode.header;
      var n := h.length - STANDARD;
      if n > 0 {
        FrontFrame(h, st.buffer);
        var p := PacketOf(h, st.buffer[..n]);
        ReencodeCons(p, [], State(AwaitHeader, st.buffer[n..]));
        assert [p] + [] == [p];
        ReencodeNil(State(AwaitHeader, st.buffer[n..]));
      } else {
        ReencodeNil(TakeBody(st).state);
      }
    } else {
      ReencodeNil(st);
    }
  }

  /** No iteration loses, duplicates or reorders a byte. */
  lemma StepConserves(st: State)
    ensures var o := Step(st); Normalised(Stream(st), Reencode(o.packets, o.state))
  {
    if st.mode.Aborted? || st.buffer == [] {
      ReencodeNil(st);
    } else {
      HeaderConserves(st);
      BodyConserves(TakeHeader(st));
    }
  }

  ghost predicate Conserved(r: Run) {
    Normalised(r.accepted, Reencode(r.delivered, r.core))
  }

  lemma ApplyConserves(r: Run, e: Event)
    requires Conserved(r)
    ensures Conserved(Apply(r, e))
  {
    match e
    case Add(chunk) =>
      if |chunk| <= MAX_CHUNK {
        NormalisedSuffix(r.accepted, Reencode(r.delivered, r.core), chunk);
        ReencodeFed(r.delivered, r.core, chunk);
      }
    case Iterate =>
      var o := Step(r.core);
      StepConserves(r.core);
      Prefixed(r.delivered, r.core, o);
      NormalisedTransitive(r.accepted, Reencode(r.delivered, r.core), Reencode(r.delivered + o.packets, o.state));
  }

  lemma ReencodeFed(ps: seq<Packet>, st: State, t: seq<byte>)
    ensures Reencode(ps, Fed(st, t)) == Reencode(ps, st) + t
  {
  }

  /** Progress behind the packets already delivered conserves the whole stream. */
  lemma Prefixed(ps: seq<Packet>, st: State, o: Outcome)
    requires Normalised(Stream(st), Reencode(o.packets, o.state))
    ensures Normalised(Reencode(ps, st), Reencode(ps + o.packets, o.state))
  {
    NormalisedPrefix(EncodeAll(ps), Stream(st), Reencode(o.packets, o.state));
    ReencodeAppend(ps, o.packets, o.state);
    ReencodeAppend(ps, [], st);
    ReencodeNil(st);
    assert ps + [] == ps;
  }

  lemma {:induction false} ApplyAllConserves(r: Run, es: seq<Event>)
    requires Conserved(r)
    ensures Conserved(ApplyAll(r, es))
    decreases es
  {
    if es != [] {
      ApplyConserves(r, es[0]);
      ApplyAllConserves(Apply(r, es[0]), es[1..]);
    }
  }

  /** Every flag byte that the parser reads on this stream is 0 or 1. */
  predicate CanonicalFlags(st: State)
    decreases |st.buffer|
  {
    match st.mode
    case Aborted(_) => true
    case AwaitHeader =>
      |st.buffer| < STANDARD ||
      (st.buffer[1] <= 1 && CanonicalFlags(State(AwaitBody(ReadHeader(st.buffer)), st.buffer[STANDARD..])))
    case AwaitBody(h) =>
      h.length == STANDARD || !BodyReady(h.length, |st.buffer|) ||
      CanonicalFlags(State(AwaitHeader, st.buffer[h.length - STANDARD..]))
  }

  /** The packet in front, and the state behind it, when its body has arrived. */
  lemma FrontPacket(st: State) returns (p: Packet, rest: State)
    requires st.mode.AwaitBody? && st.mode.header.length > STANDARD && BodyReady(st.mode.header.length, |st.buffer|)
    ensures rest == State(AwaitHeader, st.buffer[st.mode.header.length - STANDARD..])
    ensures p == PacketOf(st.mode.header, st.buffer[..st.mode.header.length - STANDARD])
    ensures Parse(st) == Outcome([p] + Parse(rest).packets, Parse(rest).state)
    ensures Stream(st) == Built(p) + Stream(rest)
  {
    var h := st.mode.header;
    ParseBody(h, st.buffer);
    FrontFrame(h, st.buffer);
    rest := State(AwaitHeader, st.buffer[h.length - STANDARD..]);
    p := PacketOf(h, st.buffer[..h.length - STANDARD]);
  }

  /** The frame in front: the stream and what the parser re-encodes to both start with it. */
  lemma FrontStep(st: State) returns (rest: State, frame: seq<byte>)
    requires st.mode.AwaitBody? && st.mode.header.length > STANDARD && BodyReady(st.mode.header.length, |st.buffer|)
    ensures rest == State(AwaitHeader, st.buffer[st.mode.header.length - STANDARD..])
    ensures Reencode(Parse(st).packets, Parse(st).state) == frame + Reencode(Parse(rest).packets, Parse(rest).state)
    ensures Stream(st) == frame + Stream(rest)
    ensures Pending(st.mode) <= frame
  {
    var p;
    p, rest := FrontPacket(st);
    ReencodeCons(p, Parse(rest).packets, Parse(rest).state);
    FrameOf(st.mode.header, st.buffer[..st.mode.header.length - STANDARD]);
    frame := Built(p);
  }

  lemma UnfinishedBody(h: Header, s: seq<byte>)
    requires h.length == STANDARD || !BodyReady(h.length, |s|)
    ensures var o := Parse(State(AwaitBody(h), s));
            o.packets == [] && Pending(o.state.mode) == Pending(AwaitBody(h)) && o.state.buffer == s
  {
  }

  /** What the parser re-encodes to still starts with the header that was pending. */
  lemma PendingFirst(h: Header, s: seq<byte>)
    ensures var o := Parse(State(AwaitBody(h), s));
            Pending(AwaitBody(h)) <= Reencode(o.packets, o.state)
  {
    if h.length > STANDARD && BodyReady(h.length, |s|) {
      var rest, frame := FrontStep(State(AwaitBody(h), s));
      FirstOfTwo(Pending(AwaitBody(h)), frame, Reencode(Parse(rest).packets, Parse(rest).state));
    } else {
      UnfinishedBody(h, s);
      UnfinishedFirst(Parse(State(AwaitBody(h), s)).state);
    }
  }

  lemma FirstOfTwo(x: seq<byte>, a: seq<byte>, b: seq<byte>)
    requires x <= a
    ensures x <= a + b
  {
  }

  lemma UnfinishedFirst(st: State)
    ensures Pending(st.mode) <= Reencode([], st)
  {
    ReencodeNil(st);
  }

  /** Re-encoding inverts parsing here. */
  predicate Reencodes(st: State) {
    Reencode(Parse(st).packets, Parse(st).state) == Stream(st)
  }

  /** Re-encoding inverts parsing exactly on the streams whose flag bytes are all 0 or 1. */
  lemma {:induction false} ReencodeParse(st: State)
    ensures Reencodes(st) <==> CanonicalFlags(st)
    decreases |st.buffer|
  {
    match st.mode
    case Aborted(_) =>
      ReencodeNil(st);
    case AwaitHeader =>
      if |st.buffer| < STANDARD {
        ReencodeNil(st);
      } else {
        ReencodeParse(TakeHeader(st));
        FlagDecides(st);
      }
    case AwaitBody(h) =>
      if h.length == STANDARD || !BodyReady(h.length, |st.buffer|) {
        UnfinishedBody(h, st.buffer);
        ReencodeNil(Parse(st).state);
      } else {
        var rest, frame := FrontStep(st);
        ReencodeParse(rest);
        SameFrame(st, Parse(st), rest, Parse(rest), frame);
      }
  }

  /** Reading a header costs the round trip exactly if its flag byte is above 1. */
  lemma FlagDecides(st: State)
    requires st.mode.AwaitHeader? && |st.buffer| >= STANDARD
    ensures Reencodes(st) <==> st.buffer[1] <= 1 && Reencodes(TakeHeader(st))
  {
    var o, st' := Parse(st), TakeHeader(st);
    var r := Reencode(o.packets, o.state);
    assert o == Parse(st');
    WriteBack(st.buffer);
    PendingFirst(st'.mode.header, st'.buffer);
    assert Stream(st) == st.buffer;
    assert r[1] == Pending(st'.mode)[1];
  }

  lemma SameFrame(st: State, o: Outcome, rest: State, o': Outcome, frame: seq<byte>)
    requires Reencode(o.packets, o.state) == frame + Reencode(o'.packets, o'.state)
    requires Stream(st) == frame + Stream(rest)
    ensures Reencode(o.packets, o.state) == Stream(st) <==> Reencode(o'.packets, o'.state) == Stream(rest)
  {
    LeftCancel(Reencode(o.packets, o.state), Stream(st), frame, Reencode(o'.packets, o'.state), Stream(rest));
  }

  lemma LeftCancel(s: seq<byte>, t: seq<byte>, x: seq<byte>, a: seq<byte>, b: seq<byte>)
    requires s == x + a && t == x + b
    ensures s == t <==> a == b
  {
    assert s[|x|..] == a && t[|x|..] == b;
  }

  /**
   In every reachable state, the delivered packets rebuilt, the pending header and the buffer are together the accepted
   byte stream, up to flag bytes above 1; on a stream whose flag bytes are 0 or 1 they are exactly that stream.
  */
  lemma NoByteLost(es: seq<Event>)
    ensures var r := ApplyAll(START, es);
            && Normalised(r.accepted, Reencode(r.delivered, r.core))
            && (CanonicalFlags(State(AwaitHeader, r.accepted)) ==> Reencode(r.delivered, r.core) == r.accepted)
  {
    ApplyAllConserves(START, es);
    var r := ApplyAll(START, es);
    if CanonicalFlags(State(AwaitHeader, r.accepted)) {
      ScheduleIndependence(es);
      ParseConserves(r.core);
      Prefixed(r.delivered, r.core, Parse(r.core));
      ReencodeParse(State(AwaitHeader, r.accepted));
      assert Stream(State(AwaitHeader, r.accepted)) == r.accepted;
      NormalisedBetween(r.accepted, Reencode(r.delivered, r.core));
    }
  }

  lemma {:induction false} ParseConserves(st: State)
    ensures var o := Parse(st); Normalised(Stream(st), Reencode(o.packets, o.state))
    decreases |st.buffer|
  {
    var o := Parse(st);
    match st.mode
    case Aborted(_) =>
      ReencodeNil(st);
    case AwaitHeader =>
      if |st.buffer| < STANDARD {
        ReencodeNil(st);
      } else {
        HeaderConserves(st);
        ParseConserves(TakeHeader(st));
        NormalisedTransitive(Stream(st), Stream(TakeHeader(st)), Reencode(o.packets, o.state));
      }
    case AwaitBody(h) =>
      if h.length == STANDARD || !BodyReady(h.length, |st.buffer|) {
        ReencodeNil(o.state);
      } else {
        var rest, frame := FrontStep(st);
        ParseConserves(rest);
        NormalisedPrefix(frame, Stream(rest), Reencode(Parse(rest).packets, Parse(rest).state));
      }
  }

  /**
   The parser is characterised without running it: on streams with flag bytes 0 or 1, its outcome is the one and only
   list of frames and residue that re-encodes to the stream.
  */
  lemma ParseCharacterised(s: seq<byte>, ps: seq<Packet>, st: State)
    requires CanonicalFlags(State(AwaitHeader, s))
    ensures ParseStream(s) == Outcome(ps, st) <==> AllFramable(ps) && Residual(st) && s == Reencode(ps, st)
  {
    if ParseStream(s) == Outcome(ps, st) {
      ReencodeParse(State(AwaitHeader, s));
      ParseEnds(State(AwaitHeader, s));
      assert Stream(State(AwaitHeader, s)) == s;
    }
    if AllFramable(ps) && Residual(st) && s == Reencode(ps, st) {
      ParseEncoded(ps, st);
    }
  }

  const EMPTY := State(AwaitHeader, [])

  lemma ParseFrames(ps: seq<Packet>)
    requires AllFramable(ps)
    ensures ParseStream(EncodeAll(ps)) == Outcome(ps, EMPTY)
  {
    ParseEncoded(ps, EMPTY);
    assert Reencode(ps, EMPTY) == EncodeAll(ps);
  }

  /** A packet the TCP constructor returned survives the wire exactly when its length field did not wrap. */
  lemma SingleRoundTrip(p: Packet)
    requires IsTcp(p)
    ensures ParseStream(Built(p)) == Outcome([p], EMPTY) <==> |p.data| <= MAX_TCP_PAYLOAD
  {
    FramableMeaning(p);
    if |p.data| <= MAX_TCP_PAYLOAD {
      ParseFrames([p]);
      EncodeOne(p);
    } else {
      ParseEnds(State(AwaitHeader, Built(p)));
      assert p in ParseStream(Built(p)).packets ==> Framable(p);
    }
  }

  /** Frames are a prefix-free code: no frame is the beginning of another one. */
  lemma PrefixFree(p: Packet, q: Packet)
    requires Framable(p) && Framable(q)
    requires Built(p) <= Built(q)
    ensures p == q
  {
    assert p.id == Built(p)[0] == Built(q)[0];
    assert p.isCompressed == Built(p)[1] == Built(q)[1];
    assert p.length % 256 == Built(p)[2] == Built(q)[2];
    assert p.length / 256 == Built(p)[3] == Built(q)[3];
    assert p.length == q.length;
    assert p.data == Built(p)[STANDARD..] && q.data == Built(q)[STANDARD..];
  }

  /** A list of packets can be recovered from its concatenation, as the parser does. */
  lemma UniqueDecodability(ps: seq<Packet>, qs: seq<Packet>)
    requires AllFramable(ps) && AllFramable(qs)
    ensures EncodeAll(ps) == EncodeAll(qs) <==> ps == qs
    ensures EncodeAll(ps) <= EncodeAll(qs) <==> ps <= qs
  {
    ParseFrames(ps);
    ParseFrames(qs);
    if EncodeAll(ps) <= EncodeAll(qs) {
      ParsePrefix(EncodeAll(ps), EncodeAll(qs));
    }
    if ps <= qs {
      EncodePrefix(ps, qs);
    }
  }

  lemma EncodePrefix(ps: seq<Packet>, qs: seq<Packet>)
    requires ps <= qs
    ensures EncodeAll(ps) <= EncodeAll(qs)
  {
    assert qs == ps + qs[|ps|..];
    EncodeAppend(ps, qs[|ps|..]);
  }

  lemma ParsePrefix(s: seq<byte>, s': seq<byte>)
    requires s <= s'
    ensures ParseStream(s).packets <= ParseStream(s').packets
  {
    assert s' == s + s'[|s|..];
    ParseMonotone(s, s'[|s|..]);
  }

  /** More input never takes back a packet. */
  lemma ParseMonotone(s: seq<byte>, t: seq<byte>)
    ensures ParseStream(s).packets <= ParseStream(s + t).packets
  {
    ParseAppend(State(AwaitHeader, s), t);
  }

  /**
   End-to-end round trip: if the chunks offered concatenate to an encoded packet list, then under any schedule the
   delivered packets are that list, once the consumer has come to rest, exactly when no chunk is over the limit.
   If none is, they are always a prefix of it, and at rest the framer is back in its initial state.
  */
  lemma RoundTrip(ps: seq<Packet>, es: seq<Event>)
    requires AllFramable(ps)
    requires Offered(es) == EncodeAll(ps)
    ensures var r := ApplyAll(START, es);
            && (AllFit(es) ==> r.delivered <= ps)
            && (Quiescent(r.core) ==> (r.delivered == ps <==> AllFit(es)))
            && (Quiescent(r.core) && AllFit(es) ==> r.core == EMPTY)
  {
    var r := ApplyAll(START, es);
    ScheduleIndependence(es);
    AcceptedIsTaken(START, es);
    TakenIsOffered(es);
    ParseFrames(ps);
    assert r.accepted == Taken(es);
    NoByteLost(es);
    if r.delivered == ps {
      assert |Taken(es)| == |Reencode(ps, r.core)| >= |EncodeAll(ps)|;
    }
  }

  /** The same without a hypothesis on where the schedule stops: enough further iterations always deliver the list. */
  lemma RoundTripDrained(ps: seq<Packet>, es: seq<Event>, n: nat)
    requires AllFramable(ps)
    requires Offered(es) == EncodeAll(ps) && AllFit(es)
    requires n > |ps|
    ensures ApplyAll(START, es + Idling(n)) == Run(EMPTY, EncodeAll(ps), ps)
  {
    TakenIsOffered(es);
    ParseFrames(ps);
    DrainCompletes(es, n);
  }
}
