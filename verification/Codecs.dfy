/** The bodies of the internal packets (GoodbyePacket.cpp, HeartbeatPacket.cpp). */
module Codecs {
  import opened Results
  import opened Bytes

  /** Clock ticks in the unit that is sent: per second (Goodbye) or per millisecond (Heartbeat). */
  type Resolution = n: int | n > 0 witness 1

  /** duration_cast truncates toward zero. */
  function TruncDiv(x: int, unit: Resolution): int {
    if x >= 0 then x / unit else -(-x / unit)
  }

  predicate FitsInt64(n: int) {
    -0x8000_0000_0000_0000 <= n < 0x8000_0000_0000_0000
  }

  /** r is x with what is below a whole unit cut off, toward zero. */
  predicate CutToward0(x: int, unit: Resolution, r: int) {
    && r % unit == 0
    && (if x >= 0 then 0 <= r <= x < r + unit else r - unit < x <= r <= 0)
  }

  lemma TruncDivCuts(x: int, unit: Resolution)
    ensures CutToward0(x, unit, TruncDiv(x, unit) * unit)
    ensures -(if x >= 0 then x else -x) <= TruncDiv(x, unit) <= if x >= 0 then x else -x
  {
    var a := if x >= 0 then x else -x;
    DivCuts(a, unit);
    MultipleOf(a / unit, unit);
    MultipleOf(-(a / unit), unit);
    Negated(a / unit, unit);
  }

  lemma DivCuts(a: nat, unit: Resolution)
    ensures 0 <= a / unit <= a
    ensures a / unit * unit <= a < a / unit * unit + unit
  {
    var q := a / unit;
    assert a == unit * q + a % unit;
    MulBound(q, unit);
  }

  lemma Negated(q: int, unit: Resolution)
    ensures (-q) * unit == -(q * unit)
  {
  }

  lemma MulBound(q: int, unit: Resolution)
    ensures q >= 0 ==> q * unit >= q
    ensures q >= 1 ==> q * unit >= unit
    ensures q <= -1 ==> q * unit + unit <= 0
  {
    if q >= 1 {
      assert q * unit == (q - 1) * unit + unit == q + q * (unit - 1);
    } else if q <= -1 {
      assert q * unit == (q + 1) * unit - unit;
    }
  }

  lemma MultipleOf(q: int, unit: Resolution)
    ensures q * unit % unit == 0 && q * unit / unit == q
  {
    var m, d := q * unit % unit, q * unit / unit;
    assert q * unit == unit * d + m;
    assert (q - d) * unit == m;
    MulBound(q - d, unit);
  }

  lemma CutIsStable(k: int, unit: Resolution)
    ensures TruncDiv(k * unit, unit) == k
  {
    MultipleOf(k, unit);
    MultipleOf(-k, unit);
    assert -(k * unit) == (-k) * unit;
    if k < 0 {
      assert k * unit < 0;
    } else {
      assert k * unit >= 0;
    }
  }

  function Truncated(x: int64, unit: Resolution): int64 {
    TruncDivCuts(x, unit);
    TruncDiv(x, unit)
  }

  datatype Goodbye = Goodbye(timeout: int64, sentTime: int64)
  datatype Heartbeat = Heartbeat(timeSinceLast: int64, sentTimestamp: int64)

  /** Two 64-bit fields in memory order; both packets are sent as these 16 bytes. */
  function TwoFields(a: int64, b: int64): (s: seq<byte>)
    ensures |s| == 16
  {
    Int64ToBytes(a) + Int64ToBytes(b)
  }

  function EncodeGoodbye(g: Goodbye, perSecond: Resolution): seq<byte> {
    TwoFields(g.timeout, Truncated(g.sentTime, perSecond))
  }

  function EncodeHeartbeat(h: Heartbeat, perMilli: Resolution): seq<byte> {
    TwoFields(h.timeSinceLast, Truncated(h.sentTimestamp, perMilli))
  }

  /**
   Too short a body throws. OutOfRange stands for a time point that the receiver's clock type cannot hold, where the
   source's multiplication overflows.
  */
  function DecodeGoodbye(s: seq<byte>, perSecond: Resolution): Result<Goodbye> {
    if |s| < 16 then Failure(RuntimeError)
    else
      var sent := BytesToInt64(s[8..16]) * perSecond;
      if FitsInt64(sent) then Success(Goodbye(BytesToInt64(s[..8]), sent)) else Failure(OutOfRange)
  }

  /** The first byte is taken for an id and skipped. */
  function DecodeHeartbeat(s: seq<byte>, perMilli: Resolution): Result<Heartbeat> {
    if |s| < 17 then Failure(RuntimeError)
    else
      var sent := BytesToInt64(s[9..17]) * perMilli;
      if FitsInt64(sent) then Success(Heartbeat(BytesToInt64(s[1..9]), sent)) else Failure(OutOfRange)
  }

  lemma FieldsApart(a: int64, b: int64)
    ensures BytesToInt64(TwoFields(a, b)[..8]) == a && BytesToInt64(TwoFields(a, b)[8..16]) == b
  {
    Int64RoundTrip(a);
    Int64RoundTrip(b);
    assert TwoFields(a, b)[..8] == Int64ToBytes(a) && TwoFields(a, b)[8..16] == Int64ToBytes(b);
  }

  /**
   For every Goodbye, decoding what was encoded never overflows, keeps the timeout and cuts the send time to whole
   seconds; encoding that again gives the same bytes.
  */
  lemma GoodbyeRoundTrip(g: Goodbye, perSecond: Resolution)
    ensures var r := DecodeGoodbye(EncodeGoodbye(g, perSecond), perSecond);
            && r.Success?
            && r.value.timeout == g.timeout
            && CutToward0(g.sentTime, perSecond, r.value.sentTime)
            && EncodeGoodbye(r.value, perSecond) == EncodeGoodbye(g, perSecond)
  {
    var k := Truncated(g.sentTime, perSecond);
    FieldsApart(g.timeout, k);
    TruncDivCuts(g.sentTime, perSecond);
    CutIsStable(k, perSecond);
  }

  /** The other way round: re-encoding any body that decodes gives its first 16 bytes. */
  lemma GoodbyeReencodes(s: seq<byte>, perSecond: Resolution)
    requires DecodeGoodbye(s, perSecond).Success?
    ensures EncodeGoodbye(DecodeGoodbye(s, perSecond).value, perSecond) == s[..16]
  {
    CutIsStable(BytesToInt64(s[8..16]), perSecond);
    Int64BytesRoundTrip(s[..8]);
    Int64BytesRoundTrip(s[8..16]);
    assert s[..16] == s[..8] + s[8..16];
  }

  /**
   16 bytes, which read back as the timeout and as the send time cut to whole seconds; decoding them never fails and
   gives just these two.
  */
  method GoodbyeToByteArray(g: Goodbye, perSecond: Resolution) returns (bytes: seq<byte>)
    ensures |bytes| == 16
    ensures BytesToInt64(bytes[..8]) == g.timeout
    ensures CutToward0(g.sentTime, perSecond, BytesToInt64(bytes[8..]) * perSecond)
    ensures DecodeGoodbye(bytes, perSecond)
            == Success(Goodbye(g.timeout, BytesToInt64(bytes[8..]) * perSecond))
    ensures bytes == EncodeGoodbye(g, perSecond)
  {
    bytes := [];
    bytes := bytes + Int64ToBytes(g.timeout);
    var sentTimeSec := Truncated(g.sentTime, perSecond);
    bytes := bytes + Int64ToBytes(sentTimeSec);
    FieldsApart(g.timeout, sentTimeSec);
    TruncDivCuts(g.sentTime, perSecond);
    assert bytes == TwoFields(g.timeout, sentTimeSec) && bytes[8..] == bytes[8..16];
  }

  /**
   Throws exactly on fewer than 16 bytes, overflows exactly when the seconds do not fit the clock, and otherwise gives
   the one Goodbye in whole seconds that is encoded as the first 16 bytes.
  */
  method GoodbyeFromByteArray(s: seq<byte>, perSecond: Resolution) returns (r: Result<Goodbye>)
    ensures r == Failure(RuntimeError) <==> |s| < 16
    ensures r == Failure(OutOfRange) <==> |s| >= 16 && !FitsInt64(BytesToInt64(s[8..16]) * perSecond)
    ensures r.Failure? ==> r.error in {RuntimeError, OutOfRange}
    ensures r.Success? ==>
              && r.value.timeout == BytesToInt64(s[..8])
              && r.value.sentTime == BytesToInt64(s[8..16]) * perSecond
              && EncodeGoodbye(r.value, perSecond) == s[..16]
    ensures forall g :: s == EncodeGoodbye(g, perSecond) ==>
                          && r.Success?
                          && r.value.timeout == g.timeout
                          && CutToward0(g.sentTime, perSecond, r.value.sentTime)
    ensures r == DecodeGoodbye(s, perSecond)
  {
    forall g | s == EncodeGoodbye(g, perSecond)
      ensures var d := DecodeGoodbye(s, perSecond);
              d.Success? && d.value.timeout == g.timeout && CutToward0(g.sentTime, perSecond, d.value.sentTime)
    {
      GoodbyeRoundTrip(g, perSecond);
    }
    if |s| < 8 + 8 {
      return Failure(RuntimeError);
    }
    var offset := 0;
    var timeout := BytesToInt64(s[offset..offset + 8]);
    offset := offset + 8;
    var sentTimeSec := BytesToInt64(s[offset..offset + 8]);
    var sent := sentTimeSec * perSecond;
    if !FitsInt64(sent) {
      return Failure(OutOfRange);
    }
    GoodbyeReencodes(s, perSecond);
    return Success(Goodbye(timeout, sent));
  }

  /** With any byte put in front, a Heartbeat survives up to whole milliseconds, and a second pass changes nothing. */
  lemma HeartbeatRoundTrip(b: byte, h: Heartbeat, perMilli: Resolution)
    ensures var r := DecodeHeartbeat([b] + EncodeHeartbeat(h, perMilli), perMilli);
            && r.Success?
            && r.value.timeSinceLast == h.timeSinceLast
            && CutToward0(h.sentTimestamp, perMilli, r.value.sentTimestamp)
            && DecodeHeartbeat([b] + EncodeHeartbeat(r.value, perMilli), perMilli) == r
  {
    var k := Truncated(h.sentTimestamp, perMilli);
    var s := EncodeHeartbeat(h, perMilli);
    FieldsApart(h.timeSinceLast, k);
    assert ([b] + s)[1..9] == s[..8] && ([b] + s)[9..17] == s[8..16];
    TruncDivCuts(h.sentTimestamp, perMilli);
    CutIsStable(k, perMilli);
  }

  lemma HeartbeatReencodes(s: seq<byte>, perMilli: Resolution)
    requires DecodeHeartbeat(s, perMilli).Success?
    ensures EncodeHeartbeat(DecodeHeartbeat(s, perMilli).value, perMilli) == s[1..17]
  {
    CutIsStable(BytesToInt64(s[9..17]), perMilli);
    Int64BytesRoundTrip(s[1..9]);
    Int64BytesRoundTrip(s[9..17]);
    assert s[1..17] == s[1..9] + s[9..17];
  }

  /** 16 bytes, which read back as the elapsed time and as the time stamp cut to whole milliseconds. */
  method HeartbeatToByteArray(h: Heartbeat, perMilli: Resolution) returns (bytes: seq<byte>)
    ensures |bytes| == 16
    ensures BytesToInt64(bytes[..8]) == h.timeSinceLast
    ensures CutToward0(h.sentTimestamp, perMilli, BytesToInt64(bytes[8..]) * perMilli)
    ensures bytes == EncodeHeartbeat(h, perMilli)
  {
    bytes := seq(8 * 2, _ => 0);
    var sentTimestampCount := Truncated(h.sentTimestamp, perMilli);
    bytes := Int64ToBytes(h.timeSinceLast) + bytes[8..];
    bytes := bytes[..8] + Int64ToBytes(sentTimestampCount);
    FieldsApart(h.timeSinceLast, sentTimestampCount);
    TruncDivCuts(h.sentTimestamp, perMilli);
    assert bytes == TwoFields(h.timeSinceLast, sentTimestampCount) && bytes[8..] == bytes[8..16];
  }

  /**
   Throws exactly on fewer than 17 bytes, overflows exactly when the milliseconds do not fit the clock, and otherwise
   gives the Heartbeat in bytes 1 to 16. What toByteArray wrote is undone behind one byte, and always throws alone.
  */
  method HeartbeatFromByteArray(s: seq<byte>, perMilli: Resolution) returns (r: Result<Heartbeat>)
    ensures r == Failure(RuntimeError) <==> |s| < 17
    ensures r == Failure(OutOfRange) <==> |s| >= 17 && !FitsInt64(BytesToInt64(s[9..17]) * perMilli)
    ensures r.Failure? ==> r.error in {RuntimeError, OutOfRange}
    ensures r.Success? ==>
              && r.value.timeSinceLast == BytesToInt64(s[1..9])
              && r.value.sentTimestamp == BytesToInt64(s[9..17]) * perMilli
              && EncodeHeartbeat(r.value, perMilli) == s[1..17]
    ensures forall b, h :: s == [b] + EncodeHeartbeat(h, perMilli) ==>
                             && r.Success?
                             && r.value.timeSinceLast == h.timeSinceLast
                             && CutToward0(h.sentTimestamp, perMilli, r.value.sentTimestamp)
    ensures forall h :: s == EncodeHeartbeat(h, perMilli) ==> r == Failure(RuntimeError)
    ensures r == DecodeHeartbeat(s, perMilli)
  {
    forall b, h | s == [b] + EncodeHeartbeat(h, perMilli)
      ensures var d := DecodeHeartbeat(s, perMilli);
              && d.Success?
              && d.value.timeSinceLast == h.timeSinceLast
              && CutToward0(h.sentTimestamp, perMilli, d.value.sentTimestamp)
    {
      HeartbeatRoundTrip(b, h, perMilli);
    }
    if |s| < 8 * 2 + 1 {
      return Failure(RuntimeError);
    }
    var timeSinceLastCount := BytesToInt64(s[1..1 + 8]);
    var sentTimestampCount := BytesToInt64(s[1 + 8..1 + 8 + 8]);
    var sentTimestamp := sentTimestampCount * perMilli;
    if !FitsInt64(sentTimestamp) {
      return Failure(OutOfRange);
    }
    HeartbeatReencodes(s, perMilli);
    return Success(Heartbeat(timeSinceLastCount, sentTimestamp));
  }

  /**
   The encoder writes a byte less than the decoder wants: what it writes decodes exactly behind at least one further
   byte, if the time stamp then read fits the clock. Bytes after the 17th are never looked at.
  */
  lemma HeartbeatNeedsLead(lead: seq<byte>, h: Heartbeat, tail: seq<byte>, perMilli: Resolution)
    ensures |EncodeHeartbeat(h, perMilli)| == 16
    ensures var s := lead + EncodeHeartbeat(h, perMilli); var r := DecodeHeartbeat(s, perMilli);
            && (r == Failure(RuntimeError) <==> lead == [])
            && (lead != [] ==> (r.Success? <==> FitsInt64(BytesToInt64(s[9..17]) * perMilli)))
            && (lead != [] ==> r == DecodeHeartbeat(s[..17], perMilli) == DecodeHeartbeat(s + tail, perMilli))
  {
    var s := lead + EncodeHeartbeat(h, perMilli);
    if lead != [] {
      assert s[..17][1..9] == s[1..9] == (s + tail)[1..9];
      assert s[..17][9..17] == s[9..17] == (s + tail)[9..17];
    }
  }
}
