/** What the receive loop makes of the bytes of a datagram (rxLoop in src/internal/mactelnet/loop.go):
    this ties the messages of the transition systems to what is on the wire. */
module Demux {
  import opened Uint32
  import opened Protocol
  import opened Wrappers

  const P_DATA: byte := 1
  const P_ACK: byte := 2
  const P_END: byte := 255

  datatype Event = Ack(counter: uint32) | Data(counter: uint32, payload: seq<byte>) | End | Dropped

  function Heard(buf: seq<byte>, sessionKey: uint16, dir: Direction): Event {
    match DecodeHeader(buf, dir)
    case None => Dropped
    case Some((h, payload)) =>
      if h.sessionKey != sessionKey then Dropped
      else if h.ptype == P_ACK then Ack(h.counter)
      else if h.ptype == P_DATA then Data(h.counter, payload)
      else if h.ptype == P_END then End
      else Dropped
  }

  /** One turn of the loop, up to what is done with the event. */
  method Hear(buf: seq<byte>, sessionKey: uint16, dir: Direction) returns (event: Event)
    ensures event == Heard(buf, sessionKey, dir)
  {
    var n := |buf|;
    if n < HEADER_LEN {
      return Dropped;
    }
    var decoded := DecodeHeader(buf, dir);
    if decoded.None? {
      return Dropped;
    }
    var (h, payload) := decoded.value;
    if h.sessionKey != sessionKey {
      return Dropped;
    }
    if h.ptype == P_ACK {
      return Ack(h.counter);
    } else if h.ptype == P_DATA {
      return Data(h.counter, payload);
    } else if h.ptype == P_END {
      return End;
    }
    return Dropped;
  }

  /** Whether a datagram belongs to the session: it has a whole header, and the key where the direction
      has it, behind the client type on the way to the client and before it on the way to the server. */
  predicate InSession(buf: seq<byte>, sessionKey: uint16, dir: Direction) {
    && |buf| >= 22
    && (dir == ToClient ==> buf[16] as int * 0x100 + buf[17] == sessionKey)
    && (dir == ToServer ==> buf[14] as int * 0x100 + buf[15] == sessionKey)
  }

  predicate CounterIs(buf: seq<byte>, counter: uint32)
    requires |buf| >= 22
  {
    buf[18] as int * 0x100_0000 + buf[19] as int * 0x1_0000 + buf[20] as int * 0x100 + buf[21] == counter
  }

  /** What arbitrary bytes are taken for, by their offsets and the numbers of the types. The version, the
      addresses and the client type are not looked at. */
  lemma HeardIff(buf: seq<byte>, sessionKey: uint16, dir: Direction, counter: uint32, payload: seq<byte>)
    ensures var event, own := Heard(buf, sessionKey, dir), InSession(buf, sessionKey, dir);
            && (event == Data(counter, payload)
                <==> own && buf[1] == 1 && CounterIs(buf, counter) && payload == buf[22..])
            && (event == Ack(counter) <==> own && buf[1] == 2 && CounterIs(buf, counter))
            && (event == End <==> own && buf[1] == 255)
            && (event == Dropped <==> !(own && buf[1] in [1, 2, 255]))
  {
  }

  /** What was encoded for a session is heard in that session and in no other: DATA with its counter and
      payload, an ACK with its counter, an END, and nothing of any other type. */
  lemma HeardAsSent(h: Header, dir: Direction, payload: seq<byte>, sessionKey: uint16)
    ensures Heard(HeaderBytes(h, dir) + payload, sessionKey, dir)
         == if h.sessionKey != sessionKey then Dropped
            else if h.ptype == 1 then Data(h.counter, payload)
            else if h.ptype == 2 then Ack(h.counter)
            else if h.ptype == 255 then End
            else Dropped
  {
    HeaderRoundTrip(h, dir, payload);
  }
}
