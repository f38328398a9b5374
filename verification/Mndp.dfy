/** MNDP announcements: a header and type-length-value records (src/internal/mndp/parser.go). */
module Mndp {
  import opened Uint32
  import opened Protocol
  import opened Wrappers
  import opened Limits

  const HEADER_SIZE := 4
  const MIN_PACKET := 18
  const MAX_STRING := 128

  const ADDRESS: uint16 := 0x0001
  const IDENTITY: uint16 := 0x0005
  const VERSION: uint16 := 0x0007
  const PLATFORM: uint16 := 0x0008
  const TIMESTAMP: uint16 := 0x000a
  const SOFT_ID: uint16 := 0x000b
  const HARDWARE: uint16 := 0x000c
  const IFNAME: uint16 := 0x0010

  /** Strings are kept as bytes and the uptime in nanoseconds. */
  datatype Packet = Packet(version: byte, ttl: byte, checksum: uint16, mac: MAC, identity: seq<byte>,
                           release: seq<byte>, platform: seq<byte>, uptime: nat, softID: seq<byte>,
                           hardware: seq<byte>, iface: seq<byte>)

  datatype Tlv = Tlv(typ: uint16, value: seq<byte>)

  // --------------------------------------------------------------- what it means

  function Clip(b: seq<byte>): (r: seq<byte>)
    ensures |r| < MAX_STRING && r <= b
    ensures |b| < MAX_STRING ==> r == b
    ensures |b| >= MAX_STRING ==> |r| == MAX_STRING - 1
  {
    if |b| >= MAX_STRING then b[..MAX_STRING - 1] else b
  }

  /** The value of the last record of a type that is not shorter than `least`. */
  function Last(rs: seq<Tlv>, typ: uint16, least: nat): (value: Option<seq<byte>>)
    ensures value.Some? ==> |value.value| >= least
  {
    if rs == [] then None
    else
      var t := rs[|rs| - 1];
      if t.typ == typ && |t.value| >= least then Some(t.value) else Last(rs[..|rs| - 1], typ, least)
  }

  function LastString(rs: seq<Tlv>, typ: uint16): seq<byte> {
    var value := Last(rs, typ, 0);
    if value.Some? then Clip(value.value) else []
  }

  /** Little-endian, unlike every other number on the wire. */
  function Le32(b: seq<byte>): uint32
    requires |b| >= 4
  {
    b[3] as int * 0x100_0000 + b[2] as int * 0x1_0000 + b[1] as int * 0x100 + b[0]
  }

  function LastUptime(rs: seq<Tlv>): (ns: nat)
    ensures ns <= 0x7fff_ffff_ffff_ffff
  {
    var value := Last(rs, TIMESTAMP, 4);
    if value.Some? then Le32(value.value) * SECOND else 0
  }

  function LastMac(rs: seq<Tlv>): MAC {
    var value := Last(rs, ADDRESS, 6);
    if value.Some? then value.value[..6] else [0, 0, 0, 0, 0, 0]
  }

  /** What an announcement says: for each attribute its last usable record counts. */
  function Meaning(version: byte, ttl: byte, checksum: uint16, rs: seq<Tlv>): Packet {
    Packet(version, ttl, checksum, LastMac(rs), LastString(rs, IDENTITY), LastString(rs, VERSION),
           LastString(rs, PLATFORM), LastUptime(rs), LastString(rs, SOFT_ID), LastString(rs, HARDWARE),
           LastString(rs, IFNAME))
  }

  // -------------------------------------------------------------- on the wire

  /** Whether the bytes begin with a whole record. */
  predicate Whole(p: seq<byte>) {
    |p| >= 4 && 4 + Be16At(p, 2) <= |p|
  }

  /** The records in order, up to the first one that is cut short. */
  function Tlvs(p: seq<byte>): seq<Tlv> {
    if !Whole(p) then []
    else
      var n := 4 + Be16At(p, 2);
      [Tlv(Be16At(p, 0), p[4..n])] + Tlvs(p[n..])
  }

  function Parsed(buf: seq<byte>): Option<Packet> {
    if |buf| < MIN_PACKET then None
    else Some(Meaning(buf[0], buf[1], Be16At(buf, 2), Tlvs(buf[HEADER_SIZE..])))
  }

  // ------------------------------------------------------------------- parsing

  lemma LastSnoc(rs: seq<Tlv>, t: Tlv, typ: uint16, least: nat)
    ensures Last(rs + [t], typ, least)
         == if t.typ == typ && |t.value| >= least then Some(t.value) else Last(rs, typ, least)
  {
    assert (rs + [t])[..|rs|] == rs;
  }

  /** One more record changes the field of its own attribute, and no other. */
  function WithRecord(pkt: Packet, t: Tlv): Packet {
    if t.typ == ADDRESS then if |t.value| >= 6 then pkt.(mac := t.value[..6]) else pkt
    else if t.typ == IDENTITY then pkt.(identity := Clip(t.value))
    else if t.typ == VERSION then pkt.(release := Clip(t.value))
    else if t.typ == PLATFORM then pkt.(platform := Clip(t.value))
    else if t.typ == TIMESTAMP then if |t.value| >= 4 then pkt.(uptime := Le32(t.value) * SECOND) else pkt
    else if t.typ == SOFT_ID then pkt.(softID := Clip(t.value))
    else if t.typ == HARDWARE then pkt.(hardware := Clip(t.value))
    else if t.typ == IFNAME then pkt.(iface := Clip(t.value))
    else pkt
  }

  lemma MeaningSnoc(version: byte, ttl: byte, checksum: uint16, rs: seq<Tlv>, t: Tlv)
    ensures Meaning(version, ttl, checksum, rs + [t]) == WithRecord(Meaning(version, ttl, checksum, rs), t)
  {
    LastSnoc(rs, t, ADDRESS, 6);
    LastSnoc(rs, t, IDENTITY, 0);
    LastSnoc(rs, t, VERSION, 0);
    LastSnoc(rs, t, PLATFORM, 0);
    LastSnoc(rs, t, TIMESTAMP, 4);
    LastSnoc(rs, t, SOFT_ID, 0);
    LastSnoc(rs, t, HARDWARE, 0);
    LastSnoc(rs, t, IFNAME, 0);
  }

  /** A string keeps its first 127 bytes. */
  lemma ClipMeans(b: seq<byte>)
    ensures Clip(b) == if |b| <= 127 then b else b[..127]
  {
  }

  /** The uptime is read with its lowest byte first. */
  lemma Le32Digits(n: uint32, rest: seq<byte>)
    ensures Le32([n % 256, n / 256 % 256, n / 65536 % 256, n / 16777216] + rest) == n
  {
    var turned := Be32(n);
    Be32Inverse(n, turned, 0);
    assert turned[0..4] == turned;
  }

  /** A packet without records says nothing but its header. */
  lemma NoRecords(version: byte, ttl: byte, checksum: uint16)
    ensures Meaning(version, ttl, checksum, [])
         == Packet(version, ttl, checksum, [0, 0, 0, 0, 0, 0], [], [], [], 0, [], [], [])
  {
  }

  /** Whether a record says something: it is of a known type, and long enough for an address or an uptime. */
  predicate Usable(typ: uint16, n: nat) {
    || (typ == 0x0001 && n >= 6) || (typ == 0x000a && n >= 4)
    || typ == 0x0005 || typ == 0x0007 || typ == 0x0008 || typ == 0x000b || typ == 0x000c || typ == 0x0010
  }

  /** What one more record changes, by its number: one field, for the value it holds. */
  lemma RecordMeans(version: byte, ttl: byte, checksum: uint16, rs: seq<Tlv>, typ: uint16, value: seq<byte>)
    ensures var was := Meaning(version, ttl, checksum, rs);
            var now := Meaning(version, ttl, checksum, rs + [Tlv(typ, value)]);
            var text := if |value| <= 127 then value else value[..127];
            && (typ == 0x0001 && |value| >= 6 ==> now == was.(mac := value[..6]))
            && (typ == 0x0005 ==> now == was.(identity := text))
            && (typ == 0x0007 ==> now == was.(release := text))
            && (typ == 0x0008 ==> now == was.(platform := text))
            && (typ == 0x000a && |value| >= 4 ==> now == was.(uptime := Le32(value) * 1_000_000_000))
            && (typ == 0x000b ==> now == was.(softID := text))
            && (typ == 0x000c ==> now == was.(hardware := text))
            && (typ == 0x0010 ==> now == was.(iface := text))
            && (!Usable(typ, |value|) ==> now == was)
  {
    MeaningSnoc(version, ttl, checksum, rs, Tlv(typ, value));
    ClipMeans(value);
  }

  lemma TlvsFirst(p: seq<byte>, done: seq<Tlv>)
    requires Whole(p)
    ensures var n := 4 + Be16At(p, 2);
            done + Tlvs(p) == done + [Tlv(Be16At(p, 0), p[4..n])] + Tlvs(p[n..])
  {
  }

  method ParsePacket(buf: seq<byte>) returns (result: Option<Packet>)
    ensures result == Parsed(buf)
  {
    if |buf| < MIN_PACKET {
      return None;
    }
    var pkt := Packet(buf[0], buf[1], Be16At(buf, 2), [0, 0, 0, 0, 0, 0], [], [], [], 0, [], [], []);
    var p := buf[HEADER_SIZE..];
    ghost var done: seq<Tlv> := [];
    while |p| >= 4
      invariant done + Tlvs(p) == Tlvs(buf[HEADER_SIZE..])
      invariant pkt == Meaning(buf[0], buf[1], Be16At(buf, 2), done)
      decreases |p|
    {
      var typ := Be16At(p, 0);
      var ln := Be16At(p, 2);
      if ln > |p| - 4 {
        break;
      }
      TlvsFirst(p, done);
      var val := p[4..4 + ln];
      p := p[4 + ln..];
      MeaningSnoc(buf[0], buf[1], Be16At(buf, 2), done, Tlv(typ, val));
      done := done + [Tlv(typ, val)];
      if typ == ADDRESS {
        if |val| >= 6 {
          pkt := pkt.(mac := val[..6]);
        }
      } else if typ == IDENTITY {
        pkt := pkt.(identity := Clip(val));
      } else if typ == VERSION {
        pkt := pkt.(release := Clip(val));
      } else if typ == PLATFORM {
        pkt := pkt.(platform := Clip(val));
      } else if typ == TIMESTAMP {
        if |val| >= 4 {
          pkt := pkt.(uptime := Le32(val) * SECOND);
        }
      } else if typ == SOFT_ID {
        pkt := pkt.(softID := Clip(val));
      } else if typ == HARDWARE {
        pkt := pkt.(hardware := Clip(val));
      } else if typ == IFNAME {
        pkt := pkt.(iface := Clip(val));
      }
    }
    assert done + [] == done;
    return Some(pkt);
  }

  // ---------------------------------------------------------------- round trips

  predicate Fits(rs: seq<Tlv>) {
    forall i :: 0 <= i < |rs| ==> |rs[i].value| < 0x1_0000
  }

  function TlvBytes(t: Tlv): seq<byte>
    requires |t.value| < 0x1_0000
  {
    Be16(t.typ) + Be16(|t.value|) + t.value
  }

  /** A record byte by byte: type and length, each with its high byte first, and the value. */
  lemma TlvLayout(t: Tlv)
    requires |t.value| < 0x1_0000
    ensures var b := TlvBytes(t);
            && |b| == 4 + |t.value| && b[4..] == t.value
            && b[0] as int * 0x100 + b[1] == t.typ && b[2] as int * 0x100 + b[3] == |t.value|
  {
    var b := TlvBytes(t);
    assert b[0] == Be16(t.typ)[0] && b[1] == Be16(t.typ)[1];
    assert b[2] == Be16(|t.value|)[0] && b[3] == Be16(|t.value|)[1];
  }

  function Encoded(rs: seq<Tlv>): seq<byte>
    requires Fits(rs)
  {
    if rs == [] then []
    else TlvBytes(rs[0]) + Encoded(rs[1..])
  }

  lemma TlvHeader(t: Tlv, rest: seq<byte>)
    requires |t.value| < 0x1_0000
    ensures var p := TlvBytes(t) + rest;
            && Be16At(p, 0) == t.typ && Be16At(p, 2) == |t.value|
            && p[4..4 + |t.value|] == t.value && p[4 + |t.value|..] == rest
  {
    var p := TlvBytes(t) + rest;
    assert p[0..2] == Be16(t.typ) && p[2..4] == Be16(|t.value|);
    Be16Inverse(t.typ, p, 0);
    Be16Inverse(|t.value|, p, 2);
  }

  lemma OneTlv(t: Tlv, rest: seq<byte>)
    requires |t.value| < 0x1_0000
    ensures Tlvs(TlvBytes(t) + rest) == [t] + Tlvs(rest)
  {
    TlvHeader(t, rest);
  }

  /** Records written back to back are read back, and a record cut short behind them is ignored. */
  lemma {:induction false} TlvRoundTrip(rs: seq<Tlv>, tail: seq<byte>)
    requires Fits(rs) && !Whole(tail)
    ensures Tlvs(Encoded(rs) + tail) == rs
  {
    if rs == [] {
      assert Encoded(rs) + tail == tail;
    } else {
      var first, others := rs[0], rs[1..];
      Regroup(TlvBytes(first), Encoded(others), tail);
      TlvRoundTrip(others, tail);
      OneTlv(first, Encoded(others) + tail);
      assert [first] + others == rs;
    }
  }

  /** An announcement of any records, with any cut-short record behind them, parses to what the
      records mean; shorter than 18 bytes it is refused. */
  lemma PacketRoundTrip(version: byte, ttl: byte, checksum: uint16, rs: seq<Tlv>, tail: seq<byte>)
    requires Fits(rs) && !Whole(tail)
    ensures var buf := [version, ttl] + Be16(checksum) + (Encoded(rs) + tail);
            Parsed(buf) == if |buf| < 18 then None else Some(Meaning(version, ttl, checksum, rs))
  {
    var buf := [version, ttl] + Be16(checksum) + (Encoded(rs) + tail);
    assert buf[2..4] == Be16(checksum) && buf[HEADER_SIZE..] == Encoded(rs) + tail;
    Be16Inverse(checksum, buf, 2);
    TlvRoundTrip(rs, tail);
  }

  lemma WholeIsTlv(p: seq<byte>, rest: seq<byte>)
    requires Whole(p) && rest == p[4 + Be16At(p, 2)..]
    ensures var value := p[4..4 + Be16At(p, 2)];
            p == TlvBytes(Tlv(Be16At(p, 0), value)) + rest
  {
    var n := 4 + Be16At(p, 2);
    Be16Inverse(Be16At(p, 0), p, 0);
    Be16Inverse(Be16At(p, 2), p, 2);
    CutInFour(p, 2, 4, n);
    assert p[..2] == p[0..2];
  }

  /** Whatever bytes arrive are the records read, written again, and then a record cut short. */
  lemma {:induction false} EveryBodyIsRecords(p: seq<byte>) returns (tail: seq<byte>)
    ensures Fits(Tlvs(p)) && !Whole(tail) && p == Encoded(Tlvs(p)) + tail
    decreases |p|
  {
    if !Whole(p) {
      return p;
    }
    var n := 4 + Be16At(p, 2);
    var rest := p[n..];
    tail := EveryBodyIsRecords(rest);
    WholeIsTlv(p, rest);
    var t := Tlv(Be16At(p, 0), p[4..n]);
    assert Tlvs(p)[0] == t && Tlvs(p)[1..] == Tlvs(rest);
    Regroup(TlvBytes(t), Encoded(Tlvs(rest)), tail);
  }
}
