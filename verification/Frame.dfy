/** Ethernet frames: the builder and the hand-written parser of the VLAN-aware receiver
    (buildFrame and rawReceiver.Read in src/internal/mactelnet/conn.go). */
module Frame {
  import opened Uint32
  import opened Protocol
  import Checksum
  import opened Wrappers

  const ETH_P_8021Q: uint16 := 0x8100
  const ETH_P_IP: uint16 := 0x0800
  const UDP_PORT: uint16 := 20561
  const ETH_LEN := 14
  const IP_LEN := 20
  const UDP_LEN := 8
  const BROADCAST: MAC := [0xff, 0xff, 0xff, 0xff, 0xff, 0xff]

  /** The size of the buffer frames are received into. */
  const RECEIVE_BUFFER := 2048

  /** `uint16(n)` for a Go int that is not negative, and `vlanID & 0x0fff`. */
  function ToUint16(n: nat): uint16 {
    n % 0x1_0000
  }

  function Vid(tci: uint16): uint16 {
    tci % 0x1000
  }

  // ---------------------------------------------------------- frame on the wire

  function Tag(vlanID: uint16): (b: seq<byte>)
    ensures |b| == if vlanID == 0 then 0 else 4
  {
    if vlanID == 0 then [] else Be16(ETH_P_8021Q) + Be16(Vid(vlanID))
  }

  /** An IPv4 header (section 3.1 of RFC 791) from 0.0.0.0 to 255.255.255.255 with checksum `c`. */
  function IpFields(length: uint16, ipID: uint16, c: uint16): (b: seq<byte>)
    ensures |b| == IP_LEN
  {
    var (n, id, sum) := (Be16(length), Be16(ipID), Be16(c));
    [0x45, 0, n[0], n[1], id[0], id[1], 0, 0, 64, 17, sum[0], sum[1], 0, 0, 0, 0, 0xff, 0xff, 0xff, 0xff]
  }

  function IpHeader(length: uint16, ipID: uint16): (b: seq<byte>)
    ensures |b| == IP_LEN
  {
    IpFields(length, ipID, Checksum.Of(IpFields(length, ipID, 0)))
  }

  function UdpHeader(length: uint16): (b: seq<byte>)
    ensures |b| == UDP_LEN
  {
    var (port, n) := (Be16(UDP_PORT), Be16(length));
    [port[0], port[1], port[0], port[1], n[0], n[1], 0, 0]
  }

  function FrameBytes(src: MAC, dst: MAC, vlanID: uint16, ipID: uint16, payload: seq<byte>): seq<byte> {
    dst + src + Tag(vlanID) + Be16(ETH_P_IP)
    + IpHeader(ToUint16(IP_LEN + UDP_LEN + |payload|), ipID)
    + UdpHeader(ToUint16(UDP_LEN + |payload|)) + payload
  }

  // ------------------------------------------------- what a frame says, field by field

  /** The number in the two bytes at `i`, the high one first. */
  predicate NumberAt(b: seq<byte>, i: nat, n: int) {
    i + 2 <= |b| && b[i] as int * 0x100 + b[i + 1] == n
  }

  /** Version 4 without options, no fragment, TTL 64, UDP, from 0.0.0.0 to 255.255.255.255, and a
      checksum that verifies. */
  predicate IpMeans(h: seq<byte>, length: int, ipID: uint16) {
    && |h| == 20 && h[0] == 0x45 && h[1] == 0
    && NumberAt(h, 2, length) && NumberAt(h, 4, ipID) && NumberAt(h, 6, 0)
    && h[8] == 64 && h[9] == 17
    && h[12..16] == [0, 0, 0, 0] && h[16..20] == [255, 255, 255, 255]
    && Checksum.Of(h) == 0
  }

  /** Port 20561 on both sides and no checksum. */
  predicate UdpMeans(h: seq<byte>, length: int) {
    |h| == 8 && NumberAt(h, 0, 20561) && NumberAt(h, 2, 20561) && NumberAt(h, 4, length) && NumberAt(h, 6, 0)
  }

  /** The two addresses, the tag of a VLAN other than 0, and the type of IPv4. */
  predicate EthernetMeans(h: seq<byte>, src: MAC, dst: MAC, vlanID: uint16) {
    && |h| == (if vlanID == 0 then 14 else 18) && h[0..6] == dst && h[6..12] == src
    && (vlanID != 0 ==> NumberAt(h, 12, 0x8100) && NumberAt(h, 14, vlanID % 4096))
    && NumberAt(h, |h| - 2, 0x0800)
  }

  /** A frame, taken apart by its offsets. The IPv4 length is the number of bytes behind the Ethernet
      header, and the UDP length that number without the IP header; each is kept in 16 bits. */
  predicate FrameMeans(f: seq<byte>, src: MAC, dst: MAC, vlanID: uint16, ipID: uint16, payload: seq<byte>) {
    var off := if vlanID == 0 then 14 else 18;
    && |f| == off + 28 + |payload|
    && EthernetMeans(f[..off], src, dst, vlanID)
    && IpMeans(f[off..off + 20], (|f| - off) % 0x1_0000, ipID)
    && UdpMeans(f[off + 20..off + 28], (|f| - off - 20) % 0x1_0000)
    && f[off + 28..] == payload
  }

  // ---------------------------------------------------------------- the builder

  /** Go's copy into the buffer at `off`, with what lies before it already known. */
  method Put(buf: array<byte>, off: nat, b: seq<byte>, ghost written: seq<byte>)
    requires off + |b| <= buf.Length
    requires buf[..off] == written
    modifies buf
    ensures buf[..off + |b|] == written + b
    ensures forall i :: 0 <= i < buf.Length && !(off <= i < off + |b|) ==> buf[i] == old(buf[i])
  {
    forall i | 0 <= i < |b| { buf[off + i] := b[i]; }
    assert buf[..off + |b|] == buf[..off] + buf[off..off + |b|];
  }

  /** The fields in order; the checksum and the source address are left as they are. */
  method PutIpFields(pkt: array<byte>, off: nat, length: uint16, ipID: uint16)
    requires off + IP_LEN <= pkt.Length
    requires forall i :: off <= i < pkt.Length ==> pkt[i] == 0
    modifies pkt
    ensures pkt[off..off + IP_LEN] == IpFields(length, ipID, 0)
    ensures forall i :: 0 <= i < pkt.Length && !(off <= i < off + IP_LEN) ==> pkt[i] == old(pkt[i])
  {
    ghost var before := pkt[..off];
    Put(pkt, off, [0x45, 0], before);
    Put(pkt, off + 2, Be16(length), before + [0x45, 0]);
    Put(pkt, off + 4, Be16(ipID), before + [0x45, 0] + Be16(length));
    Put(pkt, off + 6, [0, 0, 64, 17], before + [0x45, 0] + Be16(length) + Be16(ipID));
    Put(pkt, off + 16, [0xff, 0xff, 0xff, 0xff], pkt[..off + 16]);
    FieldsInPlace(pkt[..], off, before, length, ipID);
  }

  lemma FieldsInPlace(now: seq<byte>, off: nat, before: seq<byte>, length: uint16, ipID: uint16)
    requires |before| == off && off + IP_LEN <= |now|
    requires now[..off + 10] == before + [0x45, 0] + Be16(length) + Be16(ipID) + [0, 0, 64, 17]
    requires forall i :: off + 10 <= i < off + 16 ==> now[i] == 0
    requires now[..off + IP_LEN] == now[..off + 16] + [0xff, 0xff, 0xff, 0xff]
    ensures now[off..off + IP_LEN] == IpFields(length, ipID, 0)
  {
    var fields := now[off..off + IP_LEN];
    assert fields[..10] == now[..off + 10][off..] == [0x45, 0] + Be16(length) + Be16(ipID) + [0, 0, 64, 17];
    assert fields[16..] == now[..off + IP_LEN][off + 16..] == [0xff, 0xff, 0xff, 0xff];
    assert fields == fields[..10] + [0, 0, 0, 0, 0, 0] + fields[16..];
  }

  lemma ChecksumField(length: uint16, ipID: uint16, c: uint16)
    ensures Checksum.WithWord(IpFields(length, ipID, 0), 5, c) == IpFields(length, ipID, c)
    ensures Be16At(IpFields(length, ipID, 0), 10) == 0
  {
  }

  /** The checksum is taken over the finished header while its own field is still zero. */
  method PutIpHeader(pkt: array<byte>, off: nat, length: uint16, ipID: uint16)
    requires off + IP_LEN <= pkt.Length
    requires forall i :: off <= i < pkt.Length ==> pkt[i] == 0
    modifies pkt
    ensures pkt[..off + IP_LEN] == old(pkt[..off]) + IpHeader(length, ipID)
    ensures forall i :: 0 <= i < pkt.Length && !(off <= i < off + IP_LEN) ==> pkt[i] == old(pkt[i])
  {
    PutIpFields(pkt, off, length, ipID);
    ghost var fields := pkt[off..off + IP_LEN];
    var c := Checksum.InternetChecksum(pkt[off..off + IP_LEN]);
    ChecksumField(length, ipID, c);
    pkt[off + 10], pkt[off + 11] := Be16(c)[0], Be16(c)[1];
    assert pkt[off..off + IP_LEN] == Checksum.WithWord(fields, 5, c);
    assert pkt[..off + IP_LEN] == pkt[..off] + pkt[off..off + IP_LEN];
    assert pkt[..off] == old(pkt[..off]);
  }

  method PutUdpHeader(pkt: array<byte>, off: nat, length: uint16)
    requires off + UDP_LEN <= pkt.Length
    requires forall i :: off <= i < pkt.Length ==> pkt[i] == 0
    modifies pkt
    ensures pkt[..off + UDP_LEN] == old(pkt[..off]) + UdpHeader(length)
    ensures forall i :: 0 <= i < pkt.Length && !(off <= i < off + UDP_LEN) ==> pkt[i] == old(pkt[i])
  {
    ghost var before := pkt[..off];
    Put(pkt, off, Be16(UDP_PORT), before);
    Put(pkt, off + 2, Be16(UDP_PORT), before + Be16(UDP_PORT));
    Put(pkt, off + 4, Be16(length), before + Be16(UDP_PORT) + Be16(UDP_PORT));
    assert pkt[off..off + 6] == Be16(UDP_PORT) + Be16(UDP_PORT) + Be16(length);
    assert pkt[off..off + UDP_LEN] == pkt[off..off + 6] + [0, 0];
    assert pkt[..off + UDP_LEN] == pkt[..off] + pkt[off..off + UDP_LEN];
    assert pkt[..off] == before;
  }

  /** The Ethernet header, tagged unless `vlanID` is 0. */
  method PutEthernet(pkt: array<byte>, src: MAC, dst: MAC, vlanID: uint16) returns (n: nat)
    requires pkt.Length >= ETH_LEN + |Tag(vlanID)|
    modifies pkt
    ensures n == ETH_LEN + |Tag(vlanID)|
    ensures pkt[..n] == dst + src + Tag(vlanID) + Be16(ETH_P_IP)
    ensures forall i :: n <= i < pkt.Length ==> pkt[i] == old(pkt[i])
  {
    Put(pkt, 0, dst, []);
    Put(pkt, 6, src, dst);
    if vlanID != 0 {
      Put(pkt, 12, Be16(ETH_P_8021Q), dst + src);
      Put(pkt, 14, Be16(Vid(vlanID)), dst + src + Be16(ETH_P_8021Q));
      assert dst + src + Be16(ETH_P_8021Q) + Be16(Vid(vlanID)) == dst + src + Tag(vlanID);
      Put(pkt, 16, Be16(ETH_P_IP), dst + src + Tag(vlanID));
      return 18;
    }
    assert dst + src == dst + src + Tag(vlanID);
    Put(pkt, 12, Be16(ETH_P_IP), dst + src + Tag(vlanID));
    return 14;
  }

  method BuildFrame(src: MAC, dst: MAC, vlanID: uint16, ipID: uint16, payload: seq<byte>) returns (pkt: array<byte>)
    ensures fresh(pkt)
    ensures pkt[..] == FrameBytes(src, dst, vlanID, ipID, payload)
    ensures FrameMeans(pkt[..], src, dst, vlanID, ipID, payload)
  {
    var tagLen := 0;
    if vlanID != 0 {
      tagLen := 4;
    }
    var total := ETH_LEN + tagLen + IP_LEN + UDP_LEN + |payload|;
    pkt := new byte[total](_ => 0);
    var ipOff := PutEthernet(pkt, src, dst, vlanID);
    PutIpHeader(pkt, ipOff, ToUint16(IP_LEN + UDP_LEN + |payload|), ipID);
    PutUdpHeader(pkt, ipOff + IP_LEN, ToUint16(UDP_LEN + |payload|));
    Put(pkt, ipOff + IP_LEN + UDP_LEN, payload, pkt[..ipOff + IP_LEN + UDP_LEN]);
    assert pkt[..] == pkt[..ipOff + IP_LEN + UDP_LEN + |payload|];
    assert FrameMeans(pkt[..], src, dst, vlanID, ipID, payload) by {
      FrameFields(src, dst, vlanID, ipID, payload);
    }
  }

  /** The IP header of every frame built carries a checksum that comes out 0. */
  lemma IpChecksumIsZero(length: uint16, ipID: uint16)
    ensures Checksum.Of(IpHeader(length, ipID)) == 0
  {
    var zeroed := IpFields(length, ipID, 0);
    var c := Checksum.Of(zeroed);
    ChecksumField(length, ipID, c);
    Checksum.StoredChecksum(zeroed, 5, c);
  }

  lemma IpHeaderMeans(length: uint16, ipID: uint16)
    ensures IpMeans(IpHeader(length, ipID), length, ipID)
  {
    IpChecksumIsZero(length, ipID);
  }

  lemma EthernetHeaderMeans(src: MAC, dst: MAC, vlanID: uint16, e: seq<byte>)
    requires e == dst + src + Tag(vlanID) + Be16(ETH_P_IP)
    ensures EthernetMeans(e, src, dst, vlanID)
  {
    assert e == dst + (src + (Tag(vlanID) + Be16(ETH_P_IP)));
  }

  lemma CutAtHeaders(f: seq<byte>, e: seq<byte>, ip: seq<byte>, udp: seq<byte>, payload: seq<byte>)
    requires f == e + ip + udp + payload
    ensures f[..|e|] == e && f[|e|..|e| + |ip|] == ip
    ensures f[|e| + |ip|..|e| + |ip| + |udp|] == udp && f[|e| + |ip| + |udp|..] == payload
  {
    assert f == e + (ip + (udp + payload));
  }

  /** Up to 65507 bytes of payload, the most a datagram can carry, the lengths are those of the frame. */
  lemma LengthsUncut(f: seq<byte>, src: MAC, dst: MAC, vlanID: uint16, ipID: uint16, payload: seq<byte>)
    requires FrameMeans(f, src, dst, vlanID, ipID, payload) && |payload| <= 65507
    ensures var off := if vlanID == 0 then 14 else 18;
            NumberAt(f, off + 2, |f| - off) && NumberAt(f, off + 24, |f| - off - 20)
  {
    var off := if vlanID == 0 then 14 else 18;
    var ip, udp := f[off..off + 20], f[off + 20..off + 28];
    assert f[off + 2] == ip[2] && f[off + 3] == ip[3] && f[off + 24] == udp[4] && f[off + 25] == udp[5];
  }

  /** What every frame built says, whether tagged or not. */
  lemma FrameFields(src: MAC, dst: MAC, vlanID: uint16, ipID: uint16, payload: seq<byte>)
    ensures FrameMeans(FrameBytes(src, dst, vlanID, ipID, payload), src, dst, vlanID, ipID, payload)
  {
    var f := FrameBytes(src, dst, vlanID, ipID, payload);
    var e := dst + src + Tag(vlanID) + Be16(ETH_P_IP);
    var length, udpLength := ToUint16(IP_LEN + UDP_LEN + |payload|), ToUint16(UDP_LEN + |payload|);
    CutAtHeaders(f, e, IpHeader(length, ipID), UdpHeader(udpLength), payload);
    EthernetHeaderMeans(src, dst, vlanID, e);
    IpHeaderMeans(length, ipID);
  }

  // ----------------------------------------------------------------- the parser

  /** Not one of our own frames, and sent to us or to everybody. */
  predicate Addressed(frame: seq<byte>, own: MAC)
    requires |frame| >= ETH_LEN
  {
    frame[6..12] != own && (frame[0..6] == own || frame[0..6] == BROADCAST)
  }

  /** Tagged with our VLAN and carrying IP. */
  predicate Tagged(frame: seq<byte>, vlanID: uint16)
    requires |frame| >= ETH_LEN
  {
    && Be16At(frame, 12) == ETH_P_8021Q
    && |frame| >= ETH_LEN + 4
    && Vid(Be16At(frame, 14)) == vlanID
    && Be16At(frame, 16) == ETH_P_IP
  }

  /** What an IPv4 packet at `off` carries, if that is a UDP datagram to the port. */
  function Datagram(frame: seq<byte>, off: nat): Option<seq<byte>> {
    if |frame| < off + IP_LEN || frame[off] / 0x10 != 4 then None
    else
      var ihl := frame[off] % 0x10 * 4;
      var udp := off + ihl;
      if ihl < IP_LEN || |frame| < udp + UDP_LEN || frame[off + 9] != 17 || Be16At(frame, udp + 2) != UDP_PORT then None
      else
        var length := Be16At(frame, udp + 4);
        if length < UDP_LEN || udp + length > |frame| then None
        else Some(frame[udp + UDP_LEN..udp + length])
  }

  function Accepted(frame: seq<byte>, own: MAC, vlanID: uint16): Option<seq<byte>> {
    if |frame| >= ETH_LEN && Addressed(frame, own) && Tagged(frame, vlanID) then Datagram(frame, 18) else None
  }

  // The pieces of a tagged frame; `ip` has its options with it.
  datatype Layout = Layout(dst: MAC, src: MAC, tci: uint16, ip: seq<byte>, udp: seq<byte>, payload: seq<byte>,
                           trailer: seq<byte>)

  /** The frame made of these pieces. */
  function Spelled(l: Layout): seq<byte> {
    l.dst + l.src + ([0x81, 0x00] + Be16(l.tci) + [0x08, 0x00]) + (l.ip + l.udp + l.payload + l.trailer)
  }

  /** A frame for the receiver: from another station, to this one or to all, in this VLAN; an IPv4 header
      as long as it says, with the protocol UDP; port 20561, and a UDP length that covers the payload. */
  predicate MeantFor(l: Layout, own: MAC, vlanID: uint16) {
    && l.src != own && (l.dst == own || l.dst == [255, 255, 255, 255, 255, 255])
    && l.tci % 4096 == vlanID
    && CarriesUdp(l.ip, l.udp, |l.payload|)
  }

  predicate CarriesUdp(ip: seq<byte>, udp: seq<byte>, n: nat) {
    && |ip| >= 20 && ip[0] / 16 == 4 && |ip| == ip[0] % 16 * 4 && ip[9] == 17
    && |udp| == 8 && NumberAt(udp, 2, 20561) && NumberAt(udp, 4, 8 + n)
  }

  /** `packet` is an IPv4 header, a UDP header, the payload, and anything. */
  ghost predicate Splits(packet: seq<byte>, ip: seq<byte>, udp: seq<byte>, payload: seq<byte>, trailer: seq<byte>) {
    CarriesUdp(ip, udp, |payload|) && packet == ip + udp + payload + trailer
  }

  /** What `Datagram` checks, on the bytes behind the Ethernet header. */
  lemma DatagramSplits(frame: seq<byte>, off: nat, payload: seq<byte>)
      returns (ip: seq<byte>, udp: seq<byte>, trailer: seq<byte>)
    requires Datagram(frame, off) == Some(payload)
    ensures Splits(frame[off..], ip, udp, payload, trailer)
  {
    var packet := frame[off..];
    var ihl := packet[0] % 16 * 4;
    var n := ihl + 8 + |payload|;
    ip, udp, trailer := packet[..ihl], packet[ihl..ihl + 8], packet[n..];
    assert packet[ihl + 8..n] == payload;
    assert packet == ip + packet[ihl..] && packet[ihl..] == udp + packet[ihl + 8..];
    assert packet[ihl + 8..] == payload + trailer;
    Regroup(ip, udp, payload + trailer);
    Regroup(ip + udp, payload, trailer);
  }

  lemma SplitIsDatagram(frame: seq<byte>, off: nat, ip: seq<byte>, udp: seq<byte>, payload: seq<byte>,
                        trailer: seq<byte>)
    requires off <= |frame| && Splits(frame[off..], ip, udp, payload, trailer)
    ensures Datagram(frame, off) == Some(payload)
  {
    var packet, at := frame[off..], |ip|;
    Regroup(ip + udp, payload, trailer);
    Regroup(ip, udp, payload + trailer);
    assert packet[0] == ip[0] && packet[9] == ip[9] && packet[at..] == udp + (payload + trailer);
    assert packet[at + 2] == udp[2] && packet[at + 3] == udp[3];
    assert packet[at + 4] == udp[4] && packet[at + 5] == udp[5];
    var n := at + 8 + |payload|;
    assert packet[at + 8..n] == payload;
    assert frame[off + at + 8..off + n] == payload;
  }

  lemma EthernetPieces(frame: seq<byte>, own: MAC, vlanID: uint16)
    requires |frame| >= 18 && Addressed(frame, own) && Tagged(frame, vlanID)
    ensures frame[6..12] != own && (frame[0..6] == own || frame[0..6] == [255, 255, 255, 255, 255, 255])
    ensures Be16At(frame, 14) % 4096 == vlanID
    ensures frame[..18] == frame[0..6] + frame[6..12] + ([0x81, 0x00] + Be16(Be16At(frame, 14)) + [0x08, 0x00])
  {
    Be16Inverse(Be16At(frame, 14), frame, 14);
    assert frame[12..14] == [0x81, 0x00] && frame[16..18] == [0x08, 0x00];
    assert frame[..18] == frame[0..6] + frame[6..12] + (frame[12..14] + frame[14..16] + frame[16..18]);
  }

  lemma PiecesOfEthernet(l: Layout, own: MAC, vlanID: uint16)
    requires MeantFor(l, own, vlanID)
    ensures var frame := Spelled(l);
            && |frame| >= 18 && Addressed(frame, own) && Tagged(frame, vlanID)
            && frame[18..] == l.ip + l.udp + l.payload + l.trailer
  {
    var frame, middle := Spelled(l), [0x81, 0x00] + Be16(l.tci) + [0x08, 0x00];
    var packet := l.ip + l.udp + l.payload + l.trailer;
    Regroup(l.dst + l.src, middle, packet);
    Regroup(l.dst, l.src, middle + packet);
    assert frame[0..6] == l.dst && frame[6..12] == l.src && frame[12..] == middle + packet;
    assert frame[12..18] == middle && frame[18..] == packet;
    assert frame[14..16] == middle[2..4] == Be16(l.tci);
    Be16Inverse(l.tci, frame, 14);
    assert frame[12] == middle[0] && frame[13] == middle[1] && frame[16] == middle[4] && frame[17] == middle[5];
  }

  /** The parser takes a payload out of a frame exactly if the frame can be taken to pieces that are meant
      for this receiver and have that payload. */
  lemma AcceptedIff(frame: seq<byte>, own: MAC, vlanID: uint16, payload: seq<byte>)
    ensures Accepted(frame, own, vlanID) == Some(payload)
       <==> exists l :: Spelled(l) == frame && MeantFor(l, own, vlanID) && l.payload == payload
  {
    if Accepted(frame, own, vlanID) == Some(payload) {
      var ip, udp, trailer := DatagramSplits(frame, 18, payload);
      EthernetPieces(frame, own, vlanID);
      var l := Layout(frame[0..6], frame[6..12], Be16At(frame, 14), ip, udp, payload, trailer);
      assert frame == frame[..18] + frame[18..];
      assert Spelled(l) == frame;
    }
    forall l | Spelled(l) == frame && MeantFor(l, own, vlanID) && l.payload == payload
      ensures Accepted(frame, own, vlanID) == Some(payload)
    {
      PiecesOfEthernet(l, own, vlanID);
      SplitIsDatagram(frame, 18, l.ip, l.udp, payload, l.trailer);
    }
  }

  /** What recvfrom leaves of a frame: as much as the buffer holds. */
  function Cut(frame: seq<byte>): seq<byte> {
    if |frame| <= RECEIVE_BUFFER then frame else frame[..RECEIVE_BUFFER]
  }

  /** One turn of the receive loop. Every index used lies within the bytes received. */
  method Inspect(frame: seq<byte>, own: MAC, vlanID: uint16) returns (payload: Option<seq<byte>>)
    ensures payload == Accepted(frame, own, vlanID)
  {
    var n := |frame|;
    if n < ETH_LEN {
      return None;
    }
    if frame[6..12] == own {
      return None;
    }
    if frame[0..6] != own && frame[0..6] != BROADCAST {
      return None;
    }
    var off := ETH_LEN;
    var etherType := Be16At(frame, 12);
    if etherType != ETH_P_8021Q {
      return None;
    }
    if n < off + 4 {
      return None;
    }
    var tci := Be16At(frame, off);
    if Vid(tci) != vlanID {
      return None;
    }
    etherType := Be16At(frame, off + 2);
    off := off + 4;
    if etherType != ETH_P_IP {
      return None;
    }
    payload := InspectDatagram(frame, off);
  }

  method InspectDatagram(frame: seq<byte>, off: nat) returns (payload: Option<seq<byte>>)
    ensures payload == Datagram(frame, off)
  {
    var n := |frame|;
    if n < off + IP_LEN || frame[off] / 0x10 != 4 {
      return None;
    }
    var ihl := frame[off] % 0x10 * 4;
    if ihl < IP_LEN || n < off + ihl {
      return None;
    }
    if frame[off + 9] != 17 {
      return None;
    }
    var udpOff := off + ihl;
    if n < udpOff + UDP_LEN {
      return None;
    }
    if Be16At(frame, udpOff + 2) != UDP_PORT {
      return None;
    }
    var udpLen := Be16At(frame, udpOff + 4);
    if udpLen < UDP_LEN || udpOff + udpLen > n {
      return None;
    }
    return Some(frame[udpOff + UDP_LEN..udpOff + udpLen]);
  }

  /** Go's copy into the whole buffer: as much as it holds. */
  method CopyOut(buf: array<byte>, b: seq<byte>) returns (copied: nat)
    modifies buf
    ensures copied == if |b| <= buf.Length then |b| else buf.Length
    ensures buf[..] == b[..copied] + old(buf[copied..])
  {
    copied := if |b| <= buf.Length then |b| else buf.Length;
    forall i | 0 <= i < copied { buf[i] := b[i]; }
  }

  /** Skips frames until one is accepted and copies as much of its payload as the caller's buffer
      holds; `ok` is false if the deadline comes first. */
  method Read(arrivals: seq<seq<byte>>, own: MAC, vlanID: uint16, buf: array<byte>)
    returns (used: nat, copied: nat, ok: bool)
    modifies buf
    ensures used <= |arrivals|
    ensures forall i :: 0 <= i < used && (ok ==> i < used - 1) ==> Accepted(Cut(arrivals[i]), own, vlanID) == None
    ensures !ok ==> used == |arrivals| && copied == 0 && buf[..] == old(buf[..])
    ensures ok ==> used > 0 && Accepted(Cut(arrivals[used - 1]), own, vlanID).Some?
    ensures ok ==>
      var payload := Accepted(Cut(arrivals[used - 1]), own, vlanID).value;
      && copied == (if |payload| <= buf.Length then |payload| else buf.Length)
      && buf[..] == payload[..copied] + old(buf[copied..])
  {
    used := 0;
    while used < |arrivals|
      invariant used <= |arrivals| && buf[..] == old(buf[..])
      invariant forall i :: 0 <= i < used ==> Accepted(Cut(arrivals[i]), own, vlanID) == None
    {
      var result := Inspect(Cut(arrivals[used]), own, vlanID);
      used := used + 1;
      if result.Some? {
        copied := CopyOut(buf, result.value);
        return used, copied, true;
      }
    }
    return used, 0, false;
  }

  // ----------------------------------------------------------------- round trip

  lemma SevenPieces(f: seq<byte>, dst: MAC, src: MAC, tag: seq<byte>, e: seq<byte>, ip: seq<byte>, udp: seq<byte>,
                    payload: seq<byte>)
    requires f == dst + src + tag + e + ip + udp + payload
    ensures f[0..6] == dst && f[6..12] == src && f[12..] == tag + e + (ip + udp + payload)
  {
    var rest := tag + e + (ip + udp + payload);
    assert f == dst + (src + rest);
  }

  lemma UdpFields(udp: seq<byte>, length: uint16)
    requires udp == UdpHeader(length)
    ensures Be16At(udp, 2) == UDP_PORT && Be16At(udp, 4) == length
  {
    Be16Inverse(UDP_PORT, udp, 2);
    Be16Inverse(length, udp, 4);
  }

  /** From index 18 on, `r` holds the first bytes of `packet`. */
  ghost predicate Holds(r: seq<byte>, packet: seq<byte>) {
    18 <= |r| <= 18 + |packet| && forall i :: 18 <= i < |r| ==> r[i] == packet[i - 18]
  }

  lemma PayloadHeld(r: seq<byte>, ip: seq<byte>, udp: seq<byte>, payload: seq<byte>, m: nat)
    requires |ip| == IP_LEN && |udp| == UDP_LEN && Holds(r, ip + udp + payload) && 46 + m <= |r|
    ensures r[46..46 + m] == payload[..m]
  {
    var packet := ip + udp + payload;
    forall i | 0 <= i < m
      ensures r[46 + i] == payload[i]
    {
      assert r[46 + i] == packet[28 + i];
    }
  }

  lemma HeadersHeld(r: seq<byte>, ip: seq<byte>, udp: seq<byte>, payload: seq<byte>, length: uint16)
    requires |r| >= 46 && Holds(r, ip + udp + payload)
    requires |ip| == IP_LEN && ip[0] == 0x45 && ip[9] == 17 && udp == UdpHeader(length)
    ensures r[18] == 0x45 && r[27] == 17 && Be16At(r, 40) == UDP_PORT && Be16At(r, 42) == length
  {
    var packet := ip + udp + payload;
    assert r[18] == packet[0] == ip[0] && r[27] == packet[9] == ip[9];
    UdpFields(udp, length);
    assert r[40] == packet[22] == udp[2] && r[41] == packet[23] == udp[3];
    assert r[42] == packet[24] == udp[4] && r[43] == packet[25] == udp[5];
  }

  /** What is read behind 18 bytes of Ethernet header, when the packet is as it was built but for
      its last bytes, which may be missing. */
  lemma DatagramRead(r: seq<byte>, ip: seq<byte>, udp: seq<byte>, payload: seq<byte>, length: uint16)
    requires |r| >= 46 && Holds(r, ip + udp + payload)
    requires |ip| == IP_LEN && ip[0] == 0x45 && ip[9] == 17 && udp == UdpHeader(length)
    ensures UDP_LEN <= length && 38 + length <= |r| ==>
      length - UDP_LEN <= |payload| && Datagram(r, 18) == Some(payload[..length - UDP_LEN])
    ensures !(UDP_LEN <= length && 38 + length <= |r|) ==> Datagram(r, 18) == None
  {
    HeadersHeld(r, ip, udp, payload, length);
    if UDP_LEN <= length && 38 + length <= |r| {
      PayloadHeld(r, ip, udp, payload, length - UDP_LEN);
    }
  }

  lemma FieldBehind(f: seq<byte>, off: nat, head: seq<byte>, w: uint16, rest: seq<byte>)
    requires off <= |f| && f[off..] == head + Be16(w) + rest
    ensures |f| >= off + |head| + 2 && Be16At(f, off + |head|) == w
  {
    var i, t := |head|, f[off..];
    assert f[off + i] == t[i] == Be16(w)[0] && f[off + i + 1] == t[i + 1] == Be16(w)[1];
    assert f[off + i..off + i + 2] == Be16(w);
    Be16Inverse(w, f, off + i);
  }

  lemma TagRead(f: seq<byte>, vlanID: uint16, rest: seq<byte>, vid: uint16)
    requires |f| >= ETH_LEN + 4 && f[12..] == Tag(vlanID) + Be16(ETH_P_IP) + rest
    ensures Tagged(f, vid) <==> vlanID != 0 && Vid(vlanID) == vid
  {
    if vlanID == 0 {
      FieldBehind(f, 12, [], ETH_P_IP, rest);
    } else {
      var tpid, tci, e := Be16(ETH_P_8021Q), Be16(Vid(vlanID)), Be16(ETH_P_IP);
      Regroup(tpid + tci, e, rest);
      Regroup(tpid, tci, e + rest);
      assert [] + tpid + (tci + (e + rest)) == tpid + (tci + (e + rest));
      FieldBehind(f, 12, [], ETH_P_8021Q, tci + (e + rest));
      FieldBehind(f, 12, tpid, Vid(vlanID), e + rest);
      FieldBehind(f, 12, tpid + tci, ETH_P_IP, rest);
    }
  }

  lemma CutKeepsTag(f: seq<byte>, vid: uint16)
    requires |f| >= ETH_LEN + 4
    ensures |Cut(f)| >= ETH_LEN + 4 && (Tagged(Cut(f), vid) <==> Tagged(f, vid))
  {
  }

  lemma CutHolds(f: seq<byte>, packet: seq<byte>)
    requires |f| >= 46 && f[18..] == packet
    ensures |Cut(f)| >= 46 && Holds(Cut(f), packet)
  {
    forall i | 18 <= i < |f|
      ensures f[i] == packet[i - 18]
    {
      assert f[18..][i - 18] == f[i];
    }
  }

  lemma SameSlice(r: seq<byte>, f: seq<byte>, i: nat, j: nat)
    requires i <= j <= |r| && j <= |f| && forall k :: i <= k < j ==> r[k] == f[k]
    ensures r[i..j] == f[i..j]
  {
  }

  lemma CutKeepsAddresses(f: seq<byte>, own: MAC)
    requires |f| >= ETH_LEN
    ensures |Cut(f)| >= ETH_LEN && (Addressed(Cut(f), own) <==> Addressed(f, own))
  {
    SameSlice(Cut(f), f, 0, 6);
    SameSlice(Cut(f), f, 6, 12);
  }

  /** How much payload a receiver gets of a frame built for `n` bytes: the UDP length field holds
      n + 8 mod 2^16, and what it announces must have been received. */
  function Delivered(n: nat): Option<nat> {
    var length := ToUint16(UDP_LEN + n);
    if length < UDP_LEN || 38 + length > RECEIVE_BUFFER then None else Some(length - UDP_LEN)
  }

  /** Up to 2002 bytes all of the payload; from there to 65527 bytes nothing. */
  lemma DeliveredIsAll(n: nat)
    ensures n <= 2002 ==> Delivered(n) == Some(n)
    ensures 2002 < n <= 65527 ==> Delivered(n) == None
    ensures Delivered(n).Some? ==> Delivered(n).value <= n && Delivered(n).value <= 2002
  {
  }

  /** The frame as received, read header by header. */
  lemma ReceivedFrame(src: MAC, dst: MAC, vlanID: uint16, ipID: uint16, payload: seq<byte>, own: MAC, vid: uint16)
    ensures var r := Cut(FrameBytes(src, dst, vlanID, ipID, payload));
            && |r| >= ETH_LEN + 4
            && (Addressed(r, own) <==> src != own && (dst == own || dst == BROADCAST))
            && (Tagged(r, vid) <==> vlanID != 0 && Vid(vlanID) == vid)
  {
    var f := FrameBytes(src, dst, vlanID, ipID, payload);
    var ip, udp := IpHeader(ToUint16(28 + |payload|), ipID), UdpHeader(ToUint16(UDP_LEN + |payload|));
    SevenPieces(f, dst, src, Tag(vlanID), Be16(ETH_P_IP), ip, udp, payload);
    TagRead(f, vlanID, ip + udp + payload, vid);
    CutKeepsTag(f, vid);
    CutKeepsAddresses(f, own);
  }

  lemma DropHead(f: seq<byte>, off: nat, head: seq<byte>, rest: seq<byte>)
    requires off <= |f| && f[off..] == head + rest
    ensures off + |head| <= |f| && f[off + |head|..] == rest
  {
    assert f[off + |head|..] == f[off..][|head|..];
  }

  lemma DatagramOf(f: seq<byte>, ip: seq<byte>, udp: seq<byte>, payload: seq<byte>, length: uint16)
    requires |f| == 46 + |payload| && f[18..] == ip + udp + payload
    requires |ip| == IP_LEN && ip[0] == 0x45 && ip[9] == 17
    requires udp == UdpHeader(length) && length == ToUint16(UDP_LEN + |payload|)
    ensures if Delivered(|payload|).Some?
            then Delivered(|payload|).value <= |payload|
                 && Datagram(Cut(f), 18) == Some(payload[..Delivered(|payload|).value])
            else Datagram(Cut(f), 18) == None
  {
    CutHolds(f, ip + udp + payload);
    DatagramRead(Cut(f), ip, udp, payload, length);
    ReceivedLength(|f|, |Cut(f)|, |payload|, length);
  }

  lemma ReceivedDatagram(src: MAC, dst: MAC, vlanID: uint16, ipID: uint16, payload: seq<byte>)
    requires vlanID != 0
    ensures var d := Datagram(Cut(FrameBytes(src, dst, vlanID, ipID, payload)), 18);
            if Delivered(|payload|).Some?
            then Delivered(|payload|).value <= |payload| && d == Some(payload[..Delivered(|payload|).value])
            else d == None
  {
    var f := FrameBytes(src, dst, vlanID, ipID, payload);
    var length := ToUint16(UDP_LEN + |payload|);
    var ip, udp := IpHeader(ToUint16(28 + |payload|), ipID), UdpHeader(length);
    SevenPieces(f, dst, src, Tag(vlanID), Be16(ETH_P_IP), ip, udp, payload);
    DropHead(f, 12, Tag(vlanID) + Be16(ETH_P_IP), ip + udp + payload);
    DatagramOf(f, ip, udp, payload, length);
  }

  /** A receiver takes a frame built for it exactly when the frame is tagged with its VLAN, comes
      from another address, goes to its own or to the broadcast address, and carries at most 2002
      bytes; it then gets exactly the payload. Any other frame it drops. Payloads too long for a
      datagram are included: of 65528 bytes and more it gets what the truncated length announces. */
  lemma FrameRoundTrip(src: MAC, dst: MAC, vlanID: uint16, ipID: uint16, payload: seq<byte>, own: MAC, vid: uint16)
    ensures Delivered(|payload|).Some? ==> Delivered(|payload|).value <= |payload|
    ensures Accepted(Cut(FrameBytes(src, dst, vlanID, ipID, payload)), own, vid)
         == if vlanID != 0 && Vid(vlanID) == vid && src != own && (dst == own || dst == BROADCAST)
               && Delivered(|payload|).Some?
            then Some(payload[..Delivered(|payload|).value])
            else None
    ensures |payload| <= 2002 ==> Delivered(|payload|) == Some(|payload|) && payload[..|payload|] == payload
    ensures 2002 < |payload| <= 65527 ==> Delivered(|payload|) == None
  {
    DeliveredIsAll(|payload|);
    ReceivedFrame(src, dst, vlanID, ipID, payload, own, vid);
    if vlanID != 0 {
      ReceivedDatagram(src, dst, vlanID, ipID, payload);
    }
  }

  lemma ReceivedLength(f: nat, r: nat, n: nat, length: uint16)
    requires f == 46 + n && r == (if f <= RECEIVE_BUFFER then f else RECEIVE_BUFFER) && length == ToUint16(UDP_LEN + n)
    ensures length < UDP_LEN || 38 + length > r <==> Delivered(n).None?
  {
  }

  /** VLANs are isolated whatever bytes arrive: no frame is taken by receivers of two VLANs, and
      nobody takes a frame that carries its own source address. */
  lemma OneVlanOnly(frame: seq<byte>, own1: MAC, vid1: uint16, own2: MAC, vid2: uint16)
    requires Accepted(frame, own1, vid1).Some? && Accepted(frame, own2, vid2).Some?
    ensures vid1 == vid2 < 0x1000 && Accepted(frame, own1, vid1) == Accepted(frame, own2, vid2)
    ensures own1 != own2 ==> frame[0..6] == BROADCAST
    ensures frame[6..12] != own1
  {
  }
}
