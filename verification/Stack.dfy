/** The codecs on top of each other: records in a packet, the packet in a frame, and back. */
module Stack {
  import opened Uint32
  import opened Wrappers
  import opened Protocol
  import opened Limits
  import Frame

  /** Any records, behind any header, in a frame of the receiver's VLAN to it or to everybody, come
      out as they went in. */
  lemma RecordsThroughFrame(h: Header, dir: Direction, rs: seq<Record>, tail: seq<byte>,
                            src: MAC, dst: MAC, vlanID: uint16, ipID: uint16, own: MAC, vid: uint16)
    requires FramedRecords(rs) && !Framed(tail) && HEADER_LEN + |AllBytes(rs) + tail| <= MAX_PACKET
    requires vlanID != 0 && Frame.Vid(vlanID) == vid && src != own && (dst == own || dst == Frame.BROADCAST)
    ensures var packet := HeaderBytes(h, dir) + (AllBytes(rs) + tail);
            var received := Frame.Accepted(Frame.Cut(Frame.FrameBytes(src, dst, vlanID, ipID, packet)), own, vid);
            && received == Some(packet)
            && DecodeHeader(packet, dir) == Some((h.(version := PROTOCOL_VERSION), AllBytes(rs) + tail))
            && Records(AllBytes(rs) + tail) == rs + PlainTail(tail)
  {
    var payload := AllBytes(rs) + tail;
    var packet := HeaderBytes(h, dir) + payload;
    Through(src, dst, vlanID, ipID, packet, own, vid);
    HeaderRoundTrip(h, dir, payload);
    RecordsRoundTrip(rs, tail);
  }

  lemma Through(src: MAC, dst: MAC, vlanID: uint16, ipID: uint16, packet: seq<byte>, own: MAC, vid: uint16)
    requires |packet| <= MAX_PACKET
    requires vlanID != 0 && Frame.Vid(vlanID) == vid && src != own && (dst == own || dst == Frame.BROADCAST)
    ensures Frame.Accepted(Frame.Cut(Frame.FrameBytes(src, dst, vlanID, ipID, packet)), own, vid) == Some(packet)
  {
    Frame.FrameRoundTrip(src, dst, vlanID, ipID, packet, own, vid);
  }
}
