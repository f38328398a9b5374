/** The wire codec: outer headers and control records (src/internal/mactelnet/protocol.go). */
module Protocol {
  import opened Uint32
  import opened Wrappers

  // ------------------------------------------------------- big-endian fields

  function Be16(n: uint16): seq<byte> {
    [n / 0x100, n % 0x100]
  }

  /** binary.BigEndian.Uint16 of the two bytes from `i` on. */
  function Be16At(b: seq<byte>, i: nat): uint16
    requires i + 2 <= |b|
  {
    b[i] as int * 0x100 + b[i + 1]
  }

  function Be32(n: uint32): seq<byte> {
    [n / 0x100_0000, n / 0x1_0000 % 0x100, n / 0x100 % 0x100, n % 0x100]
  }

  /** binary.BigEndian.Uint32 of the four bytes from `i` on. */
  function Be32At(b: seq<byte>, i: nat): uint32
    requires i + 4 <= |b|
  {
    b[i] as int * 0x100_0000 + b[i + 1] as int * 0x1_0000 + b[i + 2] as int * 0x100 + b[i + 3]
  }

  lemma Be16Inverse(n: uint16, b: seq<byte>, i: nat)
    requires i + 2 <= |b|
    ensures Be16At(b, i) == n <==> b[i..i + 2] == Be16(n)
  {
  }

  lemma DigitsOf(n: int, b0: int, b1: int, b2: int, b3: int)
    requires 0 <= b0 < 0x100 && 0 <= b1 < 0x100 && 0 <= b2 < 0x100 && 0 <= b3 < 0x100
    requires n == b0 * 0x100_0000 + b1 * 0x1_0000 + b2 * 0x100 + b3
    ensures n / 0x100_0000 == b0 && n / 0x1_0000 % 0x100 == b1 && n / 0x100 % 0x100 == b2 && n % 0x100 == b3
  {
    assert n / 0x100 == b0 * 0x1_0000 + b1 * 0x100 + b2;
    assert n / 0x1_0000 == b0 * 0x100 + b1;
  }

  lemma OfDigits(n: int)
    requires 0 <= n < TWO32
    ensures n == n / 0x100_0000 * 0x100_0000 + n / 0x1_0000 % 0x100 * 0x1_0000 + n / 0x100 % 0x100 * 0x100 + n % 0x100
  {
    var high := n / 0x100;
    var higher := high / 0x100;
    assert n == high * 0x100 + n % 0x100;
    assert high == higher * 0x100 + high % 0x100;
    assert higher == higher / 0x100 * 0x100 + higher % 0x100;
    assert n / 0x1_0000 == higher && n / 0x100_0000 == higher / 0x100;
  }

  lemma Be32Inverse(n: uint32, b: seq<byte>, i: nat)
    requires i + 4 <= |b|
    ensures Be32At(b, i) == n <==> b[i..i + 4] == Be32(n)
  {
    var w, d := b[i..i + 4], Be32(n);
    assert w[0] == b[i] && w[1] == b[i + 1] && w[2] == b[i + 2] && w[3] == b[i + 3];
    assert w == d <==> w[0] == d[0] && w[1] == d[1] && w[2] == d[2] && w[3] == d[3];
    DigitsOf(Be32At(b, i), w[0], w[1], w[2], w[3]);
    OfDigits(n);
  }

  lemma CutInFour(b: seq<byte>, i: nat, j: nat, k: nat)
    requires i <= j <= k <= |b|
    ensures b == b[..i] + b[i..j] + b[j..k] + b[k..]
  {
  }

  // ------------------------------------------------------------ outer header

  const HEADER_LEN := 22
  const PROTOCOL_VERSION: byte := 1
  const CLIENT_TYPE: seq<byte> := [0x00, 0x15]

  datatype Direction = ToServer | ToClient

  type MAC = s: seq<byte> | |s| == 6 witness [0, 0, 0, 0, 0, 0]

  datatype Header = Header(version: byte, ptype: byte, src: MAC, dst: MAC, sessionKey: uint16, counter: uint32)

  /** What `encode` puts on the wire. The version field is not looked at: the byte is constant. */
  function HeaderBytes(h: Header, dir: Direction): (b: seq<byte>)
    ensures |b| == HEADER_LEN
  {
    [PROTOCOL_VERSION, h.ptype] + h.src + h.dst
    + (if dir == ToClient then CLIENT_TYPE + Be16(h.sessionKey) else Be16(h.sessionKey) + CLIENT_TYPE)
    + Be32(h.counter)
  }

  /** Writes the header at the start of the buffer and leaves the rest alone. */
  method Encode(h: Header, buf: array<byte>, dir: Direction) returns (n: nat)
    requires buf.Length >= HEADER_LEN
    modifies buf
    ensures n == HEADER_LEN
    ensures buf[..] == HeaderBytes(h, dir) + old(buf[HEADER_LEN..])
  {
    buf[0], buf[1] := PROTOCOL_VERSION, h.ptype;
    forall i | 0 <= i < 6 { buf[2 + i] := h.src[i]; }
    forall i | 0 <= i < 6 { buf[8 + i] := h.dst[i]; }
    var seskeyOff, ctypeOff := 14, 16;
    if dir == ToClient {
      seskeyOff, ctypeOff := 16, 14;
    }
    forall i | 0 <= i < 2 { buf[seskeyOff + i] := Be16(h.sessionKey)[i]; }
    forall i | 0 <= i < 2 { buf[ctypeOff + i] := CLIENT_TYPE[i]; }
    forall i | 0 <= i < 4 { buf[18 + i] := Be32(h.counter)[i]; }
    return HEADER_LEN;
  }

  /** The header at the start of `buf` and the payload behind it; None if it is too short. */
  function DecodeHeader(buf: seq<byte>, dir: Direction): Option<(Header, seq<byte>)> {
    if |buf| < HEADER_LEN then None
    else
      var seskeyOff := if dir == ToClient then 16 else 14;
      Some((Header(buf[0], buf[1], buf[2..8], buf[8..14],
                   Be16At(buf, seskeyOff), Be32At(buf, 18)),
            buf[HEADER_LEN..]))
  }

  /** The header byte by byte: the version is 1, the addresses follow the type, source first; the
      session key comes before the client type 0x0015 on the way to the server and behind it on the
      way back; key and counter have their highest byte first. */
  lemma HeaderLayout(h: Header, dir: Direction)
    ensures var b := HeaderBytes(h, dir);
            && |b| == 22 && b[0] == 1 && b[1] == h.ptype && b[2..8] == h.src && b[8..14] == h.dst
            && (dir == ToServer ==> b[14] as int * 0x100 + b[15] == h.sessionKey && b[16] == 0x00 && b[17] == 0x15)
            && (dir == ToClient ==> b[14] == 0x00 && b[15] == 0x15 && b[16] as int * 0x100 + b[17] == h.sessionKey)
            && b[18] as int * 0x100_0000 + b[19] as int * 0x1_0000 + b[20] as int * 0x100 + b[21] == h.counter
  {
    OfDigits(h.counter);
  }

  /** Decoding gives back every field that is encoded, and the payload. */
  lemma HeaderRoundTrip(h: Header, dir: Direction, payload: seq<byte>)
    ensures DecodeHeader(HeaderBytes(h, dir) + payload, dir)
         == Some((h.(version := PROTOCOL_VERSION), payload))
  {
    var buf := HeaderBytes(h, dir) + payload;
    Be16Inverse(h.sessionKey, buf, if dir == ToClient then 16 else 14);
    Be32Inverse(h.counter, buf, 18);
    assert buf[2..8] == h.src && buf[8..14] == h.dst;
    assert buf[18..22] == Be32(h.counter);
    assert if dir == ToClient then buf[16..18] == Be16(h.sessionKey) else buf[14..16] == Be16(h.sessionKey);
    assert buf[HEADER_LEN..] == payload;
  }

  lemma AroundClientType(v: byte, t: byte, src: seq<byte>, dst: seq<byte>, key: seq<byte>, n: seq<byte>, p: seq<byte>)
    ensures [v, t] + src + dst + (CLIENT_TYPE + key) + n + p
         == [v] + ([t] + src + dst) + CLIENT_TYPE + (key + n + p)
    ensures [v, t] + src + dst + (key + CLIENT_TYPE) + n + p
         == [v] + ([t] + src + dst + key) + CLIENT_TYPE + (n + p)
  {
  }

  lemma SlicesMeet(buf: seq<byte>, i: nat, j: nat, k: nat)
    requires i <= j <= k <= |buf|
    ensures buf[i..j] + buf[j..k] == buf[i..k] && buf[j..k] + buf[k..] == buf[j..]
  {
  }

  lemma HeaderSlices(buf: seq<byte>)
    requires |buf| >= HEADER_LEN
    ensures [buf[1]] + buf[2..8] + buf[8..14] == buf[1..14]
    ensures [buf[1]] + buf[2..8] + buf[8..14] + buf[14..16] == buf[1..16]
    ensures buf[16..18] + buf[18..22] + buf[22..] == buf[16..]
    ensures buf[18..22] + buf[22..] == buf[18..]
  {
    assert [buf[1]] == buf[1..2];
    SlicesMeet(buf, 1, 2, 8);
    SlicesMeet(buf, 1, 8, 14);
    SlicesMeet(buf, 1, 14, 16);
    SlicesMeet(buf, 16, 18, 22);
    SlicesMeet(buf, 14, 16, 22);
    SlicesMeet(buf, 14, 18, 22);
  }

  /** What encoding a decoded packet gives: the packet with its constant bytes put right. */
  lemma EncodedAgain(buf: seq<byte>, dir: Direction)
    requires |buf| >= HEADER_LEN
    ensures var (h, payload) := DecodeHeader(buf, dir).value;
            var ctypeOff := if dir == ToClient then 14 else 16;
            HeaderBytes(h, dir) + payload == [PROTOCOL_VERSION] + buf[1..ctypeOff] + CLIENT_TYPE + buf[ctypeOff + 2..]
  {
    var (h, payload) := DecodeHeader(buf, dir).value;
    var seskeyOff := if dir == ToClient then 16 else 14;
    var key, n := buf[seskeyOff..seskeyOff + 2], buf[18..22];
    Be16Inverse(h.sessionKey, buf, seskeyOff);
    Be32Inverse(h.counter, buf, 18);
    HeaderBytesAre(h, dir, key, n);
    AroundClientType(PROTOCOL_VERSION, h.ptype, h.src, h.dst, key, n, payload);
    HeaderSlices(buf);
  }

  lemma HeaderBytesAre(h: Header, dir: Direction, key: seq<byte>, n: seq<byte>)
    requires key == Be16(h.sessionKey) && n == Be32(h.counter)
    ensures HeaderBytes(h, dir)
         == [PROTOCOL_VERSION, h.ptype] + h.src + h.dst
            + (if dir == ToClient then CLIENT_TYPE + key else key + CLIENT_TYPE) + n
  {
  }

  /** Encoding gives back a received packet whose version and client-type bytes are the constants,
      and no other packet. */
  lemma HeaderRoundTripBack(buf: seq<byte>, dir: Direction)
    requires |buf| >= HEADER_LEN
    ensures var (h, payload) := DecodeHeader(buf, dir).value;
            var ctypeOff := if dir == ToClient then 14 else 16;
            HeaderBytes(h, dir) + payload == buf
            <==> buf[0] == PROTOCOL_VERSION && buf[ctypeOff..ctypeOff + 2] == CLIENT_TYPE
  {
    var ctypeOff := if dir == ToClient then 14 else 16;
    EncodedAgain(buf, dir);
    StampedIsSame(buf, ctypeOff);
  }

  lemma StampedIsSame(buf: seq<byte>, i: nat)
    requires 1 <= i && i + 2 <= |buf|
    ensures [PROTOCOL_VERSION] + buf[1..i] + CLIENT_TYPE + buf[i + 2..] == buf
       <==> buf[0] == PROTOCOL_VERSION && buf[i..i + 2] == CLIENT_TYPE
  {
    CutInFour(buf, 1, i, i + 2);
    assert buf[..1] == [buf[0]];
    FourPieces([], [PROTOCOL_VERSION], [buf[0]], buf[1..i], CLIENT_TYPE + buf[i + 2..], buf[i..i + 2] + buf[i + 2..]);
    FourPieces([], CLIENT_TYPE, buf[i..i + 2], buf[i + 2..], [], []);
    Regroup([PROTOCOL_VERSION] + buf[1..i], CLIENT_TYPE, buf[i + 2..]);
    Regroup([buf[0]] + buf[1..i], buf[i..i + 2], buf[i + 2..]);
  }

  /** Reading a packet as if it went the other way mistakes the client type for the session key. */
  lemma WrongDirection(h: Header, dir: Direction, other: Direction)
    requires dir != other
    ensures DecodeHeader(HeaderBytes(h, dir), other).value.0.sessionKey == 0x0015
  {
    var buf := HeaderBytes(h, dir);
    assert if other == ToClient then buf[16..18] == CLIENT_TYPE else buf[14..16] == CLIENT_TYPE;
  }

  // --------------------------------------------------------- control records

  const CP_HEADER_LEN := 9
  const CP_MAGIC: seq<byte> := [0x56, 0x34, 0x12, 0xff]

  type cpType = x: int | -128 <= x < 128

  const PLAIN_DATA: cpType := -1
  const BEGIN_AUTH: cpType := 0
  const PASS_SALT: cpType := 1
  const PASSWORD: cpType := 2
  const USERNAME: cpType := 3
  const TERM_TYPE: cpType := 4
  const TERM_WIDTH: cpType := 5
  const TERM_HEIGHT: cpType := 6
  const END_AUTH: cpType := 9

  /** `byte(ct)` and `int8(b)`. */
  function TypeByte(ct: cpType): byte {
    ct % 0x100
  }

  function ByteType(b: byte): cpType {
    if b < 0x80 then b else b - 0x100
  }

  datatype Record = Record(ct: cpType, body: seq<byte>)

  function ControlHeader(ct: cpType, n: uint32): (h: seq<byte>)
    ensures |h| == CP_HEADER_LEN
  {
    CP_MAGIC + [TypeByte(ct)] + Be32(n)
  }

  /** One record as written: plain data bare, anything else behind a nine-byte header. */
  function RecordBytes(r: Record): seq<byte> {
    if r.ct == PLAIN_DATA then r.body else ControlHeader(r.ct, ToUint32(|r.body|)) + r.body
  }

  /** A framed record byte by byte: magic, type, length with its highest byte first, body. */
  lemma RecordLayout(r: Record)
    requires r.ct != PLAIN_DATA && |r.body| < TWO32
    ensures var b := RecordBytes(r);
            && |b| == 9 + |r.body| && b[..4] == [0x56, 0x34, 0x12, 0xff]
            && b[4] == (if r.ct < 0 then r.ct + 256 else r.ct)
            && b[5] as int * 0x100_0000 + b[6] as int * 0x1_0000 + b[7] as int * 0x100 + b[8] == |r.body|
            && b[9..] == r.body
  {
    OfDigits(|r.body|);
  }

  function AllBytes(rs: seq<Record>): seq<byte> {
    if rs == [] then [] else RecordBytes(rs[0]) + AllBytes(rs[1..])
  }

  /** A buffer is what it was, except for what was written over it from `off` on. */
  lemma Overwritten(now: seq<byte>, before: seq<byte>, off: nat, written: seq<byte>)
    requires |now| == |before| && off + |written| <= |now|
    requires forall i :: 0 <= i < |written| ==> now[off + i] == written[i]
    requires forall i :: 0 <= i < |now| && !(off <= i < off + |written|) ==> now[i] == before[i]
    ensures now == before[..off] + written + before[off + |written|..]
  {
  }

  lemma WrittenBehind(now: seq<byte>, between: seq<byte>, before: seq<byte>, off: nat,
                      head: seq<byte>, body: seq<byte>)
    requires off + |head| + |body| <= |before|
    requires between == before[..off] + head + before[off + |head|..]
    requires now == between[..off + |head|] + body + between[off + |head| + |body|..]
    ensures now == before[..off] + (head + body) + before[off + |head| + |body|..]
  {
    assert between[..off + |head|] == before[..off] + head;
    assert between[off + |head| + |body|..] == before[off + |head| + |body|..];
    Regroup(before[..off], head, body);
  }

  /** Go's copy into the buffer at `off`. */
  method PutBytes(buf: array<byte>, off: nat, b: seq<byte>)
    requires off + |b| <= buf.Length
    modifies buf
    ensures buf[..] == old(buf[..off]) + b + old(buf[off + |b|..])
  {
    ghost var before := buf[..];
    forall i | 0 <= i < |b| { buf[off + i] := b[i]; }
    Overwritten(buf[..], before, off, b);
  }

  method PutControlHeader(buf: array<byte>, off: nat, ct: cpType, n: uint32)
    requires off + CP_HEADER_LEN <= buf.Length
    modifies buf
    ensures buf[..] == old(buf[..off]) + ControlHeader(ct, n) + old(buf[off + CP_HEADER_LEN..])
  {
    ghost var before := buf[..];
    forall i | 0 <= i < 4 { buf[off + i] := CP_MAGIC[i]; }
    buf[off + 4] := TypeByte(ct);
    forall i | 0 <= i < 4 { buf[off + 5 + i] := Be32(n)[i]; }
    Overwritten(buf[..], before, off, ControlHeader(ct, n));
  }

  /** Writes one record into the buffer from `off` on; without room it writes nothing. */
  method EncodeControl(buf: array<byte>, off: nat, ct: cpType, body: seq<byte>) returns (n: nat, ok: bool)
    requires off <= buf.Length
    modifies buf
    ensures ok <==> off + |RecordBytes(Record(ct, body))| <= buf.Length
    ensures ok ==> n == |RecordBytes(Record(ct, body))|
    ensures ok ==> buf[..] == old(buf[..off]) + RecordBytes(Record(ct, body)) + old(buf[off + n..])
    ensures !ok ==> n == 0 && buf[..] == old(buf[..])
  {
    if ct == PLAIN_DATA {
      if |body| > buf.Length - off {
        return 0, false;
      }
      PutBytes(buf, off, body);
      return |body|, true;
    }
    var need := CP_HEADER_LEN + |body|;
    if need > buf.Length - off {
      return 0, false;
    }
    ghost var before, header := buf[..], ControlHeader(ct, ToUint32(|body|));
    PutControlHeader(buf, off, ct, ToUint32(|body|));
    ghost var between := buf[..];
    PutBytes(buf, off + CP_HEADER_LEN, body);
    WrittenBehind(buf[..], between, before, off, header, body);
    return need, true;
  }

  /** Whether the bytes start with a control header. */
  predicate Framed(payload: seq<byte>) {
    && |payload| >= CP_HEADER_LEN
    && payload[0] == CP_MAGIC[0] && payload[1] == CP_MAGIC[1]
    && payload[2] == CP_MAGIC[2] && payload[3] == CP_MAGIC[3]
  }

  /** The length a control header announces, cut to what is there. */
  function BodyLength(payload: seq<byte>): (n: nat)
    requires Framed(payload)
    ensures n <= |payload| - CP_HEADER_LEN
  {
    var ln := Be32At(payload, 5);
    var available := |payload| - CP_HEADER_LEN;
    if available < ln then available else ln
  }

  /** The records a callback that never stops is given, in order. */
  function Records(payload: seq<byte>): seq<Record> {
    if payload == [] then []
    else if !Framed(payload) then [Record(PLAIN_DATA, payload)]
    else
      var body := payload[CP_HEADER_LEN..];
      var n := BodyLength(payload);
      [Record(ByteType(payload[4]), body[..n])] + Records(body[n..])
  }

  lemma RecordsFramed(payload: seq<byte>, body: seq<byte>)
    requires Framed(payload) && body == payload[CP_HEADER_LEN..]
    ensures var n := BodyLength(payload);
            Records(payload) == [Record(ByteType(payload[4]), body[..n])] + Records(body[n..])
  {
  }

  method IterateControl(payload: seq<byte>) returns (records: seq<Record>)
    ensures records == Records(payload)
  {
    records := [];
    var rest := payload;
    while |rest| > 0
      invariant records + Records(rest) == Records(payload)
      decreases |rest|
    {
      if !Framed(rest) {
        records := records + [Record(PLAIN_DATA, rest)];
        return;
      }
      var ct := ByteType(rest[4]);
      var ln: nat := Be32At(rest, 5);
      var body := rest[CP_HEADER_LEN..];
      RecordsFramed(rest, body);
      if |body| < ln {
        ln := |body|;
      }
      Regroup(records, [Record(ct, body[..ln])], Records(body[ln..]));
      records := records + [Record(ct, body[..ln])];
      rest := body[ln..];
    }
  }

  // ------------------------------------------------------------- round trips

  predicate FramedRecords(rs: seq<Record>) {
    forall i :: 0 <= i < |rs| ==> rs[i].ct != PLAIN_DATA
  }

  lemma HeaderThen(ct: cpType, n: uint32, body: seq<byte>)
    ensures var payload := ControlHeader(ct, n) + body;
            && Framed(payload) && ByteType(payload[4]) == ct && Be32At(payload, 5) == n
            && payload[CP_HEADER_LEN..] == body
  {
    var payload := ControlHeader(ct, n) + body;
    assert payload[5..9] == Be32(n);
    Be32Inverse(n, payload, 5);
  }

  lemma FirstRecord(ct: cpType, n: uint32, body: seq<byte>)
    requires n <= |body| && CP_HEADER_LEN + |body| < TWO32
    ensures Records(ControlHeader(ct, n) + body) == [Record(ct, body[..n])] + Records(body[n..])
  {
    HeaderThen(ct, n, body);
    RecordsFramed(ControlHeader(ct, n) + body, body);
  }

  lemma OneRecord(r: Record, rest: seq<byte>)
    requires r.ct != PLAIN_DATA && |RecordBytes(r) + rest| < TWO32
    ensures Records(RecordBytes(r) + rest) == [r] + Records(rest)
  {
    Regroup(ControlHeader(r.ct, |r.body|), r.body, rest);
    FirstRecord(r.ct, |r.body|, r.body + rest);
  }

  /** What reading makes of a tail that is not framed. */
  function PlainTail(tail: seq<byte>): seq<Record> {
    if tail == [] then [] else [Record(PLAIN_DATA, tail)]
  }

  lemma AllBytesCons(r: Record, rs: seq<Record>)
    ensures AllBytes([r] + rs) == RecordBytes(r) + AllBytes(rs)
  {
    var all := [r] + rs;
    assert all[0] == r && all[1..] == rs;
  }

  /** Records written back to back are read back, and an unframed tail comes after them as plain
      data. The bound is that of a uint32 length; a UDP datagram is far below it. */
  lemma {:induction false} RecordsRoundTrip(rs: seq<Record>, tail: seq<byte>)
    requires FramedRecords(rs) && !Framed(tail) && |AllBytes(rs) + tail| < TWO32
    ensures Records(AllBytes(rs) + tail) == rs + PlainTail(tail)
  {
    if rs == [] {
      assert AllBytes(rs) + tail == tail && rs + PlainTail(tail) == PlainTail(tail);
    } else {
      var first, others := rs[0], rs[1..];
      assert rs == [first] + others;
      AllBytesCons(first, others);
      Regroup(RecordBytes(first), AllBytes(others), tail);
      RecordsRoundTrip(others, tail);
      OneRecord(first, AllBytes(others) + tail);
      Regroup([first], others, PlainTail(tail));
    }
  }

  lemma RecordsAlone(rs: seq<Record>)
    requires FramedRecords(rs) && |AllBytes(rs)| < TWO32
    ensures Records(AllBytes(rs)) == rs
  {
    RecordsRoundTrip(rs, []);
    assert AllBytes(rs) + [] == AllBytes(rs) && rs + [] == rs;
  }

  // ------------------------------------------------ arbitrary received bytes

  /** The bytes a record takes up in the payload it was read from. */
  function Span(payload: seq<byte>): nat
    requires payload != []
  {
    if Framed(payload) then CP_HEADER_LEN + BodyLength(payload) else |payload|
  }

  /** A wire type that reads as plain data. */
  predicate PlainTypeOnWire(payload: seq<byte>)
    decreases |payload|
  {
    && payload != [] && Framed(payload)
    && (payload[4] == 0xff || PlainTypeOnWire(payload[Span(payload)..]))
  }

  /** The last record announces more than there is. */
  predicate Clamped(payload: seq<byte>)
    decreases |payload|
  {
    && payload != [] && Framed(payload)
    && (Be32At(payload, 5) > |payload| - CP_HEADER_LEN || Clamped(payload[Span(payload)..]))
  }

  /** Where the last record starts. */
  function LastStart(payload: seq<byte>): (n: nat)
    requires payload != []
    ensures n < |payload|
    decreases |payload|
  {
    var rest := payload[Span(payload)..];
    if rest == [] then 0 else Span(payload) + LastStart(rest)
  }

  lemma SliceOfDrop(b: seq<byte>, i: nat, n: nat)
    requires i + n <= |b|
    ensures b[i..][..n] == b[i..i + n] && b[i..][n..] == b[i + n..]
  {
  }

  /** The first record of a framed payload, and the rest. */
  lemma FirstRead(payload: seq<byte>)
    requires Framed(payload)
    ensures Records(payload)
         == [Record(ByteType(payload[4]), payload[9..Span(payload)])] + Records(payload[Span(payload)..])
  {
    RecordsFramed(payload, payload[9..]);
    SliceOfDrop(payload, 9, BodyLength(payload));
  }

  /** The header bytes read before each record; none before bare bytes. */
  function Headers(payload: seq<byte>): seq<seq<byte>>
    decreases |payload|
  {
    if payload == [] then []
    else if !Framed(payload) then [[]]
    else [payload[..CP_HEADER_LEN]] + Headers(payload[Span(payload)..])
  }

  function Weave(headers: seq<seq<byte>>, rs: seq<Record>): seq<byte>
    requires |headers| == |rs|
  {
    if rs == [] then [] else headers[0] + rs[0].body + Weave(headers[1..], rs[1..])
  }

  lemma WeaveCons(header: seq<byte>, headers: seq<seq<byte>>, r: Record, rs: seq<Record>)
    requires |headers| == |rs|
    ensures Weave([header] + headers, [r] + rs) == header + r.body + Weave(headers, rs)
  {
    var hs, all := [header] + headers, [r] + rs;
    assert hs[0] == header && hs[1..] == headers && all[0] == r && all[1..] == rs;
  }

  /** Whatever bytes arrive, whatever their types and lengths: the headers and bodies read are
      consecutive slices that make up the payload, none missing and none overlapping. */
  lemma {:induction false} SlicesPartition(payload: seq<byte>)
    ensures |Headers(payload)| == |Records(payload)|
    ensures Weave(Headers(payload), Records(payload)) == payload
    decreases |payload|
  {
    if payload != [] && Framed(payload) {
      var rest := payload[Span(payload)..];
      var r := Record(ByteType(payload[4]), payload[9..Span(payload)]);
      SlicesPartition(rest);
      FirstRead(payload);
      WeaveCons(payload[..9], Headers(rest), r, Records(rest));
      ThreePieces(payload, 9, Span(payload));
    }
  }

  lemma ThreePieces(b: seq<byte>, i: nat, j: nat)
    requires i <= j <= |b|
    ensures b == b[..i] + b[i..j] + b[j..]
  {
  }

  lemma TypeInverse(b: byte)
    ensures TypeByte(ByteType(b)) == b
    ensures ByteType(b) == PLAIN_DATA <==> b == 0xff
  {
  }

  /** Writing the first record again gives the bytes it was read from, but for a clamped length. */
  lemma FirstAgain(payload: seq<byte>, r: Record)
    requires payload != [] && |payload| < TWO32 && Framed(payload) && payload[4] != 0xff
    requires r == Record(ByteType(payload[4]), payload[9..Span(payload)])
    ensures RecordBytes(r) == payload[..5] + Be32(|r.body|) + payload[9..Span(payload)]
  {
    TypeInverse(payload[4]);
    assert payload[..5] == CP_MAGIC + [payload[4]];
  }

  lemma WriteAgain(payload: seq<byte>)
    requires payload != [] && |payload| < TWO32 && Framed(payload) && payload[4] != 0xff
    ensures AllBytes(Records(payload)) == payload[..5] + Be32(BodyLength(payload)) + payload[9..Span(payload)]
                                          + AllBytes(Records(payload[Span(payload)..]))
  {
    var r := Record(ByteType(payload[4]), payload[9..Span(payload)]);
    var rest := payload[Span(payload)..];
    FirstAgain(payload, r);
    FirstRead(payload);
    AllBytesCons(r, Records(rest));
  }

  lemma LengthAgain(payload: seq<byte>)
    requires |payload| < TWO32 && Framed(payload)
    ensures Be32(BodyLength(payload)) == payload[5..9] <==> Be32At(payload, 5) <= |payload| - CP_HEADER_LEN
  {
    Be32Inverse(BodyLength(payload), payload, 5);
  }

  lemma FourPieces(a: seq<byte>, l1: seq<byte>, l2: seq<byte>, b: seq<byte>, r1: seq<byte>, r2: seq<byte>)
    requires |l1| == |l2| && |r1| == |r2|
    ensures a + l1 + b + r1 == a + l2 + b + r2 <==> l1 == l2 && r1 == r2
  {
    var x, y := a + l1 + b + r1, a + l2 + b + r2;
    assert x[|a|..|a + l1|] == l1 && y[|a|..|a + l1|] == l2;
    assert x[|a + l1 + b|..] == r1 && y[|a + l1 + b|..] == r2;
  }

  /** Whether `x` and `y` are equally long and equal outside the four bytes from `at + 5` on. */
  ghost predicate SameButLength(x: seq<byte>, y: seq<byte>, at: nat) {
    && |x| == |y|
    && forall i :: 0 <= i < |x| && !(at + 5 <= i < at + 9) ==> x[i] == y[i]
  }

  lemma SameButLengthLater(a: seq<byte>, x: seq<byte>, y: seq<byte>, at: nat)
    requires SameButLength(x, y, at)
    ensures SameButLength(a + x, a + y, |a| + at)
  {
    forall i | 0 <= i < |a + x| && !(|a| + at + 5 <= i < |a| + at + 9)
      ensures (a + x)[i] == (a + y)[i]
    {
      if i >= |a| {
        assert x[i - |a|] == y[i - |a|];
      }
    }
  }

  lemma PiecesAgain(head: seq<byte>, l1: seq<byte>, l2: seq<byte>, body: seq<byte>, r1: seq<byte>, r2: seq<byte>)
    requires |head| == 5 && |l1| == |l2| == 4 && |r1| == |r2|
    requires r2 == [] || l1 == l2
    ensures r2 == [] ==> SameButLength(head + l1 + body + r1, head + l2 + body + r2, 0)
    ensures forall at :: r2 != [] && SameButLength(r1, r2, at) ==>
      SameButLength(head + l1 + body + r1, head + l2 + body + r2, |head + l2 + body| + at)
  {
    if r2 != [] {
      forall at | SameButLength(r1, r2, at)
        ensures SameButLength(head + l1 + body + r1, head + l2 + body + r2, |head + l2 + body| + at)
      {
        SameButLengthLater(head + l1 + body, r1, r2, at);
      }
    }
  }

  lemma PayloadPieces(payload: seq<byte>)
    requires |payload| < TWO32 && Framed(payload)
    ensures payload == payload[..5] + payload[5..9] + payload[9..Span(payload)] + payload[Span(payload)..]
    ensures payload[Span(payload)..] == [] || Be32(BodyLength(payload)) == payload[5..9]
  {
    CutInFour(payload, 5, 9, Span(payload));
    Be32Inverse(BodyLength(payload), payload, 5);
  }

  /** Whatever bytes arrive, reading ends and takes every byte: writing the records again gives the
      payload back exactly if no length was clamped, and a clamped payload is changed in the four
      length bytes of its last record only. */
  lemma {:induction false} RecordsPartition(payload: seq<byte>)
    requires |payload| < TWO32 && !PlainTypeOnWire(payload)
    ensures |AllBytes(Records(payload))| == |payload|
    ensures AllBytes(Records(payload)) == payload <==> !Clamped(payload)
    ensures payload != [] ==> SameButLength(AllBytes(Records(payload)), payload, LastStart(payload))
    decreases |payload|
  {
    if payload != [] && Framed(payload) {
      var rest := payload[Span(payload)..];
      RecordsPartition(rest);
      WriteAgain(payload);
      LengthAgain(payload);
      PayloadPieces(payload);
      var n := BodyLength(payload);
      var body := payload[9..Span(payload)];
      FourPieces(payload[..5], Be32(n), payload[5..9], body, AllBytes(Records(rest)), rest);
      PiecesAgain(payload[..5], Be32(n), payload[5..9], body, AllBytes(Records(rest)), rest);
    }
  }
}
