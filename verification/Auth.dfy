/** The two record sequences of the login (src/internal/mactelnet/auth.go). */
module Auth {
  import opened Uint32
  import opened Protocol
  import opened Wrappers
  import opened Limits

  /** binary.LittleEndian.PutUint16. */
  function Le16(n: uint16): seq<byte> {
    [n % 0x100, n / 0x100]
  }

  function InitRecords(username: seq<byte>, clientPub: seq<byte>): seq<Record> {
    [Record(BEGIN_AUTH, []), Record(PASS_SALT, username + [0] + clientPub)]
  }

  function FinishRecords(response: seq<byte>, username: seq<byte>, termType: seq<byte>,
                         cols: uint16, rows: uint16): seq<Record> {
    [Record(PASSWORD, response), Record(USERNAME, username), Record(TERM_TYPE, termType),
     Record(TERM_WIDTH, Le16(cols)), Record(TERM_HEIGHT, Le16(rows))]
  }

  lemma AllBytesSnoc(rs: seq<Record>, r: Record)
    ensures AllBytes(rs + [r]) == AllBytes(rs) + RecordBytes(r)
  {
    if rs == [] {
      assert rs + [r] == [r] && AllBytes([r]) == RecordBytes(r);
    } else {
      AllBytesSnoc(rs[1..], r);
      assert (rs + [r])[1..] == rs[1..] + [r];
      Regroup(RecordBytes(rs[0]), AllBytes(rs[1..]), RecordBytes(r));
    }
  }

  lemma Front(a: seq<byte>, b: seq<byte>, c: seq<byte>)
    ensures (a + b + c)[..|a| + |b|] == a + b
  {
  }

  /** Appends one record to those written so far, unless writing failed before. */
  method Append(buf: array<byte>, done: nat, fits: bool, ghost written: seq<Record>, r: Record)
      returns (n: nat, ok: bool)
    requires fits ==> done <= buf.Length && done == |AllBytes(written)| && buf[..done] == AllBytes(written)
    requires !fits ==> |AllBytes(written)| > buf.Length
    modifies buf
    ensures ok <==> |AllBytes(written + [r])| <= buf.Length
    ensures ok ==> n == |AllBytes(written + [r])| && buf[..n] == AllBytes(written + [r])
  {
    AllBytesSnoc(written, r);
    if !fits {
      return 0, false;
    }
    var m: nat;
    m, ok := EncodeControl(buf, done, r.ct, r.body);
    n := done + m;
    if ok {
      Front(AllBytes(written), RecordBytes(r), old(buf[n..]));
    }
  }

  /** Record `i` is the only one of its type, which has this number on the wire. */
  predicate OnlyAt(rs: seq<Record>, i: nat, ct: int) {
    i < |rs| && rs[i].ct == ct && forall j :: 0 <= j < |rs| && j != i ==> rs[j].ct != ct
  }

  /** A body of two bytes, the low one first. */
  predicate HoldsNumber(body: seq<byte>, n: uint16) {
    |body| == 2 && body[0] + 0x100 * body[1] as int == n
  }

  /** What a reader takes from the first packet: BEGINAUTH, and a PASSSALT that begins with the name,
      has a zero byte behind it, and ends in the 33 bytes of the key. */
  predicate InitMeans(rs: seq<Record>, username: seq<byte>, clientPub: seq<byte>) {
    && |rs| == 2 && OnlyAt(rs, 0, 0) && rs[0].body == [] && OnlyAt(rs, 1, 1)
    && var body := rs[1].body;
       && |body| == |username| + 34 && body[..|username|] == username && body[|username|] == 0
       && body[|body| - 33..] == clientPub
  }

  /** What a reader takes from the second packet: one record of each of five types, with the response,
      the name, the terminal type, and the columns and rows. */
  predicate FinishMeans(rs: seq<Record>, response: seq<byte>, username: seq<byte>, termType: seq<byte>,
                        cols: uint16, rows: uint16)
  {
    && |rs| == 5
    && OnlyAt(rs, 0, 2) && rs[0].body == response
    && OnlyAt(rs, 1, 3) && rs[1].body == username
    && OnlyAt(rs, 2, 4) && rs[2].body == termType
    && OnlyAt(rs, 3, 5) && HoldsNumber(rs[3].body, cols)
    && OnlyAt(rs, 4, 6) && HoldsNumber(rs[4].body, rows)
  }

  /** Writes the first packet of the login, or fails if the buffer is too small for it. */
  method BuildAuthInit(buf: array<byte>, username: seq<byte>, clientPub: seq<byte>) returns (n: nat, ok: bool)
    requires |clientPub| == PUBKEY_LEN
    modifies buf
    ensures ok <==> |AllBytes(InitRecords(username, clientPub))| <= buf.Length
    ensures ok ==> n <= buf.Length && buf[..n] == AllBytes(InitRecords(username, clientPub))
    ensures ok && buf.Length < TWO32 ==> InitMeans(Records(buf[..n]), username, clientPub)
  {
    n, ok := Append(buf, 0, true, [], Record(BEGIN_AUTH, []));
    n, ok := Append(buf, n, ok, [Record(BEGIN_AUTH, [])], Record(PASS_SALT, username + [0] + clientPub));
    assert [Record(BEGIN_AUTH, [])] + [Record(PASS_SALT, username + [0] + clientPub)]
        == InitRecords(username, clientPub);
    if ok && buf.Length < TWO32 {
      InitRoundTrip(username, clientPub);
    }
  }

  /** Writes the second packet of the login, or fails if the buffer is too small for it. */
  method BuildAuthFinish(buf: array<byte>, response: seq<byte>, username: seq<byte>, termType: seq<byte>,
                         cols: uint16, rows: uint16) returns (n: nat, ok: bool)
    modifies buf
    ensures ok <==> |AllBytes(FinishRecords(response, username, termType, cols, rows))| <= buf.Length
    ensures ok ==> n <= buf.Length && buf[..n] == AllBytes(FinishRecords(response, username, termType, cols, rows))
    ensures ok && buf.Length < TWO32 ==> FinishMeans(Records(buf[..n]), response, username, termType, cols, rows)
  {
    ghost var rs := FinishRecords(response, username, termType, cols, rows);
    n, ok := Append(buf, 0, true, [], Record(PASSWORD, response));
    assert rs[..1] == [] + [rs[0]] && rs[..2] == rs[..1] + [rs[1]] && rs[..3] == rs[..2] + [rs[2]];
    assert rs[..4] == rs[..3] + [rs[3]] && rs == rs[..4] + [rs[4]];
    n, ok := Append(buf, n, ok, rs[..1], Record(USERNAME, username));
    n, ok := Append(buf, n, ok, rs[..2], Record(TERM_TYPE, termType));
    n, ok := Append(buf, n, ok, rs[..3], Record(TERM_WIDTH, Le16(cols)));
    n, ok := Append(buf, n, ok, rs[..4], Record(TERM_HEIGHT, Le16(rows)));
    if ok && buf.Length < TWO32 {
      FinishRoundTrip(response, username, termType, cols, rows);
    }
  }

  /** How long the two packets are. */
  lemma PacketLengths(username: seq<byte>, clientPub: seq<byte>, response: seq<byte>, termType: seq<byte>,
                      cols: uint16, rows: uint16)
    ensures |AllBytes(InitRecords(username, clientPub))| == 19 + |username| + |clientPub|
    ensures |AllBytes(FinishRecords(response, username, termType, cols, rows))|
         == 49 + |response| + |username| + |termType|
  {
    var first, second := InitRecords(username, clientPub), FinishRecords(response, username, termType, cols, rows);
    assert first == [] + [first[0]] + [first[1]];
    AllBytesSnoc([], first[0]);
    AllBytesSnoc([first[0]], first[1]);
    assert [] + [first[0]] == [first[0]];
    LengthOfFive(second[0], second[1], second[2], second[3], second[4]);
    assert second == [second[0], second[1], second[2], second[3], second[4]];
  }

  lemma LengthOfFive(a: Record, b: Record, c: Record, d: Record, e: Record)
    requires FramedRecords([a, b, c, d, e])
    ensures |AllBytes([a, b, c, d, e])| == 45 + |a.body| + |b.body| + |c.body| + |d.body| + |e.body|
  {
    var rs := [a, b, c, d, e];
    assert rs[0].ct != PLAIN_DATA && rs[1].ct != PLAIN_DATA && rs[2].ct != PLAIN_DATA;
    assert rs[3].ct != PLAIN_DATA && rs[4].ct != PLAIN_DATA;
    AllBytesCons(e, []);
    AllBytesCons(d, [e]);
    AllBytesCons(c, [d, e]);
    AllBytesCons(b, [c, d, e]);
    AllBytesCons(a, [b, c, d, e]);
    assert [e] + [] == [e] && [d] + [e] == [d, e] && [c] + [d, e] == [c, d, e];
    assert [b] + [c, d, e] == [b, c, d, e] && [a] + [b, c, d, e] == rs;
  }

  lemma NumberHeld(n: uint16)
    ensures HoldsNumber(Le16(n), n)
  {
  }

  lemma KeyEndsTheSalt(username: seq<byte>, clientPub: seq<byte>)
    requires |clientPub| == 33
    ensures var body := username + [0] + clientPub;
            |body| == |username| + 34 && body[..|username|] == username && body[|username|] == 0
            && body[|body| - 33..] == clientPub
  {
  }

  lemma InitRecordsMean(username: seq<byte>, clientPub: seq<byte>)
    requires |clientPub| == 33
    ensures InitMeans(InitRecords(username, clientPub), username, clientPub)
  {
    KeyEndsTheSalt(username, clientPub);
  }

  /** The peer reads back exactly the records a login packet was built from. */
  lemma InitRoundTrip(username: seq<byte>, clientPub: seq<byte>)
    requires |AllBytes(InitRecords(username, clientPub))| < TWO32
    ensures Records(AllBytes(InitRecords(username, clientPub))) == InitRecords(username, clientPub)
    ensures |clientPub| == 33 ==> InitMeans(Records(AllBytes(InitRecords(username, clientPub))), username, clientPub)
  {
    if |clientPub| == 33 {
      InitRecordsMean(username, clientPub);
    }
    RecordsAlone(InitRecords(username, clientPub));
  }

  lemma FinishRecordsMean(response: seq<byte>, username: seq<byte>, termType: seq<byte>, cols: uint16, rows: uint16)
    ensures FinishMeans(FinishRecords(response, username, termType, cols, rows),
                        response, username, termType, cols, rows)
  {
    NumberHeld(cols);
    NumberHeld(rows);
  }

  lemma FinishRoundTrip(response: seq<byte>, username: seq<byte>, termType: seq<byte>, cols: uint16, rows: uint16)
    requires |AllBytes(FinishRecords(response, username, termType, cols, rows))| < TWO32
    ensures Records(AllBytes(FinishRecords(response, username, termType, cols, rows)))
         == FinishRecords(response, username, termType, cols, rows)
    ensures FinishMeans(Records(AllBytes(FinishRecords(response, username, termType, cols, rows))),
                        response, username, termType, cols, rows)
  {
    FinishRecordsMean(response, username, termType, cols, rows);
    RecordsAlone(FinishRecords(response, username, termType, cols, rows));
  }
}
