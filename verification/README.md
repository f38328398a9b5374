# MAC-Telnet client: a Dafny model and its proofs

MAC-Telnet carries a terminal session over UDP broadcasts on port 20561. This project models the parts of
the client on which the correctness of a session rests, and proves what they promise:

- the **stop-and-wait reliability protocol**: 32-bit wrapping byte counters, retransmission on a schedule,
  an ACK for every DATA packet, and the rule that tells a wrapped counter from a stale copy
  (`Sequencing`, `Runs`, `StopAndWait`, `WindowBound`, `Reordering`, `Recovery`, `Session`);
- the **EC-SRP key exchange**: point addition on a short Weierstrass curve, double-and-add, the lift of an
  x-coordinate, the tangling of a key with a validator, key compression
  (`Field`, `Curve`, `EcSrp`, `Tangle`, `Multiples`, `ScalarLaw`, `Curve25519`);
- the **wire formats**: outer headers, control records, login packets, the hand-built Ethernet/802.1Q/IPv4/UDP
  frame with its hand-written parser, the Internet checksum, and what the receive loop takes datagrams for
  (`Protocol`, `Auth`, `Checksum`, `Frame`, `Stack`, `Demux`);
- how these combine: the **byte stream** from `Write` to the peer's terminal (`ByteStream`), the **login gate**
  in front of terminal mode (`Handshake`, `LoginKeys`), and the **shutdown** of a session (`Shutdown`);
- two parsers: the **tokenizer** of exec command lines (`Exec`) and **MNDP** announcements (`Mndp`).

`dafny verify dfyconfig.toml` checks everything.

## How to read it

Each module follows one source file or one concern of it. Code that loops over mutable state is a method with
loop invariants, proved equal to a function (`InternetChecksum` to `Checksum.Of`, `IterateControl` to `Records`,
`SplitCmd` to `Split`, `ParsePacket` to `Parsed`, `ScalarMult` to `Ladder`, `BuildFrame` to `FrameBytes`); the
lemmas are about those functions. Objects whose fields the program updates are classes (`Counters`, `Session`,
`Target`, `Login`).

Concurrency is modelled by transition systems. `StopAndWait.State` holds a sender, a peer, and two channels that
lose, duplicate and (if a step swaps neighbours) reorder; `Apply` has one case for each atomic action. A run is
any sequence of enabled steps from the initial state (`Runs.Exec`), so a lemma about runs covers every
interleaving. The methods of `Session` take the sender's steps of that system one after the other, with any number
of steps of the others in between (`Interfere`), so the theorems about runs apply to what they return; that the
peer's step is what `ProcessInboundData` does is proved by `Session.PeerIsASession`. `Handshake` and `Shutdown`
are built in the same way. Fields called history (`origin`, `sent`, `acked`, `accepted`, `arrived`, `heard`,
`effects`, ...) record what has happened; no guard reads them.

Main theorems:

- `StopAndWait.InOrderExactlyOnce`: over channels that lose and duplicate, across any number of counter wraps and
  of abandoned sends, the peer hands on an in-order, duplicate-free subsequence of what was sent that contains
  every send that returned nil. The flow condition is that a send starts at most 2^32 - 65536 bytes after the
  start of the last acknowledged one. `WindowBound.WindowIsTight` gives the run in which one byte more loses an
  acknowledged send.
- `Reordering.InOrderPrefix`: over channels that also reorder, a sender that waits for each ACK delivers exactly a
  prefix of its packets, on one lap of the counter and if no copy arrives more than 65535 bytes late.
  With give-ups it is still an in-order subsequence that contains everything acknowledged (`InOrderSubsequence`).
  `TakenIff` shows that a copy which is later than that is taken again, and `StalenessIsTight` gives the run in
  which one that is 65536 bytes late delivers its payload a second time.
- `ByteStream.EndToEnd`: over a whole session, login packets included, the bytes in the pipe are the typed input,
  up to and including everything acknowledged; `Session.Session.StreamArrives` is the same for a session object.
  `ChunkIntactIff` gives the exact condition on a chunk: plain data is sent without a frame, so a chunk of nine or
  more bytes that begins with the control magic is read as a control record.
- `Curve.AddThenTakeAway` and `Tangle.UntangleUndoesTangle`: tangling is undone for every point of the curve, in
  all cases of the addition formulas, without associativity.
- `ScalarLaw.SidesAgree`: from each other's 33 bytes client and peer compute the same point; and by
  `ScalarLaw.ExchangeAgrees` the number `docrypto` returns is the one that point would be sent as.
- `Protocol.RecordsRoundTrip`, `Protocol.RecordsPartition`, `Frame.FrameRoundTrip`, `Frame.AcceptedIff`,
  `Checksum.StoredChecksum`: the codecs are inverse to each other, and the exceptions are exactly the ones named.
  What the bytes are is said by offsets and literal numbers, apart from the codecs (`Protocol.HeaderLayout`,
  `Protocol.RecordLayout`, `Frame.FrameFields`, `Auth.InitMeans`, `Auth.FinishMeans`).
- `Handshake.TerminalModeIsGated`, `Handshake.LoginCanSucceedIff`, `LoginKeys.KeyDecidesLogin`: what must have
  happened before terminal mode is on, and exactly which salts allow it.
- `Recovery.SendGetsThrough`: whatever is still on its way, a send can succeed although its first ACK is lost,
  and its payload is handed on once.
- `Shutdown.TeardownOnce`, `Shutdown.EndGoesOutFirst`, `Exec.PrintSplitRoundTrip`, `Exec.WordsAreSplit`,
  `Exec.FailsIffLeftOpen`, `Mndp.PacketRoundTrip`, `Mndp.RecordMeans`.

Modelling choices:

- Infinity is a constructor of its own (`Inf`). In the Go code it has no coordinates, and reading them panics. The
  model says where this happens: when `scalarMult` is given infinity or its loop adds two infinities
  (`EcSrp.Panics`), and when `tangle`, `keygen` or `docrypto` goes on with an infinite multiple (`Outcome.Panic`).
  Which inputs make `scalarMult` panic is `ScalarLaw.PanicsIff`; a finite multiple is always computed without a panic
  (`EcSrp.FiniteIsSafe`), and so is every multiple of a point of odd order, so that case of `keygen` does not arise
  for the generator (`Curve25519.GeneratorNeverPanics`). `Curve.Add` itself is total.
- Hashes and the modular square root are function parameters; the square root comes with its contract
  (`IsModSqrt`). The modular inverse is found by search and proved to exist for a prime modulus. Results for the
  literal constants have the primality of p as a hypothesis. `EcSrp.SoundIsMet` meets the
  conditions `Sound` collects with a small curve, so they do not exclude each other.
- That the search in `tangle` ends, at a number of at most 32 bytes, is a hypothesis (`EndsAt`, `SearchEnds`). That
  n times the generator is infinity is a hypothesis of the results of `ScalarLaw` that need it; they also ask
  for an odd n, which the constant is.
- Associativity of the point addition is a hypothesis (`ScalarLaw.Associative`) and is used in `ScalarLaw` only;
  commutativity is proved (`AddCommutes`).
- Time is abstract: a wait is a number of units, each turn of a wait loop takes some of what is left, and the timer
  takes all of it. The two retransmit schedules are given to the session when it is made;
  `BuildRetransmitSchedule` is modelled beside it.
- A session's messages are kept as history beside its payloads (`messages`), so every payload has a meaning:
  terminal input, or control records. Any payload is the `Input` of its own bytes, so this restricts nothing.
- Lengths and widths are explicit: counters are mod 2^32, `time.Duration` sums wrap at 2^63, the checksum
  accumulator wraps at 2^32, `uint16` lengths are truncated.
- Where the tables of `docs/ARCHITECTURE.md` disagree with the code on packet types and record lengths, the code
  is followed.

## Model

| member | source | states |
|---|---|---|
| Sequencing.Counters.ReserveOut | src/internal/mactelnet/seq.go:113-117 | returns the old counter and advances it, wrapping, to the counter of the ACK that answers the packet |
| Sequencing.Counters.AcceptIncoming | src/internal/mactelnet/seq.go:131-146 | accepts a counter unless, going backwards from the mark, it is met within 65535 and before zero; moves the mark only when it accepts |
| Sequencing.NewByOffset | src/internal/mactelnet/seq.go:131-146 | for unwrapped stream offsets, an iff for what the rule decides |
| Sequencing.AheadIsNew | src/internal/mactelnet/seq.go:123-129 | 1 to 2^32 - 65536 bytes ahead is always new, however the counter wraps |
| Sequencing.TooFarAheadIsStale | src/internal/mactelnet/seq.go:137-145 | one byte further ahead is taken for a stale copy |
| Sequencing.BehindIsStale | src/internal/mactelnet/seq.go:128-130 | behind on the same lap is new exactly if more than 65535 bytes behind |
| Sequencing.BuildRetransmitSchedule | src/internal/mactelnet/seq.go:67-90 | terminates; every wait is in (0, 1 s], they follow the ramp while it fits, then whole seconds, and sum to exactly the budget |
| Sequencing.PaddingOverflows | src/internal/mactelnet/seq.go:82-85 | for every budget above 9223372036.364999999 s the padding loop, turn by turn, is still going when its int64 sum has wrapped to a negative number: the bound of the method above is exact |
| StopAndWait.WireInvStep | src/internal/mactelnet/session.go:362-423 | every step of every party keeps: each datagram and ACK under way is one of a send's, the counter is the stream length mod 2^32, the mark is that of the last accepted send |
| StopAndWait.HeadIsNewIffUnseen | src/internal/mactelnet/loop.go:104-125 | over order-keeping channels the peer accepts the next datagram exactly if it has not accepted it before |
| StopAndWait.OnlyOwnAckMatches | src/internal/mactelnet/session.go:428-450 | an ACK with the wanted counter answers the send under way and no earlier one |
| StopAndWait.FifoInvStep | src/internal/mactelnet/session.go:362-450 | the protocol invariant is kept by every step that keeps the channels' order and the flow condition |
| StopAndWait.InOrderExactlyOnce | src/internal/mactelnet/session.go:362-423 | over every run with loss and duplication: delivered is an in-order, duplicate-free subsequence of sent and contains every send that returned nil |
| Recovery.SendGetsThrough | src/internal/mactelnet/session.go:362-423 | from every state that order-keeping channels can reach between two sends, a send within the flow condition can return nil although its first ACK is lost: the retransmission is ACKed again and the payload has been handed on once |
| WindowBound.WindowIsTight | src/internal/mactelnet/seq.go:137-145 | with the flow condition relaxed by one byte there is a run in which a send returns nil and its payload is never handed on |
| Reordering.TakenIff | src/internal/mactelnet/seq.go:131-146 | a datagram is accepted exactly if it is the next one, or an old copy more than 65535 bytes behind |
| Reordering.InOrderPrefix | src/internal/mactelnet/session.go:410-449 | over channels that also reorder, without give-ups on one lap: delivered is a prefix of sent, at most one packet longer than what was acknowledged |
| Reordering.InOrderSubsequence | src/internal/mactelnet/session.go:362-423 | over channels that also reorder, for a sender that also gives up and goes on, on one lap: delivered is an in-order, duplicate-free subsequence of sent and contains every send that returned nil |
| Reordering.StalenessIsTight | src/internal/mactelnet/seq.go:137-145 | with the staleness bound relaxed by one byte there is a run without give-ups in which the first payload is handed on twice |
| Session.Session.WaitForAck | src/internal/mactelnet/session.go:428-450 | ends; returns nil only on the wanted ACK, which completes the send, discards all others, never waits longer than asked, and reports a timeout only when the whole duration has been waited |
| Session.Session.DrainAcks | src/internal/mactelnet/session.go:366-375 | takes stale ACKs off the channel until, at some moment between two sends, it is empty; what was sent or acknowledged stays as it is |
| Session.Session.Retransmit | src/internal/mactelnet/session.go:410-422 | transmits copies of one datagram only; exhausted means one per wait of the schedule, after waits that add up to its sum |
| Session.Session.SendDataAndWaitAck | src/internal/mactelnet/session.go:362-423 | whatever the outcome the counter stays advanced and the session can send again; the stale ACKs were drained first; the wire saw copies of one datagram; exhausted means one copy more than the schedule in force has waits, after waiting for their sum; nil means the peer accepted it, under the conditions of InOrderExactlyOnce |
| Session.Session.Write | src/internal/mactelnet/session.go:183-204 | closed, empty and oversized writes (more than 1469 bytes) send nothing; any other sends its bytes unframed and reports success exactly if the send was acknowledged |
| Session.Session.BuildSize | src/internal/mactelnet/session.go:212-224 | the payload is read as exactly one TERM_WIDTH record with the columns and one TERM_HEIGHT record with the rows, each number in two bytes, the low one first |
| ByteStream.SizeIsRead | src/internal/mactelnet/session.go:212-224 | what a reader takes from the packet of Resize: type 5 with the columns, type 6 with the rows |
| Session.Session.Resize | src/internal/mactelnet/session.go:208-226 | sends one packet, read as one record with the columns and one with the rows; success is its acknowledgement |
| Session.Session.ProcessInboundData | src/internal/mactelnet/loop.go:104-149 | every packet is ACKed; the records of a new one are handled in order, control records going to controlCh and plain bytes to the pipe from the record on before which terminal mode is on; only the end of the context cuts this short, at a control record; a duplicate adds nothing |
| Session.PeerIsASession | src/internal/mactelnet/loop.go:104-149 | the peer's step of the transition system sends the ACK, moves the mark and fills the pipe as ProcessInboundData does |
| Session.Session.StreamArrives | src/internal/mactelnet/session.go:183-226 | what the peer has put into its pipe is the input of a first part of the session's messages, every acknowledged one included |
| ByteStream.ChunkIntactIff | src/internal/mactelnet/protocol.go:229-249 | a written chunk is read back unchanged exactly if it does not look like a control record |
| ByteStream.ControlsAreSilent | src/internal/mactelnet/session.go:208-226 | a packet of control records, as Resize and the login send, contributes nothing to the pipe |
| ByteStream.SessionIsIntact | src/internal/mactelnet/session.go:290-329 | both login packets and every size packet are such control packets, so the end-to-end theorem covers sessions from their first packet on |
| ByteStream.EndToEnd | src/internal/mactelnet/session.go:183-226 | over a whole session, if no input is abandoned, the pipe holds the input of a first part of the messages that includes every acknowledged one, with login packets and sizes adding nothing |
| ByteStream.EndToEndReordered | src/internal/mactelnet/session.go:183-226 | the same over channels that also reorder, on one lap and with no copy more than 65535 bytes late |
| ByteStream.InputGrows | src/internal/mactelnet/session.go:183-204 | that is a prefix of all the input written |
| Protocol.Encode | src/internal/mactelnet/protocol.go:130-146 | writes exactly the 22 header bytes in place, in either direction, and leaves the rest of the buffer alone |
| Protocol.HeaderLayout | src/internal/mactelnet/protocol.go:130-146 | the header by its offsets: version 1, type, source and destination, session key before the client type 0x0015 towards the server and behind it towards the client, counter; highest byte first |
| Protocol.HeaderRoundTrip | src/internal/mactelnet/protocol.go:130-167 | decoding an encoded header with its payload gives back every field and the payload |
| Protocol.HeaderRoundTripBack | src/internal/mactelnet/protocol.go:130-167 | encoding what was decoded gives the packet back exactly if its version and client-type bytes are the constants |
| Protocol.WrongDirection | src/internal/mactelnet/protocol.go:137-144 | read in the wrong direction a header shows the client type as session key |
| Demux.HeardIff | src/internal/mactelnet/loop.go:65-97 | for arbitrary bytes and by their offsets: exactly which datagrams the receive loop takes for DATA, for an ACK or for END, and which it drops |
| Demux.Hear | src/internal/mactelnet/loop.go:65-97 | the checks in the order of the loop come to what the two lemmas say |
| Demux.HeardAsSent | src/internal/mactelnet/loop.go:72-97 | an encoded packet is heard with its counter and payload in its own session and in no other |
| Protocol.EncodeControl | src/internal/mactelnet/protocol.go:196-212 | writes the record in place if it fits, and fails with the buffer untouched exactly if it does not |
| Protocol.RecordLayout | src/internal/mactelnet/protocol.go:196-212 | a framed record by its offsets: the magic 56 34 12 ff, the type, the length with its highest byte first, the body |
| Protocol.IterateControl | src/internal/mactelnet/protocol.go:229-249 | terminates and yields the records of the payload in order |
| Protocol.RecordsRoundTrip | src/internal/mactelnet/protocol.go:196-249 | any framed records back to back, and a plain tail that is short or lacks the magic, are read back as they were |
| Protocol.SlicesPartition | src/internal/mactelnet/protocol.go:229-249 | for arbitrary bytes the headers and bodies read are consecutive slices that make up the payload |
| Protocol.RecordsPartition | src/internal/mactelnet/protocol.go:229-249 | for arbitrary bytes without wire type 0xff, writing the records again gives the payload back exactly if no length was clamped, and otherwise differs in the last record's length field only |
| Auth.BuildAuthInit | src/internal/mactelnet/auth.go:101-117 | writes BEGINAUTH and PASSSALT, and fails exactly if the buffer is too small; a reader of the bytes finds one record of type 0 without a body and one of type 1 that is the name, a zero byte and the 33 bytes of the key |
| Auth.BuildAuthFinish | src/internal/mactelnet/auth.go:124-156 | writes the second login packet, and fails exactly if the buffer is too small; a reader of the bytes finds exactly one record of each of the types 2 to 6: response, name, terminal type, and two bytes each, the low one first, that are the columns and the rows |
| Auth.InitRoundTrip | src/internal/mactelnet/auth.go:101-117 | the peer reads back the records of the first login packet, and what they say |
| Auth.FinishRoundTrip | src/internal/mactelnet/auth.go:124-156 | the peer reads back the records of the second login packet, and what they say |
| Auth.PacketLengths | src/internal/mactelnet/auth.go:101-156 | how long the two login packets are |
| Checksum.Fold | src/internal/mactelnet/conn.go:524-526 | the fold loop terminates and keeps the sum mod 65535, zero coming from zero only |
| Checksum.InternetChecksum | src/internal/mactelnet/conn.go:516-528 | the one's complement checksum of any input up to 131074 bytes; beyond, that of the total mod 2^32 |
| Checksum.LongerInputFails | src/internal/mactelnet/conn.go:517-520 | the bound is exact: every longer length has an input whose checksum is wrong |
| Checksum.StoredChecksum | src/internal/mactelnet/conn.go:488-499 | stored in a zeroed word, the result and (but for the two zeros) nothing else makes the checksum come out 0 |
| Checksum.OddIsPadded | src/internal/mactelnet/conn.go:521-523 | an odd last byte counts as the high half of a word |
| Checksum.Rfc1071Example | src/internal/mactelnet/conn.go:516-528 | the numerical example of section 3 of RFC 1071 has the sum given there |
| Frame.IpChecksumIsZero | src/internal/mactelnet/conn.go:487-499 | the IP header of every frame built has checksum 0 |
| Frame.BuildFrame | src/internal/mactelnet/conn.go:453-510 | fills the buffer with a frame that, taken apart by offsets, holds the addresses, the tag 0x8100 with the VLAN if it is not 0, type 0x0800, an IPv4 header (TTL 64, UDP, 0.0.0.0 to 255.255.255.255, total length all bytes behind the Ethernet header, checksum 0), a UDP header (port 20561 twice, that length minus 20), and the payload; the lengths are kept mod 2^16 |
| Frame.FrameFields | src/internal/mactelnet/conn.go:453-510 | the same for every address, VLAN, ID and payload |
| Frame.LengthsUncut | src/internal/mactelnet/conn.go:490-505 | up to 65507 bytes of payload the two lengths are those of the frame itself |
| Frame.Inspect | src/internal/mactelnet/conn.go:336-412 | the parser with its moving offset never reads beyond the bytes received and accepts exactly what Accepted says |
| Frame.AcceptedIff | src/internal/mactelnet/conn.go:336-412 | a payload is taken out of arbitrary bytes exactly if they can be taken to pieces: addresses for this receiver, tag of its VLAN, an IPv4 header with options as long as it says, UDP to port 20561 with a length that covers the payload, and anything behind |
| Frame.Read | src/internal/mactelnet/conn.go:320-414 | skips every frame that is not accepted, returns the first that is, and copies as much of its payload as the buffer holds |
| Frame.FrameRoundTrip | src/internal/mactelnet/conn.go:336-510 | for every payload: a built frame is accepted with exactly its payload if tagged with the receiver's VLAN, from another address, to its own or broadcast, with at most 2002 payload bytes; in every other case up to 65527 bytes it is dropped, and beyond that it yields what the truncated length announces |
| Frame.OneVlanOnly | src/internal/mactelnet/conn.go:339-377 | no frame whatsoever is accepted by receivers of two VLANs, nor by its own sender |
| Stack.RecordsThroughFrame | src/internal/mactelnet/conn.go:320-510 | records behind a header in a frame of the receiver's VLAN: the frame is accepted, the header decoded and the records read, each as it was written |
| Field.InverseExists | src/internal/mactelnet/mtwei.go:83-160 | modulo a prime, every number that is not 0 has the inverse ModInverse is called for |
| Field.RootsUpToSign | src/internal/mactelnet/mtwei.go:181-198 | square roots modulo a prime agree up to sign |
| Curve.DoubleOnCurve | src/internal/mactelnet/mtwei.go:83-114 | doubling a point of the curve gives a point of the curve or infinity, with reduced coordinates |
| Curve.AddOnCurve | src/internal/mactelnet/mtwei.go:123-160 | adding two points of the curve, in every case of the code, gives one of the curve or infinity |
| Curve.AddThenTakeAway | src/internal/mactelnet/mtwei.go:123-160 | adding a point and then its mirror image changes nothing, in every case and without associativity |
| EcSrp.ScalarMult | src/internal/mactelnet/mtwei.go:166-176 | the loop over the bits keeps res and cur on the curve and computes the recursive double-and-add; it panics exactly if it is given infinity or adds two infinities |
| EcSrp.FiniteIsSafe | src/internal/mactelnet/mtwei.go:166-176 | a finite multiple is computed without a panic |
| EcSrp.DoublingPanics | src/internal/mactelnet/mtwei.go:123-176 | a point that doubles to infinity in j steps makes scalarMult panic for every scalar but 0 that is a multiple of 2^j, without any law of addition |
| ScalarLaw.PanicsIff | src/internal/mactelnet/mtwei.go:123-176 | with associativity these, and infinity itself, are all the inputs on which scalarMult panics |
| ScalarLaw.OddOrderNeverPanics | src/internal/mactelnet/mtwei.go:166-176 | no multiple of a finite point of odd order panics |
| Curve25519.GeneratorNeverPanics | src/internal/mactelnet/mtwei.go:265-266 | for the literal constants no private scalar makes keygen's multiplication panic, given that n times the generator is infinity |
| EcSrp.LiftOnCurve | src/internal/mactelnet/mtwei.go:181-198 | a lifted point is on the curve |
| EcSrp.LiftsIffOnCurve | src/internal/mactelnet/mtwei.go:181-198 | an x is lifted exactly if the curve has a point with it |
| EcSrp.LiftsMirror | src/internal/mactelnet/mtwei.go:181-198 | the two parities lift the same x-coordinates, to opposite points |
| EcSrp.LiftBack | src/internal/mactelnet/mtwei.go:181-198 | every finite point is lifted back from its x and parity |
| Tangle.BytesRoundTrip | src/internal/mactelnet/mtwei.go:272-291 | FillBytes and SetBytes are inverse for numbers that fit |
| Tangle.KeyRoundTrip | src/internal/mactelnet/mtwei.go:272-293 | the 33 bytes sent for a finite point are read as that very point |
| Tangle.DecompressOnCurve | src/internal/mactelnet/mtwei.go:289-296 | whatever is received is refused or read as a point of the curve |
| Tangle.DecompressIff | src/internal/mactelnet/mtwei.go:289-296 | a received key is refused exactly if the curve has no point with its x-coordinate |
| Tangle.SearchLift | src/internal/mactelnet/mtwei.go:222-237 | the search stops at the first number that lifts |
| Tangle.TangleInto | src/internal/mactelnet/mtwei.go:208-245 | the target becomes its sum with the point the search ends at, and stays on the curve; it panics exactly if the validator's multiple of the generator is infinity |
| Tangle.SeedIsSentKey | src/internal/mactelnet/mtwei.go:213-220 | the search starts at the hash of the 32 bytes the validator's point would be sent as |
| Tangle.FoldedIsRead | src/internal/mactelnet/mtwei.go:222-237 | the point folded in is the one that a hash and the sign, taken as the 33 bytes of a key, are read as |
| Curve25519.GeneratorIsNine | src/internal/mactelnet/mtwei.go:53-64 | with the literal constants the generator is sent as the number 9 with parity 0, and the search for the validator 1 starts at the hash of 9 |
| Tangle.UntangleUndoesTangle | src/internal/mactelnet/mtwei.go:208-245 | for one validator, folding in with either sign and then with the other gives the point back |
| Tangle.ServerKeyRecovered | src/internal/mactelnet/mtwei.go:252-298 | from the 33 bytes of a tangled key the client recovers the peer's own point |
| Tangle.Keygen | src/internal/mactelnet/mtwei.go:265-277 | the key sent is read as the multiple of the generator, tangled if there is a validator; and exactly in which cases the code panics instead |
| Tangle.Docrypto | src/internal/mactelnet/mtwei.go:286-320 | fails exactly if the curve has no point with the key's x-coordinate, panics exactly if the final multiple or the validator's point is infinity, and otherwise returns a number below p that, shifted by m2w, is the x of the final multiple |
| Tangle.AgreedNumber | src/internal/mactelnet/mtwei.go:318-323 | the number the response is hashed from is the one in the 32 bytes that the final multiple would be sent as |
| ScalarLaw.AddCommutes | src/internal/mactelnet/mtwei.go:123-160 | addition is commutative, from the formulas |
| ScalarLaw.ScalarMultIsTimes | src/internal/mactelnet/mtwei.go:166-176 | with associativity, scalarMult(k, P) is the k-fold sum of P |
| ScalarLaw.ClientScalar | src/internal/mactelnet/mtwei.go:310-316 | with associativity, the reduced scalar times a point of order n is h(vB) + priv B |
| ScalarLaw.ClientReachesAgreedPoint | src/internal/mactelnet/mtwei.go:286-316 | the client, from the peer's 33 bytes, reaches h(v own) + priv own |
| ScalarLaw.SidesAgree | src/internal/mactelnet/mtwei.go:252-316 | from each other's 33 bytes the client reaches the very point the peer computes, b(priv G + h(v G)) |
| ScalarLaw.ExchangeAgrees | src/internal/mactelnet/mtwei.go:252-323 | from the keys keygen makes on both sides, docrypto comes to a number exactly if b(priv G + h(v G)), as the peer computes it from the client's key, is finite; that number, shifted by m2w, is the x of that point |
| Curve25519.ConstantsSound | src/internal/mactelnet/mtwei.go:53-64 | the literal constants meet the conditions of Sound, given that p is prime: the offsets cancel mod p, the generator is on the curve, the curve is not singular |
| Handshake.InvStep | src/internal/mactelnet/session.go:275-338 | every step of driver, receive loop and caller keeps the login invariant |
| Handshake.TerminalModeIsGated | src/internal/mactelnet/session.go:299-338 | terminal mode is on only after the first PASSSALT had length 16 or 49 and was answered, the response's ACK was received, and the first END_AUTH behind it was taken; a byte is in the pipe only in terminal mode, and the pipe holds exactly the output handed on since |
| Handshake.TerminalModeStaysOn | src/internal/mactelnet/loop.go:127-135 | terminal mode never goes off and the pipe only grows |
| Handshake.RepeatIsIgnored | src/internal/mactelnet/loop.go:122-125 | a login packet that comes in again changes nothing |
| Handshake.ChannelsAreBounded | src/internal/mactelnet/session.go:153-154 | no interleaving puts more than 8 ACKs or 16 control records into the channels |
| Handshake.LoginCanSucceedIff | src/internal/mactelnet/session.go:305-322 | a login with a given first PASSSALT can succeed exactly if its length is 16 or 49, a response to it can be computed, and both login packets fit a datagram |
| LoginKeys.KeyDecidesLogin | src/internal/mactelnet/session.go:310-319 | with a 49-byte salt a login can succeed exactly if the curve has a point with the key's x-coordinate, the validator's point and the final multiple are finite, and name and terminal type have at most 1397 bytes together |
| LoginKeys.PlainSaltDecidesLogin | src/internal/mactelnet/session.go:307-309 | with a 16-byte salt it can succeed exactly if name and terminal type have at most 1412 bytes together |
| Handshake.Login.AwaitControl | src/internal/mactelnet/session.go:456-469 | returns the next record of the wanted type and drops the others |
| Handshake.Login.Handshake | src/internal/mactelnet/session.go:275-338 | succeeds exactly if terminal mode is on afterwards; it then has sent two packets, read as the name and key, and as the response to the first PASSSALT that came in, the name, terminal type, columns and rows; on failure nothing is in the pipe |
| Shutdown.InvStep | src/internal/mactelnet/session.go:230-270 | every action of every Close and fail keeps the shutdown invariant |
| Shutdown.TeardownOnce | src/internal/mactelnet/session.go:230-270 | in every interleaving one call wins the flag, and the effects are the first part of its teardown: nothing is closed twice, END goes out at most once and only if a Close won |
| Shutdown.EndGoesOutFirst | src/internal/mactelnet/session.go:235-251 | in every interleaving, once a Close has won nothing is closed or cancelled before END has gone out |
| Shutdown.ClosedInOrder | src/internal/mactelnet/session.go:247-269 | in every interleaving the context is cancelled and the socket, the sender, and the two ends of the pipe are closed in this order |
| Shutdown.ReturnedIsDone | src/internal/mactelnet/session.go:230-270 | a Close that returned as winner has had the six effects, in order and once each, and the receive loop has ended; a fail that did has had its four |
| Shutdown.FirstErrorRecorded | src/internal/mactelnet/session.go:260-263 | the recorded error is the first one offered |
| Shutdown.PanicsIffTypesDiffer | src/internal/mactelnet/session.go:260-263 | a call of fail panics exactly if its error has another type than the one recorded |
| Shutdown.NothingIsUndone | src/internal/mactelnet/session.go:230-270 | the error is never overwritten and the flag never goes down |
| Shutdown.Session.Close | src/internal/mactelnet/session.go:230-256 | returns with the session closed; the winner has sent END, cancelled the context, closed socket, sender and both ends of the pipe, in this order and once each, and waited for the receive loop |
| Shutdown.Session.Fail | src/internal/mactelnet/session.go:260-270 | returns with the session closed and keeps an earlier error, or panics exactly if the error recorded before has another type |
| Exec.SplitCmd | src/internal/sshserver/exec.go:79-115 | the loop computes the split of the line into its pieces and their groups |
| Exec.LexText | src/internal/sshserver/exec.go:85-107 | the pieces read are well formed and make up the line |
| Exec.SplitsLines | src/internal/sshserver/exec.go:79-115 | every line of white space, bare characters and closed quoted runs gives one argument for each group without space |
| Exec.FailsIffLeftOpen | src/internal/sshserver/exec.go:108-110 | the tokenizer fails on exactly the lines that end inside a quoted run |
| Exec.PrintSplitRoundTrip | src/internal/sshserver/exec.go:79-115 | splitting gives back any list of strings that was printed in quoted runs, with empty strings and both quote characters |
| Exec.WordsAreSplit | src/internal/sshserver/exec.go:97-106 | words with any white space between and around them are split into the words |
| Exec.SpaceIsListed | src/internal/sshserver/exec.go:97 | the white space is the 25 characters that Unicode lists, and no other |
| Mndp.Clip | src/internal/mndp/parser.go:134-139 | the first 127 bytes of a longer string, and the whole string if it is shorter than 128 |
| Mndp.ParsePacket | src/internal/mndp/parser.go:82-129 | refuses less than 18 bytes; otherwise each attribute is that of its last usable record |
| Mndp.RecordMeans | src/internal/mndp/parser.go:102-127 | what one more record changes, by its type number: one field, for its value, a string being cut to 127 bytes and an uptime counted in nanoseconds; nothing if it is unknown or too short |
| Mndp.Le32Digits | src/internal/mndp/parser.go:112-116 | the four digits of a number, lowest first, are read as that number |
| Mndp.TlvLayout | src/internal/mndp/parser.go:93-101 | a record by its offsets: type and length in two bytes each, the high one first, and the value |
| Mndp.TlvRoundTrip | src/internal/mndp/parser.go:93-101 | records written back to back are read back, and a record cut short behind them is ignored |
| Mndp.PacketRoundTrip | src/internal/mndp/parser.go:82-129 | an announcement of any records parses to what they mean |
| Mndp.EveryBodyIsRecords | src/internal/mndp/parser.go:93-101 | arbitrary bytes are the records read, written again, and then a record cut short |

## Left out

- Sockets, system calls, deadlines, interface lookup, logging: the network is the channel model, and time is units of waiting.
- The keepalive ACKs: they go from the client to the device and never enter the channel the modelled sender listens on.
- Liveness of the receive loop: a full controlCh or a pipe nobody reads blocks it, so the results are about safety; `Shutdown.Session.Close` takes it that the loop ends some time.
- Deduplication over reordering channels across a wrap of the counter: stale copies from before the wrap are accepted.
- Terminal output that arrives before terminal mode is on is ACKed and dropped; `ByteStream.EndToEnd` takes the peer to be in terminal mode when input reaches it.
- A retransmit budget above 9223372036.364999999 s: the builder's loop does not end within int64 (`Sequencing.PaddingOverflows`).
- Payloads of 4 GiB and more, whose length a control header cannot hold; a received datagram has at most 1500 bytes.
- SHA-256, MD5, random numbers and the internals of math/big: parameters with a contract.
- The clamping of the private scalar: the bytes are clamped and then read big-endian; any private scalar is covered.
- The last hash of `docrypto`: the model ends with the x-coordinate that is hashed.
- Bytes of a command line that are not UTF-8: the tokenizer is modelled on characters.
- Attribute strings of an announcement as text: they are kept as bytes.
- The SSH server, key files, interface lists, command-line flags, the discovery socket loop, `encodePing`, `parseMAC`, `detectAuthMode`: easy members only.
- Handshake.Login.Handshake: the retransmissions within each send are those of `Session` and are not repeated here.
- Shutdown.Session.Fail: a panic ends the call; that it would end the whole process is not modelled. Only the receive loop calls `fail`, and returns after it, so the code as it stands offers at most one error.
- Curve25519.ConstantsSound: the primality of p and that n times the generator is infinity are hypotheses of the results that use them.
- Protocol.Encode: the address fields are 6 bytes by type, as in Go; `Header.version` is not looked at, as in the code.
