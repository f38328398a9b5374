/** Tangling a public key with the validator, and taking it apart again (`tangle`, and the key
    handling of `keygen` and `docrypto`, in src/internal/mactelnet/mtwei.go). */
module Tangle {
  import opened Uint32
  import opened Field
  import opened Curve
  import opened EcSrp
  import opened Wrappers
  import opened Limits

  // --------------------------------------------------------- numbers as 32 bytes

  function Pow256(k: nat): nat {
    if k == 0 then 1 else Pow256(k - 1) * 256
  }

  /** FillBytes: the last `k` base-256 digits, big-endian. */
  function ToBytes(n: nat, k: nat): (b: seq<byte>)
    ensures |b| == k
  {
    if k == 0 then [] else ToBytes(n / 256, k - 1) + [n % 256]
  }

  /** SetBytes. */
  function FromBytes(b: seq<byte>): nat {
    if b == [] then 0 else FromBytes(b[..|b| - 1]) * 256 + b[|b| - 1]
  }

  lemma {:induction false} BytesRoundTrip(n: nat, k: nat)
    requires n < Pow256(k)
    ensures FromBytes(ToBytes(n, k)) == n
  {
    if k > 0 {
      BytesRoundTrip(n / 256, k - 1);
      var b := ToBytes(n / 256, k - 1);
      assert ToBytes(n, k)[..k - 1] == b;
    }
  }

  lemma Pow256Of32()
    ensures Pow256(32) == TWO256
  {
    assert Pow256(4) == 0x1_0000_0000;
    assert Pow256(8) == 0x1_0000_0000_0000_0000 by { assert Pow256(6) == 0x1_0000_0000_0000; }
    PowStep(8);
    PowStep(16);
    PowStep(24);
  }

  lemma PowStep(k: nat)
    ensures Pow256(k + 8) == Pow256(k) * 0x1_0000_0000_0000_0000
  {
    assert Pow256(k + 4) == Pow256(k) * 0x1_0000_0000 by { assert Pow256(k + 2) == Pow256(k) * 0x1_0000; }
    assert Pow256(k + 8) == Pow256(k + 4) * 0x1_0000_0000 by { assert Pow256(k + 6) == Pow256(k + 4) * 0x1_0000; }
  }

  // --------------------------------------------------------------- key compression

  /** The 33 bytes `keygen` sends for a finite point. */
  function Compress(s: Params, pt: Point): (key: seq<byte>)
    requires s.c.p > 0 && pt.Affine?
    ensures |key| == PUBKEY_LEN
  {
    ToBytes((pt.x + s.w2m) % s.c.p, 32) + [pt.y % 2]
  }

  /** The x-coordinate a received key stands for. */
  function KeyX(s: Params, key: seq<byte>): int
    requires s.c.p > 0 && |key| == PUBKEY_LEN
  {
    (FromBytes(key[..32]) + s.m2w) % s.c.p
  }

  /** The point `docrypto` makes of 33 received bytes, if they name one. */
  function Decompress(s: Params, key: seq<byte>): Option<Point>
    requires s.c.p > 0 && |key| == PUBKEY_LEN
  {
    LiftX(s, KeyX(s, key), key[32])
  }

  /** A received key is read exactly if the curve has a point with its x-coordinate. */
  lemma DecompressIff(s: Params, key: seq<byte>)
    requires Sound(s) && |key| == PUBKEY_LEN
    ensures Decompress(s, key).Some? <==> HasPoint(s.c, KeyX(s, key))
  {
    LiftsIffOnCurve(s, KeyX(s, key), key[32]);
  }

  lemma ShiftBack(x: int, w: int, m: int, p: int)
    requires p > 0 && 0 <= x < p && Zero(w + m, p)
    ensures ((x + w) % p + m) % p == x
  {
    var y := (x + w) % p;
    var z := (y + m) % p;
    var dy, dz := y - (x + w), z - (y + m);
    ModIsSame(x + w, p);
    ModIsSame(y + m, p);
    Combine3(z - x, 1, dz, 1, dy, 1, w + m, p);
    ReducedUnique(z, x, p);
  }

  lemma FirstBytes(b: seq<byte>, last: byte)
    ensures (b + [last])[..|b|] == b && (b + [last])[|b|] == last
  {
  }

  lemma KeyBytes(s: Params, pt: Point)
    requires Sound(s) && pt.Affine?
    ensures FromBytes(Compress(s, pt)[..32]) == (pt.x + s.w2m) % s.c.p && Compress(s, pt)[32] == pt.y % 2
  {
    var n := (pt.x + s.w2m) % s.c.p;
    Pow256Of32();
    BytesRoundTrip(n, 32);
    FirstBytes(ToBytes(n, 32), pt.y % 2);
  }

  /** The number in the first 32 bytes of a key, shifted by m2w, is the x of its point. */
  lemma KeyNumber(s: Params, pt: Point)
    requires Sound(s) && pt.Affine? && Valid(s.c, pt)
    ensures KeyX(s, Compress(s, pt)) == pt.x
  {
    KeyBytes(s, pt);
    ShiftBack(pt.x, s.w2m, s.m2w, s.c.p);
  }

  /** A key that was sent for a finite point of the curve is read as that very point. */
  lemma KeyRoundTrip(s: Params, pt: Point)
    requires Sound(s) && pt.Affine? && Valid(s.c, pt)
    ensures Decompress(s, Compress(s, pt)) == Some(pt)
  {
    KeyBytes(s, pt);
    KeyNumber(s, pt);
    LiftBack(s, pt);
  }

  /** Whatever is received, what it is read as is a point of the curve. */
  lemma DecompressOnCurve(s: Params, key: seq<byte>)
    requires Sound(s) && |key| == PUBKEY_LEN && Decompress(s, key).Some?
    ensures Valid(s.c, Decompress(s, key).value)
  {
    LiftOnCurve(s, KeyX(s, key), key[32]);
  }

  // -------------------------------------------------------------------- tangling

  /** The x-coordinate tried for a number. */
  function Candidate(s: Params, e: int): int
    requires s.c.p > 0
  {
    (s.sha(e) + s.m2w) % s.c.p
  }

  /** Where the search for a validator point starts. */
  function Seed(s: Params, validatorPoint: Point): int
    requires s.c.p > 0 && validatorPoint.Affine?
  {
    s.sha((validatorPoint.x + s.w2m) % s.c.p)
  }

  /** The search starts at the hash of the 32 bytes the validator's point would be sent as. */
  lemma SeedIsSentKey(s: Params, validatorPoint: Point)
    requires Sound(s) && validatorPoint.Affine?
    ensures Seed(s, validatorPoint) == s.sha(FromBytes(Compress(s, validatorPoint)[..32]))
  {
    KeyBytes(s, validatorPoint);
  }

  predicate Liftable(s: Params, e: int)
    requires s.c.p > 0
  {
    LiftX(s, Candidate(s, e), 0).Some?
  }

  /** The search from `seed` ends at `e`. */
  ghost predicate EndsAt(s: Params, seed: int, e: int)
    requires s.c.p > 0
  {
    seed <= e && Liftable(s, e) && forall i :: seed <= i < e ==> !Liftable(s, i)
  }

  lemma EndsAtOnePlace(s: Params, seed: int, e: int, e': int)
    requires s.c.p > 0 && EndsAt(s, seed, e) && EndsAt(s, seed, e')
    ensures e == e'
  {
  }

  /** The point that is folded in when the search ends at `e`. */
  function Folded(s: Params, e: int, negate: byte): Point
    requires s.c.p > 0
  {
    match LiftX(s, Candidate(s, e), negate)
    case Some(pt) => pt
    case None => Inf
  }

  /** The point folded in is the one that the 32 bytes of the hash, and the sign as the 33rd, are read
      as: the search goes on until a hash is a key. */
  lemma FoldedIsRead(s: Params, e: int, negate: byte)
    requires Sound(s) && 0 <= s.sha(e) < TWO256
    ensures Liftable(s, e) <==> Decompress(s, ToBytes(s.sha(e), 32) + [negate]).Some?
    ensures Liftable(s, e) ==> Decompress(s, ToBytes(s.sha(e), 32) + [negate]) == Some(Folded(s, e, negate))
  {
    Pow256Of32();
    BytesRoundTrip(s.sha(e), 32);
    FirstBytes(ToBytes(s.sha(e), 32), negate);
    LiftableEitherWay(s, e, negate);
  }

  lemma LiftableEitherWay(s: Params, e: int, negate: byte)
    requires s.c.p > 0
    ensures LiftX(s, Candidate(s, e), negate).Some? <==> Liftable(s, e)
  {
  }

  class Target {
    var pt: Point

    constructor (pt: Point)
      ensures this.pt == pt
    {
      this.pt := pt;
    }
  }

  /** The search loop of `tangle`. */
  method SearchLift(s: Params, seed: int, negate: byte, ghost end: int) returns (lifted: Point)
    requires Sound(s) && EndsAt(s, seed, end) && end < TWO256
    ensures lifted == Folded(s, end, negate) && Valid(s.c, lifted)
  {
    var edpx := seed;
    while true
      invariant seed <= edpx <= end
      decreases end - edpx
    {
      var edpxm := Candidate(s, edpx);
      LiftableEitherWay(s, edpx, negate);
      var pt := LiftX(s, edpxm, negate);
      if pt.Some? {
        assert edpx == end;
        LiftOnCurve(s, edpxm, negate);
        return pt.value;
      }
      edpx := edpx + 1;
    }
  }

  /** The multiple of the generator that a validator stands for, and where the search it starts
      ends: by assumption before the numbers tried outgrow 32 bytes. */
  function ValidatorPoint(s: Params, validator: nat): Point
    requires s.c.p > 1
  {
    Ladder(s.c, validator, Inf, s.g)
  }

  ghost predicate SearchEnds(s: Params, validator: nat, end: int)
    requires s.c.p > 1
  {
    ValidatorPoint(s, validator).Affine? ==>
      EndsAt(s, Seed(s, ValidatorPoint(s, validator)), end) && end < TWO256
  }

  /** Folds the validator's point into the target. If that point is infinity, whose coordinate the
      code goes on to read, the program panics: None. */
  method TangleInto(s: Params, target: Target, validator: nat, negate: byte, ghost end: int) returns (v: Option<nat>)
    requires Sound(s) && negate < 2 && Valid(s.c, target.pt) && SearchEnds(s, validator, end)
    modifies target
    ensures v == if ValidatorPoint(s, validator).Affine? then Some(validator) else None
    ensures v.Some? ==> target.pt == Add(s.c, old(target.pt), Folded(s, end, negate)) && Valid(s.c, target.pt)
  {
    if ValidatorPoint(s, validator).Affine? {
      FiniteIsSafe(s.c, validator, s.g);
    }
    var valPt := ScalarMult(s.c, validator, s.g);
    if valPt.None? || valPt.value.Inf? {
      return None;
    }
    var lifted := SearchLift(s, Seed(s, valPt.value), negate, end);
    AddOnCurve(s.c, target.pt, lifted);
    target.pt := Add(s.c, target.pt, lifted);
    return Some(validator);
  }

  /** Untangling undoes tangling: for one validator, folding in with either sign and then with the
      other gives the point there was, for every point of the curve. */
  lemma UntangleUndoesTangle(s: Params, pt: Point, seed: int, e: int, e': int, sign: byte)
    requires Sound(s) && Valid(s.c, pt) && sign < 2
    requires EndsAt(s, seed, e) && EndsAt(s, seed, e')
    ensures Same(s.c, Add(s.c, Add(s.c, pt, Folded(s, e, sign)), Folded(s, e', 1 - sign)), pt)
  {
    var x := Candidate(s, e);
    EndsAtOnePlace(s, seed, e, e');
    LiftsMirror(s, x);
    LiftOnCurve(s, x, 0);
    LiftOnCurve(s, x, 1);
    var l0, l1 := Folded(s, e, 0), Folded(s, e, 1);
    MirrorTurned(s.c, l0, l1);
    if sign == 0 {
      AddThenTakeAway(s.c, pt, l0, l1);
    } else {
      AddThenTakeAway(s.c, pt, l1, l0);
    }
  }

  lemma MirrorTurned(c: Curve, t: Point, u: Point)
    requires c.p > 0 && Mirror(c, t, u)
    ensures Mirror(c, u, t)
  {
    if t.Affine? {
      ZeroDifference(t.x, u.x, c.p);
    }
  }

  /** What a peer that folds the validator into its key sends, the client takes apart again: reading
      the 33 bytes and untangling gives the peer's own point. */
  lemma ServerKeyRecovered(s: Params, own: Point, seed: int, e: int)
    requires Sound(s) && Valid(s.c, own) && EndsAt(s, seed, e)
    requires Add(s.c, own, Folded(s, e, 0)).Affine?
    ensures var sent := Compress(s, Add(s.c, own, Folded(s, e, 0)));
            && Decompress(s, sent).Some?
            && Same(s.c, Add(s.c, Decompress(s, sent).value, Folded(s, e, 1)), own)
  {
    LiftsMirror(s, Candidate(s, e));
    LiftOnCurve(s, Candidate(s, e), 0);
    AddOnCurve(s.c, own, Folded(s, e, 0));
    KeyRoundTrip(s, Add(s.c, own, Folded(s, e, 0)));
    UntangleUndoesTangle(s, own, seed, e, e, 0);
  }

  // --------------------------------------------------------- the two key handlers

  /** What the key exchange ends with. A panic is what becomes of reading a coordinate of infinity. */
  datatype Outcome<T> = Ok(value: T) | NotOnCurve | Panic

  /** The public key for a private scalar, tangled if there is a validator: the point that is sent,
      unless a coordinate of infinity is read on the way. */
  function PublicKey(s: Params, priv: nat, validator: Option<nat>, end: int): Outcome<seq<byte>>
    requires s.c.p > 1
  {
    var own := Ladder(s.c, priv, Inf, s.g);
    var pub := if validator.Some? then Add(s.c, own, Folded(s, end, 0)) else own;
    var lost := validator.Some? && ValidatorPoint(s, validator.value).Inf?;
    if Panics(s.c, priv, s.g) || lost || pub.Inf? then Panic else Ok(Compress(s, pub))
  }

  method Keygen(s: Params, priv: nat, validator: Option<nat>, ghost end: int) returns (key: Outcome<seq<byte>>)
    requires Sound(s)
    requires validator.Some? ==> SearchEnds(s, validator.value, end)
    ensures key == PublicKey(s, priv, validator, end)
    ensures key.Ok? && validator.None? ==> Decompress(s, key.value) == Some(Ladder(s.c, priv, Inf, s.g))
    ensures key.Ok? && validator.Some? ==>
      Decompress(s, key.value) == Some(Add(s.c, Ladder(s.c, priv, Inf, s.g), Folded(s, end, 0)))
  {
    var own := ScalarMult(s.c, priv, s.g);
    if own.None? {
      return Panic;
    }
    var pub := own.value;
    if validator.Some? {
      var target := new Target(pub);
      var v := TangleInto(s, target, validator.value, 0, end);
      if v.None? {
        return Panic;
      }
      pub := target.pt;
    }
    if pub.Inf? {
      return Panic;
    }
    KeyRoundTrip(s, pub);
    return Ok(Compress(s, pub));
  }

  /** The multiple that `docrypto` ends at: of the received point, untangled, the (v h + priv)-fold. */
  function FinalPoint(s: Params, priv: nat, serverKey: seq<byte>, validator: nat, h: nat, end: int): Point
    requires s.c.p > 1 && s.n > 0 && |serverKey| == PUBKEY_LEN
  {
    match Decompress(s, serverKey)
    case None => Inf
    case Some(sent) =>
      Ladder(s.c, ((validator * h) % s.n + priv) % s.n, Inf, Add(s.c, sent, Folded(s, end, 1)))
  }

  /** What `docrypto` comes to: an error exactly if the key names no point, and otherwise the
      number the response is hashed from; `h` is the hash of the two keys. */
  function Agreement(s: Params, priv: nat, serverKey: seq<byte>, validator: nat, h: nat, end: int): Outcome<int>
    requires s.c.p > 1 && s.n > 0 && |serverKey| == PUBKEY_LEN
  {
    if Decompress(s, serverKey).None? then NotOnCurve
    else if ValidatorPoint(s, validator).Inf? then Panic
    else
      var pt := FinalPoint(s, priv, serverKey, validator, h, end);
      if pt.Affine? then Ok((pt.x + s.w2m) % s.c.p) else Panic
  }

  lemma {:induction false} LadderOnCurve(c: Curve, k: nat, res: Point, cur: Point)
    requires Good(c) && Valid(c, res) && Valid(c, cur)
    ensures Valid(c, Ladder(c, k, res, cur))
  {
    if k > 0 {
      AddOnCurve(c, res, cur);
      DoubleOnCurve(c, cur);
      LadderOnCurve(c, k / 2, if k % 2 == 1 then Add(c, res, cur) else res, Double(c, cur));
    }
  }

  lemma FinalPointOnCurve(s: Params, priv: nat, serverKey: seq<byte>, validator: nat, h: nat, end: int)
    requires Sound(s) && |serverKey| == PUBKEY_LEN && Liftable(s, end)
    ensures Valid(s.c, FinalPoint(s, priv, serverKey, validator, h, end))
  {
    var sent := Decompress(s, serverKey);
    if sent.Some? {
      DecompressOnCurve(s, serverKey);
      LiftableEitherWay(s, end, 1);
      LiftOnCurve(s, Candidate(s, end), 1);
      var server := Add(s.c, sent.value, Folded(s, end, 1));
      AddOnCurve(s.c, sent.value, Folded(s, end, 1));
      LadderOnCurve(s.c, ((validator * h) % s.n + priv) % s.n, Inf, server);
    }
  }

  /** The number `docrypto` reaches: the one in the 32 bytes that the final multiple would be sent as. It
      is below p, and shifted by m2w it is the x of that multiple. */
  lemma AgreedNumber(s: Params, priv: nat, serverKey: seq<byte>, validator: nat, h: nat, end: int)
    requires Sound(s) && |serverKey| == PUBKEY_LEN && SearchEnds(s, validator, end)
    requires Agreement(s, priv, serverKey, validator, h, end).Ok?
    ensures var z := Agreement(s, priv, serverKey, validator, h, end).value;
            var pt := FinalPoint(s, priv, serverKey, validator, h, end);
            && pt.Affine? && 0 <= z < s.c.p && (z + s.m2w) % s.c.p == pt.x
            && z == FromBytes(Compress(s, pt)[..32])
  {
    FinalPointOnCurve(s, priv, serverKey, validator, h, end);
    var pt := FinalPoint(s, priv, serverKey, validator, h, end);
    KeyBytes(s, pt);
    ShiftBack(pt.x, s.w2m, s.m2w, s.c.p);
  }

  method Docrypto(s: Params, priv: nat, serverKey: seq<byte>, validator: nat, h: nat, ghost end: int)
      returns (z: Outcome<int>)
    requires Sound(s) && |serverKey| == PUBKEY_LEN && SearchEnds(s, validator, end)
    ensures z == Agreement(s, priv, serverKey, validator, h, end)
    ensures z == NotOnCurve <==> !HasPoint(s.c, KeyX(s, serverKey))
    ensures z.Ok? ==> var pt := FinalPoint(s, priv, serverKey, validator, h, end);
                      pt.Affine? && 0 <= z.value < s.c.p && (z.value + s.m2w) % s.c.p == pt.x
  {
    DecompressIff(s, serverKey);
    var serverPub := Decompress(s, serverKey);
    if serverPub.None? {
      return NotOnCurve;
    }
    DecompressOnCurve(s, serverKey);
    var target := new Target(serverPub.value);
    var v := TangleInto(s, target, validator, 1, end);
    if v.None? {
      return Panic;
    }
    var vh := (v.value * h) % s.n;
    vh := (vh + priv) % s.n;
    if Ladder(s.c, vh, Inf, target.pt).Affine? {
      FiniteIsSafe(s.c, vh, target.pt);
      AgreedNumber(s, priv, serverKey, validator, h, end);
    }
    var pt := ScalarMult(s.c, vh, target.pt);
    return if pt.Some? && pt.value.Affine? then Ok((pt.value.x + s.w2m) % s.c.p) else Panic;
  }
}
