/** Double-and-add computes multiples. Only here is it assumed, as a hypothesis, that `add` is
    associative on the curve; that it is commutative is proved. */
module ScalarLaw {
  import opened Field
  import opened Curve
  import opened EcSrp
  import Multiples
  import opened Tangle
  import opened Uint32
  import opened Wrappers
  import opened Limits

  ghost predicate Element(c: Curve, pt: Point)
    requires c.p > 0
  {
    Valid(c, pt) && Reduced(c, pt)
  }

  ghost predicate AssociativeAt(c: Curve, r: Point, s: Point, t: Point)
    requires c.p > 1
  {
    Add(c, Add(c, r, s), t) == Add(c, r, Add(c, s, t))
  }

  ghost predicate Associative(c: Curve)
    requires c.p > 1
  {
    forall r, s, t {:trigger AssociativeAt(c, r, s, t)} ::
      Element(c, r) && Element(c, s) && Element(c, t) ==> AssociativeAt(c, r, s, t)
  }

  ghost function Group(c: Curve): Multiples.Monoid<Point>
    requires c.p > 1
  {
    Multiples.Monoid((s, t) => Add(c, s, t), Inf, pt => Element(c, pt))
  }

  lemma GroupLawful(c: Curve)
    requires Good(c) && Associative(c)
    ensures Multiples.Lawful(Group(c))
  {
    var m := Group(c);
    forall s, t | m.elem(s) && m.elem(t)
      ensures Multiples.ClosedAt(m, s, t)
    {
      AddOnCurve(c, s, t);
    }
    forall r, s, t | m.elem(r) && m.elem(s) && m.elem(t)
      ensures Multiples.AssociativeAt(m, r, s, t)
    {
      assert AssociativeAt(c, r, s, t);
    }
  }

  /** The sum of `k` copies of a point. */
  function Times(c: Curve, k: nat, pt: Point): Point
    requires c.p > 1
  {
    if k == 0 then Inf else Add(c, Times(c, k - 1, pt), pt)
  }

  lemma TimesInGroup(c: Curve, k: nat, pt: Point)
    requires c.p > 1
    ensures Times(c, k, pt) == Multiples.Times(Group(c), k, pt)
  {
  }

  lemma {:induction false} LadderInGroup(c: Curve, k: nat, res: Point, cur: Point)
    requires Good(c) && Element(c, res) && Element(c, cur)
    ensures Ladder(c, k, res, cur) == Multiples.Ladder(Group(c), k, res, cur)
  {
    if k > 0 {
      var next := if k % 2 == 1 then Add(c, res, cur) else res;
      AddOnCurve(c, res, cur);
      DoubleOnCurve(c, cur);
      LadderInGroup(c, k / 2, next, Double(c, cur));
    }
  }

  /** `scalarMult(k, pt)` is the k-fold sum of `pt`. */
  lemma ScalarMultIsTimes(c: Curve, k: nat, pt: Point)
    requires Good(c) && Associative(c) && Element(c, pt)
    ensures Ladder(c, k, Inf, pt) == Times(c, k, pt)
  {
    GroupLawful(c);
    LadderInGroup(c, k, Inf, pt);
    Multiples.LadderIsTimes(Group(c), k, Inf, pt);
    TimesInGroup(c, k, pt);
  }

  // ------------------------------------------------------- when scalarMult panics

  lemma {:induction false} AddsNilInGroup(c: Curve, k: nat, res: Point, cur: Point)
    requires Good(c) && Element(c, res) && Element(c, cur)
    ensures AddsNil(c, k, res, cur) <==> Multiples.AddsUnits(Group(c), k, res, cur)
  {
    if k > 0 {
      AddOnCurve(c, res, cur);
      DoubleOnCurve(c, cur);
      AddsNilInGroup(c, k / 2, if k % 2 == 1 then Add(c, res, cur) else res, Double(c, cur));
    }
  }

  lemma {:induction false} DoubledInGroup(c: Curve, j: nat, pt: Point)
    requires c.p > 1
    ensures Doubled(c, j, pt) == Multiples.Doubled(Group(c), j, pt)
  {
    if j > 0 {
      DoubledInGroup(c, j - 1, Double(c, pt));
    }
  }

  /** `scalarMult(k, pt)` panics exactly if it is given infinity, or `pt` doubles to infinity in some
      number of steps such that k, not 0, is a multiple of that power of two. */
  lemma PanicsIff(c: Curve, k: nat, pt: Point)
    requires Good(c) && Associative(c) && Element(c, pt)
    ensures Panics(c, k, pt)
       <==> pt.Inf? || (k > 0 && exists j: nat :: DoublesAway(c, k, pt, j))
  {
    var m := Group(c);
    GroupLawful(c);
    AddsNilInGroup(c, k, Inf, pt);
    Multiples.AddsUnitsIff(m, k, pt);
    forall j: nat
      ensures Multiples.DoublesAway(m, k, pt, j) <==> DoublesAway(c, k, pt, j)
    {
      DoubledInGroup(c, j, pt);
      Multiples.Divides2Is(j, k);
    }
  }

  /** A finite point of odd order never doubles to infinity. */
  lemma OddOrderNeverDoublesAway(c: Curve, n: nat, pt: Point, j: nat)
    requires Good(c) && Associative(c) && Element(c, pt) && pt.Affine? && n % 2 == 1 && Times(c, n, pt) == Inf
    ensures Doubled(c, j, pt).Affine?
  {
    GroupLawful(c);
    TimesInGroup(c, n, pt);
    DoubledInGroup(c, j, pt);
    if Doubled(c, j, pt).Inf? {
      Multiples.OddAndDoubled(Group(c), n, j, pt);
    }
  }

  /** So no multiple of it panics: this is so for the generator, whose order is odd. */
  lemma OddOrderNeverPanics(c: Curve, k: nat, n: nat, pt: Point)
    requires Good(c) && Associative(c) && Element(c, pt) && pt.Affine? && n % 2 == 1 && Times(c, n, pt) == Inf
    ensures !Panics(c, k, pt)
  {
    PanicsIff(c, k, pt);
    forall j: nat
      ensures Doubled(c, j, pt).Affine?
    {
      OddOrderNeverDoublesAway(c, n, pt, j);
    }
  }

  /** Nor does it have y equal to 0. */
  lemma OddOrderHasY(c: Curve, n: nat, pt: Point)
    requires Good(c) && Associative(c) && Element(c, pt) && n % 2 == 1 && Times(c, n, pt) == Inf
    ensures pt.Affine? ==> pt.y != 0
  {
    if pt.Affine? {
      OddOrderNeverDoublesAway(c, n, pt, 1);
      assert Doubled(c, 1, pt) == Doubled(c, 0, Double(c, pt));
    }
  }

  /** The client's scalar: with vh = v * h mod n, (vh + priv) mod n times a point whose order divides
      n is h times v times the point, plus priv times the point. */
  lemma ClientScalar(c: Curve, v: nat, h: nat, vh: nat, priv: nat, n: nat, pt: Point)
    requires Good(c) && Associative(c) && Element(c, pt) && n > 0 && Times(c, n, pt) == Inf
    requires vh == (v * h) % n
    ensures Ladder(c, (vh + priv) % n, Inf, pt) == Add(c, Times(c, h, Times(c, v, pt)), Times(c, priv, pt))
  {
    var scalar := (vh + priv) % n;
    GroupLawful(c);
    TimesInGroup(c, n, pt);
    Multiples.ClientScalar(Group(c), v, h, vh, priv, n, pt);
    ScalarMultIsTimes(c, scalar, pt);
    TimesInGroup(c, scalar, pt);
    TimesInGroup(c, v, pt);
    TimesInGroup(c, h, Times(c, v, pt));
    TimesInGroup(c, priv, pt);
  }

  lemma SameAndReduced(c: Curve, q: Point, pt: Point)
    requires OddPrime(c.p) && Same(c, q, pt) && Ranged(c, q) && Reduced(c, pt) && (pt.Affine? ==> pt.y != 0)
    ensures q == pt
  {
    if q.Affine? {
      ReducedUnique(q.x, pt.x, c.p);
      if q.y == c.p {
        MultipleIsZero(1, c.p);
        Combine2(pt.y, 1, c.p, -1, q.y - pt.y, c.p);
        ReducedUnique(pt.y, 0, c.p);
      }
      ReducedUnique(q.y, pt.y, c.p);
    }
  }

  /** The client ends up at the point the exchange is meant to agree on: from the 33 bytes of a peer
      whose own point is `own`, tangled with the validator `v`, it reaches h times v times that
      point plus priv times that point. */
  lemma ClientReachesAgreedPoint(s: Params, own: Point, seed: int, e: int, v: nat, h: nat, vh: nat, priv: nat)
    requires Sound(s) && Associative(s.c) && Element(s.c, own)
    requires s.n % 2 == 1 && Times(s.c, s.n, own) == Inf && vh == (v * h) % s.n
    requires EndsAt(s, seed, e) && Add(s.c, own, Folded(s, e, 0)).Affine?
    ensures var sent := Decompress(s, Compress(s, Add(s.c, own, Folded(s, e, 0))));
            && sent.Some?
            && Ladder(s.c, (vh + priv) % s.n, Inf, Add(s.c, sent.value, Folded(s, e, 1)))
               == Add(s.c, Times(s.c, h, Times(s.c, v, own)), Times(s.c, priv, own))
  {
    var key := Compress(s, Add(s.c, own, Folded(s, e, 0)));
    OddOrderHasY(s.c, s.n, own);
    ServerKeyRecovered(s, own, seed, e);
    DecompressOnCurve(s, key);
    LiftsMirror(s, Candidate(s, e));
    LiftOnCurve(s, Candidate(s, e), 1);
    var server := Add(s.c, Decompress(s, key).value, Folded(s, e, 1));
    AddOnCurve(s.c, Decompress(s, key).value, Folded(s, e, 1));
    SameAndReduced(s.c, server, own);
    ClientScalar(s.c, v, h, vh, priv, s.n, own);
  }

  lemma BothSides(c: Curve, b: nat, v: nat, h: nat, priv: nat, n: nat, g: Point)
    requires Good(c) && Associative(c) && Element(c, g)
    ensures Add(c, Times(c, h, Times(c, v, Times(c, b, g))), Times(c, priv, Times(c, b, g)))
         == Times(c, b, Add(c, Times(c, priv, g), Times(c, h, Times(c, v, g))))
    ensures Times(c, n, g) == Inf ==> Times(c, n, Times(c, b, g)) == Inf
    ensures Element(c, Times(c, b, g))
  {
    var m := Group(c);
    GroupLawful(c);
    forall k: nat, pt
      ensures Times(c, k, pt) == Multiples.Times(m, k, pt)
    {
      TimesInGroup(c, k, pt);
    }
    Multiples.BothSides(m, b, v, h, priv, g);
    Multiples.TimesElement(m, b, g);
    if Times(c, n, g) == Inf {
      Multiples.OrderOfMultiple(m, n, b, g);
    }
  }

  /** The two sides agree. The peer holds the scalar b and the validator v and tangles its key; the
      client holds priv. From each other's 33 bytes the client reaches the point that the peer
      computes as b times the sum of the client's point and h times v times the generator. */
  lemma SidesAgree(s: Params, b: nat, seed: int, e: int, v: nat, h: nat, vh: nat, priv: nat)
    requires Sound(s) && Associative(s.c) && vh == (v * h) % s.n
    requires s.n % 2 == 1 && Times(s.c, s.n, s.g) == Inf
    requires Times(s.c, priv, s.g).Affine?
    requires var own := Times(s.c, b, s.g);
             EndsAt(s, seed, e) && Add(s.c, own, Folded(s, e, 0)).Affine?
    ensures var fromPeer := Decompress(s, Compress(s, Add(s.c, Times(s.c, b, s.g), Folded(s, e, 0))));
            var fromClient := Decompress(s, Compress(s, Times(s.c, priv, s.g)));
            && fromPeer.Some? && fromClient.Some?
            && Ladder(s.c, (vh + priv) % s.n, Inf, Add(s.c, fromPeer.value, Folded(s, e, 1)))
               == Times(s.c, b, Add(s.c, fromClient.value, Times(s.c, h, Times(s.c, v, s.g))))
  {
    BothSides(s.c, b, v, h, priv, s.n, s.g);
    BothSides(s.c, priv, v, h, priv, s.n, s.g);
    ClientReachesAgreedPoint(s, Times(s.c, b, s.g), seed, e, v, h, vh, priv);
    KeyRoundTrip(s, Times(s.c, priv, s.g));
  }

  /** What `keygen` sends: the point that the reader then has. */
  lemma PublicKeyIs(s: Params, priv: nat, validator: Option<nat>, end: int)
    requires Sound(s) && Associative(s.c) && PublicKey(s, priv, validator, end).Ok?
    ensures var own := Times(s.c, priv, s.g);
            var pub := if validator.Some? then Add(s.c, own, Folded(s, end, 0)) else own;
            && pub.Affine? && PublicKey(s, priv, validator, end) == Ok(Compress(s, pub))
            && (validator.Some? ==> ValidatorPoint(s, validator.value).Affine?)
  {
    ScalarMultIsTimes(s.c, priv, s.g);
  }

  /** A result of `docrypto` for a point: a number below p that, shifted by m2w, is its x; a panic if it
      is infinity. */
  predicate ResultFor(s: Params, result: Outcome<int>, pt: Point)
    requires s.c.p > 0
  {
    match result
    case Ok(z) => pt.Affine? && 0 <= z < s.c.p && (z + s.m2w) % s.c.p == pt.x
    case Panic => pt.Inf?
    case NotOnCurve => false
  }

  lemma AgreementIsFor(s: Params, priv: nat, serverKey: seq<byte>, v: nat, h: nat, end: int)
    requires Sound(s) && |serverKey| == PUBKEY_LEN && SearchEnds(s, v, end)
    requires Decompress(s, serverKey).Some? && ValidatorPoint(s, v).Affine?
    ensures ResultFor(s, Agreement(s, priv, serverKey, v, h, end), FinalPoint(s, priv, serverKey, v, h, end))
  {
    if Agreement(s, priv, serverKey, v, h, end).Ok? {
      AgreedNumber(s, priv, serverKey, v, h, end);
    }
  }

  /** The point the peer computes from the client's key: b times the sum of the client's point and h times
      v times the generator. */
  function PeerPoint(s: Params, b: nat, clientPoint: Point, v: nat, h: nat): Point
    requires s.c.p > 1
  {
    Times(s.c, b, Add(s.c, clientPoint, Times(s.c, h, Times(s.c, v, s.g))))
  }

  lemma FinalPointIs(s: Params, priv: nat, key: seq<byte>, v: nat, h: nat, vh: nat, end: int)
    requires s.c.p > 1 && s.n > 0 && |key| == PUBKEY_LEN && Decompress(s, key).Some? && vh == (v * h) % s.n
    ensures FinalPoint(s, priv, key, v, h, end)
         == Ladder(s.c, (vh + priv) % s.n, Inf, Add(s.c, Decompress(s, key).value, Folded(s, end, 1)))
  {
  }

  lemma OwnKeyIsRead(s: Params, priv: nat, own: Point)
    requires Sound(s) && Associative(s.c) && own == Times(s.c, priv, s.g) && own.Affine?
    ensures Decompress(s, Compress(s, own)) == Some(own)
  {
    GroupLawful(s.c);
    TimesInGroup(s.c, priv, s.g);
    Multiples.TimesElement(Group(s.c), priv, s.g);
    KeyRoundTrip(s, own);
  }

  lemma FinalIsPeerPoint(s: Params, b: nat, v: nat, h: nat, vh: nat, priv: nat, end: int, sent: Point, own: Point)
    requires Sound(s) && Associative(s.c) && s.n % 2 == 1 && Times(s.c, s.n, s.g) == Inf && vh == (v * h) % s.n
    requires ValidatorPoint(s, v).Affine? && SearchEnds(s, v, end)
    requires sent == Add(s.c, Times(s.c, b, s.g), Folded(s, end, 0)) && sent.Affine?
    requires own == Times(s.c, priv, s.g) && own.Affine?
    ensures Decompress(s, Compress(s, sent)).Some? && Decompress(s, Compress(s, own)) == Some(own)
    ensures FinalPoint(s, priv, Compress(s, sent), v, h, end) == PeerPoint(s, b, own, v, h)
  {
    SidesAgree(s, b, Seed(s, ValidatorPoint(s, v)), end, v, h, vh, priv);
    OwnKeyIsRead(s, priv, own);
    FinalPointIs(s, priv, Compress(s, sent), v, h, vh, end);
  }

  /** What comes out of the exchange. The peer, with the scalar b, sends its tangled public key, and the
      client its plain one: `docrypto` has a result for the point that the peer computes from the
      client's key. */
  lemma ExchangeAgrees(s: Params, b: nat, v: nat, h: nat, priv: nat, end: int,
                       serverKey: seq<byte>, clientKey: seq<byte>)
    requires Sound(s) && Associative(s.c) && s.n % 2 == 1 && Times(s.c, s.n, s.g) == Inf
    requires SearchEnds(s, v, end)
    requires PublicKey(s, b, Some(v), end) == Ok(serverKey) && PublicKey(s, priv, None, end) == Ok(clientKey)
    ensures |serverKey| == |clientKey| == PUBKEY_LEN && Decompress(s, clientKey).Some?
    ensures ResultFor(s, Agreement(s, priv, serverKey, v, h, end),
                      PeerPoint(s, b, Decompress(s, clientKey).value, v, h))
  {
    PublicKeyIs(s, b, Some(v), end);
    PublicKeyIs(s, priv, None, end);
    var clientPoint := Times(s.c, priv, s.g);
    var sent := Add(s.c, Times(s.c, b, s.g), Folded(s, end, 0));
    FinalIsPeerPoint(s, b, v, h, (v * h) % s.n, priv, end, sent, clientPoint);
    AgreementIsFor(s, priv, serverKey, v, h, end);
  }

  /** `add` is commutative on the curve, from the formulas alone. */
  lemma AddCommutes(c: Curve, s: Point, t: Point)
    requires Good(c) && Valid(c, s) && Valid(c, t)
    ensures Add(c, s, t) == Add(c, t, s)
  {
    if s.Affine? && t.Affine? {
      ZeroDifference(s.x, t.x, c.p);
      if Opposite(c, s, t) {
        AddOpposite(c, s, t);
        AddOpposite(c, t, s);
      } else {
        var l := SlopeExists(c, s, t);
        SlopeTurned(c, s, t, l);
        AddBySlope(c, s, t, l);
        AddBySlope(c, t, s, l);
        SameThird(c, s, t, l, Add(c, s, t), Add(c, t, s));
      }
    }
  }

  lemma SlopeTurned(c: Curve, s: Point, t: Point, l: int)
    requires Good(c) && s.Affine? && t.Affine? && IsSlope(c, s, t, l)
    ensures IsSlope(c, t, s, l)
  {
    ZeroDifference(s.x, t.x, c.p);
    if Zero(s.x - t.x, c.p) {
      ZeroDifference(s.y, t.y, c.p);
      TangentAtSame(c, s, t, l);
    } else {
      var e := l * (s.x - t.x) - (s.y - t.y);
      assert e == (-1) * (l * (t.x - s.x) - (t.y - s.y));
      Multiple(e, -1, l * (t.x - s.x) - (t.y - s.y), c.p);
    }
  }

  lemma SameThird(c: Curve, s: Point, t: Point, l: int, q: Point, r: Point)
    requires Good(c) && s.Affine? && t.Affine? && IsSlope(c, s, t, l)
    requires MirrorsThird(c, s, t, l, q) && MirrorsThird(c, t, s, l, r)
    ensures q == r
  {
    var p := c.p;
    var qx, rx := q.x - (l * l - s.x - t.x), r.x - (l * l - t.x - s.x);
    Combine2(q.x - r.x, 1, qx, -1, rx, p);
    ReducedUnique(q.x, r.x, p);
    var qy, ry := q.y - (l * (s.x - q.x) - s.y), r.y - (l * (t.x - r.x) - t.y);
    SecondOnLine(c, s, t, l);
    var on := t.y - (l * t.x + Intercept(s, l));
    SameThirdAlgebra(l, s.x, s.y, t.x, t.y, q.x, q.y, r.y);
    Combine3(q.y - r.y, 1, qy, -1, ry, 1, on, p);
    ReducedUnique(q.y, r.y, p);
  }

  lemma SameThirdAlgebra(l: int, sx: int, sy: int, tx: int, ty: int, x: int, qy: int, ry: int)
    ensures qy - ry == 1 * (qy - (l * (sx - x) - sy)) + (-1) * (ry - (l * (tx - x) - ty))
                       + 1 * (ty - (l * tx + (sy - l * sx)))
  {
    assert l * (sx - x) - l * (tx - x) == l * sx - l * tx;
  }

  /** With a generator of odd order, `keygen` panics only where the key itself, or the validator's
      point, is infinity. */
  lemma KeygenMultiplies(s: Params, priv: nat)
    requires Sound(s) && Associative(s.c) && s.g.Affine? && s.n % 2 == 1 && Times(s.c, s.n, s.g) == Inf
    ensures !Panics(s.c, priv, s.g)
  {
    OddOrderNeverPanics(s.c, priv, s.n, s.g);
  }
}
