/** The point handling of the EC-SRP exchange (`scalarMult`, `liftX`, `tangle`, `keygen` and
    `docrypto` in src/internal/mactelnet/mtwei.go). */
module EcSrp {
  import opened Uint32
  import opened Field
  import opened Curve
  import Multiples
  import opened Wrappers

  // The state of the computation: the curve, its generator of order n, the offsets between the two
  // forms of an x-coordinate, and what is taken from outside: a square root modulo p, and SHA-256
  // of a 32-byte big-endian number as a number.
  datatype Params = Params(
    c: Curve,
    g: Point,
    n: int,
    w2m: int,
    m2w: int,
    sqrt: int -> Option<int>,
    sha: int -> int)

  const TWO256: int := 0x1_0000_0000_0000_0000_0000_0000_0000_0000_0000_0000_0000_0000_0000_0000_0000_0000

  ghost predicate Sound(s: Params) {
    && Good(s.c) && s.c.p < TWO256
    && Zero(s.w2m + s.m2w, s.c.p)
    && s.n > 0
    && Valid(s.c, s.g) && Reduced(s.c, s.g)
    && IsModSqrt(s.sqrt, s.c.p)
  }

  function RootModFive(a: int): Option<int> {
    var r := a % 5;
    if r == 0 then Some(0) else if r == 1 then Some(1) else if r == 4 then Some(2) else None
  }

  lemma SquareModFive(y: int, a: int, r: int)
    requires 0 <= y < 5 && r == a % 5
    ensures Zero(y * y - a, 5) <==> r == [0, 1, 4, 4, 1][y]
  {
    var square := [0, 1, 4, 9, 16][y];
    assert y * y == square;
  }

  lemma RootModFiveIsRoot(a: int, r: int)
    requires r == a % 5
    ensures RootOrNone(RootModFive(a), a, 5)
  {
    forall y | 0 <= y < 5
      ensures Zero(y * y - a, 5) <==> r == [0, 1, 4, 4, 1][y]
    {
      SquareModFive(y, a, r);
    }
    if r == 0 || r == 1 || r == 4 {
      SquareModFive(RootModFive(a).value, a, r);
    }
  }

  lemma FiveIsPrime()
    ensures Prime(5)
  {
    forall d | 2 <= d < 5
      ensures !Divides(d, 5)
    {
      assert d == 2 || d == 3 || d == 4;
    }
  }

  /** The conditions can be met: a curve of nine points modulo 5. */
  lemma SoundIsMet(sha: int -> int)
    ensures Sound(Params(Curve(5, 1, 1), Affine(0, 1), 9, 2, 3, RootModFive, sha))
  {
    FiveIsPrime();
    forall a
      ensures RootOrNone(RootModFive(a), a, 5)
    {
      RootModFiveIsRoot(a, a % 5);
    }
    assert Gap(Curve(5, 1, 1), 0, 1) == 0;
  }

  // ------------------------------------------------------------- double and add

  function BitLen(k: nat): nat {
    if k == 0 then 0 else 1 + BitLen(k / 2)
  }

  /** `k` without its lowest `i` bits. */
  function Shifted(k: nat, i: nat): nat {
    if i == 0 then k else Shifted(k / 2, i - 1)
  }

  function Bit(k: nat, i: nat): nat {
    Shifted(k, i) % 2
  }

  lemma ShiftOnce(k: nat, i: nat)
    ensures Shifted(k, i + 1) == Shifted(k, i) / 2
    ensures BitLen(Shifted(k, i)) == if i <= BitLen(k) then BitLen(k) - i else 0
  {
    if i > 0 {
      ShiftOnce(k / 2, i - 1);
    }
  }

  /** What is still to be done for the bits of `k` when the loop holds `res` and `cur`. */
  function Ladder(c: Curve, k: nat, res: Point, cur: Point): Point
    requires c.p > 1
  {
    if k == 0 then res
    else Ladder(c, k / 2, if k % 2 == 1 then Add(c, res, cur) else res, Double(c, cur))
  }

  /** Whether the loop ever adds two infinities. In the Go code infinity has no coordinates, and
      `add` copies those of its second operand when the first is infinity: the program panics. */
  predicate AddsNil(c: Curve, k: nat, res: Point, cur: Point)
    requires c.p > 1
  {
    k > 0 && ((k % 2 == 1 && res.Inf? && cur.Inf?)
              || AddsNil(c, k / 2, if k % 2 == 1 then Add(c, res, cur) else res, Double(c, cur)))
  }

  /** Whether `scalarMult` panics; it copies the coordinates of its operand first. */
  predicate Panics(c: Curve, k: nat, pt: Point)
    requires c.p > 1
  {
    pt.Inf? || AddsNil(c, k, Inf, pt)
  }

  lemma {:induction false} InfinityStays(c: Curve, k: nat)
    requires c.p > 1
    ensures Ladder(c, k, Inf, Inf) == Inf
  {
    if k > 0 {
      InfinityStays(c, k / 2);
    }
  }

  lemma {:induction false} NilLeadsToInfinity(c: Curve, k: nat, res: Point, cur: Point)
    requires c.p > 1 && AddsNil(c, k, res, cur)
    ensures Ladder(c, k, res, cur) == Inf
  {
    if k % 2 == 1 && res.Inf? && cur.Inf? {
      InfinityStays(c, k);
    } else {
      NilLeadsToInfinity(c, k / 2, if k % 2 == 1 then Add(c, res, cur) else res, Double(c, cur));
    }
  }

  /** A finite multiple is computed without a panic. */
  lemma FiniteIsSafe(c: Curve, k: nat, pt: Point)
    requires c.p > 1 && Ladder(c, k, Inf, pt).Affine?
    ensures !Panics(c, k, pt)
  {
    InfinityStays(c, k);
    if AddsNil(c, k, Inf, pt) {
      NilLeadsToInfinity(c, k, Inf, pt);
    }
  }

  /** The point after `j` doublings. */
  function Doubled(c: Curve, j: nat, pt: Point): Point
    requires c.p > 1
  {
    if j == 0 then pt else Doubled(c, j - 1, Double(c, pt))
  }

  /** `j` doublings reach infinity, and the scalar is a multiple of 2^j. */
  predicate DoublesAway(c: Curve, k: nat, pt: Point, j: nat)
    requires c.p > 1
  {
    Doubled(c, j, pt).Inf? && k % Multiples.Pow2(j) == 0
  }

  lemma {:induction false} NilAdded(c: Curve, k: nat, pt: Point, j: nat)
    requires c.p > 1 && k > 0 && Doubled(c, j, pt).Inf? && Multiples.Divides2(j, k)
    ensures AddsNil(c, k, Inf, pt)
  {
    if k % 2 == 0 {
      NilAdded(c, k / 2, Double(c, pt), if j == 0 then 0 else j - 1);
    }
  }

  /** A panic that can be foreseen, without any law of addition: the point doubles to infinity, and the
      scalar has at least as many factors of two as that takes doublings. */
  lemma DoublingPanics(c: Curve, k: nat, pt: Point, j: nat)
    requires c.p > 1 && k > 0 && DoublesAway(c, k, pt, j)
    ensures Panics(c, k, pt)
  {
    Multiples.Divides2Is(j, k);
    NilAdded(c, k, pt, j);
  }

  /** For instance, every even multiple of a point whose y is 0. */
  lemma EvenMultiplePanics(c: Curve, k: nat, x: int)
    requires c.p > 1 && k > 0 && k % 2 == 0
    ensures Panics(c, k, Affine(x, 0))
  {
    assert Doubled(c, 1, Affine(x, 0)) == Doubled(c, 0, Double(c, Affine(x, 0)));
    assert Multiples.Pow2(1) == 2;
    DoublingPanics(c, k, Affine(x, 0), 1);
  }

  /** Double-and-add over the bits of `k`; None stands for the panic. */
  method ScalarMult(c: Curve, k: nat, pt: Point) returns (r: Option<Point>)
    requires Good(c) && Valid(c, pt)
    ensures r.None? <==> Panics(c, k, pt)
    ensures r.Some? ==> r.value == Ladder(c, k, Inf, pt)
    ensures r.Some? ==> Valid(c, r.value) && (Reduced(c, pt) ==> Reduced(c, r.value))
  {
    if pt.Inf? {
      return None;
    }
    var res := Inf;
    var cur := pt;
    var i := 0;
    while i < BitLen(k)
      invariant 0 <= i <= BitLen(k)
      invariant Valid(c, res) && Valid(c, cur)
      invariant Reduced(c, pt) ==> Reduced(c, res) && Reduced(c, cur)
      invariant Ladder(c, Shifted(k, i), res, cur) == Ladder(c, k, Inf, pt)
      invariant AddsNil(c, Shifted(k, i), res, cur) <==> AddsNil(c, k, Inf, pt)
    {
      ShiftOnce(k, i);
      if Bit(k, i) == 1 {
        if res.Inf? && cur.Inf? {
          return None;
        }
        AddOnCurve(c, res, cur);
        res := Add(c, res, cur);
      }
      DoubleOnCurve(c, cur);
      cur := Double(c, cur);
      i := i + 1;
    }
    ShiftOnce(k, i);
    return Some(res);
  }

  // ---------------------------------------------------------------- lifting an x

  function RightSide(c: Curve, x: int): int
    requires c.p > 0
  {
    ((x * x) % c.p * x + c.a * x + c.b) % c.p
  }

  /** The point with this x whose y has this lowest bit, if there is one. */
  function LiftX(s: Params, x: int, yParity: byte): Option<Point>
    requires s.c.p > 0
  {
    match s.sqrt(RightSide(s.c, x))
    case None => None
    case Some(y) => Some(Affine(x, if y % 2 != yParity then s.c.p - y else y))
  }

  lemma RightSideIsCubic(c: Curve, x: int)
    requires c.p > 0
    ensures Zero(RightSide(c, x) - (x * x * x + c.a * x + c.b), c.p)
  {
    var raw := (x * x) % c.p * x + c.a * x + c.b;
    ModIsSame(raw, c.p);
    ModIsSame(x * x, c.p);
    var e := RightSide(c, x) - (x * x * x + c.a * x + c.b);
    assert e == 1 * (RightSide(c, x) - raw) + x * ((x * x) % c.p - x * x);
    Combine2(e, 1, RightSide(c, x) - raw, x, (x * x) % c.p - x * x, c.p);
  }

  /** Being the root of the right side is being on the curve; the other root is as well. */
  lemma RootsOnCurve(c: Curve, x: int, y: int)
    requires c.p > 0
    ensures Zero(y * y - RightSide(c, x), c.p) <==> OnCurve(c, Affine(x, y))
    ensures OnCurve(c, Affine(x, y)) ==> OnCurve(c, Affine(x, c.p - y))
  {
    RightSideIsCubic(c, x);
    var cubic := x * x * x + c.a * x + c.b;
    ZeroDifference(RightSide(c, x), cubic, c.p);
    ZeroDifference(y * y, RightSide(c, x), c.p);
    PartsOfZero(y * y - RightSide(c, x), -(y * y - cubic), cubic - RightSide(c, x), c.p);
    ZeroDifference(y * y, cubic, c.p);
    if OnCurve(c, Affine(x, y)) {
      MultipleIsZero(1, c.p);
      var d := c.p - y;
      assert d * d - cubic == 1 * (y * y - cubic) + (c.p - 2 * y) * c.p;
      Combine2(d * d - cubic, 1, y * y - cubic, c.p - 2 * y, c.p, c.p);
    }
  }

  lemma LiftOnCurve(s: Params, x: int, yParity: byte)
    requires Good(s.c) && IsModSqrt(s.sqrt, s.c.p) && 0 <= x < s.c.p && LiftX(s, x, yParity).Some?
    ensures Valid(s.c, LiftX(s, x, yParity).value)
  {
    var rhs := RightSide(s.c, x);
    assert RootOrNone(s.sqrt(rhs), rhs, s.c.p);
    RootsOnCurve(s.c, x, s.sqrt(rhs).value);
  }

  /** Whether the curve has a point with this x. */
  ghost predicate HasPoint(c: Curve, x: int)
    requires c.p > 0
  {
    exists y :: 0 <= y < c.p && OnCurve(c, Affine(x, y))
  }

  /** An x is lifted exactly if the curve has a point with it. */
  lemma LiftsIffOnCurve(s: Params, x: int, yParity: byte)
    requires s.c.p > 1 && IsModSqrt(s.sqrt, s.c.p)
    ensures LiftX(s, x, yParity).Some? <==> HasPoint(s.c, x)
  {
    var rhs := RightSide(s.c, x);
    assert RootOrNone(s.sqrt(rhs), rhs, s.c.p);
    if LiftX(s, x, yParity).Some? {
      var y := s.sqrt(rhs).value;
      RootsOnCurve(s.c, x, y);
      assert 0 <= y < s.c.p && OnCurve(s.c, Affine(x, y));
    }
    forall y | 0 <= y < s.c.p && OnCurve(s.c, Affine(x, y))
      ensures LiftX(s, x, yParity).Some?
    {
      RootsOnCurve(s.c, x, y);
    }
  }

  lemma OddPrimeIsOdd(p: int)
    requires Prime(p) && p > 3
    ensures p % 2 == 1
  {
    assert !Divides(2, p);
  }

  /** The two parities lift the same x-coordinates, to mirror images of each other. */
  lemma LiftsMirror(s: Params, x: int)
    requires Good(s.c) && IsModSqrt(s.sqrt, s.c.p)
    ensures LiftX(s, x, 0).Some? <==> LiftX(s, x, 1).Some?
    ensures LiftX(s, x, 0).Some? ==> Mirror(s.c, LiftX(s, x, 0).value, LiftX(s, x, 1).value)
  {
    OddPrimeIsOdd(s.c.p);
    MultipleIsZero(1, s.c.p);
    MultipleIsZero(0, s.c.p);
  }

  /** The root of the right side at a point's x is the point's y, or p minus it. */
  lemma RootAt(s: Params, pt: Point, rhs: int)
    requires Good(s.c) && IsModSqrt(s.sqrt, s.c.p) && pt.Affine? && Valid(s.c, pt) && rhs == RightSide(s.c, pt.x)
    ensures s.sqrt(rhs).Some? && (s.sqrt(rhs).value == pt.y || s.sqrt(rhs).value + pt.y == s.c.p)
  {
    RootsOnCurve(s.c, pt.x, pt.y);
    assert RootOrNone(s.sqrt(rhs), rhs, s.c.p);
    HasReducedRoot(pt.y, rhs, s.c.p);
    RootIsOneOfTwo(s.sqrt(rhs).value, pt.y, rhs, s.c.p);
  }

  lemma OddSum(r: int, y: int, p: int)
    requires r + y == p && p % 2 == 1
    ensures r % 2 != y % 2
  {
    assert p == 2 * (r / 2 + y / 2) + (r % 2 + y % 2);
  }

  lemma ParityChooses(r: int, y: int, p: int)
    requires p % 2 == 1 && (r == y || r + y == p)
    ensures (if r % 2 != y % 2 then p - r else r) == y
  {
    if r + y == p {
      OddSum(r, y, p);
    }
  }

  /** A finite point is lifted back from its x and the lowest bit of its y. */
  lemma LiftBack(s: Params, pt: Point)
    requires Good(s.c) && IsModSqrt(s.sqrt, s.c.p) && pt.Affine? && Valid(s.c, pt)
    ensures LiftX(s, pt.x, pt.y % 2) == Some(pt)
  {
    var rhs := RightSide(s.c, pt.x);
    RootAt(s, pt, rhs);
    OddPrimeIsOdd(s.c.p);
    ParityChooses(s.sqrt(rhs).value, pt.y, s.c.p);
  }

  lemma RootIsOneOfTwo(r: int, y: int, rhs: int, p: int)
    requires Prime(p) && 0 <= r < p && 0 <= y <= p && Zero(r * r - rhs, p) && Zero(y * y - rhs, p)
    ensures r == y || r + y == p
  {
    Combine2(r * r - y * y, 1, r * r - rhs, -1, y * y - rhs, p);
    RootsUpToSign(r, y, p);
    EqualOrSum(r, y, p);
  }

  lemma HasReducedRoot(y: int, rhs: int, p: int)
    requires p > 1 && 0 <= y <= p && Zero(y * y - rhs, p)
    ensures exists z :: 0 <= z < p && Zero(z * z - rhs, p)
  {
    var z := if y == p then 0 else y;
    if y == p {
      MultipleIsZero(1, p);
      assert z * z - rhs == 1 * (y * y - rhs) + (-p) * p;
      Combine2(z * z - rhs, 1, y * y - rhs, -p, p, p);
    }
    assert 0 <= z < p && Zero(z * z - rhs, p);
  }

  lemma EqualOrSum(r: int, y: int, p: int)
    requires p > 1 && 0 <= r < p && 0 <= y <= p && (Zero(r - y, p) || Zero(r + y, p))
    ensures r == y || r + y == p
  {
    MultipleIsZero(1, p);
    if Zero(r - y, p) {
      if y == p {
        Combine2(r - 0, 1, r - y, 1, p, p);
        ReducedUnique(r, 0, p);
      } else {
        ReducedUnique(r, y, p);
      }
    } else {
      if r + y > 0 {
        Combine2(r - (p - y), 1, r + y, -1, p, p);
        if y == 0 {
          Combine2(r - 0, 1, r + y, 0, p, p);
          ReducedUnique(r, 0, p);
        } else if y == p {
          Combine2(r - 0, 1, r + y, -1, p, p);
          ReducedUnique(r, 0, p);
        } else {
          ReducedUnique(r, p - y, p);
        }
      }
    }
  }
}
