/** Affine point arithmetic on a short Weierstrass curve (`double` and `add` in
    src/internal/mactelnet/mtwei.go), and what follows from the formulas alone. */
module Curve {
  import opened Field
  import opened Wrappers

  // The point at infinity carries no coordinates.
  datatype Point = Inf | Affine(x: int, y: int)

  datatype Curve = Curve(p: int, a: int, b: int)

  function TangentNumerator(c: Curve, x: int): int {
    x * x * 3 + c.a
  }

  /** The last steps of both formulas, for the slope `lam`. */
  function Third(c: Curve, s: Point, t: Point, lam: int): Point
    requires c.p > 0 && s.Affine? && t.Affine?
  {
    var rx := (lam * lam - s.x - t.x) % c.p;
    Affine(rx, ((s.x - rx) * lam - s.y) % c.p)
  }

  function Double(c: Curve, pt: Point): Point
    requires c.p > 1
  {
    if pt.Inf? || pt.y == 0 then Inf
    else
      var den := (2 * pt.y) % c.p;
      match ModInverse(den, c.p)
      case None => Inf
      case Some(inv) =>
        Third(c, pt, pt, Lambda(TangentNumerator(c, pt.x), inv, c.p))
  }

  function Add(c: Curve, p1: Point, p2: Point): Point
    requires c.p > 1
  {
    if p1.Inf? then p2
    else if p2.Inf? then p1
    else if p1.x == p2.x then (if p1.y == p2.y then Double(c, p1) else Inf)
    else
      var den := (p2.x - p1.x) % c.p;
      match ModInverse(den, c.p)
      case None => Inf
      case Some(inv) =>
        Third(c, p1, p2, Lambda(p2.y - p1.y, inv, c.p))
  }

  // ------------------------------------------------------------------ the curve

  ghost predicate OddPrime(p: int) {
    Prime(p) && p > 3
  }

  /** The prime is odd and the curve has no singular point. */
  ghost predicate Good(c: Curve) {
    && OddPrime(c.p)
    && !Zero(4 * c.a * c.a * c.a + 27 * c.b * c.b, c.p)
  }

  /** The left side minus the right side of the curve equation. */
  function Gap(c: Curve, x: int, y: int): int {
    y * y - (x * x * x + c.a * x + c.b)
  }

  ghost predicate OnCurve(c: Curve, pt: Point)
    requires c.p > 0
  {
    pt.Affine? ==> Zero(Gap(c, pt.x, pt.y), c.p)
  }

  /** The coordinates the code computes with: below p, but for a lifted root that may be p itself. */
  predicate Ranged(c: Curve, pt: Point) {
    pt.Affine? ==> 0 <= pt.x < c.p && 0 <= pt.y <= c.p
  }

  predicate Reduced(c: Curve, pt: Point) {
    pt.Affine? ==> 0 <= pt.x < c.p && 0 <= pt.y < c.p
  }

  ghost predicate Valid(c: Curve, pt: Point)
    requires c.p > 0
  {
    OnCurve(c, pt) && Ranged(c, pt)
  }

  /** The same point, whatever multiples of p its coordinates carry. */
  ghost predicate Same(c: Curve, s: Point, t: Point)
    requires c.p > 0
  {
    if s.Inf? || t.Inf? then s == t else Zero(s.x - t.x, c.p) && Zero(s.y - t.y, c.p)
  }

  /** The two points lie on one vertical line, mirrored in the x-axis. */
  ghost predicate Opposite(c: Curve, s: Point, t: Point)
    requires c.p > 0 && s.Affine? && t.Affine?
  {
    Zero(s.x - t.x, c.p) && Zero(s.y + t.y, c.p)
  }

  // ------------------------------------------------------- lines and the curve

  /** The slope of the chord through two points, or of the tangent if they are the same. */
  ghost predicate IsSlope(c: Curve, s: Point, t: Point, l: int)
    requires c.p > 0 && s.Affine? && t.Affine?
  {
    if Zero(s.x - t.x, c.p)
    then Zero(s.y - t.y, c.p) && Zero(l * (2 * s.y) - TangentNumerator(c, s.x), c.p)
    else Zero(l * (t.x - s.x) - (t.y - s.y), c.p)
  }

  /** `r` mirrors the third point in which the line of slope `l` through `s` meets the curve. */
  ghost predicate MirrorsThird(c: Curve, s: Point, t: Point, l: int, r: Point)
    requires c.p > 0 && s.Affine? && t.Affine?
  {
    && r.Affine? && Reduced(c, r)
    && Zero(r.x - (l * l - s.x - t.x), c.p)
    && Zero(r.y - (l * (s.x - r.x) - s.y), c.p)
  }

  lemma NotOdd(y: int, p: int)
    requires Prime(p) && p > 2 && Zero(2 * y, p)
    ensures Zero(y, p)
  {
    assert 2 % p == 2;
    NoZeroDivisors(2, y, p);
  }

  lemma SquaresDiffer(a: int, b: int, x: int, y: int, x': int, y': int)
    ensures y * y - y' * y' == 1 * (y * y - (x * x * x + a * x + b)) + (-1) * (y' * y' - (x' * x' * x' + a * x' + b))
                               + (x * x + x * x' + x' * x' + a) * (x - x')
  {
    var d := x - x';
    Spread4(x * x, x * x', x' * x', a, d);
    Spread(x * x, x, x');
    Spread(x * x', x, x');
    Spread(x' * x', x, x');
    Spread(a, x, x');
  }

  /** Two points of the curve with one x have the same or opposite y. */
  lemma SameOrOpposite(c: Curve, s: Point, t: Point)
    requires OddPrime(c.p) && s.Affine? && t.Affine? && OnCurve(c, s) && OnCurve(c, t) && Zero(s.x - t.x, c.p)
    ensures Same(c, s, t) || Opposite(c, s, t)
  {
    var factor := s.x * s.x + s.x * t.x + t.x * t.x + c.a;
    SquaresDiffer(c.a, c.b, s.x, s.y, t.x, t.y);
    Combine3(s.y * s.y - t.y * t.y, 1, Gap(c, s.x, s.y), -1, Gap(c, t.x, t.y), factor, s.x - t.x, c.p);
    RootsUpToSign(s.y, t.y, c.p);
  }

  lemma SameCoordinate(u: int, v: int, p: int)
    requires p > 0 && 0 <= u <= p && 0 <= v <= p && Zero(u - v, p) && !Zero(u, p)
    ensures u == v
  {
    MultipleIsZero(1, p);
    if u == p || v == p {
      Combine2(u, 1, u - v, 1, v - p, p);
    } else {
      ReducedUnique(u, v, p);
    }
  }

  /** The quotient the code computes, with the reduced denominator `d`, is any slope modulo p. */
  lemma QuotientIsSlope(l: int, num: int, den: int, d: int, inv: int, p: int)
    requires p > 0 && d == den % p && Zero(d * inv - 1, p) && Zero(l * den - num, p)
    ensures Zero(Lambda(num, inv, p) - l, p)
  {
    var lam := Lambda(num, inv, p);
    var n := num % p;
    ModIsSame(num, p);
    ModIsSame(den, p);
    ModIsSame(n * inv, p);
    var unit := den * inv - 1;
    assert unit == 1 * (d * inv - 1) + inv * (den - d);
    Combine2(unit, 1, d * inv - 1, inv, den - d, p);
    var exact := num * inv - l;
    assert exact == -inv * (l * den - num) + l * unit;
    Combine2(exact, -inv, l * den - num, l, unit, p);
    assert lam - l == 1 * (lam - n * inv) + inv * (n - num) + 1 * exact;
    Combine3(lam - l, 1, lam - n * inv, inv, n - num, 1, exact, p);
  }

  lemma SquaresApart(x: int, y: int)
    ensures (x + y) * (x - y) == x * x - y * y
  {
    Spread(x + y, x, y);
    Spread(x, x, -y);
    Spread(y, x, -y);
  }

  lemma ThirdFromQuotient(c: Curve, s: Point, t: Point, lam: int, l: int)
    requires c.p > 0 && s.Affine? && t.Affine? && Zero(lam - l, c.p)
    ensures MirrorsThird(c, s, t, l, Third(c, s, t, lam))
  {
    var p := c.p;
    var rawX := lam * lam - s.x - t.x;
    var rx := rawX % p;
    var rawY := (s.x - rx) * lam - s.y;
    var ry := rawY % p;
    ModIsSame(rawX, p);
    ModIsSame(rawY, p);
    SquaresApart(lam, l);
    Combine2(rx - (l * l - s.x - t.x), 1, rx - rawX, lam + l, lam - l, p);
    Spread(s.x - rx, lam, l);
    Combine2(ry - (l * (s.x - rx) - s.y), 1, ry - rawY, s.x - rx, lam - l, p);
  }

  lemma ZeroOfMod(x: int, p: int)
    requires p > 0
    ensures Zero(x % p, p) <==> Zero(x, p)
  {
  }

  /** `double` is the tangent construction wherever the tangent is not vertical. */
  lemma DoubleBySlope(c: Curve, s: Point, l: int)
    requires OddPrime(c.p) && s.Affine? && !Zero(s.y, c.p) && s.y != 0
    requires Zero(l * (2 * s.y) - TangentNumerator(c, s.x), c.p)
    ensures MirrorsThird(c, s, s, l, Double(c, s))
  {
    if Zero(2 * s.y, c.p) {
      NotOdd(s.y, c.p);
    }
    var d, inv := InverseOf(2 * s.y, c.p);
    DoubleByQuotient(c, s, d, inv);
    QuotientIsSlope(l, TangentNumerator(c, s.x), 2 * s.y, d, inv, c.p);
    ThirdFromQuotient(c, s, s, Lambda(TangentNumerator(c, s.x), inv, c.p), l);
  }

  lemma DoubleByQuotient(c: Curve, s: Point, d: int, inv: int)
    requires c.p > 1 && s.Affine? && s.y != 0 && d == (2 * s.y) % c.p && ModInverse(d, c.p) == Some(inv)
    ensures Double(c, s) == Third(c, s, s, Lambda(TangentNumerator(c, s.x), inv, c.p))
  {
  }

  /** `add` is the chord construction, or the tangent construction for twice the same point, unless
      the points are opposite. */
  lemma AddBySlope(c: Curve, s: Point, t: Point, l: int)
    requires OddPrime(c.p) && s.Affine? && t.Affine? && Valid(c, s) && Valid(c, t)
    requires !Opposite(c, s, t) && IsSlope(c, s, t, l)
    ensures MirrorsThird(c, s, t, l, Add(c, s, t))
  {
    if Zero(s.x - t.x, c.p) {
      ReducedUnique(s.x, t.x, c.p);
      if Zero(s.y, c.p) {
        Combine2(s.y + t.y, 2, s.y, -1, s.y - t.y, c.p);
      }
      MultipleIsZero(0, c.p);
      SameCoordinate(s.y, t.y, c.p);
      DoubleBySlope(c, s, l);
    } else {
      ChordBySlope(c, s, t, l);
    }
  }

  lemma ChordBySlope(c: Curve, s: Point, t: Point, l: int)
    requires OddPrime(c.p) && s.Affine? && t.Affine? && !Zero(s.x - t.x, c.p)
    requires Zero(l * (t.x - s.x) - (t.y - s.y), c.p)
    ensures MirrorsThird(c, s, t, l, Add(c, s, t))
  {
    ZeroDifference(s.x, t.x, c.p);
    var d, inv := InverseOf(t.x - s.x, c.p);
    AddByQuotient(c, s, t, d, inv);
    QuotientIsSlope(l, t.y - s.y, t.x - s.x, d, inv, c.p);
    ThirdFromQuotient(c, s, t, Lambda(t.y - s.y, inv, c.p), l);
  }

  lemma NonzeroIsNot0(den: int, p: int)
    requires p > 0 && !Zero(den, p)
    ensures den != 0
  {
    MultipleIsZero(0, p);
  }

  lemma InverseOf(den: int, p: int) returns (d: int, inv: int)
    requires OddPrime(p) && !Zero(den, p)
    ensures d == den % p && den != 0 && ModInverse(d, p) == Some(inv) && Zero(d * inv - 1, p)
  {
    d := den % p;
    NonzeroIsNot0(den, p);
    InverseOfReduced(den, d, p);
    inv := ModInverse(d, p).value;
    assert Inverts(d, inv, p);
  }

  lemma AddByQuotient(c: Curve, s: Point, t: Point, d: int, inv: int)
    requires c.p > 1 && s.Affine? && t.Affine? && s.x != t.x
    requires d == (t.x - s.x) % c.p && ModInverse(d, c.p) == Some(inv)
    ensures Add(c, s, t) == Third(c, s, t, Lambda(t.y - s.y, inv, c.p))
  {
  }

  /** Opposite points add up to infinity. */
  lemma AddOpposite(c: Curve, s: Point, t: Point)
    requires OddPrime(c.p) && s.Affine? && t.Affine? && Valid(c, s) && Valid(c, t) && Opposite(c, s, t)
    ensures Add(c, s, t) == Inf
  {
    ReducedUnique(s.x, t.x, c.p);
    if s.y == t.y {
      NotOdd(s.y, c.p);
      Multiple(2 * s.y, 2, s.y, c.p);
      ZeroOfMod(2 * s.y, c.p);
      NoInverseOfZero((2 * s.y) % c.p, c.p);
    }
  }

  /** Points that are not opposite have a slope. */
  lemma SlopeExists(c: Curve, s: Point, t: Point) returns (l: int)
    requires OddPrime(c.p) && s.Affine? && t.Affine? && OnCurve(c, s) && OnCurve(c, t) && !Opposite(c, s, t)
    ensures IsSlope(c, s, t, l)
  {
    if Zero(s.x - t.x, c.p) {
      SameOrOpposite(c, s, t);
      if Zero(2 * s.y, c.p) {
        Combine2(s.y + t.y, 1, 2 * s.y, -1, s.y - t.y, c.p);
      }
      l := Quotient(TangentNumerator(c, s.x), 2 * s.y, c.p);
    } else {
      ZeroDifference(s.x, t.x, c.p);
      l := Quotient(t.y - s.y, t.x - s.x, c.p);
    }
  }

  // ------------------------------------------------ where a line meets the curve

  /** The curve's cubic minus the square of the line `l * x + m`. */
  function OnLine(c: Curve, l: int, m: int, x: int): int {
    x * x * x + c.a * x + c.b - (l * x + m) * (l * x + m)
  }

  lemma SquareOfLine(l: int, x: int, m: int)
    ensures (l * x + m) * (l * x + m) == (l * l) * (x * x) + 2 * (l * m) * x + m * m
  {
  }

  lemma Cubic(x: int, x1: int, x2: int, x3: int)
    ensures (x - x1) * (x - x2) * (x - x3)
         == x * x * x - (x1 + x2 + x3) * (x * x) + (x1 * x2 + x1 * x3 + x2 * x3) * x - x1 * x2 * x3
  {
  }

  function RestSlope(c: Curve, l: int, m: int, x1: int, x2: int, x3: int): int {
    c.a - 2 * (l * m) - (x1 * x2 + x1 * x3 + x2 * x3)
  }

  function RestConstant(c: Curve, l: int, m: int, x1: int, x2: int, x3: int): int {
    c.b - m * m + x1 * x2 * x3
  }

  /** If the roots add up to the square of the slope, only a linear rest is left of the cubic. */
  lemma LinearRest(c: Curve, l: int, m: int, x1: int, x2: int, x3: int, x: int)
    requires l * l == x1 + x2 + x3
    ensures OnLine(c, l, m, x) == (x - x1) * (x - x2) * (x - x3)
                                  + RestSlope(c, l, m, x1, x2, x3) * x + RestConstant(c, l, m, x1, x2, x3)
  {
    SquareOfLine(l, x, m);
    Cubic(x, x1, x2, x3);
    Distribute(c.a, l * m, x1 * x2 + x1 * x3 + x2 * x3, x);
  }

  lemma Distribute(a: int, q: int, e: int, x: int)
    ensures (a - 2 * q - e) * x == a * x - 2 * q * x - e * x
  {
  }

  lemma RestAtRoots(c: Curve, l: int, m: int, x1: int, x2: int, x3: int)
    requires l * l == x1 + x2 + x3
    ensures OnLine(c, l, m, x1) == RestSlope(c, l, m, x1, x2, x3) * x1 + RestConstant(c, l, m, x1, x2, x3)
    ensures OnLine(c, l, m, x2) == RestSlope(c, l, m, x1, x2, x3) * x2 + RestConstant(c, l, m, x1, x2, x3)
    ensures OnLine(c, l, m, x3) == RestSlope(c, l, m, x1, x2, x3) * x3 + RestConstant(c, l, m, x1, x2, x3)
  {
    LinearRest(c, l, m, x1, x2, x3, x1);
    LinearRest(c, l, m, x1, x2, x3, x2);
    LinearRest(c, l, m, x1, x2, x3, x3);
  }

  lemma ThroughTwo(g: int, h: int, x1: int, x2: int, x3: int)
    ensures (x2 - x1) * (g * x3 + h) == (x2 - x3) * (g * x1 + h) + (x3 - x1) * (g * x2 + h)
  {
  }

  /** A line that meets the curve in two places meets it in the third. */
  lemma ChordMeetsThird(c: Curve, l: int, m: int, x1: int, x2: int)
    requires OddPrime(c.p) && Zero(OnLine(c, l, m, x1), c.p) && Zero(OnLine(c, l, m, x2), c.p) && !Zero(x2 - x1, c.p)
    ensures Zero(OnLine(c, l, m, l * l - x1 - x2), c.p)
  {
    var x3 := l * l - x1 - x2;
    var g, h := RestSlope(c, l, m, x1, x2, x3), RestConstant(c, l, m, x1, x2, x3);
    RestAtRoots(c, l, m, x1, x2, x3);
    ThroughTwo(g, h, x1, x2, x3);
    var e := (x2 - x1) * OnLine(c, l, m, x3);
    Combine2(e, x2 - x3, OnLine(c, l, m, x1), x3 - x1, OnLine(c, l, m, x2), c.p);
    NoZeroDivisors(x2 - x1, OnLine(c, l, m, x3), c.p);
  }

  /** The derivative of the cubic minus that of the line's square. */
  function Tangency(c: Curve, l: int, m: int, x: int): int {
    TangentNumerator(c, x) - 2 * l * (l * x + m)
  }

  /** A line tangent to the curve meets it in the third place. */
  lemma TangencyIsRest(a: int, l: int, m: int, x: int, x3: int)
    requires x3 == l * l - x - x
    ensures a - 2 * (l * m) - (x * x + x * x3 + x * x3) == x * x * 3 + a - 2 * l * (l * x + m)
  {
    Spread(x, l * l, x + x);
    assert x * x3 == x * (l * l) - 2 * (x * x);
    Spread(2 * l, l * x, -m);
  }

  lemma LineAtThird(g: int, h: int, x: int, x3: int)
    ensures g * x3 + h == (x3 - x) * g + 1 * (g * x + h)
  {
  }

  lemma TangentMeetsThird(c: Curve, l: int, m: int, x: int)
    requires c.p > 0 && Zero(OnLine(c, l, m, x), c.p) && Zero(Tangency(c, l, m, x), c.p)
    ensures Zero(OnLine(c, l, m, l * l - x - x), c.p)
  {
    var x3 := l * l - x - x;
    var g, h := RestSlope(c, l, m, x, x, x3), RestConstant(c, l, m, x, x, x3);
    RestAtRoots(c, l, m, x, x, x3);
    TangencyIsRest(c.a, l, m, x, x3);
    LineAtThird(g, h, x, x3);
    Combine2(OnLine(c, l, m, x3), x3 - x, g, 1, OnLine(c, l, m, x), c.p);
  }

  /** A chord whose third place is one of its ends is tangent there. */
  lemma ChordTangentAtEnd(c: Curve, l: int, m: int, x1: int, x2: int)
    requires OddPrime(c.p) && Zero(OnLine(c, l, m, x1), c.p) && Zero(OnLine(c, l, m, x2), c.p) && !Zero(x2 - x1, c.p)
    requires Zero(l * l - x1 - x2 - x2, c.p)
    ensures Zero(Tangency(c, l, m, x2), c.p)
  {
    var x3 := l * l - x1 - x2;
    var g, h := RestSlope(c, l, m, x1, x2, x3), RestConstant(c, l, m, x1, x2, x3);
    var o1, o2, tangency := OnLine(c, l, m, x1), OnLine(c, l, m, x2), Tangency(c, l, m, x2);
    var q := l * l - x1 - x2 - x2;
    RestAtRoots(c, l, m, x1, x2, x3);
    TangencyAtEnd(c, l, m, x1, x2, x3);
    EndAlgebra(x1, x2, x3, g, h, tangency, o1, o2, q);
    Combine3((x2 - x1) * tangency, -((x2 - x1) * (x2 - x1)), q, 1, o2, -1, o1, c.p);
    NoZeroDivisors(x2 - x1, tangency, c.p);
  }

  lemma EndAlgebra(x1: int, x2: int, x3: int, g: int, h: int, tangency: int, o1: int, o2: int, q: int)
    requires tangency == (x2 - x1) * (x2 - x3) + g && q == x3 - x2
    requires o1 == g * x1 + h && o2 == g * x2 + h
    ensures (x2 - x1) * tangency == -((x2 - x1) * (x2 - x1)) * q + 1 * o2 + (-1) * o1
  {
    var d := x2 - x1;
    assert d * ((d * (x2 - x3)) + g) == (d * d) * (x2 - x3) + d * g;
    assert d * g == o2 - o1;
  }

  lemma TangencyAtEnd(c: Curve, l: int, m: int, x1: int, x2: int, x3: int)
    requires l * l == x1 + x2 + x3
    ensures Tangency(c, l, m, x2) == (x2 - x1) * (x2 - x3) + RestSlope(c, l, m, x1, x2, x3)
  {
    assert l * (l * x2 + m) == (x1 + x2 + x3) * x2 + l * m by {
      assert l * (l * x2) == (l * l) * x2;
    }
    assert (x2 - x1) * (x2 - x3) == x2 * x2 - x2 * x3 - x1 * x2 + x1 * x3;
  }

  /** The line through `s`: its value at 0. */
  function Intercept(s: Point, l: int): int
    requires s.Affine?
  {
    s.y - l * s.x
  }

  /** For a point on the line, or mirrored on it, being on the curve and being a root are the same. */
  lemma RootIffOnCurve(c: Curve, l: int, m: int, x: int, y: int)
    requires c.p > 0 && (Zero(y - (l * x + m), c.p) || Zero(y + (l * x + m), c.p))
    ensures Zero(OnLine(c, l, m, x), c.p) <==> Zero(Gap(c, x, y), c.p)
  {
    var v := l * x + m;
    assert y * y - v * v == (y - v) * (y + v);
    if Zero(y - v, c.p) {
      Multiple(y * y - v * v, y + v, y - v, c.p);
    } else {
      Multiple(y * y - v * v, y - v, y + v, c.p);
    }
    GapOnLine(c, l, m, x, y);
    PartsOfZero(Gap(c, x, y), OnLine(c, l, m, x), y * y - v * v, c.p);
  }

  lemma GapOnLine(c: Curve, l: int, m: int, x: int, y: int)
    ensures Gap(c, x, y) + OnLine(c, l, m, x) == y * y - (l * x + m) * (l * x + m)
  {
  }

  // ------------------------------------------------------------------- closure

  /** The line through two points of the curve meets it in both. */
  lemma EndsAreRoots(c: Curve, s: Point, t: Point, l: int)
    requires OddPrime(c.p) && s.Affine? && t.Affine? && OnCurve(c, s) && OnCurve(c, t) && IsSlope(c, s, t, l)
    ensures Zero(OnLine(c, l, Intercept(s, l), s.x), c.p)
    ensures Zero(OnLine(c, l, Intercept(s, l), t.x), c.p)
    ensures Zero(t.y - (l * t.x + Intercept(s, l)), c.p)
    ensures Zero(s.x - t.x, c.p) ==> Zero(Tangency(c, l, Intercept(s, l), s.x), c.p)
  {
    SecondOnLine(c, s, t, l);
    AlongLine(c, s, t, l);
    RootIffOnCurve(c, l, Intercept(s, l), s.x, s.y);
    RootIffOnCurve(c, l, Intercept(s, l), t.x, t.y);
    if Zero(s.x - t.x, c.p) {
      Multiple(Tangency(c, l, Intercept(s, l), s.x), -1, l * (2 * s.y) - TangentNumerator(c, s.x), c.p);
    }
  }

  lemma SecondOnLine(c: Curve, s: Point, t: Point, l: int)
    requires c.p > 0 && s.Affine? && t.Affine? && IsSlope(c, s, t, l)
    ensures Zero(t.y - (l * t.x + Intercept(s, l)), c.p)
  {
    var e := t.y - (l * t.x + Intercept(s, l));
    AlongLine(c, s, t, l);
    if Zero(s.x - t.x, c.p) {
      Combine2(e, l, s.x - t.x, -1, s.y - t.y, c.p);
    } else {
      Multiple(e, -1, l * (t.x - s.x) - (t.y - s.y), c.p);
    }
  }

  lemma AlongLine(c: Curve, s: Point, t: Point, l: int)
    requires s.Affine? && t.Affine?
    ensures l * s.x + Intercept(s, l) == s.y
    ensures t.y - (l * t.x + Intercept(s, l)) == l * (s.x - t.x) + (-1) * (s.y - t.y)
    ensures t.y - (l * t.x + Intercept(s, l)) == (-1) * (l * (t.x - s.x) - (t.y - s.y))
    ensures Tangency(c, l, Intercept(s, l), s.x) == (-1) * (l * (2 * s.y) - TangentNumerator(c, s.x))
  {
    assert l * (s.x - t.x) == l * s.x - l * t.x;
    assert l * (t.x - s.x) == l * t.x - l * s.x;
    assert 2 * l * (l * s.x + Intercept(s, l)) == l * (2 * s.y);
  }

  lemma OnLineCongruent(c: Curve, l: int, m: int, x: int, y: int)
    requires c.p > 0 && Zero(x - y, c.p)
    ensures Zero(OnLine(c, l, m, x), c.p) <==> Zero(OnLine(c, l, m, y), c.p)
  {
    var factor := x * x + x * y + y * y + c.a - l * l * (x + y) - 2 * (l * m);
    CubicDifference(c, l, m, x, y);
    Multiple(OnLine(c, l, m, x) - OnLine(c, l, m, y), factor, x - y, c.p);
    var d := OnLine(c, l, m, x) - OnLine(c, l, m, y);
    if Zero(OnLine(c, l, m, x), c.p) {
      Combine2(OnLine(c, l, m, y), 1, OnLine(c, l, m, x), -1, d, c.p);
    }
    if Zero(OnLine(c, l, m, y), c.p) {
      Combine2(OnLine(c, l, m, x), 1, OnLine(c, l, m, y), 1, d, c.p);
    }
  }

  lemma CubicDifference(c: Curve, l: int, m: int, x: int, y: int)
    ensures OnLine(c, l, m, x) - OnLine(c, l, m, y)
         == (x * x + x * y + y * y + c.a - l * l * (x + y) - 2 * (l * m)) * (x - y)
  {
    SquareOfLine(l, x, m);
    SquareOfLine(l, y, m);
    var u := x * x + x * y + y * y + c.a;
    assert u * (x - y) == x * x * x - y * y * y + c.a * x - c.a * y;
    assert l * l * (x + y) * (x - y) == (l * l) * (x * x) - (l * l) * (y * y);
    assert (u - l * l * (x + y) - 2 * (l * m)) * (x - y)
        == u * (x - y) - l * l * (x + y) * (x - y) - 2 * (l * m) * (x - y);
  }

  lemma MirroredOnLine(l: int, sx: int, sy: int, x: int, y: int)
    ensures y + (l * x + (sy - l * sx)) == y - (l * (sx - x) - sy)
  {
    assert l * (sx - x) == l * sx - l * x;
  }

  /** The construction by a chord or a tangent stays on the curve. */
  lemma ThirdOnCurve(c: Curve, s: Point, t: Point, l: int, r: Point)
    requires OddPrime(c.p) && s.Affine? && t.Affine? && OnCurve(c, s) && OnCurve(c, t)
    requires IsSlope(c, s, t, l) && MirrorsThird(c, s, t, l, r)
    ensures OnCurve(c, r)
    ensures Zero(r.y + (l * r.x + Intercept(s, l)), c.p)
  {
    var m := Intercept(s, l);
    var x3 := l * l - s.x - t.x;
    EndsAreRoots(c, s, t, l);
    if Zero(s.x - t.x, c.p) {
      TangentMeetsThird(c, l, m, s.x);
      assert x3 - (l * l - s.x - s.x) == 1 * (s.x - t.x);
      OnLineCongruent(c, l, m, x3, l * l - s.x - s.x);
    } else {
      ZeroDifference(s.x, t.x, c.p);
      ChordMeetsThird(c, l, m, s.x, t.x);
    }
    OnLineCongruent(c, l, m, r.x, x3);
    MirroredOnLine(l, s.x, s.y, r.x, r.y);
    RootIffOnCurve(c, l, m, r.x, r.y);
  }

  /** The curve is closed under `add`; what is computed rather than copied is reduced. */
  lemma AddOnCurve(c: Curve, s: Point, t: Point)
    requires OddPrime(c.p) && Valid(c, s) && Valid(c, t)
    ensures Valid(c, Add(c, s, t))
    ensures Reduced(c, s) && Reduced(c, t) ==> Reduced(c, Add(c, s, t))
  {
    if s.Affine? && t.Affine? {
      if Opposite(c, s, t) {
        AddOpposite(c, s, t);
      } else {
        var l := SlopeExists(c, s, t);
        AddBySlope(c, s, t, l);
        ThirdOnCurve(c, s, t, l, Add(c, s, t));
      }
    }
  }

  /** `double` is `add` of a point to itself, and stays on the curve. */
  lemma DoubleOnCurve(c: Curve, s: Point)
    requires OddPrime(c.p) && Valid(c, s)
    ensures Double(c, s) == Add(c, s, s)
    ensures Valid(c, Double(c, s)) && Reduced(c, Double(c, s))
  {
    AddOnCurve(c, s, s);
    if s.Affine? {
      if Opposite(c, s, s) {
        AddOpposite(c, s, s);
      } else {
        var l := SlopeExists(c, s, s);
        AddBySlope(c, s, s, l);
      }
    }
  }

  // ------------------------------------------------ adding and taking away again

  /** With a discriminant that is not zero, no point has a zero y and a zero tangent numerator. */
  lemma NoSingularPoint(c: Curve, s: Point)
    requires Good(c) && s.Affine? && OnCurve(c, s) && Zero(s.y, c.p)
    ensures !Zero(TangentNumerator(c, s.x), c.p)
  {
    var x := s.x;
    var u, v := TangentNumerator(c, x), x * x * x + c.a * x + c.b;
    assert v == s.y * s.y + (-1) * Gap(c, s.x, s.y);
    Combine2(v, s.y, s.y, -1, Gap(c, s.x, s.y), c.p);
    if Zero(u, c.p) {
      Discriminant(x, u, v);
      assert c.a == u - 3 * (x * x) && c.b == v + 2 * (x * x * x) - u * x;
      Combine2(4 * c.a * c.a * c.a + 27 * c.b * c.b, 4 * (u * u) - 9 * (u * (x * x)), u,
               108 * (x * x * x) + 27 * v - 54 * (u * x), v, c.p);
    }
  }

  lemma Discriminant(x: int, u: int, v: int)
    ensures var a, b := u - 3 * (x * x), v + 2 * (x * x * x) - u * x;
            4 * a * a * a + 27 * b * b == (4 * (u * u) - 9 * (u * (x * x))) * u
                                          + (108 * (x * x * x) + 27 * v - 54 * (u * x)) * v
  {
  }

  /** If the line through `s` and `t` is tangent at `t`'s mirror image's mirror, the tangent there
      has the same slope: the numerator over twice the y. */
  lemma TangentsDiffer(a: int, l: int, x: int, y: int, x': int, y': int)
    ensures l * (2 * y') - (x' * x' * 3 + a)
         == 1 * (l * (2 * y) - (x * x * 3 + a)) + (3 * (x + x')) * (x - x') + (-2 * l) * (y - y')
  {
    Spread(3 * (x + x'), x, x');
    Spread(3 * x, x, -x');
    Spread(3 * x', x, -x');
    Spread(-2 * l, y, y');
  }

  /** The slope of the tangent does not depend on which multiples of p the coordinates carry. */
  lemma TangentAtSame(c: Curve, s: Point, t: Point, l: int)
    requires c.p > 0 && s.Affine? && t.Affine? && Zero(s.x - t.x, c.p) && Zero(s.y - t.y, c.p)
    requires Zero(l * (2 * s.y) - TangentNumerator(c, s.x), c.p)
    ensures Zero(l * (2 * t.y) - TangentNumerator(c, t.x), c.p)
  {
    TangentsDiffer(c.a, l, s.x, s.y, t.x, t.y);
    Combine3(l * (2 * t.y) - TangentNumerator(c, t.x), 1, l * (2 * s.y) - TangentNumerator(c, s.x),
             3 * (s.x + t.x), s.x - t.x, -2 * l, s.y - t.y, c.p);
  }

  lemma TangentAtSecond(c: Curve, s: Point, t: Point, l: int)
    requires OddPrime(c.p) && s.Affine? && t.Affine? && OnCurve(c, s) && OnCurve(c, t) && IsSlope(c, s, t, l)
    requires Zero(l * l - s.x - t.x - t.x, c.p)
    ensures Zero(l * (2 * t.y) - TangentNumerator(c, t.x), c.p)
  {
    var m := Intercept(s, l);
    EndsAreRoots(c, s, t, l);
    if Zero(s.x - t.x, c.p) {
      TangentAtSame(c, s, t, l);
    } else {
      ZeroDifference(s.x, t.x, c.p);
      ChordTangentAtEnd(c, l, m, s.x, t.x);
      var onLine := t.y - (l * t.x + m);
      var e := l * (2 * t.y) - TangentNumerator(c, t.x);
      assert e == (-1) * Tangency(c, l, m, t.x) + (2 * l) * onLine;
      Combine2(e, -1, Tangency(c, l, m, t.x), 2 * l, onLine, c.p);
    }
  }

  /** `t` mirrored in the x-axis, with any multiples of p added. */
  ghost predicate Mirror(c: Curve, t: Point, u: Point)
    requires c.p > 0
  {
    if t.Inf? then u.Inf? else u.Affine? && Opposite(c, t, u)
  }

  lemma MirrorOnCurve(c: Curve, t: Point, u: Point)
    requires c.p > 0 && t.Affine? && OnCurve(c, t) && Mirror(c, t, u)
    ensures OnCurve(c, u)
  {
    var d := t.x - u.x;
    var factor := t.x * t.x + t.x * u.x + u.x * u.x + c.a;
    GapDifference(c.a, c.b, t.x, t.y, u.x, u.y);
    Combine3(Gap(c, u.x, u.y), 1, Gap(c, t.x, t.y), factor, d, -(t.y - u.y), t.y + u.y, c.p);
  }

  lemma GapDifference(a: int, b: int, x: int, y: int, x': int, y': int)
    ensures y' * y' - (x' * x' * x' + a * x' + b)
         == 1 * (y * y - (x * x * x + a * x + b)) + (x * x + x * x' + x' * x' + a) * (x - x') + (-(y - y')) * (y + y')
  {
    assert (x * x + x * x' + x' * x' + a) * (x - x') == x * x * x - x' * x' * x' + a * x - a * x';
    assert (y - y') * (y + y') == y * y - y' * y';
  }

  /** The line through `s` and `t` also joins their sum `r` to the mirror image of `t`, with the
      slope turned round; it is the tangent if these two are the same point. */
  lemma WayBack(c: Curve, s: Point, t: Point, u: Point, l: int, r: Point)
    requires Good(c) && s.Affine? && t.Affine? && OnCurve(c, s) && OnCurve(c, t) && Mirror(c, t, u)
    requires IsSlope(c, s, t, l) && MirrorsThird(c, s, t, l, r)
    ensures !Opposite(c, r, u) && IsSlope(c, r, u, -l)
  {
    var p := c.p;
    var m := Intercept(s, l);
    EndsAreRoots(c, s, t, l);
    ThirdOnCurve(c, s, t, l, r);
    var onT, onR := t.y - (l * t.x + m), r.y + (l * r.x + m);
    if Zero(r.x - u.x, p) {
      // r.y - u.y == onR + onT - (t.y + u.y) - l * (r.x - t.x)
      Combine2(r.x - t.x, 1, r.x - u.x, -1, t.x - u.x, p);
      assert r.y - u.y == 1 * (onR + onT) + (-1) * (t.y + u.y) + (-l) * (r.x - t.x);
      Combine2(onR + onT, 1, onR, 1, onT, p);
      Combine3(r.y - u.y, 1, onR + onT, -1, t.y + u.y, -l, r.x - t.x, p);
      TangentBack(c, s, t, l, r);
      Combine2(r.y + t.y, 1, r.y - u.y, 1, t.y + u.y, p);
      MirroredTangent(c, t, r, l);
      NotTwoTorsion(c, t, u, r, l);
    } else {
      var e := -l * (u.x - r.x) - (u.y - r.y);
      assert e == 1 * (onT + onR) + (-1) * (t.y + u.y) + l * (t.x - u.x);
      Combine2(onT + onR, 1, onT, 1, onR, p);
      Combine3(e, 1, onT + onR, -1, t.y + u.y, l, t.x - u.x, p);
    }
  }

  lemma TangentBack(c: Curve, s: Point, t: Point, l: int, r: Point)
    requires OddPrime(c.p) && s.Affine? && t.Affine? && OnCurve(c, s) && OnCurve(c, t)
    requires IsSlope(c, s, t, l) && MirrorsThird(c, s, t, l, r) && Zero(r.x - t.x, c.p)
    ensures Zero(l * (2 * t.y) - TangentNumerator(c, t.x), c.p)
  {
    ThirdAtEnd(l * l, s.x, t.x, r.x, c.p);
    TangentAtSecond(c, s, t, l);
  }

  lemma ThirdAtEnd(square: int, sx: int, tx: int, rx: int, p: int)
    requires p > 0 && Zero(rx - (square - sx - tx), p) && Zero(rx - tx, p)
    ensures Zero(square - sx - tx - tx, p)
  {
    Combine2(square - sx - tx - tx, 1, rx - tx, -1, rx - (square - sx - tx), p);
  }

  lemma MirroredSlope(a: int, l: int, x: int, y: int, x': int, y': int)
    ensures -l * (2 * y') - (x' * x' * 3 + a)
         == 1 * (l * (2 * y) - (x * x * 3 + a)) + (-2 * l) * (y' + y) + (-3 * (x' + x)) * (x' - x)
  {
    assert (x' + x) * (x' - x) == x' * x' - x * x;
    assert (-3 * (x' + x)) * (x' - x) == -3 * ((x' + x) * (x' - x));
    assert (-2 * l) * (y' + y) == -l * (2 * y') - l * (2 * y);
  }

  lemma MirroredTangent(c: Curve, t: Point, r: Point, l: int)
    requires c.p > 0 && t.Affine? && r.Affine? && Zero(r.x - t.x, c.p) && Zero(r.y + t.y, c.p)
    requires Zero(l * (2 * t.y) - TangentNumerator(c, t.x), c.p)
    ensures Zero(-l * (2 * r.y) - TangentNumerator(c, r.x), c.p)
  {
    var e := -l * (2 * r.y) - TangentNumerator(c, r.x);
    MirroredSlope(c.a, l, t.x, t.y, r.x, r.y);
    Combine3(e, 1, l * (2 * t.y) - TangentNumerator(c, t.x), -2 * l, r.y + t.y, -3 * (r.x + t.x), r.x - t.x, c.p);
  }

  lemma NotTwoTorsion(c: Curve, t: Point, u: Point, r: Point, l: int)
    requires Good(c) && t.Affine? && u.Affine? && r.Affine? && OnCurve(c, t)
    requires Zero(r.y - u.y, c.p) && Zero(t.y + u.y, c.p)
    requires Zero(l * (2 * t.y) - TangentNumerator(c, t.x), c.p)
    ensures !Opposite(c, r, u)
  {
    if Zero(r.y + u.y, c.p) {
      Combine2(2 * u.y, 1, r.y + u.y, -1, r.y - u.y, c.p);
      NotOdd(u.y, c.p);
      Combine2(t.y, 1, t.y + u.y, -1, u.y, c.p);
      NoSingularPoint(c, t);
      Combine2(TangentNumerator(c, t.x), 2 * l, t.y, -1, l * (2 * t.y) - TangentNumerator(c, t.x), c.p);
    }
  }

  lemma BackAlgebra(l: int, sx: int, sy: int, tx: int, ux: int, rx: int, ry: int, qx: int, qy: int)
    ensures qx - sx == 1 * (qx - (-l * -l - rx - ux)) + (-1) * (rx - (l * l - sx - tx)) + 1 * (tx - ux)
    ensures qy - sy == 1 * (qy - (-l * (rx - qx) - ry)) + (-1) * (ry - (l * (sx - rx) - sy)) + l * (qx - sx)
  {
    assert -l * -l == l * l;
    Spread(-l, rx, qx);
    Spread(l, sx, rx);
    Spread(l, qx, sx);
  }

  /** Taking the same way back leads to where it started. */
  lemma BackAtStart(c: Curve, s: Point, t: Point, u: Point, l: int, r: Point, q: Point)
    requires OddPrime(c.p) && s.Affine? && t.Affine? && Mirror(c, t, u)
    requires MirrorsThird(c, s, t, l, r) && MirrorsThird(c, r, u, -l, q)
    ensures Same(c, q, s)
  {
    var p := c.p;
    var hx := q.x - (-l * -l - r.x - u.x);
    var rx := r.x - (l * l - s.x - t.x);
    BackAlgebra(l, s.x, s.y, t.x, u.x, r.x, r.y, q.x, q.y);
    Combine3(q.x - s.x, 1, hx, -1, rx, 1, t.x - u.x, p);
    var hy := q.y - (-l * (r.x - q.x) - r.y);
    var ry := r.y - (l * (s.x - r.x) - s.y);
    Combine3(q.y - s.y, 1, hy, -1, ry, l, q.x - s.x, p);
  }

  /** Adding a point and then its mirror image changes nothing, for every two points of the curve:
      whether they are different, equal or opposite, whether the sum is the mirror image itself,
      and whether or not a zero y or infinity is involved. */
  lemma AddThenTakeAway(c: Curve, s: Point, t: Point, u: Point)
    requires Good(c) && Valid(c, s) && Valid(c, t) && Ranged(c, u) && Mirror(c, t, u)
    ensures Same(c, Add(c, Add(c, s, t), u), s)
  {
    if t.Inf? {
      SameItself(c, s);
    } else {
      MirrorOnCurve(c, t, u);
      if s.Inf? {
        AddOpposite(c, t, u);
      } else if Opposite(c, s, t) {
        AddOpposite(c, s, t);
        assert u.x - s.x == -(t.x - u.x) + -(s.x - t.x);
        Combine2(u.x - s.x, -1, t.x - u.x, -1, s.x - t.x, c.p);
        Combine2(u.y - s.y, 1, t.y + u.y, -1, s.y + t.y, c.p);
      } else {
        var l := SlopeExists(c, s, t);
        var r := Add(c, s, t);
        AddBySlope(c, s, t, l);
        ThirdOnCurve(c, s, t, l, r);
        WayBack(c, s, t, u, l, r);
        AddBySlope(c, r, u, -l);
        BackAtStart(c, s, t, u, l, r, Add(c, r, u));
      }
    }
  }

  lemma SameItself(c: Curve, s: Point)
    requires c.p > 0
    ensures Same(c, s, s)
  {
  }
}
