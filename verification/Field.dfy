/** Arithmetic modulo a prime, as far as src/internal/mactelnet/mtwei.go takes it from math/big. */
module Field {
  import opened Wrappers

  predicate Divides(d: int, p: int)
    requires d > 0
  {
    p % d == 0
  }

  ghost predicate Prime(p: int) {
    p >= 2 && forall d :: 2 <= d < p ==> !Divides(d, p)
  }

  /** `e` is zero modulo `p`. */
  predicate Zero(e: int, p: int)
    requires p > 0
  {
    e % p == 0
  }

  /** A product with a difference or a sum of four, written out. */
  lemma Spread(p: int, x: int, y: int)
    ensures p * (x - y) == p * x - p * y
  {
  }

  lemma Spread4(a: int, b: int, c: int, d: int, x: int)
    ensures (a + b + c + d) * x == a * x + b * x + c * x + d * x
  {
  }

  lemma QuotientUnique(x: int, q: int, r: int, p: int)
    requires p > 0 && x == q * p + r && 0 <= r < p
    ensures x / p == q && x % p == r
  {
    var q', r' := x / p, x % p;
    assert x == q' * p + r';
    assert (q - q') * p == r' - r;
    TimesAtLeast(q - q', p);
  }

  lemma MultipleIsZero(k: int, p: int)
    requires p > 0
    ensures Zero(k * p, p) && Zero(p * k, p)
  {
    QuotientUnique(k * p, k, 0, p);
  }

  lemma TimesAtLeast(d: int, p: int)
    requires p > 0
    ensures d >= 1 ==> d * p >= p
    ensures d <= -1 ==> d * p <= -p
  {
  }

  /** A combination of things that are zero is zero. */
  lemma Combine2(e: int, c1: int, h1: int, c2: int, h2: int, p: int)
    requires p > 0 && Zero(h1, p) && Zero(h2, p)
    requires e == c1 * h1 + c2 * h2
    ensures Zero(e, p)
  {
    var k1, k2 := h1 / p, h2 / p;
    assert h1 == k1 * p && h2 == k2 * p;
    assert c1 * (k1 * p) == (c1 * k1) * p && c2 * (k2 * p) == (c2 * k2) * p;
    var k := c1 * k1 + c2 * k2;
    assert e == k * p;
    MultipleIsZero(k, p);
  }

  lemma Combine3(e: int, c1: int, h1: int, c2: int, h2: int, c3: int, h3: int, p: int)
    requires p > 0 && Zero(h1, p) && Zero(h2, p) && Zero(h3, p)
    requires e == c1 * h1 + c2 * h2 + c3 * h3
    ensures Zero(e, p)
  {
    Combine2(c1 * h1 + c2 * h2, c1, h1, c2, h2, p);
    Combine2(e, 1, c1 * h1 + c2 * h2, c3, h3, p);
  }

  lemma Multiple(e: int, c: int, h: int, p: int)
    requires p > 0 && Zero(h, p) && e == c * h
    ensures Zero(e, p)
  {
    Combine2(e, c, h, 0, 0, p);
  }

  lemma ZeroDifference(x: int, y: int, p: int)
    requires p > 0
    ensures Zero(x - y, p) <==> Zero(y - x, p)
  {
    PartsOfZero(x - y, y - x, 0, p);
  }

  /** If a sum is zero, one part is exactly if the other is. */
  lemma PartsOfZero(u: int, w: int, e: int, p: int)
    requires p > 0 && Zero(e, p) && e == u + w
    ensures Zero(u, p) <==> Zero(w, p)
  {
    if Zero(u, p) {
      Combine2(w, 1, e, -1, u, p);
    }
    if Zero(w, p) {
      Combine2(u, 1, e, -1, w, p);
    }
  }

  /** `Mod` keeps the residue. */
  lemma ModIsSame(x: int, p: int)
    requires p > 0
    ensures Zero(x - x % p, p) && Zero(x % p - x, p)
  {
    MultipleIsZero(x / p, p);
    MultipleIsZero(-(x / p), p);
    assert x - x % p == (x / p) * p;
    assert x % p - x == (-(x / p)) * p;
  }

  /** Reduced numbers of the same residue are equal. */
  lemma ReducedUnique(x: int, y: int, p: int)
    requires p > 0 && 0 <= x < p && 0 <= y < p && Zero(x - y, p)
    ensures x == y
  {
    var k := (x - y) / p;
    assert x - y == k * p;
    QuotientUnique(x, k, y, p);
    QuotientUnique(x, 0, x, p);
  }

  // ------------------------------------------------------------------ inverses

  /** big.Int.ModInverse: the reduced inverse if there is one. How it is found is not modelled;
      here it is looked for from `from` on. */
  predicate Inverts(a: int, i: int, p: int)
    requires p > 0
  {
    Zero(a * i - 1, p)
  }

  function SearchInverse(a: int, p: int, from: nat): (r: Option<int>)
    requires p > 0 && from <= p
    ensures r.Some? ==> from <= r.value < p && Inverts(a, r.value, p)
    ensures r.None? ==> forall i :: from <= i < p ==> !Inverts(a, i, p)
    decreases p - from
  {
    if from == p then None
    else if Inverts(a, from, p) then Some(from)
    else SearchInverse(a, p, from + 1)
  }

  /** Some reduced inverse if there is one. */
  function ModInverse(a: int, p: int): (r: Option<int>)
    requires p > 1
    ensures r.Some? ==> 0 <= r.value < p && Inverts(a, r.value, p)
    ensures r.None? ==> forall i :: 0 <= i < p ==> !Inverts(a, i, p)
  {
    SearchInverse(a, p, 0)
  }

  /** Modulo a prime everything but zero has an inverse: from a remainder of the prime to a smaller
      one, as in Euclid's algorithm. */
  lemma {:induction false} InverseExists(a: int, p: int) returns (i: int)
    requires Prime(p) && 0 < a < p
    ensures 0 <= i < p && Zero(a * i - 1, p)
    decreases a
  {
    if a == 1 {
      i := 1;
    } else {
      var q, r := p / a, p % a;
      DivMod(p, a);
      assert !Divides(a, p);
      var s := InverseExists(r, p);
      i := EuclidStep(a, q, r, s, p);
    }
  }

  lemma DivMod(p: int, a: int)
    requires a > 0
    ensures p == a * (p / a) + p % a && 0 <= p % a < a
  {
  }

  lemma EuclidAlgebra(a: int, q: int, r: int, s: int, p: int)
    requires p == a * q + r
    ensures a * -(q * s) - 1 == 1 * (r * s - 1) + (-s) * p
  {
    var aq := a * q;
    Spread(s, aq, -r);
    assert s * aq == a * (q * s);
  }

  lemma EuclidStep(a: int, q: int, r: int, s: int, p: int) returns (i: int)
    requires p > 0 && p == a * q + r && Zero(r * s - 1, p)
    ensures 0 <= i < p && Zero(a * i - 1, p)
  {
    var raw := -(q * s);
    EuclidAlgebra(a, q, r, s, p);
    MultipleIsZero(1, p);
    Combine2(a * raw - 1, 1, r * s - 1, -s, p, p);
    i := raw % p;
    InverseReduced(a, raw, p);
  }

  lemma InverseReduced(a: int, raw: int, p: int)
    requires p > 0 && Zero(a * raw - 1, p)
    ensures Zero(a * (raw % p) - 1, p)
  {
    ModIsSame(raw, p);
    assert a * (raw % p) - 1 == 1 * (a * raw - 1) + a * (raw % p - raw);
    Combine2(a * (raw % p) - 1, 1, a * raw - 1, a, raw % p - raw, p);
  }

  lemma InverseOfNonzero(a: int, p: int)
    requires Prime(p) && !Zero(a, p)
    ensures ModInverse(a, p).Some?
  {
    var i := InverseExists(a % p, p);
    ModIsSame(a, p);
    var d := a % p;
    assert a * i - 1 == 1 * (d * i - 1) + i * (a - d) by {
      Spread(i, a, d);
    }
    Combine2(a * i - 1, 1, d * i - 1, i, a - d, p);
    assert Inverts(a, i, p);
  }

  lemma InverseOfReduced(den: int, d: int, p: int)
    requires Prime(p) && !Zero(den, p) && d == den % p
    ensures ModInverse(d, p).Some?
  {
    if Zero(d, p) {
      ReducedUnique(d, 0, p);
    }
    InverseOfNonzero(d, p);
  }

  lemma NoInverseOfZero(a: int, p: int)
    requires p > 1 && Zero(a, p)
    ensures ModInverse(a, p).None?
  {
    var r := ModInverse(a, p);
    if r.Some? {
      assert 1 == r.value * a + (-1) * (a * r.value - 1);
      Combine2(1, r.value, a, -1, a * r.value - 1, p);
    }
  }

  /** Dividing solves a linear equation. */
  lemma Quotient(num: int, den: int, p: int) returns (l: int)
    requires Prime(p) && !Zero(den, p)
    ensures Zero(l * den - num, p)
  {
    InverseOfNonzero(den, p);
    var inv := ModInverse(den, p).value;
    l := num * inv;
    assert l * den == num * (den * inv);
    assert l * den - num == num * (den * inv - 1);
    Multiple(l * den - num, num, den * inv - 1, p);
  }

  /** The quotient of `num` by something with inverse `inv`. */
  function Lambda(num: int, inv: int, p: int): int
    requires p > 0
  {
    (num % p * inv) % p
  }

  /** There are no zero divisors modulo a prime. */
  lemma NoZeroDivisors(x: int, y: int, p: int)
    requires Prime(p) && Zero(x * y, p) && !Zero(x, p)
    ensures Zero(y, p)
  {
    InverseOfNonzero(x, p);
    var i := ModInverse(x, p).value;
    assert y == i * (x * y) + (-y) * (x * i - 1);
    Combine2(y, i, x * y, -y, x * i - 1, p);
  }

  // --------------------------------------------------------------- square roots

  /** What big.Int.ModSqrt promises: some reduced square root if there is one. Which of the two it
      is stays open. */
  ghost predicate IsModSqrt(sqrt: int -> Option<int>, p: int)
    requires p > 1
  {
    forall a :: RootOrNone(sqrt(a), a, p)
  }

  ghost predicate RootOrNone(r: Option<int>, a: int, p: int)
    requires p > 1
  {
    match r
    case Some(y) => 0 <= y < p && Zero(y * y - a, p)
    case None => forall y :: 0 <= y < p ==> !Zero(y * y - a, p)
  }

  /** Square roots are unique up to sign. */
  lemma RootsUpToSign(x: int, y: int, p: int)
    requires Prime(p) && Zero(x * x - y * y, p)
    ensures Zero(x - y, p) || Zero(x + y, p)
  {
    assert x * x - y * y == (x - y) * (x + y);
    if !Zero(x - y, p) {
      NoZeroDivisors(x - y, x + y, p);
    }
  }
}
