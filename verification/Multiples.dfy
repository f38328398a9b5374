/** Multiples in a monoid, and double-and-add. */
module Multiples {
  import Field

  datatype Monoid<!T> = Monoid(op: (T, T) -> T, unit: T, elem: T -> bool)

  ghost predicate AssociativeAt<T>(m: Monoid<T>, r: T, s: T, t: T) {
    m.op(m.op(r, s), t) == m.op(r, m.op(s, t))
  }

  ghost predicate ClosedAt<T>(m: Monoid<T>, s: T, t: T) {
    m.elem(m.op(s, t))
  }

  ghost predicate Lawful<T(!new)>(m: Monoid<T>) {
    && m.elem(m.unit)
    && (forall s {:trigger m.op(s, m.unit)} :: m.op(s, m.unit) == s)
    && (forall s {:trigger m.op(m.unit, s)} :: m.op(m.unit, s) == s)
    && (forall s, t {:trigger ClosedAt(m, s, t)} :: m.elem(s) && m.elem(t) ==> ClosedAt(m, s, t))
    && (forall r, s, t {:trigger AssociativeAt(m, r, s, t)} ::
          m.elem(r) && m.elem(s) && m.elem(t) ==> AssociativeAt(m, r, s, t))
  }

  /** The sum of `k` copies. */
  function Times<T>(m: Monoid<T>, k: nat, x: T): T {
    if k == 0 then m.unit else m.op(Times(m, k - 1, x), x)
  }

  /** Double-and-add over the binary digits of `k`. */
  function Ladder<T>(m: Monoid<T>, k: nat, res: T, cur: T): T {
    if k == 0 then res
    else Ladder(m, k / 2, if k % 2 == 1 then m.op(res, cur) else res, m.op(cur, cur))
  }

  lemma TimesElement<T(!new)>(m: Monoid<T>, k: nat, x: T)
    requires Lawful(m) && m.elem(x)
    ensures m.elem(Times(m, k, x))
  {
    if k > 0 {
      TimesElement(m, k - 1, x);
      assert ClosedAt(m, Times(m, k - 1, x), x);
    }
  }

  lemma {:induction false} TimesSum<T(!new)>(m: Monoid<T>, j: nat, k: nat, x: T)
    requires Lawful(m) && m.elem(x)
    ensures Times(m, j + k, x) == m.op(Times(m, j, x), Times(m, k, x))
  {
    if k > 0 {
      TimesSum(m, j, k - 1, x);
      TimesElement(m, j, x);
      TimesElement(m, k - 1, x);
      assert AssociativeAt(m, Times(m, j, x), Times(m, k - 1, x), x);
    }
  }

  lemma {:induction false} TimesProduct<T(!new)>(m: Monoid<T>, j: nat, k: nat, x: T)
    requires Lawful(m) && m.elem(x)
    ensures Times(m, j * k, x) == Times(m, j, Times(m, k, x))
  {
    if j > 0 {
      TimesProduct(m, j - 1, k, x);
      TimesSum(m, (j - 1) * k, k, x);
      assert j * k == (j - 1) * k + k;
    }
  }

  lemma TimesTwo<T(!new)>(m: Monoid<T>, k: nat, x: T)
    requires Lawful(m) && m.elem(x)
    ensures Times(m, k, m.op(x, x)) == Times(m, k * 2, x)
    ensures Times(m, 1, x) == x
  {
    TimesProduct(m, k, 2, x);
    assert Times(m, 1, x) == x;
    assert Times(m, 2, x) == m.op(x, x);
  }

  /** The loop invariant of double-and-add in terms of multiples. */
  lemma {:induction false} LadderIsTimes<T(!new)>(m: Monoid<T>, k: nat, res: T, cur: T)
    requires Lawful(m) && m.elem(res) && m.elem(cur)
    ensures Ladder(m, k, res, cur) == m.op(res, Times(m, k, cur))
  {
    if k > 0 {
      var h := k / 2;
      var next := if k % 2 == 1 then m.op(res, cur) else res;
      assert ClosedAt(m, cur, cur) && ClosedAt(m, res, cur);
      LadderIsTimes(m, h, next, m.op(cur, cur));
      TimesTwo(m, h, cur);
      TimesElement(m, h * 2, cur);
      if k % 2 == 1 {
        TimesSum(m, 1, h * 2, cur);
        assert AssociativeAt(m, res, cur, Times(m, h * 2, cur));
        assert k == 1 + h * 2;
      } else {
        assert k == h * 2;
      }
    }
  }

  lemma TimesOfUnit<T(!new)>(m: Monoid<T>, k: nat)
    requires Lawful(m)
    ensures Times(m, k, m.unit) == m.unit
  {
  }

  /** Multiples of the order can be left out. */
  lemma WholeLaps<T(!new)>(m: Monoid<T>, q: nat, n: nat, qn: nat, x: T)
    requires Lawful(m) && m.elem(x) && Times(m, n, x) == m.unit && qn == q * n
    ensures Times(m, qn, x) == m.unit
  {
    TimesProduct(m, q, n, x);
    TimesOfUnit(m, q);
  }

  lemma ModuloOrder<T(!new)>(m: Monoid<T>, k: nat, n: nat, x: T)
    requires Lawful(m) && m.elem(x) && n > 0 && Times(m, n, x) == m.unit
    ensures Times(m, k % n, x) == Times(m, k, x)
  {
    var q, r := k / n, k % n;
    var qn: nat := q * n;
    assert k == qn + r;
    WholeLaps(m, q, n, qn, x);
    TimesSum(m, qn, r, x);
  }

  lemma ReducedSum<T(!new)>(m: Monoid<T>, k: nat, r: nat, j: nat, n: nat, x: T)
    requires Lawful(m) && m.elem(x) && n > 0 && Times(m, n, x) == m.unit && r == k % n
    ensures Times(m, (r + j) % n, x) == m.op(Times(m, k, x), Times(m, j, x))
  {
    ModuloOrder(m, k, n, x);
    ModuloOrder(m, r + j, n, x);
    TimesSum(m, r, j, x);
  }

  /** The client's scalar `vh`, reduced twice modulo the order. */
  lemma ClientScalar<T(!new)>(m: Monoid<T>, v: nat, h: nat, vh: nat, priv: nat, n: nat, x: T)
    requires Lawful(m) && m.elem(x) && n > 0 && Times(m, n, x) == m.unit && vh == (v * h) % n
    ensures Times(m, (vh + priv) % n, x) == m.op(Times(m, h, Times(m, v, x)), Times(m, priv, x))
  {
    ReducedSum(m, v * h, vh, priv, n, x);
    TimesProduct(m, h, v, x);
    assert v * h == h * v;
  }

  /** The client's sum as one multiple. */
  lemma ClientSide<T(!new)>(m: Monoid<T>, b: nat, v: nat, h: nat, priv: nat, vb: nat, hvb: nat, pb: nat, x: T)
    requires Lawful(m) && m.elem(x) && vb == v * b && hvb == h * vb && pb == priv * b
    ensures m.op(Times(m, h, Times(m, v, Times(m, b, x))), Times(m, priv, Times(m, b, x))) == Times(m, hvb + pb, x)
  {
    TimesProduct(m, v, b, x);
    TimesProduct(m, h, vb, x);
    TimesProduct(m, priv, b, x);
    TimesSum(m, hvb, pb, x);
  }

  /** The peer's multiple of a sum as one multiple. */
  lemma PeerSide<T(!new)>(m: Monoid<T>, b: nat, v: nat, h: nat, priv: nat, hv: nat, sum: nat, all: nat, x: T)
    requires Lawful(m) && m.elem(x) && hv == h * v && sum == priv + hv && all == b * sum
    ensures Times(m, b, m.op(Times(m, priv, x), Times(m, h, Times(m, v, x)))) == Times(m, all, x)
  {
    TimesProduct(m, h, v, x);
    TimesSum(m, priv, hv, x);
    TimesProduct(m, b, sum, x);
  }

  /** The numbers of both sides. */
  lemma SameNumber(b: nat, v: nat, h: nat, priv: nat)
      returns (vb: nat, hvb: nat, pb: nat, hv: nat, sum: nat, all: nat)
    ensures vb == v * b && hvb == h * vb && pb == priv * b && hv == h * v && sum == priv + hv && all == b * sum
    ensures hvb + pb == all
  {
    vb, pb, hv := v * b, priv * b, h * v;
    hvb, sum := h * vb, priv + hv;
    all := b * sum;
    assert b * (priv + hv) == b * priv + b * hv;
    assert h * (v * b) == b * (h * v);
  }

  /** Both sides of the exchange compute one multiple of the generator. */
  lemma BothSides<T(!new)>(m: Monoid<T>, b: nat, v: nat, h: nat, priv: nat, x: T)
    requires Lawful(m) && m.elem(x)
    ensures m.op(Times(m, h, Times(m, v, Times(m, b, x))), Times(m, priv, Times(m, b, x)))
         == Times(m, b, m.op(Times(m, priv, x), Times(m, h, Times(m, v, x))))
  {
    var vb, hvb, pb, hv, sum, all := SameNumber(b, v, h, priv);
    ClientSide(m, b, v, h, priv, vb, hvb, pb, x);
    PeerSide(m, b, v, h, priv, hv, sum, all, x);
  }

  lemma OrderProducts<T(!new)>(m: Monoid<T>, n: nat, b: nat, nb: nat, x: T)
    requires Lawful(m) && m.elem(x) && nb == n * b
    ensures Times(m, nb, x) == Times(m, n, Times(m, b, x)) == Times(m, b, Times(m, n, x))
  {
    TimesProduct(m, n, b, x);
    TimesProduct(m, b, n, x);
  }

  /** What has order n has only multiples of that order. */
  lemma OrderOfMultiple<T(!new)>(m: Monoid<T>, n: nat, b: nat, x: T)
    requires Lawful(m) && m.elem(x) && Times(m, n, x) == m.unit
    ensures Times(m, n, Times(m, b, x)) == m.unit
  {
    var nb := n * b;
    OrderProducts(m, n, b, nb, x);
    TimesOfUnit(m, b);
  }

  // --------------------------------------------------- doublings that reach the unit

  function Pow2(j: nat): (p: nat)
    ensures p > 0
  {
    if j == 0 then 1 else 2 * Pow2(j - 1)
  }

  function Doubled<T>(m: Monoid<T>, j: nat, x: T): T {
    if j == 0 then x else Doubled(m, j - 1, m.op(x, x))
  }

  lemma {:induction false} DoubledSnoc<T>(m: Monoid<T>, j: nat, x: T)
    ensures Doubled(m, j + 1, x) == m.op(Doubled(m, j, x), Doubled(m, j, x))
  {
    if j > 0 {
      DoubledSnoc(m, j - 1, m.op(x, x));
    }
  }

  lemma {:induction false} DoubledIsTimes<T(!new)>(m: Monoid<T>, j: nat, x: T)
    requires Lawful(m) && m.elem(x)
    ensures Doubled(m, j, x) == Times(m, Pow2(j), x)
  {
    TimesTwo(m, Pow2(j), x);
    if j > 0 {
      assert ClosedAt(m, x, x);
      DoubledIsTimes(m, j - 1, m.op(x, x));
      TimesTwo(m, Pow2(j - 1), x);
    }
  }

  /** Twice something of order k has that order too. */
  lemma TwiceKeepsOrder<T(!new)>(m: Monoid<T>, k: nat, x: T)
    requires Lawful(m) && m.elem(x) && Times(m, k, x) == m.unit
    ensures Times(m, k, m.op(x, x)) == m.unit
  {
    TimesTwo(m, k, x);
    TimesProduct(m, 2, k, x);
    TimesOfUnit(m, 2);
  }

  lemma OddIsLast<T(!new)>(m: Monoid<T>, k: nat, h: nat, x: T)
    requires Lawful(m) && m.elem(x) && k == h * 2 + 1 && m.op(x, x) == m.unit
    ensures Times(m, k, x) == x
  {
    TimesTwo(m, h, x);
    TimesOfUnit(m, h);
  }

  /** Only the unit has both an odd order and one that is a power of two. */
  lemma {:induction false} OddAndDoubled<T(!new)>(m: Monoid<T>, k: nat, j: nat, x: T)
    requires Lawful(m) && m.elem(x) && k % 2 == 1
    requires Times(m, k, x) == m.unit && Doubled(m, j, x) == m.unit
    ensures x == m.unit
  {
    if j > 0 {
      assert ClosedAt(m, x, x);
      TwiceKeepsOrder(m, k, x);
      OddAndDoubled(m, k, j - 1, m.op(x, x));
      OddIsLast(m, k, k / 2, x);
    }
  }

  /** Whether double-and-add ever adds the unit to the unit. */
  ghost predicate AddsUnits<T>(m: Monoid<T>, k: nat, res: T, cur: T) {
    k > 0 && ((k % 2 == 1 && res == m.unit && cur == m.unit)
              || AddsUnits(m, k / 2, if k % 2 == 1 then m.op(res, cur) else res, m.op(cur, cur)))
  }

  /** Once an odd multiple is in the result, it never does: not both could be the unit. */
  lemma {:induction false} OddNeverAdds<T(!new)>(m: Monoid<T>, k: nat, res: T, cur: T, odd: nat, j: nat, x: T)
    requires Lawful(m) && m.elem(x) && x != m.unit && odd % 2 == 1 && j > 0
    requires res == Times(m, odd, x) && cur == Doubled(m, j, x)
    ensures !AddsUnits(m, k, res, cur)
    decreases k
  {
    if k > 0 {
      if res == m.unit && cur == m.unit {
        OddAndDoubled(m, odd, j, x);
      }
      DoubledSnoc(m, j, x);
      var next := if k % 2 == 1 then odd + Pow2(j) else odd;
      DoubledIsTimes(m, j, x);
      TimesSum(m, odd, Pow2(j), x);
      OddNeverAdds(m, k / 2, if k % 2 == 1 then m.op(res, cur) else res, m.op(cur, cur), next, j + 1, x);
    }
  }

  /** `j` doublings reach the unit, and `k` is a multiple of 2^j. */
  ghost predicate DoublesAway<T>(m: Monoid<T>, k: nat, x: T, j: nat) {
    Doubled(m, j, x) == m.unit && Divides2(j, k)
  }

  /** 2^j divides k. */
  predicate Divides2(j: nat, k: nat) {
    j == 0 || (k % 2 == 0 && Divides2(j - 1, k / 2))
  }

  lemma {:induction false} Divides2Is(j: nat, k: nat)
    ensures Divides2(j, k) <==> k % Pow2(j) == 0
  {
    if j > 0 {
      Divides2Is(j - 1, k / 2);
      TwiceModulo(k, Pow2(j - 1));
    }
  }

  lemma TwiceModulo(k: nat, p: nat)
    requires p > 0
    ensures k % (2 * p) == 0 <==> k % 2 == 0 && (k / 2) % p == 0
  {
    var q, r := k / (2 * p), k % (2 * p);
    assert k == 2 * (q * p) + r;
    if k % 2 == 0 {
      Field.QuotientUnique(k / 2, q, r / 2, p);
    }
  }

  /** Double-and-add from the unit adds the unit to the unit exactly if some doublings, no more than
      `k` has factors of two, reach the unit. */
  lemma {:induction false} AddsUnitsIff<T(!new)>(m: Monoid<T>, k: nat, x: T)
    requires Lawful(m) && m.elem(x)
    ensures AddsUnits(m, k, m.unit, x) <==> k > 0 && exists j: nat :: DoublesAway(m, k, x, j)
  {
    if k > 0 && k % 2 == 1 {
      assert x == m.unit <==> DoublesAway(m, k, x, 0);
      if x != m.unit {
        assert m.op(m.unit, x) == x;
        TimesTwo(m, 1, x);
        DoubledSnoc(m, 0, x);
        OddNeverAdds(m, k / 2, x, m.op(x, x), 1, 1, x);
      }
    } else if k > 0 {
      assert ClosedAt(m, x, x);
      AddsUnitsIff(m, k / 2, m.op(x, x));
      DoublesAwayHalf(m, k, x);
    }
  }

  lemma DoublesAwayHalf<T(!new)>(m: Monoid<T>, k: nat, x: T)
    requires Lawful(m) && k % 2 == 0
    ensures (exists j: nat :: DoublesAway(m, k, x, j)) <==> (exists j: nat :: DoublesAway(m, k / 2, m.op(x, x), j))
  {
    forall j: nat | DoublesAway(m, k, x, j)
      ensures exists i: nat :: DoublesAway(m, k / 2, m.op(x, x), i)
    {
      assert DoublesAway(m, k / 2, m.op(x, x), if j == 0 then 0 else j - 1);
    }
    forall j: nat | DoublesAway(m, k / 2, m.op(x, x), j)
      ensures exists i: nat :: DoublesAway(m, k, x, i)
    {
      assert DoublesAway(m, k, x, j + 1);
    }
  }
}
