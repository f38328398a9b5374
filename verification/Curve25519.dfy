/** The constants of `newMtweiState` in src/internal/mactelnet/mtwei.go. */
module Curve25519 {
  import opened Field
  import opened Curve
  import opened EcSrp
  import ScalarLaw
  import opened Tangle
  import opened Uint32
  import opened Wrappers

  const P: int := 0x7fffffffffffffffffffffffffffffffffffffffffffffffffffffffffffffed
  const A: int := 0x2aaaaaaaaaaaaaaaaaaaaaaaaaaaaaaaaaaaaaaaaaaaaaaaaaaaaa984914a144
  const B: int := 0x7b425ed097b425ed097b425ed097b425ed097b425ed097b4260b5e9c7710c864
  const GX: int := 0x2aaaaaaaaaaaaaaaaaaaaaaaaaaaaaaaaaaaaaaaaaaaaaaaaaaaaaaaaaad245a
  const GY: int := 0x5f51e65e475f794b1fe122d388b72eb36dc2b28192839e4dd6163a5d81312c14
  const N: int := 0x1000000000000000000000000000000014def9dea2f79cd65812631a5cf5d3ed
  const W2M: int := 0x555555555555555555555555555555555555555555555555555555555552db9c
  const M2W: int := 0x2aaaaaaaaaaaaaaaaaaaaaaaaaaaaaaaaaaaaaaaaaaaaaaaaaaaaaaaaaad2451

  const C25519: Curve := Curve(P, A, B)

  function State(sqrt: int -> Option<int>, sha: int -> int): Params {
    Params(C25519, Affine(GX, GY), N, W2M, M2W, sqrt, sha)
  }

  /** The offsets cancel, the generator is on the curve, and no point of the curve is singular: with
      P prime and a square root as promised, the conditions `Sound` collects are met. That N times
      the generator is infinity is not shown here; it is a condition of its own in ScalarLaw. */
  lemma ConstantsSound(sqrt: int -> Option<int>, sha: int -> int)
    requires Prime(P) && IsModSqrt(sqrt, P)
    ensures Sound(State(sqrt, sha))
  {
    OffsetsCancel();
    GeneratorOnCurve();
    NotSingular();
  }

  lemma OffsetsCancel()
    ensures Zero(W2M + M2W, P)
  {
    assert W2M + M2W == P;
    assert Zero(P, P);
  }

  lemma GeneratorOnCurve()
    ensures Zero(Gap(C25519, GX, GY), P)
  {
    var q := Gap(C25519, GX, GY) / P;
    assert Gap(C25519, GX, GY) == q * P;
  }

  lemma NotSingular()
    ensures !Zero(4 * A * A * A + 27 * B * B, P)
  {
  }

  /** The order of the generator is odd: once it is its order, `keygen` computes every multiple of the
      generator without a panic. */
  lemma GeneratorNeverPanics(sqrt: int -> Option<int>, sha: int -> int, priv: nat)
    requires Prime(P) && IsModSqrt(sqrt, P)
    requires ScalarLaw.Associative(C25519) && ScalarLaw.Times(C25519, N, Affine(GX, GY)) == Inf
    ensures !Panics(C25519, priv, Affine(GX, GY))
  {
    ConstantsSound(sqrt, sha);
    ScalarLaw.KeygenMultiplies(State(sqrt, sha), priv);
  }

  lemma {:induction false} SmallNumber(n: nat, k: nat)
    requires n < 256 && k > 0
    ensures ToBytes(n, k) == seq(k - 1, _ => 0) + [n]
  {
    if k > 1 {
      SmallNumber(0, k - 1);
      assert seq(k - 2, _ => 0) + [0] == seq(k - 1, _ => 0);
    }
  }

  /** The generator is sent as the number 9, with parity 0; and the validator 1 stands for it, so that its
      search starts at the hash of 9. */
  lemma GeneratorIsNine(sqrt: int -> Option<int>, sha: int -> int)
    ensures var s := State(sqrt, sha);
            && Compress(s, s.g) == seq(31, _ => 0) + [9] + [0]
            && KeyX(s, seq(31, _ => 0) + [9] + [0]) == GX
            && ValidatorPoint(s, 1) == Affine(GX, GY)
            && Seed(s, ValidatorPoint(s, 1)) == sha(9)
  {
    var s := State(sqrt, sha);
    assert (GX + W2M) % P == 9;
    SmallNumber(9, 32);
    var b := seq(31, _ => 0) + [9];
    FirstBytes(b, 0);
    Pow256Of32();
    BytesRoundTrip(9, 32);
    assert (9 + M2W) % P == GX;
    assert Ladder(s.c, 1, Inf, s.g) == Ladder(s.c, 0, s.g, Double(s.c, s.g));
  }
}
