/** The Internet checksum (internetChecksum in src/internal/mactelnet/conn.go; section 1 of RFC 1071). */
module Checksum {
  import opened Uint32
  import opened Protocol

  const ONES := 0xffff

  // -------------------------------------------------------- reference meaning

  /** The sum of the first `k` 16-bit words. */
  function Words(b: seq<byte>, k: nat): (sum: nat)
    requires 2 * k <= |b|
    ensures sum <= k * ONES
  {
    if k == 0 then 0 else Words(b, k - 1) + Be16At(b, 2 * (k - 1))
  }

  /** The sum of all words; an odd last byte is the high half of one more. */
  function Total(b: seq<byte>): nat {
    Words(b, |b| / 2) + if |b| % 2 == 1 then b[|b| - 1] as int * 0x100 else 0
  }

  /** The 16-bit one's complement sum: carries out of bit 15 are added in at bit 0, so the sum is
      kept mod 2^16 - 1, and zero comes from zero only. */
  function OnesSum(total: nat): uint16 {
    if total == 0 then 0 else (total - 1) % ONES + 1
  }

  function Of(b: seq<byte>): uint16 {
    ONES - OnesSum(Total(b))
  }

  /** What tells a number in 1..65535 from the others: its residue. */
  lemma SameSum(x: nat, y: nat)
    ensures OnesSum(x) == OnesSum(y) <==> x % ONES == y % ONES && (x == 0 <==> y == 0)
    ensures OnesSum(x) % ONES == x % ONES
  {
    assert forall n: nat {:trigger OnesSum(n)} :: n > 0 ==> OnesSum(n) % ONES == n % ONES;
  }

  // --------------------------------------------------------------- the method

  lemma FoldOnce(sum: nat)
    ensures OnesSum(sum % 0x1_0000 + sum / 0x1_0000) == OnesSum(sum)
  {
    var folded := sum % 0x1_0000 + sum / 0x1_0000;
    assert sum == folded + (sum / 0x1_0000) * ONES;
    SameResidueLater(folded, sum / 0x1_0000);
    SameSum(folded, sum);
  }

  lemma SameResidueLater(x: nat, k: nat)
    ensures (x + k * ONES) % ONES == x % ONES
  {
  }

  /** The fold loop ends, and keeps the one's complement sum. */
  method Fold(total: uint32) returns (r: uint16)
    ensures r == OnesSum(total)
  {
    var sum := total;
    while sum / 0x1_0000 != 0
      invariant 0 <= sum < TWO32 && OnesSum(sum) == OnesSum(total)
      decreases sum
    {
      FoldOnce(sum);
      sum := sum % 0x1_0000 + sum / 0x1_0000;
    }
    return sum;
  }

  /** The accumulator is a uint32 and loses its carry: the result is the checksum of the total mod
      2^32, which is the checksum of `b` whenever `b` has at most 131074 bytes. */
  method InternetChecksum(b: seq<byte>) returns (r: uint16)
    ensures r == ONES - OnesSum(Total(b) % TWO32)
    ensures |b| <= 131074 ==> r == Of(b)
  {
    var sum: uint32 := 0;
    var i := 0;
    ghost var k := 0;
    while i + 1 < |b|
      invariant i == 2 * k <= |b| && sum == Words(b, k) % TWO32
    {
      WrappedSum(Words(b, k), Be16At(b, i));
      sum := Add32(sum, Be16At(b, i));
      i, k := i + 2, k + 1;
    }
    LastByte(b, k);
    if |b| % 2 == 1 {
      sum := Add32(sum, b[|b| - 1] as int * 0x100);
    }
    TotalFits(b);
    var folded := Fold(sum);
    return ONES - folded;
  }

  lemma WrappedSum(x: nat, y: uint16)
    ensures Add32(x % TWO32, y) == (x + y) % TWO32
  {
    AddReduced(x, y);
  }

  lemma LastByte(b: seq<byte>, k: nat)
    requires 2 * k <= |b| <= 2 * k + 1
    ensures |b| % 2 == 0 ==> Total(b) == Words(b, k)
    ensures |b| % 2 == 1 ==> Add32(Words(b, k) % TWO32, b[|b| - 1] as int * 0x100) == Total(b) % TWO32
  {
    assert |b| / 2 == k;
    if |b| % 2 == 1 {
      WrappedSum(Words(b, k), b[|b| - 1] as int * 0x100);
    }
  }

  lemma TotalFits(b: seq<byte>)
    ensures |b| <= 131074 ==> Total(b) % TWO32 == Total(b)
  {
    if |b| <= 131074 {
      assert |b| / 2 <= 65537 && (|b| % 2 == 1 ==> |b| / 2 <= 65536);
      assert Words(b, |b| / 2) <= (|b| / 2) * ONES;
    }
  }

  lemma {:induction false} AllOnes(b: seq<byte>, k: nat)
    requires 2 * k <= |b| && forall i :: 0 <= i < 2 * k ==> b[i] == 0xff
    ensures Words(b, k) == k * ONES
  {
    if k > 0 {
      AllOnes(b, k - 1);
    }
  }

  lemma {:induction false} ZerosAddNothing(b: seq<byte>, from: nat, k: nat)
    requires from <= k && 2 * k <= |b| && forall i :: 2 * from <= i < 2 * k ==> b[i] == 0
    ensures Words(b, k) == Words(b, from)
  {
    if from < k {
      ZerosAddNothing(b, from, k - 1);
    }
  }

  /** The length bound is exact: every longer length has an input whose checksum comes out wrong. */
  lemma LongerInputFails(n: nat)
    requires n > 131074
    ensures exists b: seq<byte> :: |b| == n && ONES - OnesSum(Total(b) % TWO32) != Of(b)
  {
    var b: seq<byte> := seq(n, i => if i < 131075 then 0xff else 0);
    AllOnes(b, 65537);
    if n > 131075 {
      assert Words(b, 65538) == Words(b, 65537) + 0xff00;
      ZerosAddNothing(b, 65538, n / 2);
    }
    assert Total(b) == 0x1_0000_feff;
  }

  // ------------------------------------------------------------- storing it

  /** `b` with its `k`-th word overwritten. */
  function WithWord(b: seq<byte>, k: nat, w: uint16): (r: seq<byte>)
    requires 2 * k + 2 <= |b|
    ensures |r| == |b| && r[2 * k..2 * k + 2] == Be16(w)
    ensures forall i :: 0 <= i < |b| && i != 2 * k && i != 2 * k + 1 ==> r[i] == b[i]
  {
    b[2 * k := Be16(w)[0]][2 * k + 1 := Be16(w)[1]]
  }

  lemma {:induction false} WordCounted(b: seq<byte>, k: nat, w: uint16, upTo: nat)
    requires 2 * k + 2 <= |b| && 2 * upTo <= |b| && Be16At(b, 2 * k) == 0
    ensures Words(WithWord(b, k, w), upTo) == Words(b, upTo) + if k < upTo then w else 0
  {
    var r := WithWord(b, k, w);
    if upTo > 0 {
      WordCounted(b, k, w, upTo - 1);
      Be16Inverse(w, r, 2 * k);
      if upTo - 1 != k {
        assert r[2 * (upTo - 1)] == b[2 * (upTo - 1)] && r[2 * (upTo - 1) + 1] == b[2 * (upTo - 1) + 1];
      }
    }
  }

  lemma TotalWithWord(b: seq<byte>, k: nat, w: uint16)
    requires 2 * k + 2 <= |b| && Be16At(b, 2 * k) == 0
    ensures Total(WithWord(b, k, w)) == Total(b) + w
  {
    WordCounted(b, k, w, |b| / 2);
  }

  lemma ComplementOnly(total: nat, w: uint16)
    ensures OnesSum(total + w) == ONES
       <==> var r := ONES - OnesSum(total); w == r || (r == 0 && w == ONES)
  {
    SameSum(total, 0);
    SameSum(total + w, 0);
    var r := ONES - OnesSum(total);
    if w < r {
      ResidueOfSum(total, w, OnesSum(total));
    } else if r < w {
      ResidueOfSum(total, w, OnesSum(total));
    } else {
      ResidueOfSum(total, w, OnesSum(total));
    }
  }

  lemma ResidueOfSum(total: nat, w: nat, o: nat)
    requires o % ONES == total % ONES
    ensures (total + w) % ONES == (o + w) % ONES
  {
  }

  /** With the result stored in a zeroed word the checksum comes out 0, as a receiver checks
      (section 3.1 of RFC 791); and no other word does that, but for the two forms of zero. */
  lemma StoredChecksum(b: seq<byte>, k: nat, w: uint16)
    requires 2 * k + 2 <= |b| && Be16At(b, 2 * k) == 0
    ensures Of(WithWord(b, k, w)) == 0 <==> w == Of(b) || (Of(b) == 0 && w == ONES)
  {
    TotalWithWord(b, k, w);
    ComplementOnly(Total(b), w);
  }

  /** An odd last byte is the high half of a word: a zero byte behind it changes nothing. */
  lemma OddIsPadded(b: seq<byte>)
    requires |b| % 2 == 1
    ensures Of(b + [0]) == Of(b)
  {
    var padded := b + [0];
    WordsOfPrefix(b, [0], |b| / 2);
    assert |padded| / 2 == |b| / 2 + 1;
    assert padded[|b| - 1] == b[|b| - 1] && padded[|b|] == 0;
  }

  lemma {:induction false} WordsOfPrefix(b: seq<byte>, tail: seq<byte>, k: nat)
    requires 2 * k <= |b|
    ensures Words(b + tail, k) == Words(b, k)
  {
    if k > 0 {
      WordsOfPrefix(b, tail, k - 1);
    }
  }

  /** The numerical example of section 3 of RFC 1071: its sum is 0xddf2. */
  lemma Rfc1071Example()
    ensures Of([0x00, 0x01, 0xf2, 0x03, 0xf4, 0xf5, 0xf6, 0xf7]) == 0xffff - 0xddf2
  {
    var b: seq<byte> := [0x00, 0x01, 0xf2, 0x03, 0xf4, 0xf5, 0xf6, 0xf7];
    assert Words(b, 1) == 0x0001;
    assert Words(b, 2) == 0xf204;
    assert Words(b, 3) == 0x1_e6f9;
    assert Words(b, 4) == 0x2_ddf0;
  }
}
