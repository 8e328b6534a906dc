/** Fixed-width integers and the bit operations the firmware and the host tools share. */
module Bits {

  type uint8 = x: int | 0 <= x < 0x100
  type uint32 = x: int | 0 <= x < 0x1_0000_0000
  type bit = b: int | 0 <= b <= 1

  function Pow2(k: nat): (r: nat)
    ensures r >= 1
  {
    if k == 0 then 1 else 2 * Pow2(k - 1)
  }

  /** `x >> k` on a non-negative integer: k halvings, each rounding down. */
  function ShiftRight(x: nat, k: nat): nat
  {
    if k == 0 then x else ShiftRight(x / 2, k - 1)
  }

  /** `(x >> k) & 1`; the test `x & (1 << k)` is non-zero exactly when this is 1. */
  function BitAt(x: nat, k: nat): bit
  {
    ShiftRight(x, k) % 2
  }

  /** A bit string read most significant bit first. */
  function Pack(bs: seq<bit>): nat
  {
    if |bs| == 0 then 0 else 2 * Pack(bs[..|bs| - 1]) + bs[|bs| - 1]
  }

  /** `b << n` for a single bit b. */
  function ShiftBit(b: bit, n: nat): nat
  {
    if b == 0 then 0 else Pow2(n)
  }

  lemma ShiftBitIsProduct(b: bit, n: nat)
    ensures ShiftBit(b, n) == b * Pow2(n)
  {
  }

  /** A packed string of n bits is below 2^n. */
  lemma {:induction false} PackBound(bs: seq<bit>)
    ensures Pack(bs) < Pow2(|bs|)
  {
    if |bs| > 0 {
      PackBound(bs[..|bs| - 1]);
    }
  }

  /** Bit k of the packed value is the k-th bit counted from the end of the string. */
  lemma {:induction false} PackBit(bs: seq<bit>, k: nat)
    requires k < |bs|
    ensures BitAt(Pack(bs), k) == bs[|bs| - 1 - k]
  {
    var front := bs[..|bs| - 1];
    assert Pack(bs) / 2 == Pack(front);
    if k > 0 {
      PackBit(front, k - 1);
      assert front[|front| - 1 - (k - 1)] == bs[|bs| - 1 - k];
    }
  }

  /**
   * Adding each bit of a prefix at weight 2^(w-1-c), as a shift-and-add loop
   * does, leaves Pack of the prefix scaled by the weight still to come.
   */
  lemma PackStep(bs: seq<bit>, p: nat, w: nat)
    requires p < |bs| && p < w
    ensures Pack(bs[..p + 1]) * Pow2(w - p - 1) == Pack(bs[..p]) * Pow2(w - p) + bs[p] * Pow2(w - p - 1)
  {
    assert bs[..p + 1][..p] == bs[..p];
    var a, m := Pack(bs[..p]), Pow2(w - p - 1);
    assert Pack(bs[..p + 1]) == 2 * a + bs[p];
    assert Pow2(w - p) == 2 * m;
    ShiftAddScaled(a, bs[p], m);
  }

  lemma ShiftAddScaled(a: int, b: int, m: int)
    ensures (2 * a + b) * m == a * (2 * m) + b * m
  {
  }

  /** The w low bits of x, most significant first: the inverse of Pack. */
  function BitsOf(x: nat, w: nat): (bs: seq<bit>)
    ensures |bs| == w
  {
    if w == 0 then [] else BitsOf(x / 2, w - 1) + [x % 2]
  }

  lemma {:induction false} PackBitsOf(x: nat, w: nat)
    requires x < Pow2(w)
    ensures Pack(BitsOf(x, w)) == x
  {
    if w > 0 {
      PackBitsOf(x / 2, w - 1);
      assert BitsOf(x, w)[..w - 1] == BitsOf(x / 2, w - 1);
    }
  }

  lemma {:induction false} BitsOfPack(bs: seq<bit>)
    ensures BitsOf(Pack(bs), |bs|) == bs
  {
    if |bs| > 0 {
      var front := bs[..|bs| - 1];
      BitsOfPack(front);
      assert Pack(bs) / 2 == Pack(front);
      assert bs == front + [bs[|bs| - 1]];
    }
  }

  lemma {:induction false} Pow2Mono(a: nat, b: nat)
    requires a <= b
    ensures Pow2(a) <= Pow2(b)
  {
    if a < b {
      Pow2Mono(a, b - 1);
    }
  }

  /** At most eight bits fit a byte. */
  lemma PackByte(bs: seq<bit>)
    requires |bs| <= 8
    ensures Pack(bs) < 0x100
  {
    PackBound(bs);
    Pow2Mono(|bs|, 8);
  }

  /** Bit strings laid end to end. */
  function Flatten(rows: seq<seq<bit>>): seq<bit>
  {
    if |rows| == 0 then [] else Flatten(rows[..|rows| - 1]) + rows[|rows| - 1]
  }

  /** With every row w bits wide, bit c of row r sits at r*w+c. */
  lemma {:induction false} FlattenAt(rows: seq<seq<bit>>, w: nat, r: nat, c: nat)
    requires forall i :: 0 <= i < |rows| ==> |rows[i]| == w
    requires r < |rows| && c < w
    ensures |Flatten(rows)| == |rows| * w
    ensures r * w + c < |Flatten(rows)| && Flatten(rows)[r * w + c] == rows[r][c]
  {
    FlattenLength(rows, w);
    var n := |rows|;
    if r < n - 1 {
      FlattenAt(rows[..n - 1], w, r, c);
    } else {
      FlattenLength(rows[..n - 1], w);
    }
  }

  lemma {:induction false} FlattenLength(rows: seq<seq<bit>>, w: nat)
    requires forall i :: 0 <= i < |rows| ==> |rows[i]| == w
    ensures |Flatten(rows)| == |rows| * w
  {
    if |rows| > 0 {
      FlattenLength(rows[..|rows| - 1], w);
    }
  }

  lemma MulMono(a: nat, b: nat, n: nat)
    requires a <= b
    ensures a * n <= b * n
  {
  }

  /** Euclidean division by n of q*n+p, for p < n, gives back q and p. */
  lemma DivModOf(q: nat, p: nat, n: nat)
    requires p < n
    ensures (q * n + p) / n == q && (q * n + p) % n == p
  {
    var x := q * n + p;
    var d, m := x / n, x % n;
    assert x == d * n + m && 0 <= m < n;
    if d > q {
      assert d * n >= (q + 1) * n by { MulMono(q + 1, d, n); }
      assert false;
    } else if d < q {
      assert q * n >= (d + 1) * n by { MulMono(d + 1, q, n); }
      assert false;
    }
  }
}
