/**
 * The dictionary translator: ArUco dictionaries store a marker as a packed
 * bit stream of size*size bits, most significant bit first, eight bits per
 * byte with the last partial byte holding its bits in its low positions.
 * `byteTranslator` unpacks that stream and repacks it as `size` row masks,
 * the format the firmware's `applyAruco` draws; `main` picks the dictionary
 * and the size from the marker type and prints `code <size> <row> ... `.
 *
 * Stream positions are counted with `RowStart`, the position of a row's first
 * cell, built by adding one row at a time; `RowStartIsProduct` ties it to
 * `r * size`, the product the source computes.
 */
module Translator {
  import opened Bits
  import opened Text

  const MAX_CODE_SIZE: nat := 6

  /** The stream position of the first cell of row r: r whole rows of `size` cells. */
  function RowStart(r: nat, size: nat): nat
  {
    if r == 0 then 0 else RowStart(r - 1, size) + size
  }

  /** The number of cells of a size x size marker. */
  function CellCount(size: nat): nat
  {
    RowStart(size, size)
  }

  lemma {:induction false} RowStartIsProduct(r: nat, size: nat)
    ensures RowStart(r, size) == r * size
  {
    if r > 0 {
      RowStartIsProduct(r - 1, size);
    }
  }

  /** Rows before row n end no later than row n starts. */
  lemma {:induction false} RowStartMono(r: nat, n: nat, size: nat)
    requires r < n
    ensures RowStart(r, size) + size <= RowStart(n, size)
    decreases n
  {
    if r + 1 < n {
      RowStartMono(r, n - 1, size);
    }
  }

  /** The bytes of the packed stream that hold the size*size bits. */
  function NeededBytes(size: nat): nat
  {
    (CellCount(size) + 7) / 8
  }

  /** A marker of side at most 8 is packed in at most `size` bytes, the bytes the outer loop visits. */
  lemma NeededBytesAtMostSize(size: nat)
    requires size <= 8
    ensures NeededBytes(size) <= size
    ensures CellCount(size) == size * size <= 8 * size
  {
    RowStartIsProduct(size, size);
    MulMono(size, 8, size);
  }

  /**
   * Bit k of a stream of `total` bits packed in `bytes`: a byte holding eight
   * bits of the stream gives them from bit 7 down to bit 0; the last byte,
   * when fewer than eight bits remain, holds them in its low positions, the
   * first of them highest; the stream goes on in the next byte.
   */
  function StreamBit(bytes: seq<uint8>, total: nat, k: nat): bit
    requires k < total && |bytes| >= (total + 7) / 8
    decreases k
  {
    if k >= 8 then StreamBit(bytes[1..], total - 8, k - 8)
    else if total >= 8 then BitAt(bytes[0], 7 - k)
    else BitAt(bytes[0], total - 1 - k)
  }

  lemma RowCellInStream(size: nat, r: nat, c: nat)
    requires r < size && c < size
    ensures RowStart(r, size) + c < CellCount(size)
  {
    RowStartMono(r, size, size);
  }

  /** The bits of row r: the `size` stream bits from the row's start. */
  function RowBits(bytes: seq<uint8>, size: nat, r: nat): (row: seq<bit>)
    requires r < size && |bytes| >= NeededBytes(size)
    ensures |row| == size
  {
    seq<bit>(size, c requires 0 <= c < size =>
      RowCellInStream(size, r, c);
      StreamBit(bytes, CellCount(size), RowStart(r, size) + c))
  }

  /** The mask of row r, its first bit the most significant. */
  function Row(bytes: seq<uint8>, size: nat, r: nat): nat
    requires r < size && |bytes| >= NeededBytes(size)
  {
    Pack(RowBits(bytes, size, r))
  }

  /** Where the bit-unpacking loop finds stream bit k: byte i, bit j. */
  lemma {:induction false} StreamBitOfByte(bytes: seq<uint8>, total: nat, i: nat, start: nat, j: nat)
    requires |bytes| >= (total + 7) / 8
    requires 8 * i < total && start == (if total - 8 * i < 8 then total - 8 * i else 8) && j < start
    ensures i < |bytes| && 8 * i + (start - 1 - j) < total
    ensures StreamBit(bytes, total, 8 * i + (start - 1 - j)) == BitAt(bytes[i], j)
    decreases i
  {
    if i > 0 {
      StreamBitOfByte(bytes[1..], total - 8, i - 1, start, j);
    }
  }

  /** What the accumulation loop has added into row q after p of its bits: the weights of those bits. */
  function Partial(bytes: seq<uint8>, size: nat, q: nat, p: nat): nat
    requires q < size && p <= size && |bytes| >= NeededBytes(size)
  {
    if p == 0 then 0
    else
      RowCellInStream(size, q, p - 1);
      Partial(bytes, size, q, p - 1) + ShiftBit(StreamBit(bytes, CellCount(size), RowStart(q, size) + p - 1), size - p)
  }

  /** The weights of the first p bits sum to the prefix's mask shifted into place. */
  lemma {:induction false} PartialIsPack(bytes: seq<uint8>, size: nat, q: nat, p: nat)
    requires q < size && p <= size && |bytes| >= NeededBytes(size)
    ensures Partial(bytes, size, q, p) == Pack(RowBits(bytes, size, q)[..p]) * Pow2(size - p)
  {
    var bs := RowBits(bytes, size, q);
    if p == 0 {
      assert bs[..0] == [];
    } else {
      PartialIsPack(bytes, size, q, p - 1);
      RowCellInStream(size, q, p - 1);
      assert bs[p - 1] == StreamBit(bytes, CellCount(size), RowStart(q, size) + p - 1);
      PackStep(bs, p - 1, size);
      ShiftBitIsProduct(bs[p - 1], size - p);
    }
  }

  lemma PartialEnds(bytes: seq<uint8>, size: nat, q: nat)
    requires q < size && |bytes| >= NeededBytes(size)
    ensures Partial(bytes, size, q, 0) == 0
    ensures Partial(bytes, size, q, size) == Row(bytes, size, q)
  {
    PartialIsPack(bytes, size, q, size);
    assert RowBits(bytes, size, q)[..size] == RowBits(bytes, size, q);
  }

  /** The first phase of `byteTranslator`: the stream's size*size bits, one per element. */
  method UnpackStream(codedBytes: array<uint8>, size: nat) returns (bits: array<bit>)
    requires size <= 8 && codedBytes.Length >= NeededBytes(size)
    ensures fresh(bits) && bits.Length == size * size
    ensures forall k :: 0 <= k < size * size ==> bits[k] == StreamBit(codedBytes[..], size * size, k)
  {
    var bitsCount := size * size;
    var bitsLength := 0;
    bits := new bit[bitsCount];
    NeededBytesAtMostSize(size);
    var i := 0;
    while i < size
      modifies bits
      invariant 0 <= i <= size
      invariant bitsLength == if 8 * i < bitsCount then 8 * i else bitsCount
      invariant forall k :: 0 <= k < bitsLength ==> bits[k] == StreamBit(codedBytes[..], bitsCount, k)
    {
      var start := 8;
      if bitsCount - bitsLength < 8 {
        start := bitsCount - bitsLength;
      }
      var j := start - 1;
      while j >= 0
        modifies bits
        invariant -1 <= j < start
        invariant bitsLength == (if 8 * i < bitsCount then 8 * i else bitsCount) + (start - 1 - j)
        invariant forall k :: 0 <= k < bitsLength ==> bits[k] == StreamBit(codedBytes[..], bitsCount, k)
      {
        StreamBitOfByte(codedBytes[..], bitsCount, i, start, j);
        bits[bitsLength] := BitAt(codedBytes[i], j);
        bitsLength := bitsLength + 1;
        j := j - 1;
      }
      i := i + 1;
    }
  }

  /** The row of stream position i, counted by subtracting whole rows. */
  function RowOf(i: nat, size: nat): nat
    requires 0 < size
    decreases i
  {
    if i < size then 0 else 1 + RowOf(i - size, size)
  }

  /** The column of stream position i within its row. */
  function ColumnOf(i: nat, size: nat): (c: nat)
    requires 0 < size
    ensures c < size
    decreases i
  {
    if i < size then i else ColumnOf(i - size, size)
  }

  /** Position p of row q is column p of row q. */
  lemma {:induction false} RowColumnOf(q: nat, p: nat, size: nat)
    requires p < size
    ensures RowOf(RowStart(q, size) + p, size) == q && ColumnOf(RowStart(q, size) + p, size) == p
    decreases q
  {
    if q > 0 {
      RowColumnOf(q - 1, p, size);
    }
  }

  /** Position k is column ColumnOf(k) of row RowOf(k). */
  lemma {:induction false} RowColumnSplit(k: nat, size: nat)
    requires 0 < size
    ensures k == RowStart(RowOf(k, size), size) + ColumnOf(k, size)
    decreases k
  {
    if k >= size {
      RowColumnSplit(k - size, size);
    }
  }

  /** The row and column are the quotient and remainder `i / size` and `i % size` the source computes. */
  lemma RowColumnIsDivMod(i: nat, size: nat)
    requires 0 < size
    ensures RowOf(i, size) == i / size && ColumnOf(i, size) == i % size
  {
    RowColumnSplit(i, size);
    RowStartIsProduct(RowOf(i, size), size);
    DivModOf(RowOf(i, size), ColumnOf(i, size), size);
  }

  /** A position before row n's start lies in one of the rows before n. */
  lemma {:induction false} RowOfBefore(i: nat, n: nat, size: nat)
    requires i < RowStart(n, size)
    ensures 0 < size && RowOf(i, size) < n
    decreases n
  {
    if n > 0 && (size == 0 || i >= size) {
      RowOfBefore(i - size, n - 1, size);
    }
  }

  lemma RowOfBelow(i: nat, size: nat)
    requires i < CellCount(size)
    ensures 0 < size && RowOf(i, size) < size
  {
    RowOfBefore(i, size, size);
  }

  /** One iteration of the accumulation loop: stream bit i shifted left by size-1-i%size, added into entry i/size. */
  ghost function AddBit(acc: seq<int>, bits: seq<bit>, size: nat, i: nat): (next: seq<int>)
    requires size <= |acc| && i < |bits| && i < CellCount(size)
    ensures |next| == |acc|
  {
    RowOfBelow(i, size);
    acc[RowOf(i, size) := acc[RowOf(i, size)] + ShiftBit(bits[i], size - 1 - ColumnOf(i, size))]
  }

  /** The accumulation loop of `byteTranslator` after its first k iterations. */
  ghost function Accumulate(init: seq<int>, bits: seq<bit>, size: nat, k: nat): (acc: seq<int>)
    requires size <= |init| && k <= |bits| && k <= CellCount(size)
    ensures |acc| == |init|
    decreases k
  {
    if k == 0 then init else AddBit(Accumulate(init, bits, size, k - 1), bits, size, k - 1)
  }

  /** The next position is the next column, or the first column of the next row after the last. */
  lemma {:induction false} RowColumnSucc(k: nat, size: nat)
    requires 0 < size
    ensures ColumnOf(k, size) + 1 < size ==>
      RowOf(k + 1, size) == RowOf(k, size) && ColumnOf(k + 1, size) == ColumnOf(k, size) + 1
    ensures ColumnOf(k, size) + 1 == size ==>
      RowOf(k + 1, size) == RowOf(k, size) + 1 && ColumnOf(k + 1, size) == 0
    decreases k
  {
    if k >= size {
      RowColumnSucc(k - size, size);
    } else if k + 1 == size {
      assert RowOf(k + 1, size) == 1 + RowOf(0, size);
    }
  }

  /** Entry r once the bits before row q, column p are accumulated: rows before q complete, row q holding p bits. */
  ghost function Expected(init: seq<int>, bytes: seq<uint8>, size: nat, q: nat, p: nat, r: nat): int
    requires size <= |init| && p <= size && r < |init| && |bytes| >= NeededBytes(size)
  {
    if r < q && r < size then init[r] + Partial(bytes, size, r, size)
    else if r == q && q < size then init[r] + Partial(bytes, size, q, p)
    else init[r]
  }

  /** Where stream bit k lands: entry RowOf(k), shifted by size-1-ColumnOf(k), adding the next bit of that row. */
  lemma StepLands(bits: seq<bit>, bytes: seq<uint8>, size: nat, k: nat, q: nat, p: nat)
    requires |bits| == CellCount(size) && |bytes| >= NeededBytes(size) && k < CellCount(size)
    requires bits[k] == StreamBit(bytes, CellCount(size), k)
    requires 0 < size && q == RowOf(k, size) && p == ColumnOf(k, size)
    ensures q < size && p < size
    ensures Partial(bytes, size, q, p + 1) == Partial(bytes, size, q, p) + ShiftBit(bits[k], size - 1 - p)
  {
    RowOfBelow(k, size);
    RowColumnSplit(k, size);
    assert k == RowStart(q, size) + p;
  }

  /**
   * One entry across one step: entry q gains weight w, which takes row q
   * from p bits to p+1; the position moves to the next column, or to the
   * start of the next row once row q is complete.
   */
  lemma EntryStep(init: seq<int>, bytes: seq<uint8>, size: nat, acc: seq<int>, next: seq<int>,
                  q: nat, p: nat, q1: nat, p1: nat, r: nat, w: int)
    requires size <= |init| && |acc| == |init| && |next| == |init| && r < |init|
    requires q < size && p < size && |bytes| >= NeededBytes(size)
    requires acc[r] == Expected(init, bytes, size, q, p, r)
    requires next[r] == if r == q then acc[r] + w else acc[r]
    requires Partial(bytes, size, q, p + 1) == Partial(bytes, size, q, p) + w
    requires (q1 == q && p1 == p + 1) || (q1 == q + 1 && p1 == 0 && p + 1 == size)
    ensures p1 <= size && next[r] == Expected(init, bytes, size, q1, p1, r)
  {
  }

  /** A step of the accumulation loop keeps every entry as expected. */
  lemma Step(init: seq<int>, bits: seq<bit>, bytes: seq<uint8>, size: nat, k: nat,
             acc: seq<int>, next: seq<int>, k1: nat)
    requires size <= |init| && |bits| == CellCount(size) && |bytes| >= NeededBytes(size) && k < CellCount(size)
    requires bits[k] == StreamBit(bytes, CellCount(size), k) && 0 < size
    requires |acc| == |init|
    requires forall r {:trigger Expected(init, bytes, size, RowOf(k, size), ColumnOf(k, size), r)} ::
      0 <= r < |init| ==> acc[r] == Expected(init, bytes, size, RowOf(k, size), ColumnOf(k, size), r)
    requires next == AddBit(acc, bits, size, k) && k1 == k + 1
    ensures forall r {:trigger Expected(init, bytes, size, RowOf(k1, size), ColumnOf(k1, size), r)} ::
      0 <= r < |init| ==> next[r] == Expected(init, bytes, size, RowOf(k1, size), ColumnOf(k1, size), r)
  {
    var q, p := RowOf(k, size), ColumnOf(k, size);
    StepLands(bits, bytes, size, k, q, p);
    RowColumnSucc(k, size);
    var q1, p1 := RowOf(k1, size), ColumnOf(k1, size);
    var w := ShiftBit(bits[k], size - 1 - p);
    assert Partial(bytes, size, q, p + 1) == Partial(bytes, size, q, p) + w;
    assert (q1 == q && p1 == p + 1) || (q1 == q + 1 && p1 == 0 && p + 1 == size);
    forall r | 0 <= r < |init|
      ensures next[r] == Expected(init, bytes, size, q1, p1, r)
    {
      EntryStep(init, bytes, size, acc, next, q, p, q1, p1, r, w);
    }
  }

  /** After k bits every entry is as expected. */
  lemma {:induction false} AccumulateInvariant(init: seq<int>, bits: seq<bit>, bytes: seq<uint8>, size: nat, k: nat)
    requires size <= |init| && |bits| == CellCount(size) && |bytes| >= NeededBytes(size)
    requires forall i :: 0 <= i < CellCount(size) ==> bits[i] == StreamBit(bytes, CellCount(size), i)
    requires 0 < size && k <= CellCount(size)
    ensures forall r {:trigger Expected(init, bytes, size, RowOf(k, size), ColumnOf(k, size), r)} ::
      0 <= r < |init| ==>
        Accumulate(init, bits, size, k)[r] == Expected(init, bytes, size, RowOf(k, size), ColumnOf(k, size), r)
    decreases k
  {
    if k == 0 {
    } else {
      var acc, next := Accumulate(init, bits, size, k - 1), Accumulate(init, bits, size, k);
      AccumulateInvariant(init, bits, bytes, size, k - 1);
      assert next == AddBit(acc, bits, size, k - 1);
      assert bits[k - 1] == StreamBit(bytes, CellCount(size), k - 1);
      Step(init, bits, bytes, size, k - 1, acc, next, k);
    }
  }

  /** Once every row is complete, the first `size` entries hold their rows' masks added in. */
  lemma RowsComplete(init: seq<int>, bytes: seq<uint8>, size: nat, acc: seq<int>, q: nat, p: nat)
    requires size <= |init| && |bytes| >= NeededBytes(size) && |acc| == |init|
    requires q == size && p == 0
    requires forall r {:trigger Expected(init, bytes, size, q, p, r)} ::
      0 <= r < |init| ==> acc[r] == Expected(init, bytes, size, q, p, r)
    ensures forall r :: 0 <= r < |init| ==> acc[r] == if r < size then init[r] + Row(bytes, size, r) else init[r]
  {
    forall r | 0 <= r < |init|
      ensures acc[r] == if r < size then init[r] + Row(bytes, size, r) else init[r]
    {
      assert acc[r] == Expected(init, bytes, size, size, 0, r);
      if r < size {
        PartialEnds(bytes, size, r);
      }
    }
  }

  /** The loop's total effect: each of the first `size` entries gains its row's mask, the rest are unchanged. */
  lemma AccumulateRows(init: seq<int>, bits: seq<bit>, bytes: seq<uint8>, size: nat)
    requires size <= |init| && |bits| == CellCount(size) && |bytes| >= NeededBytes(size)
    requires forall i :: 0 <= i < CellCount(size) ==> bits[i] == StreamBit(bytes, CellCount(size), i)
    ensures forall r :: 0 <= r < |init| ==>
      Accumulate(init, bits, size, CellCount(size))[r] == if r < size then init[r] + Row(bytes, size, r) else init[r]
  {
    var n := CellCount(size);
    if 0 < size {
      var q, p := RowOf(n, size), ColumnOf(n, size);
      RowColumnOf(size, 0, size);
      assert n == RowStart(size, size) + 0;
      assert q == size && p == 0;
      AccumulateInvariant(init, bits, bytes, size, n);
      RowsComplete(init, bytes, size, Accumulate(init, bits, size, n), q, p);
    }
  }

  /** The body of the accumulation loop: `translatedBytes[k / size] += bits[k] << ((size - 1) - (k % size))`. */
  method AccumulateBit(translatedBytes: array<int>, bits: array<bit>, size: nat, k: nat)
    requires k < bits.Length && k < CellCount(size) && size <= translatedBytes.Length
    modifies translatedBytes
    ensures translatedBytes[..] == AddBit(old(translatedBytes[..]), bits[..], size, k)
  {
    RowOfBelow(k, size);
    RowColumnIsDivMod(k, size);
    translatedBytes[k / size] := translatedBytes[k / size] + ShiftBit(bits[k], (size - 1) - (k % size));
  }

  method ByteTranslator(codedBytes: array<uint8>, size: nat, translatedBytes: array<int>)
    requires size <= 8
    requires codedBytes.Length >= NeededBytes(size) && translatedBytes.Length >= size
    modifies translatedBytes
    ensures forall r :: 0 <= r < size ==>
      translatedBytes[r] == old(translatedBytes[r]) + Row(codedBytes[..], size, r)
    ensures forall r :: size <= r < translatedBytes.Length ==> translatedBytes[r] == old(translatedBytes[r])
  {
    var bitsCount := size * size;
    var bits := UnpackStream(codedBytes, size);
    NeededBytesAtMostSize(size);
    ghost var init := translatedBytes[..];
    var k := 0;
    while k < bitsCount
      modifies translatedBytes
      invariant 0 <= k <= bitsCount
      invariant translatedBytes[..] == Accumulate(init, bits[..], size, k)
    {
      AccumulateBit(translatedBytes, bits, size, k);
      k := k + 1;
    }
    AccumulateRows(init, bits[..], codedBytes[..], size);
  }

  /** Bit size-1-c of row r's mask is stream bit r*size+c: the first bit of a row is its most significant. */
  lemma RowBitIsStreamBit(bytes: seq<uint8>, size: nat, r: nat, c: nat)
    requires r < size && c < size && |bytes| >= NeededBytes(size)
    ensures CellCount(size) == size * size && r * size + c < size * size
    ensures BitAt(Row(bytes, size, r), size - 1 - c) == StreamBit(bytes, size * size, r * size + c)
  {
    RowCellInStream(size, r, c);
    RowStartIsProduct(r, size);
    RowStartIsProduct(size, size);
    PackBit(RowBits(bytes, size, r), size - 1 - c);
  }

  /** Every row mask has at most `size` bits. */
  lemma RowBound(bytes: seq<uint8>, size: nat, r: nat)
    requires r < size && |bytes| >= NeededBytes(size)
    ensures Row(bytes, size, r) < Pow2(size)
  {
    PackBound(RowBits(bytes, size, r));
  }

  /** A stream bit depends on the first (total+7)/8 bytes only. */
  lemma {:induction false} StreamReadsPrefix(b1: seq<uint8>, b2: seq<uint8>, total: nat, k: nat)
    requires k < total && |b1| >= (total + 7) / 8 && |b2| >= (total + 7) / 8
    requires b1[..(total + 7) / 8] == b2[..(total + 7) / 8]
    ensures StreamBit(b1, total, k) == StreamBit(b2, total, k)
    decreases k
  {
    var n := (total + 7) / 8;
    if k >= 8 {
      assert b1[1..][..n - 1] == b1[..n][1..];
      assert b2[1..][..n - 1] == b2[..n][1..];
      StreamReadsPrefix(b1[1..], b2[1..], total - 8, k - 8);
    } else {
      assert b1[0] == b1[..n][0] && b2[0] == b2[..n][0];
    }
  }

  /** The rows depend on the first NeededBytes(size) bytes only. */
  lemma RowsReadNeededBytes(b1: seq<uint8>, b2: seq<uint8>, size: nat, r: nat)
    requires r < size && |b1| >= NeededBytes(size) && |b2| >= NeededBytes(size)
    requires b1[..NeededBytes(size)] == b2[..NeededBytes(size)]
    ensures Row(b1, size, r) == Row(b2, size, r)
  {
    forall c | 0 <= c < size
      ensures RowBits(b1, size, r)[c] == RowBits(b2, size, r)[c]
    {
      RowCellInStream(size, r, c);
      StreamReadsPrefix(b1, b2, CellCount(size), RowStart(r, size) + c);
    }
    assert RowBits(b1, size, r) == RowBits(b2, size, r);
  }

  /** The dictionary tables' packing of a bit stream: eight bits per byte, the remainder in the low bits of the last. */
  function EncodeStream(bits: seq<bit>): (bytes: seq<uint8>)
    ensures |bytes| == (|bits| + 7) / 8
    decreases |bits|
  {
    if |bits| == 0 then []
    else if |bits| <= 8 then
      PackByte(bits);
      [Pack(bits)]
    else
      PackByte(bits[..8]);
      [Pack(bits[..8])] + EncodeStream(bits[8..])
  }

  lemma {:induction false} EncodeStreamBit(bits: seq<bit>, k: nat)
    requires k < |bits|
    ensures StreamBit(EncodeStream(bits), |bits|, k) == bits[k]
    decreases |bits|
  {
    var bytes := EncodeStream(bits);
    if |bits| <= 8 {
      if |bits| == 8 {
        PackBit(bits, 7 - k);
      } else {
        PackBit(bits, |bits| - 1 - k);
      }
    } else if k < 8 {
      PackBit(bits[..8], 7 - k);
    } else {
      assert bytes[1..] == EncodeStream(bits[8..]);
      EncodeStreamBit(bits[8..], k - 8);
    }
  }

  /** The packed stream of `size` row masks of `size` bits each, as the dictionary tables store a marker. */
  function EncodeMarker(rows: seq<nat>, size: nat): seq<uint8>
  {
    EncodeStream(Flatten(seq(|rows|, r requires 0 <= r < |rows| => BitsOf(rows[r], size))))
  }

  /** Translating the packed form of any size x size marker gives its rows back. */
  lemma TranslateEncoded(rows: seq<nat>, size: nat, r: nat)
    requires |rows| == size && forall i :: 0 <= i < size ==> rows[i] < Pow2(size)
    requires r < size
    ensures |EncodeMarker(rows, size)| == NeededBytes(size)
    ensures Row(EncodeMarker(rows, size), size, r) == rows[r]
  {
    var rb := seq(|rows|, i requires 0 <= i < |rows| => BitsOf(rows[i], size));
    var stream := Flatten(rb);
    FlattenLength(rb, size);
    RowStartIsProduct(size, size);
    RowStartIsProduct(r, size);
    var bytes := EncodeMarker(rows, size);
    forall c | 0 <= c < size
      ensures RowBits(bytes, size, r)[c] == BitsOf(rows[r], size)[c]
    {
      FlattenAt(rb, size, r, c);
      EncodeStreamBit(stream, r * size + c);
    }
    assert RowBits(bytes, size, r) == BitsOf(rows[r], size);
    PackBitsOf(rows[r], size);
  }

  /**
   * The first stored rotation of every marker of the four dictionaries
   * `main` can select; each entry is a packed stream.
   */
  datatype Dictionaries = Dictionaries(
    original: seq<seq<uint8>>,
    dict4x4: seq<seq<uint8>>,
    dict5x5: seq<seq<uint8>>,
    dict6x6: seq<seq<uint8>>)

  /** The side of the markers of a dictionary type; None for the types `main` returns on. */
  function SizeOfType(dictType: int): (size: Option<nat>)
    ensures size.Some? ==> 4 <= size.value <= MAX_CODE_SIZE
  {
    match dictType
    case 0 => Some(5)
    case 4 => Some(4)
    case 5 => Some(5)
    case 6 => Some(6)
    case _ => None
  }

  function TableOf(dicts: Dictionaries, dictType: int): seq<seq<uint8>>
    requires SizeOfType(dictType).Some?
  {
    match dictType
    case 0 => dicts.original
    case 4 => dicts.dict4x4
    case 5 => dicts.dict5x5
    case 6 => dicts.dict6x6
  }

  /** The lookup `main` performs exists: the id is inside the table and its entry holds the marker's bits. */
  predicate HasEntry(dicts: Dictionaries, id: nat, dictType: int)
  {
    SizeOfType(dictType).Some? ==>
      id < |TableOf(dicts, dictType)| && |TableOf(dicts, dictType)[id]| >= NeededBytes(SizeOfType(dictType).value)
  }

  /** Each row printed as `cout << row << " "`. */
  function RowsText(rows: seq<nat>): string
  {
    if |rows| == 0 then "" else RowsText(rows[..|rows| - 1]) + NatToString(rows[|rows| - 1]) + " "
  }

  /** The line `main` prints: `code <size> <row> ... <row> ` and `endl`. */
  function CodeLine(size: nat, rows: seq<nat>): string
  {
    "code " + NatToString(size) + " " + RowsText(rows) + "\n"
  }

  /** The rows of a packed marker, in order. */
  function Rows(bytes: seq<uint8>, size: nat): (rows: seq<nat>)
    requires |bytes| >= NeededBytes(size)
    ensures |rows| == size
  {
    seq(size, r requires 0 <= r < size => Row(bytes, size, r))
  }

  /** What `main` writes to standard output for a marker id and a dictionary type. */
  function Translation(dicts: Dictionaries, id: nat, dictType: int): string
    requires HasEntry(dicts, id, dictType)
  {
    match SizeOfType(dictType)
    case None => ""
    case Some(size) => CodeLine(size, Rows(TableOf(dicts, dictType)[id], size))
  }

  /** The printing loop of `main`: each of the first `size` entries, then the line end. */
  method PrintCode(size: nat, translatedCode: array<int>, ghost rows: seq<nat>) returns (out: string)
    requires size <= translatedCode.Length && |rows| == size
    requires forall r :: 0 <= r < size ==> translatedCode[r] == rows[r]
    ensures out == CodeLine(size, rows)
  {
    out := "code " + NatToString(size) + " ";
    var i := 0;
    while i < size
      invariant 0 <= i <= size
      invariant out == "code " + NatToString(size) + " " + RowsText(rows[..i])
    {
      assert rows[..i + 1][..i] == rows[..i];
      out := out + NatToString(translatedCode[i]) + " ";
      i := i + 1;
    }
    assert rows[..size] == rows;
    out := out + "\n";
  }

  /** The tail of `main`: translate the selected entry into a zeroed `translatedCode` and print it. */
  method EmitCode(entry: seq<uint8>, size: nat) returns (out: string)
    requires size <= MAX_CODE_SIZE && |entry| >= NeededBytes(size)
    ensures out == CodeLine(size, Rows(entry, size))
  {
    var codeFromDict := new uint8[|entry|](i requires 0 <= i < |entry| => entry[i]);
    var translatedCode := new int[MAX_CODE_SIZE](_ => 0);
    ByteTranslator(codeFromDict, size, translatedCode);
    assert codeFromDict[..] == entry;
    out := PrintCode(size, translatedCode, Rows(entry, size));
  }

  method TranslatorMain(id: nat, dictType: int, dicts: Dictionaries) returns (out: string)
    requires HasEntry(dicts, id, dictType)
    ensures out == Translation(dicts, id, dictType)
  {
    var size := 0;
    var codeFromDict: seq<uint8>;
    match dictType {
      case 0 => codeFromDict := dicts.original[id]; size := 5;
      case 4 => codeFromDict := dicts.dict4x4[id]; size := 4;
      case 5 => codeFromDict := dicts.dict5x5[id]; size := 5;
      case 6 => codeFromDict := dicts.dict6x6[id]; size := 6;
      case _ => return "";
    }
    out := EmitCode(codeFromDict, size);
  }

  /** `main` prints a line exactly for the types 0, 4, 5 and 6. */
  lemma TranslationPrintsIffHandled(dicts: Dictionaries, id: nat, dictType: int)
    requires HasEntry(dicts, id, dictType)
    ensures Translation(dicts, id, dictType) != "" <==> dictType in {0, 4, 5, 6}
  {
    if SizeOfType(dictType).Some? {
      var line := Translation(dicts, id, dictType);
      assert line[0] == 'c';
    }
  }

  /** The packed form of any size x size row masks translates back to exactly those masks. */
  lemma EncodedRows(rows: seq<nat>, size: nat)
    requires |rows| == size && forall i :: 0 <= i < size ==> rows[i] < Pow2(size)
    ensures |EncodeMarker(rows, size)| >= NeededBytes(size)
    ensures Rows(EncodeMarker(rows, size), size) == rows
  {
    var entry := EncodeMarker(rows, size);
    if size > 0 {
      TranslateEncoded(rows, size, 0);
    } else {
      assert |Flatten([])| == 0;
    }
    forall r | 0 <= r < size
      ensures Rows(entry, size)[r] == rows[r]
    {
      TranslateEncoded(rows, size, r);
    }
  }

  /** The printed rows are the rows of the marker: any row masks that are packed into an entry come back out. */
  lemma TranslationOfEncoded(dicts: Dictionaries, id: nat, dictType: int, rows: seq<nat>)
    requires SizeOfType(dictType).Some? && |rows| == SizeOfType(dictType).value
    requires forall i :: 0 <= i < |rows| ==> rows[i] < Pow2(|rows|)
    requires id < |TableOf(dicts, dictType)| && TableOf(dicts, dictType)[id] == EncodeMarker(rows, |rows|)
    ensures HasEntry(dicts, id, dictType)
    ensures Translation(dicts, id, dictType) == CodeLine(|rows|, rows)
  {
    EncodedRows(rows, |rows|);
  }
}
