/** vp9_temporal_filter_apply_c: each 16x16 macroblock keeps, per pixel,
    a running weighted sum of the pixels of the blended frames
    (`accumulator`, unsigned 32-bit) and the sum of the weights (`count`,
    unsigned 16-bit). Motion search and the inter predictors are outside
    this model: the predicted block is an input. */
module Vp9Accumulate {
  import opened Vp9Weight

  /** Which of the two arrays a cell belongs to. */
  datatype Plane = Counts | Sums

  /** What one pixel does to its cell: the weight is added to a count,
      which wraps at 16 bits, and the weighted pixel to a sum, which wraps
      at 32 bits. */
  function Cell(kind: Plane, prior: int, w: int, pixel: int): (r: int)
    ensures kind == Counts ==> 0 <= r < TWO_16 && (0 <= prior && 0 <= w && prior + w < TWO_16 ==> r == prior + w)
    ensures kind == Sums ==> 0 <= r < TWO_32
  {
    match kind
    case Counts => (prior + w) % TWO_16
    case Sums => (prior + w * pixel) % TWO_32
  }

  /** The update of one cell of the given kind, from its old value, the
      source pixel and the predicted pixel. */
  function Update(kind: Plane, strength: nat, fw: nat): (r: (int, int, int) -> int)
    ensures forall prior, srcPixel, pixel ::
      0 <= r(prior, srcPixel, pixel) < (if kind == Counts then TWO_16 else TWO_32)
  {
    (prior, srcPixel, pixel) => Cell(kind, prior, Weight(srcPixel, pixel, strength, fw), pixel)
  }

  /** The first n pixels of one row, in order, applied by `f` to the cells
      from `at`: the source row starts at `i1` of frame1, the predicted row
      at `i2` of frame2. */
  function RowUpdate(s: seq<int>, at: nat, frame1: seq<int>, i1: nat, frame2: seq<int>, i2: nat, n: nat,
                     f: (int, int, int) -> int): (r: seq<int>)
    requires at + n <= |s| && i1 + n <= |frame1| && i2 + n <= |frame2|
  {
    seq(|s|, p requires 0 <= p < |s| =>
      if at <= p < at + n then f(s[p], frame1[i1 + p - at], frame2[i2 + p - at]) else s[p])
  }

  /** A block of `rows` rows fits: the cells of row i start at
      at + i * bw, the source row at i1 + i * stride, the predicted row at
      i2 + i * bw. */
  predicate BlockFits(cells: nat, at: nat, frame1: nat, i1: nat, stride: nat, frame2: nat, i2: nat, bw: nat, rows: nat)
  {
    rows == 0 || (at + Mul(rows, bw) <= cells && i2 + Mul(rows, bw) <= frame2 && i1 + Mul(rows - 1, stride) + bw <= frame1)
  }

  /** A block that fits has room for its first row, and the rows after it
      fit as a block of their own. */
  lemma BlockFitsRest(cells: nat, at: nat, frame1: nat, i1: nat, stride: nat, frame2: nat, i2: nat, bw: nat, rows: nat)
    requires BlockFits(cells, at, frame1, i1, stride, frame2, i2, bw, rows) && rows > 0
    ensures at + bw <= cells && i1 + bw <= frame1 && i2 + bw <= frame2
    ensures BlockFits(cells, at + bw, frame1, i1 + stride, stride, frame2, i2 + bw, bw, rows - 1)
  {
    MulGrows(0, rows - 1, stride);
    MulGrows(1, rows, bw);
  }

  /** The cells after the rows of the block went through `f`, the first
      row first. */
  function BlockUpdate(s: seq<int>, at: nat, frame1: seq<int>, i1: nat, stride: nat, frame2: seq<int>, i2: nat,
                       bw: nat, rows: nat, f: (int, int, int) -> int): (r: seq<int>)
    requires BlockFits(|s|, at, |frame1|, i1, stride, |frame2|, i2, bw, rows)
    ensures |r| == |s|
    decreases rows
  {
    if rows == 0 then s
    else
      BlockFitsRest(|s|, at, |frame1|, i1, stride, |frame2|, i2, bw, rows);
      BlockUpdate(RowUpdate(s, at, frame1, i1, frame2, i2, bw, f),
                  at + bw, frame1, i1 + stride, stride, frame2, i2 + bw, bw, rows - 1, f)
  }

  /** A block is its first row followed by the rest: the rest starts one
      row further on in the cells, the source and the prediction. */
  lemma BlockUpdateNextRow(s: seq<int>, at: nat, frame1: seq<int>, i1: nat, stride: nat, frame2: seq<int>, i2: nat,
                           bw: nat, rows: nat, nextAt: nat, nextI1: nat, nextI2: nat, rest: nat,
                           f: (int, int, int) -> int)
    requires BlockFits(|s|, at, |frame1|, i1, stride, |frame2|, i2, bw, rows) && rows > 0
    requires nextAt == at + bw && nextI1 == i1 + stride && nextI2 == i2 + bw && rest == rows - 1
    ensures at + bw <= |s| && i1 + bw <= |frame1| && i2 + bw <= |frame2|
    ensures BlockFits(|s|, nextAt, |frame1|, nextI1, stride, |frame2|, nextI2, bw, rest)
    ensures BlockUpdate(s, at, frame1, i1, stride, frame2, i2, bw, rows, f)
            == BlockUpdate(RowUpdate(s, at, frame1, i1, frame2, i2, bw, f), nextAt, frame1, nextI1, stride,
                           frame2, nextI2, bw, rest, f)
  {
    BlockFitsRest(|s|, at, |frame1|, i1, stride, |frame2|, i2, bw, rows);
  }

  /** Cells outside the block keep their values. */
  lemma {:induction false} BlockUpdateKeeps(s: seq<int>, at: nat, frame1: seq<int>, i1: nat, stride: nat,
                                            frame2: seq<int>, i2: nat, bw: nat, rows: nat, f: (int, int, int) -> int,
                                            p: nat)
    requires BlockFits(|s|, at, |frame1|, i1, stride, |frame2|, i2, bw, rows)
    requires p < |s| && !(at <= p < at + Mul(rows, bw))
    ensures BlockUpdate(s, at, frame1, i1, stride, frame2, i2, bw, rows, f)[p] == s[p]
    decreases rows
  {
    if rows > 0 {
      BlockFitsRest(|s|, at, |frame1|, i1, stride, |frame2|, i2, bw, rows);
      var s1 := RowUpdate(s, at, frame1, i1, frame2, i2, bw, f);
      BlockUpdateKeeps(s1, at + bw, frame1, i1 + stride, stride, frame2, i2 + bw, bw, rows - 1, f, p);
    }
  }

  /** Cell i * bw + j of the block is updated once, from the source pixel
      at i * stride + j and the predicted pixel at i * bw + j. */
  lemma {:induction false} BlockUpdateAt(s: seq<int>, at: nat, frame1: seq<int>, i1: nat, stride: nat,
                                         frame2: seq<int>, i2: nat, bw: nat, rows: nat, f: (int, int, int) -> int,
                                         i: nat, j: nat)
    requires BlockFits(|s|, at, |frame1|, i1, stride, |frame2|, i2, bw, rows) && i < rows && j < bw
    ensures at + Mul(i, bw) + j < |s| && i1 + Mul(i, stride) + j < |frame1| && i2 + Mul(i, bw) + j < |frame2|
    ensures BlockUpdate(s, at, frame1, i1, stride, frame2, i2, bw, rows, f)[at + Mul(i, bw) + j]
            == f(s[at + Mul(i, bw) + j], frame1[i1 + Mul(i, stride) + j], frame2[i2 + Mul(i, bw) + j])
    decreases rows
  {
    BlockFitsRest(|s|, at, |frame1|, i1, stride, |frame2|, i2, bw, rows);
    var s1 := RowUpdate(s, at, frame1, i1, frame2, i2, bw, f);
    if i == 0 {
      BlockUpdateKeeps(s1, at + bw, frame1, i1 + stride, stride, frame2, i2 + bw, bw, rows - 1, f, at + j);
    } else {
      BlockUpdateAt(s1, at + bw, frame1, i1 + stride, stride, frame2, i2 + bw, bw, rows - 1, f, i - 1, j);
    }
  }

  /** vp9_temporal_filter_apply_c over a block of bw x bh pixels whose
      cells start at `base` (the Y, U and V blocks use 0, 256 and 512).
      `frame1` is the source block, read with its stride, and `frame2`
      the predicted block, read contiguously. */
  method Apply(frame1: seq<int>, stride: nat, frame2: seq<int>, bw: nat, bh: nat, strength: nat, fw: nat,
               base: nat, accumulator: array<U32>, count: array<U16>)
    requires BlockFits(accumulator.Length, base, |frame1|, 0, stride, |frame2|, 0, bw, bh)
    requires count.Length == accumulator.Length
    modifies accumulator, count
    ensures count[..] == BlockUpdate(old(count[..]), base, frame1, 0, stride, frame2, 0, bw, bh, Update(Counts, strength, fw))
    ensures accumulator[..]
            == BlockUpdate(old(accumulator[..]), base, frame1, 0, stride, frame2, 0, bw, bh, Update(Sums, strength, fw))
  {
    ghost var counts := BlockUpdate(count[..], base, frame1, 0, stride, frame2, 0, bw, bh, Update(Counts, strength, fw));
    ghost var sums := BlockUpdate(accumulator[..], base, frame1, 0, stride, frame2, 0, bw, bh, Update(Sums, strength, fw));
    var rounding := if strength > 0 then Pow2(strength - 1) else 0;
    var byte: nat := 0;
    var i, k: nat := 0, 0;
    while i < bh
      invariant 0 <= i <= bh
      invariant BlockFits(accumulator.Length, base + k, |frame1|, byte, stride, |frame2|, k, bw, bh - i)
      invariant BlockUpdate(count[..], base + k, frame1, byte, stride, frame2, k, bw, bh - i, Update(Counts, strength, fw))
                == counts
      invariant BlockUpdate(accumulator[..], base + k, frame1, byte, stride, frame2, k, bw, bh - i, Update(Sums, strength, fw))
                == sums
    {
      ghost var counts0, sums0, i0, k0, byte0 := count[..], accumulator[..], i, k, byte;
      BlockFitsRest(accumulator.Length, base + k, |frame1|, byte, stride, |frame2|, k, bw, bh - i);
      ApplyRow(frame1, byte, frame2, k, bw, strength, fw, rounding, base + k, accumulator, count);
      byte := byte + bw;
      k := k + bw;
      byte := byte + stride - bw;
      i := i + 1;
      BlockUpdateNextRow(counts0, base + k0, frame1, byte0, stride, frame2, k0, bw, bh - i0,
                         base + k, byte, k, bh - i, Update(Counts, strength, fw));
      BlockUpdateNextRow(sums0, base + k0, frame1, byte0, stride, frame2, k0, bw, bh - i0,
                         base + k, byte, k, bh - i, Update(Sums, strength, fw));
    }
  }

  /** The inner loop of vp9_temporal_filter_apply_c: one row. */
  method ApplyRow(frame1: seq<int>, i1: nat, frame2: seq<int>, i2: nat, bw: nat, strength: nat, fw: nat,
                  rounding: nat, at: nat, accumulator: array<U32>, count: array<U16>)
    requires rounding == Rounding(strength)
    requires i1 + bw <= |frame1| && i2 + bw <= |frame2| && at + bw <= accumulator.Length == count.Length
    modifies accumulator, count
    ensures count[..] == RowUpdate(old(count[..]), at, frame1, i1, frame2, i2, bw, Update(Counts, strength, fw))
    ensures accumulator[..] == RowUpdate(old(accumulator[..]), at, frame1, i1, frame2, i2, bw, Update(Sums, strength, fw))
  {
    ghost var counts, sums := count[..], accumulator[..];
    var j := 0;
    while j < bw
      invariant 0 <= j <= bw
      invariant count[..] == RowUpdate(counts, at, frame1, i1, frame2, i2, j, Update(Counts, strength, fw))
      invariant accumulator[..] == RowUpdate(sums, at, frame1, i1, frame2, i2, j, Update(Sums, strength, fw))
    {
      RowUpdateStep(counts, at, frame1, i1, frame2, i2, j, Update(Counts, strength, fw));
      RowUpdateStep(sums, at, frame1, i1, frame2, i2, j, Update(Sums, strength, fw));
      ApplyPixel(frame1[i1 + j], frame2[i2 + j], strength, fw, rounding, at + j, accumulator, count);
      j := j + 1;
    }
  }

  /** The body of the inner loop: the pixel's weight is added to its count
      and the weighted pixel to its sum. */
  method ApplyPixel(srcPixel: int, pixelValue: int, strength: nat, fw: nat, rounding: nat, k: nat,
                    accumulator: array<U32>, count: array<U16>)
    requires rounding == Rounding(strength) && k < accumulator.Length == count.Length
    modifies accumulator, count
    ensures count[..] == old(count[..])[k := Update(Counts, strength, fw)(old(count[k]), srcPixel, pixelValue)]
    ensures accumulator[..]
            == old(accumulator[..])[k := Update(Sums, strength, fw)(old(accumulator[k]), srcPixel, pixelValue)]
  {
    var modifier := PixelWeight(srcPixel, pixelValue, strength, fw, rounding);
    count[k] := (count[k] + modifier) % TWO_16;
    accumulator[k] := (accumulator[k] + modifier * pixelValue) % TWO_32;
  }

  /** One more pixel of the row updates one more cell. */
  lemma RowUpdateStep(s: seq<int>, at: nat, frame1: seq<int>, i1: nat, frame2: seq<int>, i2: nat, n: nat,
                      f: (int, int, int) -> int)
    requires at + n < |s| && i1 + n < |frame1| && i2 + n < |frame2|
    ensures RowUpdate(s, at, frame1, i1, frame2, i2, n + 1, f)
            == RowUpdate(s, at, frame1, i1, frame2, i2, n, f)[at + n := f(s[at + n], frame1[i1 + n], frame2[i2 + n])]
  {
  }

  /** The weight computation of the inner loop, step by step. */
  method PixelWeight(srcByte: int, pixelValue: int, strength: nat, fw: nat, rounding: nat) returns (modifier: int)
    requires rounding == Rounding(strength)
    ensures modifier == Weight(srcByte, pixelValue, strength, fw)
  {
    modifier := srcByte - pixelValue;
    modifier := modifier * modifier;
    modifier := modifier * 3;
    modifier := modifier + rounding;
    modifier := ShiftRight(modifier, strength);
    if modifier > 16 {
      modifier := 16;
    }
    modifier := 16 - modifier;
    modifier := modifier * fw;
  }

  /** What Apply does to cell k = i * bw + j, for each of the two arrays:
      the weight of the source pixel at i * stride + j against the
      predicted pixel at k is added to the count, and the predicted pixel
      times that weight to the sum, each wrapping at its width. Every
      other cell keeps its value. */
  lemma ApplyAt(s: seq<int>, base: nat, frame1: seq<int>, stride: nat, frame2: seq<int>,
                bw: nat, bh: nat, strength: nat, fw: nat, kind: Plane, i: nat, j: nat, p: nat)
    requires BlockFits(|s|, base, |frame1|, 0, stride, |frame2|, 0, bw, bh) && i < bh && j < bw && p < |s|
    ensures base + Mul(i, bw) + j < |s| && Mul(i, bw) + j < |frame2| && Mul(i, stride) + j < |frame1|
    ensures var r := BlockUpdate(s, base, frame1, 0, stride, frame2, 0, bw, bh, Update(kind, strength, fw));
      var k := Mul(i, bw) + j;
      r[base + k] == Cell(kind, s[base + k], Weight(frame1[Mul(i, stride) + j], frame2[k], strength, fw), frame2[k])
      && (!(base <= p < base + Mul(bh, bw)) ==> r[p] == s[p])
  {
    BlockUpdateAt(s, base, frame1, 0, stride, frame2, 0, bw, bh, Update(kind, strength, fw), i, j);
    if !(base <= p < base + Mul(bh, bw)) {
      BlockUpdateKeeps(s, base, frame1, 0, stride, frame2, 0, bw, bh, Update(kind, strength, fw), p);
    }
  }

  /** A frame of weight 0 adds nothing: every cell keeps its value. */
  lemma ZeroWeightChangesNothing(s: seq<int>, base: nat, frame1: seq<int>, stride: nat, frame2: seq<int>,
                                 bw: nat, bh: nat, strength: nat, kind: Plane, i: nat, j: nat)
    requires BlockFits(|s|, base, |frame1|, 0, stride, |frame2|, 0, bw, bh) && i < bh && j < bw
    requires forall p | 0 <= p < |s| :: 0 <= s[p] < (if kind == Counts then TWO_16 else TWO_32)
    ensures base + Mul(i, bw) + j < |s|
    ensures BlockUpdate(s, base, frame1, 0, stride, frame2, 0, bw, bh, Update(kind, strength, 0))[base + Mul(i, bw) + j]
            == s[base + Mul(i, bw) + j]
  {
    BlockUpdateAt(s, base, frame1, 0, stride, frame2, 0, bw, bh, Update(kind, strength, 0), i, j);
    ZeroFrameWeight(frame1[Mul(i, stride) + j], frame2[Mul(i, bw) + j], strength);
  }

  /** As long as a cell's count and sum do not wrap, adding a pixel keeps
      the sum at most the count times the largest pixel: the sum stays a
      weighted sum of pixels whose weights are the count. */
  lemma CellKeepsAverageBound(cnt: int, sum: int, w: int, pixel: int, maxPixel: int)
    requires 0 <= cnt && 0 <= w && 0 <= pixel <= maxPixel
    requires 0 <= sum <= cnt * maxPixel
    requires cnt + w < TWO_16 && sum + w * pixel < TWO_32
    ensures 0 <= Cell(Sums, sum, w, pixel) <= Cell(Counts, cnt, w, pixel) * maxPixel
  {
    MulMonotone(pixel, maxPixel, w);
    assert w * pixel <= w * maxPixel;
    assert cnt * maxPixel + w * maxPixel == (cnt + w) * maxPixel;
  }
}
