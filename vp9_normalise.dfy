/** The output loops of temporal_filter_iterate_c: the filtered pixel is
    the sum divided by the count in fixed point, through a table of
    reciprocals scaled by 2^19 that vp9_temporal_filter_init builds. */
module Vp9Normalise {
  import opened Vp9Weight
  import opened Arith

  /** The size of the reciprocal table and its scale, 2^19. */
  const FIXED_DIVIDE_SIZE: nat := 512
  const FIXED_ONE: nat := 0x80000

  /** The table vp9_temporal_filter_init builds: 0 at index 0, and 2^19 / i
      (truncated) at every other index. */
  predicate FixedDivideTable(fd: seq<int>)
  {
    |fd| == FIXED_DIVIDE_SIZE && fd[0] == 0
    && forall i | 1 <= i < FIXED_DIVIDE_SIZE :: fd[i] == FIXED_ONE / i
  }

  /** The output loops need only that the table has 512 entries none of
      which is negative, so that the product stays unsigned. */
  predicate TableNonNegative(fd: seq<int>)
  {
    |fd| == FIXED_DIVIDE_SIZE && forall i | 0 <= i < FIXED_DIVIDE_SIZE :: 0 <= fd[i]
  }

  lemma FixedDivideTableNonNegative(fd: seq<int>)
    requires FixedDivideTable(fd)
    ensures TableNonNegative(fd)
  {
  }

  /** Each nonzero entry is the reciprocal of its index rounded down in
      2^19 fixed point: the largest value whose product with the index
      does not exceed 2^19. */
  lemma ReciprocalBounds(fd: seq<int>, i: int)
    requires FixedDivideTable(fd) && 1 <= i < FIXED_DIVIDE_SIZE
    ensures 0 < fd[i] && fd[i] * i <= FIXED_ONE < (fd[i] + 1) * i
  {
    var q, r := FIXED_ONE / i, FIXED_ONE % i;
    assert FIXED_ONE == q * i + r && 0 <= r < i;
  }

  /** vp9_temporal_filter_init. */
  method Init(fd: array<int>)
    requires fd.Length == FIXED_DIVIDE_SIZE
    modifies fd
    ensures FixedDivideTable(fd[..])
  {
    fd[0] := 0;
    var i := 1;
    while i < FIXED_DIVIDE_SIZE
      invariant 1 <= i <= FIXED_DIVIDE_SIZE && fd[0] == 0
      invariant forall n | 1 <= n < i :: fd[n] == FIXED_ONE / n
    {
      fd[i] := FIXED_ONE / i;
      i := i + 1;
    }
  }

  /** `pval`: the sum plus half the count, times the reciprocal of the
      count, shifted down 19 places, in unsigned 32-bit arithmetic. */
  function Normalised(sum: int, cnt: int, recip: int): (r: int)
    requires 0 <= sum && 0 <= cnt && 0 <= recip
    ensures 0 <= r < TWO_32 / FIXED_ONE
  {
    ((sum + cnt / 2) % TWO_32 * recip) % TWO_32 / FIXED_ONE
  }

  /** The stored sample: pval cut to the width of the destination, 8 bits,
      or 16 bits on the high bit-depth path. */
  function Sample(pval: int, highBitDepth: bool): int
  {
    pval % (if highBitDepth then TWO_16 else 0x100)
  }

  /** A cell no frame contributed to gives 0. */
  lemma EmptyCellGivesZero(fd: seq<int>, sum: int)
    requires FixedDivideTable(fd) && 0 <= sum
    ensures Normalised(sum, 0, fd[0]) == 0
  {
  }

  /** When the sum is a weighted sum of pixels below 2^12 whose weights add
      up to the count, the fixed-point division never wraps, gives at most
      the rounded average, and so fits the sample: the cast loses
      nothing. */
  lemma NormalisedInRange(fd: seq<int>, sum: int, cnt: int, maxPixel: int, highBitDepth: bool)
    requires FixedDivideTable(fd) && 0 < cnt < FIXED_DIVIDE_SIZE
    requires 0 <= maxPixel < PIXEL_LIMIT && (!highBitDepth ==> maxPixel < 0x100)
    requires 0 <= sum <= cnt * maxPixel
    ensures Normalised(sum, cnt, fd[cnt]) == (sum + cnt / 2) * fd[cnt] / FIXED_ONE
    ensures Normalised(sum, cnt, fd[cnt]) <= maxPixel
    ensures Sample(Normalised(sum, cnt, fd[cnt]), highBitDepth) == Normalised(sum, cnt, fd[cnt])
  {
    var q := fd[cnt];
    ReciprocalBounds(fd, cnt);
    var a := sum + cnt / 2;
    ProductBound(sum, cnt / 2, cnt, q, maxPixel);
    var aq := a * q;
    assert 0 <= aq;
    SumBound(sum, cnt, maxPixel);
    assert a % TWO_32 == a;
    assert aq % TWO_32 == aq;
    DivBelow(aq, FIXED_ONE, maxPixel + 1);
  }

  /** The sum and half the count, times a reciprocal of the count, is at
      most maxPixel + 1/2 in 2^19 fixed point. */
  lemma ProductBound(sum: int, half: int, cnt: int, q: int, maxPixel: int)
    requires 0 <= sum <= cnt * maxPixel && 0 <= half && half * 2 <= cnt && 0 < q && 0 <= maxPixel < PIXEL_LIMIT
    requires q * cnt <= FIXED_ONE
    ensures 0 <= (sum + half) * q < (maxPixel + 1) * FIXED_ONE <= TWO_32
  {
    MulMonotone(sum, cnt * maxPixel, q);
    assert cnt * maxPixel * q == maxPixel * (q * cnt);
    MulMonotone(q * cnt, FIXED_ONE, maxPixel);
    MulMonotone(half * 2, cnt, q);
    assert (sum + half) * q == sum * q + half * q;
    assert (sum + half) * q * 2 <= maxPixel * FIXED_ONE * 2 + FIXED_ONE;
    MulMonotone(maxPixel + 1, PIXEL_LIMIT, FIXED_ONE);
  }

  /** The sum and half the count stay below 2^32. */
  lemma SumBound(sum: int, cnt: int, maxPixel: int)
    requires 0 < cnt < FIXED_DIVIDE_SIZE && 0 <= maxPixel < PIXEL_LIMIT && 0 <= sum <= cnt * maxPixel
    ensures sum + cnt / 2 < TWO_32
  {
    MulMonotone(cnt, FIXED_DIVIDE_SIZE, maxPixel);
    MulMonotone(maxPixel, PIXEL_LIMIT, FIXED_DIVIDE_SIZE);
  }

  /** The normalised samples of cells k0 .. k0 + n - 1, in order. */
  function Samples(acc: seq<int>, cnt: seq<int>, fd: seq<int>, k0: nat, n: nat, highBitDepth: bool): (r: seq<int>)
    requires TableNonNegative(fd) && k0 + n <= |acc| && k0 + n <= |cnt|
    requires forall m | k0 <= m < k0 + n :: 0 <= acc[m] && 0 <= cnt[m] < FIXED_DIVIDE_SIZE
    ensures |r| == n
  {
    seq(n, m requires 0 <= m < n => Sample(Normalised(acc[k0 + m], cnt[k0 + m], fd[cnt[k0 + m]]), highBitDepth))
  }

  /** The number of cells of a block of bh rows of bw pixels: at most 256,
      the cells of one plane of a 16x16 macroblock. */
  function Cells(bh: nat, bw: nat): (r: nat)
    requires bh <= 16 && bw <= 16
    ensures r == Mul(bh, bw) && r <= 256
  {
    MulGrows(bh, 16, bw);
    MulGrowsRight(16, bw, 16);
    MulIsProduct(16, 16);
    Mul(bh, bw)
  }

  /** One row of n samples, vals[v0 ..], stored from `at`. */
  function RowWrite(dst: seq<int>, at: nat, vals: seq<int>, v0: nat, n: nat): (r: seq<int>)
    requires at + n <= |dst| && v0 + n <= |vals|
  {
    seq(|dst|, p requires 0 <= p < |dst| => if at <= p < at + n then vals[v0 + p - at] else dst[p])
  }

  /** A block of `rows` rows of bw samples fits: row i goes to
      at + i * stride and comes from vals[v0 + i * bw ..]. */
  predicate PlaneFits(dst: nat, at: nat, stride: nat, bw: nat, rows: nat, vals: nat, v0: nat)
  {
    rows == 0 || (at + Mul(rows - 1, stride) + bw <= dst && v0 + Mul(rows, bw) <= vals)
  }

  lemma PlaneFitsRest(dst: nat, at: nat, stride: nat, bw: nat, rows: nat, vals: nat, v0: nat)
    requires PlaneFits(dst, at, stride, bw, rows, vals, v0) && rows > 0
    ensures at + bw <= dst && v0 + bw <= vals
    ensures PlaneFits(dst, at + stride, stride, bw, rows - 1, vals, v0 + bw)
  {
    MulGrows(0, rows - 1, stride);
    MulGrows(1, rows, bw);
  }

  /** The destination plane after the rows of a block of samples (given
      in row-major order) are stored from `at`, rows `stride` apart, the
      first row first. */
  function PlaneWrite(dst: seq<int>, at: nat, stride: nat, bw: nat, rows: nat, vals: seq<int>, v0: nat): (r: seq<int>)
    requires PlaneFits(|dst|, at, stride, bw, rows, |vals|, v0)
    ensures |r| == |dst|
    decreases rows
  {
    if rows == 0 then dst
    else
      PlaneFitsRest(|dst|, at, stride, bw, rows, |vals|, v0);
      PlaneWrite(RowWrite(dst, at, vals, v0, bw), at + stride, stride, bw, rows - 1, vals, v0 + bw)
  }

  /** A block is its first row followed by the rest, one row further on
      in the destination and in the samples. */
  lemma PlaneWriteNextRow(dst: seq<int>, at: nat, stride: nat, bw: nat, rows: nat, vals: seq<int>, v0: nat,
                          nextAt: nat, nextV0: nat, rest: nat)
    requires PlaneFits(|dst|, at, stride, bw, rows, |vals|, v0) && rows > 0
    requires nextAt == at + stride && nextV0 == v0 + bw && rest == rows - 1
    ensures at + bw <= |dst| && v0 + bw <= |vals|
    ensures PlaneFits(|dst|, nextAt, stride, bw, rest, |vals|, nextV0)
    ensures PlaneWrite(dst, at, stride, bw, rows, vals, v0)
            == PlaneWrite(RowWrite(dst, at, vals, v0, bw), nextAt, stride, bw, rest, vals, nextV0)
  {
    PlaneFitsRest(|dst|, at, stride, bw, rows, |vals|, v0);
  }

  /** One more sample of the row stores one more position. */
  lemma RowWriteStep(dst: seq<int>, at: nat, vals: seq<int>, v0: nat, n: nat)
    requires at + n < |dst| && v0 + n < |vals|
    ensures RowWrite(dst, at, vals, v0, n + 1) == RowWrite(dst, at, vals, v0, n)[at + n := vals[v0 + n]]
  {
  }

  /** Positions before the block or after its last row are untouched. */
  lemma {:induction false} PlaneWriteKeeps(dst: seq<int>, at: nat, stride: nat, bw: nat, rows: nat, vals: seq<int>,
                                           v0: nat, p: nat)
    requires PlaneFits(|dst|, at, stride, bw, rows, |vals|, v0)
    requires p < |dst| && (p < at || rows == 0 || p >= at + Mul(rows - 1, stride) + bw)
    ensures PlaneWrite(dst, at, stride, bw, rows, vals, v0)[p] == dst[p]
    decreases rows
  {
    if rows > 0 {
      PlaneFitsRest(|dst|, at, stride, bw, rows, |vals|, v0);
      MulGrows(0, rows - 1, stride);
      PlaneWriteKeeps(RowWrite(dst, at, vals, v0, bw), at + stride, stride, bw, rows - 1, vals, v0 + bw, p);
    }
  }

  /** Sample i * bw + j of the block lands at i * stride + j from the
      start, when rows do not overlap. */
  lemma {:induction false} PlaneWriteAt(dst: seq<int>, at: nat, stride: nat, bw: nat, rows: nat, vals: seq<int>,
                                        v0: nat, i: nat, j: nat)
    requires PlaneFits(|dst|, at, stride, bw, rows, |vals|, v0) && bw <= stride && i < rows && j < bw
    ensures at + Mul(i, stride) + j < |dst| && v0 + Mul(i, bw) + j < |vals|
    ensures PlaneWrite(dst, at, stride, bw, rows, vals, v0)[at + Mul(i, stride) + j] == vals[v0 + Mul(i, bw) + j]
    decreases rows
  {
    PlaneFitsRest(|dst|, at, stride, bw, rows, |vals|, v0);
    var d1 := RowWrite(dst, at, vals, v0, bw);
    if i == 0 {
      PlaneWriteKeeps(d1, at + stride, stride, bw, rows - 1, vals, v0 + bw, at + j);
    } else {
      PlaneWriteAt(d1, at + stride, stride, bw, rows - 1, vals, v0 + bw, i - 1, j);
    }
  }

  /** The side of a macroblock, in luma pixels. */
  const MB_SIZE: nat := 16

  /** The luma output loop: the 16x16 block of samples from cells 0..255
      is stored at `origin` in the destination plane. */
  method NormaliseLuma(acc: seq<U32>, count: seq<U16>, fd: seq<int>, dst: array<int>,
                       origin: nat, stride: nat, highBitDepth: bool)
    requires TableNonNegative(fd) && |acc| == |count| == 768
    requires forall m | 0 <= m < 256 :: count[m] < FIXED_DIVIDE_SIZE
    requires origin + Mul(MB_SIZE - 1, stride) + MB_SIZE <= dst.Length
    modifies dst
    ensures dst[..] == PlaneWrite(old(dst[..]), origin, stride, MB_SIZE, MB_SIZE,
                                  Samples(acc, count, fd, 0, Cells(MB_SIZE, MB_SIZE), highBitDepth), 0)
  {
    ghost var vals := Samples(acc, count, fd, 0, Cells(MB_SIZE, MB_SIZE), highBitDepth);
    ghost var target := PlaneWrite(dst[..], origin, stride, MB_SIZE, MB_SIZE, vals, 0);
    var byte: nat := origin;
    var i, k: nat := 0, 0;
    while i < MB_SIZE
      invariant 0 <= i <= MB_SIZE && k <= 256
      invariant PlaneFits(dst.Length, byte, stride, MB_SIZE, MB_SIZE - i, |vals|, k)
      invariant PlaneWrite(dst[..], byte, stride, MB_SIZE, MB_SIZE - i, vals, k) == target
    {
      ghost var dst0, byte0, k0, i0 := dst[..], byte, k, i;
      PlaneFitsRest(dst.Length, byte, stride, MB_SIZE, MB_SIZE - i, |vals|, k);
      NormaliseRow(acc, count, fd, dst, byte, 0, k, MB_SIZE, highBitDepth, vals);
      byte := byte + stride;
      k := k + MB_SIZE;
      i := i + 1;
      PlaneWriteNextRow(dst0, byte0, stride, MB_SIZE, MB_SIZE - i0, vals, k0, byte, k, MB_SIZE - i);
    }
  }

  /** The inner luma loop: the samples of cells base + k0 .. base + k0 +
      n - 1 stored from `at`. */
  method NormaliseRow(acc: seq<U32>, count: seq<U16>, fd: seq<int>, dst: array<int>,
                      at: nat, base: nat, k0: nat, n: nat, highBitDepth: bool, ghost vals: seq<int>)
    requires TableNonNegative(fd) && |acc| == |count| && at + n <= dst.Length
    requires base + |vals| <= |acc| && k0 + n <= |vals|
    requires forall m | base <= m < base + |vals| :: count[m] < FIXED_DIVIDE_SIZE
    requires vals == Samples(acc, count, fd, base, |vals|, highBitDepth)
    modifies dst
    ensures dst[..] == RowWrite(old(dst[..]), at, vals, k0, n)
  {
    ghost var before := dst[..];
    var j := 0;
    while j < n
      invariant 0 <= j <= n
      invariant dst[..] == RowWrite(before, at, vals, k0, j)
    {
      RowWriteStep(before, at, vals, k0, j);
      var sample := NormalisePixel(acc, count, fd, base + k0 + j, highBitDepth);
      dst[at + j] := sample;
      j := j + 1;
    }
  }

  /** The body of the output loops: pval of one cell, cut to the sample
      width. */
  method NormalisePixel(acc: seq<U32>, count: seq<U16>, fd: seq<int>, m: nat, highBitDepth: bool)
    returns (sample: int)
    requires TableNonNegative(fd) && m < |acc| == |count| && count[m] < FIXED_DIVIDE_SIZE
    ensures sample == Sample(Normalised(acc[m], count[m], fd[count[m]]), highBitDepth)
  {
    var pval := (acc[m] + count[m] / 2) % TWO_32;
    pval := pval * fd[count[m]] % TWO_32;
    pval := pval / FIXED_ONE;
    sample := Sample(pval, highBitDepth);
  }

  /** The chroma output loop: U and V blocks of bw x bh samples, from cells
      256 and 512 on, stored into their two planes at the same position. */
  method NormaliseChroma(acc: seq<U32>, count: seq<U16>, fd: seq<int>, dstU: array<int>, dstV: array<int>,
                         origin: nat, stride: nat, bw: nat, bh: nat, highBitDepth: bool)
    requires TableNonNegative(fd) && |acc| == |count| == 768 && dstU != dstV
    requires bw <= 16 && bh <= 16
    requires forall m | 256 <= m < 768 :: count[m] < FIXED_DIVIDE_SIZE
    requires 0 < bh ==> origin + Mul(bh - 1, stride) + bw <= dstU.Length && origin + Mul(bh - 1, stride) + bw <= dstV.Length
    modifies dstU, dstV
    ensures dstU[..] == PlaneWrite(old(dstU[..]), origin, stride, bw, bh,
                                   Samples(acc, count, fd, 256, Cells(bh, bw), highBitDepth), 0)
    ensures dstV[..] == PlaneWrite(old(dstV[..]), origin, stride, bw, bh,
                                   Samples(acc, count, fd, 512, Cells(bh, bw), highBitDepth), 0)
  {
    ghost var valsU := Samples(acc, count, fd, 256, Cells(bh, bw), highBitDepth);
    ghost var valsV := Samples(acc, count, fd, 512, Cells(bh, bw), highBitDepth);
    ghost var targetU := PlaneWrite(dstU[..], origin, stride, bw, bh, valsU, 0);
    ghost var targetV := PlaneWrite(dstV[..], origin, stride, bw, bh, valsV, 0);
    var byte: nat := origin;
    var i, k: nat := 0, 0;
    while i < bh
      invariant 0 <= i <= bh && k <= 256
      invariant PlaneFits(dstU.Length, byte, stride, bw, bh - i, |valsU|, k)
      invariant PlaneFits(dstV.Length, byte, stride, bw, bh - i, |valsV|, k)
      invariant PlaneWrite(dstU[..], byte, stride, bw, bh - i, valsU, k) == targetU
      invariant PlaneWrite(dstV[..], byte, stride, bw, bh - i, valsV, k) == targetV
    {
      ghost var dstU0, dstV0, byte0, k0, i0 := dstU[..], dstV[..], byte, k, i;
      PlaneFitsRest(dstU.Length, byte, stride, bw, bh - i, |valsU|, k);
      PlaneFitsRest(dstV.Length, byte, stride, bw, bh - i, |valsV|, k);
      NormaliseChromaRow(acc, count, fd, dstU, dstV, byte, k, bw, highBitDepth, valsU, valsV);
      byte := byte + stride;
      k := k + bw;
      i := i + 1;
      PlaneWriteNextRow(dstU0, byte0, stride, bw, bh - i0, valsU, k0, byte, k, bh - i);
      PlaneWriteNextRow(dstV0, byte0, stride, bw, bh - i0, valsV, k0, byte, k, bh - i);
    }
  }

  /** The inner chroma loop: cell 256 + k goes to the U plane and the cell
      256 after it to the V plane, at the same position. */
  method NormaliseChromaRow(acc: seq<U32>, count: seq<U16>, fd: seq<int>, dstU: array<int>, dstV: array<int>,
                            at: nat, k0: nat, n: nat, highBitDepth: bool, ghost valsU: seq<int>, ghost valsV: seq<int>)
    requires TableNonNegative(fd) && |acc| == |count| == 768 && dstU != dstV
    requires at + n <= dstU.Length && at + n <= dstV.Length && |valsU| == |valsV| <= 256 && k0 + n <= |valsU|
    requires forall m | 256 <= m < 768 :: count[m] < FIXED_DIVIDE_SIZE
    requires valsU == Samples(acc, count, fd, 256, |valsU|, highBitDepth)
    requires valsV == Samples(acc, count, fd, 512, |valsV|, highBitDepth)
    modifies dstU, dstV
    ensures dstU[..] == RowWrite(old(dstU[..]), at, valsU, k0, n)
    ensures dstV[..] == RowWrite(old(dstV[..]), at, valsV, k0, n)
  {
    ghost var beforeU, beforeV := dstU[..], dstV[..];
    var j := 0;
    while j < n
      invariant 0 <= j <= n
      invariant dstU[..] == RowWrite(beforeU, at, valsU, k0, j)
      invariant dstV[..] == RowWrite(beforeV, at, valsV, k0, j)
    {
      RowWriteStep(beforeU, at, valsU, k0, j);
      RowWriteStep(beforeV, at, valsV, k0, j);
      var u := 256 + k0 + j;
      var m := u + 256;
      var sample := NormalisePixel(acc, count, fd, u, highBitDepth);
      dstU[at + j] := sample;
      assert dstV[..] == RowWrite(beforeV, at, valsV, k0, j);
      sample := NormalisePixel(acc, count, fd, m, highBitDepth);
      dstV[at + j] := sample;
      j := j + 1;
    }
  }
}
