/** The per-pixel weight of the VP9 temporal filter and the weight of a
    whole frame: before an alternate reference frame is coded, a few
    frames either side of it are blended into it, each predicted pixel
    counting by how close it is to the source pixel and each frame by how
    well motion search matched it. Pixels are integers below 4096, which
    covers 8-bit video and the high bit-depth path (10 and 12 bits). */
module Vp9Weight {

  const TWO_16: int := 0x1_0000
  const TWO_32: int := 0x1_0000_0000

  type U16 = x: int | 0 <= x < 0x1_0000
  type U32 = x: int | 0 <= x < 0x1_0000_0000

  /** Pixel values of the supported bit depths (8, 10 and 12). */
  const PIXEL_LIMIT: int := 4096

  function Pow2(n: nat): (r: nat)
    ensures r > 0
  {
    if n == 0 then 1 else 2 * Pow2(n - 1)
  }

  // ---------------------------------------------------------------------
  // The per-pixel weight
  // ---------------------------------------------------------------------

  /** `rounding`: half of 2^strength, or 0 for strength 0. */
  function Rounding(strength: nat): (r: nat)
    ensures r < Pow2(strength)
  {
    if strength > 0 then Pow2(strength - 1) else 0
  }

  /** `v >> n`: with a positive divisor Dafny's division rounds down, as
      an arithmetic right shift does. */
  function ShiftRight(v: int, n: nat): int
  {
    v / Pow2(n)
  }

  /** `modifier` before the weight: the squared difference times 3,
      rounded and scaled down by 2^strength, capped at 16. */
  function Modifier(src: int, pixel: int, strength: nat): (r: int)
    ensures 0 <= r <= 16
  {
    var d := src - pixel;
    var m := ShiftRight(d * d * 3 + Rounding(strength), strength);
    if m > 16 then 16 else m
  }

  /** The weight a pixel adds: (16 - modifier) times the frame's weight. */
  function Weight(src: int, pixel: int, strength: nat, fw: nat): (w: int)
    ensures 0 <= w <= 16 * fw
  {
    (16 - Modifier(src, pixel, strength)) * fw
  }

  /** A frame of weight 0 adds weight 0 for every pixel. */
  lemma ZeroFrameWeight(src: int, pixel: int, strength: nat)
    ensures Weight(src, pixel, strength, 0) == 0
  {
  }

  /** A predicted pixel equal to the source pixel gets the full weight,
      whatever the strength. */
  lemma IdenticalPixelsFullWeight(p: int, strength: nat, fw: nat)
    ensures Weight(p, p, strength, fw) == 16 * fw
  {
    assert ShiftRight(Rounding(strength), strength) == 0;
  }

  /** The further the predicted pixel is from the source pixel, the
      smaller its weight. */
  lemma WeightShrinksWithDistance(src: int, p1: int, p2: int, strength: nat, fw: nat)
    requires (src - p1) * (src - p1) <= (src - p2) * (src - p2)
    ensures Weight(src, p2, strength, fw) <= Weight(src, p1, strength, fw)
  {
    ModifierGrows((src - p1) * (src - p1), (src - p2) * (src - p2), strength);
    MulMonotone(16 - Modifier(src, p2, strength), 16 - Modifier(src, p1, strength), fw);
  }

  /** The modifier of a larger squared difference is at least as large. */
  lemma ModifierGrows(x: int, y: int, strength: nat)
    requires 0 <= x <= y
    ensures ShiftRight(x * 3 + Rounding(strength), strength) <= ShiftRight(y * 3 + Rounding(strength), strength)
  {
    DivMonotone(x * 3 + Rounding(strength), y * 3 + Rounding(strength), Pow2(strength));
  }

  lemma DivMonotone(a: int, b: int, d: int)
    requires 0 <= a <= b && d > 0
    ensures a / d <= b / d
  {
    var qa, ra := a / d, a % d;
    var qb, rb := b / d, b % d;
    assert a == qa * d + ra && b == qb * d + rb;
    if qa > qb {
      MulMonotone(qb + 1, qa, d);
    }
  }

  lemma MulMonotone(a: int, b: int, c: nat)
    requires a <= b
    ensures a * c <= b * c
  {
  }

  /** a * b, built up one b at a time: the offset of row a in a block whose
      rows are b apart. */
  function Mul(a: nat, b: nat): nat
    decreases a
  {
    if a == 0 then 0 else Mul(a - 1, b) + b
  }

  lemma {:induction false} MulIsProduct(a: nat, b: nat)
    ensures Mul(a, b) == a * b
    decreases a
  {
    if a > 0 {
      MulIsProduct(a - 1, b);
    }
  }

  /** Later rows start further on. */
  lemma {:induction false} MulGrows(a: nat, c: nat, b: nat)
    requires a <= c
    ensures Mul(a, b) <= Mul(c, b)
    decreases c
  {
    if a < c {
      MulGrows(a, c - 1, b);
    }
  }

  /** Longer rows make a larger block. */
  lemma {:induction false} MulGrowsRight(a: nat, b: nat, c: nat)
    requires b <= c
    ensures Mul(a, b) <= Mul(a, c)
    decreases a
  {
    if a > 0 {
      MulGrowsRight(a - 1, b, c);
    }
  }

  // ---------------------------------------------------------------------
  // Frame weights
  // ---------------------------------------------------------------------

  const THRESH_LOW: int := 10000
  const THRESH_HIGH: int := 20000

  /** filter_weight in temporal_filter_iterate_c: 2 for the alternate
      reference itself; for another frame, by its motion-search error. */
  function FilterWeight(isAltRef: bool, err: int): (w: nat)
    ensures w <= 2
  {
    if isAltRef then 2
    else if err < THRESH_LOW then 2
    else if err < THRESH_HIGH then 1
    else 0
  }

  /** The weight falls as the error grows, and the alternate reference
      always gets the top weight. */
  lemma FilterWeightOrder(err1: int, err2: int)
    requires err1 <= err2
    ensures FilterWeight(false, err2) <= FilterWeight(false, err1) <= FilterWeight(true, err2)
    ensures FilterWeight(false, err1) == 0 <==> err1 >= THRESH_HIGH
  {
  }
}
