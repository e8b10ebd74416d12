/** Per-interface time stamp information and the conversion of a raw time
    stamp into seconds and a fraction of a second in the resolution the
    caller asked for (micro- or nanoseconds).

    All quantities are unsigned 64-bit in the reader; the fraction is below
    the interface resolution, which is below 2^32, and the caller's
    resolution is at most 10^9, so the products formed while scaling stay
    below 2^64 and only the seconds can wrap. */
module PcapNgScale {
  import opened PcapNgFormat
  import opened Arith

  /** The time stamp precision requested when the file was opened. */
  datatype Precision = Micro | Nano

  const PRECISION_MICRO: nat := 0
  const PRECISION_NANO: nat := 1

  /** The caller's resolution in ticks per second. */
  function Ticks(p: Precision): (r: nat)
    ensures r == 1000000 || r == 1000000000
  {
    match p
    case Micro => 1000000
    case Nano => 1000000000
  }

  datatype ScaleType = PassThrough | ScaleUp | ScaleDown

  /** One interface's entry in the reader's table. */
  datatype Iface = Iface(tsresol: nat, tsoffset: nat, scale: ScaleType)

  /** add_interface's choice of conversion: none when the interface ticks
      at the caller's resolution, divide down when it ticks faster, scale
      up when it ticks slower. */
  function ScaleFor(tsresol: nat, p: Precision): (r: ScaleType)
    ensures r == PassThrough <==> tsresol == Ticks(p)
    ensures r == ScaleDown <==> tsresol > Ticks(p)
    ensures r == ScaleUp <==> tsresol < Ticks(p)
  {
    match p
    case Micro =>
      if tsresol == 1000000 then PassThrough
      else if tsresol > 1000000 then ScaleDown
      else ScaleUp
    case Nano =>
      if tsresol == 1000000000 then PassThrough
      else if tsresol > 1000000000 then ScaleDown
      else ScaleUp
  }

  /** An entry the reader can use: a nonzero 32-bit resolution, a 64-bit
      offset and the conversion add_interface chooses for it. */
  predicate IfaceValid(i: Iface, p: Precision)
  {
    0 < i.tsresol < TWO_32 && i.tsoffset < TWO_64 && i.scale == ScaleFor(i.tsresol, p)
  }

  /** a * b / c in unsigned arithmetic, rounded down. */
  function MulDiv(a: nat, b: nat, c: nat): nat
    requires 0 < c
  {
    a * b / c
  }

  /** The fraction conversion as the reader performs it. Note the SCALE_UP
      case multiplies by the interface resolution and divides by the
      caller's, the reverse of what SCALE_DOWN does. */
  function ScaleFraction(frac: nat, i: Iface, p: Precision): (r: nat)
    requires 0 < i.tsresol
    ensures i.scale == PassThrough ==> r == frac
    ensures i.scale == ScaleUp && i.tsresol <= Ticks(p) ==> r <= frac
  {
    match i.scale
    case PassThrough => frac
    case ScaleUp => MulDiv(frac, i.tsresol, Ticks(p))
    case ScaleDown => MulDiv(frac, Ticks(p), i.tsresol)
  }

  /** The conversion the SCALE_UP case evidently means: the same number of
      seconds expressed in the caller's ticks, rounded down. */
  function IntendedScaleFraction(frac: nat, i: Iface, p: Precision): nat
    requires 0 < i.tsresol
  {
    match i.scale
    case PassThrough => frac
    case ScaleUp => MulDiv(frac, Ticks(p), i.tsresol)
    case ScaleDown => MulDiv(frac, Ticks(p), i.tsresol)
  }

  /** Seconds and fraction of a raw 64-bit time stamp `t` on interface `i`:
      t / tsresol plus the interface offset, wrapped to 64 bits, and the
      remainder converted to the caller's resolution. */
  function Timestamp(t: nat, i: Iface, p: Precision): (r: (nat, nat))
    requires IfaceValid(i, p)
    ensures r.0 < TWO_64 && r.1 < Ticks(p)
  {
    FractionBelowTicks(t % i.tsresol, i, p);
    ((t / i.tsresol + i.tsoffset) % TWO_64, ScaleFraction(t % i.tsresol, i, p))
  }

  /** Every conversion the reader performs yields a fraction below the
      caller's resolution, so the emitted time stamp is well formed; this
      holds for the SCALE_UP case as written too, because it only makes the
      fraction smaller. */
  lemma FractionBelowTicks(frac: nat, i: Iface, p: Precision)
    requires IfaceValid(i, p) && frac < i.tsresol
    ensures ScaleFraction(frac, i, p) < Ticks(p)
    ensures IntendedScaleFraction(frac, i, p) < Ticks(p)
  {
    var u := Ticks(p);
    DivBelow(frac * u, i.tsresol, u);
    if i.scale == ScaleUp {
      assert frac * i.tsresol <= frac * u;
      DivBelow(frac * i.tsresol, u, u);
    }
  }

  /** The intended conversion keeps the time: the fraction in caller ticks
      is the interface fraction rescaled and rounded down, whichever way
      the resolutions compare. */
  lemma IntendedKeepsTime(frac: nat, i: Iface, p: Precision)
    requires IfaceValid(i, p)
    ensures var q := IntendedScaleFraction(frac, i, p);
      q * i.tsresol <= frac * Ticks(p) < (q + 1) * i.tsresol
  {
  }

  /** The conversion as written agrees with the intended one except in the
      SCALE_UP case. */
  lemma AsWrittenAgreesOutsideScaleUp(frac: nat, i: Iface, p: Precision)
    requires IfaceValid(i, p) && i.scale != ScaleUp
    ensures ScaleFraction(frac, i, p) == IntendedScaleFraction(frac, i, p)
  {
  }

  /** An interface ticking in milliseconds read at microsecond precision:
      half a second (500 ticks) comes out as 0 microseconds as written,
      where 500000 is meant. */
  lemma ScaleUpLosesFraction()
    ensures IfaceValid(Iface(1000, 0, ScaleUp), Micro)
    ensures ScaleFraction(500, Iface(1000, 0, ScaleUp), Micro) == 0
    ensures IntendedScaleFraction(500, Iface(1000, 0, ScaleUp), Micro) == 500000
  {
  }
}
