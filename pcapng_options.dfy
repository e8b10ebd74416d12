/** The block cursor and the Interface Description Block option scan,
    stated on byte sequences.

    A cursor is the pair (offset, remaining) into the session buffer plus
    the type of the block it walks; extracting a chunk either consumes
    exactly that many bytes or fails and leaves the caller's cursor as it
    was. Options are (code, length, value padded to 4 bytes) triples. */
module PcapNgOptions {
  import opened PcapNgFormat

  datatype Cursor = Cursor(offset: nat, remaining: nat, blockType: nat)

  /** get_from_block_data: the cursor after consuming `n` bytes, or None
      when fewer than `n` bytes remain. */
  function Take(c: Cursor, n: nat): (r: Option<Cursor>)
    ensures r.Some? <==> n <= c.remaining
    ensures r.Some? ==> r.value.offset == c.offset + n
    ensures r.Some? ==> r.value.remaining + n == c.remaining
    ensures r.Some? ==> r.value.blockType == c.blockType
  {
    if c.remaining < n then None
    else Some(Cursor(c.offset + n, c.remaining - n, c.blockType))
  }

  /** Taking `a` and then `b` bytes is taking `a + b` bytes at once, and
      fails exactly when that would. */
  lemma TakeTwice(c: Cursor, a: nat, b: nat)
    ensures Take(c, a).Some? && Take(Take(c, a).value, b).Some? <==> Take(c, a + b).Some?
    ensures Take(c, a).Some? && Take(Take(c, a).value, b).Some? ==>
              Take(Take(c, a).value, b) == Take(c, a + b)
  {
  }

  /** The number of bytes an option value occupies: its length rounded up
      to a multiple of 4. */
  function PaddedLength(len: nat): (r: nat)
  {
    ((len + 3) / 4) * 4
  }

  lemma PaddedLengthBounds(len: nat)
    ensures PaddedLength(len) % 4 == 0
    ensures len <= PaddedLength(len) <= len + 3
    ensures len % 4 == 0 ==> PaddedLength(len) == len
  {
  }

  /** 2^k and 10^k as unbounded numbers: the values the 32-bit
      computations of the reader are measured against. */
  function Pow2(k: nat): (r: nat)
    ensures r > 0
  {
    if k == 0 then 1 else 2 * Pow2(k - 1)
  }

  function Pow10(k: nat): (r: nat)
    ensures r > 0
  {
    if k == 0 then 1 else 10 * Pow10(k - 1)
  }

  /** if_tsresol: the high bit selects a power of two, otherwise a power of
      ten. The power of ten is formed as the reader forms it, by repeated
      `*= 10` on a 32-bit unsigned value, so each step wraps modulo 2^32. */
  function TenPower32(k: nat): (r: nat)
    ensures r < TWO_32
  {
    if k == 0 then 1 else (TenPower32(k - 1) * 10) % TWO_32
  }

  /** `1 << shift` in 32 bits. A shift of 32 or more is undefined in C;
      here it yields the mathematical value modulo 2^32, which is 0, so
      that exponent is reported as too high. */
  function Shift32(shift: nat): (r: nat)
    ensures r < TWO_32
  {
    if shift < 32 then
      Pow2Below(shift, 32);
      Pow2Of32();
      Pow2(shift)
    else 0
  }

  /** The interface resolution an if_tsresol value byte selects, or None
      when it computes to 0 in 32 bits. */
  function TsresolFromByte(v: Byte): (r: Option<nat>)
    ensures r.Some? ==> 0 < r.value < TWO_32
  {
    var res := if v >= 0x80 then Shift32(v - 0x80) else TenPower32(v);
    if res == 0 then None else Some(res)
  }

  lemma {:induction false} Pow2Below(k: nat, j: nat)
    requires k < j
    ensures Pow2(k) < Pow2(j)
  {
    if k + 1 < j {
      Pow2Below(k, j - 1);
    }
  }

  lemma Pow2Split(a: nat, b: nat)
    ensures Pow2(a + b) == Pow2(a) * Pow2(b)
  {
    if a > 0 {
      Pow2Split(a - 1, b);
    }
  }

  lemma ModTimes10(a: nat)
    ensures (a % TWO_32 * 10) % TWO_32 == (a * 10) % TWO_32
  {
    var q := a / TWO_32;
    assert a * 10 == (q * 10) * TWO_32 + a % TWO_32 * 10;
  }

  /** The repeated 32-bit multiplication computes 10^k modulo 2^32. */
  lemma {:induction false} TenPowerWraps(k: nat)
    ensures TenPower32(k) == Pow10(k) % TWO_32
  {
    if k > 0 {
      TenPowerWraps(k - 1);
      ModTimes10(Pow10(k - 1));
    }
  }

  /** 5^k, the odd factor of 10^k. */
  function Pow5(k: nat): (r: nat)
    ensures r % 2 == 1
  {
    if k == 0 then 1 else 5 * Pow5(k - 1)
  }

  lemma {:induction false} TenIsTwoTimesFive(k: nat)
    ensures Pow10(k) == Pow2(k) * Pow5(k)
  {
    if k > 0 {
      TenIsTwoTimesFive(k - 1);
    }
  }

  lemma Pow2Of32()
    ensures Pow2(32) == TWO_32
  {
    assert Pow2(4) == 16;
    Pow2Split(4, 4);
    Pow2Split(8, 8);
    Pow2Split(16, 16);
  }

  lemma MulAtLeast(a: nat, d: nat)
    requires a >= 1
    ensures a * d >= d
  {
  }

  /** The remainder is determined by any decomposition x == q * d + r. */
  lemma ModOfDecomposition(x: nat, d: nat, q: nat, r: nat)
    requires 0 <= r < d && x == q * d + r
    ensures x % d == r
  {
    var q', r' := x / d, x % d;
    assert q' * d + r' == x;
    if q > q' {
      MulAtLeast(q - q', d);
    } else if q < q' {
      MulAtLeast(q' - q, d);
    }
  }

  lemma ModDouble(a: nat, p: nat)
    requires p > 0
    ensures (2 * a) % (2 * p) == 2 * (a % p)
  {
    var q, r := a / p, a % p;
    assert a == q * p + r;
    assert 2 * a == q * (2 * p) + 2 * r;
    ModOfDecomposition(2 * a, 2 * p, q, 2 * r);
  }

  lemma ModOdd(m: nat, p: nat)
    requires p > 0 && m % 2 == 1
    ensures (m % (2 * p)) % 2 == 1
  {
    var q, r := m / (2 * p), m % (2 * p);
    assert m == 2 * (q * p) + r;
  }

  /** An odd multiple of 2^k is not a multiple of 2^j for j > k. */
  lemma {:induction false} OddMultipleNotDivisible(k: nat, j: nat, m: nat)
    requires k < j && m % 2 == 1
    ensures (Pow2(k) * m) % Pow2(j) != 0
  {
    if k == 0 {
      ModOdd(m, Pow2(j - 1));
    } else {
      OddMultipleNotDivisible(k - 1, j - 1, m);
      assert Pow2(k) * m == 2 * (Pow2(k - 1) * m);
      ModDouble(Pow2(k - 1) * m, Pow2(j - 1));
    }
  }

  lemma TenPowerNonzero(k: nat)
    requires k < 32
    ensures Pow10(k) % TWO_32 != 0
  {
    TenIsTwoTimesFive(k);
    Pow2Of32();
    OddMultipleNotDivisible(k, 32, Pow5(k));
  }

  lemma TenPowerMultiple(k: nat)
    requires k >= 32
    ensures Pow10(k) % TWO_32 == 0
  {
    TenIsTwoTimesFive(k);
    Pow2Of32();
    Pow2Split(32, k - 32);
    var a, b := Pow2(k - 32), Pow5(k);
    assert Pow10(k) == (TWO_32 * a) * b;
    assert Pow10(k) == (a * b) * TWO_32;
    ModOfDecomposition(Pow10(k), TWO_32, a * b, 0);
  }

  /** 10^k computed in 32 bits is zero exactly from k = 32 on. */
  lemma TenPowerZero(k: nat)
    ensures TenPower32(k) == 0 <==> k >= 32
  {
    TenPowerWraps(k);
    if k < 32 {
      TenPowerNonzero(k);
    } else {
      TenPowerMultiple(k);
    }
  }

  /** An if_tsresol byte is accepted exactly when its exponent (the low
      seven bits) is below 32, whichever base it selects. */
  lemma TsresolAccepted(v: Byte)
    ensures TsresolFromByte(v).Some? <==> v % 128 < 32
  {
    if v < 0x80 {
      TenPowerZero(v);
    }
  }

  /** The value of an accepted if_tsresol byte: 2^(v & 0x7F) when its high
      bit is set, otherwise 10^v as the 32-bit multiplication leaves it. */
  lemma TsresolValue(v: Byte)
    ensures v >= 0x80 && v - 0x80 < 32 ==> TsresolFromByte(v) == Some(Pow2(v - 0x80))
    ensures v < 32 ==> TsresolFromByte(v) == Some(Pow10(v) % TWO_32)
  {
    if v < 32 {
      TenPowerWraps(v);
      TenPowerZero(v);
    }
  }

  /** What option processing has collected so far. */
  datatype OptState = OptState(tsresol: nat, tsoffset: nat, sawTsresol: bool, sawTsoffset: bool)

  /** The defaults before any option: microsecond ticks, no offset. */
  const DEFAULT_OPTIONS := OptState(1000000, 0, false, false)

  predicate OptStateValid(st: OptState)
  {
    0 < st.tsresol < TWO_32 && st.tsoffset < TWO_64
  }

  datatype OptResult = OptOk(st: OptState) | OptErr(e: Error)

  /** What one option does to the scan: end it with a result, or go on
      `size` bytes further with the updated state. */
  datatype OptStep = Done(result: OptResult) | More(st: OptState, size: nat)

  /** The body of the loop in process_idb_options for the option at the
      front of `opts`: its header and padded value must be present; an
      end-of-options with length 0 ends the scan successfully; if_tsresol
      and if_tsoffset must have their fixed lengths and appear at most
      once; any other option is skipped. */
  function OptionStep(opts: seq<Byte>, swapped: bool, st: OptState): (r: OptStep)
    requires OptStateValid(st)
    ensures r.More? ==> OPTION_HEADER_SIZE <= r.size <= |opts| && OptStateValid(r.st)
    ensures r.Done? && r.result.OptOk? ==> r.result.st == st
  {
    if |opts| < OPTION_HEADER_SIZE then Done(OptErr(BlockTooShort))
    else
      var code := Field16(opts, 0, swapped);
      var len := Field16(opts, 2, swapped);
      var padded := PaddedLength(len);
      if |opts| - OPTION_HEADER_SIZE < padded then Done(OptErr(BlockTooShort))
      else
        var size := OPTION_HEADER_SIZE + padded;
        if code == OPT_ENDOFOPT then
          Done(if len != 0 then OptErr(EndOfOptLength) else OptOk(st))
        else if code == IF_TSRESOL then
          if len != 1 then Done(OptErr(TsresolLength))
          else if st.sawTsresol then Done(OptErr(DuplicateTsresol))
          else match TsresolFromByte(opts[OPTION_HEADER_SIZE])
            case None => Done(OptErr(TsresolTooHigh))
            case Some(res) => More(st.(tsresol := res, sawTsresol := true), size)
        else if code == IF_TSOFFSET then
          if len != 8 then Done(OptErr(TsoffsetLength))
          else if st.sawTsoffset then Done(OptErr(DuplicateTsoffset))
          else More(st.(tsoffset := Field64(opts, OPTION_HEADER_SIZE, swapped), sawTsoffset := true), size)
        else More(st, size)
  }

  /** process_idb_options on the bytes left in the cursor: one option per
      step until the bytes run out or a step ends the scan. */
  function ScanOptions(opts: seq<Byte>, swapped: bool, st: OptState): (r: OptResult)
    requires OptStateValid(st)
    ensures r.OptOk? ==> OptStateValid(r.st)
    ensures |opts| == 0 ==> r == OptOk(st)
    ensures r.OptErr? ==> r.e in {BlockTooShort, EndOfOptLength, TsresolLength, DuplicateTsresol,
                                  TsresolTooHigh, TsoffsetLength, DuplicateTsoffset}
    decreases |opts|
  {
    if |opts| == 0 then OptOk(st)
    else match OptionStep(opts, swapped, st)
      case Done(result) => result
      case More(st', size) => ScanOptions(opts[size..], swapped, st')
  }

  /** The option header and padded value at the front of `opts`, as the
      scan reads them: the next option starts exactly PaddedLength(len)
      bytes after the header. */
  function OptionAt(opts: seq<Byte>, swapped: bool): (r: Option<(nat, nat, seq<Byte>)>)
    ensures r.Some? ==> var (_, len, rest) := r.value;
      |opts| == OPTION_HEADER_SIZE + PaddedLength(len) + |rest|
      && rest == opts[OPTION_HEADER_SIZE + PaddedLength(len)..]
  {
    if |opts| < OPTION_HEADER_SIZE then None
    else
      var len := Field16(opts, 2, swapped);
      if |opts| - OPTION_HEADER_SIZE < PaddedLength(len) then None
      else Some((Field16(opts, 0, swapped), len, opts[OPTION_HEADER_SIZE + PaddedLength(len)..]))
  }

  /** What the checks of one option decide, stated on its header: an
      option cut short is refused; if_tsresol needs length 1, may not
      repeat and must compute to a nonzero resolution, which is 2^(v & 0x7F)
      or 10^v modulo 2^32 for its value byte v; if_tsoffset needs length 8,
      may not repeat and records its 64-bit value; end-of-options needs
      length 0; anything else is passed over. An option that lets the scan
      go on moves it past its header and padded value. */
  lemma OptionStepOutcomes(opts: seq<Byte>, swapped: bool, st: OptState)
    requires OptStateValid(st)
    ensures OptionAt(opts, swapped).None? <==> OptionStep(opts, swapped, st) == Done(OptErr(BlockTooShort))
    ensures OptionAt(opts, swapped).Some? ==>
      var r := OptionStep(opts, swapped, st);
      var (code, len, _) := OptionAt(opts, swapped).value;
      && (r.More? ==> r.size == OPTION_HEADER_SIZE + PaddedLength(len))
      && (code == OPT_ENDOFOPT ==> r == Done(if len == 0 then OptOk(st) else OptErr(EndOfOptLength)))
      && (code == IF_TSRESOL && len != 1 ==> r == Done(OptErr(TsresolLength)))
      && (code == IF_TSRESOL && len == 1 && st.sawTsresol ==> r == Done(OptErr(DuplicateTsresol)))
      && (code == IF_TSRESOL && len == 1 && !st.sawTsresol ==>
            var v := opts[OPTION_HEADER_SIZE];
            && (r == Done(OptErr(TsresolTooHigh)) <==> v % 128 >= 32)
            && (r.More? <==> v % 128 < 32)
            && (r.More? ==> r.st == st.(tsresol := r.st.tsresol, sawTsresol := true))
            && (r.More? ==> r.st.tsresol == if v >= 0x80 then Pow2(v - 0x80) else Pow10(v) % TWO_32))
      && (code == IF_TSOFFSET && len != 8 ==> r == Done(OptErr(TsoffsetLength)))
      && (code == IF_TSOFFSET && len == 8 && st.sawTsoffset ==> r == Done(OptErr(DuplicateTsoffset)))
      && (code == IF_TSOFFSET && len == 8 && !st.sawTsoffset ==>
            r == More(st.(tsoffset := Field64(opts, OPTION_HEADER_SIZE, swapped), sawTsoffset := true),
                      OPTION_HEADER_SIZE + 8))
      && (code !in {OPT_ENDOFOPT, IF_TSRESOL, IF_TSOFFSET} ==>
            r == More(st, OPTION_HEADER_SIZE + PaddedLength(len)))
  {
    if OptionAt(opts, swapped).Some? && |opts| > OPTION_HEADER_SIZE {
      var v := opts[OPTION_HEADER_SIZE];
      TsresolAccepted(v);
      TsresolValue(v);
    }
  }

  /** Once an if_tsresol has been accepted in a block, a further one of
      the right length ends the scan with the "more than one" error; the
      same for if_tsoffset. */
  lemma RepeatedOptionRefused(opts: seq<Byte>, swapped: bool, st: OptState)
    requires OptStateValid(st) && OptionAt(opts, swapped).Some?
    ensures var (code, len, _) := OptionAt(opts, swapped).value;
      && (code == IF_TSRESOL && len == 1 && st.sawTsresol ==>
            ScanOptions(opts, swapped, st) == OptErr(DuplicateTsresol))
      && (code == IF_TSOFFSET && len == 8 && st.sawTsoffset ==>
            ScanOptions(opts, swapped, st) == OptErr(DuplicateTsoffset))
  {
  }

  /** Two if_tsresol options in a row: the first is accepted, the second
      refused, so the whole scan fails. */
  lemma TwoTsresolRefused(opts: seq<Byte>, swapped: bool, st: OptState)
    requires OptStateValid(st) && !st.sawTsresol && OptionAt(opts, swapped).Some?
    requires OptionAt(opts, swapped).value.0 == IF_TSRESOL && OptionAt(opts, swapped).value.1 == 1
    requires opts[OPTION_HEADER_SIZE] % 128 < 32
    requires var rest := OptionAt(opts, swapped).value.2;
      OptionAt(rest, swapped).Some? && OptionAt(rest, swapped).value.0 == IF_TSRESOL
      && OptionAt(rest, swapped).value.1 == 1
    ensures ScanOptions(opts, swapped, st) == OptErr(DuplicateTsresol)
  {
    OptionStepOutcomes(opts, swapped, st);
    var step := OptionStep(opts, swapped, st);
    RepeatedOptionRefused(opts[step.size..], swapped, step.st);
  }

  /** An unrecognised option is skipped: the scan continues with the bytes
      after its padded value and the collected state unchanged. */
  lemma UnknownOptionSkipped(opts: seq<Byte>, swapped: bool, st: OptState)
    requires OptStateValid(st) && OptionAt(opts, swapped).Some?
    requires OptionAt(opts, swapped).value.0 !in {OPT_ENDOFOPT, IF_TSRESOL, IF_TSOFFSET}
    ensures ScanOptions(opts, swapped, st) == ScanOptions(OptionAt(opts, swapped).value.2, swapped, st)
  {
  }

  /** End-of-options with length 0 stops the scan whatever follows it. */
  lemma EndOfOptionsStops(opts: seq<Byte>, swapped: bool, st: OptState)
    requires OptStateValid(st) && OptionAt(opts, swapped).Some?
    requires OptionAt(opts, swapped).value.0 == OPT_ENDOFOPT
    ensures ScanOptions(opts, swapped, st) ==
              if OptionAt(opts, swapped).value.1 == 0 then OptOk(st) else OptErr(EndOfOptLength)
  {
  }

  /** A successful scan never loses what was seen: a resolution or offset
      recorded before is kept, a value whose option never came keeps its
      default, and the flags only go from false to true. */
  lemma {:induction false} ScanKeepsSeen(opts: seq<Byte>, swapped: bool, st: OptState)
    requires OptStateValid(st)
    requires ScanOptions(opts, swapped, st).OptOk?
    ensures var r := ScanOptions(opts, swapped, st).st;
      (st.sawTsresol ==> r.sawTsresol && r.tsresol == st.tsresol)
      && (st.sawTsoffset ==> r.sawTsoffset && r.tsoffset == st.tsoffset)
      && (!r.sawTsresol ==> r.tsresol == st.tsresol)
      && (!r.sawTsoffset ==> r.tsoffset == st.tsoffset)
    decreases |opts|
  {
    if |opts| > 0 {
      var step := OptionStep(opts, swapped, st);
      if step.More? {
        ScanKeepsSeen(opts[step.size..], swapped, step.st);
      }
    }
  }
}
