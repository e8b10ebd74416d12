/** The bounds and length helpers of libdw's private header: the fixed
    value lengths of DWARF attribute forms (section 7.5.4 of DWARF 4), the
    checks that an offset or address range lies inside a section's data,
    the offset of a unit's first DIE after its header (sections 7.5.1.1
    and 7.5.1.2 of DWARF 4), the section a unit lives in, and the fast path
    of the bump allocator.

    size_t and Dwarf_Off are 64 bits wide; unsigned subtraction wraps
    modulo 2^64 and is written out where the helpers rely on it. Addresses
    are numbers below 2^64. */
module Libdw {

  const TWO_64: nat := 0x1_0000_0000_0000_0000

  type U64 = x: nat | x < TWO_64

  datatype Option<T> = None | Some(value: T)

  /** Indices into the section table of a Dwarf handle. */
  const IDX_DEBUG_INFO: nat := 0
  const IDX_DEBUG_TYPES: nat := 1
  const IDX_LAST: nat := 13

  /** The two error numbers these helpers set. */
  datatype DwError = InvalidDwarf | InvalidOffset

  /** The Elf_Data of one section: the address of its bytes (NULL is None)
      and its size. */
  datatype SectionData = SectionData(buf: Option<U64>, size: U64)

  /** The part of a Dwarf handle the helpers read: one entry per section
      index, None where the section is absent. */
  datatype Dwarf = Dwarf(sections: seq<Option<SectionData>>)

  /** A helper's answer: its value, or failure with the error number set. */
  datatype Checked<T> = Ok(value: T) | Fail(err: DwError)

  // Attribute form codes (DWARF 4, section 7.5.4, figure 20)
  const DW_FORM_DATA2: nat := 0x05
  const DW_FORM_DATA4: nat := 0x06
  const DW_FORM_DATA8: nat := 0x07
  const DW_FORM_DATA1: nat := 0x0b
  const DW_FORM_FLAG: nat := 0x0c
  const DW_FORM_REF1: nat := 0x11
  const DW_FORM_REF2: nat := 0x12
  const DW_FORM_REF4: nat := 0x13
  const DW_FORM_REF8: nat := 0x14
  const DW_FORM_FLAG_PRESENT: nat := 0x19
  const DW_FORM_REF_SIG8: nat := 0x20

  /** The static table of __libdw_form_val_len, indexed by form code up to
      DW_FORM_ref_sig8. A zero entry means "length not fixed"; the entry of
      DW_FORM_flag_present is 0x80, a nonzero marker whose low seven bits
      give its length 0. */
  const FORM_LENGTHS: seq<nat> := [
    0, 0, 0, 0, 0, 2, 4, 8, 0, 0, 0, 1, 1, 0, 0, 0,
    0, 1, 2, 4, 8, 0, 0, 0, 0, 0x80, 0, 0, 0, 0, 0, 0,
    8]

  /** The value length DWARF 4 fixes for a form, if it fixes one. */
  function FixedFormSize(form: nat): (r: Option<nat>)
  {
    if form in {DW_FORM_DATA1, DW_FORM_REF1, DW_FORM_FLAG} then Some(1)
    else if form in {DW_FORM_DATA2, DW_FORM_REF2} then Some(2)
    else if form in {DW_FORM_DATA4, DW_FORM_REF4} then Some(4)
    else if form in {DW_FORM_DATA8, DW_FORM_REF8, DW_FORM_REF_SIG8} then Some(8)
    else if form == DW_FORM_FLAG_PRESENT then Some(0)
    else None
  }

  /** What __libdw_form_val_len does: a fixed length, the error return
      (size_t)-1 with DWARF_E_INVALID_DWARF, or a call of
      __libdw_form_val_compute_len for the forms whose length depends on
      the value. */
  datatype FormLen = Fixed(len: nat) | TooLong | Computed

  /** __libdw_form_val_len, table part; `avail` is endp - valp, the bytes
      left in the unit. */
  function FormValLen(form: nat, avail: U64): (r: FormLen)
    ensures r.Fixed? ==> r.len <= avail && r.len < 0x80
    ensures r == Computed <==> FixedFormSize(form).None?
  {
    if form < |FORM_LENGTHS| && FORM_LENGTHS[form] != 0 then
      var len := FORM_LENGTHS[form] % 0x80;
      if len > avail then TooLong else Fixed(len)
    else Computed
  }

  /** The table agrees with DWARF 4: a form with a fixed size gets exactly
      that length when the unit has room for it and the error otherwise,
      and every other form is left to the general computation. */
  lemma FormValLenMatchesDwarf(form: nat, avail: U64)
    ensures FixedFormSize(form).None? ==> FormValLen(form, avail) == Computed
    ensures FixedFormSize(form).Some? ==>
      FormValLen(form, avail) == if FixedFormSize(form).value > avail then TooLong else Fixed(FixedFormSize(form).value)
  {
    if form < |FORM_LENGTHS| {
      assert FORM_LENGTHS[form] == 0 <==> FixedFormSize(form).None?;
    }
  }

  /** __libdw_checked_get_data: the section's data, which must exist and
      have a buffer; otherwise DWARF_E_INVALID_DWARF. */
  function CheckedGetData(dbg: Dwarf, secIndex: nat): (r: Checked<(U64, U64)>)
    requires secIndex < |dbg.sections|
    ensures r.Ok? <==> dbg.sections[secIndex].Some? && dbg.sections[secIndex].value.buf.Some?
    ensures r.Ok? ==> r.value == (dbg.sections[secIndex].value.buf.value, dbg.sections[secIndex].value.size)
    ensures r.Fail? ==> r.err == InvalidDwarf
  {
    match dbg.sections[secIndex]
    case None => Fail(InvalidDwarf)
    case Some(data) =>
      match data.buf
      case None => Fail(InvalidDwarf)
      case Some(buf) => Ok((buf, data.size))
  }

  /** __libdw_offset_in_section: `size` bytes at `offset` must lie inside
      the section. The offset is checked against the size before the
      subtraction, so the subtraction cannot wrap. */
  function OffsetInSection(dbg: Dwarf, secIndex: nat, offset: U64, size: U64): (r: Checked<()>)
    requires secIndex < |dbg.sections|
    ensures r.Ok? ==> CheckedGetData(dbg, secIndex).Ok? && offset + size <= CheckedGetData(dbg, secIndex).value.1
  {
    match CheckedGetData(dbg, secIndex)
    case Fail(e) => Fail(e)
    case Ok((_, dsize)) =>
      if offset > dsize || dsize - offset < size then Fail(InvalidOffset) else Ok(())
  }

  /** The offset check succeeds exactly when the section has data and the
      range [offset, offset + size) fits in it; a missing section is
      reported as invalid DWARF, a range that does not fit as an invalid
      offset. */
  lemma OffsetInSectionExact(dbg: Dwarf, secIndex: nat, offset: U64, size: U64)
    requires secIndex < |dbg.sections|
    ensures var r := OffsetInSection(dbg, secIndex, offset, size);
      var data := CheckedGetData(dbg, secIndex);
      (r.Ok? <==> data.Ok? && offset + size <= data.value.1)
      && (data.Fail? ==> r == Fail(InvalidDwarf))
      && (data.Ok? && r.Fail? ==> r.err == InvalidOffset)
  {
  }

  /** a - b in size_t. */
  function Sub64(a: U64, b: U64): (r: U64)
    ensures a >= b ==> r == a - b
    ensures a < b ==> r == a - b + TWO_64
  {
    (a - b) % TWO_64
  }

  /** __libdw_in_section as written: `addr` must not precede the buffer,
      and d_size - (addr - d_buf), computed in size_t, must be at least
      `size`. There is no test that `addr` is within the buffer, so for an
      address past its end the subtraction wraps. */
  function InSection(dbg: Dwarf, secIndex: nat, addr: U64, size: U64): (r: Checked<()>)
    requires secIndex < |dbg.sections|
    ensures r.Ok? ==> CheckedGetData(dbg, secIndex).Ok? && CheckedGetData(dbg, secIndex).value.0 <= addr
    ensures CheckedGetData(dbg, secIndex).Fail? ==> r == Fail(InvalidDwarf)
  {
    match CheckedGetData(dbg, secIndex)
    case Fail(e) => Fail(e)
    case Ok((buf, dsize)) =>
      if addr < buf || Sub64(dsize, addr - buf) < size then Fail(InvalidOffset) else Ok(())
  }

  /** Within the buffer the address check means what it says: for an
      address no further than the end of the data it succeeds exactly when
      the range [addr, addr + size) lies inside the data. */
  lemma InSectionWithinBuffer(dbg: Dwarf, secIndex: nat, addr: U64, size: U64)
    requires secIndex < |dbg.sections| && CheckedGetData(dbg, secIndex).Ok?
    requires var (buf, dsize) := CheckedGetData(dbg, secIndex).value; addr <= buf + dsize
    ensures var (buf, dsize) := CheckedGetData(dbg, secIndex).value;
      InSection(dbg, secIndex, addr, size).Ok? <==> buf <= addr && addr + size <= buf + dsize
  {
  }

  /** Past the end of the data the address check as written succeeds: one
      byte just beyond a 16-byte section at 0x1000 is accepted. */
  lemma InSectionAcceptsPastEnd()
    ensures var dbg := Dwarf([Some(SectionData(Some(0x1000), 16))]);
      InSection(dbg, 0, 0x1000 + 17, 1) == Ok(())
  {
  }

  /** The address check with the evidently intended test that the address
      lies within the data before the remaining size is computed. */
  function InSectionBounded(dbg: Dwarf, secIndex: nat, addr: U64, size: U64): (r: Checked<()>)
    requires secIndex < |dbg.sections|
  {
    match CheckedGetData(dbg, secIndex)
    case Fail(e) => Fail(e)
    case Ok((buf, dsize)) =>
      if addr < buf || addr - buf > dsize || dsize - (addr - buf) < size then Fail(InvalidOffset) else Ok(())
  }

  /** The bounded check succeeds exactly when the section has data and
      the range [addr, addr + size) lies inside it, like the offset check,
      and it agrees with the check as written for every address up to the
      end of the data. */
  lemma InSectionBoundedExact(dbg: Dwarf, secIndex: nat, addr: U64, size: U64)
    requires secIndex < |dbg.sections|
    ensures var r := InSectionBounded(dbg, secIndex, addr, size);
      var data := CheckedGetData(dbg, secIndex);
      (r.Ok? <==> data.Ok? && data.value.0 <= addr && addr + size <= data.value.0 + data.value.1)
      && (data.Fail? ==> r == Fail(InvalidDwarf))
      && (data.Ok? && addr <= data.value.0 + data.value.1 ==> r == InSection(dbg, secIndex, addr, size))
  {
  }

  /** The length of the initial length field of a unit header: 4 bytes in
      the 32-bit format, 0xffffffff plus 8 bytes in the 64-bit format. */
  function InitialLengthSize(offsetSize: nat): nat
  {
    if offsetSize == 8 then 12 else 4
  }

  /** The unit header laid out field by field: initial length, version
      (2 bytes), debug_abbrev_offset (an offset), address_size (1 byte),
      and for a type unit also type_signature (8 bytes) and type_offset
      (an offset). */
  function UnitHeaderSize(offsetSize: nat, typeUnit: bool): nat
  {
    InitialLengthSize(offsetSize) + 2 + offsetSize + 1 + (if typeUnit then 8 + offsetSize else 0)
  }

  /** DIE_OFFSET_FROM_CU_OFFSET, in Dwarf_Off arithmetic. */
  function DieOffsetFromCuOffset(cuOffset: U64, offsetSize: nat, typeUnit: bool): (r: U64)
    ensures offsetSize == 4 || offsetSize == 8 ==> r == (cuOffset + UnitHeaderSize(offsetSize, typeUnit)) % TWO_64
  {
    if typeUnit then (cuOffset + 4 * offsetSize - 4 + 3 + 8) % TWO_64
    else (cuOffset + 3 * offsetSize - 4 + 3) % TWO_64
  }

  /** For both offset sizes DWARF allows, the first DIE starts right after
      the unit header: 11 and 23 bytes into a 32-bit compile or type unit,
      23 and 39 into a 64-bit one. */
  lemma DieOffsetAfterHeader(cuOffset: U64, offsetSize: nat, typeUnit: bool)
    requires offsetSize == 4 || offsetSize == 8
    requires cuOffset + UnitHeaderSize(offsetSize, typeUnit) < TWO_64
    ensures DieOffsetFromCuOffset(cuOffset, offsetSize, typeUnit) == cuOffset + UnitHeaderSize(offsetSize, typeUnit)
    ensures offsetSize == 4 ==> UnitHeaderSize(offsetSize, typeUnit) == if typeUnit then 23 else 11
    ensures offsetSize == 8 ==> UnitHeaderSize(offsetSize, typeUnit) == if typeUnit then 39 else 23
  {
  }

  /** cu_sec_idx: a unit with a type offset is a type unit and lives in
      .debug_types, any other in .debug_info. */
  function CuSecIdx(typeOffset: U64): (r: nat)
    ensures r == IDX_DEBUG_INFO <==> typeOffset == 0
    ensures r == IDX_DEBUG_TYPES <==> typeOffset != 0
  {
    if typeOffset == 0 then IDX_DEBUG_INFO else IDX_DEBUG_TYPES
  }

  /** The remainder of `x` by `a`, by repeated subtraction. For the power
      of two an alignment always is, this is x & (a - 1). */
  function Rem(x: nat, a: nat): (r: nat)
    requires 0 < a
    ensures r < a
    decreases x
  {
    if x < a then x else Rem(x - a, a)
  }

  /** Adding less than what is missing to the next multiple just adds to
      the remainder, and adding exactly that lands on a multiple. */
  lemma {:induction false} RemAdd(x: nat, a: nat, y: nat)
    requires 0 < a
    ensures Rem(x, a) + y < a ==> Rem(x + y, a) == Rem(x, a) + y
    ensures Rem(x, a) + y == a ==> Rem(x + y, a) == 0
    decreases x
  {
    if x >= a {
      RemAdd(x - a, a, y);
      assert x + y - a == x - a + y;
    } else if x + y == a {
      assert Rem(x + y - a, a) == 0;
    }
  }

  /** The bytes needed in front of `addr` to reach the next multiple of
      `align`: ((align - (addr & (align - 1))) & (align - 1)), that is 0
      when `addr` is aligned and align - (addr mod align) otherwise. */
  function Padding(addr: U64, align: nat): (r: nat)
    requires 0 < align
    ensures r < align && Rem(addr + r, align) == 0
  {
    RemAdd(addr, align, align - Rem(addr, align));
    if Rem(addr, align) == 0 then 0 else align - Rem(addr, align)
  }

  /** No smaller padding aligns the address. */
  lemma PaddingLeast(addr: U64, align: nat, k: nat)
    requires 0 < align && k < Padding(addr, align)
    ensures Rem(addr + k, align) != 0
  {
    RemAdd(addr, align, k);
  }

  /** Where an allocation request ends up. */
  datatype Allocation = Carved(addr: U64) | Deferred(required: nat, align: nat)

  /** The tail block of a Dwarf handle's memory pool: `size` bytes starting
      at address `mem`, of which the last `remaining` are free. */
  class MemBlock {
    const mem: U64
    const size: U64
    var remaining: U64

    predicate Valid()
      reads this
    {
      remaining <= size && mem + size < TWO_64
    }

    /** The address of the first free byte. */
    function Free(): (r: U64)
      requires Valid()
      reads this
    {
      mem + (size - remaining)
    }

    constructor (mem: U64, size: U64)
      requires mem + size < TWO_64
      ensures Valid() && this.mem == mem && this.size == size && remaining == size
    {
      this.mem := mem;
      this.size := size;
      remaining := size;
    }

    /** The fast path of libdw_alloc for `cnt` objects of `tsize` bytes
        aligned to `align`: the free space is padded up to the alignment
        and the request carved from it when it fits; otherwise
        __libdw_allocate is to be called with the unpadded size and the
        block is left alone. */
    method Alloc(tsize: nat, cnt: nat, align: nat) returns (r: Allocation)
      requires Valid() && 0 < align && tsize * cnt + align < TWO_64
      modifies this
      ensures Valid()
      ensures var pad := Padding(old(Free()), align);
        if old(remaining) < tsize * cnt + pad then
          r == Deferred(tsize * cnt, align) && remaining == old(remaining)
        else
          r == Carved(old(Free()) + pad) && remaining == old(remaining) - (tsize * cnt + pad)
      ensures r.Carved? ==> Rem(r.addr, align) == 0 && r.addr + tsize * cnt == Free()
    {
      var required := tsize * cnt;
      var result := mem + (size - remaining);
      var padding := Padding(result, align);
      if remaining < required + padding {
        r := Deferred(required, align);
      } else {
        required := required + padding;
        r := Carved(result + padding);
        remaining := remaining - required;
      }
    }
  }
}
