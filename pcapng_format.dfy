/** Byte-level vocabulary of the pcap-ng reader: the constants of the block
    format, the error tags that replace the reader's error strings, and the
    decoding of 16-, 32- and 64-bit fields in host or swapped byte order.

    The host is taken to be little-endian: a field read "unswapped" is
    decoded least significant byte first, a field of a file written on a
    big-endian machine is read "swapped", most significant byte first. */
module PcapNgFormat {

  type Byte = x: int | 0 <= x < 256

  datatype Option<T> = None | Some(value: T)

  /** One tag per error message of the reader. */
  datatype Error =
    | IoError                 // ferror() after a short read
    | Truncated               // a short read where the stream may not end
    | BlockTooLarge           // total_length above the 16 MiB ceiling
    | BlockTooSmall           // total_length below header + trailer
    | BlockTooShort           // a cursor ran out of bytes inside a block
    | EndOfOptLength          // opt_endofopt with a nonzero length
    | TsresolLength           // if_tsresol whose length is not 1
    | DuplicateTsresol        // a second if_tsresol in one block
    | TsresolTooHigh          // the resolution computes to 0
    | TsoffsetLength          // if_tsoffset whose length is not 8
    | DuplicateTsoffset       // a second if_tsoffset in one block
    | ShbTooSmall             // first Section Header Block shorter than 28 bytes
    | UnknownPrecision        // requested precision neither micro nor nano
    | UnsupportedVersion      // major_version other than 1
    | NoInterfaces            // end of file before the first IDB
    | PacketBeforeInterface   // a packet block before the first IDB
    | LinktypeMismatch        // a later IDB with another link type
    | SnaplenMismatch         // a later IDB with another snapshot length
    | DifferentByteOrders     // a later SHB written in the other byte order
    | BadByteOrderMagic       // a later SHB with an unrecognised magic
    | NoSuchInterface         // a packet for an interface not yet described
    | UnwrittenInterface      // a packet for a counted interface whose table slot was never written

  // Block types
  const BT_SHB: nat := 0x0A0D0D0A
  const BT_IDB: nat := 0x00000001
  const BT_PB: nat := 0x00000002
  const BT_SPB: nat := 0x00000003
  const BT_EPB: nat := 0x00000006

  const BYTE_ORDER_MAGIC: nat := 0x1A2B3C4D
  const SWAPPED_BYTE_ORDER_MAGIC: nat := 0x4D3C2B1A
  const PCAP_NG_VERSION_MAJOR: nat := 1

  // Option codes of an Interface Description Block
  const OPT_ENDOFOPT: nat := 0
  const IF_TSRESOL: nat := 9
  const IF_TSOFFSET: nat := 14

  // Sizes of the fixed structures
  const BLOCK_HEADER_SIZE: nat := 8
  const BLOCK_TRAILER_SIZE: nat := 4
  const OPTION_HEADER_SIZE: nat := 4
  const SHB_SIZE: nat := 16
  const IDB_SIZE: nat := 8
  const EPB_SIZE: nat := 20
  const SPB_SIZE: nat := 4
  const PB_SIZE: nat := 20
  const MAX_BLOCK_SIZE: nat := 16 * 1024 * 1024

  const TWO_32: nat := 0x1_0000_0000
  const TWO_64: nat := 0x1_0000_0000_0000_0000

  function Min(a: nat, b: nat): nat { if a <= b then a else b }

  /** The 16-bit field at `at`, in host order or swapped. */
  function Field16(s: seq<Byte>, at: nat, swapped: bool): (r: nat)
    requires at + 2 <= |s|
    ensures r < 0x1_0000
  {
    var b0, b1: int := s[at], s[at + 1];
    if swapped then b0 * 0x100 + b1 else b0 + b1 * 0x100
  }

  /** The 32-bit field at `at`, in host order or swapped. */
  function Field32(s: seq<Byte>, at: nat, swapped: bool): (r: nat)
    requires at + 4 <= |s|
    ensures r < TWO_32
  {
    var b0, b1, b2, b3: int := s[at], s[at + 1], s[at + 2], s[at + 3];
    if swapped then ((b0 * 0x100 + b1) * 0x100 + b2) * 0x100 + b3
    else ((b3 * 0x100 + b2) * 0x100 + b1) * 0x100 + b0
  }

  /** The 64-bit field at `at`, in host order or swapped. */
  function Field64(s: seq<Byte>, at: nat, swapped: bool): (r: nat)
    requires at + 8 <= |s|
    ensures r < TWO_64
  {
    if swapped then Field32(s, at, true) * TWO_32 + Field32(s, at + 4, true)
    else Field32(s, at + 4, false) * TWO_32 + Field32(s, at, false)
  }

  /** SWAPLONG: reverses the four bytes of a 32-bit value. */
  function Swap32(x: nat): nat
    requires x < TWO_32
  {
    (x % 0x100) * 0x100_0000 + (x / 0x100 % 0x100) * 0x1_0000
      + (x / 0x1_0000 % 0x100) * 0x100 + x / 0x100_0000
  }

  /** Host-order bytes of a 32-bit value (what memcpy of a u_int stores). */
  function HostBytes32(x: nat): (r: seq<Byte>)
    requires x < TWO_32
    ensures |r| == 4
  {
    [x % 0x100, x / 0x100 % 0x100, x / 0x1_0000 % 0x100, x / 0x100_0000]
  }

  /** Swapping a field read in host order gives the field read swapped:
      this is why the reader may swap after reading. */
  lemma Swap32OfField(s: seq<Byte>, at: nat)
    requires at + 4 <= |s|
    ensures Swap32(Field32(s, at, false)) == Field32(s, at, true)
  {
    var b0, b1, b2, b3: int := s[at], s[at + 1], s[at + 2], s[at + 3];
    var x := Field32(s, at, false);
    assert x == b0 + 0x100 * (b1 + 0x100 * (b2 + 0x100 * b3));
    assert x % 0x100 == b0 && x / 0x100 == b1 + 0x100 * (b2 + 0x100 * b3);
    var y := x / 0x100;
    assert y % 0x100 == b1 && y / 0x100 == b2 + 0x100 * b3;
    assert x / 0x1_0000 == y / 0x100;
    var z := y / 0x100;
    assert z % 0x100 == b2 && z / 0x100 == b3;
    assert x / 0x100_0000 == z / 0x100;
  }

  /** The bytes stored for a value read back in host order give the value. */
  lemma HostBytes32RoundTrip(x: nat)
    requires x < TWO_32
    ensures Field32(HostBytes32(x), 0, false) == x
  {
    var y := x / 0x100;
    var z := y / 0x100;
    assert x / 0x1_0000 == z;
    assert x / 0x100_0000 == z / 0x100;
  }

  /** The two magic constants are each other's byte reversal, so a file
      written in the other byte order reads its magic as the second one. */
  lemma SwappedMagic()
    ensures Swap32(BYTE_ORDER_MAGIC) == SWAPPED_BYTE_ORDER_MAGIC
    ensures Swap32(SWAPPED_BYTE_ORDER_MAGIC) == BYTE_ORDER_MAGIC
  {
    assert 0x1A2B3C4D / 0x100 == 0x1A2B3C && 0x1A2B3C4D / 0x1_0000 == 0x1A2B;
    assert 0x1A2B3C4D / 0x100_0000 == 0x1A && 0x1A2B3C4D % 0x100 == 0x4D;
    assert 0x4D3C2B1A / 0x100 == 0x4D3C2B && 0x4D3C2B1A / 0x1_0000 == 0x4D3C;
    assert 0x4D3C2B1A / 0x100_0000 == 0x4D && 0x4D3C2B1A % 0x100 == 0x1A;
  }

  /** A field inside a sub-range reads the same through the sub-range. */
  lemma FieldsOfSlice(s: seq<Byte>, off: nat, b: seq<Byte>, at: nat, swapped: bool)
    requires off + |b| <= |s| && s[off..off + |b|] == b
    ensures at + 2 <= |b| ==> Field16(s, off + at, swapped) == Field16(b, at, swapped)
    ensures at + 4 <= |b| ==> Field32(s, off + at, swapped) == Field32(b, at, swapped)
    ensures at + 8 <= |b| ==> Field64(s, off + at, swapped) == Field64(b, at, swapped)
  {
    if at + 8 <= |b| {
      assert s[off + at + 4] == b[at + 4];
      assert s[off + at + 7] == b[at + 7];
    }
    if at + 4 <= |b| {
      assert s[off + at] == b[at] && s[off + at + 3] == b[at + 3];
    }
    if at + 2 <= |b| {
      assert s[off + at] == b[at] && s[off + at + 1] == b[at + 1];
    }
  }
}
