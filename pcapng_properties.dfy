/** Properties of the pcap-ng reader that relate several blocks or calls:
    what a new section does to the interface table, how the table grows,
    which blocks are passed over, the linktype comparison of later
    interfaces, and when a file is not taken to be pcap-ng at all. */
module PcapNgProperties {
  import opened PcapNgFormat
  import opened PcapNgOptions
  import opened PcapNgScale
  import opened PcapNgBlocks

  /** After a Section Header Block the reader accepts, no interface of the
      earlier section is known any more: every packet block that names an
      interface, and every Simple Packet Block (always interface 0), fails
      with "interface not yet described". */
  lemma SectionResetForgetsInterfaces(v: View, shb: seq<Byte>, blockType: nat, body: seq<Byte>)
    requires ViewValid(v) && NextStep(v, BT_SHB, shb).Skip?
    requires blockType in {BT_EPB, BT_SPB, BT_PB}
    requires |body| >= (if blockType == BT_SPB then SPB_SIZE else EPB_SIZE)
    ensures NextStep(v, BT_SHB, shb).v == v.(ifcount := 0)
    ensures NextStep(NextStep(v, BT_SHB, shb).v, blockType, body)
              == StepFailed(v.(ifcount := 0), NoSuchInterface)
  {
  }

  /** A later Section Header Block is accepted exactly when it is long
      enough, carries the byte-order magic in the order the file was opened
      with and has major version 1; it then starts a section with no
      interfaces. Otherwise it is refused: a magic in the other order means
      the sections differ in byte order, any other magic is bad, and any
      other major version is unsupported. */
  lemma MidStreamSectionHeader(v: View, b: seq<Byte>)
    requires ViewValid(v)
    ensures var r := NextStep(v, BT_SHB, b);
      && (r.Skip? <==> |b| >= SHB_SIZE && Field32(b, 0, v.swapped) == BYTE_ORDER_MAGIC
                       && Field16(b, 4, v.swapped) == PCAP_NG_VERSION_MAJOR)
      && (r.Skip? ==> r.v == v.(ifcount := 0))
      && (|b| < SHB_SIZE ==> r == StepFailed(v, BlockTooShort))
      && (|b| >= SHB_SIZE ==>
            var magic := Field32(b, 0, v.swapped);
            && (magic == SWAPPED_BYTE_ORDER_MAGIC ==> r == StepFailed(v, DifferentByteOrders))
            && (magic != SWAPPED_BYTE_ORDER_MAGIC && magic != BYTE_ORDER_MAGIC ==>
                  r == StepFailed(v, BadByteOrderMagic))
            && (magic == BYTE_ORDER_MAGIC && Field16(b, 4, v.swapped) != PCAP_NG_VERSION_MAJOR ==>
                  r == StepFailed(v, UnsupportedVersion)))
  {
  }

  /** A later Interface Description Block must repeat the session's raw
      link type and its snapshot length, in that order of checks; one that
      does is added as add_interface adds it. */
  lemma MidStreamInterface(v: View, b: seq<Byte>)
    requires ViewValid(v)
    ensures var r := NextStep(v, BT_IDB, b);
      && (|b| < IDB_SIZE ==> r == StepFailed(v, BlockTooShort))
      && (|b| >= IDB_SIZE && v.linktype != Field16(b, 0, v.swapped) ==> r == StepFailed(v, LinktypeMismatch))
      && (|b| >= IDB_SIZE && v.linktype == Field16(b, 0, v.swapped) && v.snapshot != Field32(b, 4, v.swapped) ==>
            r == StepFailed(v, SnaplenMismatch))
      && (|b| >= IDB_SIZE && v.linktype == Field16(b, 0, v.swapped) && v.snapshot == Field32(b, 4, v.swapped) ==>
            var (w, err) := AddInterfaceSpec(v, b[IDB_SIZE..]);
            r == if err.Some? then StepFailed(w, err.value) else Skip(w))
  {
  }

  /** A block of a type the reader does not know is consumed and changes
      nothing. */
  lemma UnknownBlockSkipped(v: View, blockType: nat, body: seq<Byte>)
    requires ViewValid(v) && blockType !in {BT_SHB, BT_IDB, BT_EPB, BT_SPB, BT_PB}
    ensures NextStep(v, blockType, body) == Skip(v)
  {
  }

  /** pcap_ng_next_packet at a well-formed block of unknown type behaves as
      it does at the block after it. */
  lemma UnknownBlockPassedOver(data: seq<Byte>, ioError: bool, pos: nat, v: View)
    requires pos <= |data| && ViewValid(v)
    requires ReadBlockSpec(data, pos, v.swapped, ioError).read.Block?
    requires ReadBlockSpec(data, pos, v.swapped, ioError).read.blockType !in {BT_SHB, BT_IDB, BT_EPB, BT_SPB, BT_PB}
    ensures NextSpec(data, ioError, pos, v)
              == NextSpec(data, ioError, ReadBlockSpec(data, pos, v.swapped, ioError).next, v)
  {
    var b := ReadBlockSpec(data, pos, v.swapped, ioError);
    UnknownBlockSkipped(v, b.read.blockType, BlockBody(data, pos, b.read.totalLength));
  }

  /** add_interface counts the interface before it looks at the options,
      so a later Interface Description Block whose options are refused
      leaves the count raised by one (the table slot keeps what it held,
      or stays unwritten when the table had to grow). */
  lemma FailedInterfaceStillCounted(v: View, body: seq<Byte>)
    requires ViewValid(v) && |body| >= IDB_SIZE
    requires v.linktype == Field16(body, 0, v.swapped) && v.snapshot == Field32(body, 4, v.swapped)
    requires ScanOptions(body[IDB_SIZE..], v.swapped, DEFAULT_OPTIONS).OptErr?
    ensures var r := NextStep(v, BT_IDB, body);
      r.StepFailed? && r.e == ScanOptions(body[IDB_SIZE..], v.swapped, DEFAULT_OPTIONS).e
      && r.v.ifcount == v.ifcount + 1
      && (v.ifcount < |v.ifaces| ==> r.v.ifaces == v.ifaces)
      && (v.ifcount == |v.ifaces| ==> r.v.ifaces[v.ifcount].None?)
  {
  }

  /** A refused Interface Description Block met when the table is full:
      the table grows and the interface is counted, but its slot is never
      written, so a later packet naming that interface is not delivered.
      The reader itself goes on to divide by the uninitialised resolution
      of that slot. */
  lemma RefusedInterfaceSlotUnwritten(v: View, idb: seq<Byte>, blockType: nat, body: seq<Byte>)
    requires ViewValid(v) && v.ifcount == |v.ifaces| && |idb| >= IDB_SIZE
    requires v.linktype == Field16(idb, 0, v.swapped) && v.snapshot == Field32(idb, 4, v.swapped)
    requires ScanOptions(idb[IDB_SIZE..], v.swapped, DEFAULT_OPTIONS).OptErr?
    requires blockType in {BT_EPB, BT_PB} && |body| >= EPB_SIZE
    requires (if blockType == BT_EPB then Field32(body, 0, v.swapped) else Field16(body, 0, v.swapped)) == v.ifcount
    ensures var w := NextStep(v, BT_IDB, idb).v;
      w.ifcount == v.ifcount + 1 && w.ifaces[v.ifcount].None?
      && NextStep(w, blockType, body) == StepFailed(w, UnwrittenInterface)
  {
  }

  /** A Simple Packet Block carries no interface id, time stamp or
      captured length: it is reported for interface 0 at time 0, with the
      captured length cut to the snapshot length. */
  lemma SimplePacketCappedBySnapshot(v: View, body: seq<Byte>)
    requires ViewValid(v) && NextStep(v, BT_SPB, body).Emit?
    ensures var r := NextStep(v, BT_SPB, body);
      r.hdr.ifaceId == 0 && r.hdr.len == Field32(body, 0, v.swapped)
      && r.hdr.caplen == Min(r.hdr.len, v.snapshot)
      && r.hdr.caplen <= v.snapshot && r.hdr.caplen <= r.hdr.len
      && (r.hdr.sec, r.hdr.frac) == Timestamp(0, v.ifaces[0].value, v.precision)
  {
  }

  /** The session keeps the link type of its first interface after
      linktype_to_dlt, but a later interface is compared by its raw link
      type. So the very same Interface Description Block met again is
      accepted exactly when linktype_to_dlt leaves its link type alone. */
  lemma RepeatedInterfaceLinktype(v: View, body: seq<Byte>, minor: nat, dlt: nat -> nat)
    requires ViewValid(v) && IdbOpen(v, body, minor, dlt).Opened?
    ensures var w := IdbOpen(v, body, minor, dlt).v;
      var raw := Field16(body, 0, v.swapped);
      (NextStep(w, BT_IDB, body).Skip? <==> dlt(raw) == raw)
      && (dlt(raw) != raw ==> NextStep(w, BT_IDB, body) == StepFailed(w, LinktypeMismatch))
  {
  }

  /** ifaces_size is 0 before the first interface, then 1, then doubles. */
  predicate TableSize(n: nat)
    decreases n
  {
    n == 0 || n == 1 || (n % 2 == 0 && TableSize(n / 2))
  }

  lemma GrownTableSize(n: nat)
    requires TableSize(n)
    ensures TableSize(GrownSize(n)) && GrownSize(n) > n
  {
    if n > 0 {
      assert GrownSize(n) / 2 == n;
    }
  }

  /** One block either leaves the table as large as it was or grows it. */
  lemma StepTableSize(v: View, blockType: nat, body: seq<Byte>)
    requires ViewValid(v)
    ensures var n := |NextStep(v, blockType, body).v.ifaces|;
      n == |v.ifaces| || n == GrownSize(|v.ifaces|)
  {
  }

  /** Across a whole call of pcap_ng_next_packet the interface table never
      shrinks and its size stays 0, 1 or a doubling of that. */
  lemma {:induction false} NextKeepsTableSize(data: seq<Byte>, ioError: bool, pos: nat, v: View)
    requires pos <= |data| && ViewValid(v) && TableSize(|v.ifaces|)
    ensures var r := NextSpec(data, ioError, pos, v);
      TableSize(|r.v.ifaces|) && |v.ifaces| <= |r.v.ifaces|
    decreases |data| - pos
  {
    var t := TurnSpec(data, ioError, pos, v);
    var b := ReadBlockSpec(data, pos, v.swapped, ioError);
    if b.read.Block? {
      StepTableSize(v, b.read.blockType, BlockBody(data, pos, b.read.totalLength));
      GrownTableSize(|v.ifaces|);
    }
    assert TableSize(|t.v.ifaces|) && |v.ifaces| <= |t.v.ifaces|;
    if t.result == Continued {
      NextKeepsTableSize(data, ioError, t.next, t.v);
    }
  }

  /** pcap_ng_check_header says "not this format" (NULL with no error)
      exactly when the first word is not the Section Header Block type, or
      the next two words are cut short by a plain end of file, or the byte
      order magic matches in neither byte order. */
  lemma NotThisFormatCases(magic: nat, data: seq<Byte>, ioError: bool, pos: nat, precision: nat,
                           dlt: nat -> nat)
    requires pos <= |data|
    ensures OpenSpec(magic, data, ioError, pos, precision, dlt).status == NotThisFormat
      <==> magic != BT_SHB
           || (|data| - pos < 8 && !ioError)
           || (pos + 8 <= |data| && Field32(data, pos + 4, false) != BYTE_ORDER_MAGIC
               && Field32(data, pos + 4, true) != BYTE_ORDER_MAGIC)
  {
    if magic == BT_SHB {
      var start := StartSpec(data, ioError, pos);
      if start.Started? {
        match PrecisionOf(precision)
        case None =>
        case Some(p) =>
          assert SessionSpec(data, ioError, pos + 8, start.swapped, start.total, p, dlt).status != NotThisFormat;
      }
    }
  }

  /** The start of pcap_ng_check_header after the SHB type: a stream that
      fails before the next two words is an I/O error; the byte order is
      the one in which the magic reads right, host order first; a block
      shorter than 28 bytes is refused. */
  lemma OpenStartCases(data: seq<Byte>, ioError: bool, pos: nat, precision: nat, dlt: nat -> nat)
    requires pos <= |data|
    ensures |data| - pos < 8 && ioError ==> OpenSpec(BT_SHB, data, ioError, pos, precision, dlt).status == OpenFailed(IoError)
    ensures pos + 8 <= |data| && Field32(data, pos + 4, false) == BYTE_ORDER_MAGIC ==>
      StartSpec(data, ioError, pos) == (
        var total := Field32(data, pos, false);
        if total < SHB_MIN_LENGTH then Stopped(OpenRun(OpenFailed(ShbTooSmall), pos + 8)) else Started(false, total))
    ensures pos + 8 <= |data| && Field32(data, pos + 4, false) != BYTE_ORDER_MAGIC
              && Field32(data, pos + 4, true) == BYTE_ORDER_MAGIC ==>
      StartSpec(data, ioError, pos) == (
        var total := Field32(data, pos, true);
        if total < SHB_MIN_LENGTH then Stopped(OpenRun(OpenFailed(ShbTooSmall), pos + 8)) else Started(true, total))
  {
  }

  /** pcap_ng_check_header once the byte order and the length of the
      Section Header Block are known: an unknown precision, a block cut
      short and a major version other than 1 each make it fail, in that
      order; otherwise it searches for the first Interface Description
      Block. */
  lemma OpenFailureCases(data: seq<Byte>, ioError: bool, pos: nat, precision: nat, dlt: nat -> nat)
    requires pos <= |data|
    ensures StartSpec(data, ioError, pos).Started? ==>
      var (swapped, total) := (StartSpec(data, ioError, pos).swapped, StartSpec(data, ioError, pos).total);
      var r := OpenSpec(BT_SHB, data, ioError, pos, precision, dlt);
      && (PrecisionOf(precision).None? ==> r.status == OpenFailed(UnknownPrecision))
      && (PrecisionOf(precision).Some? && pos + 8 + total - 12 > |data| ==>
            r.status == OpenFailed(ShortReadError(ioError)))
      && (PrecisionOf(precision).Some? && pos + 8 + total - 12 <= |data|
          && Field16(data, pos + 8, swapped) != PCAP_NG_VERSION_MAJOR ==>
            r.status == OpenFailed(UnsupportedVersion))
      && (PrecisionOf(precision).Some? && pos + 8 + total - 12 <= |data|
          && Field16(data, pos + 8, swapped) == PCAP_NG_VERSION_MAJOR ==>
            r == FirstInterfaceSpec(data, ioError, pos + total - 4,
                                    View(swapped, PrecisionOf(precision).value, 0, 0, [], 0),
                                    Field16(data, pos + 10, swapped), dlt))
  {
  }

  /** The interface search of pcap_ng_check_header fails with "no
      Interface Description Blocks" when the file ends cleanly at a block
      boundary, and with "packet block before any Interface Description
      Block" when the next block is a packet block. */
  lemma FirstInterfaceFailures(data: seq<Byte>, ioError: bool, pos: nat, v: View, minor: nat, dlt: nat -> nat)
    requires pos <= |data| && ViewValid(v)
    ensures pos == |data| && !ioError ==>
      FirstInterfaceSpec(data, ioError, pos, v, minor, dlt) == OpenRun(OpenFailed(NoInterfaces), pos)
    ensures ReadBlockSpec(data, pos, v.swapped, ioError).read.Block?
            && ReadBlockSpec(data, pos, v.swapped, ioError).read.blockType in {BT_EPB, BT_SPB, BT_PB} ==>
      FirstInterfaceSpec(data, ioError, pos, v, minor, dlt).status == OpenFailed(PacketBeforeInterface)
  {
  }

  /** The first Section Header Block is read whole, however long it says it
      is: the 16 MiB ceiling of read_block does not apply to it, and a
      version 1 section of any length goes on to the interface search. */
  lemma FirstSectionHasNoCeiling(data: seq<Byte>, ioError: bool, at: nat, swapped: bool, total: nat,
                                 p: Precision, dlt: nat -> nat)
    requires at <= |data| && MAX_BLOCK_SIZE < total && total - 12 <= |data| - at
    requires Field16(data, at, swapped) == PCAP_NG_VERSION_MAJOR
    ensures SessionSpec(data, ioError, at, swapped, total, p, dlt)
      == FirstInterfaceSpec(data, ioError, at + total - 12, View(swapped, p, 0, 0, [], 0),
                            Field16(data, at + 2, swapped), dlt)
  {
  }
}
