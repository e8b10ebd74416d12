/** What the pcap-ng reader does, stated as functions of the file's bytes.

    The file is its byte sequence `data` plus a flag `ioError` that says
    whether a short read reports a stream error (ferror) rather than a plain
    end of file. A position `pos` is the stream position. Every function
    here also returns the position the stream is left at, so the reader's
    methods can be held to these functions step by step. */
module PcapNgBlocks {
  import opened PcapNgFormat
  import opened PcapNgOptions
  import opened PcapNgScale

  /** The three answers of read_bytes: the whole request was read (1), the
      stream ended before its first byte where that is allowed (0), or the
      read failed (-1). */
  datatype ReadStatus = Complete | CleanEnd | ReadFailed(e: Error)

  function ShortReadError(ioError: bool): Error
  {
    if ioError then IoError else Truncated
  }

  /** read_bytes asked for `n` bytes with `avail` bytes left in the stream. */
  function ReadOutcome(avail: nat, n: nat, failOnEof: bool, ioError: bool): (r: ReadStatus)
    ensures r == Complete <==> n <= avail
    ensures r == CleanEnd <==> avail == 0 < n && !failOnEof && !ioError
    ensures r.ReadFailed? <==> avail < n && (avail > 0 || failOnEof || ioError)
  {
    if n <= avail then Complete
    else if ioError then ReadFailed(IoError)
    else if avail == 0 && !failOnEof then CleanEnd
    else ReadFailed(Truncated)
  }

  datatype BlockRead = Block(blockType: nat, totalLength: nat) | EndOfFile | BlockFailed(e: Error)

  /** The outcome of read_block and the stream position after it. */
  datatype BlockStep = BlockStep(read: BlockRead, next: nat)

  /** read_block at `pos`: an 8-byte header (type, total length) in the
      file's byte order, then the rest of the block. */
  function ReadBlockSpec(data: seq<Byte>, pos: nat, swapped: bool, ioError: bool): (r: BlockStep)
    requires pos <= |data|
    ensures pos <= r.next <= |data|
    ensures r.read.Block? ==> 12 <= r.read.totalLength && r.next == pos + r.read.totalLength
    ensures r.read == EndOfFile <==> pos == |data| && !ioError
    ensures r.read.BlockFailed? ==> r.read.e in {IoError, Truncated, BlockTooLarge, BlockTooSmall}
  {
    match ReadOutcome(|data| - pos, BLOCK_HEADER_SIZE, false, ioError)
    case CleanEnd => BlockStep(EndOfFile, pos)
    case ReadFailed(e) => BlockStep(BlockFailed(e), |data|)
    case Complete =>
      BodyStep(data, pos + BLOCK_HEADER_SIZE, ioError, Field32(data, pos, swapped), Field32(data, pos + 4, swapped))
  }

  /** The second half of read_block, from position `at` just after a
      header announcing `total` bytes: the length check, then the rest of
      the block, which must be there in full. */
  function BodyStep(data: seq<Byte>, at: nat, ioError: bool, blockType: nat, total: nat): (r: BlockStep)
    requires at <= |data|
    ensures at <= r.next <= |data|
    ensures r.read.Block? ==> r.read == Block(blockType, total) && 12 <= total && r.next + 8 == at + total
  {
    if total > MAX_BLOCK_SIZE then BlockStep(BlockFailed(BlockTooLarge), at)
    else if total < BLOCK_HEADER_SIZE + BLOCK_TRAILER_SIZE then BlockStep(BlockFailed(BlockTooSmall), at)
    else if ReadOutcome(|data| - at, total - BLOCK_HEADER_SIZE, true, ioError) == Complete then
      BlockStep(Block(blockType, total), at + total - BLOCK_HEADER_SIZE)
    else BlockStep(BlockFailed(ShortReadError(ioError)), |data|)
  }

  /** The bytes a successful read_block leaves in the cursor: everything
      between the header and the trailer. */
  function BlockBody(data: seq<Byte>, pos: nat, total: nat): (r: seq<Byte>)
    requires 12 <= total && pos + total <= |data|
    ensures |r| == total - 12
  {
    data[pos + BLOCK_HEADER_SIZE .. pos + total - BLOCK_TRAILER_SIZE]
  }

  /** The stream ends cleanly only at a block boundary with nothing left;
      a block is accepted only with its length in [12, 16 MiB] and all its
      bytes present; any other shortfall is an error. */
  lemma ReadBlockOutcomes(data: seq<Byte>, pos: nat, swapped: bool, ioError: bool)
    requires pos <= |data|
    ensures var r := ReadBlockSpec(data, pos, swapped, ioError);
      && (r.read == EndOfFile <==> pos == |data| && !ioError)
      && (r.read == EndOfFile ==> r.next == pos)
      && (r.read.Block? <==>
            pos + 8 <= |data|
            && 12 <= Field32(data, pos + 4, swapped) <= MAX_BLOCK_SIZE
            && pos + Field32(data, pos + 4, swapped) <= |data|)
      && (r.read.Block? ==>
            r.read.blockType == Field32(data, pos, swapped)
            && r.read.totalLength == Field32(data, pos + 4, swapped)
            && r.next == pos + r.read.totalLength)
      && (0 < |data| - pos < 8 ==> r.read == BlockFailed(ShortReadError(ioError)))
  {
  }

  /** The session state the block loop reads and writes. `ifaces` is the
      whole interface table as allocated, `ifcount` how many entries of it
      describe the current section. A slot is None until add_interface
      writes it: malloc and realloc leave new slots uninitialised. */
  datatype View = View(swapped: bool, precision: Precision, snapshot: nat, linktype: nat,
                       ifaces: seq<Option<Iface>>, ifcount: nat)

  predicate ViewValid(v: View)
  {
    v.ifcount <= |v.ifaces|
    && forall i | 0 <= i < |v.ifaces| :: v.ifaces[i].Some? ==> IfaceValid(v.ifaces[i].value, v.precision)
  }

  /** The size the table is grown to: one entry first, then doubling. */
  function GrownSize(size: nat): (r: nat)
    ensures r > size
  {
    if size == 0 then 1 else 2 * size
  }

  /** The interface table once `count` entries are needed: grown when it
      is too small, the old entries kept and the new slots unwritten. */
  function TableFor(ifaces: seq<Option<Iface>>, count: nat): (r: seq<Option<Iface>>)
    ensures |r| == if count > |ifaces| then GrownSize(|ifaces|) else |ifaces|
    ensures r[..|ifaces|] == ifaces
    ensures forall i | |ifaces| <= i < |r| :: r[i].None?
  {
    if count > |ifaces| then ifaces + seq(GrownSize(|ifaces|) - |ifaces|, _ => None)
    else ifaces
  }

  /** add_interface on the option bytes that follow the fixed IDB fields:
      the count goes up first, the table grows when it is full, and the new
      entry is written only when the options are valid. */
  function AddInterfaceSpec(v: View, opts: seq<Byte>): (r: (View, Option<Error>))
    requires ViewValid(v)
    ensures ViewValid(r.0)
    ensures r.0 == v.(ifcount := v.ifcount + 1, ifaces := r.0.ifaces)
    ensures |r.0.ifaces| == if v.ifcount < |v.ifaces| then |v.ifaces| else GrownSize(|v.ifaces|)
    ensures forall i | 0 <= i < |v.ifaces| && i != v.ifcount :: r.0.ifaces[i] == v.ifaces[i]
    ensures r.1.None? <==> ScanOptions(opts, v.swapped, DEFAULT_OPTIONS).OptOk?
    ensures r.1.Some? ==> r.1.value == ScanOptions(opts, v.swapped, DEFAULT_OPTIONS).e
    ensures r.1.Some? ==>
      v.ifcount < |r.0.ifaces|
      && r.0.ifaces[v.ifcount] == (if v.ifcount < |v.ifaces| then v.ifaces[v.ifcount] else None)
    ensures r.1.None? ==> var st := ScanOptions(opts, v.swapped, DEFAULT_OPTIONS).st;
      r.0.ifaces[v.ifcount] == Some(Iface(st.tsresol, st.tsoffset, ScaleFor(st.tsresol, v.precision)))
  {
    var count := v.ifcount + 1;
    var table := TableFor(v.ifaces, count);
    match ScanOptions(opts, v.swapped, DEFAULT_OPTIONS)
    case OptErr(e) => (v.(ifcount := count, ifaces := table), Some(e))
    case OptOk(st) =>
      var entry := Iface(st.tsresol, st.tsoffset, ScaleFor(st.tsresol, v.precision));
      (v.(ifcount := count, ifaces := table[v.ifcount := Some(entry)]), None)
  }

  /** The header handed to the caller with a packet. */
  datatype PacketHeader = PacketHeader(ifaceId: nat, sec: nat, frac: nat, caplen: nat, len: nat)

  /** What one block does to the loop of pcap_ng_next_packet: it is
      consumed and the loop goes on, or it yields a packet whose data starts
      `dataAt` bytes into the block body, or it ends the call with an error.
      Each case carries the session state after the block. */
  datatype Step =
    | Skip(v: View)
    | Emit(v: View, hdr: PacketHeader, dataAt: nat)
    | StepFailed(v: View, e: Error)

  /** The `found:` part of pcap_ng_next_packet: the interface must exist,
      the time stamp is split and converted, and `caplen` bytes must follow
      the fixed fields. An interface that was counted but whose slot was
      never written (its options were refused when the table grew) has no
      defined entry: the reader divides by an indeterminate resolution,
      and the model stops there with UnwrittenInterface. */
  function EmitSpec(v: View, id: nat, t: nat, caplen: nat, len: nat, body: seq<Byte>, at: nat): (r: Step)
    requires ViewValid(v) && at <= |body|
    ensures r.v == v
    ensures r.Emit? <==> id < v.ifcount && v.ifaces[id].Some? && caplen <= |body| - at
    ensures r.Emit? ==> r.hdr.ifaceId == id && r.hdr.caplen == caplen && r.hdr.len == len
    ensures r.Emit? ==> r.dataAt == at
    ensures r.Emit? ==> (r.hdr.sec, r.hdr.frac) == Timestamp(t, v.ifaces[id].value, v.precision)
    ensures r.StepFailed? ==> r.e == (if id >= v.ifcount then NoSuchInterface
                                      else if v.ifaces[id].None? then UnwrittenInterface
                                      else BlockTooShort)
  {
    if id >= v.ifcount then StepFailed(v, NoSuchInterface)
    else match v.ifaces[id]
      case None => StepFailed(v, UnwrittenInterface)
      case Some(iface) =>
        var (sec, frac) := Timestamp(t, iface, v.precision);
        if caplen > |body| - at then StepFailed(v, BlockTooShort)
        else Emit(v, PacketHeader(id, sec, frac, caplen, len), at)
  }

  /** The 64-bit time stamp of an EPB or PB: high word, then low word. */
  function Timestamp64(body: seq<Byte>, at: nat, swapped: bool): (r: nat)
    requires at + 8 <= |body|
    ensures r < TWO_64
  {
    Field32(body, at, swapped) * TWO_32 + Field32(body, at + 4, swapped)
  }

  /** One pass of the block switch in pcap_ng_next_packet, given the block
      type and the body bytes the cursor covers. */
  function NextStep(v: View, blockType: nat, body: seq<Byte>): (r: Step)
    requires ViewValid(v)
    ensures ViewValid(r.v)
    ensures r.v == v.(ifcount := r.v.ifcount, ifaces := r.v.ifaces)
    ensures r.Emit? ==> r.v == v && r.dataAt + r.hdr.caplen <= |body|
    ensures r.Emit? ==> r.hdr.ifaceId < v.ifcount && r.hdr.frac < Ticks(v.precision)
  {
    var s := v.swapped;
    if blockType == BT_EPB then
      if |body| < EPB_SIZE then StepFailed(v, BlockTooShort)
      else EmitSpec(v, Field32(body, 0, s), Timestamp64(body, 4, s),
                    Field32(body, 12, s), Field32(body, 16, s), body, EPB_SIZE)
    else if blockType == BT_SPB then
      if |body| < SPB_SIZE then StepFailed(v, BlockTooShort)
      else
        var len := Field32(body, 0, s);
        EmitSpec(v, 0, 0, Min(len, v.snapshot), len, body, SPB_SIZE)
    else if blockType == BT_PB then
      if |body| < PB_SIZE then StepFailed(v, BlockTooShort)
      else EmitSpec(v, Field16(body, 0, s), Timestamp64(body, 4, s),
                    Field32(body, 12, s), Field32(body, 16, s), body, PB_SIZE)
    else if blockType == BT_IDB then
      if |body| < IDB_SIZE then StepFailed(v, BlockTooShort)
      else if v.linktype != Field16(body, 0, s) then StepFailed(v, LinktypeMismatch)
      else if v.snapshot != Field32(body, 4, s) then StepFailed(v, SnaplenMismatch)
      else
        var (v', err) := AddInterfaceSpec(v, body[IDB_SIZE..]);
        if err.Some? then StepFailed(v', err.value) else Skip(v')
    else if blockType == BT_SHB then
      if |body| < SHB_SIZE then StepFailed(v, BlockTooShort)
      else
        var magic := Field32(body, 0, s);
        if magic == SWAPPED_BYTE_ORDER_MAGIC then StepFailed(v, DifferentByteOrders)
        else if magic != BYTE_ORDER_MAGIC then StepFailed(v, BadByteOrderMagic)
        else if Field16(body, 4, s) != PCAP_NG_VERSION_MAJOR then StepFailed(v, UnsupportedVersion)
        else Skip(v.(ifcount := 0))
    else Skip(v)
  }

  /** What a call of pcap_ng_next_packet ends with; `Continued` marks a
      block that was consumed without ending the call. */
  datatype NextResult =
    | Packet(hdr: PacketHeader, payload: seq<Byte>)
    | EndOfCapture
    | NextFailed(e: Error)
    | Continued

  /** The result of one call of pcap_ng_next_packet, the session state and
      the stream position after it. */
  datatype NextRun = NextRun(result: NextResult, v: View, next: nat)

  /** One turn of the block loop of pcap_ng_next_packet: read a block and
      handle it. `result` is None when the loop goes on. */
  function TurnSpec(data: seq<Byte>, ioError: bool, pos: nat, v: View): (r: NextRun)
    requires pos <= |data| && ViewValid(v)
    ensures ViewValid(r.v) && pos <= r.next <= |data|
    ensures r.v == v.(ifcount := r.v.ifcount, ifaces := r.v.ifaces)
    ensures r.result == EndOfCapture ==> r.next == |data| && !ioError && r.v == v
    ensures r.result == EndOfCapture ==> r.next == pos
    ensures r.result == Continued ==> pos < r.next
    ensures r.result.Packet? ==> |r.result.payload| == r.result.hdr.caplen && r.v == v
    ensures r.result.Packet? ==> r.result.hdr.ifaceId < v.ifcount && r.result.hdr.frac < Ticks(v.precision)
  {
    var b := ReadBlockSpec(data, pos, v.swapped, ioError);
    match b.read
    case EndOfFile => NextRun(EndOfCapture, v, b.next)
    case BlockFailed(e) => NextRun(NextFailed(e), v, b.next)
    case Block(blockType, total) =>
      var body := BlockBody(data, pos, total);
      var s := NextStep(v, blockType, body);
      NextRun(StepResult(s, body), s.v, b.next)
  }

  /** What a handled block means for the call: go on, deliver the packet
      data of the block body, or fail. */
  function StepResult(s: Step, body: seq<Byte>): (r: NextResult)
    requires s.Emit? ==> s.dataAt + s.hdr.caplen <= |body|
    ensures r == Continued <==> s.Skip?
    ensures r.Packet? <==> s.Emit?
    ensures r.Packet? ==> r.hdr == s.hdr && |r.payload| == r.hdr.caplen
  {
    match s
    case Skip(_) => Continued
    case Emit(_, hdr, at) => Packet(hdr, body[at .. at + hdr.caplen])
    case StepFailed(_, e) => NextFailed(e)
  }

  /** pcap_ng_next_packet from stream position `pos`: blocks are read and
      handled until one yields a packet, the stream ends or an error
      occurs. */
  function NextSpec(data: seq<Byte>, ioError: bool, pos: nat, v: View): (r: NextRun)
    requires pos <= |data| && ViewValid(v)
    ensures ViewValid(r.v) && pos <= r.next <= |data| && r.result != Continued
    ensures r.v == v.(ifcount := r.v.ifcount, ifaces := r.v.ifaces)
    ensures r.result == EndOfCapture ==> r.next == |data| && !ioError
    ensures r.result.Packet? ==> |r.result.payload| == r.result.hdr.caplen
    ensures r.result.Packet? ==> r.result.hdr.ifaceId < r.v.ifcount && r.result.hdr.frac < Ticks(v.precision)
    decreases |data| - pos
  {
    var t := TurnSpec(data, ioError, pos, v);
    if t.result == Continued then NextSpec(data, ioError, t.next, t.v) else t
  }

  /** The answer of pcap_ng_check_header: not a pcap-ng file (NULL with
      *err == 0), a pcap-ng file that cannot be read (NULL with *err == 1),
      or an open session with its state and minor version. */
  datatype OpenStatus = NotThisFormat | OpenFailed(e: Error) | Opened(v: View, versionMinor: nat)

  datatype OpenRun = OpenRun(status: OpenStatus, next: nat)

  const SHB_MIN_LENGTH: nat := BLOCK_HEADER_SIZE + SHB_SIZE + BLOCK_TRAILER_SIZE

  /** The first Interface Description Block of pcap_ng_check_header: the
      interface is added, then its link type (mapped through `dlt`) and
      snapshot length become the session's. */
  function IdbOpen(v: View, body: seq<Byte>, minor: nat, dlt: nat -> nat): (r: OpenStatus)
    requires ViewValid(v)
    ensures r != NotThisFormat
    ensures r.Opened? ==> r.versionMinor == minor && ViewValid(r.v) && r.v.ifcount == v.ifcount + 1
    ensures r.Opened? ==> r.v.swapped == v.swapped && r.v.precision == v.precision
    ensures r.Opened? ==> |body| >= IDB_SIZE
    ensures r.Opened? ==> r.v.linktype == dlt(Field16(body, 0, v.swapped))
    ensures r.Opened? ==> r.v.snapshot == Field32(body, 4, v.swapped)
  {
    if |body| < IDB_SIZE then OpenFailed(BlockTooShort)
    else
      var (v', err) := AddInterfaceSpec(v, body[IDB_SIZE..]);
      if err.Some? then OpenFailed(err.value)
      else
        var linktype := dlt(Field16(body, 0, v.swapped));
        var snaplen := Field32(body, 4, v.swapped);
        Opened(v'.(snapshot := snaplen, linktype := linktype), minor)
  }

  /** The block read at `at` and ending at `next` is an Interface
      Description Block, and `w` has the link type (through `dlt`) and the
      snapshot length it carries. */
  predicate OpenedAt(data: seq<Byte>, ioError: bool, at: nat, next: nat, w: View, dlt: nat -> nat)
  {
    at + BLOCK_HEADER_SIZE + IDB_SIZE <= next <= |data|
    && ReadBlockSpec(data, at, w.swapped, ioError) == BlockStep(Block(BT_IDB, next - at), next)
    && w.linktype == dlt(Field16(data, at + BLOCK_HEADER_SIZE, w.swapped))
    && w.snapshot == Field32(data, at + BLOCK_HEADER_SIZE + 4, w.swapped)
  }

  /** One turn of the block loop of pcap_ng_check_header; `status` is
      None when the loop goes on. */
  function FirstTurn(data: seq<Byte>, ioError: bool, pos: nat, v: View, minor: nat,
                     dlt: nat -> nat): (r: (Option<OpenStatus>, nat))
    requires pos <= |data| && ViewValid(v)
    ensures pos <= r.1 <= |data|
    ensures r.0.None? ==> pos < r.1
    ensures r.0.Some? ==> r.0.value != NotThisFormat
    ensures r.0.Some? && r.0.value.Opened? ==> r.0.value.versionMinor == minor
    ensures r.0.Some? && r.0.value.Opened? ==> ViewValid(r.0.value.v) && r.0.value.v.ifcount == v.ifcount + 1
    ensures r.0.Some? && r.0.value.Opened? ==> r.0.value.v.swapped == v.swapped && r.0.value.v.precision == v.precision
    ensures r.0.Some? && r.0.value.Opened? ==> OpenedAt(data, ioError, pos, r.1, r.0.value.v, dlt)
    ensures var b := ReadBlockSpec(data, pos, v.swapped, ioError);
      && (r.0 == Some(OpenFailed(NoInterfaces)) <==> b.read == EndOfFile)
      && (r.0 == Some(OpenFailed(PacketBeforeInterface)) <==>
            b.read.Block? && b.read.blockType in {BT_EPB, BT_SPB, BT_PB})
      && (r.0.None? <==> b.read.Block? && b.read.blockType !in {BT_IDB, BT_EPB, BT_SPB, BT_PB})
  {
    var b := ReadBlockSpec(data, pos, v.swapped, ioError);
    match b.read
    case EndOfFile => (Some(OpenFailed(NoInterfaces)), b.next)
    case BlockFailed(e) => (Some(OpenFailed(e)), b.next)
    case Block(blockType, total) =>
      var body := BlockBody(data, pos, total);
      if blockType == BT_IDB then (Some(IdbOpen(v, body, minor, dlt)), b.next)
      else if blockType == BT_EPB || blockType == BT_SPB || blockType == BT_PB then
        (Some(OpenFailed(PacketBeforeInterface)), b.next)
      else (None, b.next)
  }

  /** The open path after the first Section Header Block: blocks are read
      until the first Interface Description Block, which fixes the link
      type and snapshot length of the session. */
  function FirstInterfaceSpec(data: seq<Byte>, ioError: bool, pos: nat, v: View, minor: nat,
                              dlt: nat -> nat): (r: OpenRun)
    requires pos <= |data| && ViewValid(v)
    ensures pos <= r.next <= |data| && r.status != NotThisFormat
    ensures r.status.Opened? ==> r.status.versionMinor == minor
    ensures r.status.Opened? ==> ViewValid(r.status.v) && r.status.v.ifcount == v.ifcount + 1
    ensures r.status.Opened? ==> r.status.v.swapped == v.swapped && r.status.v.precision == v.precision
    ensures r.status.Opened? ==> exists at :: pos <= at && OpenedAt(data, ioError, at, r.next, r.status.v, dlt)
    ensures r.status == OpenFailed(NoInterfaces) ==> r.next == |data| && !ioError
    decreases |data| - pos
  {
    var (status, next) := FirstTurn(data, ioError, pos, v, minor, dlt);
    if status.None? then FirstInterfaceSpec(data, ioError, next, v, minor, dlt)
    else OpenRun(status.value, next)
  }

  /** The precision a caller's code selects, if it is one of the two known. */
  function PrecisionOf(code: nat): (r: Option<Precision>)
    ensures r == Some(Micro) <==> code == PRECISION_MICRO
    ensures r == Some(Nano) <==> code == PRECISION_NANO
    ensures r.None? <==> code !in {PRECISION_MICRO, PRECISION_NANO}
  {
    if code == PRECISION_MICRO then Some(Micro)
    else if code == PRECISION_NANO then Some(Nano)
    else None
  }

  /** How the first two words of a Section Header Block end: the open
      stops there, or it goes on with the byte order and total length. */
  datatype Start = Stopped(run: OpenRun) | Started(swapped: bool, total: nat)

  /** The start of pcap_ng_check_header after the block type: the total
      length and the byte-order magic, each read as a 32-bit word. A file
      too short for them is not pcap-ng unless the stream failed; a magic
      that matches in neither byte order means it is not pcap-ng. */
  function StartSpec(data: seq<Byte>, ioError: bool, pos: nat): (r: Start)
    requires pos <= |data|
    ensures r.Stopped? ==> pos <= r.run.next <= |data| && r.run.status != NotThisFormat ==> r.run.status.OpenFailed?
    ensures r.Stopped? && r.run.status == OpenFailed(IoError) ==> ioError
    ensures r.Started? ==> pos + 8 <= |data| && SHB_MIN_LENGTH <= r.total < TWO_32
    ensures r.Started? ==> Field32(data, pos + 4, r.swapped) == BYTE_ORDER_MAGIC
    ensures r.Started? ==> r.total == Field32(data, pos, r.swapped)
  {
    if |data| - pos < 8 then Stopped(OpenRun(if ioError then OpenFailed(IoError) else NotThisFormat, |data|))
    else
      var swapped := Field32(data, pos + 4, false) != BYTE_ORDER_MAGIC;
      if swapped && Field32(data, pos + 4, true) != BYTE_ORDER_MAGIC then Stopped(OpenRun(NotThisFormat, pos + 8))
      else
        var total := Field32(data, pos, swapped);
        if total < SHB_MIN_LENGTH then Stopped(OpenRun(OpenFailed(ShbTooSmall), pos + 8))
        else Started(swapped, total)
  }

  /** pcap_ng_check_header: `magic` is the first 32-bit word of the file,
      already read by the caller, and `pos` is the position after it. */
  function OpenSpec(magic: nat, data: seq<Byte>, ioError: bool, pos: nat, precision: nat,
                    dlt: nat -> nat): (r: OpenRun)
    requires pos <= |data|
    ensures pos <= r.next <= |data|
    ensures magic != BT_SHB ==> r == OpenRun(NotThisFormat, pos)
    ensures r.status.Opened? ==> ViewValid(r.status.v) && r.status.v.ifcount == 1
    ensures r.status.Opened? ==> Some(r.status.v.precision) == PrecisionOf(precision)
    ensures r.status.Opened? ==> exists idb :: pos <= idb && OpenedAt(data, ioError, idb, r.next, r.status.v, dlt)
  {
    if magic != BT_SHB then OpenRun(NotThisFormat, pos)
    else match StartSpec(data, ioError, pos)
      case Stopped(run) => run
      case Started(swapped, total) =>
        match PrecisionOf(precision)
        case None => OpenRun(OpenFailed(UnknownPrecision), pos + 8)
        case Some(p) => SessionSpec(data, ioError, pos + 8, swapped, total, p, dlt)
  }

  /** The open path once the byte order, the total length of the first
      Section Header Block and the precision are known; `at` is the
      position after the block's first 12 bytes. The rest of the block is
      read, its major version must be 1, and then blocks are read up to
      the first Interface Description Block. */
  function SessionSpec(data: seq<Byte>, ioError: bool, at: nat, swapped: bool, total: nat,
                       p: Precision, dlt: nat -> nat): (r: OpenRun)
    requires at <= |data| && SHB_MIN_LENGTH <= total
    ensures at <= r.next <= |data| && r.status != NotThisFormat
    ensures r.status.Opened? ==> ViewValid(r.status.v) && r.status.v.ifcount == 1
    ensures r.status.Opened? ==> r.status.v.precision == p && r.status.v.swapped == swapped
    ensures r.status.Opened? ==> exists idb :: at <= idb && OpenedAt(data, ioError, idb, r.next, r.status.v, dlt)
  {
    if total - 12 > |data| - at then OpenRun(OpenFailed(ShortReadError(ioError)), |data|)
    else if Field16(data, at, swapped) != PCAP_NG_VERSION_MAJOR then
      OpenRun(OpenFailed(UnsupportedVersion), at + total - 12)
    else
      FirstInterfaceSpec(data, ioError, at + total - 12, View(swapped, p, 0, 0, [], 0),
                         Field16(data, at + 2, swapped), dlt)
  }
}
