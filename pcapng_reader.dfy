/** The pcap-ng reader as it runs: a stream object, and a session object
    that owns the block buffer and the interface table and updates them in
    place. Each method is held to the function of PcapNgBlocks or
    PcapNgOptions that states what it computes. */
module PcapNgReader {
  import opened PcapNgFormat
  import opened PcapNgOptions
  import opened PcapNgScale
  import opened PcapNgBlocks

  /** The FILE the session reads: its bytes, whether a short read reports a
      stream error, and the current position. */
  class CaptureFile {
    const data: seq<Byte>
    const ioError: bool
    var pos: nat

    predicate Valid()
      reads this
    {
      pos <= |data|
    }

    constructor (data: seq<Byte>, ioError: bool)
      ensures Valid() && this.data == data && this.ioError == ioError && pos == 0
    {
      this.data := data;
      this.ioError := ioError;
      pos := 0;
    }

    /** fread into buf[at..]: copies as many of the `n` requested bytes as
        the stream still has and advances past them. */
    method Read(buf: array<Byte>, at: nat, n: nat) returns (got: nat)
      requires Valid() && at + n <= buf.Length
      modifies this, buf
      ensures Valid() && got == Min(n, |data| - old(pos)) && pos == old(pos) + got
      ensures buf[at .. at + got] == data[old(pos) .. pos]
      ensures buf[..at] == old(buf[..at]) && buf[at + got ..] == old(buf[at + got ..])
    {
      got := Min(n, |data| - pos);
      var i := 0;
      while i < got
        modifies buf
        invariant 0 <= i <= got
        invariant buf[at .. at + i] == data[pos .. pos + i]
        invariant buf[..at] == old(buf[..at]) && buf[at + i ..] == old(buf[at + i ..])
      {
        buf[at + i] := data[pos + i];
        assert buf[at + i + 1 ..] == old(buf[at + i + 1 ..]) by {
          assert buf[at + i + 1 ..] == buf[at + i ..][1..];
        }
        i := i + 1;
      }
      pos := pos + got;
    }
  }

  /** read_bytes: a read of exactly `n` bytes into buf[at..]. */
  method ReadBytes(f: CaptureFile, buf: array<Byte>, at: nat, n: nat, failOnEof: bool)
    returns (st: ReadStatus)
    requires f.Valid() && at + n <= buf.Length
    modifies f, buf
    ensures f.Valid() && st == ReadOutcome(|f.data| - old(f.pos), n, failOnEof, f.ioError)
    ensures f.pos == old(f.pos) + Min(n, |f.data| - old(f.pos))
    ensures buf[at .. at + (f.pos - old(f.pos))] == f.data[old(f.pos) .. f.pos]
    ensures buf[..at] == old(buf[..at])
    ensures buf[at + (f.pos - old(f.pos)) ..] == old(buf[at + Min(n, |f.data| - f.pos) ..])
  {
    var got := f.Read(buf, at, n);
    if got != n {
      if f.ioError {
        return ReadFailed(IoError);
      }
      if got == 0 && !failOnEof {
        return CleanEnd;
      }
      return ReadFailed(Truncated);
    }
    return Complete;
  }

  /** Stores `x` in host byte order at buf[at..at + 4]. */
  method StoreWord(buf: array<Byte>, at: nat, x: nat)
    requires at + 4 <= buf.Length && x < TWO_32
    modifies buf
    ensures buf[at .. at + 4] == HostBytes32(x)
    ensures buf[..at] == old(buf[..at]) && buf[at + 4 ..] == old(buf[at + 4 ..])
  {
    var w := HostBytes32(x);
    buf[at] := w[0];
    buf[at + 1] := w[1];
    buf[at + 2] := w[2];
    buf[at + 3] := w[3];
  }

  /** The block header stored in host byte order at the front of `buf`,
      then the other `total - 8` bytes of the block read after it. */
  method FillBlock(f: CaptureFile, buf: array<Byte>, blockType: nat, total: nat) returns (st: ReadStatus)
    requires f.Valid() && BLOCK_HEADER_SIZE + BLOCK_TRAILER_SIZE <= total <= buf.Length
    requires blockType < TWO_32 && total < TWO_32
    modifies f, buf
    ensures f.Valid() && st == ReadOutcome(|f.data| - old(f.pos), total - 8, true, f.ioError)
    ensures f.pos == old(f.pos) + Min(total - 8, |f.data| - old(f.pos))
    ensures st == Complete ==> buf[8 .. total - 4] == f.data[old(f.pos) .. old(f.pos) + total - 12]
    ensures buf[..8] == HostBytes32(blockType) + HostBytes32(total)
  {
    StoreWord(buf, 0, blockType);
    StoreWord(buf, 4, total);
    assert buf[..8] == buf[0..4] + buf[4..8];
    ghost var head := buf[..8];
    ghost var start := f.pos;
    st := ReadBytes(f, buf, BLOCK_HEADER_SIZE, total - BLOCK_HEADER_SIZE, true);
    assert buf[..8] == head;
    if st == Complete {
      assert f.pos == start + total - 8;
      ghost var full := buf[8 .. total];
      assert full == f.data[start .. start + total - 8];
      assert buf[8 .. total - 4] == full[..total - 12];
      PrefixOfSlice(f.data, start, start + total - 8, total - 12);
    }
  }

  /** The first n bytes of s[lo..hi] are s[lo..lo + n]. */
  lemma PrefixOfSlice(s: seq<Byte>, lo: nat, hi: nat, n: nat)
    requires lo + n <= hi <= |s|
    ensures s[lo .. hi][..n] == s[lo .. lo + n]
  {
  }

  /** Stores the 12 bytes of a Section Header Block already read (block
      type, total length and the byte-order magic, all in host order) at
      the front of `buf` and reads the other `total - 12` bytes after them;
      returns the version fields read back from the buffer. */
  method ReadShbRest(f: CaptureFile, buf: array<Byte>, magic: nat, total: nat, swapped: bool)
    returns (st: ReadStatus, major: nat, minor: nat)
    requires f.Valid() && SHB_MIN_LENGTH <= total <= buf.Length && total < TWO_32 && magic < TWO_32
    modifies f, buf
    ensures f.Valid() && st == ReadOutcome(|f.data| - old(f.pos), total - 12, true, f.ioError)
    ensures f.pos == old(f.pos) + Min(total - 12, |f.data| - old(f.pos))
    ensures st == Complete ==> major == Field16(f.data, old(f.pos), swapped)
    ensures st == Complete ==> minor == Field16(f.data, old(f.pos) + 2, swapped)
  {
    StoreWord(buf, 0, magic);
    StoreWord(buf, 4, total);
    StoreWord(buf, 8, BYTE_ORDER_MAGIC);
    ghost var start := f.pos;
    st := ReadBytes(f, buf, 12, total - 12, true);
    major, minor := 0, 0;
    if st == Complete {
      ghost var n := total - 12;
      assert f.pos == start + n;
      ghost var shb := f.data[start .. start + n];
      var copy := buf[..];
      assert copy[12 .. 12 + n] == shb;
      FieldsOfSlice(copy, 12, shb, 0, swapped);
      FieldsOfSlice(copy, 12, shb, 2, swapped);
      FieldsOfSlice(f.data, start, shb, 0, swapped);
      FieldsOfSlice(f.data, start, shb, 2, swapped);
      major := Field16(copy, 12, swapped);
      minor := Field16(copy, 14, swapped);
    }
  }

  /** A field of the stream read through a local copy of its bytes. */
  lemma CopiedFields(data: seq<Byte>, pos: nat, copy: seq<Byte>, swapped: bool)
    requires pos + |copy| <= |data| && data[pos .. pos + |copy|] == copy
    ensures |copy| >= 8 ==> Field32(copy, 0, swapped) == Field32(data, pos, swapped)
    ensures |copy| >= 8 ==> Field32(copy, 4, swapped) == Field32(data, pos + 4, swapped)
    ensures |copy| >= 4 ==> Field32(copy, 0, swapped) == Field32(data, pos, swapped)
  {
    if |copy| >= 8 {
      FieldsOfSlice(data, pos, copy, 4, swapped);
    }
    if |copy| >= 4 {
      FieldsOfSlice(data, pos, copy, 0, swapped);
    }
  }

  /** What handling one block tells the block loop. */
  datatype Outcome = Continue | Deliver(hdr: PacketHeader, dataAt: nat) | Stop(e: Error) | EndReached

  /** The return value of pcap_ng_next_packet for an outcome. */
  function ReturnCode(o: Outcome): (r: int)
    ensures r == 0 <==> o.Deliver?
    ensures r == 1 <==> o == EndReached
    ensures r == -1 <==> o.Stop? || o == Continue
  {
    match o
    case Deliver(_, _) => 0
    case EndReached => 1
    case _ => -1
  }

  /** `o` is what the reader reports for block step `s`, whose body starts
      at `base` in the buffer. */
  predicate StepReported(o: Outcome, s: Step, base: nat)
  {
    match s
    case Skip(_) => o == Continue
    case Emit(_, hdr, at) => o == Deliver(hdr, base + at)
    case StepFailed(_, e) => o == Stop(e)
  }

  /** `o` is what pcap_ng_next_packet reports for `result`, with the
      packet data read from `buf`. */
  predicate Reported(o: Outcome, result: NextResult, buf: seq<Byte>)
  {
    match result
    case EndOfCapture => o == EndReached
    case NextFailed(e) => o == Stop(e)
    case Continued => o == Continue
    case Packet(hdr, payload) =>
      o.Deliver? && o.hdr == hdr && o.dataAt + hdr.caplen <= |buf|
      && buf[o.dataAt .. o.dataAt + hdr.caplen] == payload
  }

  /** A step reported for a body stored at `base` in `buf` is the result
      that step means for the call. */
  lemma StepResultReported(o: Outcome, s: Step, body: seq<Byte>, buf: seq<Byte>, base: nat)
    requires StepReported(o, s, base) && base + |body| <= |buf| && buf[base .. base + |body|] == body
    requires s.Emit? ==> s.dataAt + s.hdr.caplen <= |body|
    ensures Reported(o, StepResult(s, body), buf)
  {
    if s.Emit? {
      var at := s.dataAt;
      var n := s.hdr.caplen;
      assert forall k | at <= k < at + n :: buf[base + k] == body[k];
      assert buf[base + at .. base + at + n] == body[at .. at + n];
    }
  }

  class Session {
    const file: CaptureFile
    const swapped: bool
    const precision: Precision
    const userTsresol: nat
    var versionMajor: nat
    var versionMinor: nat
    var snapshot: nat
    var linktype: nat
    var buffer: array<Byte>
    var bufsize: nat
    var ifaces: array<Option<Iface>>
    var ifcount: nat
    var ifacesSize: nat

    /** The buffer holds at least the size recorded for it (that size is
        never updated after a reallocation, so it may lag behind), and
        every slot of the interface table that has been written is an
        entry the reader can convert time stamps with. */
    predicate Valid()
      reads this, file, ifaces
    {
      file.Valid() && userTsresol == Ticks(precision)
      && 2048 <= bufsize <= buffer.Length
      && ifaces.Length == ifacesSize && ViewValid(State())
    }

    /** The part of the session the block loop reads and writes. */
    function State(): (v: View)
      reads this, ifaces
    {
      View(swapped, precision, snapshot, linktype, ifaces[..], ifcount)
    }

    /** The bytes a cursor still covers. */
    function Bytes(c: Cursor): (r: seq<Byte>)
      requires c.offset + c.remaining <= buffer.Length
      reads this, buffer
      ensures |r| == c.remaining
    {
      buffer[c.offset .. c.offset + c.remaining]
    }

    /** pcap_open_offline_common plus the set-up of pcap_ng_check_header:
        a buffer of `bufsize` bytes and an empty interface table. */
    constructor (file: CaptureFile, swapped: bool, precision: Precision, bufsize: nat)
      requires file.Valid() && 2048 <= bufsize
      ensures Valid() && fresh(buffer) && fresh(ifaces)
      ensures this.file == file && this.swapped == swapped && this.precision == precision
      ensures this.bufsize == bufsize && buffer.Length == bufsize
      ensures State() == View(swapped, precision, 0, 0, [], 0)
      ensures versionMajor == 0 && versionMinor == 0
    {
      this.file := file;
      this.swapped := swapped;
      this.precision := precision;
      this.userTsresol := Ticks(precision);
      versionMajor := 0;
      versionMinor := 0;
      snapshot := 0;
      linktype := 0;
      this.bufsize := bufsize;
      buffer := new Byte[bufsize](_ => 0);
      ifaces := new Option<Iface>[0];
      ifcount := 0;
      ifacesSize := 0;
    }

    /** The second half of read_block: the length checks, room for the
        block (a buffer of exactly its size when the recorded size is too
        small), its header stored in host byte order, and the rest of the
        block read after it. */
    method ReadBody(blockType: nat, total: nat) returns (r: BlockRead, c: Cursor)
      requires Valid() && blockType < TWO_32 && total < TWO_32
      modifies this, buffer, file
      ensures Valid() && State() == old(State())
      ensures bufsize == old(bufsize) && versionMajor == old(versionMajor) && versionMinor == old(versionMinor)
      ensures ifaces == old(ifaces) && (buffer == old(buffer) || fresh(buffer))
      ensures BlockStep(r, file.pos) == BodyStep(file.data, old(file.pos), file.ioError, blockType, total)
      ensures r.Block? ==> c == Cursor(BLOCK_HEADER_SIZE, total - 12, blockType) && total <= buffer.Length
      ensures r.Block? ==> buffer.Length == (if old(bufsize) < total then total else old(buffer.Length))
      ensures r.Block? ==> Bytes(c) == file.data[old(file.pos) .. old(file.pos) + total - 12]
      ensures r.Block? ==> buffer[..8] == HostBytes32(blockType) + HostBytes32(total)
    {
      c := Cursor(0, 0, 0);
      if total > MAX_BLOCK_SIZE {
        return BlockFailed(BlockTooLarge), c;
      }
      if total < BLOCK_HEADER_SIZE + BLOCK_TRAILER_SIZE {
        return BlockFailed(BlockTooSmall), c;
      }
      if bufsize < total {
        buffer := new Byte[total](_ => 0);
      }
      var st := FillBlock(file, buffer, blockType, total);
      if st != Complete {
        return BlockFailed(st.e), c;
      }
      c := Cursor(BLOCK_HEADER_SIZE, total - BLOCK_HEADER_SIZE - BLOCK_TRAILER_SIZE, blockType);
      r := Block(blockType, total);
    }

    /** read_block: the header, then the rest of the block. On success the
        cursor covers the body between header and trailer. */
    method ReadBlock() returns (r: BlockRead, c: Cursor)
      requires Valid()
      modifies this, buffer, file
      ensures Valid() && State() == old(State())
      ensures bufsize == old(bufsize) && versionMajor == old(versionMajor) && versionMinor == old(versionMinor)
      ensures ifaces == old(ifaces) && (buffer == old(buffer) || fresh(buffer))
      ensures BlockStep(r, file.pos) == ReadBlockSpec(file.data, old(file.pos), swapped, file.ioError)
      ensures r.Block? ==> c == Cursor(BLOCK_HEADER_SIZE, r.totalLength - 12, r.blockType)
      ensures r.Block? ==> r.totalLength <= buffer.Length
      ensures r.Block? ==> Bytes(c) == BlockBody(file.data, old(file.pos), r.totalLength)
    {
      c := Cursor(0, 0, 0);
      ghost var start := file.pos;
      var st, blockType, total := ReadHeader(file, swapped);
      if st == CleanEnd {
        return EndOfFile, c;
      } else if st.ReadFailed? {
        return BlockFailed(st.e), c;
      }
      assert file.pos == start + BLOCK_HEADER_SIZE;
      r, c := ReadBody(blockType, total);
      assert BlockStep(r, file.pos) == BodyStep(file.data, start + BLOCK_HEADER_SIZE, file.ioError, blockType, total);
    }

    /** process_idb_options: walks the options the cursor covers, one
        header and one padded value at a time, until the bytes run out or
        end-of-options is met. */
    method ProcessIdbOptions(c: Cursor) returns (res: OptResult)
      requires Valid() && c.offset + c.remaining <= buffer.Length
      ensures res == ScanOptions(Bytes(c), swapped, DEFAULT_OPTIONS)
    {
      var cursor := c;
      var st := DEFAULT_OPTIONS;
      while cursor.remaining != 0
        invariant cursor.offset + cursor.remaining <= buffer.Length
        invariant OptStateValid(st)
        invariant ScanOptions(Bytes(cursor), swapped, st) == ScanOptions(Bytes(c), swapped, DEFAULT_OPTIONS)
        decreases cursor.remaining
      {
        var step;
        step, cursor := NextOption(cursor, st);
        if step.Done? {
          return step.result;
        }
        st := step.st;
      }
      return OptOk(st);
    }

    /** One pass of the loop in process_idb_options: the option header
        (get_opthdr_from_block_data), its padded value
        (get_optvalue_from_block_data), then the switch on the code. */
    method NextOption(cursor: Cursor, st: OptState) returns (step: OptStep, next: Cursor)
      requires Valid() && cursor.offset + cursor.remaining <= buffer.Length && OptStateValid(st)
      ensures step == OptionStep(Bytes(cursor), swapped, st)
      ensures step.More? ==> next == Take(cursor, step.size).value
      ensures step.More? ==> Bytes(next) == Bytes(cursor)[step.size..]
    {
      next := cursor;
      var opts := Bytes(cursor);
      var afterHeader := Take(cursor, OPTION_HEADER_SIZE);
      if afterHeader.None? {
        return Done(OptErr(BlockTooShort)), next;
      }
      var code := Field16(opts, 0, swapped);
      var len := Field16(opts, 2, swapped);
      var afterValue := Take(afterHeader.value, PaddedLength(len));
      if afterValue.None? {
        return Done(OptErr(BlockTooShort)), next;
      }
      next := afterValue.value;
      var size := OPTION_HEADER_SIZE + PaddedLength(len);
      assert Bytes(next) == opts[size..];
      if code == OPT_ENDOFOPT {
        if len != 0 {
          return Done(OptErr(EndOfOptLength)), next;
        }
        return Done(OptOk(st)), next;
      } else if code == IF_TSRESOL {
        if len != 1 {
          return Done(OptErr(TsresolLength)), next;
        }
        if st.sawTsresol {
          return Done(OptErr(DuplicateTsresol)), next;
        }
        var tsresol := Resolution(opts[OPTION_HEADER_SIZE]);
        if tsresol == 0 {
          return Done(OptErr(TsresolTooHigh)), next;
        }
        return More(st.(tsresol := tsresol, sawTsresol := true), size), next;
      } else if code == IF_TSOFFSET {
        if len != 8 {
          return Done(OptErr(TsoffsetLength)), next;
        }
        if st.sawTsoffset {
          return Done(OptErr(DuplicateTsoffset)), next;
        }
        return More(st.(tsoffset := Field64(opts, OPTION_HEADER_SIZE, swapped), sawTsoffset := true), size), next;
      }
      return More(st, size), next;
    }

    /** The first part of add_interface: one more interface, and a table
        large enough for it. */
    method CountInterface()
      requires Valid()
      modifies this, ifaces
      ensures Valid() && ifcount == old(ifcount) + 1
      ensures ifaces[..] == TableFor(old(ifaces[..]), ifcount)
      ensures snapshot == old(snapshot) && linktype == old(linktype)
      ensures buffer == old(buffer) && bufsize == old(bufsize)
      ensures versionMajor == old(versionMajor) && versionMinor == old(versionMinor)
      ensures ifaces == old(ifaces) || fresh(ifaces)
    {
      ifcount := ifcount + 1;
      if ifcount > ifacesSize {
        var size := GrownSize(ifacesSize);
        var table := new Option<Iface>[size](_ => None);
        forall i | 0 <= i < ifaces.Length {
          table[i] := ifaces[i];
        }
        ifacesSize := size;
        ifaces := table;
        assert ifaces[..] == old(ifaces[..]) + seq(size - old(ifacesSize), _ => None);
      }
    }

    /** add_interface: counts the new interface first, grows the table when
        it is full (one entry, then doubling, keeping the old entries), and
        stores the entry only when the options are valid. */
    method AddInterface(c: Cursor) returns (err: Option<Error>)
      requires Valid() && c.offset + c.remaining <= buffer.Length
      modifies this, ifaces
      ensures Valid() && (State(), err) == AddInterfaceSpec(old(State()), old(Bytes(c)))
      ensures buffer == old(buffer) && bufsize == old(bufsize)
      ensures versionMajor == old(versionMajor) && versionMinor == old(versionMinor)
      ensures ifaces == old(ifaces) || fresh(ifaces)
    {
      CountInterface();
      var res := ProcessIdbOptions(c);
      if res.OptErr? {
        return Some(res.e);
      }
      StoreEntry(res.st);
      return None;
    }

    /** The end of add_interface: the entry of the interface just counted
        takes the resolution and offset from its options. */
    method StoreEntry(st: OptState)
      requires Valid() && 0 < ifcount && OptStateValid(st)
      modifies ifaces
      ensures Valid()
      ensures ifaces[..] == old(ifaces[..])[ifcount - 1 := Some(Iface(st.tsresol, st.tsoffset, ScaleFor(st.tsresol, precision)))]
    {
      ifaces[ifcount - 1] := Some(Iface(st.tsresol, st.tsoffset, ScaleFor(st.tsresol, precision)));
    }

    /** The `found:` part of pcap_ng_next_packet for a packet whose fixed
        fields end `at` bytes into the block body `c`. */
    method Found(c: Cursor, at: nat, id: nat, t: nat, caplen: nat, len: nat) returns (o: Outcome)
      requires Valid() && c.offset + c.remaining <= buffer.Length && at <= c.remaining
      ensures StepReported(o, EmitSpec(State(), id, t, caplen, len, Bytes(c), at), c.offset)
    {
      if id >= ifcount {
        return Stop(NoSuchInterface);
      }
      if ifaces[id].None? {
        return Stop(UnwrittenInterface);
      }
      var sec, frac := ConvertTime(t, ifaces[id].value, userTsresol, precision);
      var rest := Cursor(c.offset + at, c.remaining - at, c.blockType);
      if Take(rest, caplen).None? {
        return Stop(BlockTooShort);
      }
      return Deliver(PacketHeader(id, sec, frac, caplen, len), c.offset + at);
    }

    /** The Enhanced, Simple and obsolete Packet Block cases of
        pcap_ng_next_packet: the fixed fields, then `found:`. */
    method PacketBlock(c: Cursor) returns (o: Outcome)
      requires Valid() && c.offset + c.remaining <= buffer.Length
      requires c.blockType == BT_EPB || c.blockType == BT_SPB || c.blockType == BT_PB
      ensures StepReported(o, NextStep(State(), c.blockType, Bytes(c)), c.offset)
    {
      var body := Bytes(c);
      if c.blockType == BT_EPB {
        if Take(c, EPB_SIZE).None? {
          return Stop(BlockTooShort);
        }
        var id := Field32(body, 0, swapped);
        var t := Timestamp64(body, 4, swapped);
        o := Found(c, EPB_SIZE, id, t, Field32(body, 12, swapped), Field32(body, 16, swapped));
      } else if c.blockType == BT_SPB {
        if Take(c, SPB_SIZE).None? {
          return Stop(BlockTooShort);
        }
        var len := Field32(body, 0, swapped);
        var caplen := len;
        if caplen > snapshot {
          caplen := snapshot;
        }
        o := Found(c, SPB_SIZE, 0, 0, caplen, len);
      } else {
        if Take(c, PB_SIZE).None? {
          return Stop(BlockTooShort);
        }
        var id := Field16(body, 0, swapped);
        var t := Timestamp64(body, 4, swapped);
        o := Found(c, PB_SIZE, id, t, Field32(body, 12, swapped), Field32(body, 16, swapped));
      }
    }

    /** The Interface Description Block case of pcap_ng_next_packet: the
        link type and snapshot length must match the session's. */
    method InterfaceBlock(c: Cursor) returns (o: Outcome)
      requires Valid() && c.offset + c.remaining <= buffer.Length && c.blockType == BT_IDB
      modifies this, ifaces
      ensures Valid() && State() == NextStep(old(State()), c.blockType, old(Bytes(c))).v
      ensures StepReported(o, NextStep(old(State()), c.blockType, old(Bytes(c))), c.offset)
      ensures buffer == old(buffer) && bufsize == old(bufsize)
      ensures versionMajor == old(versionMajor) && versionMinor == old(versionMinor)
      ensures ifaces == old(ifaces) || fresh(ifaces)
    {
      var body := Bytes(c);
      var rest := Take(c, IDB_SIZE);
      if rest.None? {
        return Stop(BlockTooShort);
      }
      if linktype != Field16(body, 0, swapped) {
        return Stop(LinktypeMismatch);
      }
      if snapshot != Field32(body, 4, swapped) {
        return Stop(SnaplenMismatch);
      }
      assert Bytes(rest.value) == body[IDB_SIZE..];
      var err := AddInterface(rest.value);
      if err.Some? {
        return Stop(err.value);
      }
      return Continue;
    }

    /** The Section Header Block case of pcap_ng_next_packet: same byte
        order and major version, then the interface count starts again. */
    method SectionBlock(c: Cursor) returns (o: Outcome)
      requires Valid() && c.offset + c.remaining <= buffer.Length && c.blockType == BT_SHB
      modifies this
      ensures Valid() && State() == NextStep(old(State()), c.blockType, old(Bytes(c))).v
      ensures StepReported(o, NextStep(old(State()), c.blockType, old(Bytes(c))), c.offset)
      ensures buffer == old(buffer) && bufsize == old(bufsize) && ifaces == old(ifaces)
      ensures versionMajor == old(versionMajor) && versionMinor == old(versionMinor)
    {
      var body := Bytes(c);
      if Take(c, SHB_SIZE).None? {
        return Stop(BlockTooShort);
      }
      var magic := Field32(body, 0, swapped);
      var major := Field16(body, 4, swapped);
      if magic == BYTE_ORDER_MAGIC {
      } else if magic == SWAPPED_BYTE_ORDER_MAGIC {
        return Stop(DifferentByteOrders);
      } else {
        return Stop(BadByteOrderMagic);
      }
      if major != PCAP_NG_VERSION_MAJOR {
        return Stop(UnsupportedVersion);
      }
      ifcount := 0;
      return Continue;
    }

    /** The block switch of pcap_ng_next_packet; other block types are
        skipped. */
    method HandleBlock(c: Cursor) returns (o: Outcome)
      requires Valid() && c.offset + c.remaining <= buffer.Length
      modifies this, ifaces
      ensures Valid() && State() == NextStep(old(State()), c.blockType, old(Bytes(c))).v
      ensures StepReported(o, NextStep(old(State()), c.blockType, old(Bytes(c))), c.offset)
      ensures buffer == old(buffer) && bufsize == old(bufsize)
      ensures versionMajor == old(versionMajor) && versionMinor == old(versionMinor)
      ensures ifaces == old(ifaces) || fresh(ifaces)
    {
      if c.blockType == BT_EPB || c.blockType == BT_SPB || c.blockType == BT_PB {
        o := PacketBlock(c);
      } else if c.blockType == BT_IDB {
        o := InterfaceBlock(c);
      } else if c.blockType == BT_SHB {
        o := SectionBlock(c);
      } else {
        o := Continue;
      }
    }

    /** One turn of the block loop of pcap_ng_next_packet: read a block
        and handle it. */
    method NextBlock() returns (o: Outcome)
      requires Valid()
      modifies this, buffer, file, ifaces
      ensures Valid() && (buffer == old(buffer) || fresh(buffer)) && (ifaces == old(ifaces) || fresh(ifaces))
      ensures var t := TurnSpec(file.data, file.ioError, old(file.pos), old(State()));
        State() == t.v && file.pos == t.next && Reported(o, t.result, buffer[..])
    {
      ghost var pos := file.pos;
      var r, c := ReadBlock();
      if r == EndOfFile {
        return EndReached;
      }
      if r.BlockFailed? {
        return Stop(r.e);
      }
      ghost var body := Bytes(c);
      assert body == BlockBody(file.data, pos, r.totalLength);
      ghost var v := State();
      o := HandleBlock(c);
      assert Bytes(c) == body;
      StepResultReported(o, NextStep(v, c.blockType, body), body, buffer[..], c.offset);
    }

    /** pcap_ng_next_packet: reads blocks until one yields a packet, the
        file ends cleanly, or something fails. */
    method NextPacket() returns (o: Outcome)
      requires Valid()
      modifies this, buffer, file, ifaces
      ensures Valid()
      ensures var run := NextSpec(file.data, file.ioError, old(file.pos), old(State()));
        State() == run.v && file.pos == run.next && Reported(o, run.result, buffer[..])
    {
      while true
        invariant Valid()
        invariant NextSpec(file.data, file.ioError, file.pos, State())
               == NextSpec(file.data, file.ioError, old(file.pos), old(State()))
        invariant buffer == old(buffer) || fresh(buffer)
        invariant ifaces == old(ifaces) || fresh(ifaces)
        decreases |file.data| - file.pos
      {
        o := NextBlock();
        if o != Continue {
          return;
        }
      }
    }

    /** The rest of the first Section Header Block in pcap_ng_check_header:
        the 12 bytes already read are stored in host byte order at the
        front of the buffer, the remaining `total - 12` bytes are read
        after them, and the major version must be 1. */
    method ReadSectionHeader(magic: nat, total: nat) returns (failure: Option<Error>)
      requires Valid() && SHB_MIN_LENGTH <= total <= buffer.Length && total < TWO_32 && magic < TWO_32
      modifies this, buffer, file
      ensures Valid() && State() == old(State()) && buffer == old(buffer) && bufsize == old(bufsize)
      ensures ifaces == old(ifaces)
      ensures file.pos == old(file.pos) + Min(total - 12, |file.data| - old(file.pos))
      ensures failure ==
        if total - 12 > |file.data| - old(file.pos) then Some(ShortReadError(file.ioError))
        else if Field16(file.data, old(file.pos), swapped) != PCAP_NG_VERSION_MAJOR then Some(UnsupportedVersion)
        else None
      ensures failure.None? ==> versionMajor == PCAP_NG_VERSION_MAJOR
      ensures failure.None? ==> versionMinor == Field16(file.data, old(file.pos) + 2, swapped)
    {
      var st, major, minor := ReadShbRest(file, buffer, magic, total, swapped);
      if st != Complete {
        return Some(st.e);
      }
      if major != PCAP_NG_VERSION_MAJOR {
        return Some(UnsupportedVersion);
      }
      versionMajor := major;
      versionMinor := minor;
      return None;
    }

    /** The session reports `status` with `failure`: an error for a failed
        open, none and the opened state otherwise. */
    predicate OpenedAs(failure: Option<Error>, status: OpenStatus)
      reads this, ifaces
    {
      match status
      case Opened(v, _) => failure.None? && State() == v
      case OpenFailed(e) => failure == Some(e)
      case NotThisFormat => false
    }

    /** The Interface Description Block case of the block loop of
        pcap_ng_check_header. */
    method OpenInterface(c: Cursor, dlt: nat -> nat) returns (failure: Option<Error>)
      requires Valid() && c.offset + c.remaining <= buffer.Length
      modifies this, ifaces
      ensures Valid() && versionMajor == old(versionMajor) && versionMinor == old(versionMinor)
      ensures buffer == old(buffer) && (ifaces == old(ifaces) || fresh(ifaces))
      ensures OpenedAs(failure, IdbOpen(old(State()), old(Bytes(c)), versionMinor, dlt))
    {
      var body := Bytes(c);
      var rest := Take(c, IDB_SIZE);
      if rest.None? {
        return Some(BlockTooShort);
      }
      assert Bytes(rest.value) == body[IDB_SIZE..];
      failure := AddInterface(rest.value);
      if failure.Some? {
        return;
      }
      snapshot := Field32(body, 4, swapped);
      linktype := dlt(Field16(body, 0, swapped));
    }

    /** One turn of the block loop of pcap_ng_check_header; `done` is
        false when the block was skipped. */
    method FirstBlock(dlt: nat -> nat) returns (done: bool, failure: Option<Error>)
      requires Valid()
      modifies this, buffer, file, ifaces
      ensures Valid() && versionMajor == old(versionMajor) && versionMinor == old(versionMinor)
      ensures (buffer == old(buffer) || fresh(buffer)) && (ifaces == old(ifaces) || fresh(ifaces))
      ensures var t := FirstTurn(file.data, file.ioError, old(file.pos), old(State()), versionMinor, dlt);
        file.pos == t.1 && (done <==> t.0.Some?)
      ensures var t := FirstTurn(file.data, file.ioError, old(file.pos), old(State()), versionMinor, dlt);
        if done then OpenedAs(failure, t.0.value) else State() == old(State())
    {
      ghost var pos := file.pos;
      var r, c := ReadBlock();
      if r == EndOfFile {
        return true, Some(NoInterfaces);
      }
      if r.BlockFailed? {
        return true, Some(r.e);
      }
      assert Bytes(c) == BlockBody(file.data, pos, r.totalLength);
      done := true;
      if c.blockType == BT_IDB {
        failure := OpenInterface(c, dlt);
      } else if c.blockType == BT_EPB || c.blockType == BT_SPB || c.blockType == BT_PB {
        failure := Some(PacketBeforeInterface);
      } else {
        done, failure := false, None;
      }
    }

    /** The block loop of pcap_ng_check_header: blocks other than packets
        are skipped until the first Interface Description Block, whose link
        type (through `dlt`) and snapshot length become the session's. */
    method FirstInterface(dlt: nat -> nat) returns (failure: Option<Error>)
      requires Valid()
      modifies this, buffer, file, ifaces
      ensures Valid() && versionMajor == old(versionMajor) && versionMinor == old(versionMinor)
      ensures var run := FirstInterfaceSpec(file.data, file.ioError, old(file.pos), old(State()),
                                            versionMinor, dlt);
        file.pos == run.next && OpenedAs(failure, run.status)
    {
      while true
        invariant Valid() && versionMajor == old(versionMajor) && versionMinor == old(versionMinor)
        invariant FirstInterfaceSpec(file.data, file.ioError, file.pos, State(), versionMinor, dlt)
               == FirstInterfaceSpec(file.data, file.ioError, old(file.pos), old(State()), versionMinor, dlt)
        invariant buffer == old(buffer) || fresh(buffer)
        invariant ifaces == old(ifaces) || fresh(ifaces)
        decreases |file.data| - file.pos
      {
        var done;
        done, failure := FirstBlock(dlt);
        if done {
          return;
        }
      }
    }
  }

  /** The time stamp conversion at `found:` in pcap_ng_next_packet: whole
      seconds plus the interface offset, and the fraction converted as the
      interface's scale type says, in 64-bit unsigned arithmetic. */
  method ConvertTime(t: nat, iface: Iface, userTsresol: nat, precision: Precision) returns (sec: nat, frac: nat)
    requires IfaceValid(iface, precision) && userTsresol == Ticks(precision)
    ensures (sec, frac) == Timestamp(t, iface, precision)
  {
    var res := iface.tsresol;
    sec := (t / res + iface.tsoffset) % TWO_64;
    frac := t % res;
    match iface.scale {
      case PassThrough =>
      case ScaleUp =>
        frac := MulDiv(frac, res, userTsresol);
      case ScaleDown =>
        frac := MulDiv(frac, userTsresol, res);
    }
  }

  /** The if_tsresol computation of process_idb_options: a shift for a
      byte with the high bit set, otherwise ten multiplied in `v` times, all
      in 32-bit unsigned arithmetic; 0 means the resolution is too high. */
  method Resolution(v: Byte) returns (tsresol: nat)
    ensures (if tsresol == 0 then None else Some(tsresol)) == TsresolFromByte(v)
  {
    if v >= 0x80 {
      tsresol := Shift32(v - 0x80);
    } else {
      tsresol := 1;
      var i := 0;
      while i < v
        invariant 0 <= i <= v && tsresol == TenPower32(i)
      {
        tsresol := (tsresol * 10) % TWO_32;
        i := i + 1;
      }
    }
  }

  /** The first half of read_block: the 8-byte block header, decoded in
      the file's byte order. */
  method ReadHeader(f: CaptureFile, swapped: bool) returns (st: ReadStatus, blockType: nat, total: nat)
    requires f.Valid()
    modifies f
    ensures f.Valid() && st == ReadOutcome(|f.data| - old(f.pos), BLOCK_HEADER_SIZE, false, f.ioError)
    ensures f.pos == old(f.pos) + Min(BLOCK_HEADER_SIZE, |f.data| - old(f.pos))
    ensures st == Complete ==> blockType == Field32(f.data, old(f.pos), swapped)
    ensures st == Complete ==> total == Field32(f.data, old(f.pos) + 4, swapped)
    ensures blockType < TWO_32 && total < TWO_32
  {
    var header := new Byte[BLOCK_HEADER_SIZE](_ => 0);
    ghost var start := f.pos;
    st := ReadBytes(f, header, 0, BLOCK_HEADER_SIZE, false);
    blockType, total := 0, 0;
    if st == Complete {
      CopiedFields(f.data, start, header[..], swapped);
      blockType := Field32(header[..], 0, swapped);
      total := Field32(header[..], 4, swapped);
    }
  }

  /** What pcap_ng_check_header returns for `status`: null and no error
      for a file that is not pcap-ng, null and the error for a failed
      open, otherwise a session on `f` in the opened state. */
  predicate OpenReported(s: Session?, failure: Option<Error>, f: CaptureFile, status: OpenStatus)
    reads s, if s != null then {s.file} else {}, if s != null then {s.ifaces} else {}
  {
    match status
    case NotThisFormat => s == null && failure.None?
    case OpenFailed(e) => s == null && failure == Some(e)
    case Opened(v, minor) =>
      s != null && failure.None? && s.Valid() && s.file == f && s.State() == v
      && s.versionMajor == PCAP_NG_VERSION_MAJOR && s.versionMinor == minor
  }

  /** The total length and byte-order magic of the first Section Header
      Block, each read with its own fread; when the magic only matches
      byte-reversed the file is read swapped and the length is reversed. */
  method ReadStart(f: CaptureFile) returns (start: Start)
    requires f.Valid()
    modifies f
    ensures f.Valid() && start == StartSpec(f.data, f.ioError, old(f.pos))
    ensures f.pos == if start.Stopped? then start.run.next else old(f.pos) + 8
  {
    ghost var begin := f.pos;
    var words := new Byte[8](_ => 0);
    var got := f.Read(words, 0, 4);
    if got < 4 {
      return Stopped(OpenRun(if f.ioError then OpenFailed(IoError) else NotThisFormat, f.pos));
    }
    got := f.Read(words, 4, 4);
    if got < 4 {
      return Stopped(OpenRun(if f.ioError then OpenFailed(IoError) else NotThisFormat, f.pos));
    }
    assert words[..] == words[..4] + words[4..8];
    assert words[..] == f.data[begin .. begin + 8];
    CopiedFields(f.data, begin, words[..], false);
    CopiedFields(f.data, begin, words[..], true);
    var total := Field32(words[..], 0, false);
    var byteOrderMagic := Field32(words[..], 4, false);
    var swapped := false;
    if byteOrderMagic != BYTE_ORDER_MAGIC {
      Swap32OfField(words[..], 4);
      byteOrderMagic := Swap32(byteOrderMagic);
      if byteOrderMagic != BYTE_ORDER_MAGIC {
        return Stopped(OpenRun(NotThisFormat, f.pos));
      }
      swapped := true;
      Swap32OfField(words[..], 0);
      total := Swap32(total);
    }
    if total < SHB_MIN_LENGTH {
      return Stopped(OpenRun(OpenFailed(ShbTooSmall), f.pos));
    }
    return Started(swapped, total);
  }

  /** The open path of pcap_ng_check_header once the byte order, total
      length and precision are known: a session with a buffer of at least
      2048 bytes, the rest of the Section Header Block, then the first
      Interface Description Block. */
  method OpenSession(f: CaptureFile, swapped: bool, total: nat, p: Precision, dlt: nat -> nat)
    returns (s: Session?, failure: Option<Error>)
    requires f.Valid() && SHB_MIN_LENGTH <= total < TWO_32
    modifies f
    ensures f.Valid()
    ensures var run := SessionSpec(f.data, f.ioError, old(f.pos), swapped, total, p, dlt);
      f.pos == run.next && OpenReported(s, failure, f, run.status)
    ensures s != null ==> fresh(s)
  {
    ghost var at := f.pos;
    ghost var run := SessionSpec(f.data, f.ioError, at, swapped, total, p, dlt);
    var bufsize := if total > 2048 then total else 2048;
    s := new Session(f, swapped, p, bufsize);
    failure := s.ReadSectionHeader(BT_SHB, total);
    if failure.Some? {
      assert run == OpenRun(OpenFailed(failure.value), f.pos);
      return null, failure;
    }
    assert f.pos == at + total - 12 && s.State() == View(swapped, p, 0, 0, [], 0);
    assert run == FirstInterfaceSpec(f.data, f.ioError, f.pos, s.State(), s.versionMinor, dlt);
    failure := s.FirstInterface(dlt);
    assert s.OpenedAs(failure, run.status);
    if failure.Some? {
      assert run.status == OpenFailed(failure.value);
      return null, failure;
    }
    assert run.status.Opened? && s.State() == run.status.v;
  }

  /** pcap_ng_check_header: `magic` is the file's first 32-bit word, read
      by the caller. Returns the open session, or null with no error when
      the file is not pcap-ng, or null with the error that stopped it. */
  method CheckHeader(magic: nat, f: CaptureFile, precision: nat, dlt: nat -> nat)
    returns (s: Session?, failure: Option<Error>)
    requires f.Valid()
    modifies f
    ensures f.Valid()
    ensures var run := OpenSpec(magic, f.data, f.ioError, old(f.pos), precision, dlt);
      f.pos == run.next && OpenReported(s, failure, f, run.status)
    ensures s != null ==> fresh(s)
  {
    if magic != BT_SHB {
      return null, None;
    }
    var start := ReadStart(f);
    if start.Stopped? {
      return null, if start.run.status.OpenFailed? then Some(start.run.status.e) else None;
    }
    var p := PrecisionOf(precision);
    if p.None? {
      return null, Some(UnknownPrecision);
    }
    s, failure := OpenSession(f, start.swapped, start.total, p.value, dlt);
  }
}
