# pcap-ng reader, CHAP, VP9 temporal filter and libdw helpers in Dafny

This project models five pieces of C code and proves properties of the models.

- **libpcap's pcap-ng savefile reader** (`sf-pcap-ng.c`). This is the main part.
  - `pcap_ng_check_header` recognises a file by its first Section Header Block. It settles the byte order, reads the rest of the block and checks the major version. It then reads blocks up to the first Interface Description Block, which fixes the link type and snapshot length.
  - `pcap_ng_next_packet` reads blocks until one yields a packet.
  - `read_block` reads one block into a buffer that grows on demand.
  - `process_idb_options` and `add_interface` keep a table of interfaces, each with its time-stamp resolution, offset and scale type.
  - Time stamps are converted to the caller's micro- or nanosecond precision.
  - The reader is imperative. A `Session` class holds the buffer (an `array`), the interface table (an `array`) and the counters. A `CaptureFile` class is the stream, a sequence of bytes plus a read position and an error flag. Each method is proved against a pure specification function on the bytes of the stream, such as `ReadBlockSpec`, `NextStep`, `NextSpec` or `OpenSpec`. Lemmas about those functions state what the reader promises.
- **pppd's CHAP state machine** (`chap-new.c`). This covers a client and a server flag word, challenge generation into a fixed buffer, response handling, status handling, time-outs, protocol reject and the packet framing of `chap_input`.
  - A `ChapUnit` class holds the state. Every method is held to a function on a snapshot of that state.
  - The flag words are modelled as sets of flags. Packets sent and timers armed are a list of events.
- **libvpx's VP9 temporal filter** (`vp9_temporal_filter.c`).
  - The per-pixel weight, and `vp9_temporal_filter_apply_c` accumulating weighted pixels and counts into 16- and 32-bit cells.
  - The fixed-point reciprocal table of `vp9_temporal_filter_init`, and the output loops that divide the sums by the counts.
  - `adjust_arnr_filter`, and the frame set-up of `vp9_temporal_filter`.
- **elfutils libdw's internal helpers** (`libdwP.h`): the fixed part of `__libdw_form_val_len`, the section data and range checks, `DIE_OFFSET_FROM_CU_OFFSET`, `cu_sec_idx`, and the fast path of `libdw_alloc`.
- **The ethtool speed accessors** (`ethtool.h`): the split of a 32-bit link speed over two 16-bit fields of `struct ethtool_cmd`.

The files follow that structure:

- `arith.dfy`, a shared lemma about division
- `pcapng_format.dfy`, `pcapng_options.dfy`, `pcapng_scale.dfy`, `pcapng_blocks.dfy`, `pcapng_reader.dfy`, `pcapng_properties.dfy`
- `chap.dfy`
- `vp9_weight.dfy`, `vp9_accumulate.dfy`, `vp9_normalise.dfy`, `vp9_arnr.dfy`
- `libdw.dfy`
- `ethtool.dfy`

## Model

| member | source | states |
|---|---|---|
| PcapNgFormat.Field16 | external/libpcap/sf-pcap-ng.c:283-286 | A 16-bit field read in host order or swapped is below 2^16 |
| PcapNgFormat.Field32 | external/libpcap/sf-pcap-ng.c:213-216 | A 32-bit field read in either byte order is below 2^32 |
| PcapNgFormat.Field64 | external/libpcap/sf-pcap-ng.c:393-395 | A 64-bit field read in either byte order is below 2^64 |
| PcapNgFormat.Swap32OfField | external/libpcap/sf-pcap-ng.c:213-216 | SWAPLONG of a field read in host order is the field read swapped, so swapping after the read is sound |
| PcapNgFormat.HostBytes32RoundTrip | external/libpcap/sf-pcap-ng.c:242 | The host-order bytes stored for a 32-bit value read back as that value |
| PcapNgFormat.SwappedMagic | external/libpcap/sf-pcap-ng.c:514-521 | The byte-order magic and its reversal are each other's SWAPLONG, so a file of the other byte order is recognised by the reversed magic |
| PcapNgFormat.FieldsOfSlice | external/libpcap/sf-pcap-ng.c:247-250 | A field read through a sub-range of the bytes (the cursor) equals the same field read in the whole stream |
| PcapNgOptions.Take | external/libpcap/sf-pcap-ng.c:254-271 | get_from_block_data fails exactly when fewer than n bytes remain; otherwise the cursor advances by n and has n fewer bytes |
| PcapNgOptions.TakeTwice | external/libpcap/sf-pcap-ng.c:254-271 | Taking a then b bytes is taking a + b bytes, and fails exactly when that would |
| PcapNgOptions.PaddedLengthBounds | external/libpcap/sf-pcap-ng.c:298-300 | The padded option length is the least multiple of 4 not below the length |
| PcapNgOptions.TenPower32 | external/libpcap/sf-pcap-ng.c:362-364 | 10^k formed by repeated multiplication in a 32-bit unsigned value stays below 2^32 |
| PcapNgOptions.Shift32 | external/libpcap/sf-pcap-ng.c:360 | `1 << shift` in 32 bits is below 2^32 |
| PcapNgOptions.TenPowerWraps | external/libpcap/sf-pcap-ng.c:362-364 | The repeated 32-bit multiplication computes 10^k modulo 2^32 |
| PcapNgOptions.TsresolFromByte | external/libpcap/sf-pcap-ng.c:358-377 | An if_tsresol byte gives a nonzero resolution below 2^32, or None when it computes to 0 |
| PcapNgOptions.TenPowerZero | external/libpcap/sf-pcap-ng.c:362-365 | 10^k computed by repeated 32-bit multiplication is 0 exactly from k = 32 on |
| PcapNgOptions.TsresolAccepted | external/libpcap/sf-pcap-ng.c:359-377 | An if_tsresol byte is accepted exactly when its low seven bits are below 32, for base 2 and base 10 |
| PcapNgOptions.TsresolValue | external/libpcap/sf-pcap-ng.c:358-377 | For every accepted byte v: with the high bit set and v & 0x7F below 32 the resolution is 2^(v & 0x7F); without it, for v below 32, it is 10^v modulo 2^32, the value the loop leaves |
| PcapNgOptions.OptionStep | external/libpcap/sf-pcap-ng.c:322-400 | One option either ends the scan, keeping the state on success, or consumes its header and padded value and keeps the state valid |
| PcapNgOptions.OptionStepOutcomes | external/libpcap/sf-pcap-ng.c:322-400 | Each case of one option: cut short means BlockTooShort; end-of-options succeeds exactly with length 0; if_tsresol with a length other than 1, or seen before, is refused; otherwise it is refused as too high exactly when v & 0x7F >= 32, and else records 2^(v & 0x7F) or 10^v mod 2^32 and changes nothing else; if_tsoffset with a length other than 8, or seen before, is refused, and else records its 64-bit value; any other code is passed over; the scan goes on past the header and padded value |
| PcapNgOptions.RepeatedOptionRefused | external/libpcap/sf-pcap-ng.c:352-356 | After an accepted if_tsresol (or if_tsoffset) a second one of the right length makes the whole scan fail with the "more than one" error |
| PcapNgOptions.TwoTsresolRefused | external/libpcap/sf-pcap-ng.c:346-357 | Two well-formed if_tsresol options in a row: the first is accepted and the scan fails on the second |
| PcapNgOptions.ScanOptions | external/libpcap/sf-pcap-ng.c:310-405 | A successful option scan yields a nonzero 32-bit resolution and a 64-bit offset; with no option bytes the defaults stand; a failure carries one of the loop's errors: cut short, end-of-options with a length, wrong if_tsresol or if_tsoffset length, a repeated option, or a resolution too high |
| PcapNgOptions.OptionAt | external/libpcap/sf-pcap-ng.c:273-308 | The next option starts exactly PaddedLength(len) bytes after the option header |
| PcapNgOptions.UnknownOptionSkipped | external/libpcap/sf-pcap-ng.c:398-399 | An unknown option is skipped: the scan goes on after its padded value with the state unchanged |
| PcapNgOptions.EndOfOptionsStops | external/libpcap/sf-pcap-ng.c:336-343 | opt_endofopt stops the scan whatever follows: success with length 0, an error otherwise |
| PcapNgOptions.ScanKeepsSeen | external/libpcap/sf-pcap-ng.c:352-357 | A successful scan keeps a resolution or offset already recorded and its seen flag, and a value whose option never came keeps its default |
| PcapNgScale.Ticks | external/libpcap/sf-pcap-ng.c:541-549 | The caller's resolution is 10^6 or 10^9 ticks per second |
| PcapNgScale.ScaleFraction | external/libpcap/sf-pcap-ng.c:835-848 | PASS_THROUGH keeps the fraction; SCALE_UP as written, with the interface resolution at most the caller's, never increases it |
| PcapNgScale.ScaleFor | external/libpcap/sf-pcap-ng.c:443-464 | The scale type is pass-through, down or up exactly when the interface resolution is equal to, above or below the caller's |
| PcapNgScale.Timestamp | external/libpcap/sf-pcap-ng.c:833-851 | The converted seconds fit 64 bits and the fraction is below the caller's resolution |
| PcapNgScale.FractionBelowTicks | external/libpcap/sf-pcap-ng.c:835-849 | Both the conversion as written and the intended one give a fraction below the caller's resolution |
| PcapNgScale.IntendedKeepsTime | external/libpcap/sf-pcap-ng.c:835-849 | The intended conversion is the interface fraction rescaled to caller ticks and rounded down, in every scale case |
| PcapNgScale.AsWrittenAgreesOutsideScaleUp | external/libpcap/sf-pcap-ng.c:837-848 | The conversion as written equals the intended one for PASS_THROUGH and SCALE_DOWN |
| PcapNgScale.ScaleUpLosesFraction | external/libpcap/sf-pcap-ng.c:840-843 | Half a second on a millisecond interface comes out as 0 microseconds as written, where 500000 is meant |
| PcapNgBlocks.ReadOutcome | external/libpcap/sf-pcap-ng.c:178-201 | read_bytes succeeds exactly when n bytes are there; it reports a clean end exactly when nothing is left, end of file is allowed and there is no stream error; it fails otherwise |
| PcapNgBlocks.ReadBlockSpec | external/libpcap/sf-pcap-ng.c:203-252 | An accepted block is at least 12 bytes long and the stream moves exactly its total length; a clean end is reported exactly at the end of a stream with no error; any failure is an I/O error, a truncation, or a length too large or too small |
| PcapNgBlocks.BodyStep | external/libpcap/sf-pcap-ng.c:218-251 | After the header, an accepted block keeps its type and length, is at least 12 bytes long and is consumed whole |
| PcapNgBlocks.BlockBody | external/libpcap/sf-pcap-ng.c:247-249 | The cursor covers total_length - 12 bytes |
| PcapNgBlocks.ReadBlockOutcomes | external/libpcap/sf-pcap-ng.c:203-252 | Clean end only at a block boundary with nothing left; a block only with a length in [12, 16 MiB] and all its bytes present; every other shortfall is an error |
| PcapNgBlocks.GrownSize | external/libpcap/sf-pcap-ng.c:418-425 | Growing the table always makes it larger |
| PcapNgBlocks.TableFor | external/libpcap/sf-pcap-ng.c:416-432 | The table grows (to 1, then doubling) only when the count exceeds it, keeping the old entries; the new slots are unwritten, as malloc and realloc leave them |
| PcapNgBlocks.AddInterfaceSpec | external/libpcap/sf-pcap-ng.c:407-466 | add_interface raises the count first and grows the table when full, leaving every other slot alone; it fails exactly when the options are refused, with their error, and then the new slot stays as it was (unwritten when the table grew); on success the new slot holds the options' resolution and offset and the scale type for them |
| PcapNgBlocks.EmitSpec | external/libpcap/sf-pcap-ng.c:825-856 | A packet is delivered exactly when its interface is counted, its slot written and caplen bytes follow the fixed fields; its time stamp is the converted one; otherwise the error is "no such interface", then "unwritten interface", then "too short" |
| PcapNgBlocks.Timestamp64 | external/libpcap/sf-pcap-ng.c:700-707 | The time stamp joined from its high and low words fits 64 bits |
| PcapNgBlocks.NextStep | external/libpcap/sf-pcap-ng.c:687-822 | A block changes at most the interface count and table; a delivered packet is on a known interface, has its data inside the block and has a fraction below the caller's resolution; the SHB and IDB cases are spelled out by MidStreamSectionHeader and MidStreamInterface |
| PcapNgBlocks.TurnSpec | external/libpcap/sf-pcap-ng.c:681-823 | One loop turn: end of capture only at the end of a clean stream with nothing changed; going on always consumes bytes; a packet carries exactly caplen bytes |
| PcapNgBlocks.StepResult | external/libpcap/sf-pcap-ng.c:820-860 | A skipped block means "go on", an emitted one means a packet with its header and caplen bytes |
| PcapNgBlocks.NextSpec | external/libpcap/sf-pcap-ng.c:666-861 | pcap_ng_next_packet ends with a packet, the end of the capture or an error, never "go on"; the end comes only at the end of a stream with no error; only the interface count and table change; a packet is on a known interface with caplen bytes and a fraction below the caller's resolution |
| PcapNgBlocks.IdbOpen | external/libpcap/sf-pcap-ng.c:611-624 | The first IDB adds one interface; the session takes the block's link type through linktype_to_dlt and its snapshot length |
| PcapNgBlocks.FirstTurn | external/libpcap/sf-pcap-ng.c:599-636 | One turn of the open loop: a clean end of file fails with "no Interface Description Blocks", a packet block with "packet before any IDB", another non-IDB block goes on past it; an opened result has one interface more and the link type (through linktype_to_dlt) and snapshot length of the IDB just read |
| PcapNgBlocks.FirstInterfaceSpec | external/libpcap/sf-pcap-ng.c:599-647 | The open loop ends opened with one interface more, taking link type and snapshot length from an IDB read at or after the start, or failed, never "not this format"; "no Interface Description Blocks" only at the end of a stream with no error |
| PcapNgBlocks.PrecisionOf | external/libpcap/sf-pcap-ng.c:541-557 | Only the micro and nano codes select a precision |
| PcapNgBlocks.StartSpec | external/libpcap/sf-pcap-ng.c:490-530 | After the block type, a start has the byte-order magic in the chosen byte order and a total length of at least 28 bytes read in that order; a stop is "not this format" or an open failure, and an I/O failure only when the stream failed |
| PcapNgBlocks.OpenSpec | external/libpcap/sf-pcap-ng.c:468-655 | A first word other than the SHB type means "not this format" and reads nothing; an opened session has exactly one interface, the precision the caller asked for, and the link type and snapshot length of the first IDB |
| PcapNgBlocks.SessionSpec | external/libpcap/sf-pcap-ng.c:572-647 | Once the start is read, the open path never answers "not this format"; an opened session has one interface, the given precision and byte order, and the link type and snapshot length of an IDB after the SHB |
| PcapNgReader.CaptureFile.Read | external/libpcap/sf-pcap-ng.c:184 | fread copies min(n, bytes left) bytes into the buffer and advances past them, leaving the rest of the buffer alone |
| PcapNgReader.ReadBytes | external/libpcap/sf-pcap-ng.c:178-201 | read_bytes reports ReadOutcome and stores the bytes read, touching nothing else |
| PcapNgReader.StoreWord | external/libpcap/sf-pcap-ng.c:242 | A 32-bit word stored in host order, the rest of the buffer unchanged |
| PcapNgReader.FillBlock | external/libpcap/sf-pcap-ng.c:242-245 | The block header is stored in host order at the front of the buffer and the rest of the block after it |
| PcapNgReader.ReadShbRest | external/libpcap/sf-pcap-ng.c:572-587 | The first 12 bytes of the SHB are stored, the rest is read after them, and the version fields come back from the stream in the file's byte order |
| PcapNgReader.CopiedFields | external/libpcap/sf-pcap-ng.c:242-250 | A field read from the buffer copy equals the field in the stream |
| PcapNgReader.ReturnCode | external/libpcap/sf-pcap-ng.c:682-686 | pcap_ng_next_packet returns 0 exactly for a packet, 1 exactly at the end, and -1 otherwise |
| PcapNgReader.StepResultReported | external/libpcap/sf-pcap-ng.c:853-860 | The outcome reported for a block stored in the buffer is the result its step means, with the packet data taken from the buffer |
| PcapNgReader.Session.Bytes | external/libpcap/sf-pcap-ng.c:149-153 | A cursor covers exactly data_remaining bytes |
| PcapNgReader.Session.constructor | external/libpcap/sf-pcap-ng.c:532-570 | A new session has a buffer of bufsize bytes, no interfaces and version 0 |
| PcapNgReader.Session.ReadBody | external/libpcap/sf-pcap-ng.c:218-251 | The rest of read_block follows BodyStep; the buffer is replaced by one of exactly total_length bytes when too small; the cursor covers the block body |
| PcapNgReader.Session.ReadBlock | external/libpcap/sf-pcap-ng.c:203-252 | read_block follows ReadBlockSpec and leaves the cursor on the block body |
| PcapNgReader.Session.ProcessIdbOptions | external/libpcap/sf-pcap-ng.c:310-405 | The option loop yields ScanOptions of the cursor's bytes |
| PcapNgReader.Session.NextOption | external/libpcap/sf-pcap-ng.c:322-400 | One pass of the option loop is OptionStep; the cursor moves past the option |
| PcapNgReader.Session.CountInterface | external/libpcap/sf-pcap-ng.c:416-432 | The count goes up by one and the table becomes TableFor the new count, its new slots unwritten |
| PcapNgReader.Session.AddInterface | external/libpcap/sf-pcap-ng.c:407-466 | add_interface changes the session as AddInterfaceSpec says and reports its error |
| PcapNgReader.Session.StoreEntry | external/libpcap/sf-pcap-ng.c:440-464 | Only the new interface's slot changes: it takes the options' resolution and offset and the scale type for them |
| PcapNgReader.Session.Found | external/libpcap/sf-pcap-ng.c:825-860 | The found: path reports EmitSpec |
| PcapNgReader.Session.PacketBlock | external/libpcap/sf-pcap-ng.c:689-751 | The EPB, SPB and PB cases report NextStep |
| PcapNgReader.Session.InterfaceBlock | external/libpcap/sf-pcap-ng.c:753-779 | The IDB case changes the session and reports as NextStep says |
| PcapNgReader.Session.SectionBlock | external/libpcap/sf-pcap-ng.c:781-818 | The SHB case changes the session and reports as NextStep says |
| PcapNgReader.Session.HandleBlock | external/libpcap/sf-pcap-ng.c:687-822 | The block switch changes the session and reports as NextStep says |
| PcapNgReader.Session.NextBlock | external/libpcap/sf-pcap-ng.c:681-823 | One turn of the loop follows TurnSpec |
| PcapNgReader.Session.NextPacket | external/libpcap/sf-pcap-ng.c:666-861 | pcap_ng_next_packet follows NextSpec: its return code, header, data and new session |
| PcapNgReader.Session.ReadSectionHeader | external/libpcap/sf-pcap-ng.c:572-595 | The rest of the first SHB is read; it succeeds only with major version 1, and then records the versions read |
| PcapNgReader.Session.OpenInterface | external/libpcap/sf-pcap-ng.c:611-624 | The IDB case of the open loop reports IdbOpen |
| PcapNgReader.Session.FirstBlock | external/libpcap/sf-pcap-ng.c:600-635 | One turn of the open loop follows FirstTurn |
| PcapNgReader.Session.FirstInterface | external/libpcap/sf-pcap-ng.c:599-642 | The open loop follows FirstInterfaceSpec |
| PcapNgReader.ConvertTime | external/libpcap/sf-pcap-ng.c:833-851 | The time stamp conversion in 64-bit arithmetic equals Timestamp |
| PcapNgReader.Resolution | external/libpcap/sf-pcap-ng.c:358-377 | The 32-bit if_tsresol computation, with its loop, equals TsresolFromByte, 0 standing for a refused value |
| PcapNgReader.ReadHeader | external/libpcap/sf-pcap-ng.c:209-216 | The block header read decodes type and length in the file's byte order |
| PcapNgReader.ReadStart | external/libpcap/sf-pcap-ng.c:490-521 | Reading the total length and the byte-order magic follows StartSpec |
| PcapNgReader.OpenSession | external/libpcap/sf-pcap-ng.c:559-647 | The open path after the start follows SessionSpec; a session returned is new |
| PcapNgReader.CheckHeader | external/libpcap/sf-pcap-ng.c:468-655 | pcap_ng_check_header follows OpenSpec: a new session, null and no error, or null and the error |
| PcapNgProperties.SectionResetForgetsInterfaces | external/libpcap/sf-pcap-ng.c:817 | After an accepted SHB, every packet block fails with "no such interface" |
| PcapNgProperties.UnknownBlockSkipped | external/libpcap/sf-pcap-ng.c:820-821 | A block of unknown type changes nothing |
| PcapNgProperties.UnknownBlockPassedOver | external/libpcap/sf-pcap-ng.c:681-823 | pcap_ng_next_packet at a well-formed unknown block behaves as at the block after it |
| PcapNgProperties.FailedInterfaceStillCounted | external/libpcap/sf-pcap-ng.c:416-438 | A later IDB whose options are refused still raises the interface count; the table is unchanged, or grown with the new slot unwritten |
| PcapNgProperties.RefusedInterfaceSlotUnwritten | external/libpcap/sf-pcap-ng.c:416-438 | When a full table grows for an IDB whose options are refused, an EPB or PB naming that interface passes the count check and meets an unwritten slot |
| PcapNgProperties.MidStreamSectionHeader | external/libpcap/sf-pcap-ng.c:781-818 | A later SHB is accepted exactly when it is long enough, has the magic in the file's byte order and major version 1, and then forgets all interfaces; otherwise it fails with "too short", "different byte orders", "bad magic" or "unsupported version" |
| PcapNgProperties.MidStreamInterface | external/libpcap/sf-pcap-ng.c:753-779 | A later IDB fails when too short, then when its link type differs from the first IDB's, then when its snapshot length differs; otherwise it is add_interface |
| PcapNgProperties.OpenStartCases | external/libpcap/sf-pcap-ng.c:490-530 | After the SHB type, a stream that fails before the next two words gives an I/O error; the byte order is the one in which the magic reads right, host order first; a total length under 28 bytes is refused |
| PcapNgProperties.OpenFailureCases | external/libpcap/sf-pcap-ng.c:541-595 | Once the start is read, the open path fails for an unknown precision, then for an SHB cut short, then for a major version other than 1, and otherwise goes on to the IDB loop after the SHB with the minor version read |
| PcapNgProperties.FirstInterfaceFailures | external/libpcap/sf-pcap-ng.c:599-631 | The IDB loop at a clean end of file fails with "no Interface Description Blocks" there; at a packet block it fails with "packet before any IDB" |
| PcapNgProperties.SimplePacketCappedBySnapshot | external/libpcap/sf-pcap-ng.c:711-729 | An SPB is reported on interface 0 at time 0 with caplen = min(len, snapshot) |
| PcapNgProperties.RepeatedInterfaceLinktype | external/libpcap/sf-pcap-ng.c:764-769 | The first IDB met again is accepted exactly when linktype_to_dlt leaves its link type alone |
| PcapNgProperties.GrownTableSize | external/libpcap/sf-pcap-ng.c:418-425 | Growing keeps the table size 0, 1 or a power of 2 |
| PcapNgProperties.StepTableSize | external/libpcap/sf-pcap-ng.c:753-779 | One block keeps or grows the table, keeping the size law |
| PcapNgProperties.NextKeepsTableSize | external/libpcap/sf-pcap-ng.c:666-861 | Across a call of pcap_ng_next_packet the table never shrinks and keeps the size law |
| PcapNgProperties.NotThisFormatCases | external/libpcap/sf-pcap-ng.c:486-518 | "Not this format" exactly when the first word is not BT_SHB, the next two words are cut by a clean end of file, or the magic matches in neither order |
| PcapNgProperties.FirstSectionHasNoCeiling | external/libpcap/sf-pcap-ng.c:561-581 | The first SHB is read whole however long, without the 16 MiB ceiling of read_block |
| Chap.Overwrite | external/ppp/pppd/chap-new.c:247 | Bytes written over a buffer from a position, everything else kept |
| Chap.ChapHeader | external/ppp/pppd/chap-new.c:252-256 | A CHAP header is 4 bytes |
| Chap.ChapHeaderRoundTrip | external/ppp/pppd/chap-new.c:252-256 | Code, identifier and a length below 2^16 read back from the header |
| Chap.ValuePacket | external/ppp/pppd/chap-new.c:241-256 | A Challenge or Response packet is PPP header + 4 + 1 + value + name bytes long |
| Chap.StatusPacket | external/ppp/pppd/chap-new.c:310-320 | A Success or Failure packet is PPP header + 4 + message bytes long |
| Chap.Frame | external/ppp/pppd/chap-new.c:463-492 | chap_input accepts a packet exactly when it holds a header whose length is between 4 and the packet size, and passes on code, identifier and the data up to that length |
| Chap.ValuePacketFrames | external/ppp/pppd/chap-new.c:241-256 | A Challenge packet built for output frames back as its code, identifier, Value-Size, value and name |
| Chap.GenerateChallengeSpec | external/ppp/pppd/chap-new.c:235-257 | Building a challenge keeps the buffer sizes valid |
| Chap.ChallengeFraming | external/ppp/pppd/chap-new.c:249-256 | After chap_generate_challenge the buffer starts with the challenge packet, its recorded length is that packet's, and its identifier byte is the low byte of the incremented id |
| Chap.Transmit | external/ppp/pppd/chap-new.c:229-232 | Sending the challenge outputs its first challenge_pktlen bytes and then arms the timer; it counts one more transmission, marks the timer pending and changes nothing else |
| Chap.TimeoutSpec | external/ppp/pppd/chap-new.c:212-233 | A timeout leaves the client alone, and leaves the timer unarmed exactly when a valid challenge has been sent the maximum number of times |
| Chap.TimeoutCases | external/ppp/pppd/chap-new.c:217-232 | A timeout with no valid challenge builds and sends a fresh one; after the maximum sends it fails the peer; otherwise it resends |
| Chap.LowerUpSpec | external/ppp/pppd/chap-new.c:140-150 | Both sides see the link up; a started server challenges at once, otherwise nothing else changes |
| Chap.LowerDownSpec | external/ppp/pppd/chap-new.c:152-162 | Both flag words are cleared, and a pending timer is cancelled |
| Chap.AuthPeerSpec | external/ppp/pppd/chap-new.c:164-188 | chap_auth_peer keeps the state valid |
| Chap.AuthPeerOnce | external/ppp/pppd/chap-new.c:170-187 | A second chap_auth_peer changes nothing; a first one starts the server with our name and a random byte identifier, and challenges when the link is up |
| Chap.AuthWithPeerSpec | external/ppp/pppd/chap-new.c:190-210 | chap_auth_with_peer is ignored once started, otherwise it takes our name and starts the client |
| Chap.ConcludeSpec | external/ppp/pppd/chap-new.c:322-345 | After a response to a valid challenge the challenge is used up and authentication of the peer is done |
| Chap.JudgeSpec | external/ppp/pppd/chap-new.c:282-305 | Judging a response keeps the state valid |
| Chap.ReplySpec | external/ppp/pppd/chap-new.c:306-320 | The reply is one more output packet: PPP header, Failure exactly when the peer has failed and Success otherwise, the response's identifier, and the verifier's message after the CHAP header; nothing else changes |
| Chap.HandleResponseSpec | external/ppp/pppd/chap-new.c:259-346 | chap_handle_response keeps the state valid |
| Chap.HandleResponseGuards | external/ppp/pppd/chap-new.c:270-280 | A response is dropped when the link is down, the identifier is not the challenge's, the data is under 2 bytes, the Value-Size overruns the data, or no challenge is out and the peer is unjudged |
| Chap.ResponseJudged | external/ppp/pppd/chap-new.c:274-345 | A response to the outstanding challenge cancels the timer and is answered with the verifier's message, as Failure exactly when the peer failed or the verifier refused it; afterwards the challenge is used up, authentication is done, and failed exactly when the reply said so or session management refused a newly judged peer |
| Chap.RepeatedResponseAnswered | external/ppp/pppd/chap-new.c:306-320 | A repeated response after the verdict gets the same verdict again and changes no flag |
| Chap.SuccessSentBeforeSessionCheck | external/ppp/pppd/chap-new.c:314-332 | A peer the verifier accepts but session management refuses is sent Success, then reported failed |
| Chap.RespondSpec | external/ppp/pppd/chap-new.c:371-422 | chap_respond changes no flag; it answers exactly when the client has started and the link is up, with a Response carrying the digest's value and our name |
| Chap.HandleStatusSpec | external/ppp/pppd/chap-new.c:424-461 | Only a waiting client takes a status; it is then done, and failed unless the code is Success and the digest accepts it |
| Chap.ProtrejSpec | external/ppp/pppd/chap-new.c:494-513 | Protocol reject cancels the timer, clears a started server's flags and stops a started client that is not done; other flags are kept |
| Chap.InputSpec | external/ppp/pppd/chap-new.c:463-492 | A packet that does not frame, or has an unknown code, changes nothing |
| Chap.Apply | external/ppp/pppd/chap-new.c:463-513 | Any one call keeps the state valid |
| Chap.Run | external/ppp/pppd/chap-new.c:121-131 | Any sequence of calls keeps the state valid |
| Chap.TimeoutKeepsFlags | external/ppp/pppd/chap-new.c:212-233 | A timeout keeps the flag words consistent |
| Chap.ResponseKeepsFlags | external/ppp/pppd/chap-new.c:259-346 | Handling a response keeps the flag words consistent |
| Chap.ApplyKeepsFlags | external/ppp/pppd/chap-new.c:140-513 | Every call keeps the flag words consistent: a failed side is done, and a server with a challenge, timer or verdict has started |
| Chap.RunKeepsFlags | external/ppp/pppd/chap-new.c:121-131 | From the cleared state of chap_init, no sequence of calls makes the flag words inconsistent |
| Chap.Put | external/ppp/pppd/chap-new.c:247 | Writing bytes in place is Overwrite |
| Chap.ChallengeAssembly | external/ppp/pppd/chap-new.c:241-256 | The four writes of chap_generate_challenge leave the whole challenge packet at the front of the buffer |
| Chap.WriteChallenge | external/ppp/pppd/chap-new.c:241-256 | The in-place writes store the Challenge packet at the front of the buffer |
| Chap.ChapUnit.constructor | external/ppp/pppd/chap-new.c:121-131 | chap_init clears both structures |
| Chap.ChapUnit.Lowerup | external/ppp/pppd/chap-new.c:140-150 | The unit changes as LowerUpSpec says |
| Chap.ChapUnit.Lowerdown | external/ppp/pppd/chap-new.c:152-162 | The unit changes as LowerDownSpec says |
| Chap.ChapUnit.AuthPeer | external/ppp/pppd/chap-new.c:164-188 | The unit changes as AuthPeerSpec says |
| Chap.ChapUnit.AuthWithPeer | external/ppp/pppd/chap-new.c:190-210 | The unit changes as AuthWithPeerSpec says |
| Chap.ChapUnit.Timeout | external/ppp/pppd/chap-new.c:212-233 | The unit changes as TimeoutSpec says |
| Chap.ChapUnit.GenerateChallenge | external/ppp/pppd/chap-new.c:235-257 | The unit changes as GenerateChallengeSpec says |
| Chap.ChapUnit.HandleResponse | external/ppp/pppd/chap-new.c:259-346 | The unit changes as HandleResponseSpec says |
| Chap.ChapUnit.Judge | external/ppp/pppd/chap-new.c:282-305 | The unit changes as JudgeSpec says |
| Chap.ChapUnit.Reply | external/ppp/pppd/chap-new.c:310-320 | The unit sends the reply ReplySpec gives: Success, or Failure exactly when the peer has failed, carrying the message |
| Chap.ChapUnit.Conclude | external/ppp/pppd/chap-new.c:322-345 | The unit changes as ConcludeSpec says |
| Chap.ChapUnit.Respond | external/ppp/pppd/chap-new.c:371-422 | The unit changes as RespondSpec says |
| Chap.ChapUnit.HandleStatus | external/ppp/pppd/chap-new.c:424-461 | The unit changes as HandleStatusSpec says |
| Chap.ChapUnit.Protrej | external/ppp/pppd/chap-new.c:494-513 | The unit changes as ProtrejSpec says |
| Chap.ChapUnit.Input | external/ppp/pppd/chap-new.c:463-492 | The unit changes as InputSpec says |
| Vp9Weight.Pow2 | external/libvpx/libvpx/vp9/encoder/vp9_temporal_filter.c:133 | A power of two is positive |
| Vp9Weight.Rounding | external/libvpx/libvpx/vp9/encoder/vp9_temporal_filter.c:133 | The rounding term is below 2^strength |
| Vp9Weight.Modifier | external/libvpx/libvpx/vp9/encoder/vp9_temporal_filter.c:140-151 | The modifier is between 0 and 16 |
| Vp9Weight.Weight | external/libvpx/libvpx/vp9/encoder/vp9_temporal_filter.c:140-153 | A pixel's weight is between 0 and 16 times the frame weight |
| Vp9Weight.IdenticalPixelsFullWeight | external/libvpx/libvpx/vp9/encoder/vp9_temporal_filter.c:140-153 | A predicted pixel equal to the source pixel gets the full weight 16 * filter_weight |
| Vp9Weight.WeightShrinksWithDistance | external/libvpx/libvpx/vp9/encoder/vp9_temporal_filter.c:140-153 | A predicted pixel further from the source gets no more weight |
| Vp9Weight.ModifierGrows | external/libvpx/libvpx/vp9/encoder/vp9_temporal_filter.c:144-147 | The scaled modifier is monotone in the squared difference |
| Vp9Weight.MulIsProduct | external/libvpx/libvpx/vp9/encoder/vp9_temporal_filter.c:135-162 | The row offset built row by row is the product |
| Vp9Weight.FilterWeight | external/libvpx/libvpx/vp9/encoder/vp9_temporal_filter.c:350-364 | filter_weight is at most 2 |
| Vp9Weight.FilterWeightOrder | external/libvpx/libvpx/vp9/encoder/vp9_temporal_filter.c:341-364 | filter_weight falls as the error grows, is 0 exactly from 20000 on, and the ARF always has the top weight |
| Vp9Accumulate.BlockFitsRest | external/libvpx/libvpx/vp9/encoder/vp9_temporal_filter.c:135-162 | A block that fits has room for its first row and the rest fits as a block |
| Vp9Accumulate.BlockUpdate | external/libvpx/libvpx/vp9/encoder/vp9_temporal_filter.c:135-162 | Updating a block keeps the number of cells |
| Vp9Accumulate.BlockUpdateNextRow | external/libvpx/libvpx/vp9/encoder/vp9_temporal_filter.c:135-162 | A block update is its first row followed by the rest of the block |
| Vp9Accumulate.BlockUpdateKeeps | external/libvpx/libvpx/vp9/encoder/vp9_temporal_filter.c:135-162 | Cells outside the block keep their values |
| Vp9Accumulate.BlockUpdateAt | external/libvpx/libvpx/vp9/encoder/vp9_temporal_filter.c:135-162 | Cell i * bw + j is updated once, from source pixel i * stride + j and predicted pixel i * bw + j |
| Vp9Accumulate.Apply | external/libvpx/libvpx/vp9/encoder/vp9_temporal_filter.c:121-164 | vp9_temporal_filter_apply_c leaves counts and sums as BlockUpdate of the old arrays |
| Vp9Accumulate.ApplyRow | external/libvpx/libvpx/vp9/encoder/vp9_temporal_filter.c:136-161 | The inner loop leaves the cells as RowUpdate of one row |
| Vp9Accumulate.ApplyPixel | external/libvpx/libvpx/vp9/encoder/vp9_temporal_filter.c:137-160 | One pixel adds its weight to its count, wrapping at 16 bits, and its weighted value to its sum, wrapping at 32 bits, and changes no other cell |
| Vp9Accumulate.RowUpdateStep | external/libvpx/libvpx/vp9/encoder/vp9_temporal_filter.c:136-161 | One more pixel of a row updates one more cell |
| Vp9Accumulate.PixelWeight | external/libvpx/libvpx/vp9/encoder/vp9_temporal_filter.c:137-153 | The step-by-step weight computation equals Weight |
| Vp9Accumulate.ApplyAt | external/libvpx/libvpx/vp9/encoder/vp9_temporal_filter.c:121-164 | After Apply, cell i * bw + j holds its old count plus the weight and its old sum plus weight times pixel, each wrapped; all other cells keep their values |
| Vp9Accumulate.ZeroWeightChangesNothing | external/libvpx/libvpx/vp9/encoder/vp9_temporal_filter.c:153-160 | A frame of weight 0 leaves every cell unchanged |
| Vp9Accumulate.CellKeepsAverageBound | external/libvpx/libvpx/vp9/encoder/vp9_temporal_filter.c:155-160 | Without wrap-around a cell's sum stays at most its count times the largest pixel |
| Vp9Accumulate.Cell | external/libvpx/libvpx/vp9/encoder/vp9_temporal_filter.c:155-160 | A count stays below 2^16 and is the old count plus the weight when that fits; a sum stays below 2^32 |
| Vp9Accumulate.Update | external/libvpx/libvpx/vp9/encoder/vp9_temporal_filter.c:137-160 | Every cell update leaves a count below 2^16 and a sum below 2^32 |
| Vp9Normalise.ReciprocalBounds | external/libvpx/libvpx/vp9/encoder/vp9_temporal_filter.c:113-119 | Each nonzero table entry is the largest q with q * i <= 2^19 |
| Vp9Normalise.Init | external/libvpx/libvpx/vp9/encoder/vp9_temporal_filter.c:113-119 | vp9_temporal_filter_init fills the table with 0 and then 2^19 / i |
| Vp9Normalise.Normalised | external/libvpx/libvpx/vp9/encoder/vp9_temporal_filter.c:540-544 | pval, computed in unsigned 32 bits and shifted down 19 places, is below 2^13 |
| Vp9Normalise.EmptyCellGivesZero | external/libvpx/libvpx/vp9/encoder/vp9_temporal_filter.c:540-544 | A cell with count 0 gives the sample 0 |
| Vp9Normalise.NormalisedInRange | external/libvpx/libvpx/vp9/encoder/vp9_temporal_filter.c:540-544 | For sums of 12-bit pixels weighted by the count, the fixed-point division never wraps, gives at most the rounded average, and the cast to the sample width loses nothing |
| Vp9Normalise.ProductBound | external/libvpx/libvpx/vp9/encoder/vp9_temporal_filter.c:540-541 | (sum + count / 2) * reciprocal stays below (maxPixel + 1) * 2^19 |
| Vp9Normalise.SumBound | external/libvpx/libvpx/vp9/encoder/vp9_temporal_filter.c:540 | sum + count / 2 stays below 2^32 |
| Vp9Normalise.Samples | external/libvpx/libvpx/vp9/encoder/vp9_temporal_filter.c:538-550 | There is one sample per cell, each the normalised cell |
| Vp9Normalise.Cells | external/libvpx/libvpx/vp9/encoder/vp9_temporal_filter.c:538-539 | A block of at most 16 x 16 has at most 256 cells |
| Vp9Normalise.PlaneFitsRest | external/libvpx/libvpx/vp9/encoder/vp9_temporal_filter.c:538-550 | A plane block that fits has room for its first row and the rest fits |
| Vp9Normalise.PlaneWrite | external/libvpx/libvpx/vp9/encoder/vp9_temporal_filter.c:538-550 | Writing a block keeps the plane size |
| Vp9Normalise.PlaneWriteNextRow | external/libvpx/libvpx/vp9/encoder/vp9_temporal_filter.c:538-550 | Writing a block is its first row followed by the rest, one stride on |
| Vp9Normalise.PlaneWriteKeeps | external/libvpx/libvpx/vp9/encoder/vp9_temporal_filter.c:538-550 | Positions before the block and after its last row are untouched |
| Vp9Normalise.PlaneWriteAt | external/libvpx/libvpx/vp9/encoder/vp9_temporal_filter.c:538-550 | Sample i * bw + j lands at i * stride + j from the origin |
| Vp9Normalise.NormaliseLuma | external/libvpx/libvpx/vp9/encoder/vp9_temporal_filter.c:535-550 | The luma loop stores the 16 x 16 samples of cells 0..255 into the plane as PlaneWrite says |
| Vp9Normalise.NormaliseRow | external/libvpx/libvpx/vp9/encoder/vp9_temporal_filter.c:539-548 | One luma row stores its samples as RowWrite says |
| Vp9Normalise.NormalisePixel | external/libvpx/libvpx/vp9/encoder/vp9_temporal_filter.c:540-544 | pval of one cell, cut to the sample width, is Sample of Normalised |
| Vp9Normalise.NormaliseChroma | external/libvpx/libvpx/vp9/encoder/vp9_temporal_filter.c:552-576 | The chroma loop stores cells 256.. into U and the cells 256 further on into V, at the same positions, as PlaneWrite says |
| Vp9Normalise.NormaliseChromaRow | external/libvpx/libvpx/vp9/encoder/vp9_temporal_filter.c:557-574 | One chroma row stores U and V samples as RowWrite says |
| Vp9Arnr.CDiv | external/libvpx/libvpx/vp9/encoder/vp9_temporal_filter.c:626 | C division truncates toward zero |
| Vp9Arnr.FramesForward | external/libvpx/libvpx/vp9/encoder/vp9_temporal_filter.c:596-604 | frames_fwd is at most the frames after the ARF and at most the distance |
| Vp9Arnr.FramesBackward | external/libvpx/libvpx/vp9/encoder/vp9_temporal_filter.c:606-611 | frames_bwd is frames_fwd or one more, and the extra frame stays within the distance |
| Vp9Arnr.BaseStrength | external/libvpx/libvpx/vp9/encoder/vp9_temporal_filter.c:616-629 | The strength is the configured one above q 16, otherwise lowered and not negative |
| Vp9Arnr.AdjustArnrFilter | external/libvpx/libvpx/vp9/encoder/vp9_temporal_filter.c:590-651 | The window is frames_bwd + 1 + frames_fwd when that is within group_boost / 150, and otherwise that cap or one more, odd; without halving the strength is the smaller of the base strength and group_boost / 300 |
| Vp9Arnr.ArnrBounds | external/libvpx/libvpx/vp9/encoder/vp9_temporal_filter.c:590-651 | The blur window is at most frames_bwd + 1 + frames_fwd and odd when the group boost caps it; the strength is at most boost / 300 and not negative; halving for a non-standard ARF leaves the window alone and halves the strength |
| Vp9Arnr.SetUpFrames | external/libvpx/libvpx/vp9/encoder/vp9_temporal_filter.c:664-678 | frames[n] is lookahead entry start_frame - (frames_to_blur - 1 - n), the rest stay empty, and the ARF index frames_to_blur / 2 holds the entry at distance |
| Libdw.FormValLenMatchesDwarf | external/elfutils/src/libdw/libdwP.h:442-466 | A form with a fixed DWARF 4 size gets exactly that length when the unit has room and an invalid-DWARF error otherwise; every other form goes to the general computation |
| Libdw.FormValLen | external/elfutils/src/libdw/libdwP.h:442-466 | A fixed length is within the bytes left and below 0x80; the general computation is used exactly for the forms without a fixed size |
| Libdw.CheckedGetData | external/elfutils/src/libdw/libdwP.h:542-553 | The section data is returned exactly when it exists with a buffer; otherwise the error is invalid DWARF |
| Libdw.OffsetInSectionExact | external/elfutils/src/libdw/libdwP.h:555-570 | The offset check succeeds exactly when [offset, offset + size) lies in the section, and reports invalid DWARF or invalid offset otherwise |
| Libdw.OffsetInSection | external/elfutils/src/libdw/libdwP.h:555-570 | An accepted offset check means the section data exists and offset + size is within it |
| Libdw.Sub64 | external/elfutils/src/libdw/libdwP.h:580 | size_t subtraction wraps modulo 2^64 |
| Libdw.InSection | external/elfutils/src/libdw/libdwP.h:572-587 | An accepted address check means the data exists and the address is not before the buffer; missing data is invalid DWARF |
| Libdw.InSectionWithinBuffer | external/elfutils/src/libdw/libdwP.h:572-587 | For an address up to the end of the data, the address check succeeds exactly when the range lies inside it |
| Libdw.InSectionAcceptsPastEnd | external/elfutils/src/libdw/libdwP.h:579-580 | The address check as written accepts one byte just past the end of a 16-byte section |
| Libdw.InSectionBoundedExact | external/elfutils/src/libdw/libdwP.h:572-587 | The bounded check succeeds exactly when the range lies inside the data, and agrees with the check as written up to the end of the data |
| Libdw.DieOffsetFromCuOffset | external/elfutils/src/libdw/libdwP.h:299-301 | For 4- and 8-byte offsets the first DIE is the unit offset plus the unit header size, modulo 2^64 |
| Libdw.DieOffsetAfterHeader | external/elfutils/src/libdw/libdwP.h:299-301 | The first DIE starts right after the unit header: 11 or 23 bytes for 32-bit units, 23 or 39 for 64-bit units |
| Libdw.CuSecIdx | external/elfutils/src/libdw/libdwP.h:648-652 | A unit goes in .debug_info exactly when its type offset is 0, otherwise in .debug_types |
| Libdw.Rem | external/elfutils/src/libdw/libdwP.h:369-371 | The remainder is below the divisor |
| Libdw.RemAdd | external/elfutils/src/libdw/libdwP.h:369-371 | Adding less than the missing amount adds to the remainder, and adding exactly it reaches a multiple |
| Libdw.Padding | external/elfutils/src/libdw/libdwP.h:369-371 | The padding is below the alignment and makes the address aligned |
| Libdw.PaddingLeast | external/elfutils/src/libdw/libdwP.h:369-371 | No smaller padding aligns the address |
| Libdw.MemBlock.constructor | external/elfutils/src/libdw/libdwP.h:365-368 | A new block has all its size free |
| Libdw.MemBlock.Alloc | external/elfutils/src/libdw/libdwP.h:365-380 | The fast path carves an aligned result of tsize * cnt bytes after the padding when it fits, otherwise falls back with the unpadded size and leaves the block alone |
| Ethtool.SplitJoin | external/kernel-headers/original/uapi/linux/ethtool.h:110-121 | Splitting any 32-bit speed and joining the halves gives it back |
| Ethtool.JoinSplit | external/kernel-headers/original/uapi/linux/ethtool.h:110-121 | Joining two halves and splitting gives the halves back |
| Ethtool.JoinValue | external/kernel-headers/original/uapi/linux/ethtool.h:118-121 | The or of the shifted high half and the low half is speed_hi * 65536 + speed |
| Ethtool.Cmd.constructor | external/kernel-headers/original/uapi/linux/ethtool.h:90-108 | A zeroed structure has speed 0 |
| Ethtool.Cmd.Speed | external/kernel-headers/original/uapi/linux/ethtool.h:118-121 | ethtool_cmd_speed has speed as low half and speed_hi as high half |
| Ethtool.Cmd.SpeedSet | external/kernel-headers/original/uapi/linux/ethtool.h:110-116 | ethtool_cmd_speed_set stores the two halves, touches no other field, and the speed read back is the one set |

## Left out

- File I/O: the stream is a byte sequence with a read position, plus a flag saying whether the stream reports an error once the bytes run out. `fread`, `ferror` and `errno` text are not modelled; error messages are an `Error` datatype.
- Allocation failure (`malloc` or `realloc` returning NULL in `read_block`, `add_interface` and `pcap_ng_check_header`) is not modelled. Neither is `pcap_open_offline_common` failing. Allocation always succeeds.
- `swap_pseudo_headers`, called at the end of `pcap_ng_next_packet` for swapped files, is not part of this model; the packet data is handed over as read.
- `linktype_to_dlt` is a function parameter `dlt`, because its table lives outside this file.
- PcapNgReader.Session.ReadBody: after a reallocation the recorded `bufsize` is not updated, as in the source, so later blocks may reallocate again; the model keeps that but states nothing about memory use.
- PcapNgOptions.TsresolFromByte: `1 << (v & 0x7F)` for a shift of 32 or more is undefined in C; the model takes the value modulo 2^32, which is 0, so such a resolution is refused.
- PcapNgBlocks.EmitSpec: after a refused IDB that grew the table, the new slot was never written and the source reads indeterminate memory for a packet on it; the model marks the slot unwritten and stops with `UnwrittenInterface` instead of inventing a value.
- PcapNgScale.Timestamp: seconds are kept as an unsigned 64-bit value; the narrowing of `hdr->ts.tv_sec = sec` to a 32-bit `time_t` on 32-bit platforms is not modelled.
- Ethtool.Cmd.Speed: `ep->speed_hi << 16` shifts an `int`, which is undefined in C for speed_hi of 0x8000 or more; `Ethtool.Join` does the shift in 32 unsigned bits, the value compilers produce, and JoinValue states it.
- PcapNgOptions.OptionStep: the if_tsresol value is read as `*(u_int *)optvalue` cut to a byte; the model takes the first value byte, which is what a little-endian host reads.
- Capture-file cleanup (`pcap_ng_cleanup`) and the `tzoff` and `linktype_ext` fields set at the end of the open are not modelled.
- CHAP digests: the digest's challenge generator, the response computation and the verifier are parameters (the challenge value, the response value and a `Verdict`). `chap_verify_response` and `chap_register_digest` are not part of this model.
- CHAP names: `slprintf` of the peer name, the use of `explicit_remote` and `remote_name` in `chap_respond` (chap-new.c:393; in `chap_handle_response` it is modelled by HandleResponseSpec), the digest lookup (`fatal` for an unknown digest) and logging (`warn`, `error`, `chap_print_pkt`) are left out. The name passed on is a parameter.
- Chap.ChapUnit.AuthPeer: `drand48() * 256` is a parameter `rand`.
- Chap.GenerateChallengeSpec: the server's `id` is an unbounded counter; only its low byte goes into packets, as the source stores it, and an `int` overflow after 2^31 challenges is not modelled.
- Chap flag words are sets of flags rather than bit masks; the bit tests of the source are membership tests.
- `auth_peer_fail`, `auth_peer_success`, `auth_withpeer_*`, `output` and the timers are recorded as events, not called.
- VP9: motion search (`temporal_filter_find_matching_mb_c`), the predictors, the scaling of frames, the qindex-to-q conversion and the high bit-depth pointer macros are not part of this model. The motion-search error and `q` are inputs.
- Vp9Accumulate.Apply: pixels are unbounded integers; the 8-bit and 16-bit frame types are not enforced. Both the 8-bit and the high bit-depth apply functions have the same body and are covered by this one method.
- Vp9Normalise.NormaliseLuma: `accumulator`, `count` and `fixed_divide` are read-only in the output loops and are passed as values rather than arrays. The loops require only that the table has 512 non-negative entries; `Init` proves the table it builds is such a table.
- Vp9Normalise.PlaneWriteAt: stated only when bw <= stride (rows do not overlap); the bytes between the rows of the block are not stated as unchanged.
- Vp9Normalise.NormalisedInRange: stated for counts 1 to 511, the indices the 512-entry table covers. A count of 0 is covered by EmptyCellGivesZero. A larger count would index past `fixed_divide` in the source too.
- Vp9Arnr.SetUpFrames: lookahead entries are modelled by their index; `vp9_lookahead_peek` returning NULL is not modelled.
- Libdw.MemBlock.Alloc: `tsize * cnt` is assumed not to overflow `size_t`; `__libdw_allocate` is not part of this model, and the call to it is reported as a `Deferred` result.
- Libdw.Padding: computed from the remainder of the address by the alignment, which equals the mask expression of the source for the power-of-two alignments `__alignof` gives.
- The rest of `libdwP.h` (the reading and relocation macros and the other declarations) is not modelled. So is the rest of `ethtool.h` beyond the speed accessors.

## Findings

| source | as written | input that shows it | evidently intended | confidence | as-written member | corrected member |
|---|---|---|---|---|---|---|
| external/libpcap/sf-pcap-ng.c:840-843 | SCALE_UP computes frac * tsresol / user_tsresol, the reverse of SCALE_DOWN's frac * user_tsresol / tsresol | an interface with if_tsresol 10^3 read at microsecond precision, fraction 500 ticks: gives 0 | frac * user_tsresol / tsresol, as in SCALE_DOWN, which gives 500000 | high; not executed | PcapNgScale.ScaleUpLosesFraction | PcapNgScale.IntendedKeepsTime |
| external/elfutils/src/libdw/libdwP.h:579-580 | `__libdw_in_section` does not check that addr is at most d_buf + d_size before computing d_size - (addr - d_buf) in size_t | a 16-byte section at 0x1000 and addr 0x1011, size 1: the subtraction wraps and the check passes | addr within [d_buf, d_buf + d_size] and the remaining bytes at least size | high; not executed | Libdw.InSectionAcceptsPastEnd | Libdw.InSectionBoundedExact |
