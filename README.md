# MilaMonorepo telemetry core, modelled in Dafny

This project models the telemetry path of the Mila vehicle software and proves properties of the model.
The path runs from the car to the pit and back:

- **LoRa transmitter** (`mila-embedded/src/telemetryTX`, modules `LoraConfig`, `LoraErrLog`,
  `LoraTxApi`, `LoraTxQueue`, `LoraBlast`).
  - The driver configuration and its fixed radio constants.
  - The error log. It holds up to 8 distinct negative radio error codes, and a flag bitmask for
    codes 1 to 31. It keeps no counts.
  - The frame API. It puts an id header in front of a frame: the id's low 11 bits, a 4-bit data length
    and an extension id in 7-bit groups. Frames that are too long are refused.
  - The transmit queue: fixed 252-byte rows, and the refill of the burst buffer from the queue.
  - The "blast" protocol. A burst of up to 8 packets is stamped with a protocol id and a sequence byte
    and is sent packet by packet. After its last packet the transmitter listens for the ack. An empty
    burst is replaced by a silencer, after which the radio is put in receive mode. The receiver's ack
    bitmap then removes the acknowledged packets, and the ack parity flips for the next burst.
- **Serial bridge** (`SerialBridge.java`, module `SerialLink`). A 256-byte ring buffer is filled from
  the serial port.
  - An inbound frame is 15 bytes: the start byte 0xFF, a 16-bit ones'-complement checksum in the style of
    section 1 of RFC 1071 (low byte first), then a 12-byte payload. There is no length byte.
  - Frames are parsed out with resynchronisation after junk or a corrupt frame.
  - An outbound frame is 11 bytes: 0xFF, the checksum low byte first, then 8 data bytes.
- **CAN decoder of the telemetry dashboard** (`CanParser.java`, `TelemetryLookup.java`,
  `IntConstUtils.java`; modules `CanDecode`, `CanReports`, `CanParser`, `TelemetryLookup`, `IntConst`).
  - Each 12-byte line is a little-endian id and a 64-bit data word. It is routed by its CAN function code.
  - Handlers cover warnings, heartbeat pongs, transmitted data points (unpacked by the frame layout of the
    telemetry lookup and checked against their bounds), heartbeat status and timing pages, and bus status.
  - The UI notifications are an abstract log of structured notices. Persistent chips are state.
- **Reverse camera** (`reverse-camera/*.py`; modules `Chunking`, `UdpChunky`, `Rtp`).
  - A file is sliced into datagrams, each behind an 8-byte header.
  - The camera sender slices each JPEG frame into RTP packets with a 12-byte header.
  - The receiver reassembles the packets of each stream. It hands a complete frame to the decoder and
    drops a frame that is still incomplete after 20 ms.
- **Vehicle state and generated metadata** (`dashboard/src-tauri/src/lib.rs`,
  `autogen/vsr/src/*.rs`; modules `VehicleState`, `VsrMetadata`). The dashboard keeps a bounded,
  newest-first event log. The generated VSR metadata computes the size of a record from the sizes of its fields.

`common.dfy` (module `Bits`) holds the shared arithmetic:
- bytes;
- 2^n;
- bit fields;
- little- and big-endian encodings;
- Java's 32/64-bit wrap-around and truncating division;
- decimal text.

Imperative source code is modelled imperatively:
- the serial bridge's ring buffer, the transmit queue and the blaster are classes over arrays;
- the CAN parser is a class whose methods update its fields and post notices.

Every such method is proved against a specification function. The lemmas then state what the source
promises about that function: round trips, invariants, counts and "nothing else changes".

Where comments in the source and the code disagree, the model follows the code. The one exception
is the burst refill, whose recorded row length is listed under "## Findings": the transmit state
machine uses the corrected length, and "## Left out" names the members that carry it.
The disagreements followed as written:
- `SerialBridge` parses every complete frame on each call, although its comment promises one.
- The checksum is written little-endian, although the comment calls it big-endian.
- The silencer's placeholder bytes 2-3 are overwritten by the header that `safeProtocolTransmit` writes.
- `processBitmap` compacts the burst rows but not `burstBufferLens`, so lengths stay at their old rows.
- After a short first read, the second read of `SerialBridge` writes at index 0 of the ring array
  (`SerialLink.ShortFirstReadLandsAtZero`).
- A full 256-byte ring whose first 0xFF lies in its last 14 bytes never changes again: nothing can be
  read into it and the parse loop stops at the incomplete frame, so `SerialBridge` stops receiving
  (`SerialLink.FullRingStuck`, with a concrete ring in `SerialLink.FullRingStuckExample`).

The ack parity is ORed into the flags byte of a burst row and never cleared, so a packet that stays in
the burst after the parity has flipped back to 0 is sent again with the bit of the earlier burst
(`LoraBlast.ParityNeverCleared`).

## Model

| member | source | states |
|---|---|---|
| Chunking.ChunkCount | reverse-camera/UDPSENDCHUNKY.py:14 | the slice count is the least count whose slices cover the bytes: enough slices, one fewer would not do, zero exactly for an empty file |
| Chunking.Slice | reverse-camera/UDPSENDCHUNKY.py:16-18 | every slice is non-empty and at most one payload long; all but the last are full, and the last ends at the end of the file |
| Chunking.JoinedIsPrefix | reverse-camera/UDPSENDCHUNKY.py:16-18 | the first k slices joined in index order are exactly the file's first k payloads of bytes (or the whole file) |
| Chunking.Reassembles | reverse-camera/UDPSENDCHUNKY.py:16-18 | joining every slice in index order gives the file back |
| UdpChunky.ChunkHeader | reverse-camera/UDPSENDCHUNKY.py:20-21 | the `!IHH` header is 8 bytes long |
| UdpChunky.ParseDatagram | reverse-camera/UDPSENDCHUNKY.py:20-22 | a datagram yields a header and data exactly when it holds the 8 header bytes |
| UdpChunky.HeaderRoundTrip | reverse-camera/UDPSENDCHUNKY.py:20-22 | header plus data parses back to the file id, slice count, slice index and data that were packed |
| UdpChunky.Datagrams | reverse-camera/UDPSENDCHUNKY.py:14-22 | there is one datagram per slice |
| UdpChunky.DatagramsCarryFile | reverse-camera/UDPSENDCHUNKY.py:14-22 | datagram i carries file id 1, the slice count, index i and slice i, and the slices' data joined is the file |
| UdpChunky.SendFile | reverse-camera/UDPSENDCHUNKY.py:12-23 | the loop sends exactly the datagrams of the file in index order; with more than 65535 slices the header packing fails before anything is sent |
| VehicleState.PushedLog | dashboard/src-tauri/src/lib.rs:62-67 | the new entry is at the front; below capacity the old log follows in full; at capacity the oldest entry is dropped; the log never grows past 80 |
| VehicleState.PushedAllWindow | dashboard/src-tauri/src/lib.rs:62-67 | after any run of pushes the log is the newest 80 of the pushed entries followed by the old log, newest first |
| VehicleState.Vehicle.constructor | dashboard/src-tauri/src/lib.rs:48-58 | a fresh state is parked and its log is exactly ["telemetry online"] |
| VehicleState.Vehicle.PushLog | dashboard/src-tauri/src/lib.rs:62-67 | the log becomes the pushed log and stays within 80 entries |
| VehicleState.Vehicle.SetDriveMode | dashboard/src-tauri/src/lib.rs:33-38 | the mode is stored and returned, and "drive -> <mode>" is pushed onto the log |
| VsrMetadata.TypeSize | autogen/vsr/src/vsr_metadata.rs:14-25 | only the ten numeric types have a size, and it is 1, 2, 4 or 8 bytes |
| VsrMetadata.AllFields | autogen/vsr/src/vsr_metadata.rs:12-13 | no subtypes means no fields |
| VsrMetadata.FieldsSizeNoneIffUnsized | autogen/vsr/src/vsr_metadata.rs:25 | the size is missing if and only if some field has a type without a size |
| VsrMetadata.FieldsSizeBounds | autogen/vsr/src/vsr_metadata.rs:14-24 | fields of sized types sum to between 1 and 8 bytes per field |
| VsrMetadata.GetSize | autogen/vsr/src/vsr_metadata.rs:10-30 | the nested loops return the sum of the field sizes over all subtypes, or None when some field has no size |
| VsrMetadata.NoneExtends | autogen/vsr/src/vsr_metadata.rs:25 | one unsized field anywhere makes the whole size None |
| VsrMetadata.AllFieldsIndex | autogen/vsr/src/vsr_metadata.rs:12-13 | every field of every subtype is visited by the flattened walk |
| VsrMetadata.NoFieldsSizeZero | autogen/vsr/src/vsr_metadata.rs:11-29 | with no fields at all the size is Some(0) |
| VsrMetadata.DeclaredVsrHasNoSize | autogen/vsr/src/vsr.rs:43 | the declared record, which has a `bool` field, has no size |
| LoraConfig.GetStandardConfig | mila-embedded/src/LoraCommon/LoraDriverConfig.hpp:42-83 | every config has 915 MHz, 250 kHz, SF 7, coding rate 7, sync word 18 and preamble 8; the TCXO is 1.8 V on Ebyte and 2.2 V otherwise; low power gives duty 2, hp_max 2, power 8; high power gives power 22, with duty 2 and hp_max 3 on Ebyte (the later assignments win) and 4 and 7 on Wio |
| LoraErrLog.RadioErrsAfter | mila-embedded/src/telemetryTX/LoraErrLog.cpp:30-41 | the held errors change if and only if the code is negative, not already held and there is room; then it is appended; the buffer stays duplicate-free and within 8 |
| LoraErrLog.FlagsAfter | mila-embedded/src/telemetryTX/LoraErrLog.cpp:42-48 | codes 1..31 set their own bit and no other; zero, negative and too-large codes leave the flags alone |
| LoraErrLog.LogTwiceSameAsOnce | mila-embedded/src/telemetryTX/LoraErrLog.cpp:30-48 | logging the same code twice has the effect of logging it once |
| LoraErrLog.ErrLog.constructor | mila-embedded/src/telemetryTX/LoraErrLog.cpp:13-16 | the static buffer starts empty with no flags set |
| LoraErrLog.ErrLog.InitErr | mila-embedded/src/telemetryTX/LoraErrLog.cpp:21-27 | no radio errors are held and no flags are set |
| LoraErrLog.ErrLog.LogErr | mila-embedded/src/telemetryTX/LoraErrLog.cpp:30-49 | the scan loop leaves the held errors and the flags as RadioErrsAfter and FlagsAfter say |
| IntConst.LastHolder | telem-dashboard/src/main/java/IntConstUtils.java:11-18 | the result is the last eligible field holding the value, or -1 when no eligible field holds it |
| IntConst.TableOfLaterWins | telem-dashboard/src/main/java/IntConstUtils.java:9-21 | a value is in the table if and only if some `static final int` field holds it, and it is named after the last such field, because a later `put` wins |
| IntConst.BuildIntConstantMap | telem-dashboard/src/main/java/IntConstUtils.java:9-21 | the field loop builds exactly the table of the eligible fields, in scan order |
| IntConst.NameIn | telem-dashboard/src/main/java/IntConstUtils.java:28 | a name is returned if and only if the value is in the table, and it is the recorded name |
| IntConst.FlagHitBasics | telem-dashboard/src/main/java/IntConstUtils.java:35-40 | a constant equal to 0 is never listed, nothing is listed for the word 0, and a nonzero constant is listed for a word equal to it |
| IntConst.NoFlagsTextIffNoMatch | telem-dashboard/src/main/java/IntConstUtils.java:42-45 | the result is "no flags set" if and only if nothing matched, since constant names can never spell that text |
| IntConst.NamesOf | telem-dashboard/src/main/java/IntConstUtils.java:35-39 | name i is the table's name for key i |
| IntConst.MatchingNames | telem-dashboard/src/main/java/IntConstUtils.java:34-40 | the entry loop lists the names of exactly the entries that share a bit with the word, each once, in the map's iteration order; it lists nothing if and only if no entry shares a bit |
| IntConst.ConstTables.constructor | telem-dashboard/src/main/java/IntConstUtils.java:24 | the cache starts empty |
| IntConst.ConstTables.TableFor | telem-dashboard/src/main/java/IntConstUtils.java:24-27 | the table returned is the class's field table; a cached table is reused with the cache unchanged, otherwise it is built and cached |
| IntConst.ConstTables.NameFromInt | telem-dashboard/src/main/java/IntConstUtils.java:26-29 | the result is the name the class's table records for the value, or empty |
| IntConst.ConstTables.FlagsFromInt | telem-dashboard/src/main/java/IntConstUtils.java:31-46 | the names listed are those of exactly the table entries sharing a bit with the word, joined by ", ", or "no flags set" when there are none |
| Rtp.FirstWord | reverse-camera/sender.py:28-30 | the first header word fits in 16 bits |
| Rtp.BuildRtpHeader | reverse-camera/sender.py:27-31 | the fixed header is 12 bytes long |
| Rtp.ParseRtp | reverse-camera/receiver.py:25-31 | packets under 12 bytes are rejected; a parsed packet's payload is everything after the header; the sequence number fits 16 bits, timestamp and SSRC 32 bits, the payload type 7 bits |
| Rtp.FirstWordFields | reverse-camera/receiver.py:28-30 | the first word carries version 2, the marker in bit 7 and the payload type in bits 0..6, as the receiver reads them |
| Rtp.HeaderRoundTrip | reverse-camera/receiver.py:25-31 | parsing a built header plus payload gives back the sequence number mod 2^16, timestamp and SSRC mod 2^32, the marker, the payload type's low 7 bits and the payload |
| Rtp.FramePackets | reverse-camera/sender.py:89-98 | a frame goes out as one packet per slice |
| Rtp.PacketParses | reverse-camera/sender.py:92-98 | packet i of a frame parses to sequence number seq+i mod 2^16, the frame's timestamp, payload type 96, the marker exactly on the last packet, and slice i |
| Rtp.FramePacketsParse | reverse-camera/sender.py:89-98 | every packet of a frame parses as in PacketParses, and the slices join back into the JPEG |
| Rtp.SendFrame | reverse-camera/sender.py:85-100 | a missing or empty JPEG sends nothing and advances nothing; otherwise the chunk loop sends exactly the frame's packets, seq advances by one per packet mod 2^16 and the timestamp by ts_inc mod 2^32 |
| Rtp.MaybeDisplay | reverse-camera/receiver.py:33-37 | the stream always ends with no timestamp, no packets and not complete; a frame goes to the decoder if and only if the stream was complete, and it is the joined payloads |
| Rtp.Accept | reverse-camera/receiver.py:71-78 | the stream ends on the packet's timestamp with the payload last and complete if the packet has the marker; on the same timestamp the payload is appended and nothing is displayed; on a new timestamp the frame in progress goes through maybe_display and a new frame of one payload starts |
| Rtp.Slices | reverse-camera/sender.py:90-94 | the first k slices, joined, are the JPEG's first k chunks |
| Rtp.FramePrefixReassembles | reverse-camera/receiver.py:65-78 | after the first i packets of a frame its stream holds the first i slices and is complete exactly when all have arrived; only the first packet can flush an older frame |
| Rtp.ReceiveSlice | reverse-camera/receiver.py:66-78 | one packet of a frame changes only its own SSRC's stream: appended on the same timestamp, a new frame otherwise |
| Rtp.ReceiveAccepted | reverse-camera/receiver.py:66-78 | a parsed packet with payload type 96 goes to its SSRC's stream, created idle on first use |
| Rtp.FrameDelivered | reverse-camera/receiver.py:65-85 | a whole frame sent by the sender is reassembled by the receiver into a complete stream, and what maybe_display hands to the decoder is exactly the sent JPEG |
| Rtp.Receiver.constructor | reverse-camera/receiver.py:59 | no streams and nothing decoded |
| Rtp.Receiver.OnDatagram | reverse-camera/receiver.py:66-78 | the inner loop body leaves the streams and the decoded frames as the Receive function says |
| Rtp.Receiver.DisplayNow | reverse-camera/receiver.py:33-37 | the stream's frame is handed to the decoder exactly when it is complete |
| Rtp.Receiver.Sweep | reverse-camera/receiver.py:82-86 | a stream with no frame in progress is left alone; a complete frame, or one older than 20 ms, goes through maybe_display and the stream becomes idle; otherwise nothing changes |
| TelemetryLookup.FirstWith | telem-dashboard/src/main/java/TelemetryLookup.java:86-96 | the result is the first entry carrying the key, or -1 when none does |
| TelemetryLookup.LastWith | telem-dashboard/src/main/java/TelemetryLookup.java:100-103 | the result is the last entry carrying the key, or -1 when none does |
| TelemetryLookup.FirstWinsKeepsFirst | telem-dashboard/src/main/java/TelemetryLookup.java:86-96 | after a run of `putIfAbsent`, a key is present if and only if some entry carried it, and it holds the first such entry's value |
| TelemetryLookup.LastWinsKeepsLast | telem-dashboard/src/main/java/TelemetryLookup.java:100-103 | after a run of `put`, a key is present if and only if some entry carried it, and it holds the last such entry's value |
| TelemetryLookup.NodeEntries | telem-dashboard/src/main/java/TelemetryLookup.java:79-89 | one node entry per row |
| TelemetryLookup.FrameEntries | telem-dashboard/src/main/java/TelemetryLookup.java:92-96 | one frame entry per row |
| TelemetryLookup.DataEntries | telem-dashboard/src/main/java/TelemetryLookup.java:99-103 | one data entry per row |
| TelemetryLookup.Lookup.constructor | telem-dashboard/src/main/java/TelemetryLookup.java:60-70 | the registry is exactly what loadInto builds from the rows, and every data key has its frame and every frame its node |
| TelemetryLookup.Lookup.LoadInto | telem-dashboard/src/main/java/TelemetryLookup.java:72-106 | the row loop leaves nodes and frames as first-row-wins maps and data points as a last-row-wins map, with every data key's frame and every frame's node present |
| TelemetryLookup.Lookup.GetNodeById | telem-dashboard/src/main/java/TelemetryLookup.java:110-112 | the stored node if there is one, otherwise empty |
| TelemetryLookup.Lookup.GetFrame | telem-dashboard/src/main/java/TelemetryLookup.java:114-116 | the stored frame if there is one, otherwise empty |
| TelemetryLookup.Lookup.GetDataInfo | telem-dashboard/src/main/java/TelemetryLookup.java:118-124 | the stored data point if there is one, otherwise empty |
| TelemetryLookup.Lookup.GetCommitmentById | telem-dashboard/src/main/java/TelemetryLookup.java:126-137 | present if and only if the node, the frame and the data point are all stored, and then it holds exactly those three |
| TelemetryLookup.Lookup.TitleFor | telem-dashboard/src/main/java/TelemetryLookup.java:142-148 | the title is the node part, a '.', then the data part, and cutting it at its first '.' gives both parts back when the node part has no '.' |
| TelemetryLookup.Lookup.GetNodeName | telem-dashboard/src/main/java/TelemetryLookup.java:150-159 | a stored node's name first; otherwise the special-ID table's name for the id, or empty |
| TelemetryLookup.Lookup.CommitmentIffDataPoint | telem-dashboard/src/main/java/TelemetryLookup.java:126-137 | in a loaded registry a commitment exists if and only if the data key is stored |
| TelemetryLookup.Lookup.NodeNameSources | telem-dashboard/src/main/java/TelemetryLookup.java:150-159 | a name exists if and only if the node is stored or some special-ID constant holds the id; a node without a row is named by the last such constant |
| TelemetryLookup.LoadedAnswers | telem-dashboard/src/main/java/TelemetryLookup.java:79-137 | a loaded registry answers the first row of a node and of a (node, frame) pair, the last row of a data key, and a commitment for exactly the data keys some row carries |
| TelemetryLookup.UnknownTitleGivesIds | telem-dashboard/src/main/java/TelemetryLookup.java:145-147 | a title built from the fallbacks reads back as "node", the node id, ".", "dp" and the data index |
| LoraTxApi.ExtIdSize | mila-embedded/src/telemetryTX/LoraTransmitAPI.cpp:33-46 | 0 exactly for extension 0, 1 exactly for 1..0x7F, 2 exactly for 0x80..0x3FFF, and 3 otherwise |
| LoraTxApi.ExtBytes | mila-embedded/src/telemetryTX/LoraTransmitAPI.cpp:62-70 | one byte per 7-bit group, with bit 7 set on every byte but the last |
| LoraTxApi.IdHeader | mila-embedded/src/telemetryTX/LoraTransmitAPI.cpp:52-71 | the header is 2 plus the extension size bytes, at most 5; byte 0 is the id's low byte; byte 1 holds id bits 8..10 and the 4-bit data length; its bit 7 is set if and only if an extension follows |
| LoraTxApi.ReadExt | mila-embedded/src/telemetryTX/LoraTransmitAPI.cpp:62-70 | a successful read consumes between 1 and `limit` bytes of the input |
| LoraTxApi.ReadExtBytes | mila-embedded/src/telemetryTX/LoraTransmitAPI.cpp:62-70 | the extension bytes of a value below 2^(7n) read back as that value in n bytes, whatever follows them |
| LoraTxApi.Frame | mila-embedded/src/telemetryTX/LoraTransmitAPI.cpp:80-85 | the frame is the header, then exactly the data |
| LoraTxApi.FrameRoundTrip | mila-embedded/src/telemetryTX/LoraTransmitAPI.cpp:52-102 | for an extension below 2^21 and at most 15 data bytes, the frame reads back as the id's low 11 bits, the extension, the length and the data |
| LoraTxApi.WriteId | mila-embedded/src/telemetryTX/LoraTransmitAPI.cpp:52-71 | the write pointer advances by exactly 2 plus the extension size, at most 5; the bytes written are the header and nothing else in the buffer changes |
| LoraTxApi.BuildCanFrame | mila-embedded/src/telemetryTX/LoraTransmitAPI.cpp:74-86 | more than 8 data bytes gives no frame; otherwise the frame is header then data |
| LoraTxApi.BuildOversizeFrame | mila-embedded/src/telemetryTX/LoraTransmitAPI.cpp:89-102 | more than 15 data bytes gives no frame; otherwise the frame is header then data |
| LoraTxApi.FillFrame | mila-embedded/src/telemetryTX/LoraTransmitAPI.cpp:80-85 | the bytes up to the final write pointer are the frame |
| LoraTxApi.CopyData | mila-embedded/src/telemetryTX/LoraTransmitAPI.cpp:83 | the data is copied behind the header and the header is kept |
| LoraTxQueue.Slot | mila-embedded/src/telemetryTX/LoraTransmitQueue.cpp:37 | the ring position k rows after the tail is (tail + k) mod 64 |
| LoraTxQueue.PacketsOf | mila-embedded/src/telemetryTX/LoraTransmitQueue.cpp:9-12 | there is one queued packet per counted row |
| LoraTxQueue.FirstFit | mila-embedded/src/telemetryTX/LoraTransmitQueue.cpp:30-43 | the result is the oldest packet from the start point on whose row has room for the frame (`spaceInBuffer`); none is found only when no such packet has room |
| LoraTxQueue.QueueAdd | mila-embedded/src/telemetryTX/LoraTransmitQueue.cpp:34-57 | the queue never holds more than 64 packets; a full queue drops its oldest packet and the frame becomes the newest; otherwise the frame is appended to the oldest packet with room, or, when none has room, opens a new newest packet; no packet grows past 252 bytes |
| LoraTxQueue.QueueAddBytes | mila-embedded/src/telemetryTX/LoraTransmitQueue.cpp:34-57 | adding a frame adds exactly its bytes, and an overflow loses exactly the oldest packet's bytes |
| LoraTxQueue.AppendAtSlot | mila-embedded/src/telemetryTX/LoraTransmitQueue.cpp:26-29 | `appendToBuffer` on a queued row grows that packet by the frame and leaves the others alone |
| LoraTxQueue.PushAtHead | mila-embedded/src/telemetryTX/LoraTransmitQueue.cpp:50-54 | a new row at the head, with the length reset to the header reserve, adds the frame as the newest packet |
| LoraTxQueue.DropOldest | mila-embedded/src/telemetryTX/LoraTransmitQueue.cpp:45-47 | advancing the tail drops exactly the oldest packet and keeps the head where it was |
| LoraTxQueue.BurstRow | mila-embedded/src/telemetryTX/LoraTransmitQueue.cpp:65 | the refilled burst row keeps its first three bytes, then holds the queue row's reserve at bytes 3-5, and then, from byte 6 on, the queue row's packet, for every packet length |
| LoraTxQueue.AsWrittenLosesPacketTail | mila-embedded/src/telemetryTX/LoraTransmitQueue.cpp:65-66 | with the queue row's length kept as the burst row's length, a queued one-byte packet 7 goes out as the byte 0 |
| LoraTxQueue.AsWrittenSendsReserve | mila-embedded/src/telemetryTX/LoraTransmitQueue.cpp:65-66 | with the queue row's length kept, every refilled row sends the queue row's reserve bytes and then its packet cut short by three bytes |
| LoraTxQueue.RefilledStep | mila-embedded/src/telemetryTX/LoraTransmitQueue.cpp:64-70 | one more packet moved, copied to offset 3 with the length corrected to the queue row's length plus 3, extends the refilled rows by one: each holds the zero reserve and then exactly its packet |
| LoraTxQueue.TxQueue.constructor | mila-embedded/src/telemetryTX/LoraTransmitQueue.cpp:9-12 | the queue starts empty |
| LoraTxQueue.TxQueue.InitQueue | mila-embedded/src/telemetryTX/LoraTransmitQueue.cpp:17-24 | the queue is empty with head and tail at row 0, and head stays (tail + count) mod 64 |
| LoraTxQueue.TxQueue.FindRoom | mila-embedded/src/telemetryTX/LoraTransmitQueue.cpp:37-43 | the scan from the tail finds the oldest packet with room; a full queue is not scanned, because tail equals head |
| LoraTxQueue.TxQueue.Grow | mila-embedded/src/telemetryTX/LoraTransmitQueue.cpp:26-29 | the packet grows by the frame; the other packets, the head, tail and count stay as they were |
| LoraTxQueue.TxQueue.Drop | mila-embedded/src/telemetryTX/LoraTransmitQueue.cpp:45-47 | the oldest packet is gone and the head has not moved |
| LoraTxQueue.TxQueue.Push | mila-embedded/src/telemetryTX/LoraTransmitQueue.cpp:50-54 | the frame is the newest packet, and head stays (tail + count) mod 64 |
| LoraTxQueue.TxQueue.AddFrameToQueue | mila-embedded/src/telemetryTX/LoraTransmitQueue.cpp:34-57 | the packets become QueueAdd of the old packets; `queueOverflow` is logged if and only if the queue was full; count stays within 64 and head stays (tail + count) mod 64 |
| LoraTxQueue.TxQueue.TakeOldest | mila-embedded/src/telemetryTX/LoraTransmitQueue.cpp:65-69 | the oldest packet leaves the queue; burst row j gets the queue row at offset 3, with the length corrected to the queue row's length plus 3, so it holds the zero reserve and then exactly that packet; no other burst row changes |
| LoraTxQueue.TxQueue.RefreshBurstBuffer | mila-embedded/src/telemetryTX/LoraTransmitQueue.cpp:60-72 | the burst count grows by the smaller of the free burst rows and the queued packets; those oldest packets leave the queue in order and land in rows burstCount on, each row holding the zero reserve and then exactly its packet, with the corrected length; other rows stay as they were |
| LoraBlast.SequenceByte | mila-embedded/src/telemetryTX/TXBlastProtocolHelper.cpp:62 | the high nibble of the sequence byte is the packet index mod 16 and the low nibble the burst count minus one mod 16 (15 for an empty burst) |
| LoraBlast.WithLowBit | mila-embedded/src/telemetryTX/TXBlastProtocolHelper.cpp:64-66 | setting the parity mask makes the byte odd and leaves its other seven bits alone |
| LoraBlast.Stamped | mila-embedded/src/telemetryTX/TXBlastProtocolHelper.cpp:56-66 | writing the header in place keeps the row's length and every byte from 4 on; bytes 0-1 read as 0x9354 little-endian, byte 2 is the sequence byte, and byte 3 gains its low bit exactly when the parity is set |
| LoraBlast.HeldPacketSent | mila-embedded/src/telemetryTX/TXBlastProtocolHelper.cpp:56-67 | a burst row that holds a packet is sent, once stamped, as the header, the flags byte holding exactly the ack parity, two zero bytes and then exactly that packet |
| LoraBlast.RefilledRowSent | mila-embedded/src/telemetryTX/TXBlastProtocolHelper.cpp:56-67 | a refilled row sent with the corrected length is the header, then the flags byte holding exactly the ack parity, two zero bytes, and then exactly the queued packet |
| LoraBlast.ParityNeverCleared | mila-embedded/src/telemetryTX/TXBlastProtocolHelper.cpp:64-66 | a row sent with parity 1 and sent again with parity 0 still has bit 0 of its flags byte set |
| LoraBlast.ReadHeader | mila-embedded/src/telemetryTX/TXBlastProtocolHelper.cpp:57-62 | a header can be read exactly from a row of at least three bytes |
| LoraBlast.StampedHeaderReadsBack | mila-embedded/src/telemetryTX/TXBlastProtocolHelper.cpp:56-62 | for a burst of 1 to 16 packets, a stamped row reads back as the protocol id, its own index and the burst size |
| LoraBlast.Silencer | mila-embedded/src/telemetryTX/TXBlastProtocolHelper.cpp:107-112 | the silencer is five bytes: the protocol id, the sequence byte, the parity in byte 3 and a final 1 |
| LoraBlast.AfterTransmit | mila-embedded/src/telemetryTX/TXBlastProtocolHelper.cpp:71-74 | a transmission that timed out (`LORA_DETECTED`) is followed by the ack timer and listening, and any other result by nothing |
| LoraBlast.AckBits | mila-embedded/src/telemetryTX/TXBlastProtocolHelper.cpp:80 | the i-th flag is bit i of the ack bitmap, for each of the first n packets |
| LoraBlast.Kept | mila-embedded/src/telemetryTX/TXBlastProtocolHelper.cpp:77-85 | compaction never makes the burst longer |
| LoraBlast.AckedCount | mila-embedded/src/telemetryTX/TXBlastProtocolHelper.cpp:79-84 | no more packets are counted as acknowledged than the burst has |
| LoraBlast.KeptLength | mila-embedded/src/telemetryTX/TXBlastProtocolHelper.cpp:79-85 | the compacted burst is shorter by exactly the number of acknowledged packets |
| LoraBlast.KeptFromRows | mila-embedded/src/telemetryTX/TXBlastProtocolHelper.cpp:79-84 | compaction keeps only packets that were in the burst, none of them twice |
| LoraBlast.KeptNoneAcked | mila-embedded/src/telemetryTX/TXBlastProtocolHelper.cpp:79-84 | with an all-zero bitmap the burst stays as it was |
| LoraBlast.KeptAllAcked | mila-embedded/src/telemetryTX/TXBlastProtocolHelper.cpp:79-85 | with every packet acknowledged the burst becomes empty |
| LoraBlast.AckOf | mila-embedded/src/telemetryTX/TXBlastProtocol.cpp:156-183 | a fresh ack carries a 16-bit bitmap |
| LoraBlast.AckOfMeaning | mila-embedded/src/telemetryTX/TXBlastProtocol.cpp:156-183 | a reply is malformed exactly when it is shorter than 7 bytes or does not start with 0x54 0x93 or 0x55 0x93, and it is marked too short exactly when it is under 7 bytes; a well-formed reply is outdated exactly when its parity bit differs from the expected parity; a fresh ack's bitmap is bytes 5-6 little-endian |
| LoraBlast.AckBytes | mila-embedded/src/telemetryTX/TXBlastProtocol.cpp:161-183 | an ack as the receiver builds it is seven bytes |
| LoraBlast.AckRoundTrip | mila-embedded/src/telemetryTX/TXBlastProtocol.cpp:161-187 | an ack built with the expected parity is taken and gives its bitmap back; one built with the other parity is classed as outdated |
| LoraBlast.Compact | mila-embedded/src/telemetryTX/TXBlastProtocolHelper.cpp:77-85 | the in-place loop leaves exactly the unacknowledged packets, in order, at the front of the array; rows past the burst are untouched and no row holds anything that was not in the array before |
| LoraBlast.Compacted | mila-embedded/src/telemetryTX/TXBlastProtocolHelper.cpp:79-84 | after the loop the kept packets fill the front of the array, the rows past the burst are as they were, and every row holds a value the array held before |
| LoraBlast.RefilledRows | mila-embedded/src/telemetryTX/TXBlastProtocolHelper.cpp:45 | topping the burst up keeps the packets already in it and gives every row of the burst room for the header |
| LoraBlast.Blaster.constructor | mila-embedded/src/telemetryTX/TXBlastProtocol.cpp:20-35 | the protocol starts neither running nor initialised, with an empty queue, an empty burst and no radio activity |
| LoraBlast.Blaster.InitProtocol | mila-embedded/src/telemetryTX/TXBlastProtocol.cpp:43-82 | re-initialising empties the queue and the error log, starts the driver the first time and restarts it afterwards, stops awaiting an ack and leaves the protocol running; the burst and the parity are kept |
| LoraBlast.Blaster.ListenForAck | mila-embedded/src/telemetryTX/TXBlastProtocolHelper.cpp:128-134 | listening for an ack stops blasting, awaits the ack, starts the ack timer and the receiver, and keeps the burst |
| LoraBlast.Blaster.SafeProtocolTransmit | mila-embedded/src/telemetryTX/TXBlastProtocolHelper.cpp:56-75 | the header is written over the row and the row's first `len` bytes are sent; a failed result is logged, and a timed-out one switches to listening for an ack; the burst is unchanged |
| LoraBlast.Blaster.SendNextPacketInBurst | mila-embedded/src/telemetryTX/TXBlastProtocolHelper.cpp:89-103 | past the last packet, the protocol stops blasting and listens for the ack with the burst unchanged; otherwise the current packet is stamped in place and sent with its recorded length, and the index advances by one |
| LoraBlast.Blaster.SendSilencer | mila-embedded/src/telemetryTX/TXBlastProtocolHelper.cpp:107-114 | the five-byte silencer is sent and the receiver started, with the burst unchanged |
| LoraBlast.Blaster.StartNewBurstSequence | mila-embedded/src/telemetryTX/TXBlastProtocolHelper.cpp:116-125 | an empty burst sends the silencer and leaves every row as it was; otherwise row 0 is stamped in place (header, parity ORed into its flags byte) and its first `burstBufferLens[0]` bytes go out, every other row and every length stays as it was, the index becomes 1 and the protocol is blasting unless the transmission timed out; it never leaves the protocol blasting and awaiting an ack at once |
| LoraBlast.Blaster.Nudge | mila-embedded/src/telemetryTX/TXBlastProtocolHelper.cpp:38-51 | the result says whether the protocol is running; a stopped or busy protocol changes nothing; an idle running one keeps the rows and lengths already in the burst, moves as many queued packets as fit behind them, oldest first, each behind the header and the zero reserve with the corrected length, and starts a new burst from exactly those rows |
| LoraBlast.Blaster.TopUp | mila-embedded/src/telemetryTX/TXBlastProtocolHelper.cpp:45 | the burst grows by as many queued packets as fit in its 8 rows; they leave the queue from its oldest end and land in order behind the packets already in the burst, which are untouched; each moved row holds the zero reserve and then its packet, with the corrected length |
| LoraBlast.Blaster.ProtocolTransmit | mila-embedded/src/telemetryTX/TXBlastProtocol.cpp:104-107 | the frame is queued as `QueueAdd` says (logging an overflow when the queue was full); a stopped or busy protocol changes nothing else, and an idle running one tops the burst up from the new queue, keeping its earlier rows, and starts a new burst from exactly those rows; the result says whether the protocol is running |
| LoraBlast.Blaster.AckTimeoutCallback | mila-embedded/src/telemetryTX/TXBlastProtocol.cpp:115-127 | a timeout matters only while running and awaiting an ack: it stops the wait, and when not blasting it logs `ackTimeout` and sends the same burst again: the old row 0 stamped and sent, the other rows and all lengths unchanged |
| LoraBlast.Blaster.ProtocolTxComplete | mila-embedded/src/telemetryTX/TXBlastProtocol.cpp:129-140 | a finished transmission while blasting stamps the row at the index in place, sends it and advances the index, with every other row unchanged and a failed result logged; after the last packet it listens for the ack and changes no row and no log entry; when not blasting it only logs `unexpectedTXCompletion`; when not running it changes nothing |
| LoraBlast.Blaster.ProtocolReceive | mila-embedded/src/telemetryTX/TXBlastProtocol.cpp:142-189 | a reply changes nothing unless the protocol runs and awaits an ack; then the timer stops and a malformed reply is only logged; an outdated ack resends the old rows (row 0 stamped and sent); a fresh ack keeps exactly the unacknowledged rows with their lengths, moves queued packets in behind them, flips the parity and starts the next burst from those rows |
| LoraBlast.Blaster.AcceptAck | mila-embedded/src/telemetryTX/TXBlastProtocol.cpp:183-187 | a fresh ack flips the parity; the burst it starts from is exactly the unacknowledged rows in order, with their lengths, followed by the oldest queued packets that fit, each behind the header and the zero reserve with the corrected length; that burst is then started |
| LoraBlast.Blaster.ProcessBitmap | mila-embedded/src/telemetryTX/TXBlastProtocolHelper.cpp:77-87 | the unacknowledged packets move to the front in order, the count drops by the number acknowledged, their lengths stay where they were, and the burst is then topped up from the queue, each new row holding the zero reserve and then its packet, with the corrected length |
| LoraBlast.Blaster.CheckReply | mila-embedded/src/telemetryTX/TXBlastProtocol.cpp:153-169 | a reply is rejected exactly when it is malformed; a short reply logs `invalidRXLength` and a wrong id `incorrectProtocolId`, each on its own |
| SerialLink.Complement16 | src/main/java/SerialBridge.java:274 | the complement is a 16-bit value and, for a 16-bit input, adds up with it to 0xFFFF |
| SerialLink.Checksum | src/main/java/SerialBridge.java:254-275 | the Internet checksum of any message fits in 16 bits |
| SerialLink.TwoFoldsCongruent | src/main/java/SerialBridge.java:272-273 | the two end-around-carry folds keep the sum modulo 0xFFFF, never increase it, and give 0 only for a zero sum |
| SerialLink.TwoFoldsSuffice | src/main/java/SerialBridge.java:255-273 | two folds bring any sum the 32-bit accumulator can hold into 16 bits |
| SerialLink.ChecksumVerifies | src/main/java/SerialBridge.java:254-275 | an even-length message followed by its checksum, low byte first, sums and folds to 0xFFFF, the one's-complement zero a receiver checks for (section 1 of RFC 1071) |
| SerialLink.FlipBit | src/main/java/SerialBridge.java:221 | inverting one bit keeps the message's length |
| SerialLink.SingleBitFlipDetected | src/main/java/SerialBridge.java:218-221 | a payload with any single bit inverted has a different checksum, so a one-bit corruption always goes to the invalid-message callback |
| SerialLink.FindSof | src/main/java/SerialBridge.java:248-251 | the result is -1 exactly when no byte of the window is 0xFF; otherwise it is the first 0xFF in the window |
| SerialLink.Consumed | src/main/java/SerialBridge.java:220-234 | each pass of the parse loop drops at least one byte and never more than are buffered |
| SerialLink.EventAt | src/main/java/SerialBridge.java:212-229 | the payload handed on is the 12 bytes after the checksum, and it goes to `onMessageRecv` exactly when the stored little-endian checksum equals the payload's checksum |
| SerialLink.Frame | src/main/java/SerialBridge.java:61-62 | an inbound frame is a start byte 0xFF, the payload's checksum in its next two bytes, then the payload |
| SerialLink.ParseShortBuffer | src/main/java/SerialBridge.java:204 | fewer than 15 buffered bytes are left alone and nothing is delivered |
| SerialLink.ParseGoodFrame | src/main/java/SerialBridge.java:204-234 | a well-formed frame behind junk with no 0xFF is delivered to `onMessageRecv`, the junk and the frame are dropped, and parsing goes on after it |
| SerialLink.ParseBadFrame | src/main/java/SerialBridge.java:224-234 | a frame with a bad checksum goes to `onMessageInvalid` only, and the buffer resumes at the first 0xFF among the 14 bytes after its start byte, or after the frame when there is none |
| SerialLink.ParseNoStartByte | src/main/java/SerialBridge.java:205-209 | with no 0xFF among at least 15 bytes nothing is delivered, and the buffer is emptied exactly when it holds more than 128 bytes |
| SerialLink.ParseKeepsSuffix | src/main/java/SerialBridge.java:204-235 | what stays buffered after parsing is empty or a suffix of the bytes that were buffered |
| SerialLink.ParseStopsOnlyWhenStuck | src/main/java/SerialBridge.java:204-210 | parsing stops only when fewer than 15 bytes remain, when fewer than 15 bytes follow the first 0xFF, or when at most 128 bytes remain and none is 0xFF |
| SerialLink.ParseBadFrameWhole | src/main/java/SerialBridge.java:229-232 | a bad frame with no 0xFF among its 14 trailing bytes is rejected and dropped whole |
| SerialLink.ResyncAfterCorruptFrame | src/main/java/SerialBridge.java:224-234 | a corrupted frame followed directly by a good one gives one rejected payload and then the good payload |
| SerialLink.SplitFrameParsedOnce | src/main/java/SerialBridge.java:204-223 | the first part of a frame waits in the buffer undelivered; the complete frame is delivered once and leaves nothing behind |
| SerialLink.Logical | src/main/java/SerialBridge.java:176-180 | the ring holds exactly `len` bytes, read from `head` with wrap-around |
| SerialLink.WriteAt | src/main/java/SerialBridge.java:195-198 | a read into the array changes exactly the positions it writes and keeps the array's length |
| SerialLink.ReadCounts | src/main/java/SerialBridge.java:190-201 | the read phase never takes more bytes than are free or than the port reports available, reads nothing when none are available or the ring is full, and the first read stops at the array's end |
| SerialLink.AfterReadArray | src/main/java/SerialBridge.java:190-201 | the read phase keeps the array at 256 bytes |
| SerialLink.ReadAppendsInOrder | src/main/java/SerialBridge.java:190-201 | when the first read returns all it asked for, the new bytes follow the buffered ones in order, whether or not the write wrapped around the array's end |
| SerialLink.FullRingStuck | src/main/java/SerialBridge.java:189-210 | as written, a full ring whose first 0xFF is among its last 14 bytes reads nothing and parses nothing, so its contents never change |
| SerialLink.FullRingStuckExample | src/main/java/SerialBridge.java:203-210 | a ring of 256 bytes whose only 0xFF is at offset 250 meets that condition |
| SerialLink.ShortFirstReadLandsAtZero | src/main/java/SerialBridge.java:195-199 | as written, after a short first read the second read still writes at array index 0, so on an empty ring at index 0 it overwrites the first read's bytes |
| SerialLink.SerialBridge.constructor | src/main/java/SerialBridge.java:177-180 | the receive ring starts empty |
| SerialLink.SerialBridge.Space | src/main/java/SerialBridge.java:239 | the free space is 256 minus the number of buffered bytes |
| SerialLink.SerialBridge.Get | src/main/java/SerialBridge.java:240 | the byte at a logical offset inside the buffered bytes is that buffered byte |
| SerialLink.SerialBridge.CopyOut | src/main/java/SerialBridge.java:241-246 | the two array copies put exactly the requested buffered bytes, in order, at the destination offset and leave the rest of the destination alone |
| SerialLink.SerialBridge.CopyRange | src/main/java/SerialBridge.java:244-245 | one array copy writes the source range at the destination offset and nothing else |
| SerialLink.SerialBridge.Drop | src/main/java/SerialBridge.java:247 | dropping n bytes forgets exactly the first n buffered bytes, or all of them when n is larger |
| SerialLink.SerialBridge.IndexOf | src/main/java/SerialBridge.java:248-251 | the result is the first logical offset in the window that holds the byte, or -1 when none does |
| SerialLink.SerialBridge.InetChecksum16 | src/main/java/SerialBridge.java:254-275 | the accumulator loop computes the Internet checksum of the given range |
| SerialLink.SerialBridge.ReadAvailable | src/main/java/SerialBridge.java:189-201 | the read phase grows the buffer by the counts the two reads return and writes their bytes at the tail and then at index 0 |
| SerialLink.SerialBridge.ReceiveFrames | src/main/java/SerialBridge.java:182-236 | after reading what the port offers, every complete frame is parsed: the callbacks receive exactly the events of parsing the buffered bytes, in order, and exactly the unparsed rest stays buffered |
| SerialLink.SerialBridge.DiscardIfStale | src/main/java/SerialBridge.java:207 | the ring is emptied exactly when it holds more than 128 bytes |
| SerialLink.SerialBridge.ParseBuffered | src/main/java/SerialBridge.java:203-235 | the parse loop delivers exactly the events of parsing the buffered bytes and keeps exactly the rest |
| SerialLink.SerialBridge.ParseOnce | src/main/java/SerialBridge.java:205-234 | one pass either delivers one payload and shrinks the buffer, or finds that parsing cannot progress and delivers nothing |
| SerialLink.SerialBridge.ParseFrameAt | src/main/java/SerialBridge.java:212-233 | for a complete frame, the pass hands its payload to the callback its checksum selects and drops the bytes the parse step says |
| SerialLink.SerialBridge.CopyPayload | src/main/java/SerialBridge.java:216-217 | the new payload array holds the 12 bytes after the frame's checksum |
| SerialLink.Pad8 | src/main/java/SerialBridge.java:283-288 | the data sent is always 8 bytes: the given bytes, zero-padded or cut to 8, and unchanged when there are exactly 8 |
| SerialLink.SendMessage | src/main/java/SerialBridge.java:278-304 | a null message writes nothing; otherwise the frame written is 11 bytes: 0xFF, the checksum of the 8 data bytes low byte first, then the data; it is a frame as the receiver parses it |
| Bits.U32 | src/main/java/CanParser.java:57-60 | the unsigned view of a Java int is below 2^32 and is the value itself for a value already in that range |
| Bits.ToInt32 | src/main/java/CanParser.java:180 | a Java `(int)` cast gives a 32-bit value congruent to its input modulo 2^32, and leaves a 32-bit input unchanged |
| Bits.ToInt64 | src/main/java/CanParser.java:99 | reading 64 bits as a Java long gives a 64-bit value congruent to them modulo 2^64 |
| Bits.LE | src/main/java/CanParser.java:96-99 | n bytes read least significant first give a value below 2^(8n) |
| Bits.LEToLE | src/main/java/CanParser.java:57-60 | writing a value that fits as little-endian bytes and reading them back gives the value |
| Bits.ToLELE | src/main/java/CanParser.java:96-99 | reading bytes as a little-endian number and writing it back gives the same bytes |
| Bits.BE | reverse-camera/UDPSENDCHUNKY.py:21 | n bytes read in network order give a value below 2^(8n) |
| Bits.BEToBE | reverse-camera/UDPSENDCHUNKY.py:21 | a value that fits, packed in network byte order and read back, is the value |
| Bits.JavaDiv | src/main/java/CanParser.java:775 | Java's integer division agrees with floor division for a non-negative dividend and a positive divisor |
| Bits.DecimalRoundTrip | src/main/java/CanParser.java:49-55 | a number written in decimal reads back as itself |
| CanDecode.FieldOfPacked | src/main/java/CanParser.java:663-670 | reading field i of a word packed from fields that fit their widths gives field i back |
| CanDecode.PackedBound | src/main/java/CanParser.java:663-670 | a packed word fits in the sum of its fields' widths |
| CanDecode.SplitId | src/main/java/CanParser.java:106-112 | the node id fits 7 bits, the function code 4 and the extended id 18 |
| CanDecode.SplitJoinId | src/main/java/CanParser.java:106-112 | an identifier built from a node id, a function code and an extended id that fit is a non-negative Java int below 2^29, and splitting it gives the three fields back |
| CanDecode.CeilDivIsCeiling | src/main/java/CanParser.java:773-776 | without overflow, `ceilDiv` is the least multiple count that covers a |
| CanDecode.Trim | src/main/java/CanParser.java:47 | the result is a slice of the input with only blanks (characters up to U+0020) outside it, and it is empty or starts and ends with a non-blank |
| CanDecode.TrimSurrounded | src/main/java/CanParser.java:47 | text that starts and ends with a non-blank, padded with blanks on both sides, trims to exactly that text |
| CanDecode.RemoveUnderscores | src/main/java/CanParser.java:70 | no underscore is left |
| CanDecode.RemoveUnderscoresAppend | src/main/java/CanParser.java:70 | removing underscores from a concatenation removes them from each part |
| CanDecode.RemoveUnderscoresChar | src/main/java/CanParser.java:70 | a single character is dropped exactly when it is an underscore |
| CanDecode.ParseInt32 | src/main/java/CanParser.java:68-74 | a parsed number is always a 32-bit Java int |
| CanDecode.ParseInt | src/main/java/CanParser.java:70 | `Integer.parseInt` yields only 32-bit Java ints |
| CanDecode.CommandPayload | src/main/java/CanParser.java:45-66 | anything not starting with `updateValue` after trimming is not a command; a command gives a message exactly when the text after the keyword, trimmed, parses as a 32-bit int (underscores removed, an optional sign), and gives no message exactly when it does not; the message is 8 bytes whose first four are the parsed number, little-endian in two's complement, and whose last four are zero |
| CanDecode.TrimUnpadded | src/main/java/CanParser.java:47 | a string with no blank at either end is left as it is by trimming |
| CanDecode.NoUnderscoresKept | src/main/java/CanParser.java:70 | a string without underscores is left as it is |
| CanDecode.ParseDecimal | src/main/java/CanParser.java:68-74 | any 32-bit int written in decimal parses back to itself |
| CanDecode.UpdateValueRoundTrip | src/main/java/CanParser.java:45-63 | `updateValue` followed by any 32-bit N becomes N's four little-endian bytes and four zero bytes, and the first four read back as N |
| CanDecode.DecimalWithoutUnderscore | src/main/java/CanParser.java:70 | the decimal text of a number holds no underscore, so removing underscores leaves it alone |
| CanDecode.PaddedCommandTrims | src/main/java/CanParser.java:47-51 | a command line padded with blanks, and with blanks between its keyword and number, trims to text starting with the keyword whose remainder trims to the number |
| CanDecode.PaddedCommandRoundTrip | src/main/java/CanParser.java:45-74 | `updateValue` with blanks around the line and before the number, and with underscores anywhere in a 32-bit N's decimal digits, becomes N's four little-endian bytes and four zero bytes |
| CanDecode.PaddedCommandExample | src/main/java/CanParser.java:45-74 | the line "  updateValue 1_000 " becomes the bytes E8 03 00 00 00 00 00 00 |
| CanDecode.SignedBack | src/main/java/CanParser.java:57-60 | a 32-bit value's unsigned bytes read back as a Java int give the value |
| CanDecode.UnpackFits | src/main/java/CanParser.java:663-670 | every decoded bus-status counter fits the width the sender gives it |
| CanDecode.BusStatusRoundTrip | src/main/java/CanParser.java:661-670 | decoding a bus-status word packed from eight counters that fit their widths gives every counter back, and the widths fill exactly the 64-bit payload |
| CanDecode.BusOffsets | src/main/java/CanParser.java:663-670 | the counters sit at bit offsets 0, 2, 10, 18, 30, 40, 50 and 60, and end at bit 64 |
| CanDecode.BusField | src/main/java/CanParser.java:663-670 | counter i of a packed bus-status word is read back at its offset |
| CanDecode.BusSeverity | src/main/java/CanParser.java:672-684 | critical exactly when an error counter passes 200 or a dropped-message delta passes 10; OK exactly when the controller is running (state 1), no error counter passes 100, no message was dropped and at most 4 wait; a warning otherwise |
| CanDecode.BusSeverityMonotone | src/main/java/CanParser.java:672-684 | higher counters in the same controller state never give a milder status |
| CanDecode.ValueSeverity | src/main/java/CanParser.java:471-477 | critical exactly outside the critical band; OK exactly inside both bands; a warning otherwise |
| CanDecode.ValueSeverityMonotone | src/main/java/CanParser.java:471-477 | with nested bands, moving a value further from the OK band never lowers its status |
| CanDecode.WalkDecodes | src/main/java/CanParser.java:342-381 | every point the data walk yields is the next data index of the frame, registered in the lookup with a width of 0 to 32 bits, read where the widths before it end, within the 64 bits, as the masked bits plus the minimum with Java int wrap-around |
| CanDecode.WalkStops | src/main/java/CanParser.java:343-366 | the walk covers every data index of the frame unless it stops, and it stops at the first index whose info is missing, whose width added to the cursor as a Java int exceeds 64, or whose width is outside 0 to 32, in that order of checks |
| CanDecode.WrappedWidthIsInvalid | src/main/java/CanParser.java:354-366 | a width within 64 of 2^31 makes the Java int sum with the cursor wrap negative, so it passes the overflow test and the walk stops with an invalid bit length |
| CanDecode.Tick | src/main/java/CanParser.java:414-438 | a tick reports a frame exactly when its countdown was already negative; a reported frame is overdue by more than 5 ms and restarts at max(expected, 1000); an unreported one loses 5 ms; the countdown never ends below -5 |
| CanDecode.QuietWhileDue | src/main/java/CanParser.java:417-438 | while 5 n ms have not run 5 ms past the countdown, n ticks report nothing and only count down |
| CanDecode.FirstReport | src/main/java/CanParser.java:417-438 | a silent frame is reported exactly once within its first (remaining + 5) / 5 + 1 ticks, on the last of them, which restarts its countdown at max(expected, 1000) |
| CanDecode.TicksSplit | src/main/java/CanParser.java:410-441 | m + k ticks are m ticks followed by k ticks, and their reports add up |
| CanDecode.CountSetFull | src/main/java/CanParser.java:554-578 | a status page counts at most its slots, and all of them exactly when every slot bit is set |
| CanDecode.CountInFull | src/main/java/CanParser.java:273-283 | the pong count is at most the roster size, and equal to it exactly when every roster id ponged |
| CanDecode.PageInRange | src/main/java/CanParser.java:532-547 | a page number below `ceilDiv(n, slots)` names a non-empty range of nodes inside the roster, so the empty-range warning cannot happen, and its slot bits end within the 64-bit word |
| CanDecode.TimingFrom | src/main/java/CanParser.java:615-645 | the timing walk reads one slot for each pair the frame can hold |
| CanDecode.NullsStay | src/main/java/CanParser.java:620-626 | once an id reads as zero, every later slot rereads it and is null |
| CanDecode.TimingNullsLast | src/main/java/CanParser.java:615-632 | in the slots read, no pair comes after a null slot |
| CanDecode.TimingPairsAt | src/main/java/CanParser.java:615-632 | the j-th slot that holds a pair reads the j-th (id, time) pair of the word |
| CanReports.NameLabel | src/main/java/CanParser.java:211-212 | a node is shown by name exactly when the lookup has a name for it, otherwise by its id |
| CanReports.RowLabel | src/main/java/CanParser.java:637-641 | a node is shown by name exactly when it has a row in the lookup, otherwise by its id |
| CanReports.LongBitsInRange | src/main/java/CanParser.java:663-670 | inside the 64-bit word, the shift-and-mask on a Java long reads the plain bit field of the unsigned word |
| CanReports.MaskWidth | src/main/java/CanParser.java:196-222 | the int masks keep at most 32 bits, and exactly b bits for any width up to 32 |
| CanReports.IntBits | src/main/java/CanParser.java:208-224 | a masked field of a Java int is again a Java int |
| CanReports.IntBitsSmall | src/main/java/CanParser.java:208-224 | a field of a non-negative int that ends below bit 31 reads back as the plain bit field |
| CanReports.BitAnd | src/main/java/CanParser.java:183-185 | the bitwise and of two n-bit values fits n bits |
| CanReports.BitAndHit | src/main/java/CanParser.java:184-185 | the bitwise and is non-zero exactly when the two values share a set bit |
| CanReports.WarningOffsets | src/main/java/CanParser.java:195-224 | with a contiguous layout, the node, frame and data-point fields start at their configured flag indices |
| CanReports.PackedWarningSmall | src/main/java/CanParser.java:180 | a warning word packed with a contiguous layout is below 2^31, so the `(int)` cast leaves it unchanged |
| CanReports.WarningRoundTrip | src/main/java/CanParser.java:178-224 | decoding a warning word the sender packed with a contiguous layout gives back the flags, the node id, the frame number and the data index |
| CanReports.TypeNotices | src/main/java/CanParser.java:187-193 | at most one extra notice is posted, and one is posted exactly when the critical and non-critical type bits are both set or both clear |
| CanReports.EnumNotice | src/main/java/CanParser.java:721-764 | a flag is reported by name exactly when its value is a Java int with a declared name; it is critical exactly when also listed as critical, OK exactly when named and not listed, and a warning otherwise; the notice goes to the given channel |
| CanReports.PongAccounting | src/main/java/CanParser.java:273-281 | every roster id is either counted as ponged or listed as missing, never both |
| CanReports.PongNotice | src/main/java/CanParser.java:267-290 | the pong chip counts out of the roster size, its count and missing list add up to the roster, and it is OK exactly when every roster id ponged and a warning otherwise |
| CanReports.CheckStepTracks | src/main/java/CanParser.java:468-494 | after a check the point's chip shows the value's severity and no other point's chip changes; a notice is posted exactly when the point had no chip and is out of its OK band, and it names the point |
| CanReports.Accepted | src/main/java/CanParser.java:374 | the plots never take more points than the walk decoded |
| CanReports.ReplayTracks | src/main/java/CanParser.java:343-381 | after a walk whose points have distinct keys, each point's chip shows its severity, and chips of keys the walk did not visit are untouched |
| CanReports.StopNotices | src/main/java/CanParser.java:346-366 | exactly one warning is posted when the walk stopped early, and none otherwise |
| CanReports.SweepNotices | src/main/java/CanParser.java:413-439 | a sweep posts at most one warning per frame visited |
| CanReports.SweepRemainingAt | src/main/java/CanParser.java:413-438 | after a sweep, each monitored frame it visited holds one tick from its countdown before the sweep, whatever the order of the visits; every other countdown is as it was |
| CanReports.SweepReportsOverdue | src/main/java/CanParser.java:413-435 | a sweep posts exactly one warning for each monitored frame whose countdown had gone negative |
| CanReports.HBKindOfTagged | src/main/java/CanParser.java:504-517 | a frame whose low type bits carry the timing tag goes to the timing parser, and one that carries a distinct status tag to the status parser |
| CanReports.TagRead | src/main/java/CanParser.java:507-508 | the low type bits of a tagged word are its tag |
| CanReports.PageAccounting | src/main/java/CanParser.java:554-569 | every slot of a page is counted as present, named as missing, or warned about as a node without a row |
| CanReports.TimingReport | src/main/java/CanParser.java:615-645 | the timing frame lists no more latencies than it has slots |
| CanReports.PrefixPairs | src/main/java/CanParser.java:615-626 | with the nulls last, fewer latencies than slots means the slot right after the listed ones is null |
| CanReports.TimingListsPairs | src/main/java/CanParser.java:615-645 | with the nulls last, the listed latencies are the leading pairs in order, each named by its node's row or its id |
| CanReports.StatusPage | src/main/java/CanParser.java:521-584 | a page number past the pages the roster needs gives only a warning; otherwise the page's entry counts its set slots out of the page's node count, is OK exactly when every slot is set and a warning otherwise, and its count, missing names and warnings add up to the page's node count |
| CanReports.PageSlice | src/main/java/CanParser.java:532-547 | a page below the pages needed covers a non-empty slice of the roster whose slot bits end within the word |
| CanReports.StatusFrameNoBound | src/main/java/CanParser.java:528-529 | the page number is a non-negative number of `HBStatusFrameBits` bits, so it always indexes `HBStatusEntries` |
| CanReports.TimingPairs | src/main/java/CanParser.java:609-612 | at most `slowestNodeCount` pairs are read, and they fit in the bits after the average |
| CanReports.TimingNotice | src/main/java/CanParser.java:596-656 | the timing chip is OK on the vitals channel, carries the average read after the type bits, and lists at most the pairs read, each the packed pair at its position |
| CanReports.TimingLatencies | src/main/java/CanParser.java:615-645 | every listed latency is the packed (id, time) pair at its position in the word |
| CanReports.WarningNotice | src/main/java/CanParser.java:201-237 | the warning report goes to the vitals channel, is critical exactly when the critical bit is set and a warning otherwise, and names the data point exactly when it is registered |
| CanReports.Route | src/main/java/CanParser.java:116-164 | an unknown function code goes to the unknown-function handler, and only such a code does |
| CanReports.RouteByCode | src/main/java/CanParser.java:116-160 | with distinct case labels, each function code reaches its own handler |
| CanReports.HandlePong | src/main/java/CanParser.java:312-322 | a registered node joins the pong window and nothing is posted; any other id only posts a warning; nothing else changes |
| CanReports.PongEvaluation | src/main/java/CanParser.java:267-303 | one evaluation sets the pong chip to the window's verdict on the roster, posts it only the first time, and starts a fresh window |
| CanReports.HandleTransmit | src/main/java/CanParser.java:324-381 | an unregistered frame only posts a warning; a registered one restarts its countdown exactly when monitored, and only the countdowns, the data chips and the plots change; the plotted points only grow |
| CanReports.WalkKeysDistinct | src/main/java/CanParser.java:343-344 | the points of one walk are the data indices i, i + 1, ... of the frame, so their keys are distinct |
| CanReports.TransmitShowsSeverity | src/main/java/CanParser.java:343-381 | after a registered frame arrives, the chip of every point it decoded shows that point's severity, and chips of other frames are untouched |
| CanReports.HandleStatus | src/main/java/CanParser.java:521-593 | an out-of-range page only posts a warning; otherwise only the page's entry changes, and the notices are the missing-node warnings followed by the entry, posted only the first time, in the order the parser issues them (see Left out on deferred posts) |
| CanReports.HandleTiming | src/main/java/CanParser.java:596-656 | the timing chip becomes the frame's timing notice, posted only the first time, after the frame's warnings in the order the parser issues them (see Left out on deferred posts) |
| CanReports.HandleHB | src/main/java/CanParser.java:504-518 | the type bits pick the timing parser, the status parser, or a warning about an unknown type; only the timing chip and the status entries can change |
| CanReports.HandleBus | src/main/java/CanParser.java:660-702 | the bus chip shows the unpacked counters, their severity and the controller state's name, and is posted only the first time |
| CanReports.Handle | src/main/java/CanParser.java:105-165 | an unknown function code only posts a warning; each handler changes only its own part of the state; the pong window and the plotted points only grow |
| CanParser.Notifications.constructor | src/main/java/CanParser.java:17-42 | the notification panel starts with nothing posted |
| CanParser.Notifications.Post | src/main/java/CanParser.java:178-238 | posting a notice appends it to the panel's log and changes nothing already posted |
| CanParser.Plot.constructor | src/main/java/CanParser.java:17-42 | the plots start with no points and a fixed set of keys they take |
| CanParser.Plot.AddDataPoint | src/main/java/CanParser.java:365-371 | a point is taken exactly when its key is plotted, and then it is appended to the plotted points; otherwise nothing changes |
| CanParser.Contains | src/main/java/CanParser.java:768-771 | the linear scan reports true exactly when the value occurs in the array |
| CanParser.Parser.constructor | src/main/java/CanParser.java:17-42 | the parser starts valid, with no chips and no status pages, and every monitored frame's countdown seeded to its own timeout |
| CanParser.Parser.StartFrameMonitor | src/main/java/CanParser.java:397-405 | seeding keeps an existing countdown and gives every other monitored frame its timeout, whatever order the frames are visited in |
| CanParser.Parser.BuildPayloadFromCommand | src/main/java/CanParser.java:45-66 | a payload is built exactly when the command text parses, and then holds the parsed bytes; otherwise the matching warning is posted |
| CanParser.Parser.OnMessageRecv | src/main/java/CanParser.java:91-102 | a line that is not 12 bytes posts only an invalid-line warning; a 12-byte line is dispatched as its little-endian 32-bit id and 64-bit data |
| CanParser.Parser.ParseCanMessage | src/main/java/CanParser.java:105-165 | the new state and the posted notices are those of routing the message by its function code |
| CanParser.Parser.ParseWarningCode | src/main/java/CanParser.java:178-238 | posts the notices for each warning type the frame sets and then the frame's warning report |
| CanParser.Parser.ParseEnumFlag | src/main/java/CanParser.java:721-764 | leaves the parser state as it was and posts the flag's notice |
| CanParser.Parser.ParseHBPong | src/main/java/CanParser.java:312-322 | the new state and notices are those of recording the node's pong in the current window |
| CanParser.Parser.EvaluatePongWindow | src/main/java/CanParser.java:264-303 | counts the roster nodes that answered, names the missing ones, posts or updates the pong chip, and starts a fresh window |
| CanParser.Parser.ParseTransmitData | src/main/java/CanParser.java:324-382 | resets the frame's countdown, then reads, checks and plots the frame's data points in order until the count is reached or a point cannot be read |
| CanParser.Parser.CheckDataValue | src/main/java/CanParser.java:468-494 | a value's status and notices follow its severity against the data point's bounds, and a chip is updated rather than reposted |
| CanParser.Parser.OnFrameReceivedResetTimer | src/main/java/CanParser.java:457-461 | the frame's countdown restarts at its timeout and no other countdown changes |
| CanParser.Parser.FrameMonitorTick | src/main/java/CanParser.java:413-439 | every monitored frame is visited once; each countdown takes a tick, and an overdue frame is reported and its countdown backs off to at least the minimum |
| CanParser.Parser.ParseHBRespUpdate | src/main/java/CanParser.java:504-518 | a heartbeat response is handled as a timing frame or a status frame according to its tag |
| CanParser.Parser.ParseHBStatusFrame | src/main/java/CanParser.java:521-593 | counts the nodes set in the page's slice of the roster, names the missing ones, and keeps the page's entry, posting a chip only the first time |
| CanParser.Parser.ParseHBTimingFrame | src/main/java/CanParser.java:596-656 | reads the timing pairs, lists each under its node's name or id, warns about null or unnamed nodes, and posts the timing report |
| CanParser.Parser.ParseBusStatusUpdate | src/main/java/CanParser.java:660-702 | keeps the parser valid and posts the bus report with the severity given by the bus thresholds |

## Left out

- `TelemetryLookup.java` is modelled as the copy under `telem-dashboard`. The older copy under `src/main/java` is not part of this model.
- Reading the lookup's CSV files and Java reflection over constant classes are left out. The lookup's rows and the constant tables (name, value) are inputs.
- `generateErrPacket` in `LoraErrLog.cpp` is left out. Its loop never terminates once a flag is set, and it returns no value.
- Mutexes and concurrency in the LoRa code are left out, together with their misuse:
  - the mutex creation of `initErr`;
  - `logErr` returning while it holds the mutex;
  - `protocolGrab`, `protocolYield` and `protocolCrash`.
  Every method is one atomic step.
- Timers are events: a timer expiry is a method call.
  - The ack timer's period and the `esp_timer` calls are left out.
  - The source creates `ackTimer` only when it is already non-null (`TXBlastProtocol.cpp`, `initProtocol`); the model only records that the timer is started and stopped.
- `insertPriorityFrame` is unfinished and `protocolTransmitPriority` is commented out in the source, so neither is modelled.
- The LoRa receive side and the `main.cpp` programs are not part of this model.
- `getIdExtension` is taken as an input value.
- The radio driver and its HAL are left out:
  - transmission results are parameters;
  - the radio's activity is a log of events (transmit, listen, start).
- The Swing user interface (`NotificationPanel`, `MainPanel`) is left out:
  - notifications are an abstract log of posted notices;
  - chips are state slots;
  - message texts are structured `Msg` values, not formatted strings.
- `MainPanel.addDataPoint` is not part of this model. It is abstracted as a fixed set of keys the plots take.
- Deferred posting on the Swing event thread is treated as running at once. The source defers `TelemetryUpdate` and `VitalsUpdate` (`src/main/java/CanParser.java:778-790`) and `Entry.updateText` and `Entry.updateStatus` (`telem-dashboard/src/main/java/NotificationPanel.java:58-86`) through `SwingUtilities.invokeLater`, while `notifications.post` runs at once. The model therefore does not capture two things:
  - the panel can show a chip posted directly (the status page or timing chip) before warnings the same parse deferred earlier, while the model's notice log lists them in the order the parser issues them;
  - `checkDataValue` can read an `entry.status` whose queued update has not run yet. So Warning, then OK, then Warning, all arriving before the event thread runs, leaves the chip showing OK. `CanReports.CheckStepTracks`, `CanReports.TransmitShowsSeverity` and `CanParser.Parser.CheckDataValue` describe the state once the event queue has drained.
- The source's two Java `assert`s, `typeBits != 0` (`src/main/java/CanParser.java:506`) and `nodeSlotsPerFrame > 30` (`src/main/java/CanParser.java:525`), run only when assertions are enabled with `-ea`, so the source does not enforce them by default. `CanReports.ConfigOk` takes them as facts about the constants.
- Threads and sleeps are left out. Each thread is modelled as one iteration per method: `EvaluatePongWindow` is one pass of the 2 s pong monitor, and `FrameMonitorTick` is one pass of the 5 ms frame monitor.
- Serial port I/O is left out:
  - a read is modelled as a bounded source of offered bytes;
  - the constructor that opens the port, `startReader` and `close` are left out;
  - `logInvalidFrame` only prints, and is left out.
- Console and `ESP_LOG` output is left out.
- In the reverse camera, OpenCV capture, JPEG encoding and decoding, sockets, FPS pacing and the clock are left out:
  - the age of a frame is an input;
  - the 60 ms branch of the receiver's sweep cannot be reached after the 20 ms branch, so it is not modelled separately.
- The dashboard front-end and its floating-point simulation are left out.
- Some helper methods only split a source loop or function for the proof, and are not separate operations of the source. They have no rows of their own; their rows are on the methods they serve:
  - `DecodePoints`, `DecodeNext`, `DecodeStep`, `AcceptPoint`;
  - `TickFrame`, `ScanPage`, `StorePage`, `ReadTimingPairs`, `TimingNext`, `ReadSlot`, `ReportSlot`;
  - `TransmitNext`, `StartFromIdle`, `HandleReply`, `CompactBurst`;
  - `WriteRx`.
- LoraTxQueue.RefilledStep: states the refilled rows with the corrected length, the queue row's length plus 3, not the queue row's length that the source records (see "## Findings"); `LoraTxQueue.AsWrittenSendsReserve` states what the source sends.
- LoraTxQueue.TxQueue.TakeOldest: records the corrected length, so the row sends the header, the reserve and exactly the packet. The source's length would send the reserve and lose the packet's last 3 bytes (`LoraTxQueue.AsWrittenSendsReserve`).
- LoraTxQueue.TxQueue.RefreshBurstBuffer: records the corrected length for every refilled row, not the source's queue row length, for the reason given under "## Findings".
- LoraBlast.Blaster.TopUp: its refilled rows carry the corrected length through `RefreshBurstBuffer`, not the length the source's refresh records.
- LoraBlast.Blaster.ProcessBitmap: its top-up carries the corrected length through `RefreshBurstBuffer`, not the length the source's refresh records.
- LoraBlast.Blaster.Nudge: the rows it moves into the burst carry the corrected length, through `TopUp`.
- LoraBlast.Blaster.ProtocolTransmit: the rows its nudge moves into the burst carry the corrected length, through `TopUp`.
- LoraBlast.Blaster.AcceptAck: the rows its `processBitmap` moves into the burst carry the corrected length, through `TopUp`.
- LoraBlast.Blaster.ProtocolReceive: after a fresh ack the rows moved into the burst carry the corrected length, through `AcceptAck`.
- CanDecode.ParseInt: a digit is an ASCII '0' to '9', as in `CanDecode.ParseInt32` below.
- CanDecode.ParseInt32: a digit is an ASCII '0' to '9'. Java's `Integer.parseInt` also takes the other Unicode decimal digits (Arabic-Indic, Devanagari, fullwidth and so on); the model treats such text as not a number.
- CanDecode.CommandPayload: inherits the ASCII-digit gap of `CanDecode.ParseInt32`: an `updateValue` command whose number uses other Unicode decimal digits is `Unparsed` in the model and builds a payload in the source.
- CanParser.Parser.BuildPayloadFromCommand: inherits the ASCII-digit gap of `CanDecode.ParseInt32` through `CanDecode.CommandPayload`: such a command sends nothing in the model.
- LoraTxQueue.TxQueue.AddFrameToQueue: requires the frame to fit one queue row. Every caller passes at most 20 bytes.
- LoraTxApi.BuildOversizeFrame: the source's `int8_t` data length is taken as non-negative, so negative lengths are not modelled.
- LoraConfig.GetStandardConfig: the TCXO voltages (floats) are kept in tenths of a volt.
- CanParser.Parser.ParseEnumFlag: no caller lists warning values, so the branch for a listed warning value is left out.
- LoraBlast.Blaster.ProtocolReceive: the source reads `rx[0..1]` before it checks the length. The model treats a reply under 2 bytes as a failed id check and does not model that out-of-bounds read.

## Findings

| source | as written | input that shows it | evidently intended | confidence | as-written member | corrected member |
|---|---|---|---|---|---|---|
| mila-embedded/src/telemetryTX/LoraTransmitQueue.cpp:65-66 | `refreshBurstBuffer` copies a whole queue row (3-byte reserve, then data) to offset 3 of the burst row, and records the queue row's length as the burst row's length. The burst row has a second 3-byte header in front, so its last 3 data bytes are never sent. | a queued one-byte packet `[7]` (queue row `[0,0,0,7,…]`, length 4) is sent as `[0]` after the header, instead of `[7]` | keep the offset-3 copy, so the reserve's first byte is the flags byte that takes the ack parity (as in the silencer), and record the queue row's length plus `headerSize` | not executed | LoraTxQueue.AsWrittenLosesPacketTail | LoraBlast.RefilledRowSent |
