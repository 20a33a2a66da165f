/** The transmitter side of the LoRa "blast" protocol (mila-embedded/src/telemetryTX/
    TXBlastProtocol.cpp and TXBlastProtocolHelper.cpp). Up to 8 queued packets form a
    burst; each is sent behind a 3-byte header (protocol id 0x9354, little-endian, then the
    packet's index in the high nibble and the burst size minus one in the low nibble). After
    the burst the transmitter waits for an acknowledgement whose protocol id carries a parity
    bit and whose bitmap marks the packets received; those leave the burst, the burst is
    topped up from the queue and the next burst starts. With nothing to send, a 5-byte
    "silencer" packet is sent instead.

    The radio, the ack timer and the driver are outside the model: what the protocol asks of
    them is recorded as a sequence of radio events, and the result of each transmission is a
    parameter. Mutexes and the atomic flag become plain sequential state. */
module LoraBlast {
  import opened Bits
  import opened LoraErrLog
  import opened LoraTxQueue
  import LoraConfig

  /** `protocolUniqueID`. */
  const ProtocolUniqueId: nat := 0x9354

  /** What the protocol asks of the radio driver and the ack timer. */
  datatype RadioEvent =
    | Transmit(bytes: seq<byte>)
    | StartRecv
    | StartAckTimer
    | StopAckTimer
    | DriverInit
    | DriverRestart

  /** The third header byte: `(index << 4) | ((count - 1) & 0x0F)` cut to 8 bits. The low
      nibble of an empty burst's count is 15. */
  function SequenceByte(index: nat, count: nat): (r: byte)
    ensures r as nat / 16 == index % 16
    ensures r as nat % 16 == (count - 1) % 16
  {
    var lo := (count - 1) % 16;
    var q := index * 16 + lo;
    DivModUnique(q, 0x100, index / 16, index % 16 * 16 + lo);
    DivModUnique(index % 16 * 16 + lo, 16, index % 16, lo);
    (q % 0x100) as byte
  }

  /** `b | ackParityMask`. */
  function WithLowBit(b: byte): (r: byte)
    ensures r as nat % 2 == 1 && r as nat / 2 == b as nat / 2
  {
    if b as nat % 2 == 0 then b + 1 else b
  }

  /** A row after `safeProtocolTransmit` writes the header over it in place: bytes 0-1 the
      protocol id, byte 2 the sequence byte, and, with the ack parity set, bit 0 of byte 3
      (the first byte after the header) set. */
  function Stamped(row: seq<byte>, index: nat, count: nat, parity: bool): (r: seq<byte>)
    requires |row| >= 4
    ensures |r| == |row| && r[4..] == row[4..]
    ensures LE(r[..2]) == ProtocolUniqueId && r[..3] == [0x54, 0x93, SequenceByte(index, count)]
    ensures parity ==> r[3] as nat % 2 == 1 && r[3] as nat / 2 == row[3] as nat / 2
    ensures !parity ==> r[3] == row[3]
  {
    var r := [(ProtocolUniqueId % 0x100) as byte, (ProtocolUniqueId / 0x100) as byte,
      SequenceByte(index, count), if parity then WithLowBit(row[3]) else row[3]] + row[4..];
    assert r[..2] == [0x54, 0x93];
    assert LE([0x93]) == 0x93;
    r
  }

  /** A refilled row as `safeProtocolTransmit` sends it, with the row length corrected to
      the queue row's length plus the header: the header, then the reserve with the ack
      parity in bit 0 of its first byte (the flags byte, as in the silencer), then exactly
      the packet. */
  lemma RefilledRowSent(burstRow: seq<byte>, queueRow: seq<byte>, queueLen: nat,
                        index: nat, count: nat, parity: bool)
    requires |burstRow| == LoraConfig.MaxLoraPacketSize && |queueRow| == ProtocolPacketDataBytes
    requires queueRow[..HeaderSize] == Reserve && HeaderSize <= queueLen <= ProtocolPacketDataBytes
    ensures Stamped(BurstRow(burstRow, queueRow), index, count, parity)[..queueLen + HeaderSize] ==
      [0x54, 0x93, SequenceByte(index, count), if parity then 1 else 0, 0, 0] + queueRow[HeaderSize..queueLen]
  {
    var row := BurstRow(burstRow, queueRow);
    var sent := Stamped(row, index, count, parity);
    assert row[3] == 0 && row[4] == 0 && row[5] == 0 by {
      assert row[HeaderSize..PacketOffset] == queueRow[..HeaderSize];
    }
    assert sent[PacketOffset..queueLen + HeaderSize] == queueRow[HeaderSize..queueLen] by {
      assert sent[4..] == row[4..];
      assert row[PacketOffset..queueLen + HeaderSize] == queueRow[HeaderSize..queueLen];
    }
    assert sent[..queueLen + HeaderSize] ==
      sent[..PacketOffset] + sent[PacketOffset..queueLen + HeaderSize];
  }

  /** The parity bit is ORed in and never cleared: a row sent with parity 1 and sent again
      after the parity has flipped to 0 still carries bit 0 of its flags byte. */
  lemma ParityNeverCleared(row: seq<byte>, index: nat, count: nat, index': nat, count': nat)
    requires |row| >= 4
    ensures Stamped(Stamped(row, index, count, true), index', count', false)[3] as nat % 2 == 1
  {
  }

  /** The header fields as a receiver reads them: the protocol id, the packet index and the
      burst size. */
  function ReadHeader(s: seq<byte>): (r: Option<(nat, nat, nat)>)
    ensures r.Some? <==> |s| >= HeaderSize
  {
    if |s| < HeaderSize then None
    else Some((LE(s[..2]), s[2] as nat / 16, s[2] as nat % 16 + 1))
  }

  /** Within a burst (at most 16 packets, and at least one) the stamped header reads back as
      the protocol id, the packet's index and the burst size. */
  lemma StampedHeaderReadsBack(row: seq<byte>, index: nat, count: nat, parity: bool)
    requires |row| >= 4 && index < 16 && 0 < count <= 16
    ensures ReadHeader(Stamped(row, index, count, parity)) == Some((ProtocolUniqueId, index, count))
  {
  }

  /** The silencer as sent: `{0x54, 0x93, 0, 0, 1}` with the header written over it, so its
      third byte is the sequence byte and its fourth carries the parity. */
  function Silencer(index: nat, count: nat, parity: bool): (r: seq<byte>)
    ensures |r| == 5 && LE(r[..2]) == ProtocolUniqueId && r[2] == SequenceByte(index, count)
    ensures r[3] == (if parity then 1 else 0) && r[4] == 1
  {
    Stamped([0x54, 0x93, 0x00, 0x00, 0x01], index, count, parity)
  }

  /** The radio events after a transmission: a timed-out transmission (`LORA_DETECTED`)
      switches to listening for an ack. */
  function AfterTransmit(txState: int, loraDetected: int): (r: seq<RadioEvent>)
    ensures txState == loraDetected <==> r == [StartAckTimer, StartRecv]
    ensures txState != loraDetected <==> r == []
  {
    if txState == loraDetected then [StartAckTimer, StartRecv] else []
  }

  /** Bit i of an ack bitmap: `(bitmap >> i) & 0x01`. */
  predicate Acked(bitmap: nat, i: nat)
    decreases i
  {
    if i == 0 then bitmap % 2 == 1 else Acked(bitmap / 2, i - 1)
  }

  /** The first n bits of an ack bitmap, bit i at index i. */
  function AckBits(bitmap: nat, n: nat): (r: seq<bool>)
    ensures |r| == n && forall i :: 0 <= i < n ==> r[i] == Acked(bitmap, i)
  {
    seq(n, (i: int) requires 0 <= i < n => Acked(bitmap, i as nat))
  }

  /** The first n rows without the ones whose bit is set, in order. */
  function Kept<T>(rows: seq<T>, acked: seq<bool>, n: nat): (r: seq<T>)
    requires n <= |rows| && n <= |acked|
    ensures |r| <= n
  {
    if n == 0 then []
    else if acked[n - 1] then Kept(rows, acked, n - 1)
    else Kept(rows, acked, n - 1) + [rows[n - 1]]
  }

  /** The number of set bits among the first n. */
  function AckedCount(acked: seq<bool>, n: nat): (r: nat)
    requires n <= |acked|
    ensures r <= n
  {
    if n == 0 then 0
    else if acked[n - 1] then AckedCount(acked, n - 1) + 1
    else AckedCount(acked, n - 1)
  }

  /** Exactly the acknowledged rows leave. */
  lemma {:induction false} KeptLength<T>(rows: seq<T>, acked: seq<bool>, n: nat)
    requires n <= |rows| && n <= |acked|
    ensures |Kept(rows, acked, n)| == n - AckedCount(acked, n)
  {
    if n > 0 {
      KeptLength(rows, acked, n - 1);
    }
  }

  /** Only rows that were there are kept, none twice. */
  lemma {:induction false} KeptFromRows<T>(rows: seq<T>, acked: seq<bool>, n: nat)
    requires n <= |rows| && n <= |acked|
    ensures multiset(Kept(rows, acked, n)) <= multiset(rows[..n])
  {
    if n > 0 {
      KeptFromRows(rows, acked, n - 1);
      assert rows[..n] == rows[..n - 1] + [rows[n - 1]];
    }
  }

  /** With no row acknowledged, all rows stay where they were. */
  lemma {:induction false} KeptNoneAcked<T>(rows: seq<T>, acked: seq<bool>, n: nat)
    requires n <= |rows| && n <= |acked| && forall i :: 0 <= i < n ==> !acked[i]
    ensures Kept(rows, acked, n) == rows[..n]
  {
    if n > 0 {
      KeptNoneAcked(rows, acked, n - 1);
      assert rows[..n] == rows[..n - 1] + [rows[n - 1]];
    }
  }

  /** With every row acknowledged, none stay. */
  lemma {:induction false} KeptAllAcked<T>(rows: seq<T>, acked: seq<bool>, n: nat)
    requires n <= |rows| && n <= |acked| && forall i :: 0 <= i < n ==> acked[i]
    ensures Kept(rows, acked, n) == []
  {
    if n > 0 {
      KeptAllAcked(rows, acked, n - 1);
    }
  }

  /** How `protocolReceive` classifies a reply while it awaits an ack. */
  datatype AckKind =
    | Malformed(tooShort: bool, wrongId: bool)
    | Outdated
    | Fresh(bitmap: nat)

  /** The checks of `protocolReceive`: at least 7 bytes, and the little-endian id without
      its low bit equal to 0x9354; then the id's low bit against the expected parity; then
      the bitmap, little-endian, in bytes 5-6. */
  function AckOf(rx: seq<byte>, parity: bool): (r: AckKind)
    ensures r.Fresh? ==> r.bitmap < 0x1_0000
  {
    var tooShort := |rx| < 7;
    var wrongId := |rx| < 2 || (rx[0] as nat + 0x100 * rx[1] as nat) / 2 * 2 != ProtocolUniqueId;
    if tooShort || wrongId then Malformed(tooShort, wrongId)
    else if (rx[0] as nat % 2 == 1) != parity then Outdated
    else Fresh(rx[5] as nat + 0x100 * rx[6] as nat)
  }

  /** A reply is malformed exactly when it is short or its first two bytes are neither
      0x9354 nor 0x9355 little-endian; otherwise it is outdated exactly when its parity is
      not the expected one, and fresh with the little-endian bitmap of bytes 5-6. */
  lemma AckOfMeaning(rx: seq<byte>, parity: bool)
    ensures AckOf(rx, parity).Malformed? ==> (AckOf(rx, parity).tooShort <==> |rx| < 7)
    ensures AckOf(rx, parity).Malformed? <==>
      |rx| < 7 || (rx[..2] != [0x54, 0x93] && rx[..2] != [0x55, 0x93])
    ensures AckOf(rx, parity).Outdated? <==> !AckOf(rx, parity).Malformed? && (rx[0] == 0x55) != parity
    ensures AckOf(rx, parity).Fresh? ==>
      (rx[0] == 0x55) == parity && AckOf(rx, parity).bitmap == LE(rx[5..7])
  {
    if |rx| >= 7 {
      assert LE(rx[5..7]) == rx[5] as nat + 0x100 * LE(rx[6..7]);
      assert LE(rx[6..7]) == rx[6] as nat + 0x100 * LE(rx[7..7]);
    }
  }

  /** An ack as a receiver would build it: the protocol id with the parity in its low bit,
      two bytes the transmitter does not read, then the bitmap. */
  function AckBytes(parity: bool, mid: seq<byte>, bitmap: nat): (r: seq<byte>)
    requires |mid| == 3 && bitmap < 0x1_0000
    ensures |r| == 7
  {
    ToLE(ProtocolUniqueId + (if parity then 1 else 0), 2) + mid + ToLE(bitmap, 2)
  }

  /** An ack is taken when its parity is the expected one and ignored as outdated when it is
      not; a taken ack gives its bitmap back. */
  lemma AckRoundTrip(parity: bool, mid: seq<byte>, bitmap: nat, expected: bool)
    requires |mid| == 3 && bitmap < 0x1_0000
    ensures AckOf(AckBytes(parity, mid, bitmap), expected) ==
      if parity == expected then Fresh(bitmap) else Outdated
  {
    var rx := AckBytes(parity, mid, bitmap);
    Pow2Add(8, 8);
    LEToLE(bitmap, 2);
    assert rx[5..7] == ToLE(bitmap, 2);
    assert rx[..2] == ToLE(ProtocolUniqueId + (if parity then 1 else 0), 2);
    assert ToLE(0x9354, 2) == [0x54, 0x93] && ToLE(0x9355, 2) == [0x55, 0x93];
  }

  /** The compaction loop of `processBitmap`: of the first n rows, the unacknowledged
      ones move down in order; rows from n on are untouched. */
  method Compact<T>(rows: array<T>, n: nat, bitmap: nat) returns (kept: nat)
    requires n <= rows.Length
    modifies rows
    ensures kept <= n && rows[..kept] == Kept(old(rows[..]), AckBits(bitmap, n), n)
    ensures rows[n..] == old(rows[n..])
    ensures forall j :: 0 <= j < rows.Length ==> rows[j] in old(rows[..])
  {
    ghost var rows0 := rows[..];
    ghost var acked := AckBits(bitmap, n);
    ghost var out: seq<T> := [];
    var writeIdx: nat := 0;
    for readIdx := 0 to n
      invariant writeIdx <= readIdx && out == Kept(rows0, acked, readIdx) && |out| == writeIdx
      invariant forall k :: 0 <= k < writeIdx ==> rows[k] == out[k]
      invariant forall k :: writeIdx <= k < rows.Length ==> rows[k] == rows0[k]
    {
      if !Acked(bitmap, readIdx) {
        if writeIdx != readIdx {
          rows[writeIdx] := rows[readIdx];
        }
        out := out + [rows0[readIdx]];
        writeIdx := writeIdx + 1;
      }
    }
    kept := writeIdx;
    KeptFromRows(rows0, acked, n);
    Compacted(rows0, rows[..], out, n);
  }

  /** The array after the compaction loop: the kept rows in front, the rest untouched, and
      no row that was not there before. */
  lemma Compacted<T>(rows0: seq<T>, rows: seq<T>, out: seq<T>, n: nat)
    requires |rows| == |rows0| && |out| <= n <= |rows0|
    requires forall k :: 0 <= k < |out| ==> rows[k] == out[k]
    requires forall k :: |out| <= k < |rows| ==> rows[k] == rows0[k]
    requires multiset(out) <= multiset(rows0[..n])
    ensures rows[..|out|] == out && rows[n..] == rows0[n..]
    ensures forall j :: 0 <= j < |rows| ==> rows[j] in rows0
  {
    assert rows[..|out|] == out;
    forall j | 0 <= j < |out| ensures rows[j] in rows0 {
      assert out[j] in multiset(rows0[..n]);
    }
  }

  /** What the refilled burst rows hold, in the terms the burst state uses: the first
      `from` rows as they were, a header reserve in every row of the burst, and the moved
      packets in order from row `from` on. */
  lemma RefilledRows(rows0: seq<seq<byte>>, lens0: seq<nat>, p0: seq<seq<byte>>, from: nat, upto: nat,
                     rows: seq<seq<byte>>, lens: seq<nat>)
    requires RowsRefilled(rows0, lens0, p0, from, upto, rows, lens)
    requires forall j :: 0 <= j < from ==> HeaderSize <= lens0[j]
    ensures rows[..from] == rows0[..from] && lens[..from] == lens0[..from]
    ensures forall j :: 0 <= j < upto ==> HeaderSize <= lens[j]
  {
    assert rows[..from] == rows0[..from];
    assert lens[..from] == lens0[..from];
  }

  /** The burst buffer's shape: 8 rows of 255 bytes, lengths within a row, and a header
      reserve in every row of the burst. */
  ghost predicate BurstShaped(burstRows: array<seq<byte>>, burstLens: array<nat>, burstCount: nat)
    reads burstRows, burstLens
  {
    burstRows.Length == MaxPacketGroupSize && burstLens.Length == MaxPacketGroupSize &&
    burstCount <= MaxPacketGroupSize &&
    (forall j :: 0 <= j < MaxPacketGroupSize ==>
      |burstRows[j]| == LoraConfig.MaxLoraPacketSize && burstLens[j] <= LoraConfig.MaxLoraPacketSize) &&
    forall j :: 0 <= j < burstCount ==> HeaderSize <= burstLens[j]
  }

  /** Burst rows `from` on hold `packets`, one each, behind the header and the zero
      reserve, with lengths that end at the packet's last byte. */
  ghost predicate HoldsPackets(rows: seq<seq<byte>>, lens: seq<nat>, from: nat, packets: seq<seq<byte>>)
  {
    from + |packets| <= |rows| && from + |packets| <= |lens| &&
    forall j :: from <= j < from + |packets| ==>
      lens[j] == PacketOffset + |packets[j - from]| <= LoraConfig.MaxLoraPacketSize &&
      lens[j] <= |rows[j]| &&
      rows[j][HeaderSize..PacketOffset] == Reserve &&
      rows[j][PacketOffset..lens[j]] == packets[j - from]
  }

  /** A burst of `count` rows after `refreshBurstBuffer`: first the rows it already held,
      with their lengths, then the oldest of the queued `packets0`. */
  ghost predicate ToppedUp(rows: seq<seq<byte>>, lens: seq<nat>, count: nat,
                           keptRows: seq<seq<byte>>, keptLens: seq<nat>, packets0: seq<seq<byte>>)
  {
    |keptRows| == |keptLens| <= count <= |keptRows| + |packets0| &&
    count <= |rows| && count <= |lens| &&
    rows[..|keptRows|] == keptRows && lens[..|keptLens|] == keptLens &&
    HoldsPackets(rows, lens, |keptRows|, packets0[..count - |keptRows|])
  }

  /** A row holding a packet goes on air, once stamped, as the header, the flags byte with
      the ack parity, two zero bytes, then exactly that packet. */
  lemma HeldPacketSent(rows: seq<seq<byte>>, lens: seq<nat>, from: nat, packets: seq<seq<byte>>, j: nat,
                       index: nat, count: nat, parity: bool)
    requires HoldsPackets(rows, lens, from, packets) && from <= j < from + |packets|
    ensures 4 <= lens[j] <= |rows[j]|
    ensures Stamped(rows[j], index, count, parity)[..lens[j]] ==
      [0x54, 0x93, SequenceByte(index, count), if parity then 1 else 0, 0, 0] + packets[j - from]
  {
    var row, len := rows[j], lens[j];
    var sent := Stamped(row, index, count, parity);
    assert row[3] == 0 && row[4] == 0 && row[5] == 0 by {
      assert row[HeaderSize..PacketOffset] == Reserve;
    }
    assert sent[PacketOffset..len] == packets[j - from] by {
      assert sent[4..] == row[4..];
      assert row[PacketOffset..len] == packets[j - from];
    }
    assert sent[..len] == sent[..PacketOffset] + sent[PacketOffset..len];
  }

  /** After `processBitmap`: `left` packets kept, the burst topped up to `count` packets, at
      most 8, from the oldest of the `packets0` that were queued, and the queue left with the
      rest, `packets`. */
  ghost predicate Refilled(count: nat, left: nat, packets0: seq<seq<byte>>, packets: seq<seq<byte>>)
  {
    left <= count == left + Min(MaxPacketGroupSize - left, |packets0|) &&
    packets == packets0[count - left..]
  }

  /** The protocol state of both source files: the burst buffer, the flags, the queue and
      the error log, and the radio events asked for so far. */
  class Blaster {
    const queue: TxQueue
    const log: ErrLog
    /** `burstBuffer`: 8 rows of 255 bytes. */
    const burstRows: array<seq<byte>>
    /** `burstBufferLens`: bytes to send from each row, the header included. */
    const burstLens: array<nat>
    /** The driver's `RADIOLIB_LORA_DETECTED` result code, meaning a transmission timed out. */
    const loraDetected: int
    /** `burstBufferCount`. */
    var burstCount: nat
    /** `currentBurstIndex`. */
    var burstIndex: nat
    var isBlasting: bool
    var awaitingAck: bool
    var ackParity: bool
    /** `protocolRunning`. */
    var running: bool
    /** `protocolInitialized`. */
    var initialized: bool
    var radio: seq<RadioEvent>

    ghost predicate Valid()
      reads this`burstCount, this`burstIndex, queue, queue.rows, queue.lens, log, log.buffer, burstRows, burstLens
    {
      queue.Valid() && log.Valid() &&
      burstRows != queue.rows && burstLens != queue.lens && burstLens as object != log.buffer as object &&
      queue.lens as object != log.buffer as object &&
      BurstShaped(burstRows, burstLens, burstCount) && burstIndex <= MaxPacketGroupSize
    }

    /** Never sending a burst and waiting for its ack at once. */
    ghost predicate Exclusive()
      reads this
    {
      !(isBlasting && awaitingAck)
    }

    /** The state `startNewBurstSequence` leaves, given the radio events, the rows and the
        lengths before it: with an empty burst, the silencer and listening; otherwise the
        burst's first row stamped in place and sent, every other row and every length as it
        was, its index advanced to 1 and the protocol blasting, unless the transmission timed
        out and it listens for an ack instead. */
    ghost predicate Restarted(before: seq<RadioEvent>, txState: int, wasBlasting: bool, oldIndex: nat,
                              rows0: seq<seq<byte>>, lens0: seq<nat>)
      reads this, burstRows, burstLens
    {
      burstLens[..] == lens0 &&
      if burstCount == 0 then
        burstRows[..] == rows0 && burstIndex == oldIndex &&
        radio == before + [Transmit(Silencer(oldIndex, 0, ackParity))] + AfterTransmit(txState, loraDetected) + [StartRecv] &&
        isBlasting == (wasBlasting && txState != loraDetected) && awaitingAck == (txState == loraDetected)
      else
        burstIndex == 1 && 0 < |rows0| && 4 <= |rows0[0]| &&
        burstRows[..] == rows0[0 := Stamped(rows0[0], 0, burstCount, ackParity)] &&
        0 < burstRows.Length && 0 < burstLens.Length &&
        HeaderSize <= burstLens[0] <= |burstRows[0]| &&
        burstRows[0][..HeaderSize] == [0x54, 0x93, SequenceByte(0, burstCount)] &&
        radio == before + [Transmit(burstRows[0][..burstLens[0]])] + AfterTransmit(txState, loraDetected) &&
        isBlasting == (txState != loraDetected) && awaitingAck == (txState == loraDetected)
    }

    /** The static state before `initProtocol`. */
    constructor (loraDetected: int)
      ensures Valid() && Exclusive() && !running && !initialized && radio == []
      ensures queue.Packets() == [] && burstCount == 0
      ensures this.loraDetected == loraDetected
    {
      queue := new TxQueue();
      log := new ErrLog();
      burstRows := new seq<byte>[MaxPacketGroupSize](_ => seq(LoraConfig.MaxLoraPacketSize, _ => 0 as byte));
      burstLens := new nat[MaxPacketGroupSize](_ => 0);
      this.loraDetected := loraDetected;
      burstCount, burstIndex := 0, 0;
      isBlasting, awaitingAck, ackParity, running, initialized := false, false, false, false, false;
      radio := [];
    }

    /** `initProtocol`: the queue emptied, the log cleared, the driver started (or restarted
        after the first time), no ack awaited and the protocol running. The burst, the
        parity and `isBlasting` are left as they were. */
    method InitProtocol()
      requires Valid()
      modifies this, queue, log
      ensures Valid() && Exclusive()
      ensures queue.Packets() == [] && log.Logged() == [] && log.flags == {}
      ensures running && initialized && !awaitingAck
      ensures radio == old(radio) + [if old(initialized) then DriverRestart else DriverInit]
      ensures isBlasting == old(isBlasting) && ackParity == old(ackParity)
      ensures burstCount == old(burstCount) && burstIndex == old(burstIndex)
    {
      running := false;
      assert BurstShaped(burstRows, burstLens, burstCount);
      queue.InitQueue();
      log.InitErr();
      assert BurstShaped(burstRows, burstLens, burstCount);
      radio := radio + [if initialized then DriverRestart else DriverInit];
      awaitingAck := false;
      running := true;
      initialized := true;
    }

    /** `listenForAck`. */
    method ListenForAck()
      modifies this`isBlasting, this`awaitingAck, this`radio
      ensures !isBlasting && awaitingAck && radio == old(radio) + [StartAckTimer, StartRecv]
      ensures burstCount == old(burstCount) && burstIndex == old(burstIndex) && ackParity == old(ackParity)
    {
      isBlasting := false;
      awaitingAck := true;
      radio := radio + [StartAckTimer, StartRecv];
    }

    /** `safeProtocolTransmit`: writes the header over `data` (returned as `stamped`), sends
        its first `len` bytes, logs a failed result and listens for an ack after a timeout. */
    method SafeProtocolTransmit(data: seq<byte>, len: nat, txState: int) returns (stamped: seq<byte>)
      requires Valid() && 4 <= |data| && len <= |data|
      modifies this`isBlasting, this`awaitingAck, this`radio, log, log.buffer
      ensures Valid()
      ensures stamped == Stamped(data, burstIndex, burstCount, ackParity)
      ensures burstCount == old(burstCount) && burstIndex == old(burstIndex) && ackParity == old(ackParity)
      ensures radio == old(radio) + [Transmit(stamped[..len])] + AfterTransmit(txState, loraDetected)
      ensures txState == loraDetected ==> !isBlasting && awaitingAck
      ensures txState != loraDetected ==> isBlasting == old(isBlasting) && awaitingAck == old(awaitingAck)
      ensures log.Logged() == RadioErrsAfter(old(log.Logged()), txState)
      ensures log.flags == FlagsAfter(old(log.flags), txState)
    {
      stamped := Stamped(data, burstIndex, burstCount, ackParity);
      radio := radio + [Transmit(stamped[..len])];
      if txState != 0 {
        log.LogErr(txState);
      }
      if txState == loraDetected {
        ListenForAck();
      }
    }

    /** `sendNextPacketInBurst`: past the last packet, stop blasting and listen for the ack;
        otherwise send the packet at the index, header written in place, and advance. */
    method SendNextPacketInBurst(txState: int)
      requires Valid()
      modifies this`isBlasting, this`awaitingAck, this`radio, this`burstIndex, log, log.buffer, burstRows
      ensures Valid()
      ensures burstCount == old(burstCount) && ackParity == old(ackParity)
      ensures old(burstIndex) >= burstCount ==>
        !isBlasting && awaitingAck && burstIndex == old(burstIndex) &&
        burstRows[..] == old(burstRows[..]) && radio == old(radio) + [StartAckTimer, StartRecv] &&
        log.Logged() == old(log.Logged()) && log.flags == old(log.flags)
      ensures old(burstIndex) < burstCount ==>
        burstIndex == old(burstIndex) + 1 &&
        burstRows[..] == old(burstRows[..])[old(burstIndex) :=
          Stamped(old(burstRows[burstIndex]), old(burstIndex), burstCount, ackParity)] &&
        burstRows[old(burstIndex)][..HeaderSize] == [0x54, 0x93, SequenceByte(old(burstIndex), burstCount)] &&
        HeaderSize <= burstLens[old(burstIndex)] &&
        radio == old(radio) + [Transmit(burstRows[old(burstIndex)][..burstLens[old(burstIndex)]])] +
          AfterTransmit(txState, loraDetected) &&
        (txState == loraDetected ==> !isBlasting && awaitingAck) &&
        (txState != loraDetected ==> isBlasting == old(isBlasting) && awaitingAck == old(awaitingAck)) &&
        log.Logged() == RadioErrsAfter(old(log.Logged()), txState) &&
        log.flags == FlagsAfter(old(log.flags), txState)
    {
      if burstIndex >= burstCount {
        isBlasting := false;
        ListenForAck();
      } else {
        TransmitNext(txState);
      }
    }

    /** The branch of `sendNextPacketInBurst` that sends row `burstIndex`. */
    method TransmitNext(txState: int)
      requires Valid() && burstIndex < burstCount
      modifies this`isBlasting, this`awaitingAck, this`radio, this`burstIndex, log, log.buffer, burstRows
      ensures Valid()
      ensures burstCount == old(burstCount) && ackParity == old(ackParity)
      ensures burstIndex == old(burstIndex) + 1 &&
        burstRows[..] == old(burstRows[..])[old(burstIndex) :=
          Stamped(old(burstRows[burstIndex]), old(burstIndex), burstCount, ackParity)] &&
        burstRows[old(burstIndex)][..HeaderSize] == [0x54, 0x93, SequenceByte(old(burstIndex), burstCount)] &&
        HeaderSize <= burstLens[old(burstIndex)] &&
        radio == old(radio) + [Transmit(burstRows[old(burstIndex)][..burstLens[old(burstIndex)]])] +
          AfterTransmit(txState, loraDetected) &&
        (txState == loraDetected ==> !isBlasting && awaitingAck) &&
        (txState != loraDetected ==> isBlasting == old(isBlasting) && awaitingAck == old(awaitingAck)) &&
        log.Logged() == RadioErrsAfter(old(log.Logged()), txState) &&
        log.flags == FlagsAfter(old(log.flags), txState)
    {
      var stamped := SafeProtocolTransmit(burstRows[burstIndex], burstLens[burstIndex], txState);
      burstRows[burstIndex] := stamped;
      burstIndex := burstIndex + 1;
    }

    /** `sendSilencer`: tells the receiver there is nothing new, then listens. */
    method SendSilencer(txState: int)
      requires Valid()
      modifies this`isBlasting, this`awaitingAck, this`radio, log, log.buffer
      ensures Valid()
      ensures burstCount == old(burstCount) && burstIndex == old(burstIndex) && ackParity == old(ackParity)
      ensures radio == old(radio) + [Transmit(Silencer(burstIndex, burstCount, ackParity))] +
        AfterTransmit(txState, loraDetected) + [StartRecv]
      ensures txState == loraDetected ==> !isBlasting && awaitingAck
      ensures txState != loraDetected ==> isBlasting == old(isBlasting) && awaitingAck == old(awaitingAck)
      ensures log.Logged() == RadioErrsAfter(old(log.Logged()), txState)
      ensures log.flags == FlagsAfter(old(log.flags), txState)
    {
      var dummy: seq<byte> := [0x54, 0x93, 0x00, 0x00, 0x01];
      var sent := SafeProtocolTransmit(dummy, 5, txState);
      assert sent[..5] == sent;
      radio := radio + [StartRecv];
    }

    /** `startNewBurstSequence`; every caller has neither a burst in flight nor an ack
        awaited. */
    method StartNewBurstSequence(txState: int)
      requires Valid() && !awaitingAck
      modifies this`isBlasting, this`awaitingAck, this`radio, this`burstIndex, log, log.buffer, burstRows
      ensures Valid() && Exclusive()
      ensures burstCount == old(burstCount) && ackParity == old(ackParity)
      ensures queue.Packets() == old(queue.Packets())
      ensures Restarted(old(radio), txState, old(isBlasting), old(burstIndex), old(burstRows[..]), old(burstLens[..]))
      ensures log.Logged() == RadioErrsAfter(old(log.Logged()), txState)
      ensures log.flags == FlagsAfter(old(log.flags), txState)
    {
      if burstCount == 0 {
        SendSilencer(txState);
        return;
      }
      burstIndex := 0;
      isBlasting := true;
      SendNextPacketInBurst(txState);
    }

    /** `nudgeTransmission`: false when the protocol is not running; when it is idle (not
        blasting, no ack awaited), the burst is topped up and a new burst starts. The ghost
        result `staged` is the burst as it stood when the new burst started. */
    method Nudge(txState: int) returns (ok: bool, ghost staged: seq<seq<byte>>)
      requires Valid()
      modifies this`burstCount, this`burstIndex, this`isBlasting, this`awaitingAck, this`radio, burstRows, burstLens, queue, log, log.buffer
      ensures Valid()
      ensures old(Exclusive()) ==> Exclusive()
      ensures ok == old(running)
      ensures ackParity == old(ackParity)
      ensures old(burstCount) <= burstCount <= old(burstCount) + |old(queue.Packets())|
      ensures queue.Packets() == old(queue.Packets())[burstCount - old(burstCount)..]
      ensures !ok || old(isBlasting) || old(awaitingAck) ==>
        burstCount == old(burstCount) && burstIndex == old(burstIndex) && radio == old(radio) &&
        isBlasting == old(isBlasting) && awaitingAck == old(awaitingAck) &&
        burstRows[..] == old(burstRows[..]) && burstLens[..] == old(burstLens[..]) &&
        log.Logged() == old(log.Logged()) && log.flags == old(log.flags)
      ensures ok && !old(isBlasting) && !old(awaitingAck) ==>
        burstCount == old(burstCount) + Min(MaxPacketGroupSize - old(burstCount), |old(queue.Packets())|) &&
        ToppedUp(staged, burstLens[..], burstCount, old(burstRows[..burstCount]), old(burstLens[..burstCount]),
          old(queue.Packets())) &&
        Restarted(old(radio), txState, false, old(burstIndex), staged, burstLens[..]) &&
        log.Logged() == RadioErrsAfter(old(log.Logged()), txState) &&
        log.flags == FlagsAfter(old(log.flags), txState)
    {
      staged := burstRows[..];
      if !running {
        return false, staged;
      }
      if !isBlasting && !awaitingAck {
        staged := StartFromIdle(txState);
      }
      return true, staged;
    }

    /** The idle branch of `nudgeTransmission`: the burst topped up from the queue, then a
        new burst started. */
    method StartFromIdle(txState: int) returns (ghost staged: seq<seq<byte>>)
      requires Valid() && !isBlasting && !awaitingAck
      modifies this`burstCount, this`burstIndex, this`isBlasting, this`awaitingAck, this`radio
      modifies burstRows, burstLens, queue, log, log.buffer
      ensures Valid() && Exclusive()
      ensures burstCount == old(burstCount) + Min(MaxPacketGroupSize - old(burstCount), |old(queue.Packets())|)
      ensures queue.Packets() == old(queue.Packets())[burstCount - old(burstCount)..]
      ensures ToppedUp(staged, burstLens[..], burstCount, old(burstRows[..burstCount]), old(burstLens[..burstCount]),
        old(queue.Packets()))
      ensures Restarted(old(radio), txState, false, old(burstIndex), staged, burstLens[..])
      ensures log.Logged() == RadioErrsAfter(old(log.Logged()), txState)
      ensures log.flags == FlagsAfter(old(log.flags), txState)
    {
      ghost var logged0, flags0 := log.Logged(), log.flags;
      ghost var radio0, index0 := radio, burstIndex;
      TopUp();
      staged := burstRows[..];
      ghost var lens1 := burstLens[..];
      assert unchanged(log, log.buffer);
      assert log.Logged() == logged0 && log.flags == flags0;
      assert radio == radio0 && burstIndex == index0 && !isBlasting;
      ghost var packets1 := queue.Packets();
      label Started:
      StartNewBurstSequence(txState);
      assert Restarted(radio0, txState, false, index0, staged, lens1);
      assert unchanged@Started(queue, queue.rows, queue.lens);
      assert queue.Packets() == packets1;
    }

    /** The `refreshBurstBuffer` call of `nudgeTransmission`, on the blaster's own burst. */
    method TopUp()
      requires Valid()
      modifies this`burstCount, burstRows, burstLens, queue
      ensures Valid()
      ensures log.Logged() == old(log.Logged()) && log.flags == old(log.flags)
      ensures burstIndex == old(burstIndex) && isBlasting == old(isBlasting) && awaitingAck == old(awaitingAck)
      ensures ackParity == old(ackParity)
      ensures radio == old(radio)
      ensures burstCount == old(burstCount) + Min(MaxPacketGroupSize - old(burstCount), |old(queue.Packets())|)
      ensures queue.Packets() == old(queue.Packets())[burstCount - old(burstCount)..]
      ensures burstRows[..old(burstCount)] == old(burstRows[..burstCount])
      ensures burstLens[..old(burstCount)] == old(burstLens[..burstCount])
      ensures HoldsPackets(burstRows[..], burstLens[..], old(burstCount), old(queue.Packets())[..burstCount - old(burstCount)])
    {
      ghost var packets0 := queue.Packets();
      ghost var rows0, lens0, count0 := burstRows[..], burstLens[..], burstCount;
      assert log.buffer as object != burstLens && log.buffer as object != burstRows && log as object != queue;
      burstCount := queue.RefreshBurstBuffer(burstRows, burstLens, burstCount);
      RefilledRows(rows0, lens0, packets0, count0, burstCount, burstRows[..], burstLens[..]);
      ghost var moved := packets0[..burstCount - count0];
      forall j | count0 <= j < burstCount
        ensures burstLens[j] == PacketOffset + |moved[j - count0]| <= LoraConfig.MaxLoraPacketSize
        ensures burstRows[j][HeaderSize..PacketOffset] == Reserve
        ensures burstRows[j][PacketOffset..burstLens[j]] == moved[j - count0]
      {
        assert moved[j - count0] == packets0[j - count0];
      }
      assert HoldsPackets(burstRows[..], burstLens[..], count0, moved);
    }

    /** `protocolTransmit`: queue the frame, then nudge; `staged` as for `Nudge`. */
    method ProtocolTransmit(frame: seq<byte>, txState: int) returns (ok: bool, ghost staged: seq<seq<byte>>)
      requires Valid() && HeaderSize + |frame| <= ProtocolPacketDataBytes
      modifies this`burstCount, this`burstIndex, this`isBlasting, this`awaitingAck, this`radio, burstRows, burstLens, queue, queue.rows, queue.lens, log, log.buffer
      ensures Valid()
      ensures old(Exclusive()) ==> Exclusive()
      ensures ok == old(running) && ackParity == old(ackParity)
      ensures old(burstCount) <= burstCount <= old(burstCount) + |QueueAdd(old(queue.Packets()), frame)|
      ensures queue.Packets() == QueueAdd(old(queue.Packets()), frame)[burstCount - old(burstCount)..]
      ensures !ok || old(isBlasting) || old(awaitingAck) ==>
        burstCount == old(burstCount) && burstIndex == old(burstIndex) && radio == old(radio) &&
        isBlasting == old(isBlasting) && awaitingAck == old(awaitingAck) &&
        burstRows[..] == old(burstRows[..]) && burstLens[..] == old(burstLens[..]) &&
        log.Logged() == old(log.Logged()) &&
        log.flags == FlagsAfter(old(log.flags), if |old(queue.Packets())| == MaxPacketsInQueue then QueueOverflow else 0)
      ensures ok && !old(isBlasting) && !old(awaitingAck) ==>
        burstCount == old(burstCount) +
          Min(MaxPacketGroupSize - old(burstCount), |QueueAdd(old(queue.Packets()), frame)|) &&
        ToppedUp(staged, burstLens[..], burstCount, old(burstRows[..burstCount]), old(burstLens[..burstCount]),
          QueueAdd(old(queue.Packets()), frame)) &&
        Restarted(old(radio), txState, false, old(burstIndex), staged, burstLens[..]) &&
        log.Logged() == RadioErrsAfter(old(log.Logged()), txState) &&
        log.flags == FlagsAfter(FlagsAfter(old(log.flags),
          if |old(queue.Packets())| == MaxPacketsInQueue then QueueOverflow else 0), txState)
    {
      ghost var radio0, index0, blasting0, awaiting0 := radio, burstIndex, isBlasting, awaitingAck;
      ghost var packets0, logged0, flags0 := queue.Packets(), log.Logged(), log.flags;
      ghost var rows0, lens0, count0 := burstRows[..], burstLens[..], burstCount;
      queue.AddFrameToQueue(frame, log);
      assert radio == radio0 && burstIndex == index0 && isBlasting == blasting0 && awaitingAck == awaiting0;
      assert burstRows[..] == rows0 && burstLens[..] == lens0 && burstCount == count0;
      assert log.Logged() == logged0;
      assert log.flags == FlagsAfter(flags0, if |packets0| == MaxPacketsInQueue then QueueOverflow else 0);
      ok, staged := Nudge(txState);
    }

    /** `ackTimeoutCallback`: when an ack was awaited, stop awaiting it; when not blasting
        either, log `ackTimeout` and send the burst again. */
    method AckTimeoutCallback(txState: int)
      requires Valid()
      modifies this`burstIndex, this`isBlasting, this`awaitingAck, this`radio, log, log.buffer, burstRows
      ensures Valid()
      ensures old(Exclusive()) ==> Exclusive()
      ensures burstCount == old(burstCount) && ackParity == old(ackParity)
      ensures !old(running) || !old(awaitingAck) || old(isBlasting) ==>
        burstIndex == old(burstIndex) && radio == old(radio) && isBlasting == old(isBlasting) &&
        burstRows[..] == old(burstRows[..]) &&
        log.Logged() == old(log.Logged()) && log.flags == old(log.flags)
      ensures !old(running) || !old(awaitingAck) ==> awaitingAck == old(awaitingAck)
      ensures old(running) && old(awaitingAck) && old(isBlasting) ==> !awaitingAck
      ensures old(running) && old(awaitingAck) && !old(isBlasting) ==>
        Restarted(old(radio), txState, false, old(burstIndex), old(burstRows[..]), old(burstLens[..])) &&
        log.Logged() == RadioErrsAfter(old(log.Logged()), txState) &&
        log.flags == FlagsAfter(FlagsAfter(old(log.flags), AckTimeout), txState)
    {
      if !running {
        return;
      }
      if awaitingAck {
        awaitingAck := false;
        if !isBlasting {
          log.LogErr(AckTimeout);
          StartNewBurstSequence(txState);
        }
      }
    }

    /** `protocolTXComplete`: while blasting, send the next packet; otherwise log
        `unexpectedTXCompletion`. */
    method ProtocolTxComplete(txState: int)
      requires Valid()
      modifies this`burstIndex, this`isBlasting, this`awaitingAck, this`radio, log, log.buffer, burstRows
      ensures Valid()
      ensures old(Exclusive()) ==> Exclusive()
      ensures burstCount == old(burstCount) && ackParity == old(ackParity)
      ensures !old(running) || !old(isBlasting) ==>
        burstIndex == old(burstIndex) && burstRows[..] == old(burstRows[..]) &&
        radio == old(radio) && isBlasting == old(isBlasting) && awaitingAck == old(awaitingAck) &&
        log.Logged() == old(log.Logged())
      ensures !old(running) ==> log.flags == old(log.flags)
      ensures old(running) && !old(isBlasting) ==>
        log.flags == FlagsAfter(old(log.flags), UnexpectedTxCompletion)
      ensures old(running) && old(isBlasting) && old(burstIndex) >= burstCount ==>
        !isBlasting && awaitingAck && burstIndex == old(burstIndex) &&
        burstRows[..] == old(burstRows[..]) && radio == old(radio) + [StartAckTimer, StartRecv] &&
        log.Logged() == old(log.Logged()) && log.flags == old(log.flags)
      ensures old(running) && old(isBlasting) && old(burstIndex) < burstCount ==>
        burstIndex == old(burstIndex) + 1 &&
        burstRows[..] == old(burstRows[..])[old(burstIndex) :=
          Stamped(old(burstRows[burstIndex]), old(burstIndex), burstCount, ackParity)] &&
        burstRows[old(burstIndex)][..HeaderSize] == [0x54, 0x93, SequenceByte(old(burstIndex), burstCount)] &&
        HeaderSize <= burstLens[old(burstIndex)] &&
        radio == old(radio) + [Transmit(burstRows[old(burstIndex)][..burstLens[old(burstIndex)]])] +
          AfterTransmit(txState, loraDetected) &&
        (txState == loraDetected ==> !isBlasting && awaitingAck) &&
        (txState != loraDetected ==> isBlasting && awaitingAck == old(awaitingAck)) &&
        log.Logged() == RadioErrsAfter(old(log.Logged()), txState) &&
        log.flags == FlagsAfter(old(log.flags), txState)
    {
      if !running {
        return;
      }
      if isBlasting {
        SendNextPacketInBurst(txState);
      } else {
        log.LogErr(UnexpectedTxCompletion);
      }
    }

    /** `protocolReceive`. Ignored unless the protocol runs and an ack is awaited; then the
        ack timer stops and the reply is handled. */
    method ProtocolReceive(rx: seq<byte>, txState: int) returns (ghost staged: seq<seq<byte>>)
      requires Valid()
      modifies this`burstCount, this`burstIndex, this`isBlasting, this`awaitingAck, this`radio, this`ackParity, burstRows, burstLens, queue, log, log.buffer
      ensures Valid()
      ensures old(Exclusive()) ==> Exclusive()
      ensures !old(running) || !old(awaitingAck) ==>
        radio == old(radio) && awaitingAck == old(awaitingAck) && isBlasting == old(isBlasting) &&
        ackParity == old(ackParity) && burstCount == old(burstCount) && burstIndex == old(burstIndex) &&
        burstRows[..] == old(burstRows[..]) && burstLens[..] == old(burstLens[..]) &&
        queue.Packets() == old(queue.Packets()) &&
        log.Logged() == old(log.Logged()) && log.flags == old(log.flags)
      ensures old(running) && old(awaitingAck) ==>
        Replied(rx, txState, old(radio) + [StopAckTimer], old(isBlasting), old(ackParity), old(burstCount),
          old(burstIndex), old(burstRows[..]), old(burstLens[..]), old(queue.Packets()),
          old(log.Logged()), old(log.flags), staged)
    {
      staged := burstRows[..];
      if !running {
        return;
      }
      if !awaitingAck {
        return;
      }
      awaitingAck := false;
      radio := radio + [StopAckTimer];
      staged := HandleReply(rx, txState);
    }

    /** The state after a reply is handled, given the state before: a malformed reply is
        logged and nothing else happens; an outdated one sends the same burst again; a
        fresh one removes the acknowledged packets, tops the burst up from the queue (the
        burst as it then stands is `staged`), flips the parity and starts the next burst. */
    ghost predicate Replied(rx: seq<byte>, txState: int, radio0: seq<RadioEvent>, blasting0: bool,
                            parity0: bool, count0: nat, index0: nat, rows0: seq<seq<byte>>,
                            lens0: seq<nat>, packets0: seq<seq<byte>>, logged0: seq<int>,
                            flags0: set<nat>, staged: seq<seq<byte>>)
      reads this, burstRows, burstLens, queue, queue.rows, queue.lens, log, log.buffer
      requires queue.Valid() && log.Valid()
    {
      match AckOf(rx, parity0)
      case Malformed(tooShort, wrongId) =>
        radio == radio0 && !awaitingAck && isBlasting == blasting0 &&
        ackParity == parity0 && burstCount == count0 && burstIndex == index0 &&
        burstRows[..] == rows0 && burstLens[..] == lens0 &&
        queue.Packets() == packets0 && log.Logged() == logged0 &&
        log.flags == FlagsAfter(FlagsAfter(flags0, if tooShort then InvalidRxLength else 0),
          if wrongId then IncorrectProtocolId else 0)
      case Outdated =>
        ackParity == parity0 && burstCount == count0 &&
        queue.Packets() == packets0 &&
        Restarted(radio0, txState, blasting0, index0, rows0, lens0) &&
        log.Logged() == RadioErrsAfter(logged0, txState) &&
        log.flags == FlagsAfter(flags0, txState)
      case Fresh(bitmap) =>
        Accepted(bitmap, txState, radio0, blasting0, parity0, count0, index0, rows0, lens0, packets0,
          logged0, flags0, staged)
    }

    /** The state after a fresh ack with `bitmap`, given the state before: the parity is
        flipped; the unacknowledged rows and their lengths are kept at the front and the
        burst is topped up from the queue, which gives `staged`; the next burst is then
        started from `staged`. */
    ghost predicate Accepted(bitmap: nat, txState: int, radio0: seq<RadioEvent>, blasting0: bool,
                             parity0: bool, count0: nat, index0: nat, rows0: seq<seq<byte>>,
                             lens0: seq<nat>, packets0: seq<seq<byte>>, logged0: seq<int>,
                             flags0: set<nat>, staged: seq<seq<byte>>)
      reads this, burstRows, burstLens, queue, queue.rows, queue.lens, log, log.buffer
      requires queue.Valid() && log.Valid()
    {
      var kept := count0 - AckedCount(AckBits(bitmap, count0), count0);
      ackParity == !parity0 && Refilled(burstCount, kept, packets0, queue.Packets()) &&
      count0 <= |rows0| && count0 <= |lens0| &&
      ToppedUp(staged, burstLens[..], burstCount, Kept(rows0, AckBits(bitmap, count0), count0), lens0[..kept],
        packets0) &&
      Restarted(radio0, txState, blasting0, index0, staged, burstLens[..]) &&
      log.Logged() == RadioErrsAfter(logged0, txState) &&
      log.flags == FlagsAfter(flags0, txState)
    }

    /** The classification and handling part of `protocolReceive`, once the ack timer is
        stopped. */
    method HandleReply(rx: seq<byte>, txState: int) returns (ghost staged: seq<seq<byte>>)
      requires Valid() && !awaitingAck
      modifies this`burstCount, this`burstIndex, this`isBlasting, this`awaitingAck, this`radio, this`ackParity, burstRows, burstLens, queue, log, log.buffer
      ensures Valid() && Exclusive()
      ensures Replied(rx, txState, old(radio), old(isBlasting), old(ackParity), old(burstCount),
        old(burstIndex), old(burstRows[..]), old(burstLens[..]), old(queue.Packets()),
        old(log.Logged()), old(log.flags), staged)
    {
      staged := burstRows[..];
      ghost var radio0, blasting0, index0, count0 := radio, isBlasting, burstIndex, burstCount;
      ghost var parity0, rows0, lens0 := ackParity, burstRows[..], burstLens[..];
      ghost var packets0, logged0, flags0 := queue.Packets(), log.Logged(), log.flags;
      ghost var ack := AckOf(rx, ackParity);
      var malformed := CheckReply(rx);
      if malformed {
        assert Replied(rx, txState, radio0, blasting0, parity0, count0, index0, rows0, lens0, packets0, logged0, flags0, staged);
        return;
      }
      if (rx[0] % 2 == 1) != ackParity {
        StartNewBurstSequence(txState);
        assert Replied(rx, txState, radio0, blasting0, parity0, count0, index0, rows0, lens0, packets0, logged0, flags0, staged);
        return;
      }
      var bitmap := rx[5] as nat + 0x100 * rx[6] as nat;
      assert ack == Fresh(bitmap);
      assert queue.Packets() == packets0 && log.Logged() == logged0 && log.flags == flags0;
      staged := AcceptAck(bitmap, txState);
      assert Accepted(bitmap, txState, radio0, blasting0, parity0, count0, index0, rows0, lens0, packets0,
        logged0, flags0, staged);
      assert Replied(rx, txState, radio0, blasting0, parity0, count0, index0, rows0, lens0, packets0, logged0, flags0, staged);
    }

    /** A fresh ack taken: `processBitmap`, the parity flipped and the next burst started
        from `staged`, the burst as `processBitmap` left it. */
    method AcceptAck(bitmap: nat, txState: int) returns (ghost staged: seq<seq<byte>>)
      requires Valid() && !awaitingAck
      modifies this`burstCount, this`burstIndex, this`isBlasting, this`awaitingAck, this`radio, this`ackParity
      modifies burstRows, burstLens, queue, log, log.buffer
      ensures Valid() && Exclusive()
      ensures ackParity == !old(ackParity)
      ensures var kept := old(burstCount) - AckedCount(AckBits(bitmap, old(burstCount)), old(burstCount));
        Refilled(burstCount, kept, old(queue.Packets()), queue.Packets()) &&
        ToppedUp(staged, burstLens[..], burstCount, Kept(old(burstRows[..]), AckBits(bitmap, old(burstCount)), old(burstCount)),
          old(burstLens[..])[..kept], old(queue.Packets()))
      ensures Restarted(old(radio), txState, old(isBlasting), old(burstIndex), staged, burstLens[..])
      ensures log.Logged() == RadioErrsAfter(old(log.Logged()), txState)
      ensures log.flags == FlagsAfter(old(log.flags), txState)
    {
      var left := ProcessBitmap(bitmap);
      staged := burstRows[..];
      ackParity := !ackParity;
      StartNewBurstSequence(txState);
    }

    /** `processBitmap`: the unacknowledged packets of the burst move down in order (their
        lengths stay where they were, as `burstBufferLens` is not compacted), and the burst
        is topped up from the queue; gives the number of packets kept. */
    method ProcessBitmap(bitmap: nat) returns (kept: nat)
      requires Valid()
      modifies this`burstCount, burstRows, burstLens, queue
      ensures Valid()
      ensures log.Logged() == old(log.Logged()) && log.flags == old(log.flags)
      ensures kept == old(burstCount) - AckedCount(AckBits(bitmap, old(burstCount)), old(burstCount))
      ensures burstRows[..kept] == Kept(old(burstRows[..]), AckBits(bitmap, old(burstCount)), old(burstCount))
      ensures burstLens[..kept] == old(burstLens[..kept])
      ensures Refilled(burstCount, kept, old(queue.Packets()), queue.Packets())
      ensures HoldsPackets(burstRows[..], burstLens[..], kept, old(queue.Packets())[..burstCount - kept])
      ensures ToppedUp(burstRows[..], burstLens[..], burstCount,
        Kept(old(burstRows[..]), AckBits(bitmap, old(burstCount)), old(burstCount)), old(burstLens[..])[..kept],
        old(queue.Packets()))
    {
      ghost var packets0, lens0 := queue.Packets(), burstLens[..];
      kept := CompactBurst(bitmap);
      assert queue.Packets() == packets0;
      TopUp();
      assert burstLens[..kept] == lens0[..kept];
    }

    /** The compaction half of `processBitmap`: the burst shrinks to its unacknowledged
        packets. */
    method CompactBurst(bitmap: nat) returns (kept: nat)
      requires Valid()
      modifies this`burstCount, burstRows
      ensures Valid() && burstCount == kept
      ensures kept == old(burstCount) - AckedCount(AckBits(bitmap, old(burstCount)), old(burstCount))
      ensures burstRows[..kept] == Kept(old(burstRows[..]), AckBits(bitmap, old(burstCount)), old(burstCount))
    {
      KeptLength(burstRows[..], AckBits(bitmap, burstCount), burstCount);
      assert forall x :: x in burstRows[..] ==> |x| == LoraConfig.MaxLoraPacketSize;
      kept := Compact(burstRows, burstCount, bitmap);
      burstCount := kept;
    }

    /** The length and protocol-id checks of `protocolReceive`, each logging its own error
        code; true when either failed. */
    method CheckReply(rx: seq<byte>) returns (malformed: bool)
      requires Valid()
      modifies log, log.buffer
      ensures Valid()
      ensures malformed == AckOf(rx, ackParity).Malformed?
      ensures !malformed ==> |rx| >= 7 && (AckOf(rx, ackParity).Outdated? <==> (rx[0] % 2 == 1) != ackParity)
      ensures !malformed && AckOf(rx, ackParity).Fresh? ==>
        AckOf(rx, ackParity).bitmap == rx[5] as nat + 0x100 * rx[6] as nat
      ensures log.Logged() == old(log.Logged())
      ensures log.flags == if malformed then
          FlagsAfter(FlagsAfter(old(log.flags), if |rx| < 7 then InvalidRxLength else 0),
            if AckOf(rx, ackParity).wrongId then IncorrectProtocolId else 0)
        else old(log.flags)
    {
      var tooShort := |rx| < 7;
      var wrongId := |rx| < 2 || (rx[0] as nat + 0x100 * rx[1] as nat) / 2 * 2 != ProtocolUniqueId;
      if tooShort {
        log.LogErr(InvalidRxLength);
      }
      if wrongId {
        log.LogErr(IncorrectProtocolId);
      }
      malformed := tooShort || wrongId;
    }
  }
}
