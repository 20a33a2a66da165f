/** The transmitter's packet queue (mila-embedded/src/telemetryTX/LoraTransmitQueue.cpp): a
    ring of 64 rows of 252 bytes. Each queued row keeps 3 bytes in front for the protocol
    header and then holds whole frames, appended while they fit. The burst buffer of the
    blast protocol is refilled from the oldest rows. */
module LoraTxQueue {
  import opened Bits
  import opened LoraErrLog
  import LoraConfig

  /** `maxPacketGroupSize`: packets per burst. */
  const MaxPacketGroupSize: nat := 8
  /** `maxPacketsInQueue`. */
  const MaxPacketsInQueue: nat := 64
  /** `headerSize`: two protocol-id bytes and the sequence byte. */
  const HeaderSize: nat := 3
  /** `protocolPacketDataBytes`: the length of a queue row. */
  const ProtocolPacketDataBytes: nat := LoraConfig.MaxLoraPacketSize - HeaderSize

  /** The ring position k places after `tail`. */
  function Slot(tail: nat, k: nat): (r: nat)
    requires tail < MaxPacketsInQueue && k <= MaxPacketsInQueue
    ensures r < MaxPacketsInQueue && r == (tail + k) % MaxPacketsInQueue
  {
    if tail + k < MaxPacketsInQueue then tail + k
    else
      DivModUnique(tail + k, MaxPacketsInQueue, 1, tail + k - MaxPacketsInQueue);
      tail + k - MaxPacketsInQueue
  }

  /** Ring rows and lengths in which the `count` rows from `tail` on hold a header reserve. */
  ghost predicate WellFormed(rows: seq<seq<byte>>, lens: seq<nat>, tail: nat, count: nat)
  {
    |rows| == MaxPacketsInQueue && |lens| == MaxPacketsInQueue &&
    tail < MaxPacketsInQueue && count <= MaxPacketsInQueue &&
    forall k :: 0 <= k < count ==> HeaderSize <= lens[Slot(tail, k)] <= |rows[Slot(tail, k)]|
  }

  /** The queued packets, oldest first: each row's bytes after the reserve, up to its length. */
  ghost function PacketsOf(rows: seq<seq<byte>>, lens: seq<nat>, tail: nat, count: nat): (r: seq<seq<byte>>)
    requires WellFormed(rows, lens, tail, count)
    ensures |r| == count
  {
    seq(count, k requires 0 <= k < count => rows[Slot(tail, k)][HeaderSize..lens[Slot(tail, k)]])
  }

  /** `spaceInBuffer` for a queued packet: its row has room for `size` more bytes. */
  predicate Fits(packet: seq<byte>, size: nat)
  {
    HeaderSize + |packet| + size <= ProtocolPacketDataBytes
  }

  /** The oldest packet at or after `from` with room for `size` bytes. */
  function FirstFit(packets: seq<seq<byte>>, size: nat, from: nat): (r: Option<nat>)
    requires from <= |packets|
    ensures r.Some? ==> from <= r.value < |packets| && Fits(packets[r.value], size)
    ensures r.Some? ==> forall j :: from <= j < r.value ==> !Fits(packets[j], size)
    ensures r.None? ==> forall j :: from <= j < |packets| ==> !Fits(packets[j], size)
    decreases |packets| - from
  {
    if from == |packets| then None
    else if Fits(packets[from], size) then Some(from)
    else FirstFit(packets, size, from + 1)
  }

  /** The queue after `addFrameToQueue`. A full queue is not searched (the loop starts and
      ends at the same ring position): its oldest packet is dropped and the frame opens a
      new one. Otherwise the frame goes at the end of the oldest packet with room, or opens
      a new packet when none has room. */
  function QueueAdd(packets: seq<seq<byte>>, frame: seq<byte>): (r: seq<seq<byte>>)
    requires |packets| <= MaxPacketsInQueue
    ensures |r| <= MaxPacketsInQueue
    ensures |packets| == MaxPacketsInQueue ==> r == packets[1..] + [frame]
    ensures |packets| < MaxPacketsInQueue ==>
      |packets| <= |r| <= |packets| + 1 && forall j :: 0 <= j < |packets| ==> packets[j] <= r[j]
    ensures |packets| < MaxPacketsInQueue && |r| == |packets| + 1 ==>
      r[|packets|] == frame && forall j :: 0 <= j < |packets| ==> !Fits(packets[j], |frame|)
    ensures |packets| < MaxPacketsInQueue && |r| == |packets| ==>
      exists j :: 0 <= j < |packets| && Fits(packets[j], |frame|) && r[j] == packets[j] + frame
    ensures ((forall j :: 0 <= j < |packets| ==> HeaderSize + |packets[j]| <= ProtocolPacketDataBytes) &&
      HeaderSize + |frame| <= ProtocolPacketDataBytes) ==>
      forall j :: 0 <= j < |r| ==> HeaderSize + |r[j]| <= ProtocolPacketDataBytes
  {
    if |packets| == MaxPacketsInQueue then packets[1..] + [frame]
    else match FirstFit(packets, |frame|, 0)
      case Some(i) => packets[i := packets[i] + frame]
      case None => packets + [frame]
  }

  /** Bytes held over all packets. */
  function TotalBytes(packets: seq<seq<byte>>): nat
  {
    if packets == [] then 0 else |packets[0]| + TotalBytes(packets[1..])
  }

  lemma {:induction false} TotalBytesAppend(packets: seq<seq<byte>>, last: seq<byte>)
    ensures TotalBytes(packets + [last]) == TotalBytes(packets) + |last|
    decreases |packets|
  {
    if packets != [] {
      assert (packets + [last])[1..] == packets[1..] + [last];
      TotalBytesAppend(packets[1..], last);
    }
  }

  lemma {:induction false} TotalBytesGrow(packets: seq<seq<byte>>, i: nat, frame: seq<byte>)
    requires i < |packets|
    ensures TotalBytes(packets[i := packets[i] + frame]) == TotalBytes(packets) + |frame|
    decreases i
  {
    if i > 0 {
      assert packets[i := packets[i] + frame][1..] == packets[1..][i - 1 := packets[i] + frame];
      TotalBytesGrow(packets[1..], i - 1, frame);
    }
  }

  /** No byte is lost or made up: a frame adds its length, and an overflow loses exactly
      the oldest packet. */
  lemma QueueAddBytes(packets: seq<seq<byte>>, frame: seq<byte>)
    requires |packets| <= MaxPacketsInQueue
    ensures TotalBytes(QueueAdd(packets, frame)) ==
      TotalBytes(packets) + |frame| - (if |packets| == MaxPacketsInQueue then |packets[0]| else 0)
  {
    if |packets| == MaxPacketsInQueue {
      TotalBytesAppend(packets[1..], frame);
    } else {
      match FirstFit(packets, |frame|, 0)
      case Some(i) => TotalBytesGrow(packets, i, frame);
      case None => TotalBytesAppend(packets, frame);
    }
  }

  /** Appending to the row of queued packet k grows that packet and no other. */
  lemma AppendAtSlot(rows: seq<seq<byte>>, lens: seq<nat>, tail: nat, count: nat, k: nat, frame: seq<byte>)
    requires WellFormed(rows, lens, tail, count) && k < count
    requires lens[Slot(tail, k)] + |frame| <= |rows[Slot(tail, k)]|
    ensures var s := Slot(tail, k);
      var rows' := rows[s := rows[s][..lens[s]] + frame + rows[s][lens[s] + |frame|..]];
      var lens' := lens[s := lens[s] + |frame|];
      WellFormed(rows', lens', tail, count) &&
      PacketsOf(rows', lens', tail, count) ==
        PacketsOf(rows, lens, tail, count)[k := PacketsOf(rows, lens, tail, count)[k] + frame]
  {
    var s := Slot(tail, k);
    var rows' := rows[s := rows[s][..lens[s]] + frame + rows[s][lens[s] + |frame|..]];
    var lens' := lens[s := lens[s] + |frame|];
    assert rows'[s][HeaderSize..lens'[s]] == rows[s][HeaderSize..lens[s]] + frame;
  }

  /** Opening a new row at the head adds the frame as the newest packet. */
  lemma PushAtHead(rows: seq<seq<byte>>, lens: seq<nat>, tail: nat, count: nat, frame: seq<byte>)
    requires WellFormed(rows, lens, tail, count) && count < MaxPacketsInQueue
    requires HeaderSize + |frame| <= |rows[Slot(tail, count)]|
    ensures var s := Slot(tail, count);
      var rows' := rows[s := rows[s][..HeaderSize] + frame + rows[s][HeaderSize + |frame|..]];
      var lens' := lens[s := (HeaderSize + |frame|) as nat];
      WellFormed(rows', lens', tail, count + 1) &&
      PacketsOf(rows', lens', tail, count + 1) == PacketsOf(rows, lens, tail, count) + [frame]
  {
    var s := Slot(tail, count);
    var rows' := rows[s := rows[s][..HeaderSize] + frame + rows[s][HeaderSize + |frame|..]];
    var lens' := lens[s := (HeaderSize + |frame|) as nat];
    assert rows'[s][HeaderSize..lens'[s]] == frame;
  }

  /** Advancing the tail drops the oldest packet. */
  lemma DropOldest(rows: seq<seq<byte>>, lens: seq<nat>, tail: nat, count: nat)
    requires WellFormed(rows, lens, tail, count) && count > 0
    ensures Slot(Slot(tail, 1), count - 1) == Slot(tail, count)
    ensures WellFormed(rows, lens, Slot(tail, 1), count - 1)
    ensures PacketsOf(rows, lens, Slot(tail, 1), count - 1) == PacketsOf(rows, lens, tail, count)[1..]
  {
    forall k | 0 <= k < count - 1
      ensures Slot(Slot(tail, 1), k) == Slot(tail, k + 1)
    {
    }
  }

  /** The three bytes each queue row keeps in front of its packet. Nothing writes them, so
      they keep the zeros of the static array. */
  const Reserve: seq<byte> := [0, 0, 0]

  /** Where a packet starts in a burst row: behind the protocol header that
      `safeProtocolTransmit` writes and the reserve that came with the queue row. */
  const PacketOffset: nat := 2 * HeaderSize

  /** The copy of `refreshBurstBuffer`: the 252-byte queue row, reserve included, goes to
      offset 3 of the 255-byte burst row, behind the three bytes already there. */
  function BurstRow(burstRow: seq<byte>, queueRow: seq<byte>): (r: seq<byte>)
    requires |burstRow| == LoraConfig.MaxLoraPacketSize && |queueRow| == ProtocolPacketDataBytes
    ensures |r| == |burstRow| && r[..HeaderSize] == burstRow[..HeaderSize]
    ensures r[HeaderSize..PacketOffset] == queueRow[..HeaderSize]
    ensures forall len :: HeaderSize <= len <= |queueRow| ==>
      r[PacketOffset..len + HeaderSize] == queueRow[HeaderSize..len]
  {
    burstRow[..HeaderSize] + queueRow
  }

  /** With the queue row's length kept as the burst row's length, as `refreshBurstBuffer`
      does, the bytes sent after the header are the reserve and then the packet without its
      last three bytes: a one-byte packet 7 goes out as the byte 0. */
  lemma AsWrittenLosesPacketTail()
    ensures var queueRow := [0, 0, 0, 7] + seq(ProtocolPacketDataBytes - 4, _ => 0 as byte);
      var burstRow := seq(LoraConfig.MaxLoraPacketSize, _ => 0 as byte);
      var len := HeaderSize + 1;
      queueRow[HeaderSize..len] == [7] &&
      BurstRow(burstRow, queueRow)[HeaderSize..len] == [0]
  {
  }

  /** Every refilled row sent with the queue row's length carries the reserve and a packet
      cut short by three bytes. */
  lemma AsWrittenSendsReserve(burstRow: seq<byte>, queueRow: seq<byte>, len: nat)
    requires |burstRow| == LoraConfig.MaxLoraPacketSize && |queueRow| == ProtocolPacketDataBytes
    requires 2 * HeaderSize <= len <= ProtocolPacketDataBytes
    ensures BurstRow(burstRow, queueRow)[HeaderSize..len] ==
      queueRow[..HeaderSize] + queueRow[HeaderSize..len - HeaderSize]
  {
  }

  /** The burst rows after `refreshBurstBuffer` has moved the packets p0[..upto - from]
      into rows from..upto of rows0, each row's length corrected to the queue row's length
      plus the header: every row keeps its 255 bytes, the rows outside the range are as
      they were, and refilled row j holds the zero reserve and then packet j - from. */
  ghost predicate RowsRefilled(rows0: seq<seq<byte>>, lens0: seq<nat>, p0: seq<seq<byte>>, from: nat, upto: nat,
                           rows: seq<seq<byte>>, lens: seq<nat>)
  {
    |rows0| == |lens0| == |rows| == |lens| == MaxPacketGroupSize &&
    from <= upto <= MaxPacketGroupSize && upto - from <= |p0| &&
    (forall j :: 0 <= j < MaxPacketGroupSize ==>
      |rows[j]| == LoraConfig.MaxLoraPacketSize && lens[j] <= LoraConfig.MaxLoraPacketSize) &&
    (forall j :: 0 <= j < from ==> rows[j] == rows0[j] && lens[j] == lens0[j]) &&
    (forall j :: upto <= j < MaxPacketGroupSize ==> rows[j] == rows0[j] && lens[j] == lens0[j]) &&
    forall j :: from <= j < upto ==>
      lens[j] == PacketOffset + |p0[j - from]| <= LoraConfig.MaxLoraPacketSize &&
      rows[j][HeaderSize..PacketOffset] == Reserve &&
      rows[j][PacketOffset..lens[j]] == p0[j - from]
  }

  /** Moving the next packet into row upto extends the refilled range by one row. */
  lemma RefilledStep(rows0: seq<seq<byte>>, lens0: seq<nat>, p0: seq<seq<byte>>, from: nat, upto: nat,
                     rows: seq<seq<byte>>, lens: seq<nat>, rows': seq<seq<byte>>, lens': seq<nat>)
    requires RowsRefilled(rows0, lens0, p0, from, upto, rows, lens)
    requires upto < MaxPacketGroupSize && upto - from < |p0|
    requires |rows'| == |lens'| == MaxPacketGroupSize
    requires rows' == rows[upto := rows'[upto]] && lens' == lens[upto := lens'[upto]]
    requires |rows'[upto]| == LoraConfig.MaxLoraPacketSize
    requires lens'[upto] == PacketOffset + |p0[upto - from]| <= LoraConfig.MaxLoraPacketSize
    requires rows'[upto][HeaderSize..PacketOffset] == Reserve
    requires rows'[upto][PacketOffset..lens'[upto]] == p0[upto - from]
    ensures RowsRefilled(rows0, lens0, p0, from, upto + 1, rows', lens')
  {
  }

  /** The queue's static state. */
  class TxQueue {
    /** `TXQueue`: 64 rows of 252 bytes. */
    const rows: array<seq<byte>>
    /** `TXQueueLens`: bytes used in each row, the header reserve included. */
    const lens: array<nat>
    var head: nat
    var tail: nat
    var count: nat

    ghost predicate Valid()
      reads this, rows, lens
    {
      WellFormed(rows[..], lens[..], tail, count) &&
      head == Slot(tail, count) &&
      forall i :: 0 <= i < MaxPacketsInQueue ==>
        |rows[i]| == ProtocolPacketDataBytes && lens[i] <= ProtocolPacketDataBytes &&
        rows[i][..HeaderSize] == Reserve
    }

    /** The queued packets, oldest first. */
    ghost function Packets(): seq<seq<byte>>
      reads this, rows, lens
      requires Valid()
    {
      PacketsOf(rows[..], lens[..], tail, count)
    }

    constructor ()
      ensures Valid() && fresh(rows) && fresh(lens)
      ensures Packets() == []
    {
      rows := new seq<byte>[MaxPacketsInQueue](_ => seq(ProtocolPacketDataBytes, _ => 0 as byte));
      lens := new nat[MaxPacketsInQueue](_ => 0);
      head, tail, count := 0, 0, 0;
    }

    /** `initQueue`: empty, head and tail back at row 0. */
    method InitQueue()
      requires Valid()
      modifies this
      ensures Valid() && Packets() == []
      ensures head == 0 && tail == 0
    {
      head, tail, count := 0, 0, 0;
    }

    /** The scan of `addFrameToQueue` from the tail towards the head: the oldest packet
        with room for `size` more bytes. The scan is empty when the queue is full. */
    method FindRoom(size: nat) returns (found: Option<nat>)
      requires Valid()
      ensures found == if count == MaxPacketsInQueue then None else FirstFit(Packets(), size, 0)
    {
      ghost var p0 := Packets();
      var i := tail;
      var k: nat := 0;
      while i != head
        invariant k <= count && i == Slot(tail, k)
        invariant count == MaxPacketsInQueue ==> k == 0
        invariant FirstFit(p0, size, 0) == FirstFit(p0, size, k)
        decreases count - k
      {
        if lens[i] + size <= ProtocolPacketDataBytes {
          assert FirstFit(p0, size, k) == Some(k);
          return Some(k);
        }
        i := (i + 1) % MaxPacketsInQueue;
        k := k + 1;
      }
      found := None;
    }

    /** `appendToBuffer` on the row of queued packet k. */
    method Grow(k: nat, frame: seq<byte>)
      requires Valid() && k < count && Fits(Packets()[k], |frame|)
      modifies rows, lens
      ensures Valid()
      ensures Packets() == old(Packets())[k := old(Packets())[k] + frame]
    {
      var s := (tail + k) % MaxPacketsInQueue;
      ghost var r0 := rows[..];
      ghost var l0 := lens[..];
      AppendAtSlot(r0, l0, tail, count, k, frame);
      rows[s] := rows[s][..lens[s]] + frame + rows[s][lens[s] + |frame|..];
      lens[s] := lens[s] + |frame|;
      assert rows[..] == r0[s := r0[s][..l0[s]] + frame + r0[s][l0[s] + |frame|..]];
      assert lens[..] == l0[s := l0[s] + |frame|];
    }

    /** Advancing the tail past the oldest packet. */
    method Drop()
      requires Valid() && count > 0
      modifies this
      ensures Valid() && Packets() == old(Packets())[1..]
      ensures head == old(head)
    {
      DropOldest(rows[..], lens[..], tail, count);
      tail := (tail + 1) % MaxPacketsInQueue;
      count := count - 1;
    }

    /** A new row at the head holding the reserve and the frame. */
    method Push(frame: seq<byte>)
      requires Valid() && count < MaxPacketsInQueue
      requires HeaderSize + |frame| <= ProtocolPacketDataBytes
      modifies this, rows, lens
      ensures Valid() && Packets() == old(Packets()) + [frame]
    {
      ghost var r0 := rows[..];
      ghost var l0 := lens[..];
      PushAtHead(r0, l0, tail, count, frame);
      lens[head] := HeaderSize;
      rows[head] := rows[head][..lens[head]] + frame + rows[head][lens[head] + |frame|..];
      lens[head] := lens[head] + |frame|;
      assert rows[..] == r0[head := r0[head][..HeaderSize] + frame + r0[head][HeaderSize + |frame|..]];
      assert lens[..] == l0[head := (HeaderSize + |frame|) as nat];
      head := (head + 1) % MaxPacketsInQueue;
      count := count + 1;
    }

    /** `addFrameToQueue`, logging `queueOverflow` when the oldest packet is dropped. */
    method AddFrameToQueue(frame: seq<byte>, log: ErrLog)
      requires Valid() && log.Valid()
      requires HeaderSize + |frame| <= ProtocolPacketDataBytes
      modifies this, rows, lens, log, log.buffer
      ensures Valid() && log.Valid()
      ensures Packets() == QueueAdd(old(Packets()), frame)
      ensures log.Logged() == old(log.Logged())
      ensures log.flags == if |old(Packets())| == MaxPacketsInQueue
        then FlagsAfter(old(log.flags), QueueOverflow) else old(log.flags)
    {
      var found := FindRoom(|frame|);
      if found.Some? {
        Grow(found.value, frame);
        return;
      }
      if count == MaxPacketsInQueue {
        Drop();
        log.LogErr(QueueOverflow);
      }
      Push(frame);
    }

    /** One step of `refreshBurstBuffer`, with the row length corrected: the oldest packet
        moves into burst row j, copied to offset 3 with its reserve, and the row's length is
        the queue row's length plus the header. */
    method TakeOldest(burstRows: array<seq<byte>>, burstLens: array<nat>, j: nat)
      requires Valid() && count > 0 && burstRows != rows && burstLens != lens
      requires j < burstRows.Length && j < burstLens.Length
      requires |burstRows[j]| == LoraConfig.MaxLoraPacketSize
      modifies this, burstRows, burstLens
      ensures Valid() && Packets() == old(Packets())[1..]
      ensures burstRows[..] == old(burstRows[..])[j := burstRows[j]]
      ensures burstLens[..] == old(burstLens[..])[j := burstLens[j]]
      ensures |burstRows[j]| == LoraConfig.MaxLoraPacketSize
      ensures burstLens[j] == PacketOffset + |old(Packets())[0]| <= LoraConfig.MaxLoraPacketSize
      ensures burstRows[j][HeaderSize..PacketOffset] == Reserve
      ensures burstRows[j][PacketOffset..burstLens[j]] == old(Packets())[0]
    {
      assert Slot(tail, 0) == tail;
      burstRows[j] := BurstRow(burstRows[j], rows[tail]);
      burstLens[j] := lens[tail] + HeaderSize;
      Drop();
    }

    /** `refreshBurstBuffer`, with the row length corrected: moves the oldest
        packets into the burst rows from `burstCount` on, while there is room for 8, and
        returns the new burst count. */
    method RefreshBurstBuffer(burstRows: array<seq<byte>>, burstLens: array<nat>, burstCount: nat)
      returns (newCount: nat)
      requires Valid() && burstRows != rows && burstLens != lens
      requires burstRows.Length == MaxPacketGroupSize && burstLens.Length == MaxPacketGroupSize
      requires burstCount <= MaxPacketGroupSize
      requires forall j :: 0 <= j < MaxPacketGroupSize ==>
        |burstRows[j]| == LoraConfig.MaxLoraPacketSize && burstLens[j] <= LoraConfig.MaxLoraPacketSize
      requires forall j :: 0 <= j < burstCount ==> HeaderSize <= burstLens[j]
      modifies this, burstRows, burstLens
      ensures Valid()
      ensures newCount == burstCount + Min(MaxPacketGroupSize - burstCount, |old(Packets())|)
      ensures Packets() == old(Packets())[newCount - burstCount..]
      ensures RowsRefilled(old(burstRows[..]), old(burstLens[..]), old(Packets()), burstCount, newCount,
                       burstRows[..], burstLens[..])
    {
      ghost var p0 := Packets();
      ghost var rows0 := burstRows[..];
      ghost var lens0 := burstLens[..];
      newCount := burstCount;
      while newCount < MaxPacketGroupSize && count > 0
        invariant Valid() && burstCount <= newCount <= MaxPacketGroupSize
        invariant newCount - burstCount <= |p0| && Packets() == p0[newCount - burstCount..]
        invariant RowsRefilled(rows0, lens0, p0, burstCount, newCount, burstRows[..], burstLens[..])
        decreases count
      {
        ghost var taken := newCount - burstCount;
        ghost var r, l := burstRows[..], burstLens[..];
        TakeOldest(burstRows, burstLens, newCount);
        RefilledStep(rows0, lens0, p0, burstCount, newCount, r, l, burstRows[..], burstLens[..]);
        assert p0[taken..][1..] == p0[taken + 1..];
        newCount := newCount + 1;
      }
    }
  }
}
