/** The dashboard's CAN decoder object (src/main/java/CanParser.java). Each 12-byte line from
    the serial bridge becomes a CAN identifier and a 64-bit payload; the function code picks a
    handler; the handlers post notices, keep the chips of the pong window, the heartbeat pages,
    the timing and the bus, count down the expected frames, and hand decoded points to the
    plots. Every handler is proved against its value-level counterpart in module CanReports. */
module CanParser {
  import opened Bits
  import opened IntConst
  import opened TelemetryLookup
  import opened CanDecode
  import opened CanReports

  /** The notification panel, as the notices posted to it, in order. A chip that is later
      updated in place is posted once; its current text is kept by its owner. */
  class Notifications {
    var posted: seq<Notice>

    constructor ()
      ensures posted == []
    {
      posted := [];
    }

    method Post(n: Notice)
      modifies this
      ensures posted == old(posted) + [n]
    {
      posted := posted + [n];
    }
  }

  /** The main panel's plots as the decoder sees them: `addDataPoint` takes a point exactly when
      a plot exists for its key. */
  class Plot {
    const accepts: set<DataKey>
    var points: seq<(DataKey, int)>

    constructor (accepts: set<DataKey>)
      ensures this.accepts == accepts && points == []
    {
      this.accepts := accepts;
      points := [];
    }

    method AddDataPoint(nodeId: int, frameIndex: int, dataIndex: int, value: int) returns (ok: bool)
      modifies this
      ensures ok <==> DataKey(nodeId, frameIndex, dataIndex) in accepts
      ensures points == old(points) + if ok then [(DataKey(nodeId, frameIndex, dataIndex), value)] else []
    {
      ok := DataKey(nodeId, frameIndex, dataIndex) in accepts;
      if ok {
        points := points + [(DataKey(nodeId, frameIndex, dataIndex), value)];
      }
    }
  }

  /** `contains`: a linear search of an int array. */
  method Contains(arr: seq<int>, v: int) returns (found: bool)
    ensures found <==> v in arr
  {
    var i := 0;
    while i < |arr|
      invariant 0 <= i <= |arr|
      invariant v !in arr[..i]
    {
      if arr[i] == v {
        return true;
      }
      assert arr[..i + 1] == arr[..i] + [arr[i]];
      i := i + 1;
    }
    assert arr[..i] == arr;
    return false;
  }

  /** One step of the payload walk: point i is read at the cursor, and the walk goes on from
      the next index with the cursor past its width. */
  lemma WalkStep(infos: map<DataKey, DataInfo>, nodeId: int, frameIndex: int, data: nat, numData: int,
                 i: nat, cursor: nat, ps: seq<Point>, stop: Option<Stop>)
    requires i <= |ps| && WalkFrom(infos, nodeId, frameIndex, data, numData, i, cursor) == Walked(ps[i..], stop)
    requires i < numData && DataKey(nodeId, frameIndex, i) in infos
    requires var len := infos[DataKey(nodeId, frameIndex, i)].bitLength;
      cursor <= 64 && 0 <= len <= 32 && ToInt32(cursor + len) <= 64
    ensures var info := infos[DataKey(nodeId, frameIndex, i)];
      cursor + info.bitLength <= 64 && i < |ps| && ps[i] == Point(DataKey(nodeId, frameIndex, i), info, PointValue(data, cursor, info)) &&
      WalkFrom(infos, nodeId, frameIndex, data, numData, i + 1, cursor + info.bitLength) == Walked(ps[i + 1..], stop)
  {
    var info := infos[DataKey(nodeId, frameIndex, i)];
    var rest := WalkFrom(infos, nodeId, frameIndex, data, numData, i + 1, cursor + info.bitLength);
    assert ps[i..] == [Point(DataKey(nodeId, frameIndex, i), info, PointValue(data, cursor, info))] + rest.points;
    assert ps[i..][1..] == ps[i + 1..];
  }

  /** Where the walk stops: every point has been read, and the stop's warning is the one the
      failed condition gives. */
  lemma WalkEnds(infos: map<DataKey, DataInfo>, nodeId: int, frameIndex: int, data: nat, numData: int,
                 i: nat, cursor: nat, ps: seq<Point>, stop: Option<Stop>)
    requires i <= |ps| && WalkFrom(infos, nodeId, frameIndex, data, numData, i, cursor) == Walked(ps[i..], stop)
    requires var key := DataKey(nodeId, frameIndex, i);
      !(i < numData && key in infos && ToInt32(cursor + infos[key].bitLength) <= 64 && 0 <= infos[key].bitLength <= 32)
    ensures ps[..i] == ps
    ensures var key := DataKey(nodeId, frameIndex, i);
      StopNotices(nodeId, frameIndex, stop) ==
        if i >= numData then []
        else if key !in infos then [TelemetryWarning(MissingDataInfo(key))]
        else if ToInt32(cursor + infos[key].bitLength) > 64 then [TelemetryWarning(Overflowed(key))]
        else [TelemetryWarning(InvalidBitLength(key, infos[key].bitLength))]
  {
  }

  /** `(int)((data >> cursor) & mask) + min` within the word is the walk's point value: there
      the arithmetic shift reads the same bits as the logical one. */
  lemma PointValueRead(data: int, cursor: nat, info: DataInfo)
    requires 0 <= info.bitLength <= 32 && cursor + info.bitLength <= 64
    ensures ToInt32(ToInt32(LongBits(data, cursor, info.bitLength)) + info.min) == PointValue(U64(data), cursor, info)
  {
    LongBitsInRange(data, cursor, info.bitLength);
  }

  /** The status and plot bookkeeping of one more point. */
  lemma ReplaySnoc(l: Lookup, accepts: set<DataKey>, status: map<DataKey, Severity>, ps: seq<Point>, i: nat)
    requires i < |ps|
    ensures var r := Replay(l, accepts, status, ps[..i]);
      Replay(l, accepts, status, ps[..i + 1]) ==
        (PointStep(l, accepts, r.0, ps[i]).0, r.1 + PointStep(l, accepts, r.0, ps[i]).1)
    ensures Accepted(accepts, ps[..i + 1]) ==
      Accepted(accepts, ps[..i]) + if ps[i].key in accepts then [(ps[i].key, ps[i].value)] else []
  {
    assert ps[..i + 1][..i] == ps[..i];
  }

  /** Bit `base + j` of the payload, read with the Java shift and mask, is slot j. */
  lemma SlotRead(data: int, base: nat, j: nat)
    requires base + j < 64
    ensures (LongBits(data, base + j, 1) != 0) == SlotSet(U64(data), base, j)
  {
    LongBitsInRange(data, base + j, 1);
    assert Pow2(1) == 2;
  }

  /** The missing names and warnings of a page after one more slot. */
  lemma PageMissingSnoc(l: Lookup, d: nat, base: nat, ids: seq<int>, j: nat)
    requires j < |ids|
    ensures var prev := PageMissing(l, d, base, ids[..j]);
      PageMissing(l, d, base, ids[..j + 1]) ==
        if SlotSet(d, base, j) then prev
        else if ids[j] in l.nodesById then (prev.0 + [l.nodesById[ids[j]].nodeName], prev.1)
        else (prev.0, prev.1 + [TelemetryWarning(HBStatusMissingNodeInfo(ids[j]))])
  {
    assert ids[..j + 1][..j] == ids[..j];
  }

  /** One step of the timing-frame read. */
  lemma TimingStep(d: nat, idBits: nat, msBits: nat, pairs: int, i: nat, cursor: nat, slots: seq<TimingSlot>)
    requires i < pairs && i <= |slots| && TimingFrom(d, idBits, msBits, pairs, i, cursor) == slots[i..]
    ensures i < |slots|
    ensures ToInt32(Field(d, cursor, idBits)) == 0 ==>
      slots[i] == NullSlot && TimingFrom(d, idBits, msBits, pairs, i + 1, cursor) == slots[i + 1..]
    ensures ToInt32(Field(d, cursor, idBits)) != 0 ==>
      slots[i] == PairSlot(ToInt32(Field(d, cursor, idBits)), ToInt32(Field(d, cursor + idBits, msBits))) &&
      TimingFrom(d, idBits, msBits, pairs, i + 1, cursor + idBits + msBits) == slots[i + 1..]
  {
    assert slots[i..][1..] == slots[i + 1..];
  }

  /** The timing report one slot further on. */
  lemma TimingReportSnoc(l: Lookup, slots: seq<TimingSlot>, i: nat, nullWarns: bool)
    requires i < |slots|
    ensures var prev := TimingReport(l, slots[..i], nullWarns);
      TimingReport(l, slots[..i + 1], nullWarns) ==
        match slots[i]
        case NullSlot => (prev.0, prev.1 + if nullWarns then [TelemetryWarning(HBTimingNullNode)] else [])
        case PairSlot(id, ms) =>
          (prev.0 + [Latency(RowLabel(l, id), ms)],
           prev.1 + if id in l.nodesById then [] else [TelemetryWarning(HBTimingMissingNodeInfo(id))])
  {
    assert slots[..i + 1][..i] == slots[..i];
  }

  /** A pair read before the pair count is reached ends within the word. */
  lemma TimingRoom(base: int, pb: int, read: nat, pairs: int)
    requires 0 < pb && read < pairs && pairs * pb <= Max(0, 64 - base)
    ensures base + read * pb + pb <= 64
  {
    MulMonotone(read + 1, pairs, pb);
  }

  /** The bus-status counters read with the Java shifts are the unpacked fields. */
  lemma BusFieldsRead(data: int)
    ensures UnpackBusStatus(U64(data)) ==
      BusStatus(LongBits(data, 0, 2), LongBits(data, 2, 8), LongBits(data, 10, 8), LongBits(data, 18, 12),
                LongBits(data, 30, 10), LongBits(data, 40, 10), LongBits(data, 50, 10), LongBits(data, 60, 4))
  {
    LongBitsInRange(data, 0, 2);
    LongBitsInRange(data, 2, 8);
    LongBitsInRange(data, 10, 8);
    LongBitsInRange(data, 18, 12);
    LongBitsInRange(data, 30, 10);
    LongBitsInRange(data, 40, 10);
    LongBitsInRange(data, 50, 10);
    LongBitsInRange(data, 60, 4);
  }

  /** The sweep's countdowns and reports after one more frame. */
  lemma SweepSnoc(l: Lookup, frames: map<FrameKey, CanFrame>, rem: map<FrameKey, int>, order: seq<FrameKey>, k: FrameKey)
    ensures SweepRemaining(frames, rem, order + [k]) ==
      if Monitored(frames, k) then SweepRemaining(frames, rem, order)[k := TickOf(frames, rem, k).remaining]
      else SweepRemaining(frames, rem, order)
    ensures SweepNotices(l, frames, rem, order + [k]) == SweepNotices(l, frames, rem, order) +
      if Monitored(frames, k) && TickOf(frames, rem, k).overdue.Some? then
        [TelemetryWarning(MissingFrame(NameLabel(l, k.nodeId), k.frameIndex, frames[k].dataTimeout,
                                       TickOf(frames, rem, k).overdue.value))]
      else []
  {
    assert (order + [k])[..|order|] == order;
  }

  class Parser {
    const lookup: Lookup
    const notes: Notifications
    const plot: Plot
    const tables: ConstTables
    const consts: Constants
    /** `HBStatusEntries`: the entry of each status page number, once posted. */
    const hbStatusEntries: array<Option<Notice>>
    /** `hbPongWindow` and `HBPongNotification`. */
    var pongWindow: set<int>
    var pongChip: Option<Notice>
    /** `frameRemainingMs`. */
    var frameRemaining: map<FrameKey, int>
    /** The status of each entry in `dataStatusHandlers`. */
    var dataStatus: map<DataKey, Severity>
    /** `HBTimingEntry` and `BusStatusEntry`. */
    var timingChip: Option<Notice>
    var busChip: Option<Notice>

    ghost predicate Valid()
      reads tables
    {
      ConfigOk(consts) && tables.Valid() &&
      WarningFlags in tables.declared && TelemetryCommandFlags in tables.declared &&
      StatusUpdates in tables.declared && TwaiState in tables.declared &&
      hbStatusEntries.Length == Pow2(consts.hbStatusFrameBits)
    }

    /** The decoder's state as a value. */
    ghost function Snapshot(): State
      reads this, plot, hbStatusEntries
    {
      State(pongWindow, pongChip, frameRemaining, dataStatus, timingChip, busChip, hbStatusEntries[..], plot.points)
    }

    /** The constructor, less the serial port and the monitor threads: no chip yet, and every
        monitored frame counting down from its timeout. */
    constructor (lookup: Lookup, notes: Notifications, plot: Plot, tables: ConstTables, consts: Constants)
      requires ConfigOk(consts) && tables.Valid()
      requires WarningFlags in tables.declared && TelemetryCommandFlags in tables.declared
      requires StatusUpdates in tables.declared && TwaiState in tables.declared
      ensures Valid() && fresh(hbStatusEntries)
      ensures this.lookup == lookup && this.notes == notes && this.plot == plot
      ensures this.tables == tables && this.consts == consts
      ensures pongWindow == {} && pongChip.None? && timingChip.None? && busChip.None? && dataStatus == map[]
      ensures forall i :: 0 <= i < hbStatusEntries.Length ==> hbStatusEntries[i].None?
      ensures forall k :: Monitored(lookup.framesById, k) ==> k in frameRemaining
      ensures forall k :: k in frameRemaining ==>
        Monitored(lookup.framesById, k) && frameRemaining[k] == lookup.framesById[k].dataTimeout
    {
      this.lookup := lookup;
      this.notes := notes;
      this.plot := plot;
      this.tables := tables;
      this.consts := consts;
      hbStatusEntries := new Option<Notice>[Pow2(consts.hbStatusFrameBits)](_ => None);
      pongWindow := {};
      pongChip := None;
      frameRemaining := map[];
      dataStatus := map[];
      timingChip := None;
      busChip := None;
      new;
      StartFrameMonitor();
    }

    /** The seeding in `startCANFrameMonitor`: each monitored frame gets a countdown at its
        timeout unless it has one (`putIfAbsent`); the registry's order does not matter. */
    method StartFrameMonitor()
      modifies this
      ensures forall k :: k in old(frameRemaining) ==> k in frameRemaining && frameRemaining[k] == old(frameRemaining)[k]
      ensures forall k :: Monitored(lookup.framesById, k) ==> k in frameRemaining
      ensures forall k :: k in frameRemaining && k !in old(frameRemaining) ==>
        Monitored(lookup.framesById, k) && frameRemaining[k] == lookup.framesById[k].dataTimeout
      ensures Snapshot() == old(Snapshot()).(frameRemaining := frameRemaining)
    {
      var todo := lookup.framesById.Keys;
      ghost var done: set<FrameKey> := {};
      while todo != {}
        invariant todo + done == lookup.framesById.Keys && todo !! done
        invariant forall k :: k in old(frameRemaining) ==> k in frameRemaining && frameRemaining[k] == old(frameRemaining)[k]
        invariant forall k :: k in done && Monitored(lookup.framesById, k) ==> k in frameRemaining
        invariant forall k :: k in frameRemaining && k !in old(frameRemaining) ==>
          Monitored(lookup.framesById, k) && frameRemaining[k] == lookup.framesById[k].dataTimeout
        invariant Snapshot() == old(Snapshot()).(frameRemaining := frameRemaining)
        decreases |todo|
      {
        var k :| k in todo;
        var frame := lookup.framesById[k];
        if frame.dataTimeout > 0 && k !in frameRemaining {
          frameRemaining := frameRemaining[k := frame.dataTimeout];
        }
        todo := todo - {k};
        done := done + {k};
      }
    }

    /** `buildPayloadFromCommand`: an `updateValue` command becomes an 8-byte payload; a
        command that is not one is warned about. */
    method BuildPayloadFromCommand(input: string) returns (r: Option<seq<byte>>)
      modifies notes
      ensures r.Some? <==> CommandPayload(input).Payload?
      ensures r.Some? ==> r.value == CommandPayload(input).bytes
      ensures notes.posted == old(notes.posted) +
        if CommandPayload(input).NotACommand? then [TelemetryWarning(CommandNotUnderstood)] else []
    {
      match CommandPayload(input)
      case Payload(bytes) =>
        r := Some(bytes);
      case Unparsed =>
        r := None;
      case NotACommand =>
        notes.Post(TelemetryWarning(CommandNotUnderstood));
        r := None;
    }

    /** `onMessageRecv`: a line of 12 bytes is a little-endian int identifier and long payload;
        any other length is warned about. */
    method OnMessageRecv(line: seq<byte>) returns (ghost flagsText: string, ghost flagKeys: seq<int>)
      requires Valid()
      modifies this, notes, plot, tables, hbStatusEntries
      ensures Valid()
      ensures |line| != 12 ==>
        Snapshot() == old(Snapshot()) && notes.posted == old(notes.posted) + [TelemetryWarning(InvalidLine)]
      ensures |line| == 12 ==>
        var r := Handle(lookup, plot.accepts, tables.declared, consts, old(Snapshot()),
                        ToInt32(LE(line[..4])), ToInt64(LE(line[4..])), flagsText);
        Snapshot() == r.state && notes.posted == old(notes.posted) + r.notices
      ensures |line| == 12 && Route(SplitId(ToInt32(LE(line[..4]))).functionCode, consts) == WarningH ==>
        FlagsFor(tables.declared, DecodeWarning(ToInt64(LE(line[4..])), consts).flags, flagKeys, flagsText)
    {
      if |line| != 12 {
        notes.Post(TelemetryWarning(InvalidLine));
        flagsText, flagKeys := "", [];
        return;
      }
      var id := ToInt32(LE(line[..4]));
      var data := ToInt64(LE(line[4..]));
      flagsText, flagKeys := ParseCanMessage(id, data);
    }

    /** `parseCanMessage`: the identifier's node id (bits 0..6), function code (bits 7..10) and
        extended id (bits 11..28), then the handler of the first matching case label. */
    method ParseCanMessage(id: int, data: int) returns (ghost flagsText: string, ghost flagKeys: seq<int>)
      requires Valid()
      modifies this, notes, plot, tables, hbStatusEntries
      ensures Valid()
      ensures var r := Handle(lookup, plot.accepts, tables.declared, consts, old(Snapshot()), id, data, flagsText);
        Snapshot() == r.state && notes.posted == old(notes.posted) + r.notices
      ensures Route(SplitId(id).functionCode, consts) == WarningH ==>
        FlagsFor(tables.declared, DecodeWarning(data, consts).flags, flagKeys, flagsText)
    {
      var cid := SplitId(id);
      var code := cid.functionCode;
      flagsText, flagKeys := "", [];
      match Route(code, consts)
      case NmtH =>
        notes.Post(Notice(Ok, Telemetry, NmtReceived));
      case SyncH =>
        notes.Post(Notice(Ok, Telemetry, SyncReceived));
      case WarningH =>
        flagsText, flagKeys := ParseWarningCode(data);
      case TelemetryCommandH =>
        ParseEnumFlag(TelemetryCommandFlags, cid.nodeId, data, [consts.disablePrecharge], Telemetry);
      case HBPingH =>
        notes.Post(Notice(Ok, Vitals, HBPingReceived));
      case HBPongH =>
        ParseHBPong(cid.nodeId);
      case TransmitDataH =>
        ParseTransmitData(cid.nodeId, cid.extendedId, data);
      case HBRespUpdateH =>
        ParseHBRespUpdate(data);
      case BusStatusH =>
        ParseBusStatusUpdate(data);
      case ErrControlH =>
        notes.Post(Notice(Ok, Telemetry, ErrorControlReceived));
      case StatusUpdateH =>
        ParseEnumFlag(StatusUpdates, cid.nodeId, data, [consts.prechargeOff], Telemetry);
      case UnknownH =>
        // `handleUnknownFunction`: the payload is shown as an unsigned hexadecimal long.
        notes.Post(TelemetryWarning(UnknownFunction(code, U64(data))));
    }

    /** `parseWarningCode`: a notice for odd type bits, then the report on the vitals channel
        with the names of the flags set. */
    method ParseWarningCode(data: int) returns (ghost text: string, ghost keys: seq<int>)
      requires Valid()
      modifies notes, tables
      ensures Valid()
      ensures var w := DecodeWarning(data, consts);
        notes.posted == old(notes.posted) + (TypeNotices(w) + [WarningNotice(lookup, w, text)])
      ensures FlagsFor(tables.declared, DecodeWarning(data, consts).flags, keys, text)
    {
      ghost var posted0 := notes.posted;
      var w := DecodeWarning(data, consts);
      if !w.critical && !w.warning {
        notes.Post(TelemetryWarning(NoTypeBit));
      } else if w.critical && w.warning {
        notes.Post(Notice(Critical, Telemetry, BothTypeBits));
      }
      assert notes.posted == posted0 + TypeNotices(w);
      var flagsStr;
      flagsStr, keys := tables.FlagsFromInt(WarningFlags, w.flags);
      var info := lookup.GetDataInfo(DataKey(w.node, w.frame, w.dataPoint));
      var dataName := if info.Some? then Some(info.value.dataName) else None;
      var status := if w.critical then Critical else Warning;
      notes.Post(Notice(status, Vitals, WarningReport(NameLabel(lookup, w.node), w.node, w.critical, w.warning,
                                                       flagsStr, w.frame, dataName)));
      text := flagsStr;
      AppendAssoc(posted0, TypeNotices(w), [WarningNotice(lookup, w, text)]);
    }

    /** `parseEnumFlag`: the code's name from the class's table, critical when listed. No
        caller lists warning values, so that branch is left out. */
    method ParseEnumFlag(cls: string, nodeId: int, data: int, critical: seq<int>, ch: Channel)
      requires Valid() && cls in tables.declared
      modifies notes, tables
      ensures Valid() && Snapshot() == old(Snapshot())
      ensures notes.posted == old(notes.posted) +
        [EnumNotice(data, TableOf(tables.declared[cls]), cls, critical, NameLabel(lookup, nodeId), ch)]
    {
      var node := NameLabel(lookup, nodeId);
      if !IsInt32(data) {
        notes.Post(Notice(Warning, ch, EnumOutOfRange(cls, data, node)));
        return;
      }
      var nameOpt := tables.NameFromInt(cls, data);
      if nameOpt.None? {
        notes.Post(Notice(Warning, ch, EnumUnrecognized(cls, data, node)));
        return;
      }
      var isCritical := Contains(critical, data);
      notes.Post(Notice(if isCritical then Critical else Ok, ch, EnumFlag(cls, nameOpt.value, data, node)));
    }

    /** `parseHBPong`. */
    method ParseHBPong(nodeId: int)
      modifies this, notes
      ensures var r := HandlePong(lookup, old(Snapshot()), nodeId);
        Snapshot() == r.state && notes.posted == old(notes.posted) + r.notices
    {
      var info := lookup.GetNodeById(nodeId);
      if info.None? {
        notes.Post(TelemetryWarning(PongFromUnknown(nodeId)));
        return;
      }
      pongWindow := pongWindow + {nodeId};
    }

    /** One pass of the pong monitor: count the roster ids in the window, name the missing,
        set the chip, and start a fresh window. */
    method EvaluatePongWindow()
      modifies this, notes
      ensures var r := PongEvaluation(lookup, consts.nodeIds, old(Snapshot()));
        Snapshot() == r.state && notes.posted == old(notes.posted) + r.notices
    {
      var ids := consts.nodeIds;
      var collected := 0;
      var missing: seq<NodeLabel> := [];
      var i := 0;
      while i < |ids|
        invariant 0 <= i <= |ids|
        invariant collected == CountIn(ids[..i], pongWindow)
        invariant missing == MissingLabels(lookup, ids[..i], pongWindow)
      {
        assert ids[..i + 1][..i] == ids[..i];
        if ids[i] in pongWindow {
          collected := collected + 1;
        } else {
          missing := missing + [NameLabel(lookup, ids[i])];
        }
        i := i + 1;
      }
      assert ids[..i] == ids;
      var n := Notice(if collected == |ids| then Ok else Warning, Telemetry, PongStatus(collected, |ids|, missing));
      if pongChip.None? {
        notes.Post(n);
      }
      pongChip := Some(n);
      pongWindow := {};
    }

    /** `parseTransmitData`: restart the frame's countdown, then walk the payload point by
        point, checking each value and offering it to the plots, until the frame's count is
        reached or a point cannot be read. */
    method ParseTransmitData(nodeId: int, frameIndex: int, data: int)
      modifies this, notes, plot
      ensures var r := HandleTransmit(lookup, plot.accepts, old(Snapshot()), nodeId, frameIndex, data);
        Snapshot() == r.state && notes.posted == old(notes.posted) + r.notices
    {
      var node := nodeId % 0x80;
      var frameOpt := lookup.GetFrame(node, frameIndex);
      if frameOpt.None? {
        notes.Post(TelemetryWarning(UnknownFrame(node, frameIndex)));
        return;
      }
      var frame := frameOpt.value;
      if frame.dataTimeout > 0 {
        OnFrameReceivedResetTimer(node, frameIndex, frame.dataTimeout);
      }
      ghost var w := WalkFrom(lookup.dataById, node, frameIndex, U64(data), frame.numData, 0, 0);
      AppendAssoc(notes.posted, Replay(lookup, plot.accepts, dataStatus, w.points).1, StopNotices(node, frameIndex, w.stop));
      DecodePoints(node, frameIndex, frame.numData, data);
    }

    /** The point loop of `parseTransmitData`: read each point at the cursor, check it and offer
        it to the plots, until the frame's count is reached or a point cannot be read. */
    method DecodePoints(node: int, frameIndex: int, numData: int, data: int)
      modifies this, notes, plot
      ensures var w := WalkFrom(lookup.dataById, node, frameIndex, U64(data), numData, 0, 0);
        var rp := Replay(lookup, plot.accepts, old(dataStatus), w.points);
        Snapshot() == old(Snapshot()).(dataStatus := rp.0, plotted := old(plot.points) + Accepted(plot.accepts, w.points)) &&
        notes.posted == old(notes.posted) + rp.1 + StopNotices(node, frameIndex, w.stop)
    {
      ghost var w := WalkFrom(lookup.dataById, node, frameIndex, U64(data), numData, 0, 0);
      ghost var s1 := Snapshot();
      ghost var posted1 := notes.posted;
      var bitIndex: nat := 0;
      var i := 0;
      assert w.points[0..] == w.points && w.points[..0] == [];
      while i < numData
        invariant 0 <= i <= |w.points| && bitIndex <= 64
        invariant WalkFrom(lookup.dataById, node, frameIndex, U64(data), numData, i, bitIndex) == Walked(w.points[i..], w.stop)
        invariant DecodedTo(s1, posted1, w.points, i)
        decreases numData - i
      {
        var more;
        bitIndex, more := DecodeNext(node, frameIndex, numData, data, i, bitIndex, w.points, w.stop, s1, posted1);
        if !more {
          return;
        }
        i := i + 1;
      }
      WalkEnds(lookup.dataById, node, frameIndex, U64(data), numData, i, bitIndex, w.points, w.stop);
    }

    /** After the first i points of the walk `ps`: their severities and plot points applied
        to the state `s1`, their notices posted after `posted1`. */
    ghost predicate DecodedTo(s1: State, posted1: seq<Notice>, ps: seq<Point>, i: nat)
      requires i <= |ps|
      reads this, notes, plot, hbStatusEntries, lookup
    {
      var rs := Replay(lookup, plot.accepts, s1.dataStatus, ps[..i]);
      Snapshot() == s1.(dataStatus := rs.0, plotted := s1.plotted + Accepted(plot.accepts, ps[..i])) &&
      notes.posted == posted1 + rs.1
    }

    /** One pass of the point loop, stated as the loop's own step: DecodedTo moves from i to
        i + 1, or the walk ends at i and the method's result is reached. */
    method DecodeNext(node: int, frameIndex: int, numData: int, data: int, i: nat, bitIndex: nat,
                      ghost ps: seq<Point>, ghost stop: Option<Stop>, ghost s1: State, ghost posted1: seq<Notice>)
      returns (next: nat, more: bool)
      requires i < numData && i <= |ps| && bitIndex <= 64
      requires WalkFrom(lookup.dataById, node, frameIndex, U64(data), numData, i, bitIndex) == Walked(ps[i..], stop)
      requires DecodedTo(s1, posted1, ps, i)
      modifies this, notes, plot
      ensures more ==> (
        i < |ps| && next <= 64 &&
        WalkFrom(lookup.dataById, node, frameIndex, U64(data), numData, i + 1, next) == Walked(ps[i + 1..], stop) &&
        DecodedTo(s1, posted1, ps, i + 1))
      ensures !more ==> (
        var rp := Replay(lookup, plot.accepts, s1.dataStatus, ps);
        Snapshot() == s1.(dataStatus := rp.0, plotted := s1.plotted + Accepted(plot.accepts, ps)) &&
        notes.posted == posted1 + rp.1 + StopNotices(node, frameIndex, stop))
    {
      ghost var rs := Replay(lookup, plot.accepts, s1.dataStatus, ps[..i]);
      ghost var acc := Accepted(plot.accepts, ps[..i]);
      assert dataStatus == rs.0 && plot.points == s1.plotted + acc && notes.posted == posted1 + rs.1;
      next, more := DecodeStep(node, frameIndex, numData, data, i, bitIndex, ps, stop);
      if more {
        ReplaySnoc(lookup, plot.accepts, s1.dataStatus, ps, i);
        AppendAssoc(posted1, rs.1, PointStep(lookup, plot.accepts, rs.0, ps[i]).1);
        AppendAssoc(s1.plotted, acc, if ps[i].key in plot.accepts then [(ps[i].key, ps[i].value)] else []);
      }
    }

    /** One pass of the point loop over a walk `ps` that stops at `stop`: either point i is
        read, checked and offered to the plots, and the loop goes on with the cursor at `next`;
        or the walk stops at i and the stop's warning is posted. */
    method DecodeStep(node: int, frameIndex: int, numData: int, data: int, i: nat, bitIndex: nat,
                      ghost ps: seq<Point>, ghost stop: Option<Stop>) returns (next: nat, more: bool)
      requires i < numData && i <= |ps| && bitIndex <= 64
      requires WalkFrom(lookup.dataById, node, frameIndex, U64(data), numData, i, bitIndex) == Walked(ps[i..], stop)
      modifies this, notes, plot
      ensures Snapshot() == old(Snapshot()).(dataStatus := dataStatus, plotted := plot.points)
      ensures more ==> (
        i < |ps| && next <= 64 &&
        WalkFrom(lookup.dataById, node, frameIndex, U64(data), numData, i + 1, next) == Walked(ps[i + 1..], stop) &&
        var st := PointStep(lookup, plot.accepts, old(dataStatus), ps[i]);
        dataStatus == st.0 && notes.posted == old(notes.posted) + st.1 &&
        plot.points == old(plot.points) + if ps[i].key in plot.accepts then [(ps[i].key, ps[i].value)] else [])
      ensures !more ==> (
        ps[..i] == ps && dataStatus == old(dataStatus) && plot.points == old(plot.points) &&
        notes.posted == old(notes.posted) + StopNotices(node, frameIndex, stop))
    {
      ghost var infos := lookup.dataById;
      ghost var d := U64(data);
      next, more := bitIndex, false;
      var key := DataKey(node, frameIndex, i);
      var infoOpt := lookup.GetDataInfo(key);
      if infoOpt.None? {
        WalkEnds(infos, node, frameIndex, d, numData, i, bitIndex, ps, stop);
        notes.Post(TelemetryWarning(MissingDataInfo(key)));
        return;
      }
      var info := infoOpt.value;
      var end := ToInt32(bitIndex + info.bitLength);
      if end > 64 {
        WalkEnds(infos, node, frameIndex, d, numData, i, bitIndex, ps, stop);
        notes.Post(TelemetryWarning(Overflowed(key)));
        return;
      }
      if info.bitLength < 0 || info.bitLength > 32 {
        WalkEnds(infos, node, frameIndex, d, numData, i, bitIndex, ps, stop);
        notes.Post(TelemetryWarning(InvalidBitLength(key, info.bitLength)));
        return;
      }
      WalkStep(infos, node, frameIndex, d, numData, i, bitIndex, ps, stop);
      var value := ToInt32(ToInt32(LongBits(data, bitIndex, info.bitLength)) + info.min);
      PointValueRead(data, bitIndex, info);
      assert ps[i] == Point(key, info, value);
      AcceptPoint(key, info, value);
      next, more := bitIndex + info.bitLength, true;
    }

    /** The rest of one step of `parseTransmitData`: check the value, then offer it to the
        plots and warn when none takes it. */
    method AcceptPoint(key: DataKey, info: DataInfo, value: int)
      modifies this, notes, plot
      ensures var st := PointStep(lookup, plot.accepts, old(dataStatus), Point(key, info, value));
        Snapshot() == old(Snapshot()).(dataStatus := st.0,
                                       plotted := old(plot.points) + if key in plot.accepts then [(key, value)] else []) &&
        notes.posted == old(notes.posted) + st.1
    {
      CheckDataValue(key, info, value);
      var ok := plot.AddDataPoint(key.nodeId, key.frameIndex, key.dataIndex, value);
      if !ok {
        notes.Post(TelemetryWarning(PlotRejected(key, value)));
      }
    }

    /** `checkDataValue`. */
    method CheckDataValue(key: DataKey, info: DataInfo, value: int)
      modifies this, notes
      ensures var st := CheckStep(lookup, old(dataStatus), Point(key, info, value));
        Snapshot() == old(Snapshot()).(dataStatus := st.0) && notes.posted == old(notes.posted) + st.1
    {
      var inWarning := value < info.minWarning || value > info.maxWarning;
      var inCritical := value < info.minCritical || value > info.maxCritical;
      var newStatus := if inCritical then Critical else if inWarning then Warning else Ok;
      var oldStatus := if key in dataStatus then dataStatus[key] else Ok;
      if oldStatus == newStatus {
        return;
      }
      if key !in dataStatus {
        notes.Post(Notice(newStatus, Telemetry, DataStatus(lookup.TitleFor(key))));
      }
      dataStatus := dataStatus[key := newStatus];
    }

    /** `onFrameReceivedResetTimer`. */
    method OnFrameReceivedResetTimer(nodeId: int, frameIndex: int, timeoutMs: int)
      modifies this
      ensures Snapshot() == old(Snapshot()).(frameRemaining :=
        if timeoutMs > 0 then old(frameRemaining)[FrameKey(nodeId, frameIndex) := timeoutMs] else old(frameRemaining))
    {
      if timeoutMs > 0 {
        frameRemaining := frameRemaining[FrameKey(nodeId, frameIndex) := timeoutMs];
      }
    }

    /** One pass of the frame monitor over every registered frame, in the registry's order
        `order`: each monitored frame's countdown takes one tick from where it stood before
        the pass, and the overdue ones are reported. */
    method FrameMonitorTick() returns (ghost order: seq<FrameKey>)
      modifies this, notes
      ensures forall k :: k in order <==> k in lookup.framesById
      ensures forall a, b :: 0 <= a < b < |order| ==> order[a] != order[b]
      ensures frameRemaining == SweepRemaining(lookup.framesById, old(frameRemaining), order)
      ensures notes.posted == old(notes.posted) + SweepNotices(lookup, lookup.framesById, old(frameRemaining), order)
      ensures Snapshot() == old(Snapshot()).(frameRemaining := frameRemaining)
    {
      var frames := lookup.framesById;
      var todo := frames.Keys;
      order := [];
      ghost var rem0 := frameRemaining;
      ghost var posted0 := notes.posted;
      ghost var snap0 := Snapshot();
      while todo != {}
        invariant todo <= frames.Keys && lookup.framesById == frames
        invariant forall k :: k in order <==> k in frames && k !in todo
        invariant forall a, b :: 0 <= a < b < |order| ==> order[a] != order[b]
        invariant frameRemaining == SweepRemaining(frames, rem0, order)
        invariant notes.posted == posted0 + SweepNotices(lookup, frames, rem0, order)
        invariant Snapshot() == snap0.(frameRemaining := frameRemaining)
        decreases |todo|
      {
        var k :| k in todo;
        TickFrame(k, rem0, order, posted0);
        order := order + [k];
        todo := todo - {k};
      }
    }

    /** The monitor's work on one registered frame, as one more step of a sweep that started
        from the countdowns `rem0` and has visited `order`: a monitored frame's countdown takes
        a tick, and when it runs out the frame is reported and the countdown backs off. */
    method TickFrame(k: FrameKey, ghost rem0: map<FrameKey, int>, ghost order: seq<FrameKey>, ghost posted0: seq<Notice>)
      requires k in lookup.framesById && k !in order
      requires frameRemaining == SweepRemaining(lookup.framesById, rem0, order)
      requires notes.posted == posted0 + SweepNotices(lookup, lookup.framesById, rem0, order)
      modifies this, notes
      ensures frameRemaining == SweepRemaining(lookup.framesById, rem0, order + [k])
      ensures notes.posted == posted0 + SweepNotices(lookup, lookup.framesById, rem0, order + [k])
      ensures Snapshot() == old(Snapshot()).(frameRemaining := frameRemaining)
    {
      SweepRemainingAt(lookup.framesById, rem0, order, k);
      SweepSnoc(lookup, lookup.framesById, rem0, order, k);
      var expected := lookup.framesById[k].dataTimeout;
      if expected > 0 {
        var remaining := if k in frameRemaining then frameRemaining[k] else expected;
        var updated := remaining - FrameMonitorTickMs;
        if updated < -FrameMonitorTickMs {
          notes.Post(TelemetryWarning(MissingFrame(NameLabel(lookup, k.nodeId), k.frameIndex, expected, -updated)));
          frameRemaining := frameRemaining[k := Max(expected, MissingBackoffMinMs)];
        } else {
          frameRemaining := frameRemaining[k := updated];
        }
      }
    }

    /** `parseHBRespUpdate`: the low type bits pick the timing or the status parser. */
    method ParseHBRespUpdate(data: int)
      requires Valid()
      modifies this, notes, hbStatusEntries
      ensures var r := HandleHB(lookup, consts, old(Snapshot()), data);
        Snapshot() == r.state && notes.posted == old(notes.posted) + r.notices
    {
      var typeBits := consts.hbUpdateTypeBits;
      var typeVal := LongBits(data, 0, typeBits);
      if typeVal == LongBits(consts.hbUpdateTiming, 0, typeBits) {
        ParseHBTimingFrame(data);
      } else if typeVal == LongBits(consts.hbUpdateStatus, 0, typeBits) {
        ParseHBStatusFrame(data);
      } else {
        notes.Post(TelemetryWarning(HBUnknownType(typeVal)));
      }
    }

    /** `parseHBStatusFrame`: check the page number, count the set slots of the page's slice of
        the roster, name the missing nodes, and set the page's entry. The source's check for an
        empty slice is left out: it cannot fire (`PageSlice`). */
    method ParseHBStatusFrame(data: int)
      requires Valid()
      modifies notes, hbStatusEntries
      ensures var r := HandleStatus(lookup, consts, old(Snapshot()), data);
        Snapshot() == r.state && notes.posted == old(notes.posted) + r.notices
    {
      ghost var s0 := Snapshot();
      ghost var page := StatusPage(lookup, data, consts);
      var header := consts.hbUpdateTypeBits + consts.hbStatusFrameBits;
      var slotsPerFrame := 64 - header;
      assert header == StatusHeader(consts) && slotsPerFrame == SlotsPerPage(consts);
      var frameNo := ToInt32(LongBits(data, consts.hbUpdateTypeBits, consts.hbStatusFrameBits % 32));
      var framesNeeded := CeilDiv(consts.numberOfNodes, slotsPerFrame);
      assert frameNo == StatusFrameNo(data, consts) && framesNeeded == PagesNeeded(consts);
      if frameNo >= framesNeeded {
        assert page == PageRejected(TelemetryWarning(HBFrameOutOfRange(frameNo, framesNeeded)));
        notes.Post(TelemetryWarning(HBFrameOutOfRange(frameNo, framesNeeded)));
        return;
      }
      StatusFrameNoBound(data, consts);
      PageSlice(consts, frameNo);
      var start := frameNo * slotsPerFrame;
      assert start == PageStart(consts, frameNo);
      var end := Min(consts.numberOfNodes, start + slotsPerFrame);
      var expected := end - start;
      assert expected == PageCount(consts, frameNo);
      ghost var d := U64(data);
      ghost var ids := consts.nodeIds[start..end];
      var collected, missing := ScanPage(data, header, consts.nodeIds[start..end]);
      var n := Notice(if collected == expected then Ok else Warning, Vitals,
                      HBStatusPage(frameNo, collected, expected, missing));
      assert page == PageReport(lookup, d, header, frameNo, ids);
      AppendAssoc(old(notes.posted), page.warnings, ChipPosts(s0.entries[frameNo], n));
      StorePage(frameNo, n);
    }

    /** The end of `parseHBStatusFrame`: post the page's notice the first time the page is seen,
        then keep it as the page's entry. */
    method StorePage(frameNo: nat, n: Notice)
      requires Valid() && frameNo < hbStatusEntries.Length
      modifies notes, hbStatusEntries
      ensures Snapshot() == old(Snapshot()).(entries := old(hbStatusEntries[..])[frameNo := Some(n)])
      ensures notes.posted == old(notes.posted) + ChipPosts(old(hbStatusEntries[frameNo]), n)
    {
      if hbStatusEntries[frameNo].None? {
        notes.Post(n);
      }
      hbStatusEntries[frameNo] := Some(n);
      assert hbStatusEntries[..] == old(hbStatusEntries[..])[frameNo := Some(n)];
    }

    /** The slot loop of `parseHBStatusFrame` over the page's slice `ids` of the roster: count
        the set slots, name the missing nodes, warn about ids without a name. */
    method ScanPage(data: int, header: nat, ids: seq<int>) returns (collected: nat, missing: seq<string>)
      requires header + |ids| <= 64
      modifies notes
      ensures collected == CountSet(U64(data), header, |ids|)
      ensures missing == PageMissing(lookup, U64(data), header, ids).0
      ensures notes.posted == old(notes.posted) + PageMissing(lookup, U64(data), header, ids).1
    {
      ghost var d := U64(data);
      collected := 0;
      missing := [];
      var j := 0;
      while j < |ids|
        invariant 0 <= j <= |ids|
        invariant collected == CountSet(d, header, j)
        invariant missing == PageMissing(lookup, d, header, ids[..j]).0
        invariant notes.posted == old(notes.posted) + PageMissing(lookup, d, header, ids[..j]).1
      {
        var gotHB := LongBits(data, header + j, 1) != 0;
        SlotRead(data, header, j);
        PageMissingSnoc(lookup, d, header, ids, j);
        if gotHB {
          collected := collected + 1;
        } else {
          var nodeInfo := lookup.GetNodeById(ids[j]);
          if nodeInfo.Some? {
            missing := missing + [nodeInfo.value.nodeName];
          } else {
            notes.Post(TelemetryWarning(HBStatusMissingNodeInfo(ids[j])));
          }
        }
        j := j + 1;
      }
      assert ids[..j] == ids;
    }

    /** `parseHBTimingFrame`: the average, then up to `pairs` (id, time) slots; a zero id is a
        null slot that does not advance the cursor. */
    method ParseHBTimingFrame(data: int)
      requires Valid()
      modifies this, notes
      ensures var r := HandleTiming(lookup, consts, old(Snapshot()), data);
        Snapshot() == r.state && notes.posted == old(notes.posted) + r.notices
    {
      ghost var posted0 := notes.posted;
      var averageMs := ToInt32(LongBits(data, consts.hbUpdateTypeBits, consts.hbTimerMsBits));
      var latencies := ReadTimingPairs(data);
      var n := Notice(Ok, Vitals, HBTiming(averageMs, latencies));
      ghost var t := TimingNotice(lookup, data, consts);
      assert t.0 == n;
      AppendAssoc(posted0, t.1, ChipPosts(timingChip, n));
      if timingChip.None? {
        notes.Post(n);
      }
      timingChip := Some(n);
    }

    /** The pair loop of `parseHBTimingFrame`: as many pairs as fit after the average, at most
        `slowestNodeCount`, each read at the cursor; the latencies listed and the warnings
        posted are those of the frame's timing report. */
    method ReadTimingPairs(data: int) returns (latencies: seq<Latency>)
      requires Valid()
      modifies notes
      ensures var rep := TimingReport(lookup, TimingSlots(data, consts), consts.numberOfNodes >= TimingPairs(consts));
        latencies == rep.0 && notes.posted == old(notes.posted) + rep.1
    {
      var idBits := consts.nodeIdSizeBits;
      var pairBits := idBits + consts.hbTimerMsBits;
      var bitIdx: nat := consts.hbUpdateTypeBits + consts.hbTimerMsBits;
      var availBits := 64 - bitIdx;
      var maxPairsByBits := if pairBits > 0 then JavaDiv(availBits, pairBits) else 0;
      var pairs := Min(consts.slowestNodeCount, Max(0, maxPairsByBits));
      assert pairs == TimingPairs(consts);
      ghost var d := U64(data);
      ghost var slots := TimingSlots(data, consts);
      ghost var nullWarns := consts.numberOfNodes >= pairs;
      ghost var posted0 := notes.posted;
      ghost var read := 0;
      latencies := [];
      var i := 0;
      while i < pairs
        invariant 0 <= read <= i <= pairs && |slots| == pairs
        invariant bitIdx == TimingBase(consts) + read * pairBits
        invariant TimingFrom(d, idBits, consts.hbTimerMsBits, pairs, i, bitIdx) == slots[i..]
        invariant latencies == TimingReport(lookup, slots[..i], nullWarns).0
        invariant notes.posted == posted0 + TimingReport(lookup, slots[..i], nullWarns).1
      {
        bitIdx, read, latencies := TimingNext(data, i, bitIdx, read, latencies, slots, posted0);
        i := i + 1;
      }
      assert slots[..i] == slots;
    }

    /** One pass of the pair loop of `parseHBTimingFrame`: a zero id is a null slot (warned
        about when the roster could fill every pair) and leaves the cursor where it is; any
        other id is a pair, listed under the node's name, or under its id with a warning. */
    method TimingNext(data: int, i: nat, bitIdx: nat, ghost read: nat, latencies: seq<Latency>,
                      ghost slots: seq<TimingSlot>, ghost posted0: seq<Notice>)
      returns (bitIdx': nat, ghost read': nat, latencies': seq<Latency>)
      requires 0 <= consts.nodeIdSizeBits < 64 && 0 <= consts.hbTimerMsBits < 64 && 0 <= consts.slowestNodeCount
      requires var pairs := TimingPairs(consts);
        read <= i < pairs && |slots| == pairs &&
        bitIdx == TimingBase(consts) + read * PairBits(consts) &&
        TimingFrom(U64(data), consts.nodeIdSizeBits, consts.hbTimerMsBits, pairs, i, bitIdx) == slots[i..]
      requires var rep := TimingReport(lookup, slots[..i], consts.numberOfNodes >= TimingPairs(consts));
        latencies == rep.0 && notes.posted == posted0 + rep.1
      modifies notes
      ensures var pairs := TimingPairs(consts);
        read' <= i + 1 &&
        bitIdx' == TimingBase(consts) + read' * PairBits(consts) &&
        TimingFrom(U64(data), consts.nodeIdSizeBits, consts.hbTimerMsBits, pairs, i + 1, bitIdx') == slots[i + 1..]
      ensures var rep := TimingReport(lookup, slots[..i + 1], consts.numberOfNodes >= TimingPairs(consts));
        latencies' == rep.0 && notes.posted == posted0 + rep.1
    {
      var nodeID, nodeMs;
      nodeID, nodeMs, bitIdx', read' := ReadSlot(data, i, bitIdx, read, slots);
      latencies' := ReportSlot(nodeID, nodeMs, latencies, i, slots, posted0);
    }

    /** The reading half of a pass: the id at the cursor, and when it is not zero the time
        after it, which moves the cursor past the pair. */
    method ReadSlot(data: int, i: nat, bitIdx: nat, ghost read: nat, ghost slots: seq<TimingSlot>)
      returns (nodeID: int, nodeMs: int, bitIdx': nat, ghost read': nat)
      requires 0 <= consts.nodeIdSizeBits < 64 && 0 <= consts.hbTimerMsBits < 64 && 0 <= consts.slowestNodeCount
      requires var pairs := TimingPairs(consts);
        read <= i < pairs && |slots| == pairs &&
        bitIdx == TimingBase(consts) + read * PairBits(consts) &&
        TimingFrom(U64(data), consts.nodeIdSizeBits, consts.hbTimerMsBits, pairs, i, bitIdx) == slots[i..]
      ensures var pairs := TimingPairs(consts);
        read' <= i + 1 &&
        bitIdx' == TimingBase(consts) + read' * PairBits(consts) &&
        TimingFrom(U64(data), consts.nodeIdSizeBits, consts.hbTimerMsBits, pairs, i + 1, bitIdx') == slots[i + 1..]
      ensures i < |slots| && slots[i] == if nodeID == 0 then NullSlot else PairSlot(nodeID, nodeMs)
    {
      var idBits := consts.nodeIdSizeBits;
      TimingRoom(TimingBase(consts), PairBits(consts), read, TimingPairs(consts));
      LongBitsInRange(data, bitIdx, idBits);
      TimingStep(U64(data), idBits, consts.hbTimerMsBits, TimingPairs(consts), i, bitIdx, slots);
      nodeID, nodeMs, bitIdx', read' := ToInt32(LongBits(data, bitIdx, idBits)), 0, bitIdx, read;
      if nodeID != 0 {
        bitIdx' := bitIdx + idBits;
        LongBitsInRange(data, bitIdx', consts.hbTimerMsBits);
        nodeMs := ToInt32(LongBits(data, bitIdx', consts.hbTimerMsBits));
        bitIdx' := bitIdx' + consts.hbTimerMsBits;
        read' := read + 1;
        MulSucc(read, PairBits(consts));
      }
    }

    /** The reporting half of a pass: a null slot is warned about when the roster could fill
        every pair; a pair is listed under the node's name, or under its id with a warning. */
    method ReportSlot(nodeID: int, nodeMs: int, latencies: seq<Latency>, i: nat,
                      ghost slots: seq<TimingSlot>, ghost posted0: seq<Notice>)
      returns (latencies': seq<Latency>)
      requires i < |slots| && slots[i] == if nodeID == 0 then NullSlot else PairSlot(nodeID, nodeMs)
      requires var rep := TimingReport(lookup, slots[..i], consts.numberOfNodes >= TimingPairs(consts));
        latencies == rep.0 && notes.posted == posted0 + rep.1
      modifies notes
      ensures var rep := TimingReport(lookup, slots[..i + 1], consts.numberOfNodes >= TimingPairs(consts));
        latencies' == rep.0 && notes.posted == posted0 + rep.1
    {
      ghost var nullWarns := consts.numberOfNodes >= TimingPairs(consts);
      ghost var prev := TimingReport(lookup, slots[..i], nullWarns);
      TimingReportSnoc(lookup, slots, i, nullWarns);
      latencies' := latencies;
      if nodeID == 0 {
        if consts.numberOfNodes >= TimingPairs(consts) {
          AppendAssoc(posted0, prev.1, [TelemetryWarning(HBTimingNullNode)]);
          notes.Post(TelemetryWarning(HBTimingNullNode));
        }
      } else {
        var nodeInfo := lookup.GetNodeById(nodeID);
        if nodeInfo.Some? {
          latencies' := latencies + [Latency(Named(nodeInfo.value.nodeName), nodeMs)];
        } else {
          latencies' := latencies + [Latency(Unnamed(nodeID), nodeMs)];
          AppendAssoc(posted0, prev.1, [TelemetryWarning(HBTimingMissingNodeInfo(nodeID))]);
          notes.Post(TelemetryWarning(HBTimingMissingNodeInfo(nodeID)));
        }
      }
    }

    /** `parseBusStatusUpdate`: eight counters at fixed offsets of the payload, their severity,
        and the controller state's name from `twaiState`. */
    method ParseBusStatusUpdate(data: int)
      requires Valid()
      modifies this, notes, tables
      ensures Valid()
      ensures var r := HandleBus(tables.declared, old(Snapshot()), data);
        Snapshot() == r.state && notes.posted == old(notes.posted) + r.notices
    {
      var state := LongBits(data, 0, 2);
      var txError := LongBits(data, 2, 8);
      var rxError := LongBits(data, 10, 8);
      var busErrDelta := LongBits(data, 18, 12);
      var txFailDelta := LongBits(data, 30, 10);
      var rxOverDelta := LongBits(data, 40, 10);
      var rxMissDelta := LongBits(data, 50, 10);
      var msgsToRx := LongBits(data, 60, 4);
      var b := BusStatus(state, txError, rxError, busErrDelta, txFailDelta, rxOverDelta, rxMissDelta, msgsToRx);
      BusFieldsRead(data);
      var status := BusSeverity(b);
      var name := tables.NameFromInt(TwaiState, state);
      var n := Notice(status, Vitals, BusReport(b, name));
      if busChip.None? {
        notes.Post(n);
      }
      busChip := Some(n);
    }
  }
}
