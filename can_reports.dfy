/** What the dashboard's CAN decoder (src/main/java/CanParser.java) reports, as values: the
    generated constants it is configured with, the notifications it posts, and the value-level
    meaning of each handler (the fields of a warning word, the enum-flag verdict, the pong
    window, a data point's status step, the missing-frame sweep, the heartbeat pages). The
    decoder object that applies them is in module CanParser. */
module CanReports {
  import opened Bits
  import opened IntConst
  import opened TelemetryLookup
  import opened CanDecode

  /* ---------------- configuration ---------------- */

  /** The generated `Constants` class: function codes in the order the dispatch tests them,
      heartbeat layout widths, the node roster, and the warning-word layout. */
  datatype Constants = Constants(
    nmt: int, sync: int, warningCode: int, telemetryCommand: int, hbPing: int, hbPong: int,
    transmitData: int, hbRespUpdate: int, busStatusUpdate: int, errControl: int, statusUpdate: int,
    hbUpdateTypeBits: int, hbStatusFrameBits: int, hbTimerMsBits: int, nodeIdSizeBits: int,
    hbUpdateTiming: int, hbUpdateStatus: int,
    nodeIds: seq<int>, numberOfNodes: int, slowestNodeCount: int,
    warningTypeMask: int, criticalWarning: int, nonCriticalWarning: int,
    warningNodeFlagIndex: int, warningFrameFlagIndex: int, warningDataFlagIndex: int,
    maxFrameCntBits: int, maxDataInFrameBits: int,
    disablePrecharge: int, prechargeOff: int)

  /** The function codes, in the order of the `switch` in `parseCanMessage`. */
  function Codes(c: Constants): seq<int>
  {
    [c.nmt, c.sync, c.warningCode, c.telemetryCommand, c.hbPing, c.hbPong,
     c.transmitData, c.hbRespUpdate, c.busStatusUpdate, c.errControl, c.statusUpdate]
  }

  /** What the decoder needs of its constants: distinct case labels (Java rejects a `switch`
      with duplicates), a heartbeat header that leaves more than 30 node slots (the assertion in
      `parseHBStatusFrame`), a status-page count that sizes the entry array (`1 << bits`),
      widths that fit a long, and a roster at least `numberOfNodes` long. The source states the
      type-bit and node-slot conditions as Java `assert`s, which run only with `-ea`. */
  ghost predicate ConfigOk(c: Constants)
  {
    (forall i, j :: 0 <= i < j < |Codes(c)| ==> Codes(c)[i] != Codes(c)[j]) &&
    1 <= c.hbUpdateTypeBits && 0 <= c.hbStatusFrameBits <= 30 &&
    64 - (c.hbUpdateTypeBits + c.hbStatusFrameBits) > 30 &&
    0 <= c.hbTimerMsBits < 64 && 0 <= c.nodeIdSizeBits < 64 &&
    0 <= c.numberOfNodes <= |c.nodeIds| && c.numberOfNodes < 0x7FFF_0000 &&
    0 <= c.slowestNodeCount < 0x8000_0000
  }

  /** The generated classes the name tables are asked about. */
  const WarningFlags: string := "warningFlags"
  const TelemetryCommandFlags: string := "telemetryCommandFlags"
  const StatusUpdates: string := "statusUpdates"
  const TwaiState: string := "twaiState"

  /* ---------------- notifications ---------------- */

  /** `NotificationPanel.Channel`. */
  datatype Channel = Telemetry | Vitals

  /** How a message names a node: by its name, or by its id when no name is known. */
  datatype NodeLabel = Named(name: string) | Unnamed(id: int)

  /** One point a heartbeat timing frame lists. */
  datatype Latency = Latency(node: NodeLabel, ms: int)

  /** The text of each notification, kept as its parts. */
  datatype Msg =
    | InvalidLine
    | CommandNotUnderstood
    | NmtReceived | SyncReceived | ErrorControlReceived | HBPingReceived
    | NoTypeBit | BothTypeBits
    | WarningReport(node: NodeLabel, nodeId: int, critical: bool, warning: bool, flags: string,
                    frame: int, dataName: Option<string>)
    | PongFromUnknown(nodeId: int)
    | PongStatus(collected: nat, total: nat, missing: seq<NodeLabel>)
    | UnknownFrame(nodeId: int, frameIndex: int)
    | MissingDataInfo(key: DataKey)
    | Overflowed(key: DataKey)
    | InvalidBitLength(key: DataKey, bitLength: int)
    | PlotRejected(key: DataKey, value: int)
    | MissingFrame(node: NodeLabel, frameIndex: int, expected: int, overdue: int)
    | DataStatus(title: string)
    | HBUnknownType(typeVal: nat)
    | HBFrameOutOfRange(frameNo: int, framesNeeded: int)
    | HBStatusMissingNodeInfo(nodeId: int)
    | HBStatusPage(frameNo: int, collected: nat, slots: nat, missingNames: seq<string>)
    | HBTimingNullNode
    | HBTimingMissingNodeInfo(nodeId: int)
    | HBTiming(averageMs: int, latencies: seq<Latency>)
    | BusReport(status: BusStatus, stateName: Option<string>)
    | UnknownFunction(functionCode: int, word: nat)
    | EnumOutOfRange(constantsClass: string, data: int, node: NodeLabel)
    | EnumUnrecognized(constantsClass: string, code: int, node: NodeLabel)
    | EnumFlag(constantsClass: string, name: string, code: int, node: NodeLabel)

  datatype Notice = Notice(severity: Severity, channel: Channel, msg: Msg)

  function TelemetryWarning(m: Msg): Notice
  {
    Notice(Warning, Telemetry, m)
  }

  /** `getNodeName(id)`, or the id when the node has no name. */
  function NameLabel(l: Lookup, id: int): (r: NodeLabel)
    reads l
    ensures r.Named? <==> l.GetNodeName(id).Some?
  {
    match l.GetNodeName(id)
    case Some(n) => Named(n)
    case None => Unnamed(id)
  }

  /** `getNodeById(id)`'s name, or the id for a node without a row. */
  function RowLabel(l: Lookup, id: int): (r: NodeLabel)
    reads l
    ensures r.Named? <==> id in l.nodesById
  {
    if id in l.nodesById then Named(l.nodesById[id].nodeName) else Unnamed(id)
  }

  /* ---------------- Java shifts and masks ---------------- */

  /** `(data >>> s) & ((1L << w) - 1)` on a Java long: both shift distances are taken mod 64. */
  function LongBits(data: int, s: int, w: int): nat
  {
    Field(U64(data), s % 64, w % 64)
  }

  /** Inside the word, the Java expression reads the plain bit field. */
  lemma LongBitsInRange(data: int, s: nat, w: nat)
    requires w < 64 && s + w <= 64
    ensures LongBits(data, s, w) == Field(U64(data), s, w)
  {
    if s == 64 {
      assert w == 0 && Pow2(0) == 1;
      assert Field(U64(data), 0, 0) == 0 == Field(U64(data), 64, 0);
    } else {
      assert s % 64 == s && w % 64 == w;
    }
  }

  /** The mask `(b == 32) ? -1 : (1 << b) - 1` keeps b bits for b == 32 and b mod 32 bits
      otherwise, since Java takes an int shift distance mod 32. */
  function MaskWidth(b: nat): (r: nat)
    ensures r <= 32 && (b <= 32 ==> r == b)
  {
    if b == 32 then 32 else b % 32
  }

  /** `(x >>> s) & mask(b)` on a Java int, read back as a Java int. */
  function IntBits(x: int, s: int, b: nat): (r: int)
    ensures IsInt32(r)
  {
    ToInt32(Field(U32(x), s % 32, MaskWidth(b)))
  }

  /** A field of a non-negative int that stays below bit 31 reads back unchanged. */
  lemma IntBitsSmall(x: nat, s: nat, b: nat)
    requires x < 0x8000_0000 && s < 32 && b < 32
    ensures IntBits(x, s, b) == Field(x, s, b)
  {
    var f := Field(x, s, b);
    Below31(b, f);
    assert U32(x) == x && s % 32 == s && MaskWidth(b) == b;
  }

  lemma Below31(b: nat, f: nat)
    requires b < 32 && f < Pow2(b)
    ensures f < 0x8000_0000
  {
    Pow2Monotone(b, 31);
    Pow2Table();
    assert Pow2(32) == 2 * Pow2(31);
  }

  /** `a & b` over the low n bits of two non-negative numbers. */
  function BitAnd(a: nat, b: nat, n: nat): (r: nat)
    ensures r < Pow2(n)
  {
    if n == 0 then 0 else (if a % 2 == 1 && b % 2 == 1 then 1 else 0) + 2 * BitAnd(a / 2, b / 2, n - 1)
  }

  /** The bitwise and is non-zero exactly when the two share a set bit. */
  lemma {:induction false} BitAndHit(a: nat, b: nat, n: nat)
    ensures BitAnd(a, b, n) != 0 <==> CommonBit(a, b, n)
  {
    if n > 0 {
      BitAndHit(a / 2, b / 2, n - 1);
    }
  }

  /* ---------------- the warning word ---------------- */

  /** The fields `parseWarningCode` reads from the low 32 bits of a warning frame. */
  datatype WarningFields = WarningFields(critical: bool, warning: bool, flags: int, node: int,
                                         frame: int, dataPoint: int)

  /** The flags region below `warningNodeFlagIndex`, the node id after it, the frame number at
      `warningFrameFlagIndex` and the data index at `warningDataFlagIndex`; the type bits are the
      word masked by `warningTypeMask`. */
  function DecodeWarning(data: int, c: Constants): WarningFields
  {
    var dataInt := ToInt32(data);
    var kind := ToInt32(BitAnd(U32(dataInt), U32(c.warningTypeMask), 32));
    WarningFields(
      FlagHit(kind, c.criticalWarning), FlagHit(kind, c.nonCriticalWarning),
      IntBits(dataInt, 0, Max(0, c.warningNodeFlagIndex)),
      IntBits(dataInt, c.warningNodeFlagIndex, Max(0, ToInt32(c.warningFrameFlagIndex - c.warningNodeFlagIndex))),
      IntBits(dataInt, c.warningFrameFlagIndex, Max(0, c.maxFrameCntBits)),
      IntBits(dataInt, c.warningDataFlagIndex, Max(0, c.maxDataInFrameBits)))
  }

  /** The widths of the warning word's four regions, when they sit side by side. */
  function WarningWidths(c: Constants): seq<nat>
    requires 0 <= c.warningNodeFlagIndex <= c.warningFrameFlagIndex
    requires 0 <= c.maxFrameCntBits && 0 <= c.maxDataInFrameBits
  {
    [c.warningNodeFlagIndex, c.warningFrameFlagIndex - c.warningNodeFlagIndex, c.maxFrameCntBits,
     c.maxDataInFrameBits]
  }

  /** A layout whose four regions are contiguous and end below bit 31. */
  predicate ContiguousWarning(c: Constants)
  {
    0 <= c.warningNodeFlagIndex <= c.warningFrameFlagIndex &&
    0 <= c.maxFrameCntBits && 0 <= c.maxDataInFrameBits &&
    c.warningFrameFlagIndex + c.maxFrameCntBits == c.warningDataFlagIndex &&
    c.warningDataFlagIndex + c.maxDataInFrameBits <= 31
  }

  lemma WarningOffsets(c: Constants)
    requires ContiguousWarning(c)
    ensures Offset(WarningWidths(c), 1) == c.warningNodeFlagIndex
    ensures Offset(WarningWidths(c), 2) == c.warningFrameFlagIndex
    ensures Offset(WarningWidths(c), 3) == c.warningDataFlagIndex
    ensures Offset(WarningWidths(c), 4) == c.warningDataFlagIndex + c.maxDataInFrameBits
  {
    var ws := WarningWidths(c);
    assert Offset(ws, 4) == ws[0] + Offset(ws[1..], 3);
    assert Offset(ws[1..], 3) == ws[1] + Offset(ws[2..], 2) by { assert ws[1..][1..] == ws[2..]; }
    assert Offset(ws[2..], 2) == ws[2] + Offset(ws[3..], 1) by { assert ws[2..][1..] == ws[3..]; }
    assert Offset(ws, 3) == ws[0] + Offset(ws[1..], 2);
    assert Offset(ws[1..], 2) == ws[1] + Offset(ws[2..], 1) by { assert ws[1..][1..] == ws[2..]; }
    assert Offset(ws, 2) == ws[0] + Offset(ws[1..], 1);
  }

  /** A word packed by the sender's contiguous layout is below 2^31 and so reads back as a
      non-negative Java int. */
  lemma PackedWarningSmall(fs: seq<nat>, c: Constants)
    requires ContiguousWarning(c) && Fits(fs, WarningWidths(c))
    ensures PackFields(fs, WarningWidths(c)) < 0x8000_0000
  {
    var ws := WarningWidths(c);
    PackedBound(fs, ws);
    WarningOffsets(c);
    Pow2Monotone(Offset(ws, 4), 31);
    Pow2Table();
    assert Pow2(32) == 2 * Pow2(31);
  }

  /** Decoding a warning word the sender packed with a contiguous layout gives back the flags,
      the node id, the frame number and the data index. */
  lemma WarningRoundTrip(c: Constants, flags: nat, node: nat, frame: nat, dataPoint: nat)
    requires ContiguousWarning(c)
    requires Fits([flags, node, frame, dataPoint], WarningWidths(c))
    ensures var w := DecodeWarning(PackFields([flags, node, frame, dataPoint], WarningWidths(c)), c);
      w.flags == flags && w.node == node && w.frame == frame && w.dataPoint == dataPoint
  {
    var fs, ws := [flags, node, frame, dataPoint], WarningWidths(c);
    var x := PackFields(fs, ws);
    PackedWarningSmall(fs, c);
    WarningOffsets(c);
    assert ToInt32(x) == x && U32(x) == x;
    FieldOfPacked(fs, ws, 0);
    FieldOfPacked(fs, ws, 1);
    FieldOfPacked(fs, ws, 2);
    FieldOfPacked(fs, ws, 3);
    IntBitsSmall(x, 0, ws[0]);
    IntBitsSmall(x, c.warningNodeFlagIndex, ws[1]);
    IntBitsSmall(x, c.warningFrameFlagIndex, ws[2]);
    IntBitsSmall(x, c.warningDataFlagIndex, ws[3]);
  }

  /** The notice `parseWarningCode` posts before its report when the type bits are odd: none
      set, or both set. */
  function TypeNotices(w: WarningFields): (r: seq<Notice>)
    ensures |r| <= 1
    ensures r != [] <==> w.critical == w.warning
  {
    if !w.critical && !w.warning then [TelemetryWarning(NoTypeBit)]
    else if w.critical && w.warning then [Notice(Critical, Telemetry, BothTypeBits)]
    else []
  }

  /* ---------------- enum flags ---------------- */

  /** `parseEnumFlag`'s notice: a value outside the int range or without a name is a warning;
      a named code is critical when listed as critical and OK otherwise (no code is listed as a
      warning). */
  function EnumNotice(data: int, table: map<int, string>, cls: string, critical: seq<int>,
                      node: NodeLabel, ch: Channel): (n: Notice)
    ensures n.channel == ch
    ensures n.msg.EnumFlag? <==> IsInt32(data) && data in table
    ensures n.msg.EnumFlag? ==> n.msg.name == table[data] && n.msg.code == data
    ensures n.severity == Critical <==> IsInt32(data) && data in table && data in critical
    ensures n.severity == Ok <==> IsInt32(data) && data in table && data !in critical
  {
    if !IsInt32(data) then Notice(Warning, ch, EnumOutOfRange(cls, data, node))
    else match NameIn(table, data)
      case None => Notice(Warning, ch, EnumUnrecognized(cls, data, node))
      case Some(name) => Notice(if data in critical then Critical else Ok, ch, EnumFlag(cls, name, data, node))
  }

  /* ---------------- the heartbeat pong window ---------------- */

  /** The roster ids missing from the window, named as `getNodeName` names them. */
  function MissingLabels(l: Lookup, ids: seq<int>, window: set<int>): seq<NodeLabel>
    reads l
  {
    if ids == [] then []
    else
      var last := ids[|ids| - 1];
      MissingLabels(l, ids[..|ids| - 1], window) + if last in window then [] else [NameLabel(l, last)]
  }

  /** Every roster entry is either counted or listed as missing. */
  lemma {:induction false} PongAccounting(l: Lookup, ids: seq<int>, window: set<int>)
    ensures CountIn(ids, window) + |MissingLabels(l, ids, window)| == |ids|
  {
    if ids != [] {
      PongAccounting(l, ids[..|ids| - 1], window);
    }
  }

  /** The pong chip after one evaluation: OK with the count when every roster id ponged,
      otherwise a warning that lists the missing ones. */
  function PongNotice(l: Lookup, ids: seq<int>, window: set<int>): (n: Notice)
    reads l
    ensures n.channel == Telemetry && n.msg.PongStatus? && n.msg.total == |ids|
    ensures n.msg.collected + |n.msg.missing| == |ids|
    ensures n.severity == Ok <==> forall j :: 0 <= j < |ids| ==> ids[j] in window
    ensures n.severity != Critical
  {
    var collected := CountIn(ids, window);
    PongAccounting(l, ids, window);
    CountInFull(ids, window);
    Notice(if collected == |ids| then Ok else Warning, Telemetry,
           PongStatus(collected, |ids|, MissingLabels(l, ids, window)))
  }

  /* ---------------- data-point status ---------------- */

  /** The status a data point's chip shows; a point without a chip is implicitly OK. */
  function Shown(status: map<DataKey, Severity>, key: DataKey): Severity
  {
    if key in status then status[key] else Ok
  }

  /** One `checkDataValue`: a chip is created, with a notice, the first time a point leaves the
      OK band; an existing chip takes the new status; nothing happens while the status holds. */
  function CheckStep(l: Lookup, status: map<DataKey, Severity>, p: Point): (map<DataKey, Severity>, seq<Notice>)
    reads l
  {
    var sev := ValueSeverity(p.value, p.info);
    if Shown(status, p.key) == sev then (status, [])
    else if p.key !in status then (status[p.key := sev], [Notice(sev, Telemetry, DataStatus(l.TitleFor(p.key)))])
    else (status[p.key := sev], [])
  }

  /** After a check the point's chip shows the point's severity; only the point's own chip
      changes; a notice is posted exactly when the point gets its first chip, which happens
      exactly when it is not OK and had none, and that notice names the point. */
  lemma CheckStepTracks(l: Lookup, status: map<DataKey, Severity>, p: Point, k: DataKey)
    ensures Shown(CheckStep(l, status, p).0, p.key) == ValueSeverity(p.value, p.info)
    ensures k != p.key ==> (k in CheckStep(l, status, p).0 <==> k in status) &&
                           Shown(CheckStep(l, status, p).0, k) == Shown(status, k)
    ensures |CheckStep(l, status, p).1| <= 1
    ensures CheckStep(l, status, p).1 != [] <==> p.key !in status && ValueSeverity(p.value, p.info) != Ok
    ensures CheckStep(l, status, p).1 != [] ==>
      CheckStep(l, status, p).1[0] == Notice(ValueSeverity(p.value, p.info), Telemetry, DataStatus(l.TitleFor(p.key)))
  {
  }

  /** The notices of one decoded point: its status step, then a warning when the plot does
      not take the point. */
  function PointStep(l: Lookup, accepts: set<DataKey>, status: map<DataKey, Severity>, p: Point)
    : (map<DataKey, Severity>, seq<Notice>)
    reads l
  {
    var s := CheckStep(l, status, p);
    (s.0, s.1 + if p.key in accepts then [] else [TelemetryWarning(PlotRejected(p.key, p.value))])
  }

  /** The points of a walk, applied in order. */
  function Replay(l: Lookup, accepts: set<DataKey>, status: map<DataKey, Severity>, ps: seq<Point>)
    : (map<DataKey, Severity>, seq<Notice>)
    reads l
  {
    if ps == [] then (status, [])
    else
      var r := Replay(l, accepts, status, ps[..|ps| - 1]);
      var s := PointStep(l, accepts, r.0, ps[|ps| - 1]);
      (s.0, r.1 + s.1)
  }

  /** The points the plot takes, in order. */
  function Accepted(accepts: set<DataKey>, ps: seq<Point>): (r: seq<(DataKey, int)>)
    ensures |r| <= |ps|
  {
    if ps == [] then []
    else Accepted(accepts, ps[..|ps| - 1]) +
         (var p := ps[|ps| - 1]; if p.key in accepts then [(p.key, p.value)] else [])
  }

  predicate DistinctKeys(ps: seq<Point>)
  {
    forall a, b :: 0 <= a < b < |ps| ==> ps[a].key != ps[b].key
  }

  /** After a walk whose points have distinct keys, each point's chip shows its severity, and
      chips of keys the walk did not visit are untouched. */
  lemma {:induction false} ReplayTracks(l: Lookup, accepts: set<DataKey>, status: map<DataKey, Severity>,
                                        ps: seq<Point>, k: DataKey)
    requires DistinctKeys(ps)
    ensures forall j :: 0 <= j < |ps| ==>
      Shown(Replay(l, accepts, status, ps).0, ps[j].key) == ValueSeverity(ps[j].value, ps[j].info)
    ensures (forall j :: 0 <= j < |ps| ==> ps[j].key != k) ==>
      (k in Replay(l, accepts, status, ps).0 <==> k in status) &&
      Shown(Replay(l, accepts, status, ps).0, k) == Shown(status, k)
  {
    if ps != [] {
      var init := ps[..|ps| - 1];
      var p := ps[|ps| - 1];
      assert DistinctKeys(init) by {
        forall a, b | 0 <= a < b < |init| ensures init[a].key != init[b].key {
          assert init[a] == ps[a] && init[b] == ps[b];
        }
      }
      var r := Replay(l, accepts, status, init);
      ReplayTracks(l, accepts, status, init, k);
      ReplayTracks(l, accepts, status, init, p.key);
      CheckStepTracks(l, r.0, p, p.key);
      forall j | 0 <= j < |ps|
        ensures Shown(Replay(l, accepts, status, ps).0, ps[j].key) == ValueSeverity(ps[j].value, ps[j].info)
      {
        if j < |ps| - 1 {
          assert ps[j] == init[j];
          ReplayTracks(l, accepts, status, init, ps[j].key);
          CheckStepTracks(l, r.0, p, ps[j].key);
        }
      }
      if forall j :: 0 <= j < |ps| ==> ps[j].key != k {
        assert forall j :: 0 <= j < |init| ==> init[j].key != k by {
          forall j | 0 <= j < |init| ensures init[j].key != k { assert init[j] == ps[j]; }
        }
        assert ps[|ps| - 1].key != k;
        CheckStepTracks(l, r.0, p, k);
      }
    }
  }

  /** The warning that ends a walk early, if it stopped. */
  function StopNotices(nodeId: int, frameIndex: int, stop: Option<Stop>): (r: seq<Notice>)
    ensures |r| == if stop.Some? then 1 else 0
  {
    match stop
    case None => []
    case Some(NoDataInfo(i)) => [TelemetryWarning(MissingDataInfo(DataKey(nodeId, frameIndex, i)))]
    case Some(Overflow(i)) => [TelemetryWarning(Overflowed(DataKey(nodeId, frameIndex, i)))]
    case Some(BadBitLength(i, len)) => [TelemetryWarning(InvalidBitLength(DataKey(nodeId, frameIndex, i), len))]
  }

  /* ---------------- the missing-frame sweep ---------------- */

  /** A frame the monitor watches: one with a positive timeout. */
  predicate Monitored(frames: map<FrameKey, CanFrame>, k: FrameKey)
  {
    k in frames && frames[k].dataTimeout > 0
  }

  /** `frameRemainingMs.getOrDefault(k, expected)`. */
  function RemainingOr(rem: map<FrameKey, int>, k: FrameKey, expected: int): int
  {
    if k in rem then rem[k] else expected
  }

  /** The tick one monitored frame takes from the countdown map as it was before the sweep. */
  function TickOf(frames: map<FrameKey, CanFrame>, rem: map<FrameKey, int>, k: FrameKey): TickOutcome
    requires k in frames
  {
    Tick(RemainingOr(rem, k, frames[k].dataTimeout), frames[k].dataTimeout)
  }

  /** The warnings a sweep posts, visiting the frames in `order`. */
  function SweepNotices(l: Lookup, frames: map<FrameKey, CanFrame>, rem: map<FrameKey, int>, order: seq<FrameKey>)
    : (r: seq<Notice>)
    reads l
    ensures |r| <= |order|
  {
    if order == [] then []
    else
      var k := order[|order| - 1];
      SweepNotices(l, frames, rem, order[..|order| - 1]) +
      if Monitored(frames, k) && TickOf(frames, rem, k).overdue.Some? then
        [TelemetryWarning(MissingFrame(NameLabel(l, k.nodeId), k.frameIndex, frames[k].dataTimeout,
                                       TickOf(frames, rem, k).overdue.value))]
      else []
  }

  /** The countdown map after a sweep visiting the frames in `order`. */
  function SweepRemaining(frames: map<FrameKey, CanFrame>, rem: map<FrameKey, int>, order: seq<FrameKey>)
    : map<FrameKey, int>
  {
    if order == [] then rem
    else
      var k := order[|order| - 1];
      var prev := SweepRemaining(frames, rem, order[..|order| - 1]);
      if Monitored(frames, k) then prev[k := TickOf(frames, rem, k).remaining] else prev
  }

  /** After a sweep, each monitored frame it visited holds its one tick from the countdown
      before the sweep, whatever the order; every other countdown is as it was. */
  lemma {:induction false} SweepRemainingAt(frames: map<FrameKey, CanFrame>, rem: map<FrameKey, int>,
                                            order: seq<FrameKey>, k: FrameKey)
    ensures var r := SweepRemaining(frames, rem, order);
      (k in r <==> k in rem || (k in order && Monitored(frames, k))) &&
      (k in order && Monitored(frames, k) ==> r[k] == TickOf(frames, rem, k).remaining) &&
      (k in rem && !(k in order && Monitored(frames, k)) ==> r[k] == rem[k])
  {
    if order != [] {
      var n := |order| - 1;
      SweepRemainingAt(frames, rem, order[..n], k);
      assert k in order <==> k in order[..n] || k == order[n] by {
        assert order == order[..n] + [order[n]];
      }
    }
  }

  /** A sweep posts one warning for each monitored frame whose countdown had gone negative,
      and nothing for the others. */
  lemma {:induction false} SweepReportsOverdue(l: Lookup, frames: map<FrameKey, CanFrame>, rem: map<FrameKey, int>,
                                               order: seq<FrameKey>)
    ensures |SweepNotices(l, frames, rem, order)| ==
            |set j | 0 <= j < |order| && Monitored(frames, order[j]) &&
                     RemainingOr(rem, order[j], frames[order[j]].dataTimeout) < 0|
  {
    if order != [] {
      var n := |order| - 1;
      var k := order[n];
      SweepReportsOverdue(l, frames, rem, order[..n]);
      var pre := set j | 0 <= j < n && Monitored(frames, order[..n][j]) &&
                         RemainingOr(rem, order[..n][j], frames[order[..n][j]].dataTimeout) < 0;
      var all := set j | 0 <= j < |order| && Monitored(frames, order[j]) &&
                         RemainingOr(rem, order[j], frames[order[j]].dataTimeout) < 0;
      if Monitored(frames, k) && RemainingOr(rem, k, frames[k].dataTimeout) < 0 {
        assert all == pre + {n};
      } else {
        assert all == pre;
      }
    }
  }

  /* ---------------- heartbeat frames ---------------- */

  /** Which heartbeat frame `parseHBRespUpdate` sees, by the low type bits. */
  datatype HBKind = TimingKind | StatusKind | UnknownKind(typeVal: nat)

  function HBKindOf(data: int, c: Constants): (k: HBKind)
  {
    var typeVal := LongBits(data, 0, c.hbUpdateTypeBits);
    if typeVal == LongBits(c.hbUpdateTiming, 0, c.hbUpdateTypeBits) then TimingKind
    else if typeVal == LongBits(c.hbUpdateStatus, 0, c.hbUpdateTypeBits) then StatusKind
    else UnknownKind(typeVal)
  }

  /** A frame whose low type bits carry the timing tag is a timing frame; one that carries a
      distinct status tag is a status frame. */
  lemma HBKindOfTagged(c: Constants, tag: nat, payload: nat)
    requires 1 <= c.hbUpdateTypeBits < 64 && tag < Pow2(c.hbUpdateTypeBits)
    requires tag + Pow2(c.hbUpdateTypeBits) * payload < 0x8000_0000_0000_0000
    ensures var d := tag + Pow2(c.hbUpdateTypeBits) * payload;
      (tag == LongBits(c.hbUpdateTiming, 0, c.hbUpdateTypeBits) ==> HBKindOf(d, c) == TimingKind) &&
      ((tag == LongBits(c.hbUpdateStatus, 0, c.hbUpdateTypeBits) &&
        tag != LongBits(c.hbUpdateTiming, 0, c.hbUpdateTypeBits)) ==> HBKindOf(d, c) == StatusKind)
  {
    TagRead(c.hbUpdateTypeBits, tag, payload);
  }

  /** The low t bits of `tag + 2^t * payload` are the tag. */
  lemma TagRead(t: nat, tag: nat, payload: nat)
    requires t < 64 && tag < Pow2(t) && tag + Pow2(t) * payload < 0x8000_0000_0000_0000
    ensures LongBits(tag + Pow2(t) * payload, 0, t) == tag
  {
    var p := Pow2(t);
    var d := tag + p * payload;
    assert U64(d) == d && t % 64 == t && Pow2(0) == 1;
    assert LongBits(d, 0, t) == d / 1 % p;
    DivModUnique(d, p, payload, tag);
  }

  /** The status-page names of the nodes whose bit is clear and that have a row, and the
      warnings for the ones that have none, over the page's slice of the roster. */
  function PageMissing(l: Lookup, d: nat, base: nat, ids: seq<int>): (r: (seq<string>, seq<Notice>))
    reads l
  {
    if ids == [] then ([], [])
    else
      var k := |ids| - 1;
      var prev := PageMissing(l, d, base, ids[..k]);
      if SlotSet(d, base, k) then prev
      else if ids[k] in l.nodesById then (prev.0 + [l.nodesById[ids[k]].nodeName], prev.1)
      else (prev.0, prev.1 + [TelemetryWarning(HBStatusMissingNodeInfo(ids[k]))])
  }

  /** Every slot of a page is counted as present, named as missing, or warned about. */
  lemma {:induction false} PageAccounting(l: Lookup, d: nat, base: nat, ids: seq<int>)
    ensures CountSet(d, base, |ids|) + |PageMissing(l, d, base, ids).0| + |PageMissing(l, d, base, ids).1| == |ids|
  {
    if ids != [] {
      PageAccounting(l, d, base, ids[..|ids| - 1]);
    }
  }

  /** The latencies a timing frame lists, and the warnings it raises: a null slot warns when
      the roster could have filled every slot, a node without a row warns and is listed by id. */
  function TimingReport(l: Lookup, slots: seq<TimingSlot>, nullWarns: bool): (r: (seq<Latency>, seq<Notice>))
    reads l
    ensures |r.0| <= |slots|
  {
    if slots == [] then ([], [])
    else
      var prev := TimingReport(l, slots[..|slots| - 1], nullWarns);
      match slots[|slots| - 1]
      case NullSlot => (prev.0, prev.1 + if nullWarns then [TelemetryWarning(HBTimingNullNode)] else [])
      case PairSlot(id, ms) =>
        (prev.0 + [Latency(RowLabel(l, id), ms)],
         prev.1 + if id in l.nodesById then [] else [TelemetryWarning(HBTimingMissingNodeInfo(id))])
  }

  lemma NullsLastInit(slots: seq<TimingSlot>)
    requires NullsLast(slots) && slots != []
    ensures NullsLast(slots[..|slots| - 1])
  {
    var init := slots[..|slots| - 1];
    forall a, b | 0 <= a < b < |init| && init[a].NullSlot? ensures init[b].NullSlot? {
      assert init[a] == slots[a] && init[b] == slots[b];
    }
  }

  /** Fewer latencies than slots means the slot right after the listed ones is null. */
  lemma {:induction false} PrefixPairs(l: Lookup, slots: seq<TimingSlot>, nullWarns: bool)
    requires NullsLast(slots)
    ensures var lat := TimingReport(l, slots, nullWarns).0;
      |lat| < |slots| ==> slots[|lat|].NullSlot?
  {
    if slots != [] {
      var init := slots[..|slots| - 1];
      var last := slots[|slots| - 1];
      NullsLastInit(slots);
      PrefixPairs(l, init, nullWarns);
      var prev := TimingReport(l, init, nullWarns).0;
      var lat := TimingReport(l, slots, nullWarns).0;
      assert |lat| == |prev| + if last.PairSlot? then 1 else 0;
      if |lat| < |slots| {
        if |prev| < |init| {
          assert slots[|prev|] == init[|prev|];
          assert slots[|prev|].NullSlot?;
        }
      }
    }
  }

  /** With the nulls last, the listed latencies are the leading pairs, in order. */
  lemma {:induction false} TimingListsPairs(l: Lookup, slots: seq<TimingSlot>, nullWarns: bool)
    requires NullsLast(slots)
    ensures var lat := TimingReport(l, slots, nullWarns).0;
      forall j :: 0 <= j < |lat| ==> slots[j].PairSlot? && lat[j] == Latency(RowLabel(l, slots[j].id), slots[j].ms)
  {
    if slots != [] {
      var init := slots[..|slots| - 1];
      var last := slots[|slots| - 1];
      NullsLastInit(slots);
      TimingListsPairs(l, init, nullWarns);
      PrefixPairs(l, init, nullWarns);
      var prev := TimingReport(l, init, nullWarns).0;
      var lat := TimingReport(l, slots, nullWarns).0;
      forall j | 0 <= j < |lat|
        ensures slots[j].PairSlot? && lat[j] == Latency(RowLabel(l, slots[j].id), slots[j].ms)
      {
        if j < |prev| {
          assert lat[j] == prev[j];
          assert slots[j] == init[j];
        }
      }
    }
  }

  /** Heartbeat status pages: the header is the type bits and the page number; every other bit
      is one node slot. */
  function StatusHeader(c: Constants): int
  {
    c.hbUpdateTypeBits + c.hbStatusFrameBits
  }

  function SlotsPerPage(c: Constants): int
  {
    64 - StatusHeader(c)
  }

  /** The page number: `(int)((data >>> typeBits) & ((1 << frameBits) - 1))`, the int mask
      keeping `frameBits mod 32` bits. */
  function StatusFrameNo(data: int, c: Constants): int
  {
    ToInt32(LongBits(data, c.hbUpdateTypeBits, c.hbStatusFrameBits % 32))
  }

  function PagesNeeded(c: Constants): int
  {
    CeilDiv(c.numberOfNodes, SlotsPerPage(c))
  }

  /** The roster slice a page covers: from page * slots, up to slots nodes, not past the roster. */
  function PageStart(c: Constants, frameNo: nat): int
  {
    frameNo * SlotsPerPage(c)
  }

  function PageCount(c: Constants, frameNo: nat): int
  {
    Min(c.numberOfNodes, PageStart(c, frameNo) + SlotsPerPage(c)) - PageStart(c, frameNo)
  }

  datatype PageOutcome =
    | PageRejected(notice: Notice)
    | PageShown(frameNo: nat, notice: Notice, warnings: seq<Notice>)

  /** What one status page yields: a warning for a page number past the pages the roster needs;
      otherwise the page's entry (OK exactly when every slot of the page is set) and the warnings
      for the missing nodes that have no row. */
  function StatusPage(l: Lookup, data: int, c: Constants): (r: PageOutcome)
    requires ConfigOk(c)
    reads l
    ensures r.PageRejected? <==> StatusFrameNo(data, c) >= PagesNeeded(c)
    ensures r.PageRejected? ==> r.notice == TelemetryWarning(HBFrameOutOfRange(StatusFrameNo(data, c), PagesNeeded(c)))
    ensures r.PageShown? ==>
      (r.frameNo == StatusFrameNo(data, c) && r.frameNo < Pow2(c.hbStatusFrameBits) &&
       0 < PageCount(c, r.frameNo) && PageStart(c, r.frameNo) + PageCount(c, r.frameNo) <= c.numberOfNodes &&
       StatusHeader(c) + PageCount(c, r.frameNo) <= 64)
    ensures r.PageShown? ==>
      (r.notice.channel == Vitals && r.notice.msg.HBStatusPage? &&
       r.notice.msg.frameNo == r.frameNo && r.notice.msg.slots == PageCount(c, r.frameNo) &&
       r.notice.msg.collected == CountSet(U64(data), StatusHeader(c), PageCount(c, r.frameNo)) &&
       r.notice.msg.collected + |r.notice.msg.missingNames| + |r.warnings| == PageCount(c, r.frameNo))
    ensures r.PageShown? ==>
      (r.notice.severity == Ok <==> forall j :: 0 <= j < PageCount(c, r.frameNo) ==> SlotSet(U64(data), StatusHeader(c), j))
    ensures r.PageShown? ==> r.notice.severity != Critical
  {
    var frameNo := StatusFrameNo(data, c);
    var needed := PagesNeeded(c);
    if frameNo >= needed then PageRejected(TelemetryWarning(HBFrameOutOfRange(frameNo, needed)))
    else
      StatusFrameNoBound(data, c);
      PageSlice(c, frameNo);
      var header := StatusHeader(c);
      var start, count := PageStart(c, frameNo), PageCount(c, frameNo);
      var d := U64(data);
      PageAccounting(l, d, header, c.nodeIds[start..start + count]);
      CountSetFull(d, header, count);
      PageReport(l, d, header, frameNo, c.nodeIds[start..start + count])
  }

  /** The entry and the warnings of an in-range page whose slots start at bit `header` and
      stand for the roster slice `ids`. */
  function PageReport(l: Lookup, d: nat, header: nat, frameNo: nat, ids: seq<int>): PageOutcome
    reads l
  {
    var collected := CountSet(d, header, |ids|);
    var pm := PageMissing(l, d, header, ids);
    PageShown(frameNo, Notice(if collected == |ids| then Ok else Warning, Vitals,
                              HBStatusPage(frameNo, collected, |ids|, pm.0)), pm.1)
  }

  /** A page below the pages needed covers a non-empty slice of the roster whose slot bits
      end within the word. */
  lemma PageSlice(c: Constants, frameNo: nat)
    requires ConfigOk(c) && frameNo < PagesNeeded(c)
    ensures 0 <= PageStart(c, frameNo) && 0 < PageCount(c, frameNo)
    ensures PageStart(c, frameNo) + PageCount(c, frameNo) <= c.numberOfNodes
    ensures StatusHeader(c) + PageCount(c, frameNo) <= 64
  {
    var slots := SlotsPerPage(c);
    PageInRange(c.numberOfNodes, slots, frameNo, StatusHeader(c));
    assert 0 <= frameNo * slots;
  }

  /** The page number is a non-negative number of `hbStatusFrameBits` bits. */
  lemma StatusFrameNoBound(data: int, c: Constants)
    requires ConfigOk(c)
    ensures 0 <= StatusFrameNo(data, c) < Pow2(c.hbStatusFrameBits)
  {
    var fb := c.hbStatusFrameBits;
    var f := LongBits(data, c.hbUpdateTypeBits, fb % 32);
    assert fb % 32 % 64 == fb;
    Below31(fb, f);
  }

  /** Heartbeat timing frames: after the type bits, the average, then (id, time) pairs. */
  function TimingBase(c: Constants): int
  {
    c.hbUpdateTypeBits + c.hbTimerMsBits
  }

  function PairBits(c: Constants): int
  {
    c.nodeIdSizeBits + c.hbTimerMsBits
  }

  /** The number of pairs read: as many as fit after the average, at most `slowestNodeCount`. */
  function TimingPairs(c: Constants): (r: int)
    ensures c.slowestNodeCount >= 0 ==> 0 <= r <= c.slowestNodeCount
    ensures PairBits(c) > 0 ==> r * PairBits(c) <= Max(0, 64 - TimingBase(c))
    ensures r > 0 ==> PairBits(c) > 0
  {
    var pb := PairBits(c);
    var maxPairs := if pb > 0 then JavaDiv(64 - TimingBase(c), pb) else 0;
    var r := Min(c.slowestNodeCount, Max(0, maxPairs));
    if pb > 0 then PairsFit(64 - TimingBase(c), pb, r); r else r
  }

  lemma PairsFit(avail: int, pb: int, r: int)
    requires pb > 0 && r <= Max(0, JavaDiv(avail, pb))
    ensures r * pb <= Max(0, avail)
  {
    if r > 0 {
      assert avail >= 0 && r <= avail / pb;
      MulMonotone(r, avail / pb, pb);
    }
  }

  /** The slots of a timing frame. */
  function TimingSlots(data: int, c: Constants): seq<TimingSlot>
    requires ConfigOk(c)
  {
    TimingFrom(U64(data), c.nodeIdSizeBits, c.hbTimerMsBits, TimingPairs(c), 0, TimingBase(c))
  }

  /** Latency j is the j-th packed pair: the node named by its row (or its id), and its time. */
  ghost predicate LatencyAt(l: Lookup, d: nat, c: Constants, lat: seq<Latency>, j: nat)
    requires ConfigOk(c) && j < |lat|
    reads l
  {
    var at := TimingBase(c) + j * PairBits(c);
    var id := ToInt32(Field(d, at, c.nodeIdSizeBits));
    lat[j] == Latency(RowLabel(l, id), ToInt32(Field(d, at + c.nodeIdSizeBits, c.hbTimerMsBits)))
  }

  ghost predicate AllLatenciesAt(l: Lookup, d: nat, c: Constants, lat: seq<Latency>)
    requires ConfigOk(c)
    reads l
  {
    forall j :: 0 <= j < |lat| ==> LatencyAt(l, d, c, lat, j)
  }

  /** The timing entry a frame sets, and the warnings it raises: the average, then the leading
      non-null pairs in order; a null slot warns when the roster could have filled every pair. */
  function TimingNotice(l: Lookup, data: int, c: Constants): (r: (Notice, seq<Notice>))
    requires ConfigOk(c)
    reads l
    ensures r.0.severity == Ok && r.0.channel == Vitals && r.0.msg.HBTiming?
    ensures r.0.msg.averageMs == ToInt32(LongBits(data, c.hbUpdateTypeBits, c.hbTimerMsBits))
    ensures |r.0.msg.latencies| <= TimingPairs(c)
    ensures AllLatenciesAt(l, U64(data), c, r.0.msg.latencies)
  {
    var slots := TimingSlots(data, c);
    var rep := TimingReport(l, slots, c.numberOfNodes >= TimingPairs(c));
    TimingLatencies(l, data, c, slots, rep.0);
    (Notice(Ok, Vitals, HBTiming(ToInt32(LongBits(data, c.hbUpdateTypeBits, c.hbTimerMsBits)), rep.0)), rep.1)
  }

  lemma TimingLatencies(l: Lookup, data: int, c: Constants, slots: seq<TimingSlot>, lat: seq<Latency>)
    requires ConfigOk(c) && slots == TimingSlots(data, c)
    requires lat == TimingReport(l, slots, c.numberOfNodes >= TimingPairs(c)).0
    ensures AllLatenciesAt(l, U64(data), c, lat)
  {
    var d := U64(data);
    TimingNullsLast(d, c.nodeIdSizeBits, c.hbTimerMsBits, TimingPairs(c), 0, TimingBase(c));
    TimingPairsAt(d, c.nodeIdSizeBits, c.hbTimerMsBits, TimingPairs(c), 0, TimingBase(c));
    TimingListsPairs(l, slots, c.numberOfNodes >= TimingPairs(c));
    forall j | 0 <= j < |lat| ensures LatencyAt(l, d, c, lat, j) {
      assert PairAt(d, c.nodeIdSizeBits, c.hbTimerMsBits, TimingBase(c), slots, j);
    }
  }

  /** The report `parseWarningCode` posts on the vitals channel: critical when the critical bit
      is set, a warning otherwise; it names the node and, when registered, the data point. */
  function WarningNotice(l: Lookup, w: WarningFields, flagsText: string): (n: Notice)
    reads l
    ensures n.channel == Vitals && n.msg.WarningReport?
    ensures n.severity == Critical <==> w.critical
    ensures n.severity != Ok
    ensures n.msg.dataName.Some? <==> DataKey(w.node, w.frame, w.dataPoint) in l.dataById
  {
    var dataName := match l.GetDataInfo(DataKey(w.node, w.frame, w.dataPoint))
                    case Some(info) => Some(info.dataName)
                    case None => None;
    Notice(if w.critical then Critical else Warning, Vitals,
           WarningReport(NameLabel(l, w.node), w.node, w.critical, w.warning, flagsText, w.frame, dataName))
  }

  /* ---------------- dispatch ---------------- */

  /** The handler `parseCanMessage` picks. */
  datatype Handler =
    | NmtH | SyncH | WarningH | TelemetryCommandH | HBPingH | HBPongH | TransmitDataH
    | HBRespUpdateH | BusStatusH | ErrControlH | StatusUpdateH | UnknownH

  /** The handlers, in the order of `Codes`. */
  const Handlers: seq<Handler> :=
    [NmtH, SyncH, WarningH, TelemetryCommandH, HBPingH, HBPongH, TransmitDataH,
     HBRespUpdateH, BusStatusH, ErrControlH, StatusUpdateH]

  /** The first case label equal to the function code. */
  function Route(code: int, c: Constants): (h: Handler)
    ensures h == UnknownH <==> code !in Codes(c)
  {
    if code == c.nmt then NmtH
    else if code == c.sync then SyncH
    else if code == c.warningCode then WarningH
    else if code == c.telemetryCommand then TelemetryCommandH
    else if code == c.hbPing then HBPingH
    else if code == c.hbPong then HBPongH
    else if code == c.transmitData then TransmitDataH
    else if code == c.hbRespUpdate then HBRespUpdateH
    else if code == c.busStatusUpdate then BusStatusH
    else if code == c.errControl then ErrControlH
    else if code == c.statusUpdate then StatusUpdateH
    else UnknownH
  }

  /** With distinct case labels, each function code reaches its own handler. */
  lemma RouteByCode(c: Constants)
    requires ConfigOk(c)
    ensures forall i :: 0 <= i < |Codes(c)| ==> Route(Codes(c)[i], c) == Handlers[i]
  {
    var cs := Codes(c);
    assert forall i, j :: 0 <= i < j < |cs| ==> cs[i] != cs[j];
    assert cs[0] == c.nmt && cs[1] == c.sync && cs[2] == c.warningCode && cs[3] == c.telemetryCommand;
    assert cs[4] == c.hbPing && cs[5] == c.hbPong && cs[6] == c.transmitData && cs[7] == c.hbRespUpdate;
    assert cs[8] == c.busStatusUpdate && cs[9] == c.errControl && cs[10] == c.statusUpdate;
  }

  /* ---------------- the decoder's state and its handlers ---------------- */

  /** What the decoder keeps between frames: the pong window and its chip, the frame
      countdowns, the data-point chips, the timing chip, the bus chip, one entry per status
      page, and the points handed to the plots. */
  datatype State = State(pongWindow: set<int>, pongChip: Option<Notice>,
                         frameRemaining: map<FrameKey, int>, dataStatus: map<DataKey, Severity>,
                         timingChip: Option<Notice>, busChip: Option<Notice>,
                         entries: seq<Option<Notice>>, plotted: seq<(DataKey, int)>)

  /** A handler's effect: the new state and the notices it posts, in order. */
  datatype Step = Step(state: State, notices: seq<Notice>)

  /** A chip is posted the first time it is set and only updated in place afterwards. */
  function ChipPosts(chip: Option<Notice>, n: Notice): seq<Notice>
  {
    if chip.None? then [n] else []
  }

  /** `flagsFromInt(warningFlags, value)`: the names of the flags set in the value, in the
      order `keys` lists them, each flag once. */
  ghost predicate FlagsFor(decl: map<string, seq<FieldDecl>>, value: int, keys: seq<int>, text: string)
  {
    WarningFlags in decl &&
    Distinct(keys) && (set x | x in keys) == Hits(TableOf(decl[WarningFlags]), value) &&
    (forall i :: 0 <= i < |keys| ==> keys[i] in TableOf(decl[WarningFlags])) &&
    text == FlagsText(NamesOf(TableOf(decl[WarningFlags]), keys))
  }

  /** `parseHBPong`: a registered node joins the window; any other id is warned about. */
  function HandlePong(l: Lookup, s: State, nodeId: int): (r: Step)
    reads l
    ensures r.state.pongWindow == if nodeId in l.nodesById then s.pongWindow + {nodeId} else s.pongWindow
    ensures r.state == s.(pongWindow := r.state.pongWindow)
    ensures r.notices == [] <==> nodeId in l.nodesById
  {
    if nodeId in l.nodesById then Step(s.(pongWindow := s.pongWindow + {nodeId}), [])
    else Step(s, [TelemetryWarning(PongFromUnknown(nodeId))])
  }

  /** One evaluation of the pong monitor: the chip shows the window's verdict on the roster,
      and a fresh window starts. */
  function PongEvaluation(l: Lookup, ids: seq<int>, s: State): (r: Step)
    reads l
    ensures r.state == s.(pongWindow := {}, pongChip := Some(PongNotice(l, ids, s.pongWindow)))
    ensures |r.notices| == if s.pongChip.None? then 1 else 0
  {
    var n := PongNotice(l, ids, s.pongWindow);
    Step(s.(pongWindow := {}, pongChip := Some(n)), ChipPosts(s.pongChip, n))
  }

  /** `parseTransmitData` for the node id's low 7 bits: an unregistered frame is warned about;
      a registered one restarts its countdown when monitored, and its payload is walked, each
      point checked and offered to the plots. */
  function HandleTransmit(l: Lookup, accepts: set<DataKey>, s: State, nodeId: int, frameIndex: int,
                          data: int): (r: Step)
    reads l
    ensures r.state == s.(frameRemaining := r.state.frameRemaining, dataStatus := r.state.dataStatus,
                          plotted := r.state.plotted)
    ensures |s.plotted| <= |r.state.plotted| && r.state.plotted[..|s.plotted|] == s.plotted
    ensures var fk := FrameKey(nodeId % 0x80, frameIndex);
      (fk !in l.framesById ==> r == Step(s, [TelemetryWarning(UnknownFrame(nodeId % 0x80, frameIndex))])) &&
      (Monitored(l.framesById, fk) ==> r.state.frameRemaining == s.frameRemaining[fk := l.framesById[fk].dataTimeout]) &&
      (!Monitored(l.framesById, fk) ==> r.state.frameRemaining == s.frameRemaining)
  {
    var node := nodeId % 0x80;
    var fk := FrameKey(node, frameIndex);
    if fk !in l.framesById then Step(s, [TelemetryWarning(UnknownFrame(node, frameIndex))])
    else
      var frame := l.framesById[fk];
      var w := WalkFrom(l.dataById, node, frameIndex, U64(data), frame.numData, 0, 0);
      var rp := Replay(l, accepts, s.dataStatus, w.points);
      var plotted := s.plotted + Accepted(accepts, w.points);
      assert plotted[..|s.plotted|] == s.plotted;
      Step(s.(frameRemaining := if frame.dataTimeout > 0 then s.frameRemaining[fk := frame.dataTimeout] else s.frameRemaining,
              dataStatus := rp.0, plotted := plotted),
           rp.1 + StopNotices(node, frameIndex, w.stop))
  }

  /** The points of one walk have distinct keys: they are data indices i, i + 1, ... */
  lemma WalkKeysDistinct(infos: map<DataKey, DataInfo>, nodeId: int, frameIndex: int, data: nat,
                         numData: int, i: nat, cursor: nat)
    requires cursor <= 64
    ensures var ps := WalkFrom(infos, nodeId, frameIndex, data, numData, i, cursor).points;
      DistinctKeys(ps) && forall j :: 0 <= j < |ps| ==> ps[j].key == DataKey(nodeId, frameIndex, i + j)
  {
    var ps := WalkFrom(infos, nodeId, frameIndex, data, numData, i, cursor).points;
    WalkDecodes(infos, nodeId, frameIndex, data, numData, i, cursor);
    forall j | 0 <= j < |ps| ensures ps[j].key == DataKey(nodeId, frameIndex, i + j) {
      assert DecodedAt(infos, nodeId, frameIndex, data, i, cursor, ps, j);
    }
  }

  /** After a frame of a registered frame, the chip of every point it decoded shows that
      point's severity, and chips of other frames are untouched. */
  lemma TransmitShowsSeverity(l: Lookup, accepts: set<DataKey>, s: State, nodeId: int, frameIndex: int,
                              data: int, k: DataKey)
    requires FrameKey(nodeId % 0x80, frameIndex) in l.framesById
    ensures var node := nodeId % 0x80;
      var w := WalkFrom(l.dataById, node, frameIndex, U64(data), l.framesById[FrameKey(node, frameIndex)].numData, 0, 0);
      var st := HandleTransmit(l, accepts, s, nodeId, frameIndex, data).state.dataStatus;
      (forall j :: 0 <= j < |w.points| ==> Shown(st, w.points[j].key) == ValueSeverity(w.points[j].value, w.points[j].info)) &&
      ((k.nodeId != node || k.frameIndex != frameIndex) ==> (k in st <==> k in s.dataStatus) && Shown(st, k) == Shown(s.dataStatus, k))
  {
    var node := nodeId % 0x80;
    var frame := l.framesById[FrameKey(node, frameIndex)];
    var w := WalkFrom(l.dataById, node, frameIndex, U64(data), frame.numData, 0, 0);
    WalkKeysDistinct(l.dataById, node, frameIndex, U64(data), frame.numData, 0, 0);
    ReplayTracks(l, accepts, s.dataStatus, w.points, k);
  }

  /** `parseHBStatusFrame`: an out-of-range page is warned about; otherwise the page's entry is
      set, posted the first time, after the warnings for missing nodes without a row. */
  function HandleStatus(l: Lookup, c: Constants, s: State, data: int): (r: Step)
    requires ConfigOk(c) && |s.entries| == Pow2(c.hbStatusFrameBits)
    reads l
    ensures r.state == s.(entries := r.state.entries) && |r.state.entries| == |s.entries|
    ensures StatusPage(l, data, c).PageRejected? ==> r == Step(s, [StatusPage(l, data, c).notice])
    ensures var p := StatusPage(l, data, c);
      p.PageShown? ==> r.state.entries == s.entries[p.frameNo := Some(p.notice)] &&
                       r.notices == p.warnings + ChipPosts(s.entries[p.frameNo], p.notice)
  {
    match StatusPage(l, data, c)
    case PageRejected(n) => Step(s, [n])
    case PageShown(f, n, ws) => Step(s.(entries := s.entries[f := Some(n)]), ws + ChipPosts(s.entries[f], n))
  }

  /** `parseHBTimingFrame`: the timing chip shows the frame's latencies. */
  function HandleTiming(l: Lookup, c: Constants, s: State, data: int): (r: Step)
    requires ConfigOk(c)
    reads l
    ensures r.state == s.(timingChip := Some(TimingNotice(l, data, c).0))
    ensures r.notices == TimingNotice(l, data, c).1 + ChipPosts(s.timingChip, TimingNotice(l, data, c).0)
  {
    var t := TimingNotice(l, data, c);
    Step(s.(timingChip := Some(t.0)), t.1 + ChipPosts(s.timingChip, t.0))
  }

  /** `parseHBRespUpdate`: the type bits pick the timing or the status parser. */
  function HandleHB(l: Lookup, c: Constants, s: State, data: int): (r: Step)
    requires ConfigOk(c) && |s.entries| == Pow2(c.hbStatusFrameBits)
    reads l
    ensures r.state == s.(entries := r.state.entries, timingChip := r.state.timingChip)
    ensures |r.state.entries| == |s.entries|
    ensures HBKindOf(data, c).UnknownKind? ==> r == Step(s, [TelemetryWarning(HBUnknownType(HBKindOf(data, c).typeVal))])
    ensures HBKindOf(data, c) == TimingKind ==> r == HandleTiming(l, c, s, data)
    ensures HBKindOf(data, c) == StatusKind ==> r == HandleStatus(l, c, s, data)
  {
    match HBKindOf(data, c)
    case TimingKind => HandleTiming(l, c, s, data)
    case StatusKind => HandleStatus(l, c, s, data)
    case UnknownKind(v) => Step(s, [TelemetryWarning(HBUnknownType(v))])
  }

  /** `parseBusStatusUpdate`: the bus chip shows the unpacked counters, their severity and the
      controller state's name. */
  function HandleBus(decl: map<string, seq<FieldDecl>>, s: State, data: int): (r: Step)
    requires TwaiState in decl
    ensures var b := UnpackBusStatus(U64(data));
      r.state == s.(busChip := Some(Notice(BusSeverity(b), Vitals, BusReport(b, NameIn(TableOf(decl[TwaiState]), b.state)))))
    ensures |r.notices| == if s.busChip.None? then 1 else 0
  {
    var b := UnpackBusStatus(U64(data));
    var n := Notice(BusSeverity(b), Vitals, BusReport(b, NameIn(TableOf(decl[TwaiState]), b.state)));
    Step(s.(busChip := Some(n)), ChipPosts(s.busChip, n))
  }

  /** `parseCanMessage`: the function code picks the handler; each handler changes only its
      own part of the state, and the plotted points only grow. */
  function Handle(l: Lookup, accepts: set<DataKey>, decl: map<string, seq<FieldDecl>>, c: Constants,
                  s: State, id: int, data: int, flagsText: string): (r: Step)
    requires ConfigOk(c) && |s.entries| == Pow2(c.hbStatusFrameBits)
    requires TelemetryCommandFlags in decl && StatusUpdates in decl && TwaiState in decl
    reads l
    ensures var code := SplitId(id).functionCode;
      code !in Codes(c) ==> r == Step(s, [TelemetryWarning(UnknownFunction(code, U64(data)))])
    ensures var h := Route(SplitId(id).functionCode, c);
      (h != TransmitDataH ==> r.state.frameRemaining == s.frameRemaining && r.state.dataStatus == s.dataStatus &&
                              r.state.plotted == s.plotted) &&
      (h != HBPongH ==> r.state.pongWindow == s.pongWindow) &&
      (h != HBRespUpdateH ==> r.state.entries == s.entries && r.state.timingChip == s.timingChip) &&
      (h != BusStatusH ==> r.state.busChip == s.busChip)
    ensures s.pongWindow <= r.state.pongWindow && r.state.pongChip == s.pongChip
    ensures |r.state.entries| == |s.entries|
    ensures |s.plotted| <= |r.state.plotted| && r.state.plotted[..|s.plotted|] == s.plotted
  {
    var cid := SplitId(id);
    match Route(cid.functionCode, c)
    case NmtH => Step(s, [Notice(Ok, Telemetry, NmtReceived)])
    case SyncH => Step(s, [Notice(Ok, Telemetry, SyncReceived)])
    case WarningH =>
      var w := DecodeWarning(data, c);
      Step(s, TypeNotices(w) + [WarningNotice(l, w, flagsText)])
    case TelemetryCommandH =>
      Step(s, [EnumNotice(data, TableOf(decl[TelemetryCommandFlags]), TelemetryCommandFlags,
                          [c.disablePrecharge], NameLabel(l, cid.nodeId), Telemetry)])
    case HBPingH => Step(s, [Notice(Ok, Vitals, HBPingReceived)])
    case HBPongH => HandlePong(l, s, cid.nodeId)
    case TransmitDataH => HandleTransmit(l, accepts, s, cid.nodeId, cid.extendedId, data)
    case HBRespUpdateH => HandleHB(l, c, s, data)
    case BusStatusH => HandleBus(decl, s, data)
    case ErrControlH => Step(s, [Notice(Ok, Telemetry, ErrorControlReceived)])
    case StatusUpdateH =>
      Step(s, [EnumNotice(data, TableOf(decl[StatusUpdates]), StatusUpdates,
                          [c.prechargeOff], NameLabel(l, cid.nodeId), Telemetry)])
    case UnknownH => Step(s, [TelemetryWarning(UnknownFunction(cid.functionCode, U64(data)))])
  }
}
