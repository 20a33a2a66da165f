/** The dashboard's metadata registry (telem-dashboard/src/main/java/TelemetryLookup.java):
    three maps keyed by node, by (node, frame) and by (node, frame, data point), filled from
    the rows of the telemetry table and read by the CAN decoder. The table's rows are taken
    here with their integer columns already parsed. */
module TelemetryLookup {
  import opened Bits
  import opened IntConst

  datatype Node = Node(nodeId: int, nodeName: string)
  datatype CanFrame = CanFrame(frameIndex: int, dataTimeout: int, numData: int)
  datatype DataInfo = DataInfo(dataIndex: int, dataName: string, bitLength: int, min: int, max: int,
                               minWarning: int, maxWarning: int, minCritical: int, maxCritical: int)
  datatype FrameKey = FrameKey(nodeId: int, frameIndex: int)
  datatype DataKey = DataKey(nodeId: int, frameIndex: int, dataIndex: int)
  datatype Commitment = Commitment(node: Node, frame: CanFrame, data: DataInfo)

  /** One row of the telemetry table. */
  datatype Row = Row(nodeId: int, frameIndex: int, dataIndex: int, nodeName: string,
                     dataTimeout: int, numData: int, dataName: string, bitLength: int,
                     min: int, max: int, minWarning: int, maxWarning: int,
                     minCritical: int, maxCritical: int)

  /** The three records a row yields. */
  function NodeOf(r: Row): Node
  {
    Node(r.nodeId, r.nodeName)
  }

  function FrameOf(r: Row): CanFrame
  {
    CanFrame(r.frameIndex, r.dataTimeout, r.numData)
  }

  function DataOf(r: Row): DataInfo
  {
    DataInfo(r.dataIndex, r.dataName, r.bitLength, r.min, r.max,
             r.minWarning, r.maxWarning, r.minCritical, r.maxCritical)
  }

  /** A sequence of `putIfAbsent(k, v)` calls on an empty map. */
  function FirstWins<K(==), V>(es: seq<(K, V)>): map<K, V>
    decreases |es|
  {
    if es == [] then map[]
    else
      var m := FirstWins(es[..|es| - 1]);
      var e := es[|es| - 1];
      if e.0 in m then m else m[e.0 := e.1]
  }

  /** A sequence of `put(k, v)` calls on an empty map. */
  function LastWins<K(==), V>(es: seq<(K, V)>): map<K, V>
    decreases |es|
  {
    if es == [] then map[]
    else
      var e := es[|es| - 1];
      LastWins(es[..|es| - 1])[e.0 := e.1]
  }

  /** The index of the first entry with key k, or -1. */
  function FirstWith<K(==), V>(es: seq<(K, V)>, k: K): (r: int)
    ensures -1 <= r < |es|
    ensures r >= 0 ==> es[r].0 == k
    ensures forall j :: 0 <= j < |es| && (r < 0 || j < r) ==> es[j].0 != k
    decreases |es|
  {
    if es == [] then -1
    else
      var r := FirstWith(es[..|es| - 1], k);
      if r >= 0 then r else if es[|es| - 1].0 == k then |es| - 1 else -1
  }

  /** The index of the last entry with key k, or -1. */
  function LastWith<K(==), V>(es: seq<(K, V)>, k: K): (r: int)
    ensures -1 <= r < |es|
    ensures r >= 0 ==> es[r].0 == k
    ensures forall j :: r < j < |es| ==> es[j].0 != k
    decreases |es|
  {
    if es == [] then -1
    else if es[|es| - 1].0 == k then |es| - 1
    else LastWith(es[..|es| - 1], k)
  }

  /** `putIfAbsent`: a key is present once some entry carries it, and it keeps the value of
      the first such entry. */
  lemma {:induction false} FirstWinsKeepsFirst<K, V>(es: seq<(K, V)>, k: K)
    ensures k in FirstWins(es) <==> FirstWith(es, k) >= 0
    ensures k in FirstWins(es) ==> FirstWins(es)[k] == es[FirstWith(es, k)].1
    decreases |es|
  {
    if es != [] {
      var init := es[..|es| - 1];
      FirstWinsKeepsFirst(init, k);
      if FirstWith(init, k) >= 0 {
        assert es[FirstWith(init, k)] == init[FirstWith(init, k)];
      }
    }
  }

  /** `put`: a key is present once some entry carries it, and it holds the value of the last
      such entry. */
  lemma {:induction false} LastWinsKeepsLast<K, V>(es: seq<(K, V)>, k: K)
    ensures k in LastWins(es) <==> LastWith(es, k) >= 0
    ensures k in LastWins(es) ==> LastWins(es)[k] == es[LastWith(es, k)].1
    decreases |es|
  {
    if es != [] {
      var init := es[..|es| - 1];
      LastWinsKeepsLast(init, k);
      if es[|es| - 1].0 != k && LastWith(init, k) >= 0 {
        assert es[LastWith(init, k)] == init[LastWith(init, k)];
      }
    }
  }

  /** The entries `loadInto` offers each map, one per row in table order. */
  function NodeEntries(rows: seq<Row>): (r: seq<(int, Node)>)
    ensures |r| == |rows|
  {
    seq(|rows|, i requires 0 <= i < |rows| => (rows[i].nodeId, NodeOf(rows[i])))
  }

  function FrameEntries(rows: seq<Row>): (r: seq<(FrameKey, CanFrame)>)
    ensures |r| == |rows|
  {
    seq(|rows|, i requires 0 <= i < |rows| => (FrameKey(rows[i].nodeId, rows[i].frameIndex), FrameOf(rows[i])))
  }

  function DataEntries(rows: seq<Row>): (r: seq<(DataKey, DataInfo)>)
    ensures |r| == |rows|
  {
    seq(|rows|, i requires 0 <= i < |rows| => (DataKey(rows[i].nodeId, rows[i].frameIndex, rows[i].dataIndex), DataOf(rows[i])))
  }

  lemma EntriesSnoc(rows: seq<Row>, i: nat)
    requires i < |rows|
    ensures NodeEntries(rows[..i + 1]) == NodeEntries(rows[..i]) + [(rows[i].nodeId, NodeOf(rows[i]))]
    ensures FrameEntries(rows[..i + 1]) == FrameEntries(rows[..i]) + [(FrameKey(rows[i].nodeId, rows[i].frameIndex), FrameOf(rows[i]))]
    ensures DataEntries(rows[..i + 1]) == DataEntries(rows[..i]) + [(DataKey(rows[i].nodeId, rows[i].frameIndex, rows[i].dataIndex), DataOf(rows[i]))]
  {
  }

  /** Every data key has its frame, and every frame its node. */
  ghost predicate Closed(nodes: map<int, Node>, frames: map<FrameKey, CanFrame>, data: map<DataKey, DataInfo>)
  {
    (forall fk :: fk in frames ==> fk.nodeId in nodes) &&
    (forall dk :: dk in data ==> FrameKey(dk.nodeId, dk.frameIndex) in frames)
  }

  /** A chart title cut at its first '.': the part before and the part after. */
  function SplitTitle(t: string): (string, string)
    decreases |t|
  {
    if t == [] then ("", "")
    else if t[0] == '.' then ("", t[1..])
    else
      var rest := SplitTitle(t[1..]);
      ([t[0]] + rest.0, rest.1)
  }

  lemma {:induction false} SplitAfterDotFree(a: string, b: string)
    requires '.' !in a
    ensures SplitTitle(a + "." + b) == (a, b)
    decreases |a|
  {
    if a == [] {
      assert a + "." + b == ['.'] + b;
    } else {
      SplitAfterDotFree(a[1..], b);
      assert a[0] in a;
      assert (a + "." + b)[1..] == a[1..] + "." + b;
      assert [a[0]] + a[1..] == a;
    }
  }

  /** The registry. Only `loadInto`, run once by the constructor, writes the maps. */
  class Lookup {
    var nodesById: map<int, Node>
    var framesById: map<FrameKey, CanFrame>
    var dataById: map<DataKey, DataInfo>
    /** The fields of the generated `Constants.specialIDs` class. */
    const specialIds: seq<FieldDecl>

    /** Builds the registry from the table's rows. */
    constructor (rows: seq<Row>, specialIds: seq<FieldDecl>)
      ensures this.specialIds == specialIds
      ensures nodesById == FirstWins(NodeEntries(rows))
      ensures framesById == FirstWins(FrameEntries(rows))
      ensures dataById == LastWins(DataEntries(rows))
      ensures Closed(nodesById, framesById, dataById)
    {
      nodesById, framesById, dataById := map[], map[], map[];
      this.specialIds := specialIds;
      new;
      LoadInto(rows);
    }

    /** `loadInto`: for each row in order, `putIfAbsent` its node and its frame and `put` its
        data point. */
    method LoadInto(rows: seq<Row>)
      requires nodesById == map[] && framesById == map[] && dataById == map[]
      modifies this
      ensures nodesById == FirstWins(NodeEntries(rows))
      ensures framesById == FirstWins(FrameEntries(rows))
      ensures dataById == LastWins(DataEntries(rows))
      ensures Closed(nodesById, framesById, dataById)
    {
      for i := 0 to |rows|
        invariant nodesById == FirstWins(NodeEntries(rows[..i]))
        invariant framesById == FirstWins(FrameEntries(rows[..i]))
        invariant dataById == LastWins(DataEntries(rows[..i]))
        invariant Closed(nodesById, framesById, dataById)
      {
        var rec := rows[i];
        EntriesSnoc(rows, i);
        if rec.nodeId !in nodesById {
          nodesById := nodesById[rec.nodeId := NodeOf(rec)];
        }
        var fk := FrameKey(rec.nodeId, rec.frameIndex);
        if fk !in framesById {
          framesById := framesById[fk := FrameOf(rec)];
        }
        var dk := DataKey(rec.nodeId, rec.frameIndex, rec.dataIndex);
        dataById := dataById[dk := DataOf(rec)];
      }
      assert rows[..|rows|] == rows;
    }

    /** `getNodeById`. */
    function GetNodeById(nodeId: int): (r: Option<Node>)
      reads this
      ensures r.Some? <==> nodeId in nodesById
      ensures r.Some? ==> r.value == nodesById[nodeId]
    {
      if nodeId in nodesById then Some(nodesById[nodeId]) else None
    }

    /** `getFrame`. */
    function GetFrame(nodeId: int, frameIndex: int): (r: Option<CanFrame>)
      reads this
      ensures r.Some? <==> FrameKey(nodeId, frameIndex) in framesById
      ensures r.Some? ==> r.value == framesById[FrameKey(nodeId, frameIndex)]
    {
      var fk := FrameKey(nodeId, frameIndex);
      if fk in framesById then Some(framesById[fk]) else None
    }

    /** `getDataInfo`, by components or by key. */
    function GetDataInfo(key: DataKey): (r: Option<DataInfo>)
      reads this
      ensures r.Some? <==> key in dataById
      ensures r.Some? ==> r.value == dataById[key]
    {
      if key in dataById then Some(dataById[key]) else None
    }

    /** `getCommitmentById`: all three entries, or nothing. */
    function GetCommitmentById(key: DataKey): (r: Option<Commitment>)
      reads this
      ensures r.Some? <==> key.nodeId in nodesById && FrameKey(key.nodeId, key.frameIndex) in framesById && key in dataById
      ensures r.Some? ==> r.value.node == nodesById[key.nodeId] && r.value.data == dataById[key]
      ensures r.Some? ==> r.value.frame == framesById[FrameKey(key.nodeId, key.frameIndex)]
    {
      var n := GetNodeById(key.nodeId);
      var f := GetFrame(key.nodeId, key.frameIndex);
      var d := GetDataInfo(key);
      if n.Some? && f.Some? && d.Some? then Some(Commitment(n.value, f.value, d.value)) else None
    }

    /** The node half of a title: the node's name, or "node" and its id. */
    function NodePart(nodeId: int): string
      reads this
    {
      if nodeId in nodesById then nodesById[nodeId].nodeName else "node" + Decimal(nodeId)
    }

    /** The data half of a title: the data point's name, or "dp" and its index. */
    function DataPart(key: DataKey): string
      reads this
    {
      if key in dataById then dataById[key].dataName else "dp" + Decimal(key.dataIndex)
    }

    /** `titleFor`: "<node part>.<data part>". */
    function TitleFor(key: DataKey): (r: string)
      reads this
      ensures '.' !in NodePart(key.nodeId) ==> SplitTitle(r) == (NodePart(key.nodeId), DataPart(key))
      ensures |r| > |NodePart(key.nodeId)| && r[|NodePart(key.nodeId)|] == '.'
    {
      SplitAfterDotFreeWhenAble(NodePart(key.nodeId), DataPart(key));
      NodePart(key.nodeId) + "." + DataPart(key)
    }

    /** `getNodeName`: the node table first, then the special-ID name table. */
    function GetNodeName(nodeId: int): (r: Option<string>)
      reads this
      ensures nodeId in nodesById ==> r == Some(nodesById[nodeId].nodeName)
      ensures nodeId !in nodesById ==> r == NameIn(TableOf(specialIds), nodeId)
    {
      var n := GetNodeById(nodeId);
      if n.Some? then Some(n.value.nodeName) else NameIn(TableOf(specialIds), nodeId)
    }

    /** In a registry whose maps are closed, a commitment exists exactly for the data keys. */
    lemma CommitmentIffDataPoint(key: DataKey)
      requires Closed(nodesById, framesById, dataById)
      ensures GetCommitmentById(key).Some? <==> key in dataById
    {
      if key in dataById {
        assert FrameKey(key.nodeId, key.frameIndex) in framesById;
      }
    }

    /** A node without a row is named by the last special-ID constant holding its id, if any. */
    lemma NodeNameSources(nodeId: int)
      ensures GetNodeName(nodeId).Some? <==> nodeId in nodesById || LastHolder(specialIds, nodeId) >= 0
      ensures nodeId !in nodesById && LastHolder(specialIds, nodeId) >= 0 ==>
                GetNodeName(nodeId) == Some(specialIds[LastHolder(specialIds, nodeId)].name)
    {
      TableOfLaterWins(specialIds, nodeId);
    }
  }

  lemma SplitAfterDotFreeWhenAble(a: string, b: string)
    ensures '.' !in a ==> SplitTitle(a + "." + b) == (a, b)
    ensures (a + "." + b)[|a|] == '.'
  {
    if '.' !in a {
      SplitAfterDotFree(a, b);
    }
  }

  /** What a registry built from rows answers: the first row of a node gives its Node, the
      first row of a (node, frame) pair its CanFrame, the last row of a data key its DataInfo,
      and a commitment exists exactly for the data keys some row carries. */
  lemma LoadedAnswers(l: Lookup, rows: seq<Row>, key: DataKey)
    requires l.nodesById == FirstWins(NodeEntries(rows))
    requires l.framesById == FirstWins(FrameEntries(rows))
    requires l.dataById == LastWins(DataEntries(rows))
    requires Closed(l.nodesById, l.framesById, l.dataById)
    ensures var i := FirstWith(NodeEntries(rows), key.nodeId);
      l.GetNodeById(key.nodeId) == if i < 0 then None else Some(NodeOf(rows[i]))
    ensures var i := FirstWith(FrameEntries(rows), FrameKey(key.nodeId, key.frameIndex));
      l.GetFrame(key.nodeId, key.frameIndex) == if i < 0 then None else Some(FrameOf(rows[i]))
    ensures var i := LastWith(DataEntries(rows), key);
      l.GetDataInfo(key) == if i < 0 then None else Some(DataOf(rows[i]))
    ensures l.GetCommitmentById(key).Some? <==> LastWith(DataEntries(rows), key) >= 0
  {
    FirstWinsKeepsFirst(NodeEntries(rows), key.nodeId);
    FirstWinsKeepsFirst(FrameEntries(rows), FrameKey(key.nodeId, key.frameIndex));
    LastWinsKeepsLast(DataEntries(rows), key);
    l.CommitmentIffDataPoint(key);
  }

  /** A title built from the fallbacks gives back the ids it was built from. */
  lemma UnknownTitleGivesIds(l: Lookup, key: DataKey)
    requires key.nodeId !in l.nodesById && key !in l.dataById
    ensures var parts := SplitTitle(l.TitleFor(key));
      parts.0[..4] == "node" && DecimalValue(parts.0[4..]) == key.nodeId &&
      parts.1[..2] == "dp" && DecimalValue(parts.1[2..]) == key.dataIndex
  {
    var a, b := Decimal(key.nodeId), Decimal(key.dataIndex);
    assert '.' !in "node" + a;
    assert ("node" + a)[4..] == a;
    assert ("dp" + b)[2..] == b;
    DecimalRoundTrip(key.nodeId);
    DecimalRoundTrip(key.dataIndex);
  }
}
