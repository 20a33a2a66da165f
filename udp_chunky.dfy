/** The still-image sender of the reverse camera (reverse-camera/UDPSENDCHUNKY.py): a file is
    cut into 1340-byte slices, and each slice is sent as one datagram behind an 8-byte
    network-order header (file id, number of slices, slice index). */
module UdpChunky {
  import opened Bits
  import opened Chunking

  /** Bytes of file data per datagram (`PAYLOAD`). */
  const Payload: nat := 1340

  /** The file id every datagram carries. */
  const FileId: nat := 1

  /** `struct.pack("!IHH", file_id, chunk_tot, idx)`. */
  function ChunkHeader(fileId: nat, total: nat, idx: nat): (r: seq<byte>)
    requires fileId < 0x1_0000_0000 && total < 0x1_0000 && idx < 0x1_0000
    ensures |r| == 8
  {
    ToBE(fileId, 4) + ToBE(total, 2) + ToBE(idx, 2)
  }

  /** What a receiver reads back from a datagram: the three header fields and the data. */
  datatype Chunk = Chunk(fileId: nat, total: nat, idx: nat, data: seq<byte>)

  function ParseDatagram(d: seq<byte>): (r: Option<Chunk>)
    ensures r.Some? <==> |d| >= 8
  {
    if |d| < 8 then None
    else Some(Chunk(BE(d[..4]), BE(d[4..6]), BE(d[6..8]), d[8..]))
  }

  /** Every datagram the sender builds parses back to the header values and the slice. */
  lemma {:induction false} HeaderRoundTrip(fileId: nat, total: nat, idx: nat, data: seq<byte>)
    requires fileId < 0x1_0000_0000 && total < 0x1_0000 && idx < 0x1_0000
    ensures ParseDatagram(ChunkHeader(fileId, total, idx) + data) == Some(Chunk(fileId, total, idx, data))
  {
    Pow2Table();
    var d := ChunkHeader(fileId, total, idx) + data;
    assert d[..4] == ToBE(fileId, 4);
    assert d[4..6] == ToBE(total, 2);
    assert d[6..8] == ToBE(idx, 2);
    assert d[8..] == data;
    BEToBE(fileId, 4);
    BEToBE(total, 2);
    BEToBE(idx, 2);
  }

  /** The datagrams of a file small enough for a 16-bit slice count, in sending order. */
  function Datagrams(blob: seq<byte>): (r: seq<seq<byte>>)
    requires ChunkCount(|blob|, Payload) < 0x1_0000
    ensures |r| == ChunkCount(|blob|, Payload)
  {
    var total := ChunkCount(|blob|, Payload);
    seq(total, i requires 0 <= i < total => ChunkHeader(FileId, total, i) + Slice(blob, Payload, i))
  }

  /** The datagrams carry the slices 0, 1, ... in order, and joining their data gives the
      file back. */
  lemma {:induction false} DatagramsCarryFile(blob: seq<byte>)
    requires ChunkCount(|blob|, Payload) < 0x1_0000
    ensures forall i :: 0 <= i < |Datagrams(blob)| ==>
      ParseDatagram(Datagrams(blob)[i]) == Some(Chunk(FileId, ChunkCount(|blob|, Payload), i, Slice(blob, Payload, i)))
    ensures Joined(blob, Payload, ChunkCount(|blob|, Payload)) == blob
  {
    var total := ChunkCount(|blob|, Payload);
    forall i | 0 <= i < total
      ensures ParseDatagram(Datagrams(blob)[i]) == Some(Chunk(FileId, total, i, Slice(blob, Payload, i)))
    {
      HeaderRoundTrip(FileId, total, i, Slice(blob, Payload, i));
    }
    Reassembles(blob, Payload);
  }

  /** The sending loop. `struct.pack` raises on a slice count above 65535 before the
      first datagram leaves, so then nothing is sent and `ok` is false. */
  method SendFile(blob: seq<byte>) returns (sent: seq<seq<byte>>, ok: bool)
    ensures ok <==> ChunkCount(|blob|, Payload) < 0x1_0000
    ensures ok ==> sent == Datagrams(blob)
    ensures !ok ==> sent == []
  {
    var total := (|blob| + Payload - 1) / Payload;
    sent := [];
    for idx := 0 to total
      invariant total < 0x1_0000 ==> sent == Datagrams(blob)[..idx]
      invariant total >= 0x1_0000 ==> sent == []
    {
      var part := blob[idx * Payload .. Min((idx + 1) * Payload, |blob|)];
      if total >= 0x1_0000 {
        ok := false;
        return;
      }
      var header := ToBE(FileId, 4) + ToBE(total, 2) + ToBE(idx, 2);
      sent := sent + [header + part];
    }
    ok := total < 0x1_0000;
    if ok {
      assert Datagrams(blob)[..total] == Datagrams(blob);
    }
  }
}
