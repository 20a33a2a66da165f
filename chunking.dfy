/** Cutting a byte string into consecutive fixed-size slices, the last one possibly short,
    as both reverse-camera senders do with Python slicing. */
module Chunking {
  import opened Bits

  /** `math.ceil(n / size)`: the fewest slices of `size` bytes that cover n bytes. */
  function ChunkCount(n: nat, size: nat): (r: nat)
    requires size > 0
    ensures r * size >= n
    ensures r > 0 ==> (r - 1) * size < n
    ensures n == 0 <==> r == 0
  {
    (n + size - 1) / size
  }

  /** `blob[idx*size : (idx+1)*size]`, with Python's clamping of the end index. */
  function Slice(blob: seq<byte>, size: nat, idx: nat): (r: seq<byte>)
    requires size > 0 && idx < ChunkCount(|blob|, size)
    ensures 0 < |r| <= size
    ensures idx + 1 < ChunkCount(|blob|, size) ==> |r| == size
    ensures idx + 1 == ChunkCount(|blob|, size) ==> idx * size + |r| == |blob|
  {
    blob[idx * size .. Min((idx + 1) * size, |blob|)]
  }

  /** The first k slices, joined in index order. */
  function Joined(blob: seq<byte>, size: nat, k: nat): seq<byte>
    requires size > 0 && k <= ChunkCount(|blob|, size)
  {
    if k == 0 then [] else Joined(blob, size, k - 1) + Slice(blob, size, k - 1)
  }

  /** Slice idx starts inside the byte string. */
  lemma SliceStart(n: nat, size: nat, idx: nat)
    requires size > 0 && idx < ChunkCount(n, size)
    ensures idx * size < n
  {
    var c := ChunkCount(n, size);
    assert idx * size <= (c - 1) * size;
  }

  /** The first k slices are exactly the first k * size bytes (or all of them). */
  lemma {:induction false} JoinedIsPrefix(blob: seq<byte>, size: nat, k: nat)
    requires size > 0 && k <= ChunkCount(|blob|, size)
    ensures Joined(blob, size, k) == blob[..Min(k * size, |blob|)]
  {
    if k > 0 {
      JoinedIsPrefix(blob, size, k - 1);
      var start := (k - 1) * size;
      SliceStart(|blob|, size, k - 1);
      assert k * size == start + size;
      assert blob[..start] + blob[start..Min(start + size, |blob|)] == blob[..Min(start + size, |blob|)];
    }
  }

  /** Joining all slices in index order gives the byte string back. */
  lemma Reassembles(blob: seq<byte>, size: nat)
    requires size > 0
    ensures Joined(blob, size, ChunkCount(|blob|, size)) == blob
  {
    JoinedIsPrefix(blob, size, ChunkCount(|blob|, size));
    assert blob[..|blob|] == blob;
  }
}
