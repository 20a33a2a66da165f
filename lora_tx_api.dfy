/** Frame building on the LoRa transmitter (mila-embedded/src/telemetryTX/LoraTransmitAPI.cpp).
    A CAN frame is sent as two header bytes (the 11-bit id, a 4-bit data length and a flag
    saying an id extension follows), then 0 to 3 extension bytes carrying the id extension
    7 bits at a time, low group first, each with bit 7 set when another follows, then the
    data. The id extension comes from a decoder outside this model, as an input. */
module LoraTxApi {
  import opened Bits

  /** `maxCanHeaderSize`. */
  const MaxCanHeaderSize: nat := 5
  /** `maxCanData`. */
  const MaxCanData: nat := 8
  /** `maxLoraData`. */
  const MaxLoraData: nat := 15

  /** `parseExtIDSize`: how many 7-bit groups the extension is sent in (none for 0). */
  function ExtIdSize(ext: nat): (r: nat)
    ensures r <= 3
    ensures r == 0 <==> ext == 0
    ensures r == 1 <==> 0 < ext < 0x80
    ensures r == 2 <==> 0x80 <= ext < 0x4000
  {
    if ext == 0 then 0
    else if ext <= 0x7F then 1
    else if ext <= 0x3FFF then 2
    else 3
  }

  /** The n extension bytes of `writeID`: group i of 7 bits, with bit 7 set on all but
      the last. Bits of the extension above the n-th group are not sent. */
  function ExtBytes(ext: nat, n: nat): (r: seq<byte>)
    ensures |r| == n
    ensures forall i :: 0 <= i < n ==> (r[i] >= 0x80 <==> i < n - 1)
    decreases n
  {
    if n == 0 then []
    else [(ext % 0x80 + (if n > 1 then 0x80 else 0)) as byte] + ExtBytes(ext / 0x80, n - 1)
  }

  /** The bytes `writeID` writes for an id, its extension and a data length. */
  function IdHeader(id: nat, ext: nat, dataLen: nat): (r: seq<byte>)
    ensures |r| == 2 + ExtIdSize(ext) <= MaxCanHeaderSize
    ensures r[0] as nat == id % 0x100
    ensures r[1] as nat % 8 == id / 0x100 % 8 && r[1] as nat / 8 % 16 == dataLen % 16
    ensures (r[1] >= 0x80) <==> ext != 0
  {
    var size := ExtIdSize(ext);
    [(id % 0x100) as byte, (id / 0x100 % 8 + dataLen % 16 * 8 + (if size > 0 then 0x80 else 0)) as byte]
      + ExtBytes(ext, size)
  }

  /** Reads 7-bit groups, low group first, until a byte without bit 7 or `limit` bytes;
      gives the value and the number of bytes read. */
  function ReadExt(s: seq<byte>, limit: nat): (r: Option<(nat, nat)>)
    ensures r.Some? ==> 0 < r.value.1 <= limit && r.value.1 <= |s|
    decreases limit
  {
    if s == [] || limit == 0 then None
    else if s[0] < 0x80 then Some((s[0] as nat, 1))
    else match ReadExt(s[1..], limit - 1)
      case None => None
      case Some((v, n)) => Some(((s[0] as nat - 0x80) + 0x80 * v, n + 1))
  }

  /** A frame as the receiving end reads it back. */
  datatype LoraFrame = LoraFrame(id11: nat, ext: nat, dataLen: nat, data: seq<byte>)

  /** Reads a frame: the header, up to three extension bytes when the flag is set, then
      the data length's worth of bytes. */
  function ParseFrame(s: seq<byte>): (r: Option<LoraFrame>)
  {
    if |s| < 2 then None
    else
      var id11 := s[0] as nat + s[1] as nat % 8 * 0x100;
      var dataLen := s[1] as nat / 8 % 16;
      if s[1] < 0x80 then
        if |s| == 2 + dataLen then Some(LoraFrame(id11, 0, dataLen, s[2..])) else None
      else match ReadExt(s[2..], 3)
        case None => None
        case Some((ext, n)) =>
          if |s| == 2 + n + dataLen then Some(LoraFrame(id11, ext, dataLen, s[2 + n..])) else None
  }

  /** The ranges of one, two and three 7-bit groups. */
  lemma GroupRanges()
    ensures Pow2(7) == 0x80 && Pow2(14) == 0x4000 && Pow2(21) == 0x20_0000
  {
    Pow2Table();
    assert Pow2(14) == 0x4000 by { Pow2Add(7, 7); }
    assert Pow2(21) == 0x20_0000 by { Pow2Add(7, 14); }
  }

  lemma {:induction false} ReadExtBytes(ext: nat, n: nat, rest: seq<byte>, limit: nat)
    requires 0 < n <= limit && ext < Pow2(7 * n)
    ensures ReadExt(ExtBytes(ext, n) + rest, limit) == Some((ext, n))
    decreases n
  {
    var tail := ExtBytes(ext / 0x80, n - 1);
    var s := ExtBytes(ext, n) + rest;
    assert s == [(ext % 0x80 + (if n > 1 then 0x80 else 0)) as byte] + (tail + rest);
    if n == 1 {
      assert ext < 0x80 by { GroupRanges(); }
      assert s[0] as nat == ext;
    } else {
      assert ext / 0x80 < Pow2(7 * (n - 1)) by {
        Pow2Add(7, 7 * (n - 1));
        GroupRanges();
      }
      ReadExtBytes(ext / 0x80, n - 1, rest, limit - 1);
      assert s[1..] == tail + rest;
      assert s[0] as nat - 0x80 == ext % 0x80;
    }
  }

  /** The frame `protocolTransmitCANFrame` or `protocolTransmitOversizeFrame` builds. */
  function Frame(id: nat, ext: nat, data: seq<byte>): (r: seq<byte>)
    ensures |r| == 2 + ExtIdSize(ext) + |data|
    ensures r[2 + ExtIdSize(ext)..] == data
  {
    IdHeader(id, ext, |data|) + data
  }

  /** Round trip: for an extension below 2^21 and at most 15 data bytes, the frame reads
      back as the low 11 bits of the id, the extension and the data. */
  lemma {:induction false} FrameRoundTrip(id: nat, ext: nat, data: seq<byte>)
    requires ext < 0x20_0000 && |data| <= MaxLoraData
    ensures ParseFrame(Frame(id, ext, data)) == Some(LoraFrame(id % 0x800, ext, |data|, data))
  {
    var f := Frame(id, ext, data);
    var size := ExtIdSize(ext);
    var h := IdHeader(id, ext, |data|);
    assert f[..2] == h[..2];
    var lo, flag := id / 0x100 % 8, if size > 0 then 1 else 0;
    assert |data| % 16 == |data|;
    var b1 := f[1] as nat;
    assert b1 == lo + |data| * 8 + flag * 0x80;
    DivModUnique(b1, 8, |data| + flag * 0x10, lo);
    DivModUnique(b1 / 8, 16, flag, |data|);
    DivModUnique(id, 0x800, id / 0x800, id % 0x100 + lo * 0x100);
    if size > 0 {
      GroupRanges();
      assert 7 * size in {7, 14, 21};
      assert f[2..] == ExtBytes(ext, size) + data;
      ReadExtBytes(ext, size, data, 3);
    }
  }

  /** `writeID`: writes the header at `ptr` and returns the advanced pointer. */
  method WriteId(id: nat, ext: nat, dataLen: nat, buf: array<byte>, ptr: nat) returns (next: nat)
    requires ptr + 2 + ExtIdSize(ext) <= buf.Length
    modifies buf
    ensures next == ptr + 2 + ExtIdSize(ext) && next <= ptr + MaxCanHeaderSize
    ensures buf[..ptr] == old(buf[..ptr])
    ensures buf[ptr..next] == IdHeader(id, ext, dataLen)
    ensures buf[next..] == old(buf[next..])
  {
    var size := ExtIdSize(ext);
    ghost var header := IdHeader(id, ext, dataLen);
    buf[ptr] := (id % 0x100) as byte;
    buf[ptr + 1] := (id / 0x100 % 8 + dataLen % 16 * 8) as byte;
    if size > 0 {
      buf[ptr + 1] := buf[ptr + 1] + 0x80;
    }
    next := ptr + 2;
    var rest := ext;
    var left := size;
    while left > 0
      invariant 0 <= left <= size && next == ptr + 2 + (size - left)
      invariant ExtBytes(rest, left) == header[next - ptr..]
      invariant forall j :: ptr <= j < next ==> buf[j] == header[j - ptr]
      invariant forall j :: 0 <= j < ptr ==> buf[j] == old(buf[j])
      invariant forall j :: next <= j < buf.Length ==> buf[j] == old(buf[j])
    {
      ghost var tail := header[next - ptr..];
      assert tail[0] == (rest % 0x80 + (if left > 1 then 0x80 else 0)) as byte;
      assert tail[1..] == ExtBytes(rest / 0x80, left - 1);
      var b := rest % 0x80;
      rest := rest / 0x80;
      left := left - 1;
      if left > 0 {
        b := b + 0x80;
      }
      buf[next] := b as byte;
      next := next + 1;
    }
    forall j | 0 <= j < next - ptr
      ensures buf[ptr..next][j] == header[j]
    {
      assert buf[ptr + j] == header[ptr + j - ptr];
    }
    assert buf[..ptr] == old(buf[..ptr]);
    forall j | 0 <= j < buf.Length - next
      ensures buf[next..][j] == old(buf[next..])[j]
    {
      assert buf[next + j] == old(buf[next + j]);
    }
  }

  /** `protocolTransmitCANFrame`'s frame building into its 13-byte static buffer: None
      (the function returns false and nothing is queued) for more than 8 data bytes. */
  method BuildCanFrame(id: nat, ext: nat, data: seq<byte>) returns (frame: Option<seq<byte>>)
    ensures |data| > MaxCanData <==> frame.None?
    ensures frame.Some? ==> frame.value == Frame(id, ext, data)
  {
    if |data| > MaxCanData {
      return None;
    }
    var buf := new byte[MaxCanData + MaxCanHeaderSize];
    var bytes := FillFrame(id, ext, data, buf);
    frame := Some(bytes);
  }

  /** `protocolTransmitOversizeFrame`'s frame building into its 20-byte static buffer:
      None (dropped) for more than 15 data bytes. */
  method BuildOversizeFrame(id: nat, ext: nat, data: seq<byte>) returns (frame: Option<seq<byte>>)
    ensures |data| > MaxLoraData <==> frame.None?
    ensures frame.Some? ==> frame.value == Frame(id, ext, data)
  {
    if |data| > MaxLoraData {
      return None;
    }
    var buf := new byte[MaxCanHeaderSize + MaxLoraData];
    var bytes := FillFrame(id, ext, data, buf);
    frame := Some(bytes);
  }

  /** Header at the start of `buf`, then the data (`memcpy`), giving the bytes up to the
      final write pointer. */
  method FillFrame(id: nat, ext: nat, data: seq<byte>, buf: array<byte>) returns (frame: seq<byte>)
    requires MaxCanHeaderSize + |data| <= buf.Length
    modifies buf
    ensures frame == Frame(id, ext, data)
  {
    var ptr := WriteId(id, ext, |data|, buf, 0);
    CopyData(buf, ptr, data);
    frame := buf[..ptr + |data|];
    assert frame == frame[..ptr] + frame[ptr..];
  }

  /** The `memcpy` of the data behind the header. */
  method CopyData(buf: array<byte>, ptr: nat, data: seq<byte>)
    requires ptr + |data| <= buf.Length
    modifies buf
    ensures buf[..ptr] == old(buf[..ptr])
    ensures buf[ptr..ptr + |data|] == data
  {
    for k := 0 to |data|
      invariant forall j :: 0 <= j < ptr ==> buf[j] == old(buf[j])
      invariant forall j :: 0 <= j < k ==> buf[ptr + j] == data[j]
    {
      buf[ptr + k] := data[k];
    }
  }
}
