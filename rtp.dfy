/** The reverse-camera video link (reverse-camera/sender.py, reverse-camera/receiver.py):
    each JPEG frame is cut into slices of at most 1400 bytes, each slice is sent behind the
    12-byte fixed RTP header of section 5.1 of RFC 3550 (version 2, no padding, no
    extension, no CSRC), all slices of a frame share one timestamp and the last one carries
    the marker bit. The receiver keeps one reassembly state per SSRC. */
module Rtp {
  import opened Bits
  import opened Chunking

  /** `PAYLOAD_PT`: the dynamic payload type both ends use. */
  const PayloadType: nat := 96

  /** `MTU_PAYLOAD`: the largest slice of a frame in one packet. */
  const MtuPayload: nat := 1400

  const Seq16: nat := 0x1_0000
  const Word32: nat := 0x1_0000_0000

  /** The first header word: version 2 in the top two bits, the marker in bit 7 and the
      payload type in bits 0..6. */
  function FirstWord(marker: bool, payloadType: int): (r: nat)
    ensures r < Seq16
  {
    2 * 0x4000 + (if marker then 0x80 else 0) + payloadType % 0x80
  }

  /** `build_rtp_header`: seq, timestamp and ssrc are masked to 16, 32 and 32 bits and
      written in network order. */
  function BuildRtpHeader(seqNo: int, timestamp: int, ssrc: int, marker: bool, payloadType: int): (r: seq<byte>)
    ensures |r| == 12
  {
    ToBE(FirstWord(marker, payloadType), 2) + ToBE(seqNo % Seq16, 2) + ToBE(timestamp % Word32, 4)
      + ToBE(ssrc % Word32, 4)
  }

  /** The tuple `parse_rtp` returns. */
  datatype RtpPacket = RtpPacket(seqNo: nat, timestamp: nat, ssrc: nat, marker: bool, payloadType: nat,
                                 payload: seq<byte>)

  /** `parse_rtp`: None for a packet shorter than the fixed header or whose version field
      is not 2; otherwise the header fields and the rest as payload. */
  function ParseRtp(pkt: seq<byte>): (r: Option<RtpPacket>)
    ensures |pkt| < 12 ==> r.None?
    ensures r.Some? ==> r.value.payload == pkt[12..] && r.value.payloadType < 0x80
    ensures r.Some? ==> r.value.seqNo < Seq16 && r.value.timestamp < Word32 && r.value.ssrc < Word32
  {
    if |pkt| < 12 then None
    else
      var first := BE(pkt[..2]);
      if first / 0x4000 % 4 != 2 then None
      else
        Pow2Table();
        Some(RtpPacket(BE(pkt[2..4]), BE(pkt[4..8]), BE(pkt[8..12]), first / 0x80 % 2 == 1, first % 0x80,
                       pkt[12..]))
  }

  lemma FirstWordFields(marker: bool, payloadType: int)
    ensures FirstWord(marker, payloadType) / 0x4000 % 4 == 2
    ensures (FirstWord(marker, payloadType) / 0x80 % 2 == 1) == marker
    ensures FirstWord(marker, payloadType) % 0x80 == payloadType % 0x80
  {
    var m := if marker then 1 else 0;
    var w := FirstWord(marker, payloadType);
    DivModUnique(w, 0x4000, 2, m * 0x80 + payloadType % 0x80);
    DivModUnique(w, 0x80, 0x100 + m, payloadType % 0x80);
  }

  /** Parsing a built header recovers the masked fields and the payload. */
  lemma {:induction false} HeaderRoundTrip(seqNo: int, timestamp: int, ssrc: int, marker: bool,
                                           payloadType: int, payload: seq<byte>)
    ensures ParseRtp(BuildRtpHeader(seqNo, timestamp, ssrc, marker, payloadType) + payload)
      == Some(RtpPacket(seqNo % Seq16, timestamp % Word32, ssrc % Word32, marker, payloadType % 0x80, payload))
  {
    Pow2Table();
    var first := FirstWord(marker, payloadType);
    var pkt := BuildRtpHeader(seqNo, timestamp, ssrc, marker, payloadType) + payload;
    ConcatParts(ToBE(first, 2), ToBE(seqNo % Seq16, 2), ToBE(timestamp % Word32, 4), ToBE(ssrc % Word32, 4), payload);
    BEToBE(first, 2);
    BEToBE(seqNo % Seq16, 2);
    BEToBE(timestamp % Word32, 4);
    BEToBE(ssrc % Word32, 4);
    FirstWordFields(marker, payloadType);
  }

  /** The packets of one JPEG frame: slice i goes with sequence number seqNo + i (mod 2^16),
      the frame's timestamp, and the marker on the last slice only. */
  function FramePackets(jpg: seq<byte>, seqNo: int, timestamp: int, ssrc: int): (r: seq<seq<byte>>)
    ensures |r| == ChunkCount(|jpg|, MtuPayload)
  {
    var k := ChunkCount(|jpg|, MtuPayload);
    seq(k, i requires 0 <= i < k =>
      BuildRtpHeader(seqNo + i, timestamp, ssrc, i == k - 1, PayloadType) + Slice(jpg, MtuPayload, i))
  }

  /** Packet i of a frame parses to sequence number seqNo + i (mod 2^16), the frame's
      timestamp, payload type 96, the marker exactly on the last packet, and slice i. */
  lemma {:induction false} PacketParses(jpg: seq<byte>, seqNo: int, timestamp: int, ssrc: int, i: nat)
    requires i < |FramePackets(jpg, seqNo, timestamp, ssrc)|
    ensures ParseRtp(FramePackets(jpg, seqNo, timestamp, ssrc)[i])
      == Some(RtpPacket((seqNo + i) % Seq16, timestamp % Word32, ssrc % Word32,
                        i == |FramePackets(jpg, seqNo, timestamp, ssrc)| - 1, PayloadType,
                        Slice(jpg, MtuPayload, i)))
  {
    assert PayloadType % 0x80 == PayloadType;
    var k := ChunkCount(|jpg|, MtuPayload);
    var pkt := BuildRtpHeader(seqNo + i, timestamp, ssrc, i == k - 1, PayloadType) + Slice(jpg, MtuPayload, i);
    assert FramePackets(jpg, seqNo, timestamp, ssrc)[i] == pkt;
    HeaderRoundTrip(seqNo + i, timestamp, ssrc, i == k - 1, PayloadType, Slice(jpg, MtuPayload, i));
  }

  /** What the receiver reads from the packets of a frame: consecutive sequence numbers,
      one timestamp, payload type 96, the marker on the last packet only, and slices that
      join back into the JPEG. */
  lemma {:induction false} FramePacketsParse(jpg: seq<byte>, seqNo: int, timestamp: int, ssrc: int)
    ensures forall i :: 0 <= i < |FramePackets(jpg, seqNo, timestamp, ssrc)| ==>
      ParseRtp(FramePackets(jpg, seqNo, timestamp, ssrc)[i])
        == Some(RtpPacket((seqNo + i) % Seq16, timestamp % Word32, ssrc % Word32,
                          i == |FramePackets(jpg, seqNo, timestamp, ssrc)| - 1, PayloadType,
                          Slice(jpg, MtuPayload, i)))
    ensures Joined(jpg, MtuPayload, |FramePackets(jpg, seqNo, timestamp, ssrc)|) == jpg
  {
    forall i | 0 <= i < |FramePackets(jpg, seqNo, timestamp, ssrc)|
      ensures ParseRtp(FramePackets(jpg, seqNo, timestamp, ssrc)[i])
        == Some(RtpPacket((seqNo + i) % Seq16, timestamp % Word32, ssrc % Word32,
                          i == |FramePackets(jpg, seqNo, timestamp, ssrc)| - 1, PayloadType,
                          Slice(jpg, MtuPayload, i)))
    {
      PacketParses(jpg, seqNo, timestamp, ssrc, i);
    }
    Reassembles(jpg, MtuPayload);
  }

  /** The sender state the frame loop carries from one frame to the next. */
  datatype SenderState = SenderState(seqNo: nat, timestamp: nat)

  /** One pass of the frame loop body after encoding: a missing or empty JPEG is skipped
      (`continue`, nothing advances); otherwise the frame is packetised, seq advances by one
      per packet and the timestamp by `tsInc`, both wrapping. */
  method SendFrame(jpg: Option<seq<byte>>, st: SenderState, ssrc: nat, tsInc: nat)
    returns (sent: seq<seq<byte>>, next: SenderState)
    requires st.seqNo < Seq16 && st.timestamp < Word32
    ensures jpg.None? || jpg.value == [] ==> sent == [] && next == st
    ensures jpg.Some? && jpg.value != [] ==>
      sent == FramePackets(jpg.value, st.seqNo, st.timestamp, ssrc) &&
      next == SenderState((st.seqNo + |sent|) % Seq16, (st.timestamp + tsInc) % Word32)
  {
    sent := [];
    next := st;
    if jpg.None? || jpg.value == [] {
      return;
    }
    var data := jpg.value;
    var n := |data|;
    var off := 0;
    var seqNo := st.seqNo;
    ghost var k := ChunkCount(n, MtuPayload);
    ghost var all := FramePackets(data, st.seqNo, st.timestamp, ssrc);
    while off < n
      invariant |sent| <= k
      invariant off == Min(|sent| * MtuPayload, n)
      invariant sent == all[..|sent|]
      invariant seqNo == (st.seqNo + |sent|) % Seq16
      decreases n - off
    {
      ghost var i := |sent|;
      assert i < k;
      SliceStart(n, MtuPayload, i);
      var chunk := data[off..Min(off + MtuPayload, n)];
      assert chunk == Slice(data, MtuPayload, i);
      off := off + |chunk|;
      var marker := off >= n;
      assert marker == (i == k - 1);
      ModOfSum(st.seqNo + i, 0, Seq16);
      ModOfSum(st.seqNo + i, 1, Seq16);
      var hdr := BuildRtpHeader(seqNo, st.timestamp, ssrc, marker, PayloadType);
      assert hdr + chunk == all[i];
      PrefixSnoc(all, i + 1);
      sent := sent + [hdr + chunk];
      seqNo := (seqNo + 1) % Seq16;
    }
    FullPrefix(all);
    next := SenderState(seqNo, (st.timestamp + tsInc) % Word32);
  }

  /** Everything `maybe_display` and the timeout sweep touch of a `StreamState`. */
  datatype Stream = Stream(currentTs: Option<nat>, packets: seq<seq<byte>>, complete: bool)

  /** A stream as `StreamState()` creates it, and as `maybe_display` leaves it. */
  const Idle: Stream := Stream(None, [], false)

  function Concat(ps: seq<seq<byte>>): seq<byte>
  {
    if ps == [] then [] else Concat(ps[..|ps| - 1]) + ps[|ps| - 1]
  }

  /** `maybe_display`: a complete frame's joined payloads go to the JPEG decoder; either way
      the stream ends idle. */
  function MaybeDisplay(st: Stream): (r: (Stream, Option<seq<byte>>))
    ensures r.0 == Idle
    ensures r.1.Some? <==> st.complete
    ensures st.complete ==> r.1 == Some(Concat(st.packets))
  {
    (Idle, if st.complete then Some(Concat(st.packets)) else None)
  }

  /** The reassembly step for one accepted packet: a new timestamp (or no frame in
      progress) flushes the frame in progress and starts a new one; the same timestamp
      appends, and a marker completes the frame. */
  function Accept(st: Stream, p: RtpPacket): (r: (Stream, Option<seq<byte>>))
    ensures r.0.currentTs == Some(p.timestamp)
    ensures r.0.packets != [] && r.0.packets[|r.0.packets| - 1] == p.payload
    ensures p.marker ==> r.0.complete
    ensures st.currentTs == Some(p.timestamp) ==>
      r.1.None? && r.0.packets == st.packets + [p.payload] && r.0.complete == (st.complete || p.marker)
    ensures st.currentTs != Some(p.timestamp) ==>
      r.0 == Stream(Some(p.timestamp), [p.payload], p.marker) &&
      r.1 == (if st.currentTs.Some? then MaybeDisplay(st).1 else None)
  {
    if st.currentTs.None? || p.timestamp != st.currentTs.value then
      (Stream(Some(p.timestamp), [p.payload], p.marker), if st.currentTs.Some? then MaybeDisplay(st).1 else None)
    else
      (Stream(st.currentTs, st.packets + [p.payload], st.complete || p.marker), None)
  }

  /** The frame `maybe_display` hands to the decoder, as a list of zero or one frames. */
  function MaybeDisplayed(st: Stream): seq<seq<byte>>
  {
    AsList(MaybeDisplay(st).1)
  }

  function AsList(o: Option<seq<byte>>): seq<seq<byte>>
  {
    if o.Some? then [o.value] else []
  }

  function StreamOf(streams: map<nat, Stream>, ssrc: nat): Stream
  {
    if ssrc in streams then streams[ssrc] else Idle
  }

  /** One datagram through the receive loop: unparsable packets and other payload types
      are dropped; otherwise the SSRC's stream (created idle on first use) takes the packet.
      The second component is the frame handed to the decoder, if any. */
  function Receive(streams: map<nat, Stream>, pkt: seq<byte>): (map<nat, Stream>, Option<seq<byte>>)
  {
    match ParseRtp(pkt)
    case None => (streams, None)
    case Some(p) =>
      if p.payloadType != PayloadType then (streams, None)
      else
        var acc := Accept(StreamOf(streams, p.ssrc), p);
        (streams[p.ssrc := acc.0], acc.1)
  }

  /** Packets fed in order; the frames handed to the decoder are collected. */
  function ReceiveAll(streams: map<nat, Stream>, pkts: seq<seq<byte>>): (map<nat, Stream>, seq<seq<byte>>)
  {
    if pkts == [] then (streams, [])
    else
      var prev := ReceiveAll(streams, pkts[..|pkts| - 1]);
      var step := Receive(prev.0, pkts[|pkts| - 1]);
      (step.0, prev.1 + AsList(step.1))
  }

  /** The slices of a JPEG in order. */
  function Slices(jpg: seq<byte>, k: nat): (r: seq<seq<byte>>)
    requires k <= ChunkCount(|jpg|, MtuPayload)
    ensures |r| == k
    ensures Concat(r) == Joined(jpg, MtuPayload, k)
  {
    if k == 0 then [] else
      var r := Slices(jpg, k - 1) + [Slice(jpg, MtuPayload, k - 1)];
      assert r[..k - 1] == Slices(jpg, k - 1);
      r
  }

  /** A packet that parses as one slice of a frame: the given timestamp and SSRC,
      payload type 96, and the marker exactly when it is the last. */
  ghost predicate SliceOf(pkt: seq<byte>, slice: seq<byte>, timestamp: nat, ssrc: nat, last: bool)
  {
    ParseRtp(pkt).Some? && ParseRtp(pkt).value.payloadType == PayloadType &&
    ParseRtp(pkt).value.timestamp == timestamp && ParseRtp(pkt).value.ssrc == ssrc &&
    ParseRtp(pkt).value.marker == last && ParseRtp(pkt).value.payload == slice
  }

  /** Packets that parse as the frame with the given slices. */
  ghost predicate FrameShaped(all: seq<seq<byte>>, slices: seq<seq<byte>>, timestamp: nat, ssrc: nat)
  {
    |all| == |slices| &&
    forall j :: 0 <= j < |all| ==> SliceOf(all[j], slices[j], timestamp, ssrc, j == |all| - 1)
  }

  /** Feeding the first i packets of a frame to a receiver whose stream for that SSRC is
      not on this timestamp leaves the stream holding the first i slices, complete exactly
      when all packets have arrived; only the first packet may flush an older frame. */
  lemma {:induction false} FramePrefixReassembles(streams: map<nat, Stream>, all: seq<seq<byte>>,
                                                  slices: seq<seq<byte>>, timestamp: nat, ssrc: nat, i: nat)
    requires FrameShaped(all, slices, timestamp, ssrc)
    requires StreamOf(streams, ssrc).currentTs != Some(timestamp)
    requires 1 <= i <= |all|
    ensures ssrc in ReceiveAll(streams, all[..i]).0
    ensures ReceiveAll(streams, all[..i]).0[ssrc] == Stream(Some(timestamp), slices[..i], i == |all|)
    ensures ReceiveAll(streams, all[..i]).1 ==
      if StreamOf(streams, ssrc).currentTs.Some? then MaybeDisplayed(StreamOf(streams, ssrc)) else []
  {
    var before := ReceiveAll(streams, all[..i - 1]);
    if i == 1 {
      assert all[..0] == [];
      assert before == (streams, []);
    } else {
      FramePrefixReassembles(streams, all, slices, timestamp, ssrc, i - 1);
      assert StreamOf(before.0, ssrc) == Stream(Some(timestamp), slices[..i - 1], false);
    }
    assert SliceOf(all[i - 1], slices[i - 1], timestamp, ssrc, i == |all|);
    ReceiveSlice(before.0, all[i - 1], slices[i - 1], timestamp, ssrc, i == |all|);
    PrefixSnoc(slices, i);
    PrefixSnoc(all, i);
    ReceiveAllSnoc(streams, all[..i - 1], all[i - 1]);
  }

  /** One slice of a frame through the receive loop: its stream takes it, appending when it
      is on the slice's timestamp and otherwise flushing the frame in progress and starting
      a new one. */
  lemma ReceiveSlice(m: map<nat, Stream>, pkt: seq<byte>, slice: seq<byte>, timestamp: nat, ssrc: nat, last: bool)
    requires SliceOf(pkt, slice, timestamp, ssrc, last)
    ensures ssrc in Receive(m, pkt).0 && Receive(m, pkt).0 == m[ssrc := Receive(m, pkt).0[ssrc]]
    ensures StreamOf(m, ssrc).currentTs == Some(timestamp) ==>
      Receive(m, pkt).0[ssrc] ==
        Stream(Some(timestamp), StreamOf(m, ssrc).packets + [slice], StreamOf(m, ssrc).complete || last) &&
      Receive(m, pkt).1.None?
    ensures StreamOf(m, ssrc).currentTs != Some(timestamp) ==>
      Receive(m, pkt).0[ssrc] == Stream(Some(timestamp), [slice], last) &&
      Receive(m, pkt).1 == if StreamOf(m, ssrc).currentTs.Some? then MaybeDisplay(StreamOf(m, ssrc)).1 else None
  {
    var p := ParseRtp(pkt).value;
    ReceiveAccepted(m, pkt, p);
  }

  lemma ReceiveAllSnoc(streams: map<nat, Stream>, ps: seq<seq<byte>>, x: seq<byte>)
    ensures ReceiveAll(streams, ps + [x]) ==
      (Receive(ReceiveAll(streams, ps).0, x).0, ReceiveAll(streams, ps).1 + AsList(Receive(ReceiveAll(streams, ps).0, x).1))
  {
    assert (ps + [x])[..|ps|] == ps;
  }

  lemma ReceiveAccepted(streams: map<nat, Stream>, pkt: seq<byte>, p: RtpPacket)
    requires ParseRtp(pkt) == Some(p) && p.payloadType == PayloadType
    ensures Receive(streams, pkt) ==
      (streams[p.ssrc := Accept(StreamOf(streams, p.ssrc), p).0], Accept(StreamOf(streams, p.ssrc), p).1)
  {
  }

  /** A whole frame, sent into a stream not on its timestamp, is reassembled and is the
      exact JPEG that the next frame's first packet (or the sweep) hands to the decoder. */
  lemma {:induction false} FrameDelivered(streams: map<nat, Stream>, jpg: seq<byte>, seqNo: int, timestamp: nat, ssrc: nat)
    requires jpg != []
    requires timestamp < Word32 && ssrc < Word32
    requires StreamOf(streams, ssrc).currentTs != Some(timestamp)
    ensures ssrc in ReceiveAll(streams, FramePackets(jpg, seqNo, timestamp, ssrc)).0
    ensures ReceiveAll(streams, FramePackets(jpg, seqNo, timestamp, ssrc)).0[ssrc].complete
    ensures MaybeDisplay(ReceiveAll(streams, FramePackets(jpg, seqNo, timestamp, ssrc)).0[ssrc]).1 == Some(jpg)
  {
    var all := FramePackets(jpg, seqNo, timestamp, ssrc);
    var k := |all|;
    var slices := Slices(jpg, k);
    assert Concat(slices) == jpg by {
      Reassembles(jpg, MtuPayload);
    }
    FullPrefix(all);
    FullPrefix(slices);
    FramePacketsShaped(jpg, seqNo, timestamp, ssrc);
    FramePrefixReassembles(streams, all, slices, timestamp, ssrc, k);
  }

  lemma {:induction false} FramePacketsShaped(jpg: seq<byte>, seqNo: int, timestamp: nat, ssrc: nat)
    requires timestamp < Word32 && ssrc < Word32
    ensures FrameShaped(FramePackets(jpg, seqNo, timestamp, ssrc),
                        Slices(jpg, |FramePackets(jpg, seqNo, timestamp, ssrc)|), timestamp, ssrc)
  {
    DivModUnique(timestamp, Word32, 0, timestamp);
    DivModUnique(ssrc, Word32, 0, ssrc);
    var all := FramePackets(jpg, seqNo, timestamp, ssrc);
    var k := |all|;
    var slices := Slices(jpg, k);
    forall j | 0 <= j < k
      ensures SliceOf(all[j], slices[j], timestamp, ssrc, j == k - 1)
    {
      PacketParses(jpg, seqNo, timestamp, ssrc, j);
      SlicesAt(jpg, k, j);
    }
  }

  lemma {:induction false} SlicesAt(jpg: seq<byte>, k: nat, j: nat)
    requires j < k <= ChunkCount(|jpg|, MtuPayload)
    ensures Slices(jpg, k)[j] == Slice(jpg, MtuPayload, j)
  {
    if j < k - 1 {
      SlicesAt(jpg, k - 1, j);
    }
  }

  /** The receiver: one stream per SSRC, plus the frames handed to the decoder so far
      (decoding and display are not modelled). */
  class Receiver {
    var streams: map<nat, Stream>
    var decoded: seq<seq<byte>>

    constructor ()
      ensures streams == map[] && decoded == []
    {
      streams := map[];
      decoded := [];
    }

    /** The body of the inner receive loop for one datagram. */
    method OnDatagram(pkt: seq<byte>)
      modifies this
      ensures streams == Receive(old(streams), pkt).0
      ensures decoded == old(decoded) + AsList(Receive(old(streams), pkt).1)
    {
      var parsed := ParseRtp(pkt);
      if parsed.None? {
        return;
      }
      var p := parsed.value;
      if p.payloadType != PayloadType {
        return;
      }
      var st := if p.ssrc in streams then streams[p.ssrc] else Idle;
      if st.currentTs.None? || p.timestamp != st.currentTs.value {
        if st.currentTs.Some? {
          DisplayNow(st);
        }
        st := Stream(Some(p.timestamp), [p.payload], p.marker);
      } else {
        st := Stream(st.currentTs, st.packets + [p.payload], st.complete || p.marker);
      }
      streams := streams[p.ssrc := st];
    }

    /** Hands a stream's frame to the decoder when complete (the stream's own reset is
        done by the caller). */
    method DisplayNow(st: Stream)
      modifies this`decoded
      ensures decoded == old(decoded) + MaybeDisplayed(st)
    {
      if st.complete {
        decoded := decoded + [Concat(st.packets)];
      }
    }

    /** One stream in the periodic sweep, with the frame's age in milliseconds as input:
        a complete frame, or one older than the jitter buffer (20 ms), goes through
        `maybe_display`. The 60 ms timeout branch after it can never be taken, since any
        age above 60 ms is also above 20 ms, so it is not modelled. */
    method Sweep(ssrc: nat, ageMs: int)
      modifies this
      ensures (ssrc !in old(streams) || old(streams)[ssrc].currentTs.None?) ==>
        streams == old(streams) && decoded == old(decoded)
      ensures (ssrc in old(streams) && old(streams)[ssrc].currentTs.Some? &&
               (old(streams)[ssrc].complete || ageMs > 20)) ==>
        streams == old(streams)[ssrc := Idle] &&
        decoded == old(decoded) + MaybeDisplayed(old(streams)[ssrc])
      ensures (ssrc in old(streams) && old(streams)[ssrc].currentTs.Some? &&
               !old(streams)[ssrc].complete && ageMs <= 20) ==>
        streams == old(streams) && decoded == old(decoded)
    {
      if ssrc !in streams || streams[ssrc].currentTs.None? {
        return;
      }
      var st := streams[ssrc];
      if st.complete || ageMs > 20 {
        DisplayNow(st);
        streams := streams[ssrc := Idle];
      }
    }
  }
}
