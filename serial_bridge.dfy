/** The serial-link framer of the desktop telemetry client (SerialBridge.java).

    Inbound frames are 15 bytes, [0xFF][checksum, 2 bytes LE][id, 4 bytes LE][data, 8 bytes LE];
    the checksum is the Internet checksum of RFC 1071 over the 12 payload bytes. Outbound
    frames are 11 bytes, [0xFF][checksum, 2 bytes LE][8 data bytes]. Received bytes are kept
    in a 256-byte ring buffer described by `head` and `len`. */
module SerialLink {
  import opened Bits

  const RxCap: nat := 256
  const Sof: byte := 0xFF
  /** 2 checksum + 4 id + 8 data bytes follow the start byte. */
  const FrameAfterSof: nat := 14
  const MinFrameTotal: nat := 15
  /** Without any start byte, a buffer longer than this is thrown away. */
  const StaleLimit: nat := 128

  // ---------------------------------------------------------------------------------------
  // The Internet checksum (RFC 1071, section 1; an odd trailing byte as in section 4.1)
  // ---------------------------------------------------------------------------------------

  /** Sum of the little-endian 16-bit words of s; an odd trailing byte counts as a low byte. */
  function WordSum(s: seq<byte>): nat
  {
    if |s| == 0 then 0
    else if |s| == 1 then s[0] as nat
    else s[0] as nat + 256 * s[1] as nat + WordSum(s[2..])
  }

  /** One end-around-carry fold: `(sum & 0xFFFF) + (sum >> 16)`. */
  function Fold(x: nat): nat
  {
    x % 0x10000 + x / 0x10000
  }

  /** The word sum from index i on is the word at i plus the sum from i + 2 on. */
  lemma WordSumStep(s: seq<byte>, i: nat)
    requires i + 2 <= |s|
    ensures WordSum(s[i..]) == s[i] as nat + 256 * s[i + 1] as nat + WordSum(s[i + 2..])
  {
    assert s[i..][2..] == s[i + 2..];
  }

  /** `(int)(~sum) & 0xFFFF`: the low 16 bits of the bitwise complement. */
  function Complement16(x: nat): (r: nat)
    ensures r <= 0xFFFF
    ensures x <= 0xFFFF ==> r + x == 0xFFFF
  {
    0xFFFF - x % 0x10000
  }

  /** The checksum `inetChecksum16` computes over s. */
  function Checksum(s: seq<byte>): (r: nat)
    ensures r <= 0xFFFF
  {
    Complement16(Fold(Fold(WordSum(s))))
  }

  /** A fold keeps the value modulo 0xFFFF, because 0x10000 is 1 modulo 0xFFFF, and never
      increases it. */
  lemma FoldCongruent(x: nat)
    ensures Fold(x) % 0xFFFF == x % 0xFFFF
    ensures Fold(x) <= x
    ensures Fold(x) == 0 ==> x == 0
  {
    var q := x / 0x10000;
    assert x == Fold(x) + q * 0xFFFF;
    ModAddMultiple(Fold(x), q, 0xFFFF);
  }

  /** The two folds of `inetChecksum16` together keep the sum modulo 0xFFFF. */
  lemma {:induction false} TwoFoldsCongruent(x: nat)
    ensures Fold(Fold(x)) % 0xFFFF == x % 0xFFFF
    ensures Fold(Fold(x)) <= x
    ensures Fold(Fold(x)) == 0 ==> x == 0
  {
    FoldCongruent(x);
    FoldCongruent(Fold(x));
  }

  /** Two folds bring any sum of fewer than 2^32 into 16 bits. */
  lemma TwoFoldsSuffice(x: nat)
    requires x < 0x1_0000_0000
    ensures Fold(Fold(x)) <= 0xFFFF
  {
    var y := Fold(x);
    assert y <= 0x1FFFE;
    if y >= 0x10000 {
      DivModUnique(y, 0x10000, 1, y - 0x10000);
    }
  }

  lemma {:induction false} WordSumBound(s: seq<byte>)
    ensures WordSum(s) <= 0xFFFF * |s|
  {
    if |s| >= 2 {
      WordSumBound(s[2..]);
    }
  }

  /** Summing a concatenation word by word, when the first part has an even length. */
  lemma {:induction false} WordSumAppend(s: seq<byte>, t: seq<byte>)
    requires |s| % 2 == 0
    ensures WordSum(s + t) == WordSum(s) + WordSum(t)
  {
    if |s| > 0 {
      var u := s + t;
      assert u[0] == s[0] && u[1] == s[1];
      assert u[2..] == s[2..] + t;
      WordSumAppend(s[2..], t);
      assert WordSum(u) == u[0] as nat + 256 * u[1] as nat + WordSum(u[2..]);
    } else {
      assert s + t == t;
    }
  }

  /** The weight of byte j in the word sum: 1 for a low byte, 256 for a high byte. */
  function ByteWeight(j: nat): nat
  {
    if j % 2 == 0 then 1 else 256
  }

  /** Changing byte j changes the word sum by its weight times the change. */
  lemma {:induction false} WordSumUpdate(s: seq<byte>, j: nat, v: byte)
    requires j < |s|
    ensures WordSum(s[j := v]) + ByteWeight(j) * s[j] as nat == WordSum(s) + ByteWeight(j) * v as nat
  {
    if j >= 2 {
      assert s[j := v][2..] == s[2..][j - 2 := v];
      WordSumUpdate(s[2..], j - 2, v);
    }
  }

  /** A number in (0, 0xFFFF] that is 0 modulo 0xFFFF is 0xFFFF itself. */
  lemma OnlyNonzeroMultiple(g: nat)
    requires 0 < g <= 0xFFFF && g % 0xFFFF == 0
    ensures g == 0xFFFF
  {
    if g < 0xFFFF {
      DivModUnique(g, 0xFFFF, 0, g);
    }
  }

  /** Two numbers with the same remainder differ by a multiple. */
  lemma SameRemainder(a: nat, b: nat, m: nat)
    requires m > 0 && a % m == b % m && b <= a
    ensures (a - b) % m == 0
  {
    DivModUnique(a - b, m, a / m - b / m, 0);
  }

  /** Adding the complement of the folded sum makes the folded total 0xFFFF. */
  lemma ComplementCloses(w: nat, c: nat, total: nat)
    requires w < 0x1_0000_0000 && c == Complement16(Fold(Fold(w))) && total == w + c
    ensures Fold(Fold(total)) == 0xFFFF
  {
    var f := Fold(Fold(w));
    TwoFoldsSuffice(w);
    TwoFoldsCongruent(w);
    assert total == (w - f) + 1 * 0xFFFF;
    SameRemainder(w, f, 0xFFFF);
    ModAddMultiple(w - f, 1, 0xFFFF);
    TwoFoldsSuffice(total);
    TwoFoldsCongruent(total);
    OnlyNonzeroMultiple(Fold(Fold(total)));
  }

  /** The two bytes of a 16-bit value, low byte first. */
  lemma ToLE16(c: nat)
    requires c <= 0xFFFF
    ensures ToLE(c, 2) == [(c % 256) as byte, (c / 256) as byte]
  {
    assert ToLE(c / 256, 1) == [((c / 256) % 256) as byte] + ToLE(c / 256 / 256, 0);
  }

  /** A 16-bit value written low byte first sums to itself. */
  lemma WordSumOfWord(c: nat)
    requires c <= 0xFFFF
    ensures WordSum(ToLE(c, 2)) == c
  {
    var t := ToLE(c, 2);
    ToLE16(c);
    assert t[2..] == [];
    assert WordSum(t[2..]) == 0;
  }

  /** The RFC 1071 receiver check: the word sum of an even-length message followed by its
      checksum (as a little-endian word) folds to 0xFFFF, the one's-complement zero. */
  lemma ChecksumVerifies(s: seq<byte>)
    requires |s| % 2 == 0 && |s| < 0x10000
    ensures Fold(Fold(WordSum(s + ToLE(Checksum(s), 2)))) == 0xFFFF
  {
    var w := WordSum(s);
    assert w < 0x1_0000_0000 by { WordSumBound(s); }
    var c := Checksum(s);
    var t := ToLE(c, 2);
    var total := WordSum(s + t);
    assert total == w + c by {
      WordSumOfWord(c);
      WordSumAppend(s, t);
    }
    ComplementCloses(w, c, total);
  }

  /** s with bit b of byte j inverted. */
  function FlipBit(s: seq<byte>, j: nat, b: nat): (r: seq<byte>)
    requires j < |s| && b < 8
    ensures |r| == |s|
  {
    var x := s[j] as nat;
    BitFlipStaysInByte(x, b);
    var y := if BitSet(x, b) then x - Pow2(b) else x + Pow2(b);
    s[j := y as byte]
  }

  lemma FlipInByte(x: nat, p: nat)
    requires x < 256 && p in {1, 2, 4, 8, 16, 32, 64, 128}
    ensures (x / p) % 2 == 1 ==> x >= p
    ensures (x / p) % 2 == 0 ==> x + p < 256
  {
    if p == 1 {} else if p == 2 {} else if p == 4 {} else if p == 8 {}
    else if p == 16 {} else if p == 32 {} else if p == 64 {} else {}
  }

  /** Inverting one bit of a byte gives a byte. */
  lemma BitFlipStaysInByte(x: nat, b: nat)
    requires x < 256 && b < 8
    ensures BitSet(x, b) ==> x >= Pow2(b)
    ensures !BitSet(x, b) ==> x + Pow2(b) < 256
  {
    assert Pow2(1) == 2;
    assert Pow2(b) in {1, 2, 4, 8, 16, 32, 64, 128} by {
      if b == 0 { assert Pow2(0) == 1; }
      else if b == 1 { assert Pow2(1) == 2; }
      else if b == 2 { assert Pow2(2) == 4; }
      else if b == 3 { assert Pow2(3) == 8; }
      else if b == 4 { assert Pow2(4) == 16; }
      else if b == 5 { assert Pow2(5) == 32; }
      else if b == 6 { assert Pow2(6) == 64; }
      else { assert Pow2(7) == 128; }
    }
    FlipInByte(x, Pow2(b));
  }

  /** Equal checksums of sums below 2^32 mean equal sums modulo 0xFFFF. */
  lemma EqualChecksumsCongruent(w: nat, w': nat)
    requires w < 0x1_0000_0000 && w' < 0x1_0000_0000
    ensures Complement16(Fold(Fold(w))) == Complement16(Fold(Fold(w'))) ==> w % 0xFFFF == w' % 0xFFFF
  {
    TwoFoldsSuffice(w);
    TwoFoldsSuffice(w');
    TwoFoldsCongruent(w);
    TwoFoldsCongruent(w');
  }

  /** Adding a number strictly between 0 and 0xFFFF changes the remainder modulo 0xFFFF. */
  lemma SmallStepChangesRemainder(lo: nat, d: nat)
    requires 0 < d < 0xFFFF
    ensures (lo + d) % 0xFFFF != lo % 0xFFFF
  {
    if (lo + d) % 0xFFFF == lo % 0xFFFF {
      SameRemainder(lo + d, lo, 0xFFFF);
      DivModUnique(d, 0xFFFF, 0, d);
    }
  }

  /** Flipping any single bit of a message changes its Internet checksum: the word sum moves
      by 2^b or 2^(b+8), never a multiple of 0xFFFF. */
  lemma SingleBitFlipDetected(s: seq<byte>, j: nat, b: nat)
    requires j < |s| < 0x10000 && b < 8
    ensures Checksum(FlipBit(s, j, b)) != Checksum(s)
  {
    var t := FlipBit(s, j, b);
    var w, w' := WordSum(s), WordSum(t);
    WordSumUpdate(s, j, t[j]);
    WordSumBound(s);
    WordSumBound(t);
    var p := Pow2(b);
    Pow2Monotone(b, 7);
    assert Pow2(7) == 128;
    var d := ByteWeight(j) * p;
    assert 0 < d <= 256 * 128 by {
      if j % 2 == 1 { assert d == 256 * p; } else { assert d == p; }
    }
    assert w' == w + d || w == w' + d by {
      if j % 2 == 1 { assert ByteWeight(j) == 256; } else { assert ByteWeight(j) == 1; }
    }
    StepChangesChecksum(w, w', d);
  }

  /** Two word sums below 2^32 that differ by less than 0xFFFF (and are not equal) give
      different checksums. */
  lemma StepChangesChecksum(w: nat, w': nat, d: nat)
    requires w < 0x1_0000_0000 && w' < 0x1_0000_0000 && 0 < d < 0xFFFF
    requires w' == w + d || w == w' + d
    ensures Complement16(Fold(Fold(w))) != Complement16(Fold(Fold(w')))
  {
    if w' > w {
      SmallStepChangesRemainder(w, d);
    } else {
      SmallStepChangesRemainder(w', d);
    }
    EqualChecksumsCongruent(w, w');
  }

  // ---------------------------------------------------------------------------------------
  // Frame parsing over the logical (unwrapped) contents of the receive buffer
  // ---------------------------------------------------------------------------------------

  /** What the parse loop hands to the two callbacks: a 12-byte payload that passed the
      checksum (`onMessageRecv`) or failed it (`onMessageInvalid`). */
  datatype FrameEvent = Accepted(payload: seq<byte>) | Rejected(payload: seq<byte>)

  datatype ParseResult = ParseResult(events: seq<FrameEvent>, rest: seq<byte>)

  /** `indexOf(SOF, from, count)`: the first position in [from, from + count) holding 0xFF,
      or -1. */
  function FindSof(buf: seq<byte>, from: nat, count: nat): (r: int)
    requires from + count <= |buf|
    ensures r == -1 || (from <= r < from + count && buf[r] == Sof)
    ensures r == -1 ==> forall i :: from <= i < from + count ==> buf[i] != Sof
    ensures r != -1 ==> forall i :: from <= i < r ==> buf[i] != Sof
    decreases count
  {
    if count == 0 then -1
    else if buf[from] == Sof then from
    else FindSof(buf, from + 1, count - 1)
  }

  /** The stored checksum of the frame whose start byte is at sof: bytes sof+1, sof+2 (LE). */
  function StoredChecksum(buf: seq<byte>, sof: nat): nat
    requires sof + 3 <= |buf|
  {
    buf[sof + 1] as nat + 256 * buf[sof + 2] as nat
  }

  /** How many bytes one parse iteration drops: on a good checksum the whole frame and the
      bytes before it; on a bad one everything before the first 0xFF among the 14 bytes
      after the start byte, or the whole frame when there is none. */
  function Consumed(buf: seq<byte>, sof: nat): (n: nat)
    requires sof + MinFrameTotal <= |buf|
    ensures 0 < n <= |buf|
  {
    if StoredChecksum(buf, sof) == Checksum(buf[sof + 3..sof + 15]) then sof + MinFrameTotal
    else
      var next := FindSof(buf, sof + 1, FrameAfterSof);
      if next >= 0 then next else sof + MinFrameTotal
  }

  /** The callback a frame starting at sof goes to, with its payload. */
  function EventAt(buf: seq<byte>, sof: nat): (e: FrameEvent)
    requires sof + MinFrameTotal <= |buf|
    ensures e.payload == buf[sof + 3..sof + 15]
    ensures e.Accepted? <==> StoredChecksum(buf, sof) == Checksum(e.payload)
  {
    var payload := buf[sof + 3..sof + 15];
    if StoredChecksum(buf, sof) == Checksum(payload) then Accepted(payload) else Rejected(payload)
  }

  /** The parse loop of `receiveFrames` on the logical buffer: the payloads handed to the
      callbacks, in order, and what stays buffered. */
  function Parse(buf: seq<byte>): ParseResult
    decreases |buf|
  {
    if |buf| < MinFrameTotal then ParseResult([], buf)
    else
      var sof := FindSof(buf, 0, |buf|);
      if sof < 0 then ParseResult([], if |buf| > StaleLimit then [] else buf)
      else if |buf| - sof < MinFrameTotal then ParseResult([], buf)
      else
        var tail := Parse(buf[Consumed(buf, sof)..]);
        ParseResult([EventAt(buf, sof)] + tail.events, tail.rest)
  }

  /** An inbound frame carrying payload p, as the sending node builds it. */
  function Frame(p: seq<byte>): (f: seq<byte>)
    ensures |f| == |p| + 3 && f[0] == Sof && f[3..] == p
    ensures StoredChecksum(f, 0) == Checksum(p)
  {
    ToLE16(Checksum(p));
    [Sof] + ToLE(Checksum(p), 2) + p
  }

  lemma DropPrefix(a: seq<byte>, b: seq<byte>)
    ensures (a + b)[|a|..] == b
  {
  }

  lemma ParseShortBuffer(buf: seq<byte>)
    requires |buf| < MinFrameTotal
    ensures Parse(buf) == ParseResult([], buf)
  {
  }

  lemma ParseNoStartStep(buf: seq<byte>)
    requires |buf| >= MinFrameTotal && FindSof(buf, 0, |buf|) < 0
    ensures Parse(buf) == ParseResult([], if |buf| > StaleLimit then [] else buf)
  {
  }

  lemma ParseStuckAfterDiscard(buf: seq<byte>, rest: seq<byte>)
    requires |buf| >= MinFrameTotal && FindSof(buf, 0, |buf|) < 0
    requires rest == if |buf| > StaleLimit then [] else buf
    ensures Parse(rest) == ParseResult([], rest)
  {
  }

  lemma ParseShortStep(buf: seq<byte>)
    requires |buf| >= MinFrameTotal
    requires 0 <= FindSof(buf, 0, |buf|) && |buf| - FindSof(buf, 0, |buf|) < MinFrameTotal
    ensures Parse(buf) == ParseResult([], buf)
  {
  }

  lemma ParseFrameStep(buf: seq<byte>, sof: nat)
    requires |buf| >= MinFrameTotal && sof == FindSof(buf, 0, |buf|) && |buf| - sof >= MinFrameTotal
    ensures Parse(buf) == ParseResult([EventAt(buf, sof)] + Parse(buf[Consumed(buf, sof)..]).events,
                                      Parse(buf[Consumed(buf, sof)..]).rest)
  {
  }

  lemma AppendAssoc(a: seq<FrameEvent>, e: FrameEvent, b: seq<FrameEvent>)
    ensures a + ([e] + b) == (a + [e]) + b
  {
  }

  /** The parse loop's invariant survives a pass that delivers one event. */
  lemma ParseLoopStep(final: ParseResult, cur: ParseResult, next: ParseResult, events: seq<FrameEvent>, e: FrameEvent)
    requires events + cur.events == final.events && cur.rest == final.rest
    requires cur == ParseResult([e] + next.events, next.rest)
    ensures (events + [e]) + next.events == final.events && next.rest == final.rest
  {
    AppendAssoc(events, e, next.events);
  }

  /** A well-formed frame after junk that holds no start byte is delivered to `onMessageRecv`,
      and the junk and the frame are dropped. */
  lemma ParseGoodFrame(junk: seq<byte>, p: seq<byte>, more: seq<byte>)
    requires |p| == 12 && forall i :: 0 <= i < |junk| ==> junk[i] != Sof
    ensures Parse(junk + (Frame(p) + more))
      == ParseResult([Accepted(p)] + Parse(more).events, Parse(more).rest)
  {
    var f := Frame(p);
    var buf := junk + (f + more);
    var sof := |junk|;
    assert buf[sof..sof + 15] == f;
    assert buf[sof] == Sof;
    assert FindSof(buf, 0, |buf|) == sof;
    assert StoredChecksum(buf, sof) == StoredChecksum(f, 0);
    assert buf[sof + 3..sof + 15] == p;
    assert buf[sof + MinFrameTotal..] == more;
  }

  /** A frame with a bad checksum goes to `onMessageInvalid` only, and the buffer resumes at the
      first 0xFF among the 14 bytes after its start byte, or after the frame. */
  lemma ParseBadFrame(buf: seq<byte>, sof: nat)
    requires sof + MinFrameTotal <= |buf| && buf[sof] == Sof
    requires forall i :: 0 <= i < sof ==> buf[i] != Sof
    requires StoredChecksum(buf, sof) != Checksum(buf[sof + 3..sof + 15])
    ensures var next := FindSof(buf, sof + 1, FrameAfterSof);
      var keep := if next >= 0 then next else sof + MinFrameTotal;
      Parse(buf) == ParseResult([Rejected(buf[sof + 3..sof + 15])] + Parse(buf[keep..]).events,
                                Parse(buf[keep..]).rest)
  {
    assert FindSof(buf, 0, |buf|) == sof;
  }

  /** With no start byte among at least 15 buffered bytes nothing is delivered, and the buffer
      is emptied exactly when it holds more than 128 bytes. */
  lemma ParseNoStartByte(buf: seq<byte>)
    requires |buf| >= MinFrameTotal && forall i :: 0 <= i < |buf| ==> buf[i] != Sof
    ensures Parse(buf).events == []
    ensures Parse(buf).rest == (if |buf| > StaleLimit then [] else buf)
  {
    assert FindSof(buf, 0, |buf|) == -1;
  }

  /** What stays buffered is always a suffix of the input (or nothing). */
  lemma {:induction false} ParseKeepsSuffix(buf: seq<byte>)
    ensures var rest := Parse(buf).rest;
      |rest| <= |buf| && (rest == [] || rest == buf[|buf| - |rest|..])
    decreases |buf|
  {
    if |buf| >= MinFrameTotal {
      var sof := FindSof(buf, 0, |buf|);
      if sof >= 0 && |buf| - sof >= MinFrameTotal {
        var n := Consumed(buf, sof);
        var tail := buf[n..];
        ParseKeepsSuffix(tail);
        var rest := Parse(tail).rest;
        assert Parse(buf).rest == rest;
        if rest != [] {
          assert tail[|tail| - |rest|..] == buf[|buf| - |rest|..];
        }
      }
    }
  }

  /** Parsing stops only in a state the loop cannot make progress in: fewer than 15 bytes,
      fewer than 15 bytes from the first start byte, or no start byte at all in at most 128
      bytes. */
  lemma {:induction false} ParseStopsOnlyWhenStuck(buf: seq<byte>)
    ensures var rest := Parse(buf).rest;
      |rest| < MinFrameTotal
      || (var sof := FindSof(rest, 0, |rest|); sof >= 0 && |rest| - sof < MinFrameTotal)
      || (|rest| <= StaleLimit && forall i :: 0 <= i < |rest| ==> rest[i] != Sof)
    decreases |buf|
  {
    if |buf| >= MinFrameTotal {
      var sof := FindSof(buf, 0, |buf|);
      if sof >= 0 && |buf| - sof >= MinFrameTotal {
        var n := Consumed(buf, sof);
        ParseStopsOnlyWhenStuck(buf[n..]);
        assert Parse(buf).rest == Parse(buf[n..]).rest;
      }
    }
  }

  /** A bad frame whose 14 trailing bytes hold no 0xFF is dropped whole. */
  lemma ParseBadFrameWhole(buf: seq<byte>)
    requires |buf| >= MinFrameTotal && buf[0] == Sof
    requires forall i :: 1 <= i < MinFrameTotal ==> buf[i] != Sof
    requires StoredChecksum(buf, 0) != Checksum(buf[3..15])
    ensures Parse(buf).events == [Rejected(buf[3..15])] + Parse(buf[MinFrameTotal..]).events
  {
    assert FindSof(buf, 1, FrameAfterSof) == -1;
    ParseBadFrame(buf, 0);
  }

  /** Resynchronisation: a corrupted frame whose 14 trailing bytes hold no 0xFF, followed
      directly by a good frame, yields one rejected payload and then the good one. */
  lemma ResyncAfterCorruptFrame(bad: seq<byte>, p: seq<byte>, more: seq<byte>)
    requires |bad| == FrameAfterSof && |p| == 12
    requires forall i :: 0 <= i < |bad| ==> bad[i] != Sof
    requires bad[0] as nat + 256 * bad[1] as nat != Checksum(bad[2..])
    ensures Parse(([Sof] + bad) + (Frame(p) + more)).events
      == [Rejected(bad[2..]), Accepted(p)] + Parse(more).events
  {
    var head := [Sof] + bad;
    var after := Frame(p) + more;
    var buf := head + after;
    assert buf[..MinFrameTotal] == head;
    assert buf[MinFrameTotal..] == after;
    assert buf[3..15] == bad[2..] by { assert buf[3..15] == head[3..]; }
    assert forall i :: 1 <= i < MinFrameTotal ==> buf[i] != Sof by {
      forall i | 1 <= i < MinFrameTotal ensures buf[i] != Sof {
        assert buf[i] == head[i] == bad[i - 1];
      }
    }
    var tailEvents := Parse(more).events;
    calc {
      Parse(buf).events;
      { ParseBadFrameWhole(buf); }
      [Rejected(bad[2..])] + Parse(after).events;
      { assert [] + after == after; ParseGoodFrame([], p, more); }
      [Rejected(bad[2..])] + ([Accepted(p)] + tailEvents);
      [Rejected(bad[2..]), Accepted(p)] + tailEvents;
    }
  }

  /** A frame that arrives in two pieces is parsed once: the first piece alone waits in the
      buffer, and the whole frame is then delivered and consumed. */
  lemma SplitFrameParsedOnce(p: seq<byte>, k: nat)
    requires |p| == 12 && 0 < k < MinFrameTotal
    ensures Parse(Frame(p)[..k]) == ParseResult([], Frame(p)[..k])
    ensures Parse(Frame(p)) == ParseResult([Accepted(p)], [])
  {
    ParseGoodFrame([], p, []);
    assert [] + (Frame(p) + []) == Frame(p);
  }

  // ---------------------------------------------------------------------------------------
  // The ring buffer and the read phase, as pure functions of the array contents
  // ---------------------------------------------------------------------------------------

  /** The logical contents of a ring: len bytes starting at physical index head. */
  function Logical(arr: seq<byte>, head: nat, len: nat): (r: seq<byte>)
    requires |arr| == RxCap && head < RxCap && len <= RxCap
    ensures |r| == len
  {
    seq(len, i requires 0 <= i < len => arr[(head + i) % RxCap])
  }

  /** s with the bytes w written from index at on. */
  function WriteAt(s: seq<byte>, at: nat, w: seq<byte>): (r: seq<byte>)
    requires at + |w| <= |s|
    ensures |r| == |s|
    ensures forall i :: 0 <= i < |s| ==> r[i] == if at <= i < at + |w| then w[i - at] else s[i]
  {
    seq(|s|, i requires 0 <= i < |s| => if at <= i < at + |w| then w[i - at] else s[i])
  }

  /** `c1` of the read phase: at most `avail`, the free space, and the bytes up to the
      physical end of the array. */
  function FirstReadLimit(head: nat, len: nat, avail: int): nat
    requires head < RxCap && len <= RxCap
  {
    var tail := (head + len) % RxCap;
    Max(0, Min(Min(avail, RxCap - len), RxCap - tail))
  }

  /** The counts the two `read` calls return when the port offers `first` to the first call
      and `second` to the second: a read returns at most what it asked for. */
  function ReadCounts(head: nat, len: nat, avail: int, first: nat, second: nat): (r: (nat, nat))
    requires head < RxCap && len <= RxCap
    ensures r.0 + r.1 <= RxCap - len
    ensures avail <= 0 || len == RxCap ==> r == (0, 0)
    ensures r.0 + r.1 <= Max(avail, 0)
    ensures r.0 == Min(first, FirstReadLimit(head, len, avail))
  {
    if avail > 0 && RxCap - len > 0 then
      var toRead := Min(avail, RxCap - len);
      var c1 := FirstReadLimit(head, len, avail);
      var r1 := Min(first, c1);
      var rem := toRead - r1;
      var r2 := if rem > 0 then Min(second, Min(rem, RxCap - (len + r1))) else 0;
      (r1, r2)
    else (0, Min(first, 0))
  }

  /** The array after the read phase: the first read writes at the logical tail, the second
      (if bytes are still wanted) always at physical index 0. */
  function AfterReadArray(arr: seq<byte>, head: nat, len: nat, avail: int,
                          first: seq<byte>, second: seq<byte>): (r: seq<byte>)
    requires |arr| == RxCap && head < RxCap && len <= RxCap
    ensures |r| == RxCap
  {
    var (r1, r2) := ReadCounts(head, len, avail, |first|, |second|);
    var tail := (head + len) % RxCap;
    WriteAt(WriteAt(arr, tail, first[..r1]), 0, second[..r2])
  }

  lemma WriteAtEmpty(s: seq<byte>, at: nat)
    requires at <= |s|
    ensures WriteAt(s, at, []) == s
  {
  }

  lemma WriteAtWhole(s: seq<byte>, w: seq<byte>)
    requires |w| == |s|
    ensures WriteAt(s, 0, w) == w
  {
    assert s[|w|..] == [];
  }

  /** Two adjacent writes are one write of the concatenation. */
  lemma WriteAtConcat(s: seq<byte>, at: nat, a: seq<byte>, b: seq<byte>)
    requires at + |a| + |b| <= |s|
    ensures WriteAt(WriteAt(s, at, a), at + |a|, b) == WriteAt(s, at, a + b)
  {
    var l, r := WriteAt(WriteAt(s, at, a), at + |a|, b), WriteAt(s, at, a + b);
    forall i | 0 <= i < |s| ensures l[i] == r[i] {
      if at <= i < at + |a| {
        assert r[i] == (a + b)[i - at];
      } else if at + |a| <= i < at + |a| + |b| {
        assert r[i] == (a + b)[i - at];
      }
    }
  }

  /** n logical bytes from offset off are, physically, the bytes from their start up to the
      end of the array followed by the rest from index 0. */
  lemma RingPieces(arr: seq<byte>, head: nat, len: nat, off: nat, n: nat)
    requires |arr| == RxCap && head < RxCap && len <= RxCap && off + n <= len
    ensures var start := (head + off) % RxCap;
      var c1 := Min(n, RxCap - start);
      Logical(arr, head, len)[off..off + n] == arr[start..start + c1] + arr[..n - c1]
  {
    var start := (head + off) % RxCap;
    var c1 := Min(n, RxCap - start);
    var l := Logical(arr, head, len)[off..off + n];
    var r := arr[start..start + c1] + arr[..n - c1];
    forall i | 0 <= i < n ensures l[i] == r[i] {
      assert l[i] == arr[(head + off + i) % RxCap];
      ModOfSum(head + off, i, RxCap);
      Wrap(start + i);
    }
  }

  /** The two copies of `copyOut` together write the n logical bytes from srcOff. */
  lemma CopyOutPieces(arr: seq<byte>, head: nat, len: nat, srcOff: nat, n: nat, start: nat, c1: nat,
                      dstOff: nat, d0: seq<byte>, d1: seq<byte>, d2: seq<byte>)
    requires |arr| == RxCap && head < RxCap && len <= RxCap && srcOff + n <= len
    requires start == (head + srcOff) % RxCap && c1 == Min(n, RxCap - start)
    requires dstOff + n <= |d0|
    requires d1 == WriteAt(d0, dstOff, arr[start..start + c1])
    requires n > c1 ==> d2 == WriteAt(d1, dstOff + c1, arr[0..n - c1])
    requires n <= c1 ==> d2 == d1
    ensures d2 == WriteAt(d0, dstOff, Logical(arr, head, len)[srcOff..srcOff + n])
  {
    assert arr[0..n - c1] == arr[..n - c1];
    RingPieces(arr, head, len, srcOff, n);
    if n <= c1 {
      WriteAtEmpty(d1, dstOff + c1);
    }
    WriteAtConcat(d0, dstOff, arr[start..start + c1], arr[..n - c1]);
  }

  /** A ring position at most one lap past the end wraps around once. */
  lemma Wrap(x: nat)
    requires x < 2 * RxCap
    ensures x % RxCap == if x < RxCap then x else x - RxCap
  {
    if x < RxCap {
      DivModUnique(x, RxCap, 0, x);
    } else {
      DivModUnique(x, RxCap, 1, x - RxCap);
    }
  }

  /** The buffered bytes, in order, after the read phase. */
  ghost function AfterRead(arr: seq<byte>, head: nat, len: nat, avail: int,
                           first: seq<byte>, second: seq<byte>): seq<byte>
    requires |arr| == RxCap && head < RxCap && len <= RxCap
  {
    var (r1, r2) := ReadCounts(head, len, avail, |first|, |second|);
    Logical(AfterReadArray(arr, head, len, avail, first, second), head, len + r1 + r2)
  }

  /** When the first `read` returns every byte it asked for, the new bytes follow the old
      ones in logical order, whether or not the write wrapped around the array's end. */
  lemma ReadAppendsInOrder(arr: seq<byte>, head: nat, len: nat, avail: int,
                           first: seq<byte>, second: seq<byte>)
    requires |arr| == RxCap && head < RxCap && len <= RxCap
    requires |first| >= FirstReadLimit(head, len, avail)
    ensures var (r1, r2) := ReadCounts(head, len, avail, |first|, |second|);
      AfterRead(arr, head, len, avail, first, second) == Logical(arr, head, len) + first[..r1] + second[..r2]
  {
    var (r1, r2) := ReadCounts(head, len, avail, |first|, |second|);
    var tail := (head + len) % RxCap;
    assert r2 > 0 ==> tail + r1 == RxCap;
    WritesAppend(arr, head, len, tail, first[..r1], second[..r2]);
  }

  /** Writing w1 at the logical tail, up to at most the array's end, and then w2 at index 0
      when w1 reached the end, appends w1 + w2 to the logical contents. */
  lemma WritesAppend(arr: seq<byte>, head: nat, len: nat, tail: nat, w1: seq<byte>, w2: seq<byte>)
    requires |arr| == RxCap && head < RxCap && len + |w1| + |w2| <= RxCap
    requires tail == (head + len) % RxCap && tail + |w1| <= RxCap
    requires |w2| > 0 ==> tail + |w1| == RxCap
    ensures Logical(WriteAt(WriteAt(arr, tail, w1), 0, w2), head, len + |w1| + |w2|)
      == Logical(arr, head, len) + w1 + w2
  {
    var lhs := Logical(WriteAt(WriteAt(arr, tail, w1), 0, w2), head, len + |w1| + |w2|);
    var rhs := Logical(arr, head, len) + w1 + w2;
    forall i | 0 <= i < len + |w1| + |w2| ensures lhs[i] == rhs[i] {
      WritesAppendAt(arr, head, len, tail, w1, w2, i);
    }
  }

  /** Logical byte i of WritesAppend. */
  lemma WritesAppendAt(arr: seq<byte>, head: nat, len: nat, tail: nat, w1: seq<byte>, w2: seq<byte>, i: nat)
    requires |arr| == RxCap && head < RxCap && len + |w1| + |w2| <= RxCap
    requires tail == (head + len) % RxCap && tail + |w1| <= RxCap
    requires |w2| > 0 ==> tail + |w1| == RxCap
    requires i < len + |w1| + |w2|
    ensures Logical(WriteAt(WriteAt(arr, tail, w1), 0, w2), head, len + |w1| + |w2|)[i]
      == (Logical(arr, head, len) + w1 + w2)[i]
  {
    var a2 := WriteAt(WriteAt(arr, tail, w1), 0, w2);
    var rhs := Logical(arr, head, len) + w1 + w2;
    Wrap(head + len);
    var p := if head + i < RxCap then head + i else head + i - RxCap;
    assert Logical(a2, head, len + |w1| + |w2|)[i] == a2[p] by { Wrap(head + i); }
    if i < len {
      OldBytesUntouched(head, len, |w1|, |w2|, i);
      assert rhs[i] == arr[p] by { Wrap(head + i); }
    } else if i < len + |w1| {
      assert p == tail + (i - len);
      assert rhs[i] == w1[i - len];
    } else {
      assert p == i - len - |w1|;
      assert rhs[i] == w2[p];
    }
  }

  /** The read phase writes only past the buffered bytes: physical position p of logical
      byte i < len lies in neither written range. */
  lemma OldBytesUntouched(head: nat, len: nat, r1: nat, r2: nat, i: nat)
    requires head < RxCap && len + r1 + r2 <= RxCap && i < len
    requires r2 > 0 ==> (if head + len < RxCap then head + len else head + len - RxCap) + r1 == RxCap
    ensures var tail := if head + len < RxCap then head + len else head + len - RxCap;
      var p := if head + i < RxCap then head + i else head + i - RxCap;
      !(0 <= p < r2) && !(tail <= p < tail + r1)
  {
  }

  /** As written, a short first `read` leaves the second read's bytes at physical index 0,
      not after the first read's bytes: with an empty buffer at index 0, ten bytes available
      and five offered to each call, the second five overwrite the first five. */
  lemma ShortFirstReadLandsAtZero()
    ensures var arr := seq(RxCap, i => 0 as byte);
      var first := seq(5, i => 1 as byte);
      var second := seq(5, i => 2 as byte);
      ReadCounts(0, 0, 10, 5, 5) == (5, 5)
      && Logical(AfterReadArray(arr, 0, 0, 10, first, second), 0, 10) != first + second
  {
    var arr := seq(RxCap, i => 0 as byte);
    var first := seq(5, i => 1 as byte);
    var second := seq(5, i => 2 as byte);
    var got := Logical(AfterReadArray(arr, 0, 0, 10, first, second), 0, 10);
    assert got[0] == 2;
    assert (first + second)[0] == 1;
  }

  /** A full ring whose first 0xFF lies within the last 14 bytes never changes again: the
      read phase has no space to fill and the parse loop stops at the incomplete frame, so
      every later call of `receiveFrames` finds the same 256 bytes. */
  lemma FullRingStuck(arr: seq<byte>, head: nat, avail: int, first: seq<byte>, second: seq<byte>)
    requires |arr| == RxCap && head < RxCap
    requires var sof := FindSof(Logical(arr, head, RxCap), 0, RxCap);
      0 <= sof && RxCap - sof < MinFrameTotal
    ensures AfterRead(arr, head, RxCap, avail, first, second) == Logical(arr, head, RxCap)
    ensures Parse(Logical(arr, head, RxCap)) == ParseResult([], Logical(arr, head, RxCap))
  {
    var tail := (head + RxCap) % RxCap;
    WriteAtEmpty(arr, tail);
    WriteAtEmpty(arr, 0);
    ParseShortStep(Logical(arr, head, RxCap));
  }

  /** Such a ring exists: 256 buffered bytes, starting at physical index 0, whose only 0xFF
      is at offset 250. */
  lemma FullRingStuckExample()
    ensures var arr := seq(RxCap, i => if i == 250 then Sof else 0);
      FindSof(Logical(arr, 0, RxCap), 0, RxCap) == 250
  {
    var arr := seq(RxCap, i => if i == 250 then Sof else 0);
    var buf := Logical(arr, 0, RxCap);
    assert buf[250] == Sof;
    assert forall i :: 0 <= i < RxCap ==> (buf[i] == Sof <==> i == 250);
  }

  // ---------------------------------------------------------------------------------------
  // The object
  // ---------------------------------------------------------------------------------------

  class SerialBridge {
    const rx: array<byte>
    var head: int
    var len: int

    ghost predicate Valid()
      reads this
    {
      rx.Length == RxCap && 0 <= head < RxCap && 0 <= len <= RxCap
    }

    /** The buffered bytes in arrival order. */
    ghost function Contents(): seq<byte>
      reads this, rx
      requires Valid()
    {
      Logical(rx[..], head, len)
    }

    constructor ()
      ensures Valid() && Contents() == [] && fresh(rx)
    {
      rx := new byte[RxCap];
      head, len := 0, 0;
    }

    /** `space()`: free bytes in the ring. */
    method Space() returns (n: int)
      requires Valid()
      ensures n == RxCap - |Contents()| && 0 <= n <= RxCap
    {
      n := RxCap - len;
    }

    /** `get(off)`: the byte at logical offset off. */
    method Get(off: nat) returns (b: byte)
      requires Valid()
      ensures b == rx[(head + off) % RxCap]
      ensures off < |Contents()| ==> b == Contents()[off]
    {
      b := rx[(head + off) % RxCap];
    }

    /** `copyOut`: n bytes from logical offset srcOff into dst, in at most two pieces. */
    method CopyOut(dst: array<byte>, dstOff: nat, srcOff: nat, n: nat)
      requires Valid() && dst != rx
      requires dstOff + n <= dst.Length && srcOff + n <= len
      modifies dst
      ensures dst[..] == WriteAt(old(dst[..]), dstOff, Contents()[srcOff..srcOff + n])
    {
      var start := (head + srcOff) % RxCap;
      var c1 := Min(n, RxCap - start);
      ghost var d0, arr := dst[..], rx[..];
      CopyRange(rx, start, dst, dstOff, c1);
      ghost var d1 := dst[..];
      assert rx[..] == arr;
      if n > c1 {
        CopyRange(rx, 0, dst, dstOff + c1, n - c1);
      }
      ghost var d2 := dst[..];
      CopyOutPieces(arr, head, len, srcOff, n, start, c1, dstOff, d0, d1, d2);
    }

    /** `System.arraycopy` from src to another array. */
    static method CopyRange(src: array<byte>, from: nat, dst: array<byte>, at: nat, count: nat)
      requires src != dst && from + count <= src.Length && at + count <= dst.Length
      modifies dst
      ensures dst[..] == WriteAt(old(dst[..]), at, old(src[..])[from..from + count])
    {
      forall k | 0 <= k < count {
        dst[at + k] := src[from + k];
      }
    }

    /** `drop(n)`: forget the first n buffered bytes (all of them when n exceeds len). */
    method Drop(n: nat)
      requires Valid()
      modifies this
      ensures Valid()
      ensures Contents() == if n <= old(len) then old(Contents())[n..] else []
    {
      ghost var before := Contents();
      head := (head + n) % RxCap;
      len := len - n;
      if len < 0 {
        head, len := 0, 0;
      }
      if n <= old(len) {
        forall i | 0 <= i < len ensures Contents()[i] == before[n + i] {
          ModOfSum(old(head) + n, i, RxCap);
        }
      }
    }

    /** `indexOf(b, off, count)` over logical offsets; only called inside the buffered bytes. */
    method IndexOf(b: byte, off: nat, count: nat) returns (r: int)
      requires Valid() && off + count <= len
      ensures b == Sof ==> r == FindSof(Contents(), off, count)
      ensures r == -1 || (off <= r < off + count && Contents()[r] == b)
      ensures forall i :: off <= i < (if r == -1 then off + count else r) ==> Contents()[i] != b
    {
      var i := 0;
      while i < count
        invariant 0 <= i <= count
        invariant forall k :: off <= k < off + i ==> Contents()[k] != b
        invariant b == Sof ==> FindSof(Contents(), off, count) == FindSof(Contents(), off + i, count - i)
      {
        var x := Get(off + i);
        if x == b {
          return off + i;
        }
        i := i + 1;
      }
      return -1;
    }

    /** `inetChecksum16(data, off, len)`: the accumulator loop. */
    static method InetChecksum16(data: array<byte>, off: nat, n: nat) returns (r: nat)
      requires off + n <= data.Length
      ensures r == Checksum(data[off..off + n])
    {
      var sum: nat := 0;
      var i := off;
      var end := off + n;
      ghost var s := data[..end];
      while i + 1 < end
        invariant off <= i <= end && (i - off) % 2 == 0
        invariant sum + WordSum(s[i..]) == WordSum(s[off..])
      {
        WordSumStep(s, i);
        var word := data[i] as nat + 256 * data[i + 1] as nat;
        sum := sum + word;
        i := i + 2;
      }
      if i < end {
        sum := sum + data[i] as nat;
      }
      assert sum == WordSum(s[off..]);
      assert s[off..] == data[off..off + n];
      sum := Fold(sum);
      sum := Fold(sum);
      r := Complement16(sum);
    }

    /** The read phase of `receiveFrames`: ask for at most `avail` bytes and at most the free
        space, first up to the end of the array and then (if bytes are still wanted) at
        index 0. The port offers `first` to the first `read` and `second` to the second. */
    method ReadAvailable(avail: int, first: seq<byte>, second: seq<byte>)
      requires Valid()
      modifies this, rx
      ensures Valid() && head == old(head)
      ensures var (r1, r2) := ReadCounts(old(head), old(len), avail, |first|, |second|);
        len == old(len) + r1 + r2
        && rx[..] == AfterReadArray(old(rx[..]), old(head), old(len), avail, first, second)
    {
      ghost var counts := ReadCounts(head, len, avail, |first|, |second|);
      ghost var arr0 := rx[..];
      ghost var tail0 := (head + len) % RxCap;
      var r1, r2 := 0, 0;
      if avail > 0 && RxCap - len > 0 {
        var tail := (head + len) % RxCap;
        var toRead := Min(avail, RxCap - len);
        var c1 := Min(toRead, RxCap - tail);
        assert c1 == FirstReadLimit(head, len, avail);
        r1 := Min(|first|, c1);
        WriteRx(tail, first[..r1]);
        len := len + r1;
        toRead := toRead - r1;
        if toRead > 0 {
          r2 := Min(|second|, Min(toRead, RxCap - len));
        }
        assert (r1, r2) == counts;
        WriteRx(0, second[..r2]);
        len := len + r2;
      } else {
        assert counts == (0, 0);
        assert WriteAt(arr0, tail0, []) == arr0;
        assert WriteAt(arr0, 0, []) == arr0;
      }
      assert rx[..] == WriteAt(WriteAt(arr0, tail0, first[..counts.0]), 0, second[..counts.1]);
    }

    /** One `read` into the array: the bytes w land from physical index at on. */
    method WriteRx(at: nat, w: seq<byte>)
      requires Valid() && at + |w| <= RxCap
      modifies rx
      ensures rx[..] == WriteAt(old(rx[..]), at, w)
    {
      forall k | 0 <= k < |w| {
        rx[at + k] := w[k];
      }
    }

    /** `receiveFrames`: read what the port offers, then parse every complete frame. The
        returned events are what the two callbacks receive, in order. */
    method ReceiveFrames(avail: int, first: seq<byte>, second: seq<byte>) returns (events: seq<FrameEvent>)
      requires Valid()
      modifies this, rx
      ensures Valid()
      ensures var got := AfterRead(old(rx[..]), old(head), old(len), avail, first, second);
        events == Parse(got).events && Contents() == Parse(got).rest
    {
      ghost var got := AfterRead(rx[..], head, len, avail, first, second);
      ReadAvailable(avail, first, second);
      assert Contents() == got;
      events := ParseBuffered();
    }

    /** Without a start byte, more than 128 buffered bytes are junk: empty the ring. */
    method DiscardIfStale()
      requires Valid()
      modifies this
      ensures Valid()
      ensures Contents() == if old(len) > StaleLimit then [] else old(Contents())
    {
      if len > StaleLimit {
        head, len := 0, 0;
      }
    }

    /** The parse loop of `receiveFrames`. */
    method ParseBuffered() returns (events: seq<FrameEvent>)
      requires Valid()
      modifies this
      ensures Valid()
      ensures events == Parse(old(Contents())).events && Contents() == Parse(old(Contents())).rest
    {
      ghost var cur := Contents();
      ghost var final := Parse(cur);
      events := [];
      var stuck := false;
      while !stuck && len >= MinFrameTotal
        invariant Valid() && cur == Contents()
        invariant events + Parse(cur).events == final.events
        invariant Parse(cur).rest == final.rest
        invariant stuck ==> Parse(cur) == ParseResult([], cur)
        decreases len, if stuck then 0 else 1
      {
        var ev;
        ev, stuck := ParseOnce();
        ghost var next := Contents();
        if ev.Some? {
          ParseLoopStep(final, Parse(cur), Parse(next), events, ev.value);
          events := events + [ev.value];
        }
        cur := next;
      }
      if !stuck {
        ParseShortBuffer(cur);
      }
    }

    /** One pass of the parse loop with at least 15 bytes buffered: either it delivers one
        frame's payload and drops what it consumed, or it finds it cannot progress (no
        start byte, after discarding stale bytes, or an incomplete frame). */
    method ParseOnce() returns (ev: Option<FrameEvent>, stuck: bool)
      requires Valid() && len >= MinFrameTotal
      modifies this
      ensures Valid()
      ensures stuck ==> ev.None? && len <= old(len)
      ensures stuck ==> Parse(old(Contents())) == ParseResult([], Contents())
      ensures stuck ==> Parse(Contents()) == ParseResult([], Contents())
      ensures !stuck ==> ev.Some? && len < old(len)
      ensures !stuck ==>
        Parse(old(Contents())) == ParseResult([ev.value] + Parse(Contents()).events, Parse(Contents()).rest)
    {
      ghost var buf := Contents();
      var sofOff := IndexOf(Sof, 0, len);
      if sofOff < 0 {
        ParseNoStartStep(buf);
        DiscardIfStale();
        ParseStuckAfterDiscard(buf, Contents());
        return None, true;
      }
      if len - sofOff < MinFrameTotal {
        ParseShortStep(buf);
        return None, true;
      }
      var e, consume := ParseFrameAt(sofOff);
      ParseFrameStep(buf, sofOff);
      Drop(consume);
      return Some(e), false;
    }

    /** One pass of the parse loop once a whole frame starts at sofOff: its event, and how
        many bytes to drop. */
    method ParseFrameAt(sofOff: nat) returns (ev: FrameEvent, consume: nat)
      requires Valid() && sofOff + MinFrameTotal <= len
      ensures ev == EventAt(Contents(), sofOff)
      ensures consume == Consumed(Contents(), sofOff)
    {
      ghost var buf := Contents();
      var c0 := Get(sofOff + 1);
      var c1 := Get(sofOff + 2);
      var chk16 := c0 as nat + 256 * c1 as nat;
      var payload := CopyPayload(sofOff);
      var calc16 := InetChecksum16(payload, 0, 12);
      assert payload[0..12] == payload[..];
      if chk16 == calc16 {
        ev := Accepted(payload[..]);
        consume := sofOff + MinFrameTotal;
        GoodFrameStep(buf, sofOff);
      } else {
        ev := Rejected(payload[..]);
        var next := IndexOf(Sof, sofOff + 1, MinFrameTotal - 1);
        consume := if next >= 0 then next else sofOff + MinFrameTotal;
        BadFrameStep(buf, sofOff);
      }
    }

    /** The 12 payload bytes of the frame starting at sofOff, copied into a new array. */
    method CopyPayload(sofOff: nat) returns (payload: array<byte>)
      requires Valid() && sofOff + MinFrameTotal <= len
      ensures fresh(payload) && payload[..] == Contents()[sofOff + 3..sofOff + 15]
    {
      payload := new byte[12];
      ghost var blank := payload[..];
      CopyOut(payload, 0, sofOff + 3, 12);
      WriteAtWhole(blank, Contents()[sofOff + 3..sofOff + 15]);
    }
  }

  lemma GoodFrameStep(buf: seq<byte>, sof: nat)
    requires sof + MinFrameTotal <= |buf|
    requires StoredChecksum(buf, sof) == Checksum(buf[sof + 3..sof + 15])
    ensures EventAt(buf, sof) == Accepted(buf[sof + 3..sof + 15])
    ensures Consumed(buf, sof) == sof + MinFrameTotal
  {
  }

  lemma BadFrameStep(buf: seq<byte>, sof: nat)
    requires sof + MinFrameTotal <= |buf|
    requires StoredChecksum(buf, sof) != Checksum(buf[sof + 3..sof + 15])
    ensures EventAt(buf, sof) == Rejected(buf[sof + 3..sof + 15])
    ensures var next := FindSof(buf, sof + 1, FrameAfterSof);
      Consumed(buf, sof) == if next >= 0 then next else sof + MinFrameTotal
  {
  }

  // ---------------------------------------------------------------------------------------
  // The send path
  // ---------------------------------------------------------------------------------------

  /** The 8 data bytes actually sent: the given bytes zero-padded or truncated to 8. */
  function Pad8(d: seq<byte>): (r: seq<byte>)
    ensures |r| == 8
    ensures forall i :: 0 <= i < 8 ==> r[i] == if i < |d| then d[i] else 0
    ensures |d| == 8 ==> r == d
  {
    if |d| >= 8 then d[..8] else d + seq(8 - |d|, i => 0)
  }

  /** `sendMessage`: a null message is ignored; otherwise the bytes written to the port are
      0xFF, the checksum of the 8 data bytes (low byte first, although the source's comment
      says big-endian), then the 8 data bytes. */
  method SendMessage(data: Option<seq<byte>>) returns (written: Option<seq<byte>>)
    ensures data.None? <==> written.None?
    ensures data.Some? ==> var f := written.value;
      |f| == 11 && f[0] == Sof && f[3..] == Pad8(data.value)
      && f[1] as nat + 256 * f[2] as nat == Checksum(Pad8(data.value))
    ensures data.Some? ==> written.value == Frame(Pad8(data.value))
  {
    if data.None? {
      return None;
    }
    var d := data.value;
    if |d| != 8 {
      d := Pad8(d);
    }
    var buf := new byte[8](i requires 0 <= i < 8 => d[i]);
    var chk16 := SerialBridge.InetChecksum16(buf, 0, 8);
    assert buf[0..8] == d;
    var frame := [Sof, (chk16 % 256) as byte, (chk16 / 256) as byte] + d;
    ToLE16(chk16);
    written := Some(frame);
  }
}
