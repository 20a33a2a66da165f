/** The value-level half of the dashboard's CAN decoder (src/main/java/CanParser.java): the
    identifier split, the outbound command encoding, the bus-status word, the severity bands,
    the bit-cursor walk over a data frame, the missing-frame countdown and the heartbeat pages.
    The decoder's state and its notifications are in module CanParser. */
module CanDecode {
  import opened Bits
  import opened TelemetryLookup

  /** `NotificationPanel.Status`. */
  datatype Severity = Ok | Warning | Critical

  function Rank(s: Severity): nat
  {
    match s
    case Ok => 0
    case Warning => 1
    case Critical => 2
  }

  /* ---------------- packing fields side by side ---------------- */

  /** fs[0] in the lowest ws[0] bits, fs[1] in the next ws[1] bits, and so on. */
  function PackFields(fs: seq<nat>, ws: seq<nat>): nat
    requires |fs| == |ws|
  {
    if fs == [] then 0 else fs[0] + Pow2(ws[0]) * PackFields(fs[1..], ws[1..])
  }

  /** The bit offset of field i. */
  function Offset(ws: seq<nat>, i: nat): nat
    requires i <= |ws|
  {
    if i == 0 then 0 else ws[0] + Offset(ws[1..], i - 1)
  }

  predicate Fits(fs: seq<nat>, ws: seq<nat>)
  {
    |fs| == |ws| && forall j :: 0 <= j < |fs| ==> fs[j] < Pow2(ws[j])
  }

  lemma MulMonotone(a: nat, b: nat, c: nat)
    requires a <= b
    ensures a * c <= b * c
  {
  }

  /** One more step of width c moves a cursor by c. */
  lemma MulSucc(a: nat, c: int)
    ensures (a + 1) * c == a * c + c
  {
  }

  /** Dividing by p * q is dividing by p, then by q. */
  lemma DivModNested(x: nat, p: nat, q: nat)
    requires p > 0 && q > 0
    ensures x / (p * q) == x / p / q
    ensures x % (p * q) == x % p + p * (x / p % q)
  {
    var q1, r1 := x / p, x % p;
    var q2, r2 := q1 / q, q1 % q;
    assert x == p * (q * q2 + r2) + r1;
    assert p * (q * q2 + r2) == (p * q) * q2 + p * r2;
    MulMonotone(r2, q - 1, p);
    assert p * r2 + r1 < p * q;
    DivModUnique(x, p * q, q2, p * r2 + r1);
  }

  /** A field above a low part of a bits reads like the same field of the part above it. */
  lemma FieldShift(lo: nat, a: nat, y: nat, k: nat, w: nat)
    requires lo < Pow2(a)
    ensures Field(lo + Pow2(a) * y, a + k, w) == Field(y, k, w)
  {
    Pow2Add(a, k);
    DivShift(lo, Pow2(a), y, Pow2(k));
  }

  lemma DivShift(lo: nat, p: nat, y: nat, q: nat)
    requires lo < p && q > 0
    ensures (lo + p * y) / (p * q) == y / q
  {
    DivModNested(lo + p * y, p, q);
    DivModUnique(lo + p * y, p, y, lo);
  }

  /** Reading field i of a packed word gives fs[i] back. */
  lemma {:induction false} FieldOfPacked(fs: seq<nat>, ws: seq<nat>, i: nat)
    requires Fits(fs, ws) && i < |fs|
    ensures Field(PackFields(fs, ws), Offset(ws, i), ws[i]) == fs[i]
    decreases i
  {
    var rest := PackFields(fs[1..], ws[1..]);
    if i == 0 {
      DivModUnique(PackFields(fs, ws), Pow2(ws[0]), rest, fs[0]);
    } else {
      FitsTail(fs, ws);
      FieldOfPacked(fs[1..], ws[1..], i - 1);
      FieldShift(fs[0], ws[0], rest, Offset(ws[1..], i - 1), ws[i]);
    }
  }

  lemma FitsTail(fs: seq<nat>, ws: seq<nat>)
    requires Fits(fs, ws) && fs != []
    ensures Fits(fs[1..], ws[1..])
  {
    forall j | 0 <= j < |fs| - 1
      ensures fs[1..][j] < Pow2(ws[1..][j])
    {
      assert fs[1..][j] == fs[j + 1];
    }
  }

  /** A low part of a bits under a high part of b bits stays below 2^(a + b). */
  lemma PackStep(lo: nat, a: nat, hi: nat, b: nat)
    requires lo < Pow2(a) && hi < Pow2(b)
    ensures lo + Pow2(a) * hi < Pow2(a + b)
  {
    MulMonotone(hi, Pow2(b) - 1, Pow2(a));
    Pow2Add(a, b);
  }

  /** A packed word occupies exactly the sum of the widths. */
  lemma {:induction false} PackedBound(fs: seq<nat>, ws: seq<nat>)
    requires Fits(fs, ws)
    ensures PackFields(fs, ws) < Pow2(Offset(ws, |ws|))
    decreases |fs|
  {
    if fs != [] {
      FitsTail(fs, ws);
      PackedBound(fs[1..], ws[1..]);
      var b := Offset(ws[1..], |ws| - 1);
      assert Offset(ws, |ws|) == ws[0] + b;
      PackStep(fs[0], ws[0], PackFields(fs[1..], ws[1..]), b);
    }
  }

  /* ---------------- the identifier ---------------- */

  /** The three fields of a 29-bit CAN identifier. */
  datatype CanId = CanId(nodeId: nat, functionCode: nat, extendedId: nat)

  const IdWidths: seq<nat> := [7, 4, 18]

  /** `id & 0x7F`, `(id & (0xF << 7)) >> 7`, `(id & (0x3FFFF << 11)) >> 11` on a Java int. */
  function SplitId(id: int): (r: CanId)
    ensures r.nodeId < 0x80 && r.functionCode < 0x10 && r.extendedId < 0x4_0000
  {
    Pow2Table();
    assert Pow2(4) == 16 && Pow2(18) == 0x4_0000 by {
      Pow2Add(2, 2);
      Pow2Add(16, 2);
    }
    CanId(Field(U32(id), 0, 7), Field(U32(id), 7, 4), Field(U32(id), 11, 18))
  }

  /** The identifier a sender builds from the three fields. */
  function JoinId(c: CanId): nat
  {
    PackFields([c.nodeId, c.functionCode, c.extendedId], IdWidths)
  }

  /** Splitting the identifier built from three fields that fit gives the fields back; the
      identifier is below 2^29, so it is a non-negative Java int. */
  lemma SplitJoinId(c: CanId)
    requires c.nodeId < 0x80 && c.functionCode < 0x10 && c.extendedId < 0x4_0000
    ensures JoinId(c) < 0x2000_0000
    ensures SplitId(JoinId(c)) == c
  {
    var fs := [c.nodeId, c.functionCode, c.extendedId];
    Pow2Table();
    assert Pow2(4) == 16 && Pow2(18) == 0x4_0000 && Pow2(29) == 0x2000_0000 by {
      Pow2Add(2, 2);
      Pow2Add(16, 2);
      Pow2Add(16, 13);
      Pow2Add(8, 5);
      Pow2Add(4, 1);
    }
    assert Offset(IdWidths, 1) == 7 && Offset(IdWidths, 2) == 11 && Offset(IdWidths, 3) == 29;
    PackedBound(fs, IdWidths);
    FieldOfPacked(fs, IdWidths, 0);
    FieldOfPacked(fs, IdWidths, 1);
    FieldOfPacked(fs, IdWidths, 2);
  }

  /* ---------------- `ceilDiv` ---------------- */

  /** `ceilDiv(a, b)` on Java ints: 0 for a non-positive divisor, else (a + b - 1) / b. */
  function CeilDiv(a: int, b: int): int
  {
    if b <= 0 then 0 else JavaDiv(ToInt32(a + b - 1), b)
  }

  /** Without overflow, `ceilDiv` is the ceiling of a / b: the least q with q * b >= a. */
  lemma CeilDivIsCeiling(a: int, b: int)
    requires 0 <= a && 0 < b && a + b - 1 < 0x8000_0000
    ensures CeilDiv(a, b) * b >= a
    ensures CeilDiv(a, b) == 0 || (CeilDiv(a, b) - 1) * b < a
  {
    var q := (a + b - 1) / b;
    assert CeilDiv(a, b) == q;
    assert q * b + (a + b - 1) % b == a + b - 1;
  }

  /* ---------------- the outbound command ---------------- */

  /** Every character of s before a and from b on is at most U+0020. */
  predicate BlankOutside(s: string, a: nat, b: nat)
    requires a <= b <= |s|
  {
    (forall k :: 0 <= k < a ==> s[k] <= ' ') && (forall k :: b <= k < |s| ==> s[k] <= ' ')
  }

  /** r is a slice s[a..b] with only characters up to U+0020 outside it. */
  predicate SliceWithin(s: string, r: string)
  {
    exists a: nat, b: nat :: a <= b <= |s| && r == s[a..b] && BlankOutside(s, a, b)
  }

  /** Java's `String.trim`: the slice of s left after stripping characters up to U+0020
      from both ends, so that it neither starts nor ends with one. */
  function Trim(s: string): (r: string)
    ensures |r| <= |s| && SliceWithin(s, r)
    ensures r == [] || (r[0] > ' ' && r[|r| - 1] > ' ')
    decreases |s|
  {
    if s == [] then
      assert s == s[0..0] && BlankOutside(s, 0, 0);
      s
    else if s[0] <= ' ' then
      var r := Trim(s[1..]);
      SliceWithinFront(s, r);
      r
    else if s[|s| - 1] <= ' ' then
      var r := Trim(s[..|s| - 1]);
      SliceWithinBack(s, r);
      r
    else
      assert s == s[0..|s|] && BlankOutside(s, 0, |s|);
      s
  }

  /** A slice within s without its blank first character is a slice within s. */
  lemma SliceWithinFront(s: string, r: string)
    requires |s| > 0 && s[0] <= ' ' && SliceWithin(s[1..], r)
    ensures SliceWithin(s, r)
  {
    var a: nat, b: nat :| a <= b <= |s[1..]| && r == s[1..][a..b] && BlankOutside(s[1..], a, b);
    assert r == s[a + 1..b + 1];
    forall k | 0 <= k < a + 1 ensures s[k] <= ' ' {
      if k > 0 { assert s[k] == s[1..][k - 1]; }
    }
    forall k | b + 1 <= k < |s| ensures s[k] <= ' ' {
      assert s[k] == s[1..][k - 1];
    }
    assert BlankOutside(s, a + 1, b + 1);
  }

  /** A slice within s without its blank last character is a slice within s. */
  lemma SliceWithinBack(s: string, r: string)
    requires |s| > 0 && s[|s| - 1] <= ' ' && SliceWithin(s[..|s| - 1], r)
    ensures SliceWithin(s, r)
  {
    var t := s[..|s| - 1];
    var a: nat, b: nat :| a <= b <= |t| && r == t[a..b] && BlankOutside(t, a, b);
    assert r == s[a..b];
    forall k | 0 <= k < a ensures s[k] <= ' ' {
      assert s[k] == t[k];
    }
    forall k | b <= k < |s| ensures s[k] <= ' ' {
      if k < |s| - 1 { assert s[k] == t[k]; }
    }
    assert BlankOutside(s, a, b);
  }

  predicate StartsWith(s: string, prefix: string)
  {
    |prefix| <= |s| && s[..|prefix|] == prefix
  }

  /** `s.replace("_", "")`. */
  function RemoveUnderscores(s: string): (r: string)
    ensures '_' !in r
  {
    if s == [] then s
    else (if s[0] == '_' then "" else [s[0]]) + RemoveUnderscores(s[1..])
  }

  predicate AllDigits(s: string)
  {
    forall i :: 0 <= i < |s| ==> '0' <= s[i] <= '9'
  }

  /** `Integer.parseInt` on decimal text: an optional sign and at least one digit, with a
      value inside the 32-bit range; anything else gives nothing. */
  function ParseInt(t: string): (r: Option<int>)
    ensures r.Some? ==> IsInt32(r.value)
  {
    if t == [] then None
    else
      var body := if t[0] == '-' || t[0] == '+' then t[1..] else t;
      if body == [] || !AllDigits(body) then None
      else
        var v: int := if t[0] == '-' then -(DigitsValue(body) as int) else DigitsValue(body);
        if IsInt32(v) then Some(v) else None
  }

  /** `parseInt32`: empty input, or `Integer.parseInt` failing on the input without
      underscores (no digits after an optional sign, a non-digit, or a value outside the
      32-bit range), gives nothing. */
  function ParseInt32(s: string): (r: Option<int>)
    ensures r.Some? ==> IsInt32(r.value)
  {
    if s == [] then None else ParseInt(RemoveUnderscores(s))
  }

  /** What `buildPayloadFromCommand` makes of a line of user input. */
  datatype CommandOutcome =
    | Payload(bytes: seq<byte>)
    | Unparsed        // an `updateValue` command whose number does not parse: no message
    | NotACommand     // anything else: a warning is posted

  const UpdateValue: string := "updateValue"

  /** The 8-byte message for `updateValue<N>`: N little-endian, then four zero bytes. */
  function CommandPayload(input: string): (r: CommandOutcome)
    ensures r.NotACommand? <==> !StartsWith(Trim(input), UpdateValue)
    ensures r.Unparsed? <==> (StartsWith(Trim(input), UpdateValue) &&
      ParseInt32(Trim(Trim(input)[|UpdateValue|..])).None?)
    ensures r.Payload? <==> (StartsWith(Trim(input), UpdateValue) &&
      ParseInt32(Trim(Trim(input)[|UpdateValue|..])).Some?)
    ensures r.Payload? ==> |r.bytes| == 8 && r.bytes[4..] == [0, 0, 0, 0]
    ensures r.Payload? ==> var n := ParseInt32(Trim(Trim(input)[|UpdateValue|..]));
      n.Some? && LE(r.bytes[..4]) == U32(n.value)
  {
    var t := Trim(input);
    if StartsWith(t, UpdateValue) then
      var parsed := ParseInt32(Trim(t[|UpdateValue|..]));
      if parsed.None? then Unparsed
      else
        var le := ToLE(U32(parsed.value), 4);
        Pow2Table();
        LEToLE(U32(parsed.value), 4);
        assert (le + [0, 0, 0, 0])[..4] == le;
        Payload(le + [0, 0, 0, 0])
    else NotACommand
  }

  lemma TrimUnpadded(s: string)
    requires |s| > 0 && s[0] > ' ' && s[|s| - 1] > ' '
    ensures Trim(s) == s
  {
  }

  lemma {:induction false} NoUnderscoresKept(s: string)
    requires '_' !in s
    ensures RemoveUnderscores(s) == s
    decreases |s|
  {
    if s != [] {
      assert s[1..] == s[1..] && '_' !in s[1..] by {
        forall i | 0 <= i < |s| - 1 ensures s[1..][i] != '_' { assert s[1..][i] == s[i + 1]; }
      }
      NoUnderscoresKept(s[1..]);
      assert s == [s[0]] + s[1..];
    }
  }

  /** Only blanks, characters up to U+0020. */
  predicate AllBlank(s: string)
  {
    forall k :: 0 <= k < |s| ==> s[k] <= ' '
  }

  /** Trimming removes exactly the blanks around text that neither starts nor ends with one. */
  lemma TrimSurrounded(pre: string, x: string, post: string)
    requires AllBlank(pre) && AllBlank(post)
    requires x != [] && x[0] > ' ' && x[|x| - 1] > ' '
    ensures Trim(pre + x + post) == x
  {
    var s := pre + x + post;
    var r := Trim(s);
    var a: nat, b: nat :| a <= b <= |s| && r == s[a..b] && BlankOutside(s, a, b);
    var first, last := |pre|, |pre| + |x| - 1;
    assert s[first] == x[0] && s[last] == x[|x| - 1];
    assert a <= first < b && b > last;
    assert r[0] == s[a] && r[|r| - 1] == s[b - 1];
    assert forall k :: 0 <= k < first ==> s[k] == pre[k];
    assert forall k :: last < k < |s| ==> s[k] == post[k - last - 1];
    assert a == first && b == last + 1;
    assert s[first..last + 1] == x;
  }

  /** Removing underscores works piece by piece. */
  lemma {:induction false} RemoveUnderscoresAppend(x: string, y: string)
    ensures RemoveUnderscores(x + y) == RemoveUnderscores(x) + RemoveUnderscores(y)
    decreases |x|
  {
    if x == [] {
      assert x + y == y;
    } else {
      assert (x + y)[0] == x[0] && (x + y)[1..] == x[1..] + y;
      RemoveUnderscoresAppend(x[1..], y);
    }
  }

  /** A single character is dropped exactly when it is an underscore. */
  lemma RemoveUnderscoresChar(c: char)
    ensures RemoveUnderscores([c]) == if c == '_' then [] else [c]
  {
    assert [c][1..] == [];
  }


  /** `Integer.toString` writes no underscore. */
  lemma DecimalWithoutUnderscore(v: int)
    ensures '_' !in Decimal(v)
  {
    var d := Decimal(v);
    if v < 0 {
      assert d == "-" + Digits(-v);
      forall i | 0 <= i < |d| ensures d[i] != '_' {
        if i > 0 { assert d[i] == Digits(-v)[i - 1]; }
      }
    }
  }

  /** `Integer.parseInt` reads back what `Integer.toString` writes. */
  lemma ParseDecimal(v: int)
    requires IsInt32(v)
    ensures ParseInt32(Decimal(v)) == Some(v)
  {
    var d := Decimal(v);
    DecimalWithoutUnderscore(v);
    NoUnderscoresKept(d);
    DecimalRoundTrip(v);
    if v < 0 {
      assert d[1..] == Digits(-v);
    }
  }

  /** The command `updateValue<N>` for a 32-bit N yields N's little-endian bytes, which read
      back as N in two's complement, followed by four zero bytes. */
  lemma UpdateValueRoundTrip(v: int)
    requires IsInt32(v)
    ensures var r := CommandPayload(UpdateValue + Decimal(v));
      r.Payload? && r.bytes == ToLE(U32(v), 4) + [0, 0, 0, 0] && ToInt32(LE(r.bytes[..4])) == v
  {
    var s := UpdateValue + Decimal(v);
    var d := Decimal(v);
    assert s[0] == 'u';
    assert s[|s| - 1] == d[|d| - 1];
    assert d[|d| - 1] > ' ' by {
      if v < 0 {
        assert d[|d| - 1] == Digits(-v)[|Digits(-v)| - 1];
      }
    }
    TrimUnpadded(s);
    assert s[..|UpdateValue|] == UpdateValue;
    assert s[|UpdateValue|..] == d;
    assert d[0] > ' ' by {
      if v >= 0 {
        assert d[0] == Digits(v)[0];
      }
    }
    TrimUnpadded(d);
    ParseDecimal(v);
    Pow2Table();
    LEToLE(U32(v), 4);
    var r := CommandPayload(s);
    assert r.bytes[..4] == ToLE(U32(v), 4);
    assert LE(r.bytes[..4]) == U32(v);
    SignedBack(v);
  }
  /** Trimming a padded command leaves its keyword at its head and, trimmed again, the
      number after it. */
  lemma PaddedCommandTrims(pre: string, keyword: string, mid: string, number: string, post: string)
    requires AllBlank(pre) && AllBlank(mid) && AllBlank(post)
    requires keyword != [] && keyword[0] > ' '
    requires number != [] && number[0] > ' ' && number[|number| - 1] > ' '
    ensures var t := Trim(pre + keyword + mid + number + post);
      StartsWith(t, keyword) && Trim(t[|keyword|..]) == number
  {
    var body := keyword + mid + number;
    TrimCommandLine(pre, keyword, mid, number, post);
    CommandPieces(pre, keyword, mid, number, post);
    assert Trim(body[|keyword|..]) == number by {
      TrimSurrounded(mid, number, []);
    }
  }

  lemma TrimCommandLine(pre: string, keyword: string, mid: string, number: string, post: string)
    requires AllBlank(pre) && AllBlank(post)
    requires keyword != [] && keyword[0] > ' '
    requires number != [] && number[|number| - 1] > ' '
    ensures Trim(pre + keyword + mid + number + post) == keyword + mid + number
  {
    CommandPieces(pre, keyword, mid, number, post);
    TrimSurrounded(pre, keyword + mid + number, post);
  }

  lemma CommandPieces(pre: string, keyword: string, mid: string, number: string, post: string)
    requires keyword != [] && number != []
    ensures var body := keyword + mid + number;
      pre + keyword + mid + number + post == pre + body + post &&
      body[0] == keyword[0] && body[|body| - 1] == number[|number| - 1] &&
      body[..|keyword|] == keyword && body[|keyword|..] == mid + number + []
  {
  }

  /** A command padded with blanks, with blanks between `updateValue` and the number and
      with underscores anywhere in the number, builds N's little-endian bytes and four zero
      bytes, as the plain command does. */
  lemma PaddedCommandRoundTrip(v: int, pre: string, mid: string, number: string, post: string)
    requires IsInt32(v)
    requires AllBlank(pre) && AllBlank(mid) && AllBlank(post)
    requires (forall k :: 0 <= k < |number| ==> number[k] > ' ') && RemoveUnderscores(number) == Decimal(v)
    ensures CommandPayload(pre + UpdateValue + mid + number + post) ==
      Payload(ToLE(U32(v), 4) + [0, 0, 0, 0])
  {
    assert number != [];
    PaddedCommandTrims(pre, UpdateValue, mid, number, post);
    DecimalWithoutUnderscore(v);
    NoUnderscoresKept(Decimal(v));
    ParseDecimal(v);
    assert ParseInt32(number) == Some(v);
  }

  /** The line "  updateValue 1_000 " builds the payload E8 03 00 00 00 00 00 00. */
  lemma PaddedCommandExample()
    ensures CommandPayload("  updateValue 1_000 ") == Payload([0xE8, 0x03, 0, 0, 0, 0, 0, 0])
  {
    ExampleLinePieces();
    ThousandWithUnderscore();
    PaddedCommandRoundTrip(1000, "  ", " ", "1_000", " ");
    ThousandBytes();
  }

  lemma ExampleLinePieces()
    ensures "  updateValue 1_000 " == "  " + UpdateValue + " " + "1_000" + " "
  {
    var line := "  updateValue 1_000 ";
    assert line[..2] == "  " && line[2..13] == UpdateValue && line[13..14] == " ";
    assert line[14..19] == "1_000" && line[19..] == " ";
    assert line == line[..2] + line[2..13] + line[13..14] + line[14..19] + line[19..];
  }

  lemma ThousandWithUnderscore()
    ensures RemoveUnderscores("1_000") == Decimal(1000)
  {
    ThousandDecimal();
    assert "1_000" == "1" + "_" + "000";
    RemoveUnderscoresAppend("1" + "_", "000");
    RemoveUnderscoresAppend("1", "_");
    NoUnderscoresKept("000");
    NoUnderscoresKept("1");
    RemoveUnderscoresChar('_');
  }

  lemma ThousandDecimal()
    ensures Decimal(1000) == "1000"
  {
    assert Digits(1) == "1" && Digits(10) == "10" && Digits(100) == "100";
  }

  lemma ThousandBytes()
    ensures ToLE(U32(1000), 4) + [0, 0, 0, 0] == [0xE8, 0x03, 0, 0, 0, 0, 0, 0]
  {
    assert U32(1000) == 1000;
    assert ToLE(0, 0) == [];
    assert ToLE(0, 1) == [0];
    assert ToLE(0, 2) == [0, 0];
    assert ToLE(3, 3) == [3, 0, 0];
    assert ToLE(1000, 4) == [0xE8, 0x03, 0, 0];
  }

  /** A 32-bit value's unsigned view read back as a Java int is the value. */
  lemma SignedBack(v: int)
    requires IsInt32(v)
    ensures ToInt32(U32(v)) == v
  {
  }

  /* ---------------- the bus-status word ---------------- */

  /** The eight counters of a bus-status update, as the sender packs them. */
  datatype BusStatus = BusStatus(state: nat, txError: nat, rxError: nat, busErrDelta: nat,
                                 txFailDelta: nat, rxOverDelta: nat, rxMissDelta: nat, msgsToRx: nat)

  const BusWidths: seq<nat> := [2, 8, 8, 12, 10, 10, 10, 4]

  function BusFields(b: BusStatus): seq<nat>
  {
    [b.state, b.txError, b.rxError, b.busErrDelta, b.txFailDelta, b.rxOverDelta, b.rxMissDelta, b.msgsToRx]
  }

  /** `parseBusStatusUpdate`'s field extraction, at bit offsets 0, 2, 10, 18, 30, 40, 50, 60 of
      the unsigned 64-bit word. */
  function UnpackBusStatus(d: nat): BusStatus
  {
    BusStatus(Field(d, 0, 2), Field(d, 2, 8), Field(d, 10, 8), Field(d, 18, 12),
              Field(d, 30, 10), Field(d, 40, 10), Field(d, 50, 10), Field(d, 60, 4))
  }

  /** Every decoded counter fits the width the sender gives it. */
  lemma UnpackFits(d: nat)
    ensures Fits(BusFields(UnpackBusStatus(d)), BusWidths)
  {
    FitsBusWidths(Field(d, 0, 2), Field(d, 2, 8), Field(d, 10, 8), Field(d, 18, 12),
                  Field(d, 30, 10), Field(d, 40, 10), Field(d, 50, 10), Field(d, 60, 4));
  }

  lemma FitsBusWidths(a0: nat, a1: nat, a2: nat, a3: nat, a4: nat, a5: nat, a6: nat, a7: nat)
    requires a0 < Pow2(2) && a1 < Pow2(8) && a2 < Pow2(8) && a3 < Pow2(12)
    requires a4 < Pow2(10) && a5 < Pow2(10) && a6 < Pow2(10) && a7 < Pow2(4)
    ensures Fits([a0, a1, a2, a3, a4, a5, a6, a7], BusWidths)
  {
  }

  /** The word a sender builds from the eight counters. */
  function PackBusStatus(b: BusStatus): nat
  {
    PackFields(BusFields(b), BusWidths)
  }

  /** Decoding the word a sender packed gives every counter back, and the widths fill exactly
      the 64-bit payload. */
  lemma BusStatusRoundTrip(b: BusStatus)
    requires Fits(BusFields(b), BusWidths)
    ensures PackBusStatus(b) < Pow2(64)
    ensures UnpackBusStatus(PackBusStatus(b)) == b
  {
    var fs := BusFields(b);
    BusOffsets();
    PackedBound(fs, BusWidths);
    BusField(b, 0, 0);
    BusField(b, 1, 2);
    BusField(b, 2, 10);
    BusField(b, 3, 18);
    BusField(b, 4, 30);
    BusField(b, 5, 40);
    BusField(b, 6, 50);
    BusField(b, 7, 60);
  }

  lemma BusOffsets()
    ensures Offset(BusWidths, 1) == 2 && Offset(BusWidths, 2) == 10 && Offset(BusWidths, 3) == 18
    ensures Offset(BusWidths, 4) == 30 && Offset(BusWidths, 5) == 40 && Offset(BusWidths, 6) == 50
    ensures Offset(BusWidths, 7) == 60 && Offset(BusWidths, 8) == 64
  {
  }

  /** Counter i of a packed bus-status word, read at its offset. */
  lemma BusField(b: BusStatus, i: nat, off: nat)
    requires Fits(BusFields(b), BusWidths) && i < 8 && off == Offset(BusWidths, i)
    ensures Field(PackBusStatus(b), off, BusWidths[i]) == BusFields(b)[i]
  {
    FieldOfPacked(BusFields(b), BusWidths, i);
  }

  /** The largest error counter and the largest dropped-message delta. */
  function ErrMax(b: BusStatus): nat
  {
    Max(b.txError, Max(b.rxError, b.busErrDelta))
  }

  function MsgMax(b: BusStatus): nat
  {
    Max(Max(b.txFailDelta, b.rxOverDelta), b.rxMissDelta)
  }

  /** The bus-status bands: critical when an error counter passes 200 or a delta passes 10;
      otherwise a warning when the controller is not running (state 1), an error counter passes
      100, any message was dropped, or more than 4 messages wait; otherwise OK. */
  function BusSeverity(b: BusStatus): (s: Severity)
    ensures s == Critical <==> b.txError > 200 || b.rxError > 200 || b.busErrDelta > 200 ||
                               b.txFailDelta > 10 || b.rxOverDelta > 10 || b.rxMissDelta > 10
    ensures s == Ok <==> b.state == 1 && b.txError <= 100 && b.rxError <= 100 && b.busErrDelta <= 100 &&
                         b.txFailDelta == 0 && b.rxOverDelta == 0 && b.rxMissDelta == 0 && b.msgsToRx <= 4
  {
    if ErrMax(b) > 200 || MsgMax(b) > 10 then Critical
    else if b.state != 1 || ErrMax(b) > 100 || MsgMax(b) > 0 || b.msgsToRx > 4 then Warning
    else Ok
  }

  /** Higher counters never give a milder status. */
  lemma BusSeverityMonotone(b: BusStatus, c: BusStatus)
    requires b.state == c.state && b.txError <= c.txError && b.rxError <= c.rxError
    requires b.busErrDelta <= c.busErrDelta && b.txFailDelta <= c.txFailDelta
    requires b.rxOverDelta <= c.rxOverDelta && b.rxMissDelta <= c.rxMissDelta && b.msgsToRx <= c.msgsToRx
    ensures Rank(BusSeverity(b)) <= Rank(BusSeverity(c))
  {
  }

  /* ---------------- data-point severity ---------------- */

  /** `checkDataValue`'s band: critical outside [minCritical, maxCritical], otherwise a warning
      outside [minWarning, maxWarning], otherwise OK. */
  function ValueSeverity(v: int, info: DataInfo): (s: Severity)
    ensures s == Critical <==> v < info.minCritical || v > info.maxCritical
    ensures s == Ok <==> info.minCritical <= v <= info.maxCritical && info.minWarning <= v <= info.maxWarning
  {
    if v < info.minCritical || v > info.maxCritical then Critical
    else if v < info.minWarning || v > info.maxWarning then Warning
    else Ok
  }

  /** With nested bands, moving away from the OK band never lowers the severity. */
  lemma ValueSeverityMonotone(info: DataInfo, u: int, v: int)
    requires info.minCritical <= info.minWarning <= info.maxWarning <= info.maxCritical
    requires info.minWarning <= u <= info.maxWarning || (u < info.minWarning && v <= u) ||
             (u > info.maxWarning && v >= u)
    ensures Rank(ValueSeverity(u, info)) <= Rank(ValueSeverity(v, info))
  {
  }

  /* ---------------- the data-frame walk ---------------- */

  /** Why `parseTransmitData` stopped early. */
  datatype Stop =
    | NoDataInfo(dataIndex: nat)
    | Overflow(dataIndex: nat)
    | BadBitLength(dataIndex: nat, bitLength: int)

  /** One decoded data point. */
  datatype Point = Point(key: DataKey, info: DataInfo, value: int)

  datatype Walked = Walked(points: seq<Point>, stop: Option<Stop>)

  /** The number of bits the points took. */
  function Used(ps: seq<Point>): int
  {
    if ps == [] then 0 else ps[0].info.bitLength + Used(ps[1..])
  }

  /** The value of one point: `(int)((data >> cursor) & ((1L << len) - 1)) + min`, with the cast
      and the addition wrapping as Java ints do. */
  function PointValue(data: nat, cursor: nat, info: DataInfo): int
    requires 0 <= info.bitLength
  {
    ToInt32(ToInt32(Field(data, cursor, info.bitLength)) + info.min)
  }

  /** The loop of `parseTransmitData` from point i with the cursor at `cursor`, over the
      unsigned 64-bit payload `data`. The overflow test adds the cursor and the width as Java
      ints, so a width near 2^31 wraps past it and is caught by the width test instead. */
  function WalkFrom(infos: map<DataKey, DataInfo>, nodeId: int, frameIndex: int, data: nat,
                    numData: int, i: nat, cursor: nat): Walked
    decreases numData - i
  {
    if i >= numData then Walked([], None)
    else
      var key := DataKey(nodeId, frameIndex, i);
      if key !in infos then Walked([], Some(NoDataInfo(i)))
      else
        var info := infos[key];
        if ToInt32(cursor + info.bitLength) > 64 then Walked([], Some(Overflow(i)))
        else if info.bitLength < 0 || info.bitLength > 32 then Walked([], Some(BadBitLength(i, info.bitLength)))
        else
          var rest := WalkFrom(infos, nodeId, frameIndex, data, numData, i + 1, cursor + info.bitLength);
          Walked([Point(key, info, PointValue(data, cursor, info))] + rest.points, rest.stop)
  }

  /** Point j of a walk that started at index i with the cursor at `cursor`: data index
      i + j, its registered info with a width in 0..32, read where the widths of the points
      before it end, and ending at or before bit 64. */
  ghost predicate DecodedAt(infos: map<DataKey, DataInfo>, nodeId: int, frameIndex: int, data: nat,
                            i: nat, cursor: nat, ps: seq<Point>, j: nat)
    requires j < |ps|
  {
    ps[j].key == DataKey(nodeId, frameIndex, i + j) && ps[j].key in infos &&
    ps[j].info == infos[ps[j].key] && 0 <= ps[j].info.bitLength <= 32 &&
    0 <= cursor + Used(ps[..j]) && cursor + Used(ps[..j + 1]) <= 64 &&
    ps[j].value == PointValue(data, cursor + Used(ps[..j]), ps[j].info)
  }

  ghost predicate AllDecoded(infos: map<DataKey, DataInfo>, nodeId: int, frameIndex: int, data: nat,
                             i: nat, cursor: nat, ps: seq<Point>)
  {
    forall j :: 0 <= j < |ps| ==> DecodedAt(infos, nodeId, frameIndex, data, i, cursor, ps, j)
  }

  lemma DecodedShift(infos: map<DataKey, DataInfo>, nodeId: int, frameIndex: int, data: nat,
                     i: nat, cursor: nat, p: Point, rest: seq<Point>, j: nat)
    requires 0 < j <= |rest| && 0 <= p.info.bitLength
    requires DecodedAt(infos, nodeId, frameIndex, data, i + 1, cursor + p.info.bitLength, rest, j - 1)
    ensures DecodedAt(infos, nodeId, frameIndex, data, i, cursor, [p] + rest, j)
  {
    var ps := [p] + rest;
    assert ps[..j + 1] == [p] + rest[..j];
    assert ps[..j] == [p] + rest[..j - 1];
    assert ps[j] == rest[j - 1];
  }

  /** What the walk decodes: every point it yields is `DecodedAt` its position. */
  lemma {:induction false} WalkDecodes(infos: map<DataKey, DataInfo>, nodeId: int, frameIndex: int,
                                       data: nat, numData: int, i: nat, cursor: nat)
    requires cursor <= 64
    ensures AllDecoded(infos, nodeId, frameIndex, data, i, cursor,
                       WalkFrom(infos, nodeId, frameIndex, data, numData, i, cursor).points)
    decreases numData - i
  {
    var w := WalkFrom(infos, nodeId, frameIndex, data, numData, i, cursor);
    var key := DataKey(nodeId, frameIndex, i);
    if i < numData && key in infos {
      var info := infos[key];
      if ToInt32(cursor + info.bitLength) <= 64 && 0 <= info.bitLength <= 32 {
        var c' := cursor + info.bitLength;
        WalkDecodes(infos, nodeId, frameIndex, data, numData, i + 1, c');
        var rest := WalkFrom(infos, nodeId, frameIndex, data, numData, i + 1, c');
        var p := Point(key, info, PointValue(data, cursor, info));
        assert w.points == [p] + rest.points;
        forall j | 0 <= j < |w.points|
          ensures DecodedAt(infos, nodeId, frameIndex, data, i, cursor, w.points, j)
        {
          if j == 0 {
            assert w.points[..1] == [p];
          } else {
            assert DecodedAt(infos, nodeId, frameIndex, data, i + 1, c', rest.points, j - 1);
            DecodedShift(infos, nodeId, frameIndex, data, i, cursor, p, rest.points, j);
          }
        }
      }
    }
  }

  /** Why and where the walk stopped: it covers every index below numData unless it stops,
      and it stops at the first index whose info is missing, whose width added to the cursor
      as a Java int passes bit 64, or whose width is outside 0..32. */
  ghost predicate StoppedRightly(infos: map<DataKey, DataInfo>, nodeId: int, frameIndex: int, numData: int,
                                 i: nat, cursor: nat, w: Walked)
  {
    var k := i + |w.points|;
    var key := DataKey(nodeId, frameIndex, k);
    var end := cursor + Used(w.points);
    match w.stop
    case None => k >= numData
    case Some(NoDataInfo(n)) => n == k < numData && key !in infos
    case Some(Overflow(n)) => n == k < numData && key in infos && ToInt32(end + infos[key].bitLength) > 64
    case Some(BadBitLength(n, len)) =>
      n == k < numData && key in infos && len == infos[key].bitLength && ToInt32(end + len) <= 64 && (len < 0 || len > 32)
  }

  lemma {:induction false} WalkStops(infos: map<DataKey, DataInfo>, nodeId: int, frameIndex: int,
                                     data: nat, numData: int, i: nat, cursor: nat)
    ensures StoppedRightly(infos, nodeId, frameIndex, numData, i, cursor,
                           WalkFrom(infos, nodeId, frameIndex, data, numData, i, cursor))
    decreases numData - i
  {
    var key := DataKey(nodeId, frameIndex, i);
    if i < numData && key in infos {
      var info := infos[key];
      if ToInt32(cursor + info.bitLength) <= 64 && 0 <= info.bitLength <= 32 {
        var c' := cursor + info.bitLength;
        WalkStops(infos, nodeId, frameIndex, data, numData, i + 1, c');
        var rest := WalkFrom(infos, nodeId, frameIndex, data, numData, i + 1, c');
        var p := Point(key, info, PointValue(data, cursor, info));
        var w := WalkFrom(infos, nodeId, frameIndex, data, numData, i, cursor);
        assert w == Walked([p] + rest.points, rest.stop);
        assert ([p] + rest.points)[1..] == rest.points;
        assert i + |w.points| == (i + 1) + |rest.points|;
        assert cursor + Used(w.points) == c' + Used(rest.points);
      }
    }
  }

  /** A width so large that the Java sum with the cursor wraps below zero passes the overflow
      test, and the walk stops on the width test instead. */
  lemma WrappedWidthIsInvalid(infos: map<DataKey, DataInfo>, nodeId: int, frameIndex: int,
                              data: nat, numData: int, i: nat, cursor: nat)
    requires i < numData && cursor <= 64 && DataKey(nodeId, frameIndex, i) in infos
    requires 0x8000_0000 - cursor <= infos[DataKey(nodeId, frameIndex, i)].bitLength < 0x8000_0000
    ensures WalkFrom(infos, nodeId, frameIndex, data, numData, i, cursor) ==
            Walked([], Some(BadBitLength(i, infos[DataKey(nodeId, frameIndex, i)].bitLength)))
  {
    var len := infos[DataKey(nodeId, frameIndex, i)].bitLength;
    assert ToInt32(cursor + len) == cursor + len - 0x1_0000_0000;
  }

  /* ---------------- the missing-frame countdown ---------------- */

  /** `FRAME_MONITOR_TICK_MS` and `MISSING_BACKOFF_MIN_MS`. */
  const FrameMonitorTickMs: int := 5
  const MissingBackoffMinMs: int := 1000

  /** One frame's countdown after a tick, and by how much it is overdue if the tick reports it. */
  datatype TickOutcome = TickOutcome(remaining: int, overdue: Option<int>)

  /** One tick of the frame monitor for a frame expected every `expected` ms: 5 ms come off;
      a countdown that falls below -5 is reported and restarts at max(expected, 1000). */
  function Tick(remaining: int, expected: int): (t: TickOutcome)
    ensures t.overdue.Some? <==> remaining < 0
    ensures t.overdue.Some? ==> t.remaining == Max(expected, MissingBackoffMinMs) && t.overdue.value > FrameMonitorTickMs
    ensures t.overdue.None? ==> t.remaining == remaining - FrameMonitorTickMs
    ensures t.remaining >= -FrameMonitorTickMs
  {
    var updated := remaining - FrameMonitorTickMs;
    if updated < -FrameMonitorTickMs then TickOutcome(Max(expected, MissingBackoffMinMs), Some(-updated))
    else TickOutcome(updated, None)
  }

  /** n ticks from `remaining` without a frame arriving: the countdown and the reports made. */
  datatype Countdown = Countdown(remaining: int, reports: nat)

  function Ticks(remaining: int, expected: int, n: nat): Countdown
    decreases n
  {
    if n == 0 then Countdown(remaining, 0)
    else
      var t := Tick(remaining, expected);
      var rest := Ticks(t.remaining, expected, n - 1);
      Countdown(rest.remaining, rest.reports + if t.overdue.Some? then 1 else 0)
  }

  /** While 5 n ms have not run 5 ms past the countdown, ticking only counts down. */
  lemma {:induction false} QuietWhileDue(remaining: int, expected: int, n: nat)
    requires FrameMonitorTickMs * n <= remaining + FrameMonitorTickMs
    ensures Ticks(remaining, expected, n) == Countdown(remaining - FrameMonitorTickMs * n, 0)
  {
    if n > 0 {
      QuietWhileDue(remaining - FrameMonitorTickMs, expected, n - 1);
    }
  }

  /** A silent frame is reported exactly once, on tick (remaining + 5) / 5 + 1, which restarts
      its countdown at max(expected, 1000); from a fresh countdown of T ms that is tick
      T / 5 + 2. */
  lemma FirstReport(remaining: int, expected: int)
    requires remaining >= -FrameMonitorTickMs
    ensures var n := (remaining + FrameMonitorTickMs) / FrameMonitorTickMs;
      Ticks(remaining, expected, n) == Countdown(remaining - FrameMonitorTickMs * n, 0) &&
      Ticks(remaining, expected, n + 1) == Countdown(Max(expected, MissingBackoffMinMs), 1)
  {
    var n := (remaining + FrameMonitorTickMs) / FrameMonitorTickMs;
    QuietWhileDue(remaining, expected, n);
    var r := remaining - FrameMonitorTickMs * n;
    assert r < 0;
    assert Ticks(r, expected, 1) == Countdown(Max(expected, MissingBackoffMinMs), 1);
    TicksSplit(remaining, expected, n, 1);
  }

  lemma {:induction false} TicksSplit(remaining: int, expected: int, m: nat, k: nat)
    ensures var a := Ticks(remaining, expected, m);
      var b := Ticks(a.remaining, expected, k);
      Ticks(remaining, expected, m + k) == Countdown(b.remaining, a.reports + b.reports)
    decreases m
  {
    if m > 0 {
      var t := Tick(remaining, expected);
      TicksSplit(t.remaining, expected, m - 1, k);
    }
  }

  /* ---------------- heartbeat pages ---------------- */

  /** Set bits among the k slot bits from `base`. */
  function CountSet(d: nat, base: nat, k: nat): nat
  {
    if k == 0 then 0 else CountSet(d, base, k - 1) + if BitSet(d, base + k - 1) then 1 else 0
  }

  /** Slot bit j, counted from `base`, is set. */
  predicate SlotSet(d: nat, base: nat, j: nat)
  {
    BitSet(d, base + j)
  }

  /** A status page is complete exactly when every slot bit is set. */
  lemma {:induction false} CountSetFull(d: nat, base: nat, k: nat)
    ensures CountSet(d, base, k) <= k
    ensures CountSet(d, base, k) == k <==> forall j :: 0 <= j < k ==> SlotSet(d, base, j)
  {
    if k > 0 {
      CountSetFull(d, base, k - 1);
      var all := forall j :: 0 <= j < k ==> SlotSet(d, base, j);
      if all {
        assert SlotSet(d, base, k - 1);
        assert CountSet(d, base, k - 1) == k - 1;
      } else if CountSet(d, base, k) == k {
        assert CountSet(d, base, k - 1) == k - 1;
        assert SlotSet(d, base, k - 1);
      }
    }
  }

  /** How many roster ids are in the window. */
  function CountIn(ids: seq<int>, window: set<int>): nat
  {
    if ids == [] then 0 else CountIn(ids[..|ids| - 1], window) + if ids[|ids| - 1] in window then 1 else 0
  }

  /** The pong window is complete exactly when every roster id ponged. */
  lemma {:induction false} CountInFull(ids: seq<int>, window: set<int>)
    ensures CountIn(ids, window) <= |ids|
    ensures CountIn(ids, window) == |ids| <==> forall j :: 0 <= j < |ids| ==> ids[j] in window
  {
    if ids != [] {
      var init := ids[..|ids| - 1];
      CountInFull(init, window);
      assert forall j :: 0 <= j < |init| ==> init[j] == ids[j];
    }
  }

  /** A page number below `ceilDiv(n, slots)` names a non-empty range of nodes inside the
      roster, and its slot bits end within the 64-bit word. */
  lemma PageInRange(n: int, slots: int, frameNo: nat, header: nat)
    requires 0 <= n && 0 < slots && n + slots - 1 < 0x8000_0000 && header + slots <= 64
    requires frameNo < CeilDiv(n, slots)
    ensures frameNo * slots < Min(n, frameNo * slots + slots)
    ensures header + (Min(n, frameNo * slots + slots) - frameNo * slots) <= 64
  {
    CeilDivIsCeiling(n, slots);
    var q := CeilDiv(n, slots);
    MulMonotone(frameNo, q - 1, slots);
  }

  /** One (id, time) slot of a heartbeat timing frame. */
  datatype TimingSlot = NullSlot | PairSlot(id: int, ms: int)

  /** The slots `parseHBTimingFrame` reads from slot i on with the cursor at `cursor`: a zero
      id is a null slot and leaves the cursor where it is. */
  function TimingFrom(d: nat, idBits: nat, msBits: nat, pairs: int, i: nat, cursor: nat): (r: seq<TimingSlot>)
    ensures |r| == if i < pairs then pairs - i else 0
    decreases pairs - i
  {
    if i >= pairs then []
    else
      var id := ToInt32(Field(d, cursor, idBits));
      if id == 0 then [NullSlot] + TimingFrom(d, idBits, msBits, pairs, i + 1, cursor)
      else
        var ms := ToInt32(Field(d, cursor + idBits, msBits));
        [PairSlot(id, ms)] + TimingFrom(d, idBits, msBits, pairs, i + 1, cursor + idBits + msBits)
  }

  /** Once a slot is null, every later slot is null too. */
  ghost predicate NullsLast(r: seq<TimingSlot>)
  {
    forall j, k :: 0 <= j < k < |r| && r[j].NullSlot? ==> r[k].NullSlot?
  }

  ghost predicate AllNull(r: seq<TimingSlot>)
  {
    forall k :: 0 <= k < |r| ==> r[k].NullSlot?
  }

  /** If slot j holds a pair, it is the j-th (id, time) pair of the packed word. */
  ghost predicate PairAt(d: nat, idBits: nat, msBits: nat, cursor: nat, r: seq<TimingSlot>, j: nat)
    requires j < |r|
  {
    r[j].PairSlot? ==>
      r[j] == PairSlot(ToInt32(Field(d, cursor + j * (idBits + msBits), idBits)),
                       ToInt32(Field(d, cursor + j * (idBits + msBits) + idBits, msBits)))
  }

  ghost predicate AllPairsAt(d: nat, idBits: nat, msBits: nat, cursor: nat, r: seq<TimingSlot>)
  {
    forall j :: 0 <= j < |r| ==> PairAt(d, idBits, msBits, cursor, r, j)
  }

  /** From a zero id on, every slot is null. */
  lemma {:induction false} NullsStay(d: nat, idBits: nat, msBits: nat, pairs: int, i: nat, cursor: nat)
    requires ToInt32(Field(d, cursor, idBits)) == 0
    ensures AllNull(TimingFrom(d, idBits, msBits, pairs, i, cursor))
    decreases pairs - i
  {
    if i < pairs {
      NullsStay(d, idBits, msBits, pairs, i + 1, cursor);
      var rest := TimingFrom(d, idBits, msBits, pairs, i + 1, cursor);
      var r := TimingFrom(d, idBits, msBits, pairs, i, cursor);
      assert r == [NullSlot] + rest;
      forall k | 0 <= k < |r| ensures r[k].NullSlot? {
        if k > 0 { assert r[k] == rest[k - 1]; }
      }
    }
  }

  /** Only the ids before the first zero are listed: after a null slot every later slot
      rereads the same zero. */
  lemma {:induction false} TimingNullsLast(d: nat, idBits: nat, msBits: nat, pairs: int, i: nat, cursor: nat)
    ensures NullsLast(TimingFrom(d, idBits, msBits, pairs, i, cursor))
    decreases pairs - i
  {
    if i < pairs {
      var r := TimingFrom(d, idBits, msBits, pairs, i, cursor);
      if ToInt32(Field(d, cursor, idBits)) == 0 {
        NullsStay(d, idBits, msBits, pairs, i, cursor);
      } else {
        var w := idBits + msBits;
        TimingNullsLast(d, idBits, msBits, pairs, i + 1, cursor + w);
        var rest := TimingFrom(d, idBits, msBits, pairs, i + 1, cursor + w);
        assert r == [r[0]] + rest;
        forall j, k | 0 <= j < k < |r| && r[j].NullSlot? ensures r[k].NullSlot? {
          assert r[j] == rest[j - 1];
          assert r[k] == rest[k - 1];
        }
      }
    }
  }

  /** The j-th slot that holds a pair reads the j-th (id, time) pair. */
  lemma {:induction false} TimingPairsAt(d: nat, idBits: nat, msBits: nat, pairs: int, i: nat, cursor: nat)
    ensures AllPairsAt(d, idBits, msBits, cursor, TimingFrom(d, idBits, msBits, pairs, i, cursor))
    decreases pairs - i
  {
    if i < pairs {
      var r := TimingFrom(d, idBits, msBits, pairs, i, cursor);
      if ToInt32(Field(d, cursor, idBits)) == 0 {
        NullsStay(d, idBits, msBits, pairs, i, cursor);
        forall j | 0 <= j < |r| ensures PairAt(d, idBits, msBits, cursor, r, j) {
          assert r[j].NullSlot?;
        }
      } else {
        var w := idBits + msBits;
        TimingPairsAt(d, idBits, msBits, pairs, i + 1, cursor + w);
        var rest := TimingFrom(d, idBits, msBits, pairs, i + 1, cursor + w);
        assert r == [r[0]] + rest;
        forall j | 0 <= j < |r| ensures PairAt(d, idBits, msBits, cursor, r, j) {
          if j > 0 {
            PairShift(d, idBits, msBits, cursor, r[0], rest, j);
          }
        }
      }
    }
  }

  lemma PairShift(d: nat, idBits: nat, msBits: nat, cursor: nat, s: TimingSlot, rest: seq<TimingSlot>, j: nat)
    requires 0 < j <= |rest|
    requires AllPairsAt(d, idBits, msBits, cursor + idBits + msBits, rest)
    ensures PairAt(d, idBits, msBits, cursor, [s] + rest, j)
  {
    var w := idBits + msBits;
    assert PairAt(d, idBits, msBits, cursor + w, rest, j - 1);
    assert ([s] + rest)[j] == rest[j - 1];
    assert cursor + w + (j - 1) * w == cursor + j * w;
  }
}
