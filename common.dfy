/** Shared vocabulary: bytes, optional values, powers of two, bit fields read with
    division and remainder, little- and big-endian byte orders, and the wrap-around of
    Java's 32-bit `int` and 64-bit `long`. */
module Bits {

  /** An unsigned octet. Java's signed `byte` is always read here through `& 0xFF`. */
  newtype byte = x: int | 0 <= x < 256

  datatype Option<T> = None | Some(value: T)

  /** 2^n */
  function Pow2(n: nat): (r: nat)
    ensures r >= 1
  {
    if n == 0 then 1 else 2 * Pow2(n - 1)
  }

  lemma {:induction false} Pow2Add(a: nat, b: nat)
    ensures Pow2(a + b) == Pow2(a) * Pow2(b)
  {
    if a > 0 {
      Pow2Add(a - 1, b);
    }
  }

  lemma {:induction false} Pow2Monotone(a: nat, b: nat)
    requires a <= b
    ensures Pow2(a) <= Pow2(b)
  {
    if a < b {
      Pow2Monotone(a, b - 1);
    }
  }

  /** The powers of two the byte and word widths use. */
  lemma Pow2Table()
    ensures Pow2(7) == 0x80 && Pow2(8) == 0x100 && Pow2(16) == 0x1_0000 && Pow2(32) == 0x1_0000_0000
  {
    assert Pow2(7) == 0x80 && Pow2(8) == 0x100 by {
      assert Pow2(1) == 2;
      assert Pow2(2) == 4;
      assert Pow2(3) == 8;
      assert Pow2(4) == 16;
      assert Pow2(5) == 32;
      assert Pow2(6) == 64;
      assert Pow2(7) == 0x80;
    }
    Pow2Add(8, 8);
    Pow2Add(16, 16);
  }

  /** Bits [off, off + width) of a non-negative number: `(x >> off) & ((1 << width) - 1)`. */
  function Field(x: nat, off: nat, width: nat): (r: nat)
    ensures r < Pow2(width)
  {
    (x / Pow2(off)) % Pow2(width)
  }

  /** Bit i of a non-negative number. */
  predicate BitSet(x: nat, i: nat)
  {
    Field(x, i, 1) == 1
  }

  lemma MulAtLeast(k: int, d: int)
    requires k >= 1 && d > 0
    ensures k * d >= d
  {
  }

  /** Division and remainder are determined by the equation x == q * d + r with 0 <= r < d. */
  lemma DivModUnique(x: int, d: int, q: int, r: int)
    requires d > 0 && 0 <= r < d && x == q * d + r
    ensures x / d == q && x % d == r
  {
    var q0, r0 := x / d, x % d;
    assert (q - q0) * d == r0 - r;
    if q > q0 {
      MulAtLeast(q - q0, d);
    } else if q < q0 {
      MulAtLeast(q0 - q, d);
    }
  }

  lemma ModAddMultiple(a: int, k: int, m: int)
    requires m > 0
    ensures (a + k * m) % m == a % m
  {
    DivModUnique(a + k * m, m, a / m + k, a % m);
  }

  /** Reducing a summand first does not change a sum's remainder. */
  lemma ModOfSum(x: int, y: int, m: int)
    requires m > 0
    ensures (x % m + y) % m == (x + y) % m
  {
    ModAddMultiple(x % m + y, x / m, m);
  }

  lemma DivModOfSum(lo: int, f: int, hi: int, p: int, w: int)
    requires p > 0 && w > 0 && 0 <= lo < p && 0 <= f < w
    ensures (lo + p * (f + w * hi)) / p % w == f
  {
    var y := f + w * hi;
    var x := lo + p * y;
    DivModUnique(x, p, y, lo);
    DivModUnique(y, w, hi, f);
  }

  /** Reading a field at offset off of a value shifted left by off gives the low bits back:
      the basis of every encode/decode round trip below. */
  lemma FieldOfSum(lo: nat, f: nat, hi: nat, off: nat, width: nat)
    requires lo < Pow2(off) && f < Pow2(width)
    ensures Field(lo + Pow2(off) * (f + Pow2(width) * hi), off, width) == f
  {
    DivModOfSum(lo, f, hi, Pow2(off), Pow2(width));
  }

  /** The unsigned view of a Java `int` (two's complement, 32 bits). */
  function U32(x: int): (r: nat)
    ensures r < 0x1_0000_0000
    ensures 0 <= x < 0x1_0000_0000 ==> r == x
  {
    x % 0x1_0000_0000
  }

  /** The unsigned view of a Java `long`. */
  function U64(x: int): (r: nat)
    ensures r < 0x1_0000_0000_0000_0000
    ensures 0 <= x < 0x1_0000_0000_0000_0000 ==> r == x
  {
    x % 0x1_0000_0000_0000_0000
  }

  predicate IsInt32(x: int)
  {
    -0x8000_0000 <= x < 0x8000_0000
  }

  predicate IsInt64(x: int)
  {
    -0x8000_0000_0000_0000 <= x < 0x8000_0000_0000_0000
  }

  /** A Java `(int)` cast: keep the low 32 bits and read them as two's complement. */
  function ToInt32(x: int): (r: int)
    ensures IsInt32(r)
    ensures (r - x) % 0x1_0000_0000 == 0
    ensures IsInt32(x) ==> r == x
  {
    var u := x % 0x1_0000_0000;
    if u < 0x8000_0000 then u else u - 0x1_0000_0000
  }

  /** A Java `(long)` reinterpretation of 64 unsigned bits. */
  function ToInt64(x: int): (r: int)
    ensures IsInt64(r)
    ensures (r - x) % 0x1_0000_0000_0000_0000 == 0
    ensures IsInt64(x) ==> r == x
  {
    var u := x % 0x1_0000_0000_0000_0000;
    if u < 0x8000_0000_0000_0000 then u else u - 0x1_0000_0000_0000_0000
  }

  /** The value of bytes read least significant first. */
  function LE(s: seq<byte>): (r: nat)
    ensures r < Pow2(8 * |s|)
  {
    if s == [] then 0
    else
      assert Pow2(8 * |s|) == 256 * Pow2(8 * (|s| - 1)) by { Pow2Add(8, 8 * (|s| - 1)); }
      s[0] as nat + 256 * LE(s[1..])
  }

  /** The n bytes of x, least significant first (the low n bytes when x is larger). */
  function ToLE(x: nat, n: nat): (r: seq<byte>)
    ensures |r| == n
  {
    if n == 0 then [] else [(x % 256) as byte] + ToLE(x / 256, n - 1)
  }

  lemma {:induction false} LEToLE(x: nat, n: nat)
    requires x < Pow2(8 * n)
    ensures LE(ToLE(x, n)) == x
  {
    if n > 0 {
      assert Pow2(8 * n) == 256 * Pow2(8 * (n - 1)) by { Pow2Add(8, 8 * (n - 1)); }
      LEToLE(x / 256, n - 1);
      assert ToLE(x, n)[1..] == ToLE(x / 256, n - 1);
    }
  }

  lemma {:induction false} ToLELE(s: seq<byte>)
    ensures ToLE(LE(s), |s|) == s
  {
    if s != [] {
      ToLELE(s[1..]);
      assert LE(s) % 256 == s[0] as nat;
      assert LE(s) / 256 == LE(s[1..]);
    }
  }

  /** The value of bytes read most significant first (network byte order). */
  function BE(s: seq<byte>): (r: nat)
    ensures r < Pow2(8 * |s|)
  {
    if s == [] then 0
    else
      assert Pow2(8 * |s|) == Pow2(8 * (|s| - 1)) * 256 by { Pow2Add(8 * (|s| - 1), 8); }
      BE(s[..|s| - 1]) * 256 + s[|s| - 1] as nat
  }

  /** The n low bytes of x, most significant first: Python's `struct.pack("!…")` field. */
  function ToBE(x: nat, n: nat): (r: seq<byte>)
    ensures |r| == n
  {
    if n == 0 then [] else ToBE(x / 256, n - 1) + [(x % 256) as byte]
  }

  lemma {:induction false} BEToBE(x: nat, n: nat)
    requires x < Pow2(8 * n)
    ensures BE(ToBE(x, n)) == x
  {
    if n > 0 {
      assert Pow2(8 * n) == Pow2(8 * (n - 1)) * 256 by { Pow2Add(8 * (n - 1), 8); }
      BEToBE(x / 256, n - 1);
      var r := ToBE(x, n);
      assert r[..|r| - 1] == ToBE(x / 256, n - 1);
    }
  }

  /** A prefix one longer is the shorter prefix and one more element. */
  lemma PrefixSnoc<T>(s: seq<T>, i: nat)
    requires 1 <= i <= |s|
    ensures s[..i] == s[..i - 1] + [s[i - 1]]
  {
  }

  /** The pieces of a header laid out back to back, recovered by slicing. */
  lemma ConcatParts<T>(a: seq<T>, b: seq<T>, c: seq<T>, d: seq<T>, e: seq<T>)
    ensures var s := a + b + c + d + e;
      var i, j, k, l := |a|, |a| + |b|, |a| + |b| + |c|, |a| + |b| + |c| + |d|;
      s[..i] == a && s[i..j] == b && s[j..k] == c && s[k..l] == d && s[l..] == e
  {
  }

  /** Concatenation regroups. */
  lemma AppendAssoc<T>(a: seq<T>, b: seq<T>, c: seq<T>)
    ensures a + b + c == a + (b + c)
  {
  }

  lemma FullPrefix<T>(s: seq<T>)
    ensures s[..|s|] == s
  {
  }

  /** Java's `/` on int: truncation toward zero (Dafny's is Euclidean). */
  function JavaDiv(a: int, b: int): (r: int)
    requires b != 0
    ensures a >= 0 && b > 0 ==> r == a / b
  {
    if (a >= 0) == (b > 0) then Abs(a) / Abs(b) else -(Abs(a) / Abs(b))
  }

  function Abs(a: int): (r: nat)
    ensures r == a || r == -a
  {
    if a < 0 then -a else a
  }

  function Min(a: int, b: int): (r: int)
    ensures r <= a && r <= b && (r == a || r == b)
  {
    if a < b then a else b
  }

  function Max(a: int, b: int): (r: int)
    ensures r >= a && r >= b && (r == a || r == b)
  {
    if a < b then b else a
  }

  /** Java's `Integer.toString`: decimal, with a leading '-' for negatives. */
  function Decimal(n: int): (r: string)
    ensures |r| > 0 && '.' !in r
  {
    if n < 0 then "-" + Digits(-n) else Digits(n)
  }

  function DigitChar(d: nat): (c: char)
    requires d < 10
    ensures '0' <= c <= '9'
  {
    (48 + d) as char
  }

  function Digits(n: nat): (r: string)
    ensures |r| > 0 && forall i :: 0 <= i < |r| ==> '0' <= r[i] <= '9'
    decreases n
  {
    if n < 10 then [DigitChar(n)] else Digits(n / 10) + [DigitChar(n % 10)]
  }

  /** The inverse of `Digits`. */
  function DigitsValue(s: string): nat
    decreases |s|
  {
    if s == [] then 0
    else
      var c := s[|s| - 1];
      DigitsValue(s[..|s| - 1]) * 10 + (if '0' <= c <= '9' then c as int - 48 else 0)
  }

  /** Reads back what `Decimal` writes. */
  function DecimalValue(s: string): int
  {
    if |s| > 0 && s[0] == '-' then -(DigitsValue(s[1..]) as int) else DigitsValue(s)
  }

  lemma {:induction false} DigitsRoundTrip(n: nat)
    ensures DigitsValue(Digits(n)) == n
    decreases n
  {
    if n >= 10 {
      DigitsRoundTrip(n / 10);
      var s := Digits(n);
      assert s[..|s| - 1] == Digits(n / 10);
    }
  }

  /** A number written by `Decimal` reads back as itself. */
  lemma DecimalRoundTrip(n: int)
    ensures DecimalValue(Decimal(n)) == n
  {
    if n < 0 {
      DigitsRoundTrip(-n);
      assert Decimal(n)[1..] == Digits(-n);
    } else {
      DigitsRoundTrip(n);
    }
  }
}
