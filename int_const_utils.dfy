/** Name tables for integer constants (IntConstUtils.java). A generated class declares
    `static final int` constants; the utility maps each value to the constant's name and uses
    the table to name a single code or to list the names of the flags set in a word. The
    reflective field scan becomes an explicit sequence of field declarations. */
module IntConst {
  import opened Bits

  /** One declared field as reflection reports it. */
  datatype FieldDecl = FieldDecl(name: string, isStatic: bool, isFinal: bool, isInt: bool, value: int)

  /** Only `static final int` fields enter the table. */
  predicate Eligible(f: FieldDecl)
  {
    f.isStatic && f.isFinal && f.isInt
  }

  /** The table `buildIntConstantMap` fills, one `put` per eligible field in scan order. */
  function TableOf(fs: seq<FieldDecl>): map<int, string>
    decreases |fs|
  {
    if fs == [] then map[]
    else
      var t := TableOf(fs[..|fs| - 1]);
      var f := fs[|fs| - 1];
      if Eligible(f) then t[f.value := f.name] else t
  }

  /** The index of the last eligible field holding v, or -1 when there is none. */
  function LastHolder(fs: seq<FieldDecl>, v: int): (r: int)
    ensures -1 <= r < |fs|
    ensures r >= 0 ==> Eligible(fs[r]) && fs[r].value == v
    ensures forall j :: r < j < |fs| ==> !(Eligible(fs[j]) && fs[j].value == v)
    decreases |fs|
  {
    if fs == [] then -1
    else if Eligible(fs[|fs| - 1]) && fs[|fs| - 1].value == v then |fs| - 1
    else LastHolder(fs[..|fs| - 1], v)
  }

  /** A value is in the table exactly when some eligible field holds it, and its name is that
      of the last such field: a later `put` overwrites an earlier one. */
  lemma {:induction false} TableOfLaterWins(fs: seq<FieldDecl>, v: int)
    ensures v in TableOf(fs) <==> LastHolder(fs, v) >= 0
    ensures v in TableOf(fs) ==> TableOf(fs)[v] == fs[LastHolder(fs, v)].name
    decreases |fs|
  {
    if fs != [] {
      var init := fs[..|fs| - 1];
      TableOfLaterWins(init, v);
      if LastHolder(fs, v) != |fs| - 1 {
        assert LastHolder(fs, v) == LastHolder(init, v);
        if LastHolder(init, v) >= 0 {
          assert fs[LastHolder(init, v)] == init[LastHolder(init, v)];
        }
      }
    }
  }

  /** `buildIntConstantMap`: one pass over the declared fields. */
  method BuildIntConstantMap(fs: seq<FieldDecl>) returns (m: map<int, string>)
    ensures m == TableOf(fs)
  {
    m := map[];
    for i := 0 to |fs|
      invariant m == TableOf(fs[..i])
    {
      assert fs[..i + 1][..i] == fs[..i];
      var f := fs[i];
      if f.isStatic && f.isFinal && f.isInt {
        m := m[f.value := f.name];
      }
    }
    assert fs[..|fs|] == fs;
  }

  /** `Optional.ofNullable(map.get(value))`. */
  function NameIn(t: map<int, string>, v: int): (r: Option<string>)
    ensures r.Some? <==> v in t
    ensures r.Some? ==> r.value == t[v]
  {
    if v in t then Some(t[v]) else None
  }

  /** Some bit among the low n bits is set in both a and b. */
  predicate CommonBit(a: nat, b: nat, n: nat)
  {
    n > 0 && ((a % 2 == 1 && b % 2 == 1) || CommonBit(a / 2, b / 2, n - 1))
  }

  /** `(value & flag) != 0` on two Java ints. */
  predicate FlagHit(value: int, flag: int)
  {
    CommonBit(U32(value), U32(flag), 32)
  }

  lemma {:induction false} NoCommonBitWithZero(a: nat, n: nat)
    ensures !CommonBit(a, 0, n) && !CommonBit(0, a, n)
  {
    if n > 0 {
      NoCommonBitWithZero(a / 2, n - 1);
    }
  }

  lemma {:induction false} CommonBitWithItself(a: nat, n: nat)
    requires 0 < a < Pow2(n)
    ensures CommonBit(a, a, n)
  {
    if a % 2 == 0 {
      CommonBitWithItself(a / 2, n - 1);
    }
  }

  /** A constant equal to 0 is never listed, nothing is listed for the word 0, and a nonzero
      constant is listed for a word equal to it. */
  lemma FlagHitBasics(value: int, flag: int)
    ensures !FlagHit(value, 0) && !FlagHit(0, flag)
    ensures U32(flag) != 0 ==> FlagHit(flag, flag)
  {
    NoCommonBitWithZero(U32(value), 32);
    NoCommonBitWithZero(U32(flag), 32);
    if U32(flag) != 0 {
      Pow2Table();
      CommonBitWithItself(U32(flag), 32);
    }
  }

  /** `String.join(sep, parts)`. */
  function Join(parts: seq<string>, sep: string): string
  {
    if parts == [] then ""
    else if |parts| == 1 then parts[0]
    else parts[0] + sep + Join(parts[1..], sep)
  }

  /** What `flagsFromInt` returns for the names that matched, in iteration order. */
  function FlagsText(matches: seq<string>): string
  {
    if matches == [] then "no flags set" else Join(matches, ", ")
  }

  /** A Java identifier: non-empty, and neither a space nor a comma in it. */
  predicate IdentifierLike(s: string)
  {
    |s| > 0 && forall i :: 0 <= i < |s| ==> s[i] != ' ' && s[i] != ','
  }

  lemma {:induction false} JoinOfTwoOrMoreHasComma(parts: seq<string>)
    requires |parts| >= 2
    ensures ',' in Join(parts, ", ")
  {
    var j := Join(parts, ", ");
    assert j == parts[0] + ", " + Join(parts[1..], ", ");
    assert j[|parts[0]|] == ',';
  }

  /** The result is "no flags set" exactly when nothing matched (constant names, being
      identifiers, can never spell that text or a join of it). */
  lemma NoFlagsTextIffNoMatch(matches: seq<string>)
    requires forall i :: 0 <= i < |matches| ==> IdentifierLike(matches[i])
    ensures FlagsText(matches) == "no flags set" <==> matches == []
  {
    var nf := "no flags set";
    assert nf[2] == ' ';
    assert ',' !in nf;
    if |matches| == 1 {
      assert FlagsText(matches) == matches[0];
      if |matches[0]| > 2 {
        assert matches[0][2] != ' ';
      }
    } else if |matches| >= 2 {
      JoinOfTwoOrMoreHasComma(matches);
    }
  }

  /** The entries of t whose value shares a bit with value. */
  function Hits(t: map<int, string>, value: int): set<int>
  {
    set k | k in t && FlagHit(value, k)
  }

  predicate Distinct(keys: seq<int>)
  {
    forall i, j :: 0 <= i < j < |keys| ==> keys[i] != keys[j]
  }

  /** The names of keys, in order. */
  function NamesOf(t: map<int, string>, keys: seq<int>): (r: seq<string>)
    requires forall i :: 0 <= i < |keys| ==> keys[i] in t
    ensures |r| == |keys|
    ensures forall i :: 0 <= i < |keys| ==> r[i] == t[keys[i]]
  {
    if keys == [] then [] else NamesOf(t, keys[..|keys| - 1]) + [t[keys[|keys| - 1]]]
  }

  lemma NoMemberMeansEmpty(s: set<int>)
    ensures (forall x :: x !in s) ==> s == {}
  {
    if forall x :: x !in s {
      assert s == {};
    }
  }

  lemma NonEmptyHasMember(s: set<int>)
    requires s != {}
    ensures exists x :: x in s
  {
    NoMemberMeansEmpty(s);
  }

  /** The loop of `flagsFromInt`: the map's entries are visited in an unspecified order (a
      HashMap's), each once; `keys` is that order restricted to the matching entries. */
  method MatchingNames(t: map<int, string>, value: int) returns (matches: seq<string>, ghost keys: seq<int>)
    ensures Distinct(keys) && (forall i :: 0 <= i < |keys| ==> keys[i] in t)
    ensures (set x | x in keys) == Hits(t, value)
    ensures matches == NamesOf(t, keys)
    ensures matches == [] <==> Hits(t, value) == {}
  {
    var remaining := t.Keys;
    matches, keys := [], [];
    while remaining != {}
      invariant remaining <= t.Keys
      invariant Distinct(keys) && forall i :: 0 <= i < |keys| ==> keys[i] in t && keys[i] !in remaining
      invariant forall x :: x in keys <==> x in t && x !in remaining && FlagHit(value, x)
      invariant matches == NamesOf(t, keys)
      decreases |remaining|
    {
      NonEmptyHasMember(remaining);
      var k :| k in remaining;
      if FlagHit(value, k) {
        matches := matches + [t[k]];
        keys := keys + [k];
      }
      remaining := remaining - {k};
    }
    KeysAreHits(t, value, keys);
  }

  lemma KeysAreHits(t: map<int, string>, value: int, keys: seq<int>)
    requires forall x :: x in keys <==> x in t && FlagHit(value, x)
    ensures (set x | x in keys) == Hits(t, value)
    ensures keys == [] <==> Hits(t, value) == {}
  {
    forall x | x in Hits(t, value)
      ensures x in (set y | y in keys)
    {
      assert x in t && FlagHit(value, x);
    }
    forall x | x in (set y | y in keys)
      ensures x in Hits(t, value)
    {
      assert x in keys;
    }
    if keys != [] {
      var x := keys[0];
      assert x in keys;
      assert x in Hits(t, value);
    }
  }

  /** The per-class table cache behind `nameFromInt` and `flagsFromInt`. `declared` holds,
      for each class the utilities are asked about, the fields reflection would report. */
  class ConstTables {
    const declared: map<string, seq<FieldDecl>>
    var cache: map<string, map<int, string>>

    ghost predicate Valid()
      reads this
    {
      forall c :: c in cache ==> c in declared && cache[c] == TableOf(declared[c])
    }

    constructor (declared: map<string, seq<FieldDecl>>)
      ensures Valid() && this.declared == declared && cache == map[]
    {
      this.declared := declared;
      cache := map[];
    }

    /** `cache.computeIfAbsent(clazz, buildIntConstantMap)`: a class's table is built on
        first use and reused afterwards. */
    method TableFor(c: string) returns (t: map<int, string>)
      requires Valid() && c in declared
      modifies this
      ensures Valid() && t == TableOf(declared[c])
      ensures c in cache && cache == old(cache)[c := t]
      ensures c in old(cache) ==> cache == old(cache)
    {
      if c in cache {
        t := cache[c];
      } else {
        t := BuildIntConstantMap(declared[c]);
        cache := cache[c := t];
      }
    }

    /** `nameFromInt`. */
    method NameFromInt(c: string, v: int) returns (r: Option<string>)
      requires Valid() && c in declared
      modifies this
      ensures Valid() && r == NameIn(TableOf(declared[c]), v)
    {
      var t := TableFor(c);
      r := NameIn(t, v);
    }

    /** `flagsFromInt`. */
    method FlagsFromInt(c: string, value: int) returns (s: string, ghost keys: seq<int>)
      requires Valid() && c in declared
      modifies this
      ensures Valid()
      ensures Distinct(keys) && (set x | x in keys) == Hits(TableOf(declared[c]), value)
      ensures forall i :: 0 <= i < |keys| ==> keys[i] in TableOf(declared[c])
      ensures s == FlagsText(NamesOf(TableOf(declared[c]), keys))
    {
      var t := TableFor(c);
      var matches;
      matches, keys := MatchingNames(t, value);
      if matches == [] {
        s := "no flags set";
      } else {
        s := Join(matches, ", ");
      }
    }
  }
}
