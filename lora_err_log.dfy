/** The transmitter's error log (mila-embedded/src/telemetryTX/LoraErrLog.cpp): negative
    codes come from the radio library and are kept, without repeats, in an 8-entry buffer;
    positive codes are the project's own and each sets one bit of a 32-bit flags word. */
module LoraErrLog {

  /** `maxRadioErrs`. */
  const MaxRadioErrs: nat := 8

  /** `maxErr_Code_Num`: the highest bit of the 32-bit flags word. */
  const MaxErrCodeNum: nat := 31

  /** The project's own codes (`custom_Vitals_Err_Codes`) that the transmitter raises. */
  const UnexpectedTxCompletion: int := 3
  const IncorrectProtocolId: int := 5
  const AckTimeout: int := 8
  const InvalidRxLength: int := 9
  const QueueOverflow: int := 10

  predicate Distinct(s: seq<int>)
  {
    forall i, j :: 0 <= i < j < |s| ==> s[i] != s[j]
  }

  /** The radio-library errors after `logErr(err)`: a negative code not already held is
      added at the end while there is room; anything else leaves them as they were. */
  function RadioErrsAfter(logged: seq<int>, err: int): (r: seq<int>)
    ensures r == logged || r == logged + [err]
    ensures r != logged <==> err < 0 && err !in logged && |logged| < MaxRadioErrs
    ensures |logged| <= MaxRadioErrs ==> |r| <= MaxRadioErrs
    ensures Distinct(logged) ==> Distinct(r)
  {
    if err < 0 && |logged| < MaxRadioErrs && err !in logged then logged + [err] else logged
  }

  /** The flags word after `logErr(err)`, as the set of its bits that are one: a code in
      1..31 sets its bit; zero, negative and too-large codes leave the word alone. */
  function FlagsAfter(flags: set<nat>, err: int): (r: set<nat>)
    ensures err <= 0 || err > MaxErrCodeNum ==> r == flags
    ensures 0 < err <= MaxErrCodeNum ==> err in r && r - {err} == flags - {err}
    ensures (forall b :: b in flags ==> b <= MaxErrCodeNum) ==> forall b :: b in r ==> b <= MaxErrCodeNum
  {
    if 0 < err <= MaxErrCodeNum then flags + {err as nat} else flags
  }

  /** Logging the same code twice has the effect of logging it once. */
  lemma LogTwiceSameAsOnce(logged: seq<int>, flags: set<nat>, err: int)
    ensures RadioErrsAfter(RadioErrsAfter(logged, err), err) == RadioErrsAfter(logged, err)
    ensures FlagsAfter(FlagsAfter(flags, err), err) == FlagsAfter(flags, err)
  {
  }

  /** The static error state of LoraErrLog.cpp. */
  class ErrLog {
    /** `RadioLibErrBuffer`, of which the first `count` entries are in use. */
    const buffer: array<int>
    var count: nat
    /** `custom_err_flags`, as the set of bit positions that are one. */
    var flags: set<nat>

    ghost predicate Valid()
      reads this, buffer
    {
      buffer.Length == MaxRadioErrs && count <= MaxRadioErrs &&
      Distinct(buffer[..count]) && (forall i :: 0 <= i < count ==> buffer[i] < 0) &&
      forall b :: b in flags ==> b <= MaxErrCodeNum
    }

    /** The radio-library errors held, oldest first. */
    ghost function Logged(): seq<int>
      reads this, buffer
      requires Valid()
    {
      buffer[..count]
    }

    constructor ()
      ensures Valid() && fresh(buffer)
      ensures Logged() == [] && flags == {}
    {
      buffer := new int[MaxRadioErrs](_ => 0);
      count := 0;
      flags := {};
    }

    /** `initErr`: no radio errors held and no flags set. */
    method InitErr()
      requires Valid()
      modifies this
      ensures Valid()
      ensures Logged() == [] && flags == {}
    {
      count := 0;
      flags := {};
    }

    /** `logErr`. */
    method LogErr(err: int)
      requires Valid()
      modifies this, buffer
      ensures Valid()
      ensures Logged() == RadioErrsAfter(old(Logged()), err)
      ensures flags == FlagsAfter(old(flags), err)
    {
      if err == 0 {
        return;
      }
      if err < 0 {
        if count == MaxRadioErrs {
          return;
        }
        for i := 0 to count
          invariant forall j :: 0 <= j < i ==> buffer[j] != err
        {
          if err == buffer[i] {
            assert err in Logged();
            return;
          }
        }
        assert err !in Logged();
        buffer[count] := err;
        count := count + 1;
        assert Logged() == old(Logged()) + [err];
      } else {
        if err > MaxErrCodeNum {
          return;
        }
        flags := flags + {err as nat};
      }
    }
  }
}
