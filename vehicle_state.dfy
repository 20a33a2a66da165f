/** The dashboard back end's vehicle state (dashboard/src-tauri/src/lib.rs): the selected
    drive mode and a bounded event log, newest entry first, holding at most 80 entries. */
module VehicleState {

  datatype DriveMode = Park | Drive | Reverse

  /** The log capacity (`VecDeque::with_capacity(80)` and the `>= 80` test in `push_log`). */
  const LogCapacity: nat := 80

  /** The `Debug` spelling of a drive mode, as `format!("{:?}")` renders it. */
  function ModeName(m: DriveMode): string
  {
    match m
    case Park => "Park"
    case Drive => "Drive"
    case Reverse => "Reverse"
  }

  /** The log after `push_log(entry)`: drop the oldest entry when full, then put the new
      one at the front. */
  function PushedLog(logs: seq<string>, entry: string): (r: seq<string>)
    ensures r != [] && r[0] == entry
    ensures |logs| <= LogCapacity ==> |r| <= LogCapacity
    ensures |logs| < LogCapacity ==> r[1..] == logs
    ensures |logs| >= LogCapacity ==> r[1..] == logs[..|logs| - 1]
  {
    var kept := if |logs| >= LogCapacity then logs[..|logs| - 1] else logs;
    [entry] + kept
  }

  /** The log after pushing `entries` in order, one `push_log` per entry. */
  function PushedAll(logs: seq<string>, entries: seq<string>): seq<string>
    decreases |entries|
  {
    if entries == [] then logs
    else PushedLog(PushedAll(logs, entries[..|entries| - 1]), entries[|entries| - 1])
  }

  function Reversed(s: seq<string>): (r: seq<string>)
    ensures |r| == |s|
  {
    if s == [] then [] else [s[|s| - 1]] + Reversed(s[..|s| - 1])
  }

  function Take(s: seq<string>, n: nat): (r: seq<string>)
    ensures |r| == if |s| <= n then |s| else n
  {
    if |s| <= n then s else s[..n]
  }

  /** After any sequence of pushes onto a log within capacity, the log holds the newest 80
      entries of (the pushes, then the old log), newest first: nothing is lost before the
      log is full, and entries leave it only from the old end. */
  lemma {:induction false} PushedAllWindow(logs: seq<string>, entries: seq<string>)
    requires |logs| <= LogCapacity
    ensures PushedAll(logs, entries) == Take(Reversed(entries) + logs, LogCapacity)
    decreases |entries|
  {
    if entries != [] {
      var init := entries[..|entries| - 1];
      var e := entries[|entries| - 1];
      PushedAllWindow(logs, init);
      var prev := Take(Reversed(init) + logs, LogCapacity);
      assert Reversed(entries) + logs == [e] + (Reversed(init) + logs);
      var whole := Reversed(init) + logs;
      if |whole| < LogCapacity {
        assert PushedLog(prev, e) == [e] + whole;
      } else {
        assert prev == whole[..LogCapacity];
        assert PushedLog(prev, e) == [e] + whole[..LogCapacity - 1];
        assert ([e] + whole)[..LogCapacity] == [e] + whole[..LogCapacity - 1];
      }
    }
  }

  /** The state behind the mutex of `VehicleState`: the drive mode and the log. */
  class Vehicle {
    var driveMode: DriveMode
    var logs: seq<string>

    ghost predicate Valid()
      reads this
    {
      |logs| <= LogCapacity
    }

    /** `VehicleInternal::default`: parked, with one "telemetry online" entry. */
    constructor ()
      ensures Valid()
      ensures driveMode == Park && logs == ["telemetry online"]
    {
      driveMode := Park;
      logs := ["telemetry online"];
    }

    /** `push_log`. */
    method PushLog(entry: string)
      requires Valid()
      modifies this`logs
      ensures Valid()
      ensures logs == PushedLog(old(logs), entry)
    {
      if |logs| >= LogCapacity {
        logs := logs[..|logs| - 1];
      }
      logs := [entry] + logs;
    }

    /** `set_drive_mode`: records the mode, logs "drive -> <mode>" and echoes the mode. */
    method SetDriveMode(mode: DriveMode) returns (r: DriveMode)
      requires Valid()
      modifies this
      ensures Valid()
      ensures r == mode && driveMode == mode
      ensures logs == PushedLog(old(logs), "drive -> " + ModeName(mode))
    {
      driveMode := mode;
      PushLog("drive -> " + ModeName(mode));
      r := mode;
    }
  }
}
