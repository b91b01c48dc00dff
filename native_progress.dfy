/** The progress channel of native-lib.cpp (class Progress) and the record of
    everything the installer hands to the managed side.

    The JNI calls are not executed: each call becomes an `Event` appended to a
    trace, and the boolean that `report` gets back from the managed side is
    supplied by an `Answers` function, `answer(k)` being the reply to a report
    that is event number `k` of the trace. */
module NativeProgress {
  import opened Common
  import ProgressRegistry

  /** GameInfo of native-lib.cpp: a discovered title. */
  datatype GameInfo = GameInfo(path: string, name: string, iconPath: string)

  datatype Event =
    /** Progress::report(value, max, message); an empty message is sent as null. */
    | Reported(value: int, max: int, message: Option<string>)
    /** sendGameInfo: one batch of titles handed to GameRepository.add. */
    | SentGames(infos: seq<GameInfo>)
    /** tar_object::extract of one firmware segment returned true. */
    | Extracted(member: string)
    /** sendFirmwareInstalled(version). */
    | FirmwareInstalled(version: string)
    /** abort_extract on every package reader. */
    | AbortedAll

  /** The replies of the managed side to successive reports. */
  type Answers = nat -> bool

  /** Progress::report: `message.empty() ? nullptr : message`. */
  function Report(value: int, max: int, message: string): (e: Event)
    ensures e.Reported? && e.value == value && e.max == max
    ensures e.message.None? <==> message == []
    ensures e.message.Some? ==> e.message.value == message
  {
    Reported(value, max, if message == [] then None else Some(message))
  }

  /** Progress::failure: the `-1` sentinel against max 0. */
  function Failure(message: string): (e: Event)
    ensures e.Reported? && e.value == -1 && e.max == 0
    ensures e.message.None? <==> message == []
    ensures e.message.Some? ==> e.message.value == message
  {
    Report(-1, 0, message)
  }

  /** Progress::success: value and max both `max(value, 1)`. */
  function Success(value: int, message: string): (e: Event)
    ensures e.Reported? && e.value == e.max && e.max >= 1
    ensures value >= 1 ==> e.value == value
    ensures value < 1 ==> e.value == 1
    ensures e.message.None? <==> message == []
    ensures e.message.Some? ==> e.message.value == message
  {
    var clamped := if value < 1 then 1 else value;
    Report(clamped, clamped, message)
  }

  /** The `(0, 0)` probe every installer sends first. */
  const Probe: Event := Report(0, 0, "")

  /** How ProgressRepository classifies what the native side sends: the
      probe is indeterminate and not finished; a failure report is failed and
      finished; a success report is complete and finished, and not failed. */
  lemma SentinelsClassified(message: string, value: int)
    ensures var p := ProgressRegistry.ProgressUpdateEntry(Probe.value, Probe.max, Probe.message);
      p.IsIndeterminate() && !p.IsFinished()
    ensures var f := Failure(message);
      var u := ProgressRegistry.ProgressUpdateEntry(f.value, f.max, f.message);
      u.IsFailed() && u.IsFinished() && !u.IsComplete()
    ensures var s := Success(value, message);
      var u := ProgressRegistry.ProgressUpdateEntry(s.value, s.max, s.message);
      u.IsComplete() && u.IsFinished() && !u.IsFailed() && !u.IsIndeterminate()
  {
  }

  /** The batches of titles in a trace, in order. */
  function Batches(trace: seq<Event>): (bs: seq<seq<GameInfo>>)
    ensures |bs| <= |trace|
  {
    if trace == [] then []
    else
      var last := trace[|trace| - 1];
      Batches(trace[..|trace| - 1]) + (if last.SentGames? then [last.infos] else [])
  }

  /** All titles of a sequence of batches, in order. */
  function Flatten(bs: seq<seq<GameInfo>>): seq<GameInfo> {
    if bs == [] then [] else Flatten(bs[..|bs| - 1]) + bs[|bs| - 1]
  }

  /** Appending one event adds its batch, if it is one, at the end. */
  lemma BatchesSnoc(trace: seq<Event>, e: Event)
    ensures Batches(trace + [e]) == Batches(trace) + (if e.SentGames? then [e.infos] else [])
  {
    assert (trace + [e])[..|trace|] == trace;
  }
}
