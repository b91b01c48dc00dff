/** installPkgFile of native-lib.cpp: a package is unpacked by a worker
    thread while the calling thread announces the package's title, polls the
    readers' progress, reports the average, and finally scans the installed
    titles.

    The worker thread, the package reader and the two-second sleep are not
    part of this model: what each poll sees is given as a `Snapshot`, and
    whether the worker succeeded as a boolean. */
module PackageInstall {
  import opened Common
  import opened NativeProgress
  import GameScan
  import ProgressRegistry

  /** The scale every reader's progress is reported in. */
  const MaxProgress: nat := 10000

  const InstallFailed: string := "Installation failed"

  /** What one round of the polling loop sees: whether extract_data has
      recorded an error, and each reader's progress scaled to MaxProgress. */
  datatype Snapshot = Snapshot(failed: bool, progress: seq<nat>)

  /** The inputs of one installation. */
  datatype Package = Package(
    psfs: seq<GameScan.Psf>,                // the PARAM.SFO of each reader
    polls: seq<Snapshot>,                   // the rounds of the polling loop
    workerOk: bool,                         // the worker thread's result
    gameDirs: seq<string>,                  // the game directories found under
                                            // the bootable paths it collected
    sfo: string -> Option<GameScan.Psf>,    // PARAM.SFO of each installed path
    hdd0: string)                           // the HDD0 directory

  /** What installPkgFile returns, or `StillPolling` when the given rounds
      end before the loop does. */
  datatype Result = Returned(value: bool) | StillPolling

  datatype Run = Run(result: Result, trace: seq<Event>)

  function Sum(xs: seq<nat>): nat {
    if xs == [] then 0 else Sum(xs[..|xs| - 1]) + xs[|xs| - 1]
  }

  /** The inner loop of one round: the error flag is looked at once per
      reader, before that reader's progress is added, so with no readers it
      is never looked at. */
  method Aggregate(s: Snapshot) returns (failed: bool, total: nat)
    ensures failed <==> s.failed && |s.progress| > 0
    ensures !failed ==> total == Sum(s.progress)
  {
    total := 0;
    var index := 0;
    while index < |s.progress|
      invariant index <= |s.progress|
      invariant total == Sum(s.progress[..index])
      invariant index > 0 ==> !s.failed
    {
      if s.failed {
        return true, total;
      }
      assert s.progress[..index + 1][..index] == s.progress[..index];
      total := total + s.progress[index];
      index := index + 1;
    }
    assert s.progress[..index] == s.progress;
    failed := false;
  }

  /** The event for one title of a reader's PARAM.SFO, if it names one. */
  function Announced(psf: GameScan.Psf, hdd0: string): (es: seq<Event>)
    ensures |es| <= 1
    ensures |es| == 1 <==> GameScan.ParsePsf("", psf, hdd0).Some?
    ensures |es| == 1 ==> es[0] == SentGames([GameScan.ParsePsf("", psf, hdd0).value])
  {
    match GameScan.ParsePsf("", psf, hdd0)
    case Some(info) => [SentGames([info])]
    case None => []
  }

  /** The announcements of all readers, in order. */
  function Announce(psfs: seq<GameScan.Psf>, hdd0: string): (es: seq<Event>)
    ensures |es| <= |psfs|
    ensures forall k | 0 <= k < |es| :: es[k].SentGames? && |es[k].infos| == 1
  {
    if psfs == [] then [] else Announce(psfs[..|psfs| - 1], hdd0) + Announced(psfs[|psfs| - 1], hdd0)
  }

  /** After the loop: the installed titles are scanned only when the worker
      succeeded, and true is returned either way. */
  function Finish(pkg: Package, trace: seq<Event>): Run {
    Run(Returned(true), if pkg.workerOk then trace + GameScan.ScanEvents(pkg.gameDirs, pkg.sfo, pkg.hdd0) else trace)
  }

  /** The polling loop from round `i` on, after `trace`. */
  function Polls(pkg: Package, i: nat, trace: seq<Event>, answer: Answers): Run
    requires i <= |pkg.polls|
    decreases |pkg.polls| - i
  {
    if i == |pkg.polls| then Run(StillPolling, trace)
    else
      var s := pkg.polls[i];
      var n := |s.progress|;
      if s.failed && n > 0 then Run(Returned(false), trace + [Failure(InstallFailed), AbortedAll])
      else if Sum(s.progress) == MaxProgress * n then Finish(pkg, trace + [Success(MaxProgress, "")])
      else
        var t := trace + [Report(Sum(s.progress) / n, MaxProgress, "")];
        if !answer(|t| - 1) then Run(Returned(false), t + [AbortedAll])
        else Polls(pkg, i + 1, t, answer)
  }

  /** installPkgFile as a function. */
  function InstallPkgSpec(pkg: Package, answer: Answers): Run {
    if !answer(0) then Run(Returned(false), [Probe])
    else Polls(pkg, 0, [Probe] + Announce(pkg.psfs, pkg.hdd0), answer)
  }

  /** The loop over the readers that sends each one's title. */
  method AnnounceReaders(psfs: seq<GameScan.Psf>, hdd0: string) returns (events: seq<Event>)
    ensures events == Announce(psfs, hdd0)
  {
    events := [];
    var r := 0;
    while r < |psfs|
      invariant r <= |psfs|
      invariant events == Announce(psfs[..r], hdd0)
    {
      assert psfs[..r + 1][..r] == psfs[..r];
      var gameInfo := GameScan.ParsePsf("", psfs[r], hdd0);
      if gameInfo.Some? {
        events := events + [SentGames([gameInfo.value])];
      }
      r := r + 1;
    }
    assert psfs[..r] == psfs;
  }

  /** Java_net_rpcs3_RPCS3_installPkgFile. */
  method InstallPkgFile(pkg: Package, answer: Answers) returns (result: Result, trace: seq<Event>)
    ensures Run(result, trace) == InstallPkgSpec(pkg, answer)
  {
    trace := [Probe];
    if !answer(0) {
      return Returned(false), trace;
    }
    var announced := AnnounceReaders(pkg.psfs, pkg.hdd0);
    trace := trace + announced;
    var i := 0;
    var finished := false;
    while i < |pkg.polls|
      invariant i <= |pkg.polls|
      invariant Polls(pkg, i, trace, answer) == InstallPkgSpec(pkg, answer)
    {
      var s := pkg.polls[i];
      var failed, total := Aggregate(s);
      if failed {
        return Returned(false), trace + [Failure(InstallFailed), AbortedAll];
      }
      assert Polls(pkg, i, trace, answer)
          == if total == MaxProgress * |s.progress| then Finish(pkg, trace + [Success(MaxProgress, "")])
             else var t := trace + [Report(total / |s.progress|, MaxProgress, "")];
               if !answer(|t| - 1) then Run(Returned(false), t + [AbortedAll])
               else Polls(pkg, i + 1, t, answer);
      if total == MaxProgress * |s.progress| {
        trace := trace + [Success(MaxProgress, "")];
        finished := true;
        break;
      }
      total := total / |s.progress|;
      trace := trace + [Report(total, MaxProgress, "")];
      if !answer(|trace| - 1) {
        return Returned(false), trace + [AbortedAll];
      }
      i := i + 1;
    }
    if !finished {
      return StillPolling, trace;
    }
    if pkg.workerOk {
      var scan := GameScan.CollectGameInfo(pkg.gameDirs, pkg.sfo, pkg.hdd0);
      trace := trace + scan;
    }
    result := Returned(true);
  }

  /** Every reader is at most at MaxProgress, as package_reader::get_progress
      scales it. */
  predicate Bounded(xs: seq<nat>) {
    forall k | 0 <= k < |xs| :: xs[k] <= MaxProgress
  }

  /** With bounded readers the total reaches `MaxProgress * n` exactly when
      every reader is complete, and never exceeds it. */
  lemma {:induction false} TotalCompleteIff(xs: seq<nat>)
    requires Bounded(xs)
    ensures Sum(xs) <= MaxProgress * |xs|
    ensures Sum(xs) == MaxProgress * |xs| <==> forall k | 0 <= k < |xs| :: xs[k] == MaxProgress
  {
    if xs != [] {
      var init := xs[..|xs| - 1];
      assert Bounded(init) by {
        forall k | 0 <= k < |init| ensures init[k] <= MaxProgress {
          assert init[k] == xs[k];
        }
      }
      TotalCompleteIff(init);
      assert MaxProgress * |xs| == MaxProgress * |init| + MaxProgress;
      if forall k | 0 <= k < |xs| :: xs[k] == MaxProgress {
        assert forall k | 0 <= k < |init| :: init[k] == xs[k];
      } else if Sum(xs) == MaxProgress * |xs| {
        assert Sum(init) == MaxProgress * |init| && xs[|xs| - 1] == MaxProgress;
        forall k | 0 <= k < |xs| ensures xs[k] == MaxProgress {
          if k < |init| {
            assert xs[k] == init[k];
          }
        }
      }
    }
  }

  /** A round that neither fails nor completes reports the floor of the
      average, which stays below MaxProgress, so ProgressRepository sees an
      operation that is determinate and neither finished nor failed. */
  lemma RoundReportInProgress(s: Snapshot)
    requires Bounded(s.progress)
    requires !(s.failed && |s.progress| > 0)
    requires Sum(s.progress) != MaxProgress * |s.progress|
    ensures |s.progress| > 0
    ensures var e := Report(Sum(s.progress) / |s.progress|, MaxProgress, "");
      var u := ProgressRegistry.ProgressUpdateEntry(e.value, e.max, e.message);
      0 <= e.value < MaxProgress && !u.IsFinished() && !u.IsFailed() && !u.IsIndeterminate()
  {
    TotalCompleteIff(s.progress);
    var n := |s.progress|;
    assert n > 0;
    assert Sum(s.progress) < MaxProgress * n;
  }

  /** How the polling loop ends: a failed or cancelled installation aborts
      every reader as its last step, after either the failure report or the
      declined progress report; a completed one ends with the success report
      for MaxProgress, followed by the scan of the installed titles exactly
      when the worker succeeded. */
  lemma {:induction false} PollsEnd(pkg: Package, i: nat, trace: seq<Event>, answer: Answers)
    requires i <= |pkg.polls|
    ensures var r := Polls(pkg, i, trace, answer);
      trace <= r.trace
      && (r.result == Returned(false) ==>
            |r.trace| >= |trace| + 2 && r.trace[|r.trace| - 1] == AbortedAll
            && (r.trace[|r.trace| - 2] == Failure(InstallFailed)
                || (r.trace[|r.trace| - 2].Reported? && r.trace[|r.trace| - 2].max == MaxProgress
                    && !answer(|r.trace| - 2))))
      && (r.result == Returned(true) ==>
            exists m: seq<Event> :: trace <= m && r.trace == m + [Success(MaxProgress, "")]
              + (if pkg.workerOk then GameScan.ScanEvents(pkg.gameDirs, pkg.sfo, pkg.hdd0) else []))
    decreases |pkg.polls| - i
  {
    if i < |pkg.polls| {
      var s := pkg.polls[i];
      var n := |s.progress|;
      if s.failed && n > 0 {
      } else if Sum(s.progress) == MaxProgress * n {
        var r := Polls(pkg, i, trace, answer);
        var scan := if pkg.workerOk then GameScan.ScanEvents(pkg.gameDirs, pkg.sfo, pkg.hdd0) else [];
        assert r.trace == trace + [Success(MaxProgress, "")] + scan;
      } else {
        var t := trace + [Report(Sum(s.progress) / n, MaxProgress, "")];
        if answer(|t| - 1) {
          PollsEnd(pkg, i + 1, t, answer);
          assert Polls(pkg, i, trace, answer) == Polls(pkg, i + 1, t, answer);
          var r := Polls(pkg, i, trace, answer);
          if r.result == Returned(true) {
            var m: seq<Event> :| t <= m && r.trace == m + [Success(MaxProgress, "")]
              + (if pkg.workerOk then GameScan.ScanEvents(pkg.gameDirs, pkg.sfo, pkg.hdd0) else []);
            assert trace <= m;
          }
        }
      }
    }
  }

  /** installPkgFile returns true only after the success report, and it does
      so whether or not the worker succeeded; when it returns false after an
      accepted probe, every reader was aborted last. */
  lemma PackageOutcomes(pkg: Package, answer: Answers)
    ensures var r := InstallPkgSpec(pkg, answer);
      |r.trace| > 0 && r.trace[0] == Probe
      && (!answer(0) ==> r == Run(Returned(false), [Probe]))
      && (answer(0) && r.result == Returned(false) ==> r.trace[|r.trace| - 1] == AbortedAll)
      && (r.result == Returned(true) ==> Success(MaxProgress, "") in r.trace)
  {
    if answer(0) {
      var start := [Probe] + Announce(pkg.psfs, pkg.hdd0);
      PollsEnd(pkg, 0, start, answer);
      var r := Polls(pkg, 0, start, answer);
      assert r.trace[0] == start[0];
      if r.result == Returned(true) {
        var m: seq<Event> :| start <= m && r.trace == m + [Success(MaxProgress, "")]
          + (if pkg.workerOk then GameScan.ScanEvents(pkg.gameDirs, pkg.sfo, pkg.hdd0) else []);
        assert r.trace[|m|] == Success(MaxProgress, "");
      }
    }
  }

  /** What the loop starts from once the probe is accepted: the probe and
      the announced titles. */
  function Start(pkg: Package): seq<Event> {
    [Probe] + Announce(pkg.psfs, pkg.hdd0)
  }

  /** A round whose error flag is seen. */
  predicate Fails(s: Snapshot) {
    s.failed && |s.progress| > 0
  }

  /** A round that finds every reader complete (with no readers, at once). */
  predicate Completes(s: Snapshot) {
    !Fails(s) && Sum(s.progress) == MaxProgress * |s.progress|
  }

  /** A round that neither fails nor completes, and so reports the average. */
  predicate Continues(s: Snapshot) {
    !Fails(s) && !Completes(s)
  }

  /** The value a continuing round reports. */
  function Average(s: Snapshot): (v: nat)
    ensures Continues(s) ==> |s.progress| > 0
    ensures |s.progress| > 0 ==> v * |s.progress| <= Sum(s.progress) < (v + 1) * |s.progress|
  {
    if |s.progress| == 0 then 0 else Sum(s.progress) / |s.progress|
  }

  /** Round `k` continues and the caller accepts its report. */
  predicate Proceeds(pkg: Package, k: nat, answer: Answers)
    requires k < |pkg.polls|
  {
    Continues(pkg.polls[k]) && answer(|Start(pkg)| + k)
  }

  /** The average reports of the first `j` rounds. */
  function Reports(pkg: Package, j: nat): (s: seq<Event>)
    requires j <= |pkg.polls|
    ensures |s| == j
    ensures forall k | 0 <= k < j :: s[k] == Report(Average(pkg.polls[k]), MaxProgress, "")
  {
    if j == 0 then [] else Reports(pkg, j - 1) + [Report(Average(pkg.polls[j - 1]), MaxProgress, "")]
  }

  /** A round that proceeds appends its average report and hands on to the
      next round. */
  lemma PollProceeds(pkg: Package, i: nat, trace: seq<Event>, answer: Answers)
    requires i < |pkg.polls| && |trace| == |Start(pkg)| + i
    requires Proceeds(pkg, i, answer)
    ensures Polls(pkg, i, trace, answer)
      == Polls(pkg, i + 1, trace + [Report(Average(pkg.polls[i]), MaxProgress, "")], answer)
  {
    assert |trace + [Report(Average(pkg.polls[i]), MaxProgress, "")]| - 1 == |Start(pkg)| + i;
  }

  /** After `j` rounds that proceed, the loop goes on with round `j`, the
      trace holding one report per round. */
  lemma {:induction false} AfterProceeding(pkg: Package, j: nat, answer: Answers)
    requires j <= |pkg.polls|
    requires forall k | 0 <= k < j :: Proceeds(pkg, k, answer)
    ensures Polls(pkg, 0, Start(pkg), answer) == Polls(pkg, j, Start(pkg) + Reports(pkg, j), answer)
  {
    if j > 0 {
      AfterProceeding(pkg, j - 1, answer);
      var s := pkg.polls[j - 1];
      var t := Start(pkg) + Reports(pkg, j - 1);
      var t' := t + [Report(Average(s), MaxProgress, "")];
      PollProceeds(pkg, j - 1, t, answer);
      assert t' == Start(pkg) + Reports(pkg, j);
    } else {
      assert Start(pkg) + Reports(pkg, 0) == Start(pkg);
    }
  }

  /** The first round that does not proceed decides the call: a failed
      round reports the failure and aborts every reader; a complete one
      reports success, scans the titles when the worker succeeded, and
      returns true; a continuing one whose report is declined aborts every
      reader after that report. In each case the rounds before it left one
      report each. */
  lemma DecidingRound(pkg: Package, answer: Answers, j: nat)
    requires answer(0)
    requires j < |pkg.polls| && (forall k | 0 <= k < j :: Proceeds(pkg, k, answer))
    requires !Proceeds(pkg, j, answer)
    ensures var r := InstallPkgSpec(pkg, answer);
      var s := pkg.polls[j];
      var done := Start(pkg) + Reports(pkg, j);
      (Fails(s) ==> r == Run(Returned(false), done + [Failure(InstallFailed), AbortedAll]))
      && (Completes(s) ==> r == Run(Returned(true), done + [Success(MaxProgress, "")]
            + (if pkg.workerOk then GameScan.ScanEvents(pkg.gameDirs, pkg.sfo, pkg.hdd0) else [])))
      && (Continues(s) ==> r == Run(Returned(false), done + [Report(Average(s), MaxProgress, ""), AbortedAll]))
  {
    AfterProceeding(pkg, j, answer);
    assert InstallPkgSpec(pkg, answer) == Polls(pkg, 0, Start(pkg), answer);
    assert |Start(pkg) + Reports(pkg, j) + [Report(Average(pkg.polls[j]), MaxProgress, "")]| - 1 == |Start(pkg)| + j
      by { if Continues(pkg.polls[j]) { } }
  }

  /** When every round proceeds, the given rounds run out with the loop
      still polling. */
  lemma AllRoundsProceed(pkg: Package, answer: Answers)
    requires answer(0)
    requires forall k | 0 <= k < |pkg.polls| :: Proceeds(pkg, k, answer)
    ensures InstallPkgSpec(pkg, answer) == Run(StillPolling, Start(pkg) + Reports(pkg, |pkg.polls|))
  {
    AfterProceeding(pkg, |pkg.polls|, answer);
  }

  /** The index of the first round that does not proceed. */
  lemma FirstStop(pkg: Package, answer: Answers) returns (j: nat)
    requires exists k | 0 <= k < |pkg.polls| :: !Proceeds(pkg, k, answer)
    ensures j < |pkg.polls| && !Proceeds(pkg, j, answer)
    ensures forall k | 0 <= k < j :: Proceeds(pkg, k, answer)
  {
    var k :| 0 <= k < |pkg.polls| && !Proceeds(pkg, k, answer);
    j := 0;
    while Proceeds(pkg, j, answer)
      invariant j <= k
      invariant forall m | 0 <= m < j :: Proceeds(pkg, m, answer)
      decreases k - j
    {
      j := j + 1;
    }
  }

  /** Only one round can be the first that does not proceed. */
  lemma SameStop(pkg: Package, answer: Answers, j: nat, j': nat)
    requires j < |pkg.polls| && !Proceeds(pkg, j, answer) && forall k | 0 <= k < j :: Proceeds(pkg, k, answer)
    requires j' < |pkg.polls| && !Proceeds(pkg, j', answer) && forall k | 0 <= k < j' :: Proceeds(pkg, k, answer)
    ensures j == j'
  {
  }

  /** installPkgFile returns true exactly when the probe is accepted and
      some round finds every reader complete, every earlier round having
      continued with its report accepted; it is still polling exactly when
      every given round proceeds; otherwise it returns false. */
  lemma SucceedsIff(pkg: Package, answer: Answers)
    ensures InstallPkgSpec(pkg, answer).result == Returned(true) <==>
      answer(0) && exists j | 0 <= j < |pkg.polls| ::
        Completes(pkg.polls[j]) && forall k | 0 <= k < j :: Proceeds(pkg, k, answer)
    ensures InstallPkgSpec(pkg, answer).result == StillPolling <==>
      answer(0) && forall k | 0 <= k < |pkg.polls| :: Proceeds(pkg, k, answer)
  {
    if answer(0) {
      if forall k | 0 <= k < |pkg.polls| :: Proceeds(pkg, k, answer) {
        AllRoundsProceed(pkg, answer);
        forall j | 0 <= j < |pkg.polls|
          ensures !Completes(pkg.polls[j])
        {
          assert Proceeds(pkg, j, answer);
        }
      } else {
        var j := FirstStop(pkg, answer);
        DecidingRound(pkg, answer, j);
        forall j' | 0 <= j' < |pkg.polls| && Completes(pkg.polls[j']) && (forall k | 0 <= k < j' :: Proceeds(pkg, k, answer))
          ensures j' == j
        {
          SameStop(pkg, answer, j, j');
        }
      }
    }
  }

  /** Titles announced before polling: one batch of one title per reader
      whose PARAM.SFO is bootable and has a title id, placed under the HDD0
      game directory. */
  lemma {:induction false} AnnouncedTitles(psfs: seq<GameScan.Psf>, hdd0: string)
    ensures var es := Announce(psfs, hdd0);
      forall k | 0 <= k < |es| ::
        hdd0 <= es[k].infos[0].path && es[k].infos[0].iconPath == es[k].infos[0].path + GameScan.IconFile
    ensures (forall k | 0 <= k < |psfs| :: GameScan.ParsePsf("", psfs[k], hdd0).Some?) ==> |Announce(psfs, hdd0)| == |psfs|
  {
    if psfs != [] {
      var init := psfs[..|psfs| - 1];
      AnnouncedTitles(init, hdd0);
      assert forall k | 0 <= k < |init| :: init[k] == psfs[k];
    }
  }
}
