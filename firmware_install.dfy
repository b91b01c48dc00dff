/** installFw of native-lib.cpp: a firmware update file (PUP) is validated,
    its `dev_flash_` segments are decrypted and unpacked one after the other,
    and progress is reported after each segment.

    The PUP parser, the SELF decrypter and the TAR reader are not part of this
    model: what they find is given as a `Firmware` value, and every call into
    the managed side is an event of the returned trace. */
module FirmwareInstall {
  import opened Common
  import opened NativeStrings
  import opened NativeProgress

  /** What pup_object reports about the file. */
  datatype PupStatus = PupOk | HashMismatch | PupBroken

  /** One update segment after decryption: how many files SCEDecrypter made of
      it, and whether extracting the third one as a TAR archive succeeded. */
  datatype Segment = Segment(parts: nat, extracted: bool)

  /** The contents of the firmware file as the foreign readers see them. */
  datatype Firmware = Firmware(
    readable: bool,               // the descriptor could be opened
    status: PupStatus,            // the PUP's own verdict
    manifestSize: nat,            // size of entry 0x300, 0 when absent
    members: seq<string>,         // the names in the entry-0x300 archive
    versionEntry: Option<string>, // entry 0x100, when present
    segment: string -> Segment,   // the outcome of unpacking each member
    devFlash: string,             // the configured dev_flash directory
    installedVersion: string)     // utils::get_firmware_version() afterwards

  /** What installFw returns, and everything it did on the way. */
  datatype Outcome = Outcome(ok: bool, trace: seq<Event>)

  const OpenFailed: string := "Failed to open file"
  const NotFirmware: string := "Selected file is not firmware update file"
  const Broken: string := "Firmware update file is broken"
  const NotDecompressed: string := "Firmware update file could not be decompressed"

  /** The message for a segment whose TAR contents cannot be extracted. */
  function TarInvalid(name: string): (m: string)
    ensures "TAR contents are invalid (package=" <= m
    ensures |m| == |name| + 35 && m[34..|m| - 1] == name && m[|m| - 1] == ')'
  {
    "TAR contents are invalid (package=" + name + ")"
  }

  /** The system-software entry installFw announces before unpacking. */
  function Vsh(devFlash: string): (g: GameInfo)
    ensures g.name == "VSH"
    ensures devFlash <= g.path && devFlash <= g.iconPath
  {
    GameInfo(devFlash + "/vsh/module/vsh.self", "VSH", devFlash + "vsh/resource/explore/icon/icon_home.png")
  }

  /** The version text: entry 0x100 up to its first newline. */
  function Version(fw: Firmware): string {
    TruncateAtNewline(fw.versionEntry.GetOr(""))
  }

  /** The events before the first segment is unpacked. */
  function Started(fw: Firmware): seq<Event> {
    [Probe, SentGames([Vsh(fw.devFlash)])]
  }

  /** installFw as a function: the checks in the order of the source, then
      the segments. */
  function InstallFwSpec(fw: Firmware, answer: Answers): Outcome {
    if !answer(0) then Outcome(false, [Probe])
    else if !fw.readable then Outcome(false, [Probe, Failure(OpenFailed)])
    else if fw.status == HashMismatch then Outcome(false, [Probe, Failure(NotFirmware)])
    else if fw.status != PupOk then Outcome(false, [Probe, Failure(Broken)])
    else if fw.manifestSize == 0 then Outcome(false, [Probe, Failure(Broken)])
    else if UpdateSegments(fw.members) == [] then Outcome(false, [Probe, Failure(Broken)])
    else if Version(fw) == [] then Outcome(false, [Probe, Failure(Broken)])
    else Segments(fw, UpdateSegments(fw.members), 0, Started(fw), answer)
  }

  /** The loop over the segments, from segment `i` on, after `trace`. */
  function Segments(fw: Firmware, names: seq<string>, i: nat, trace: seq<Event>, answer: Answers): Outcome
    requires i <= |names|
    decreases |names| - i
  {
    if i == |names| then
      Outcome(true, trace + [FirmwareInstalled(fw.installedVersion), Success(|names|, "")])
    else
      var seg := fw.segment(names[i]);
      if seg.parts < 3 then Outcome(false, trace + [Failure(NotDecompressed)])
      else if !seg.extracted then Outcome(false, trace + [Failure(TarInvalid(names[i]))])
      else
        var t := trace + [Extracted(names[i]), Report(i, |names|, "")];
        if !answer(|t| - 1) then Outcome(false, t)
        else Segments(fw, names, i + 1, t, answer)
  }

  /** Java_net_rpcs3_RPCS3_installFw. */
  method InstallFw(fw: Firmware, answer: Answers) returns (ok: bool, trace: seq<Event>)
    ensures Outcome(ok, trace) == InstallFwSpec(fw, answer)
  {
    trace := [Probe];
    if !answer(0) {
      return false, trace;
    }
    if !fw.readable {
      trace := trace + [Failure(OpenFailed)];
      assert InstallFwSpec(fw, answer) == Outcome(false, trace);
      return false, trace;
    }
    if fw.status == HashMismatch {
      trace := trace + [Failure(NotFirmware)];
      assert InstallFwSpec(fw, answer) == Outcome(false, trace);
      return false, trace;
    }
    if fw.status != PupOk || fw.manifestSize == 0 {
      trace := trace + [Failure(Broken)];
      assert InstallFwSpec(fw, answer) == Outcome(false, trace);
      return false, trace;
    }
    var names := UpdateSegments(fw.members);
    if names == [] {
      trace := trace + [Failure(Broken)];
      assert InstallFwSpec(fw, answer) == Outcome(false, trace);
      return false, trace;
    }
    var version := TruncateAtNewline(fw.versionEntry.GetOr(""));
    if version == [] {
      trace := trace + [Failure(Broken)];
      assert InstallFwSpec(fw, answer) == Outcome(false, trace);
      return false, trace;
    }
    assert Version(fw) == version && trace + [SentGames([Vsh(fw.devFlash)])] == Started(fw);
    ok, trace := UnpackSegments(fw, names, trace + [SentGames([Vsh(fw.devFlash)])], answer);
  }

  /** The loop of installFw over the update segments, after `start`. */
  method UnpackSegments(fw: Firmware, names: seq<string>, start: seq<Event>, answer: Answers)
    returns (ok: bool, trace: seq<Event>)
    ensures Outcome(ok, trace) == Segments(fw, names, 0, start, answer)
  {
    trace := start;
    var processed: nat := 0;
    while processed < |names|
      invariant processed <= |names|
      invariant Segments(fw, names, processed, trace, answer) == Segments(fw, names, 0, start, answer)
      decreases |names| - processed
    {
      var name := names[processed];
      var seg := fw.segment(name);
      ghost var next := trace + [Extracted(name), Report(processed, |names|, "")];
      assert Segments(fw, names, processed, trace, answer)
          == if seg.parts < 3 then Outcome(false, trace + [Failure(NotDecompressed)])
             else if !seg.extracted then Outcome(false, trace + [Failure(TarInvalid(name))])
             else if !answer(|next| - 1) then Outcome(false, next)
             else Segments(fw, names, processed + 1, next, answer);
      if seg.parts < 3 {
        return false, trace + [Failure(NotDecompressed)];
      }
      if !seg.extracted {
        return false, trace + [Failure(TarInvalid(name))];
      }
      trace := trace + [Extracted(name), Report(processed, |names|, "")];
      if !answer(|trace| - 1) {
        return false, trace;
      }
      processed := processed + 1;
    }
    trace := trace + [FirmwareInstalled(fw.installedVersion), Success(|names|, "")];
    ok := true;
  }

  /** Segment `k` decrypts into a TAR archive that extracts, and its report
      is answered with true. */
  predicate Passes(fw: Firmware, names: seq<string>, k: nat, answer: Answers)
    requires k < |names|
  {
    var seg := fw.segment(names[k]);
    seg.parts >= 3 && seg.extracted && answer(3 + 2 * k)
  }

  /** The events of the first `j` segments when all of them pass. */
  function Steps(names: seq<string>, j: nat): (s: seq<Event>)
    requires j <= |names|
    ensures |s| == 2 * j
    ensures forall k | 0 <= k < j :: s[2 * k] == Extracted(names[k])
    ensures forall k | 0 <= k < j :: s[2 * k + 1] == Report(k, |names|, "")
  {
    if j == 0 then [] else Steps(names, j - 1) + [Extracted(names[j - 1]), Report(j - 1, |names|, "")]
  }

  /** The firmware passes every check before the segment loop. */
  predicate Accepted(fw: Firmware) {
    fw.readable && fw.status == PupOk && fw.manifestSize > 0
    && UpdateSegments(fw.members) != [] && Version(fw) != []
  }

  /** After `j` passing segments the run continues with segment `j`, the
      trace holding one extraction and one report per segment. */
  lemma {:induction false} AfterPassing(fw: Firmware, names: seq<string>, j: nat, answer: Answers)
    requires j <= |names|
    requires forall k | 0 <= k < j :: Passes(fw, names, k, answer)
    ensures Segments(fw, names, 0, Started(fw), answer)
         == Segments(fw, names, j, Started(fw) + Steps(names, j), answer)
  {
    if j > 0 {
      AfterPassing(fw, names, j - 1, answer);
      var t := Started(fw) + Steps(names, j - 1);
      var t' := t + [Extracted(names[j - 1]), Report(j - 1, |names|, "")];
      assert Passes(fw, names, j - 1, answer);
      assert |t'| - 1 == 3 + 2 * (j - 1);
      assert t' == Started(fw) + Steps(names, j);
      assert Segments(fw, names, j - 1, t, answer) == Segments(fw, names, j, t', answer);
    } else {
      assert Started(fw) + Steps(names, 0) == Started(fw);
    }
  }

  /** A file that fails a check before the loop never reaches a segment: the
      run ends with the one failure that check reports. */
  lemma EarlyFailures(fw: Firmware, answer: Answers)
    requires answer(0)
    ensures !fw.readable ==> InstallFwSpec(fw, answer) == Outcome(false, [Probe, Failure(OpenFailed)])
    ensures fw.readable && fw.status == HashMismatch ==>
      InstallFwSpec(fw, answer) == Outcome(false, [Probe, Failure(NotFirmware)])
    ensures fw.readable && fw.status == PupBroken ==>
      InstallFwSpec(fw, answer) == Outcome(false, [Probe, Failure(Broken)])
    ensures fw.readable && fw.status == PupOk && fw.manifestSize == 0 ==>
      InstallFwSpec(fw, answer) == Outcome(false, [Probe, Failure(Broken)])
    ensures (fw.readable && fw.status == PupOk && fw.manifestSize > 0 && UpdateSegments(fw.members) != []
      && (fw.versionEntry.None? || (fw.versionEntry.value != [] && fw.versionEntry.value[0] == '\n'))) ==>
      InstallFwSpec(fw, answer) == Outcome(false, [Probe, Failure(Broken)])
    ensures (fw.readable && fw.status == PupOk && fw.manifestSize > 0
      && forall n | n in fw.members :: !IsUpdateSegment(n)) ==>
      InstallFwSpec(fw, answer) == Outcome(false, [Probe, Failure(Broken)])
    ensures fw.readable && !Accepted(fw) ==>
      var r := InstallFwSpec(fw, answer);
      !r.ok && |r.trace| == 2 && r.trace[1].Reported? && r.trace[1].value == -1
  {
  }

  /** An accepted file goes on to the segment loop, after the probe and
      the VSH entry. */
  lemma SpecAccepted(fw: Firmware, answer: Answers)
    requires answer(0) && Accepted(fw)
    ensures InstallFwSpec(fw, answer) == Segments(fw, UpdateSegments(fw.members), 0, Started(fw), answer)
  {
  }

  /** A cancelled probe ends the run before anything else happens. */
  lemma ProbeCancelled(fw: Firmware, answer: Answers)
    requires !answer(0)
    ensures InstallFwSpec(fw, answer) == Outcome(false, [Probe])
  {
  }

  /** A successful installation: for an accepted file whose segments all
      pass, the trace is the probe, the VSH entry, an extraction and a report
      `k` of `N` for each segment `k` in order, the installed version and the
      success report for `N`. */
  lemma FullInstall(fw: Firmware, answer: Answers)
    requires answer(0) && Accepted(fw)
    requires var names := UpdateSegments(fw.members);
      forall k | 0 <= k < |names| :: Passes(fw, names, k, answer)
    ensures var names := UpdateSegments(fw.members);
      var r := InstallFwSpec(fw, answer);
      var n := |names|;
      r.ok && |r.trace| == 2 * n + 4
      && r.trace[0] == Probe && r.trace[1] == SentGames([Vsh(fw.devFlash)])
      && (forall k | 0 <= k < n :: r.trace[2 * k + 2] == Extracted(names[k]))
      && (forall k | 0 <= k < n :: r.trace[2 * k + 3] == Report(k, n, ""))
      && r.trace[2 * n + 2] == FirmwareInstalled(fw.installedVersion)
      && r.trace[2 * n + 3] == Success(n, "")
  {
    var names := UpdateSegments(fw.members);
    SpecAccepted(fw, answer);
    AfterPassing(fw, names, |names|, answer);
    var done := Started(fw) + Steps(names, |names|);
    assert InstallFwSpec(fw, answer).trace == done + [FirmwareInstalled(fw.installedVersion), Success(|names|, "")];
    FinishedLayout(fw, names);
  }

  /** Where each event of a run that unpacked every segment sits. */
  lemma FinishedLayout(fw: Firmware, names: seq<string>)
    ensures var n := |names|;
      var t := Started(fw) + Steps(names, n) + [FirmwareInstalled(fw.installedVersion), Success(n, "")];
      |t| == 2 * n + 4
      && t[0] == Probe && t[1] == SentGames([Vsh(fw.devFlash)])
      && (forall k | 0 <= k < n :: t[2 * k + 2] == Extracted(names[k]))
      && (forall k | 0 <= k < n :: t[2 * k + 3] == Report(k, n, ""))
      && t[2 * n + 2] == FirmwareInstalled(fw.installedVersion)
      && t[2 * n + 3] == Success(n, "")
  {
  }

  /** The first segment that does not pass decides the run: one that cannot
      be decompressed fails without being extracted, one whose archive is
      invalid fails naming it, one whose report is declined stops after its
      report; in every case nothing later is unpacked and false is returned. */
  lemma FirstFailingSegment(fw: Firmware, answer: Answers, j: nat)
    requires answer(0) && Accepted(fw)
    requires var names := UpdateSegments(fw.members);
      j < |names| && (forall k | 0 <= k < j :: Passes(fw, names, k, answer))
      && !Passes(fw, names, j, answer)
    ensures var names := UpdateSegments(fw.members);
      var r := InstallFwSpec(fw, answer);
      var seg := fw.segment(names[j]);
      var done := Started(fw) + Steps(names, j);
      !r.ok
      && (seg.parts < 3 ==> r.trace == done + [Failure(NotDecompressed)])
      && (seg.parts >= 3 && !seg.extracted ==> r.trace == done + [Failure(TarInvalid(names[j]))])
      && (seg.parts >= 3 && seg.extracted ==>
            r.trace == done + [Extracted(names[j]), Report(j, |names|, "")])
  {
    var names := UpdateSegments(fw.members);
    SpecAccepted(fw, answer);
    AfterPassing(fw, names, j, answer);
    assert |Started(fw) + Steps(names, j) + [Extracted(names[j]), Report(j, |names|, "")]| - 1 == 3 + 2 * j;
  }

  /** Every extraction in `trace` is of a segment among `names` that
      decrypted into at least three files. */
  predicate ExtractsDecrypted(fw: Firmware, names: seq<string>, trace: seq<Event>) {
    forall k | 0 <= k < |trace| && trace[k].Extracted? ::
      trace[k].member in names && fw.segment(trace[k].member).parts >= 3
  }

  lemma ExtractsDecryptedAppend(fw: Firmware, names: seq<string>, trace: seq<Event>, extra: seq<Event>)
    requires ExtractsDecrypted(fw, names, trace) && ExtractsDecrypted(fw, names, extra)
    ensures ExtractsDecrypted(fw, names, trace + extra)
  {
    forall k | 0 <= k < |trace + extra| && (trace + extra)[k].Extracted?
      ensures (trace + extra)[k].member in names && fw.segment((trace + extra)[k].member).parts >= 3
    {
      if k < |trace| {
        assert (trace + extra)[k] == trace[k];
      } else {
        assert (trace + extra)[k] == extra[k - |trace|];
      }
    }
  }

  /** Whatever happens, an extraction event is only ever recorded for an
      update segment that decrypted into at least three files. */
  lemma {:induction false} OnlyDecryptedExtracted(fw: Firmware, names: seq<string>, i: nat, trace: seq<Event>, answer: Answers)
    requires i <= |names|
    requires ExtractsDecrypted(fw, names, trace)
    ensures ExtractsDecrypted(fw, names, Segments(fw, names, i, trace, answer).trace)
    decreases |names| - i
  {
    var seg := if i < |names| then fw.segment(names[i]) else Segment(0, false);
    if i == |names| {
      ExtractsDecryptedAppend(fw, names, trace, [FirmwareInstalled(fw.installedVersion), Success(|names|, "")]);
    } else if seg.parts < 3 {
      ExtractsDecryptedAppend(fw, names, trace, [Failure(NotDecompressed)]);
    } else if !seg.extracted {
      ExtractsDecryptedAppend(fw, names, trace, [Failure(TarInvalid(names[i]))]);
    } else {
      var t := trace + [Extracted(names[i]), Report(i, |names|, "")];
      ExtractsDecryptedAppend(fw, names, trace, [Extracted(names[i]), Report(i, |names|, "")]);
      if answer(|t| - 1) {
        OnlyDecryptedExtracted(fw, names, i + 1, t, answer);
      }
    }
  }

  /** installFw returns true exactly when the file is accepted and every
      segment passes. */
  lemma SucceedsIff(fw: Firmware, answer: Answers)
    ensures InstallFwSpec(fw, answer).ok <==>
      answer(0) && Accepted(fw)
      && forall k | 0 <= k < |UpdateSegments(fw.members)| :: Passes(fw, UpdateSegments(fw.members), k, answer)
  {
    var names := UpdateSegments(fw.members);
    if answer(0) && Accepted(fw) {
      if forall k | 0 <= k < |names| :: Passes(fw, names, k, answer) {
        FullInstall(fw, answer);
      } else {
        var j := FirstFailure(fw, names, answer);
        FirstFailingSegment(fw, answer, j);
      }
    }
  }

  /** The index of the first segment that does not pass. */
  lemma FirstFailure(fw: Firmware, names: seq<string>, answer: Answers) returns (j: nat)
    requires exists k | 0 <= k < |names| :: !Passes(fw, names, k, answer)
    ensures j < |names| && !Passes(fw, names, j, answer)
    ensures forall k | 0 <= k < j :: Passes(fw, names, k, answer)
  {
    var k :| 0 <= k < |names| && !Passes(fw, names, k, answer);
    j := 0;
    while Passes(fw, names, j, answer)
      invariant j <= k
      invariant forall m | 0 <= m < j :: Passes(fw, names, m, answer)
      decreases k - j
    {
      j := j + 1;
    }
  }
}
