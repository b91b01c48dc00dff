/** parsePsf and collectGameInfo of native-lib.cpp: turning the PARAM.SFO of
    each discovered directory into a title, and handing the titles to the
    game list in batches of ten.

    The file-system walk (collectGamePaths) and PARAM.SFO loading are I/O:
    the directories are a parameter, and `sfo(path)` is the loaded PARAM.SFO
    of a directory, `None` when it has no regular PARAM.SFO file. */
module GameScan {
  import opened Common
  import opened NativeProgress

  /** The PARAM.SFO entries parsePsf decides on (`psf::get_string` gives ""
      and `psf::get_integer` gives 0 for a missing entry). */
  datatype Psf = Psf(titleId: string, title: string, bootable: int)

  const IconFile: string := "/ICON0.PNG"

  /** Titles are sent in batches of this many. */
  const BatchSize: nat := 10

  /** parsePsf: no title for an entry that is not bootable or has no
      TITLE_ID; otherwise the title named TITLE at `path`, or, when `path` is
      empty, at the title's directory under the HDD0 game folder, with the
      icon ICON0.PNG inside that directory. */
  function ParsePsf(path: string, psf: Psf, hdd0: string): (r: Option<GameInfo>)
    ensures r.None? <==> psf.bootable == 0 || psf.titleId == []
    ensures r.Some? ==> r.value.name == psf.title
    ensures r.Some? ==> r.value.iconPath == r.value.path + IconFile
    ensures r.Some? && path != [] ==> r.value.path == path
    ensures r.Some? && path == [] ==> r.value.path == hdd0 + "game/" + psf.titleId + "/"
  {
    if psf.bootable == 0 || psf.titleId == [] then None
    else
      var dir := if path == [] then hdd0 + "game/" + psf.titleId + "/" else path;
      Some(GameInfo(dir, psf.title, dir + IconFile))
  }

  /** The title one directory contributes: none or one. */
  function Parsed(path: string, sfo: string -> Option<Psf>, hdd0: string): (r: seq<GameInfo>)
    ensures |r| <= 1
  {
    match sfo(path)
    case None => []
    case Some(psf) =>
      match ParsePsf(path, psf, hdd0)
      case None => []
      case Some(info) => [info]
  }

  /** The titles of a list of directories, in directory order. */
  function Accepted(paths: seq<string>, sfo: string -> Option<Psf>, hdd0: string): (r: seq<GameInfo>)
    ensures |r| <= |paths|
    ensures forall info | info in r :: info.iconPath == info.path + IconFile
  {
    if paths == [] then []
    else Accepted(paths[..|paths| - 1], sfo, hdd0) + Parsed(paths[|paths| - 1], sfo, hdd0)
  }

  /** The directories that yield a title are exactly those with a bootable
      PARAM.SFO that has a TITLE_ID. */
  lemma {:induction false} AcceptedCount(paths: seq<string>, sfo: string -> Option<Psf>, hdd0: string)
    ensures |Accepted(paths, sfo, hdd0)| == |Bootable(paths, sfo)|
  {
    if paths != [] {
      AcceptedCount(paths[..|paths| - 1], sfo, hdd0);
    }
  }

  /** The directories whose PARAM.SFO is bootable and has a TITLE_ID. */
  function Bootable(paths: seq<string>, sfo: string -> Option<Psf>): seq<string> {
    if paths == [] then []
    else
      var last := paths[|paths| - 1];
      Bootable(paths[..|paths| - 1], sfo)
        + (if sfo(last).Some? && sfo(last).value.bootable != 0 && sfo(last).value.titleId != [] then [last] else [])
  }

  /** The events collectGameInfo sends: a first report of 0 against the
      number of directories; then, alternately, a batch of titles and a
      report of how many directories have been looked at; then success. The
      batches hold every accepted title once, in order; each has between 1
      and 10 titles, and all but the last exactly 10. */
  predicate IsScanTrace(trace: seq<Event>, paths: seq<string>, sfo: string -> Option<Psf>, hdd0: string) {
    var n := |paths|;
    var batches := Batches(trace);
    && |trace| >= 2
    && trace[0] == Report(0, n, "")
    && trace[|trace| - 1] == Success(n, "")
    && Flatten(batches) == Accepted(paths, sfo, hdd0)
    && (forall i | 0 <= i < |batches| :: 1 <= |batches[i]| <= BatchSize)
    && (forall i | 0 <= i < |batches| - 1 :: |batches[i]| == BatchSize)
    && (forall i | 1 <= i < |trace| - 1 :: trace[i].SentGames? <==> i % 2 == 1)
    && (forall i | 1 <= i < |trace| - 1 && i % 2 == 0 ::
          trace[i].Reported? && trace[i].max == n && 1 <= trace[i].value <= n && trace[i].message.None?)
  }

  lemma FlattenSnoc(bs: seq<seq<GameInfo>>, b: seq<GameInfo>)
    ensures Flatten(bs + [b]) == Flatten(bs) + b
  {
    assert (bs + [b])[..|bs|] == bs;
  }

  /** The shape of the events between the first report and the success:
      batches at odd positions, each followed by a report of how many of the
      `n` directories have been looked at. */
  predicate Alternates(trace: seq<Event>, n: int) {
    && |trace| >= 1 && |trace| % 2 == 1
    && trace[0] == Report(0, n, "")
    && (forall i | 1 <= i < |trace| :: trace[i].SentGames? <==> i % 2 == 1)
    && (forall i | 1 <= i < |trace| && i % 2 == 0 ::
          trace[i].Reported? && trace[i].max == n && 1 <= trace[i].value <= n && trace[i].message.None?)
  }

  /** The events of one submit: the batch, then the report of how many of
      the `n` directories have been looked at. */
  function Submit(batch: seq<GameInfo>, processed: int, n: int): seq<Event> {
    [SentGames(batch), Report(processed, n, "")]
  }

  /** A submit adds its batch at the end of the batches. */
  lemma BatchesSubmit(trace: seq<Event>, batch: seq<GameInfo>, processed: int, n: int)
    ensures Batches(trace + Submit(batch, processed, n)) == Batches(trace) + [batch]
  {
    BatchesSnoc(trace, SentGames(batch));
    BatchesSnoc(trace + [SentGames(batch)], Report(processed, n, ""));
    assert trace + Submit(batch, processed, n) == trace + [SentGames(batch)] + [Report(processed, n, "")];
  }

  /** A submit keeps the alternation when its count is one of the `n`. */
  lemma AlternatesSubmit(trace: seq<Event>, batch: seq<GameInfo>, processed: int, n: int)
    requires Alternates(trace, n)
    requires 1 <= processed <= n
    ensures Alternates(trace + Submit(batch, processed, n), n)
  {
  }

  /** Looking at one more directory adds its title, if any, at the end. */
  lemma AcceptedStep(paths: seq<string>, k: nat, sfo: string -> Option<Psf>, hdd0: string)
    requires 0 < k <= |paths|
    ensures Accepted(paths[..k], sfo, hdd0) == Accepted(paths[..k - 1], sfo, hdd0) + Parsed(paths[k - 1], sfo, hdd0)
  {
    assert paths[..k][..k - 1] == paths[..k - 1];
  }

  /** The state of collectGameInfo's loop: the events sent and the titles
      collected but not yet sent. */
  datatype Scan = Scan(trace: seq<Event>, batch: seq<GameInfo>)

  /** One directory looked at: its title, if any (`found`), joins the
      batch, and a batch that reaches ten is sent together with the count
      `k` of directories looked at, and emptied. */
  function ScanStep(s: Scan, found: seq<GameInfo>, k: nat, n: nat): Scan {
    var batch := s.batch + found;
    if |batch| >= BatchSize then Scan(s.trace + Submit(batch, k, n), [])
    else Scan(s.trace, batch)
  }

  /** The loop state after looking at the first `k` directories. */
  function ScanPrefix(paths: seq<string>, k: nat, sfo: string -> Option<Psf>, hdd0: string): Scan
    requires k <= |paths|
  {
    if k == 0 then Scan([Report(0, |paths|, "")], [])
    else ScanStep(ScanPrefix(paths, k - 1, sfo, hdd0), Parsed(paths[k - 1], sfo, hdd0), k, |paths|)
  }

  /** The events after the loop: the last, partial batch if there is one,
      then success. */
  function Closed(s: Scan, n: int): seq<Event> {
    (if s.batch == [] then s.trace else s.trace + Submit(s.batch, n, n)) + [Success(n, "")]
  }

  /** The events collectGameInfo sends for a list of directories. */
  function ScanEvents(paths: seq<string>, sfo: string -> Option<Psf>, hdd0: string): seq<Event> {
    Closed(ScanPrefix(paths, |paths|, sfo, hdd0), |paths|)
  }

  /** The loop's events alternate between batches and counts. */
  lemma {:induction false} PrefixAlternates(paths: seq<string>, k: nat, sfo: string -> Option<Psf>, hdd0: string)
    requires k <= |paths|
    ensures Alternates(ScanPrefix(paths, k, sfo, hdd0).trace, |paths|)
  {
    if k > 0 {
      PrefixAlternates(paths, k - 1, sfo, hdd0);
      var prev := ScanPrefix(paths, k - 1, sfo, hdd0);
      var found := Parsed(paths[k - 1], sfo, hdd0);
      assert ScanPrefix(paths, k, sfo, hdd0) == ScanStep(prev, found, k, |paths|);
      AlternatesStep(prev, found, k, |paths|);
    }
  }

  /** A step whose count is one of the `n` keeps the alternation. */
  lemma AlternatesStep(prev: Scan, found: seq<GameInfo>, k: nat, n: nat)
    requires Alternates(prev.trace, n) && 1 <= k <= n
    ensures Alternates(ScanStep(prev, found, k, n).trace, n)
  {
    var batch := prev.batch + found;
    if |batch| >= BatchSize {
      AlternatesSubmit(prev.trace, batch, k, n);
    }
  }

  /** After `k` directories the batches sent, followed by the pending
      batch, are the titles of those directories, in order. */
  lemma {:induction false} PrefixTitles(paths: seq<string>, k: nat, sfo: string -> Option<Psf>, hdd0: string)
    requires k <= |paths|
    ensures var s := ScanPrefix(paths, k, sfo, hdd0);
      Flatten(Batches(s.trace)) + s.batch == Accepted(paths[..k], sfo, hdd0)
  {
    if k == 0 {
      assert paths[..0] == [];
      assert Batches([Report(0, |paths|, "")]) == [];
    } else {
      PrefixTitles(paths, k - 1, sfo, hdd0);
      AcceptedStep(paths, k, sfo, hdd0);
      var prev := ScanPrefix(paths, k - 1, sfo, hdd0);
      var found := Parsed(paths[k - 1], sfo, hdd0);
      assert ScanPrefix(paths, k, sfo, hdd0) == ScanStep(prev, found, k, |paths|);
      TitlesStep(prev, Accepted(paths[..k - 1], sfo, hdd0), found, k, |paths|);
    }
  }

  /** One step adds the title found after those sent or pending. */
  lemma TitlesStep(prev: Scan, done: seq<GameInfo>, found: seq<GameInfo>, k: nat, n: nat)
    requires Flatten(Batches(prev.trace)) + prev.batch == done
    ensures var s := ScanStep(prev, found, k, n);
      Flatten(Batches(s.trace)) + s.batch == done + found
  {
    var batch := prev.batch + found;
    var sent := Flatten(Batches(prev.trace));
    assert sent + batch == sent + prev.batch + found;
    if |batch| >= BatchSize {
      BatchesSubmit(prev.trace, batch, k, n);
      FlattenSnoc(Batches(prev.trace), batch);
      assert sent + batch + [] == sent + batch;
    }
  }

  /** Every batch sent in `trace` has exactly ten titles. */
  predicate AllFull(trace: seq<Event>) {
    var bs := Batches(trace);
    forall i | 0 <= i < |bs| :: |bs[i]| == BatchSize
  }

  /** Every batch the loop sends has exactly ten titles, and fewer than ten
      are ever pending. */
  lemma {:induction false} PrefixFull(paths: seq<string>, k: nat, sfo: string -> Option<Psf>, hdd0: string)
    requires k <= |paths|
    ensures |ScanPrefix(paths, k, sfo, hdd0).batch| < BatchSize
    ensures AllFull(ScanPrefix(paths, k, sfo, hdd0).trace)
  {
    if k == 0 {
      assert Batches([Report(0, |paths|, "")]) == [];
    } else {
      PrefixFull(paths, k - 1, sfo, hdd0);
      var prev := ScanPrefix(paths, k - 1, sfo, hdd0);
      var found := Parsed(paths[k - 1], sfo, hdd0);
      assert ScanPrefix(paths, k, sfo, hdd0) == ScanStep(prev, found, k, |paths|);
      FullStep(prev, found, k, |paths|);
    }
  }

  /** One step with at most one title keeps every sent batch full and the
      pending one short. */
  lemma FullStep(prev: Scan, found: seq<GameInfo>, k: nat, n: nat)
    requires |prev.batch| < BatchSize && |found| <= 1
    requires AllFull(prev.trace)
    ensures |ScanStep(prev, found, k, n).batch| < BatchSize
    ensures AllFull(ScanStep(prev, found, k, n).trace)
  {
    var batch := prev.batch + found;
    if |batch| >= BatchSize {
      BatchesSubmit(prev.trace, batch, k, n);
    }
  }

  /** A trace of alternating batches and reports that holds every accepted
      title in batches of ten, the last possibly shorter, becomes a scan
      trace once the success report is appended. */
  lemma SuccessCloses(body: seq<Event>, paths: seq<string>, sfo: string -> Option<Psf>, hdd0: string)
    requires Alternates(body, |paths|)
    requires Flatten(Batches(body)) == Accepted(paths, sfo, hdd0)
    requires forall i | 0 <= i < |Batches(body)| :: 1 <= |Batches(body)[i]| <= BatchSize
    requires forall i | 0 <= i < |Batches(body)| - 1 :: |Batches(body)[i]| == BatchSize
    ensures IsScanTrace(body + [Success(|paths|, "")], paths, sfo, hdd0)
  {
    var n := |paths|;
    var t := body + [Success(n, "")];
    BatchesSnoc(body, Success(n, ""));
    var bs := Batches(body);
    assert Batches(t) == bs;
    assert forall i | 0 <= i < |body| :: t[i] == body[i];
  }

  /** The last, partial batch closes the batches: all before it are full. */
  lemma LastBatch(trace: seq<Event>, batch: seq<GameInfo>, n: int)
    requires AllFull(trace)
    requires 1 <= |batch| < BatchSize
    ensures var bs := Batches(trace + Submit(batch, n, n));
      && (forall i | 0 <= i < |bs| :: 1 <= |bs[i]| <= BatchSize)
      && (forall i | 0 <= i < |bs| - 1 :: |bs[i]| == BatchSize)
  {
    BatchesSubmit(trace, batch, n, n);
  }

  /** Every list of directories gives a well-formed scan trace: the first
      report, alternating batches and counts, every accepted title once and
      in order, in batches of ten but the last, then success. */
  lemma ScanEventsWellFormed(paths: seq<string>, sfo: string -> Option<Psf>, hdd0: string)
    ensures IsScanTrace(ScanEvents(paths, sfo, hdd0), paths, sfo, hdd0)
  {
    var n := |paths|;
    PrefixAlternates(paths, n, sfo, hdd0);
    PrefixTitles(paths, n, sfo, hdd0);
    PrefixFull(paths, n, sfo, hdd0);
    assert paths[..n] == paths;
    ClosedWellFormed(ScanPrefix(paths, n, sfo, hdd0), paths, sfo, hdd0);
  }

  /** The loop's final state, closed, is a well-formed scan trace. */
  lemma ClosedWellFormed(last: Scan, paths: seq<string>, sfo: string -> Option<Psf>, hdd0: string)
    requires Alternates(last.trace, |paths|)
    requires Flatten(Batches(last.trace)) + last.batch == Accepted(paths, sfo, hdd0)
    requires |last.batch| < BatchSize && AllFull(last.trace)
    ensures IsScanTrace(Closed(last, |paths|), paths, sfo, hdd0)
  {
    var n := |paths|;
    var bs := Batches(last.trace);
    if last.batch == [] {
      assert Flatten(bs) + [] == Flatten(bs);
      SuccessCloses(last.trace, paths, sfo, hdd0);
    } else {
      assert |last.batch| <= |Accepted(paths, sfo, hdd0)| <= n;
      AlternatesSubmit(last.trace, last.batch, n, n);
      BatchesSubmit(last.trace, last.batch, n, n);
      FlattenSnoc(bs, last.batch);
      LastBatch(last.trace, last.batch, n);
      SuccessCloses(last.trace + Submit(last.batch, n, n), paths, sfo, hdd0);
    }
  }

  /** collectGameInfo over directories already found. Reports are sent
      without looking at the reply. */
  method CollectGameInfo(paths: seq<string>, sfo: string -> Option<Psf>, hdd0: string) returns (trace: seq<Event>)
    ensures trace == ScanEvents(paths, sfo, hdd0)
    ensures IsScanTrace(trace, paths, sfo, hdd0)
  {
    var n := |paths|;
    trace := [Report(0, n, "")];
    var batch: seq<GameInfo> := [];
    var processed := 0;
    while processed < n
      invariant 0 <= processed <= n
      invariant Scan(trace, batch) == ScanPrefix(paths, processed, sfo, hdd0)
    {
      var path := paths[processed];
      processed := processed + 1;
      var loaded := sfo(path);
      if loaded.Some? {
        var info := ParsePsf(path, loaded.value, hdd0);
        if info.Some? {
          batch := batch + [info.value];
          if |batch| >= BatchSize {
            trace := trace + [SentGames(batch), Report(processed, n, "")];
            batch := [];
          }
        }
      }
    }
    if batch != [] {
      trace := trace + [SentGames(batch), Report(n, n, "")];
    }
    trace := trace + [Success(n, "")];
    ScanEventsWellFormed(paths, sfo, hdd0);
  }
}
