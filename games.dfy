/** GameRepository.kt: the ordered list of games shown to the user, each with
    its list of running operations (install, compile, remove).

    `Game` objects are updated in place (their progress list and their
    name/icon), so `Game` and `GameRepository` are classes. Kotlin compares
    games with data-class equality, but the MutableState and SnapshotStateList
    fields it compares do not override `equals`, so two games are equal only
    when they are the same object: Dafny's reference equality. */
module Games {
  import opened Common

  /** GameInfo: what native code reports and what games.json stores. */
  datatype GameInfo = GameInfo(path: string, name: Option<string>, iconPath: Option<string>)

  /** GameInfoStore: the same three values as the game's observable state. Its
      two MutableState fields are only ever written through the owning `Game`,
      which holds the store in a `var`. */
  datatype GameInfoStore = GameInfoStore(path: string, name: Option<string>, iconPath: Option<string>)

  function ToStore(info: GameInfo): GameInfoStore {
    GameInfoStore(info.path, info.name, info.iconPath)
  }

  function ToInfo(store: GameInfoStore): GameInfo {
    GameInfo(store.path, store.name, store.iconPath)
  }

  /** toStore and toInfo are inverse to each other. */
  lemma {:induction false} StoreRoundTrip(info: GameInfo, store: GameInfoStore)
    ensures ToInfo(ToStore(info)) == info
    ensures ToStore(ToInfo(store)) == store
  {
  }

  datatype GameProgressType = Install | Compile | Remove

  datatype GameProgress = GameProgress(id: int, kind: GameProgressType)

  /** The path of the entry that stands for a package whose title is not yet known. */
  const Placeholder: string := "$"

  /** No two progress entries of the same type. */
  predicate AtMostOnePerType(ps: seq<GameProgress>) {
    forall i, j | 0 <= i < |ps| && 0 <= j < |ps| && ps[i].kind == ps[j].kind :: i == j
  }

  /** The entries of a given type, in order. */
  function OfKind(ps: seq<GameProgress>, kind: GameProgressType): (r: seq<GameProgress>)
    ensures forall p | p in r :: p in ps && p.kind == kind
    ensures forall p | p in ps && p.kind == kind :: p in r
    ensures IsSubsequence(r, ps)
  {
    Filter(ps, (p: GameProgress) => p.kind == kind)
  }

  /** The entries whose type is one of `kinds`, in order. */
  function OfKinds(ps: seq<GameProgress>, kinds: seq<GameProgressType>): (r: seq<GameProgress>)
    ensures forall p | p in r :: p in ps && p.kind in kinds
    ensures forall p | p in ps && p.kind in kinds :: p in r
    ensures IsSubsequence(r, ps)
  {
    Filter(ps, (p: GameProgress) => p.kind in kinds)
  }

  /** The entries of every other type, in order. */
  function WithoutKind(ps: seq<GameProgress>, kind: GameProgressType): (r: seq<GameProgress>)
    ensures forall p | p in r :: p in ps && p.kind != kind
    ensures forall p | p in ps && p.kind != kind :: p in r
    ensures AtMostOnePerType(ps) ==> AtMostOnePerType(r)
  {
    var keep := (p: GameProgress) => p.kind != kind;
    FilterKeepsAtMostOnePerType(ps, keep);
    Filter(ps, keep)
  }

  /** The entries that belong to any other operation id, in order. */
  function WithoutId(ps: seq<GameProgress>, id: int): (r: seq<GameProgress>)
    ensures forall p | p in r :: p in ps && p.id != id
    ensures forall p | p in ps && p.id != id :: p in r
    ensures AtMostOnePerType(ps) ==> AtMostOnePerType(r)
  {
    var keep := (p: GameProgress) => p.id != id;
    FilterKeepsAtMostOnePerType(ps, keep);
    Filter(ps, keep)
  }

  /** Removing entries never creates two entries of one type. */
  lemma {:induction false} FilterKeepsAtMostOnePerType(ps: seq<GameProgress>, keep: GameProgress -> bool)
    ensures AtMostOnePerType(ps) ==> AtMostOnePerType(Filter(ps, keep))
    decreases |ps|
  {
    if ps != [] && AtMostOnePerType(ps) {
      AtMostOnePerTypeCons(ps);
      FilterKeepsAtMostOnePerType(ps[1..], keep);
      if keep(ps[0]) {
        ConsAtMostOnePerType(ps[0], Filter(ps[1..], keep));
      }
    }
  }

  /** The tail of a list with at most one entry per type has the same
      property, and no entry of the head's type. */
  lemma {:induction false} AtMostOnePerTypeCons(ps: seq<GameProgress>)
    requires ps != [] && AtMostOnePerType(ps)
    ensures AtMostOnePerType(ps[1..])
    ensures forall p | p in ps[1..] :: p.kind != ps[0].kind
  {
    var tail := ps[1..];
    forall i, j | 0 <= i < |tail| && 0 <= j < |tail| && tail[i].kind == tail[j].kind
      ensures i == j
    {
      assert ps[i + 1].kind == ps[j + 1].kind;
    }
    forall p | p in tail ensures p.kind != ps[0].kind {
      var j :| 0 <= j < |tail| && tail[j] == p;
      assert ps[j + 1] == p;
    }
  }

  /** An entry whose type the rest does not have can go in front. */
  lemma {:induction false} ConsAtMostOnePerType(x: GameProgress, rest: seq<GameProgress>)
    requires AtMostOnePerType(rest)
    requires forall p | p in rest :: p.kind != x.kind
    ensures AtMostOnePerType([x] + rest)
  {
    var r := [x] + rest;
    forall j | 0 < j < |r| ensures r[j].kind != r[0].kind {
      assert r[j] in rest;
    }
    forall i, j | 0 <= i < |r| && 0 <= j < |r| && r[i].kind == r[j].kind
      ensures i == j
    {
      if i != 0 && j != 0 {
        assert rest[i - 1].kind == rest[j - 1].kind;
      }
    }
  }

  class Game {
    var info: GameInfoStore
    var progressList: seq<GameProgress>

    /** The invariant addProgress keeps: at most one progress per type. */
    ghost predicate Valid()
      reads this
    {
      AtMostOnePerType(progressList)
    }

    constructor (info: GameInfoStore)
      ensures this.info == info && progressList == []
      ensures Valid()
    {
      this.info := info;
      progressList := [];
    }

    /** findProgress(type): null when no entry has that type, otherwise all of them. */
    function FindProgress(kind: GameProgressType): (r: Option<seq<GameProgress>>)
      reads this
      ensures r.None? <==> forall p | p in progressList :: p.kind != kind
      ensures r.Some? ==> forall p | p in r.value :: p in progressList && p.kind == kind
      ensures r.Some? ==> forall p | p in progressList && p.kind == kind :: p in r.value
      ensures r.Some? ==> IsSubsequence(r.value, progressList)
    {
      var found := OfKind(progressList, kind);
      if found == [] then None else Some(found)
    }

    /** The test add uses to find its placeholder: the placeholder path, and
        an Install entry with id `progressId` among those findProgress finds. */
    function IsInstallPlaceholder(progressId: int): (b: bool)
      reads this
      ensures b <==> PlaceholderFor(Entry(info, progressList), progressId)
    {
      && info.path == Placeholder
      && var installs := FindProgress(Install);
      installs.Some? && GameProgress(progressId, Install) in installs.value
    }

    /** findProgress(types): null when no entry has one of the types, otherwise all of them. */
    function FindProgressAny(kinds: seq<GameProgressType>): (r: Option<seq<GameProgress>>)
      reads this
      ensures r.None? <==> forall p | p in progressList :: p.kind !in kinds
      ensures r.Some? ==> forall p | p in r.value :: p in progressList && p.kind in kinds
      ensures r.Some? ==> forall p | p in progressList && p.kind in kinds :: p in r.value
    {
      var found := OfKinds(progressList, kinds);
      if found == [] then None else Some(found)
    }

    /** addProgress: appends the entry, unless one of the same type is already
        there, in which case Kotlin throws InvalidParameterException (`ok` is
        false) and nothing changes. */
    method AddProgress(progress: GameProgress) returns (ok: bool)
      requires Valid()
      modifies this
      ensures Valid()
      ensures ok <==> old(FindProgress(progress.kind)).None?
      ensures info == old(info)
      ensures ok ==> progressList == old(progressList) + [progress]
      ensures !ok ==> progressList == old(progressList)
    {
      if FindProgress(progress.kind).Some? {
        ok := false;
        return;
      }
      ok := true;
      progressList := progressList + [progress];
      assert forall i | 0 <= i < |progressList| - 1 :: progressList[i] in old(progressList);
    }

    /** The else branch of add's loop: the reported name and icon replace the
        stored ones unless they are null, then an Install entry is added
        (addProgress may throw: `ok` false, the merged name and icon stay). */
    method Merge(reported: GameInfo, progressId: int) returns (ok: bool)
      requires Valid()
      modifies this
      ensures Valid()
      ensures info == old(info).(name := Elvis(reported.name, old(info.name)),
                                 iconPath := Elvis(reported.iconPath, old(info.iconPath)))
      ensures ok <==> !HasInstall(old(progressList))
      ensures ok ==> progressList == old(progressList) + [GameProgress(progressId, Install)]
      ensures !ok ==> progressList == old(progressList)
    {
      info := info.(name := Elvis(reported.name, info.name), iconPath := Elvis(reported.iconPath, info.iconPath));
      ok := AddProgress(GameProgress(progressId, Install));
    }

    /** removeProgress(type): drops every entry of that type, keeps the others
        in order, and answers whether anything was removed. */
    method RemoveProgress(kind: GameProgressType) returns (removed: bool)
      requires Valid()
      modifies this
      ensures Valid()
      ensures info == old(info)
      ensures progressList == WithoutKind(old(progressList), kind)
      ensures removed <==> exists p | p in old(progressList) :: p.kind == kind
    {
      removed := FindProgress(kind).Some?;
      progressList := WithoutKind(progressList, kind);
    }
  }

  /** The games of a list, as a set (for frames). */
  ghost function Elems(gs: seq<Game>): set<Game> {
    set g | g in gs
  }

  lemma {:induction false} ElemsCons(g: Game, gs: seq<Game>)
    ensures Elems([g] + gs) == Elems(gs) + {g}
  {
    assert forall h | h in [g] + gs :: h == g || h in gs;
  }

  /** Positions `i` and `j` of the list hold the same game. */
  ghost predicate SameAt(gs: seq<Game>, i: int, j: int) {
    0 <= i < |gs| && 0 <= j < |gs| && gs[i] == gs[j]
  }

  /** No game occurs twice in the list. (The trigger keeps the solver from
      pairing up every two positions it sees; proofs name the pair.) */
  ghost predicate Distinct(gs: seq<Game>) {
    forall i, j {:trigger SameAt(gs, i, j)} | SameAt(gs, i, j) :: i == j
  }

  /** Two positions of a list without duplicates hold different games. */
  lemma {:induction false} DistinctAt(gs: seq<Game>, i: nat, j: nat)
    requires Distinct(gs) && i < |gs| && j < |gs| && i != j
    ensures gs[i] != gs[j]
  {
    assert !SameAt(gs, i, j);
  }

  lemma {:induction false} DistinctPrefix(gs: seq<Game>, n: nat)
    requires Distinct(gs) && n <= |gs|
    ensures Distinct(gs[..n])
  {
    forall i, j | SameAt(gs[..n], i, j) ensures i == j {
      assert SameAt(gs, i, j);
    }
  }

  lemma {:induction false} DistinctCons(g: Game, gs: seq<Game>)
    requires Distinct(gs) && g !in gs
    ensures Distinct([g] + gs)
  {
    var r := [g] + gs;
    forall i, j | SameAt(r, i, j) ensures i == j {
      if i > 0 && j > 0 {
        assert SameAt(gs, i - 1, j - 1);
      }
    }
  }

  lemma {:induction false} DistinctSnoc(gs: seq<Game>, g: Game)
    requires Distinct(gs) && g !in gs
    ensures Distinct(gs + [g])
  {
    var r := gs + [g];
    forall i, j | SameAt(r, i, j) ensures i == j {
      if i < |gs| && j < |gs| {
        assert SameAt(gs, i, j);
      }
    }
  }

  /** Whether `g` is a placeholder whose install entry has id `id`. */
  ghost predicate IsPlaceholderFor(g: Game, id: int)
    reads g
  {
    PlaceholderFor(Entry(g.info, g.progressList), id)
  }

  /** What clearProgress's removeIf keeps: every game except the placeholders
      whose progress list is empty, in order. */
  ghost function KeptAfterClear(gs: seq<Game>): (r: seq<Game>)
    reads gs
    ensures forall g | g in r :: g in gs
    ensures forall g | g in gs && (g.info.path != Placeholder || g.progressList != []) :: g in r
    ensures forall g | g in r :: g.info.path != Placeholder || g.progressList != []
    ensures Distinct(gs) ==> Distinct(r)
  {
    if gs == [] then []
    else
      var last := gs[|gs| - 1];
      var front := KeptAfterClear(gs[..|gs| - 1]);
      assert forall g | g in gs[..|gs| - 1] :: g in gs;
      assert Distinct(gs) ==> Distinct(front) && Distinct(front + [last]) by {
        if Distinct(gs) {
          DistinctPrefix(gs, |gs| - 1);
          forall k | 0 <= k < |gs| - 1 ensures gs[k] != last {
            DistinctAt(gs, k, |gs| - 1);
          }
          assert last !in gs[..|gs| - 1];
          DistinctSnoc(front, last);
        }
      }
      assert forall g | g in gs :: g in gs[..|gs| - 1] || g == last by {
        forall g | g in gs ensures g in gs[..|gs| - 1] || g == last {
          var k :| 0 <= k < |gs| && gs[k] == g;
          if k < |gs| - 1 { assert gs[..|gs| - 1][k] == g; }
        }
      }
      if last.info.path == Placeholder && last.progressList == [] then front
      else front + [last]
  }

  /** The list save() writes to games.json: every game but the placeholders,
      in list order, as GameInfo. */
  ghost function SavedInfos(gs: seq<Game>): (r: seq<GameInfo>)
    reads gs
    ensures forall info | info in r :: info.path != Placeholder
    ensures forall g | g in gs && g.info.path != Placeholder :: ToInfo(g.info) in r
    ensures |r| <= |gs|
  {
    if gs == [] then []
    else
      var last := gs[|gs| - 1];
      var front := SavedInfos(gs[..|gs| - 1]);
      assert forall g | g in gs :: g in gs[..|gs| - 1] || g == last by {
        forall g | g in gs ensures g in gs[..|gs| - 1] || g == last {
          var k :| 0 <= k < |gs| && gs[k] == g;
          if k < |gs| - 1 { assert gs[..|gs| - 1][k] == g; }
        }
      }
      if last.info.path == Placeholder then front else front + [ToInfo(last.info)]
  }

  /** Moving an element of a list to its front (onBoot) keeps the same
      elements and the relative order of all the others. */
  lemma {:induction false} MoveToFront<T>(s: seq<T>, x: T)
    requires x in s
    ensures var r := [x] + RemoveFirst(s, x);
      multiset(r) == multiset(s) && r[0] == x && IsSubsequence(r[1..], s)
  {
    RemoveFirstSpec(s, x);
    assert ([x] + RemoveFirst(s, x))[1..] == RemoveFirst(s, x);
  }

  /** Removing the first occurrence from a list without duplicates removes
      the element altogether and keeps the rest without duplicates. */
  lemma {:induction false} RemoveFirstDistinct(gs: seq<Game>, g: Game)
    requires Distinct(gs)
    ensures Distinct(RemoveFirst(gs, g))
    ensures g !in RemoveFirst(gs, g)
    ensures forall h | h in gs && h != g :: h in RemoveFirst(gs, g)
    ensures forall h | h in RemoveFirst(gs, g) :: h in gs
  {
    var i := FirstIndex(gs, g);
    if i < |gs| {
      var r := gs[..i] + gs[i + 1..];
      assert forall k | 0 <= k < |r| :: r[k] == gs[if k < i then k else k + 1];
      forall a, b | SameAt(r, a, b) ensures a == b {
        assert SameAt(gs, if a < i then a else a + 1, if b < i then b else b + 1);
      }
      forall k | 0 <= k < |r| ensures r[k] != g {
        DistinctAt(gs, if k < i then k else k + 1, i);
      }
      forall h | h in gs && h != g ensures h in r {
        var k :| 0 <= k < |gs| && gs[k] == h;
        assert r[if k < i then k else k - 1] == h;
      }
    }
  }

  /** What the list shows of one game: its info and its progress entries. */
  datatype Entry = Entry(info: GameInfoStore, progress: seq<GameProgress>)

  /** The list of games as values, game by game. */
  ghost function View(gs: seq<Game>): (es: seq<Entry>)
    reads gs
    ensures |es| == |gs|
    ensures forall k | 0 <= k < |gs| :: es[k] == Entry(gs[k].info, gs[k].progressList)
  {
    if gs == [] then [] else [Entry(gs[0].info, gs[0].progressList)] + View(gs[1..])
  }

  /** The view of a list without one game is the view without its entry. */
  lemma {:induction false} ViewWithout(gs: seq<Game>, i: nat)
    requires i < |gs|
    ensures View(gs[..i] + gs[i + 1..]) == View(gs)[..i] + View(gs)[i + 1..]
  {
    var a := View(gs[..i] + gs[i + 1..]);
    var b := View(gs)[..i] + View(gs)[i + 1..];
    forall k | 0 <= k < |a| ensures a[k] == b[k] {
      if k < i {
        assert (gs[..i] + gs[i + 1..])[k] == gs[k];
      } else {
        assert (gs[..i] + gs[i + 1..])[k] == gs[k + 1];
      }
    }
  }

  /** The index of the first entry with the given path, or |es|. */
  function EntryIndex(es: seq<Entry>, path: string): (i: nat)
    ensures i <= |es|
    ensures i < |es| ==> es[i].info.path == path
    ensures forall k | 0 <= k < i :: es[k].info.path != path
  {
    if es == [] then 0
    else if es[0].info.path == path then 0
    else 1 + EntryIndex(es[1..], path)
  }

  lemma {:induction false} EntryIndexIs(es: seq<Entry>, path: string, i: nat)
    requires i <= |es| && (i < |es| ==> es[i].info.path == path)
    requires forall k | 0 <= k < i :: es[k].info.path != path
    ensures EntryIndex(es, path) == i
  {
  }

  /** The index of the first title with the given path, or |infos|. */
  function TitleIndex(infos: seq<GameInfo>, path: string): (k: nat)
    ensures k <= |infos|
    ensures k < |infos| ==> infos[k].path == path
    ensures forall j | 0 <= j < k :: infos[j].path != path
  {
    if infos == [] then 0
    else if infos[0].path == path then 0
    else 1 + TitleIndex(infos[1..], path)
  }

  /** A title appended after the others changes the first index of a path
      only when no earlier title has the path. */
  lemma {:induction false} TitleIndexSnoc(pre: seq<GameInfo>, x: GameInfo, path: string)
    ensures TitleIndex(pre + [x], path)
      == if TitleIndex(pre, path) < |pre| then TitleIndex(pre, path)
         else if x.path == path then |pre| else |pre| + 1
  {
    var t := if TitleIndex(pre, path) < |pre| then TitleIndex(pre, path)
      else if x.path == path then |pre| else |pre| + 1;
    var all := pre + [x];
    assert forall j | 0 <= j < |pre| :: all[j] == pre[j];
    var r := TitleIndex(all, path);
    assert r <= t by {
      if t < |all| {
        assert all[t].path == path;
      }
    }
    assert r < |all| ==> all[r].path == path;
  }

  /** Whether an entry is a placeholder holding the Install entry `id`. */
  predicate PlaceholderFor(e: Entry, id: int) {
    e.info.path == Placeholder && GameProgress(id, Install) in e.progress
  }

  /** The index of the first placeholder holding Install entry `id`, or |es|. */
  function PlaceholderIndex(es: seq<Entry>, id: int): (i: nat)
    ensures i <= |es|
    ensures i < |es| ==> PlaceholderFor(es[i], id)
    ensures forall k | 0 <= k < i :: !PlaceholderFor(es[k], id)
  {
    if es == [] then 0
    else if PlaceholderFor(es[0], id) then 0
    else 1 + PlaceholderIndex(es[1..], id)
  }

  lemma {:induction false} PlaceholderIndexIs(es: seq<Entry>, id: int, i: nat)
    requires i <= |es| && (i < |es| ==> PlaceholderFor(es[i], id))
    requires forall k | 0 <= k < i :: !PlaceholderFor(es[k], id)
    ensures PlaceholderIndex(es, id) == i
  {
  }

  /** `s` without its element at `i`, the rest in order; all of `s` when
      `i` is `|s|`. */
  function Without<T>(s: seq<T>, i: nat): seq<T>
    requires i <= |s|
  {
    if i == |s| then s else s[..i] + s[i + 1..]
  }

  /** The start of add on values: the first placeholder of this install
      leaves the list, if there is one. */
  function DropPlaceholder(es: seq<Entry>, id: int): seq<Entry> {
    Without(es, PlaceholderIndex(es, id))
  }

  predicate HasInstall(ps: seq<GameProgress>) {
    exists p | p in ps :: p.kind == Install
  }

  /** A stored info after a title is merged into it (`?:` on name and icon). */
  function Merged(store: GameInfoStore, info: GameInfo): GameInfoStore {
    store.(name := Elvis(info.name, store.name), iconPath := Elvis(info.iconPath, store.iconPath))
  }

  /** How add's loop ends: whether no addProgress threw, and the list. */
  datatype Added = Added(ok: bool, entries: seq<Entry>)

  /** One title of add's loop, on values: an unknown path becomes an entry
      in front with one Install entry; otherwise the first entry with the
      path takes the merged name and icon, and gets the Install entry unless
      it already holds one, in which case addProgress throws. */
  function AddTitle(es: seq<Entry>, info: GameInfo, progressId: int): Added {
    var i := EntryIndex(es, info.path);
    var install := GameProgress(progressId, Install);
    if i == |es| then Added(true, [Entry(ToStore(info), [install])] + es)
    else if HasInstall(es[i].progress) then Added(false, es[i := Entry(Merged(es[i].info, info), es[i].progress)])
    else Added(true, es[i := Entry(Merged(es[i].info, info), es[i].progress + [install])])
  }

  /** add's loop over the titles, on values: it stops at the first title
      whose addProgress throws. */
  function AddTitles(es: seq<Entry>, infos: seq<GameInfo>, progressId: int): Added {
    if infos == [] then Added(true, es)
    else
      var r := AddTitles(es, infos[..|infos| - 1], progressId);
      if !r.ok then r else AddTitle(r.entries, infos[|infos| - 1], progressId)
  }

  /** One more title, after titles that did not throw. */
  lemma {:induction false} AddTitlesStep(es: seq<Entry>, infos: seq<GameInfo>, i: nat, progressId: int)
    requires i < |infos| && AddTitles(es, infos[..i], progressId).ok
    ensures AddTitles(es, infos[..i + 1], progressId)
      == AddTitle(AddTitles(es, infos[..i], progressId).entries, infos[i], progressId)
  {
    assert infos[..i + 1][..i] == infos[..i] && infos[..i + 1][i] == infos[i];
  }

  /** Once a title has thrown, the later titles change nothing. */
  lemma {:induction false} StopsAfterThrow(es: seq<Entry>, infos: seq<GameInfo>, progressId: int, i: nat, j: nat)
    requires i <= j <= |infos|
    requires !AddTitles(es, infos[..i], progressId).ok
    ensures AddTitles(es, infos[..j], progressId) == AddTitles(es, infos[..i], progressId)
    decreases j
  {
    if j > i {
      StopsAfterThrow(es, infos, progressId, i, j - 1);
      assert infos[..j][..j - 1] == infos[..j - 1];
    }
  }

  /** The first entry with `path`, if any, holds no Install entry yet. */
  predicate FreeFor(es: seq<Entry>, path: string) {
    EntryIndex(es, path) == |es| || !HasInstall(es[EntryIndex(es, path)].progress)
  }

  /** Titles add can install without an exception: no two share a path, and
      the first entry with each title's path holds no Install entry. */
  predicate Installable(es: seq<Entry>, infos: seq<GameInfo>) {
    && (forall j, k | 0 <= j < k < |infos| :: infos[j].path != infos[k].path)
    && (forall k | 0 <= k < |infos| :: FreeFor(es, infos[k].path))
  }

  lemma {:induction false} InstallableSnoc(es: seq<Entry>, pre: seq<GameInfo>, x: GameInfo)
    ensures Installable(es, pre + [x]) <==>
      Installable(es, pre) && TitleIndex(pre, x.path) == |pre| && FreeFor(es, x.path)
  {
    var all := pre + [x];
    assert forall k | 0 <= k < |pre| :: all[k] == pre[k];
    assert all[|pre|] == x;
    if TitleIndex(pre, x.path) < |pre| {
      assert all[TitleIndex(pre, x.path)].path == all[|pre|].path;
    }
  }

  /** The games add creates, front to back: one per title whose path no
      entry has, with the title's info and one Install entry, a later title
      in front of an earlier one. */
  function NewEntries(es: seq<Entry>, infos: seq<GameInfo>, progressId: int): (r: seq<Entry>)
    ensures |r| <= |infos|
    ensures forall e | e in r :: EntryIndex(es, e.info.path) == |es| && e.progress == [GameProgress(progressId, Install)]
  {
    if infos == [] then []
    else
      var n := |infos| - 1;
      var front := if EntryIndex(es, infos[n].path) == |es| then [Entry(ToStore(infos[n]), [GameProgress(progressId, Install)])] else [];
      front + NewEntries(es, infos[..n], progressId)
  }

  /** Every game add creates carries the info of one of the titles. */
  lemma {:induction false} NewEntriesFromTitles(es: seq<Entry>, infos: seq<GameInfo>, progressId: int)
    ensures forall e | e in NewEntries(es, infos, progressId) :: exists k | 0 <= k < |infos| :: e.info == ToStore(infos[k])
    decreases |infos|
  {
    if infos != [] {
      var n := |infos| - 1;
      NewEntriesFromTitles(es, infos[..n], progressId);
      forall e | e in NewEntries(es, infos, progressId)
        ensures exists k | 0 <= k < |infos| :: e.info == ToStore(infos[k])
      {
        if e !in NewEntries(es, infos[..n], progressId) {
          assert e.info == ToStore(infos[n]);
        } else {
          var k :| 0 <= k < n && e.info == ToStore(infos[..n][k]);
          assert infos[..n][k] == infos[k];
        }
      }
    }
  }

  /** Every title whose path no entry has gets a game of its own. */
  lemma {:induction false} NewEntryOf(es: seq<Entry>, infos: seq<GameInfo>, progressId: int, k: nat) returns (m: nat)
    requires k < |infos| && EntryIndex(es, infos[k].path) == |es|
    ensures m < |NewEntries(es, infos, progressId)| && NewEntries(es, infos, progressId)[m].info == ToStore(infos[k])
    decreases |infos|
  {
    var n := |infos| - 1;
    var front := if EntryIndex(es, infos[n].path) == |es| then [Entry(ToStore(infos[n]), [GameProgress(progressId, Install)])] else [];
    assert NewEntries(es, infos, progressId) == front + NewEntries(es, infos[..n], progressId);
    if k == n {
      m := 0;
    } else {
      assert infos[..n][k] == infos[k];
      var m' := NewEntryOf(es, infos[..n], progressId, k);
      m := |front| + m';
    }
  }

  /** The entry listed at `i` after add: the first entry with a title's path
      takes that title's name and icon unless they are null and gains the
      Install entry; any other entry is unchanged. */
  function MergedEntry(es: seq<Entry>, i: nat, infos: seq<GameInfo>, progressId: int): Entry
    requires i < |es|
  {
    var k := TitleIndex(infos, es[i].info.path);
    if EntryIndex(es, es[i].info.path) == i && k < |infos|
    then Entry(Merged(es[i].info, infos[k]), es[i].progress + [GameProgress(progressId, Install)])
    else es[i]
  }

  /** The games that were listed, after add merged the titles into them. */
  function MergedEntries(es: seq<Entry>, infos: seq<GameInfo>, progressId: int): (r: seq<Entry>)
    ensures |r| == |es|
    ensures forall i | 0 <= i < |es| :: r[i] == MergedEntry(es, i, infos, progressId)
  {
    seq(|es|, i requires 0 <= i < |es| => MergedEntry(es, i, infos, progressId))
  }

  /** Merging keeps every path where it was. */
  lemma {:induction false} MergedPaths(es: seq<Entry>, infos: seq<GameInfo>, progressId: int)
    ensures forall i | 0 <= i < |es| :: MergedEntries(es, infos, progressId)[i].info.path == es[i].info.path
  {
  }

  /** Entries whose paths agree position by position have the same first
      index for every path. */
  lemma {:induction false} SamePathsSameIndex(es: seq<Entry>, ms: seq<Entry>, path: string)
    requires |ms| == |es| && forall i | 0 <= i < |es| :: ms[i].info.path == es[i].info.path
    ensures EntryIndex(ms, path) == EntryIndex(es, path)
  {
    EntryIndexIs(ms, path, EntryIndex(es, path));
  }

  /** The merged entries have the first index of every path where the
      listed ones had it. */
  lemma {:induction false} MergedSameIndex(es: seq<Entry>, infos: seq<GameInfo>, progressId: int, path: string)
    ensures EntryIndex(MergedEntries(es, infos, progressId), path) == EntryIndex(es, path)
  {
    MergedPaths(es, infos, progressId);
    SamePathsSameIndex(es, MergedEntries(es, infos, progressId), path);
  }

  /** No entry add creates has a path of an entry already listed, nor of a
      title other than its own. */
  lemma {:induction false} NewEntriesAvoid(es: seq<Entry>, pre: seq<GameInfo>, progressId: int, path: string)
    requires EntryIndex(es, path) < |es| || TitleIndex(pre, path) == |pre|
    ensures forall e | e in NewEntries(es, pre, progressId) :: e.info.path != path
  {
    NewEntriesFromTitles(es, pre, progressId);
    forall e | e in NewEntries(es, pre, progressId) ensures e.info.path != path {
      var k :| 0 <= k < |pre| && e.info == ToStore(pre[k]);
    }
  }

  /** The first index of a path in a concatenation. */
  lemma {:induction false} EntryIndexConcat(a: seq<Entry>, b: seq<Entry>, path: string)
    ensures EntryIndex(a + b, path) == if EntryIndex(a, path) < |a| then EntryIndex(a, path) else |a| + EntryIndex(b, path)
  {
    if a == [] {
      assert a + b == b;
    } else if a[0].info.path != path {
      EntryIndexConcat(a[1..], b, path);
      assert (a + b)[1..] == a[1..] + b;
    }
  }

  /** A path no new entry has is first found among the merged entries,
      where the listed entries had it. */
  lemma {:induction false} IndexPastNew(es: seq<Entry>, pre: seq<GameInfo>, progressId: int, path: string)
    requires EntryIndex(es, path) < |es| || TitleIndex(pre, path) == |pre|
    ensures var ns := NewEntries(es, pre, progressId);
      EntryIndex(ns + MergedEntries(es, pre, progressId), path) == |ns| + EntryIndex(es, path)
  {
    var ns := NewEntries(es, pre, progressId);
    assert EntryIndex(ns, path) == |ns| by {
      NewEntriesAvoid(es, pre, progressId, path);
      assert forall k | 0 <= k < |ns| :: ns[k] in ns;
      EntryIndexIs(ns, path, |ns|);
    }
    EntryIndexConcat(ns, MergedEntries(es, pre, progressId), path);
    MergedSameIndex(es, pre, progressId, path);
  }

  /** The new entries after one more title. */
  lemma {:induction false} NewEntriesSnoc(es: seq<Entry>, pre: seq<GameInfo>, x: GameInfo, progressId: int)
    ensures NewEntries(es, pre + [x], progressId)
      == (if EntryIndex(es, x.path) == |es| then [Entry(ToStore(x), [GameProgress(progressId, Install)])] else [])
         + NewEntries(es, pre, progressId)
  {
    assert (pre + [x])[..|pre|] == pre && (pre + [x])[|pre|] == x;
  }

  /** A title whose path an earlier title had: its addProgress throws. */
  lemma {:induction false} StepRepeatedPath(es: seq<Entry>, pre: seq<GameInfo>, x: GameInfo, progressId: int)
    requires TitleIndex(pre, x.path) < |pre|
    ensures !AddTitle(NewEntries(es, pre, progressId) + MergedEntries(es, pre, progressId), x, progressId).ok
  {
    var p := x.path;
    var ns := NewEntries(es, pre, progressId);
    var ms := MergedEntries(es, pre, progressId);
    var all := ns + ms;
    var t := TitleIndex(pre, p);
    var install := GameProgress(progressId, Install);
    if EntryIndex(es, p) == |es| {
      var m := NewEntryOf(es, pre, progressId, t);
      var j := EntryIndex(ns, p);
      assert j <= m && ns[m].info.path == p;
      assert forall k | 0 <= k < |ns| :: all[k] == ns[k];
      EntryIndexIs(all, p, j);
      assert ns[j] in ns && install in ns[j].progress;
    } else {
      var i := EntryIndex(es, p);
      IndexPastNew(es, pre, progressId, p);
      assert all[|ns| + i] == ms[i] == MergedEntry(es, i, pre, progressId);
      assert install in ms[i].progress;
    }
  }

  /** A title with a new path whose entries are merged after it: the
      merged entries of the longer list. */
  lemma {:induction false} MergedSnoc(es: seq<Entry>, pre: seq<GameInfo>, x: GameInfo, progressId: int)
    requires TitleIndex(pre, x.path) == |pre|
    ensures forall i | 0 <= i < |es| ::
      MergedEntries(es, pre + [x], progressId)[i]
        == if i == EntryIndex(es, x.path)
           then Entry(Merged(es[i].info, x), es[i].progress + [GameProgress(progressId, Install)])
           else MergedEntries(es, pre, progressId)[i]
  {
    forall i | 0 <= i < |es|
      ensures MergedEntry(es, i, pre + [x], progressId)
        == if i == EntryIndex(es, x.path)
           then Entry(Merged(es[i].info, x), es[i].progress + [GameProgress(progressId, Install)])
           else MergedEntry(es, i, pre, progressId)
    {
      TitleIndexSnoc(pre, x, es[i].info.path);
      var k := TitleIndex(pre, es[i].info.path);
      if k < |pre| {
        assert (pre + [x])[k] == pre[k];
      } else if es[i].info.path == x.path {
        assert (pre + [x])[|pre|] == x;
      }
    }
  }

  /** A title with a path neither listed nor seen before: a new entry in
      front. */
  lemma {:induction false} StepNewPath(es: seq<Entry>, pre: seq<GameInfo>, x: GameInfo, progressId: int)
    requires TitleIndex(pre, x.path) == |pre| && EntryIndex(es, x.path) == |es|
    ensures var r := AddTitle(NewEntries(es, pre, progressId) + MergedEntries(es, pre, progressId), x, progressId);
      r.ok && r.entries == NewEntries(es, pre + [x], progressId) + MergedEntries(es, pre + [x], progressId)
  {
    IndexPastNew(es, pre, progressId, x.path);
    NewEntriesSnoc(es, pre, x, progressId);
    MergedUnmatched(es, pre, x, progressId);
    var ns := NewEntries(es, pre, progressId);
    var ms := MergedEntries(es, pre, progressId);
    AddTitleUnknown(ns, ms, x, progressId);
    ConcatAssoc([Entry(ToStore(x), [GameProgress(progressId, Install)])], ns, ms);
  }

  lemma {:induction false} ConcatAssoc<T>(a: seq<T>, b: seq<T>, c: seq<T>)
    ensures a + (b + c) == (a + b) + c
  {
  }

  /** A title whose path no entry has goes in front. */
  lemma {:induction false} AddTitleUnknown(ns: seq<Entry>, ms: seq<Entry>, x: GameInfo, progressId: int)
    requires EntryIndex(ns + ms, x.path) == |ns| + |ms|
    ensures AddTitle(ns + ms, x, progressId) == Added(true, [Entry(ToStore(x), [GameProgress(progressId, Install)])] + (ns + ms))
  {
  }

  /** A title whose path no listed entry has leaves the merged entries as
      they were. */
  lemma {:induction false} MergedUnmatched(es: seq<Entry>, pre: seq<GameInfo>, x: GameInfo, progressId: int)
    requires TitleIndex(pre, x.path) == |pre| && EntryIndex(es, x.path) == |es|
    ensures MergedEntries(es, pre + [x], progressId) == MergedEntries(es, pre, progressId)
  {
    MergedSnoc(es, pre, x, progressId);
  }

  /** A title whose path a listed entry has, and no earlier title: the first
      such entry is merged with it. */
  lemma {:induction false} MergedMatched(es: seq<Entry>, pre: seq<GameInfo>, x: GameInfo, progressId: int)
    requires TitleIndex(pre, x.path) == |pre| && EntryIndex(es, x.path) < |es|
    ensures var i := EntryIndex(es, x.path);
      MergedEntries(es, pre + [x], progressId)
        == MergedEntries(es, pre, progressId)[i := Entry(Merged(es[i].info, x), es[i].progress + [GameProgress(progressId, Install)])]
  {
    var i := EntryIndex(es, x.path);
    var a := MergedEntries(es, pre + [x], progressId);
    var b := MergedEntries(es, pre, progressId)[i := Entry(Merged(es[i].info, x), es[i].progress + [GameProgress(progressId, Install)])];
    MergedSnoc(es, pre, x, progressId);
    forall k | 0 <= k < |es| ensures a[k] == b[k] {
    }
  }

  /** Replacing an element of the second part of a concatenation. */
  lemma {:induction false} UpdateSecond<T>(a: seq<T>, b: seq<T>, i: nat, v: T)
    requires i < |b|
    ensures (a + b)[|a| + i := v] == a + b[i := v]
  {
  }

  /** A title with a new path that is listed: the first entry with it is
      merged, and addProgress throws exactly when it holds an Install entry. */
  lemma {:induction false} StepKnownPath(es: seq<Entry>, pre: seq<GameInfo>, x: GameInfo, progressId: int)
    requires TitleIndex(pre, x.path) == |pre| && EntryIndex(es, x.path) < |es|
    ensures var r := AddTitle(NewEntries(es, pre, progressId) + MergedEntries(es, pre, progressId), x, progressId);
      (r.ok <==> FreeFor(es, x.path))
      && (r.ok ==> r.entries == NewEntries(es, pre + [x], progressId) + MergedEntries(es, pre + [x], progressId))
  {
    var i := EntryIndex(es, x.path);
    var ns := NewEntries(es, pre, progressId);
    var ms := MergedEntries(es, pre, progressId);
    assert EntryIndex(ns + ms, x.path) == |ns| + i && (ns + ms)[|ns| + i] == es[i] by {
      IndexPastNew(es, pre, progressId, x.path);
      assert ms[i] == MergedEntry(es, i, pre, progressId);
    }
    AddTitleKnown(ns + ms, |ns| + i, x, progressId);
    if !HasInstall(es[i].progress) {
      var v := Entry(Merged(es[i].info, x), es[i].progress + [GameProgress(progressId, Install)]);
      UpdateSecond(ns, ms, i, v);
      assert NewEntries(es, pre + [x], progressId) == ns by {
        NewEntriesSnoc(es, pre, x, progressId);
        assert [] + ns == ns;
      }
      MergedMatched(es, pre, x, progressId);
    }
  }

  /** A title whose path a listed entry has: that entry is merged, and gets
      the Install entry unless it holds one already. */
  lemma {:induction false} AddTitleKnown(es: seq<Entry>, i: nat, x: GameInfo, progressId: int)
    requires i < |es| && EntryIndex(es, x.path) == i
    ensures var v := Entry(Merged(es[i].info, x), es[i].progress + [GameProgress(progressId, Install)]);
      AddTitle(es, x, progressId)
        == if HasInstall(es[i].progress) then Added(false, es[i := Entry(Merged(es[i].info, x), es[i].progress)])
           else Added(true, es[i := v])
  {
  }

  /** The merged entry `e` in place of the entry at `i`: AddTitle's result,
      `ok` telling whether the Install entry was new. */
  lemma {:induction false} MergedAt(es: seq<Entry>, i: nat, x: GameInfo, progressId: int, ok: bool, e: Entry)
    requires i < |es| && EntryIndex(es, x.path) == i
    requires e.info == Merged(es[i].info, x)
    requires ok <==> !HasInstall(es[i].progress)
    requires ok ==> e.progress == es[i].progress + [GameProgress(progressId, Install)]
    requires !ok ==> e.progress == es[i].progress
    ensures AddTitle(es, x, progressId) == Added(ok, es[i := e])
  {
    AddTitleKnown(es, i, x, progressId);
  }

  /** add's loop on values: it finishes without an exception exactly when
      the titles are installable, and then the list is the new games (the
      later title in front) followed by the games that were listed, each
      first game with a title's path merged with that title. */
  lemma {:induction false} AddTitlesOutcome(es: seq<Entry>, infos: seq<GameInfo>, progressId: int)
    ensures AddTitles(es, infos, progressId).ok <==> Installable(es, infos)
    ensures Installable(es, infos) ==>
      AddTitles(es, infos, progressId).entries == NewEntries(es, infos, progressId) + MergedEntries(es, infos, progressId)
    decreases |infos|
  {
    if infos == [] {
      assert MergedEntries(es, infos, progressId) == es;
    } else {
      var n := |infos| - 1;
      var pre := infos[..n];
      var x := infos[n];
      assert infos == pre + [x];
      AddTitlesOutcome(es, pre, progressId);
      InstallableSnoc(es, pre, x);
      if AddTitles(es, pre, progressId).ok {
        if TitleIndex(pre, x.path) < |pre| {
          StepRepeatedPath(es, pre, x, progressId);
        } else if EntryIndex(es, x.path) == |es| {
          StepNewPath(es, pre, x, progressId);
        } else {
          StepKnownPath(es, pre, x, progressId);
        }
      }
    }
  }

  class GameRepository {
    var games: seq<Game>

    /** No game twice, and every game keeps at most one progress per type. */
    ghost predicate Valid()
      reads this, games
    {
      Distinct(games) && forall g | g in games :: g.Valid()
    }

    constructor ()
      ensures Valid() && games == []
    {
      games := [];
    }

    /** save(): the infos written out, which never include placeholders. */
    ghost function Saved(): seq<GameInfo>
      reads this, games
    {
      SavedInfos(games)
    }

    /** find(path): the first game with that path, or null. `i` is its
        index, or |games| when there is none. */
    method Find(path: string) returns (r: Game?, ghost i: nat)
      ensures i == EntryIndex(View(games), path)
      ensures r == null <==> i == |games|
      ensures r != null ==> r == games[i]
    {
      var j := 0;
      while j < |games|
        invariant 0 <= j <= |games|
        invariant forall k | 0 <= k < j :: games[k].info.path != path
      {
        if games[j].info.path == path {
          EntryIndexIs(View(games), path, j);
          return games[j], j;
        }
        j := j + 1;
      }
      EntryIndexIs(View(games), path, j);
      return null, j;
    }

    /** The lookup at the start of add: the first placeholder whose Install
        entry has id `progressId`, or null. `i` is its index, or |games|
        when there is none. */
    method FindInstallPlaceholder(progressId: int) returns (r: Game?, ghost i: nat)
      ensures i == PlaceholderIndex(View(games), progressId)
      ensures r == null <==> i == |games|
      ensures r != null ==> r == games[i]
    {
      ghost var es := View(games);
      var j := 0;
      while j < |games|
        invariant 0 <= j <= |games|
        invariant forall k | 0 <= k < j :: !PlaceholderFor(es[k], progressId)
      {
        var g := games[j];
        assert es[j] == Entry(g.info, g.progressList);
        if g.IsInstallPlaceholder(progressId) {
          PlaceholderIndexIs(es, progressId, j);
          return g, j;
        }
        j := j + 1;
      }
      PlaceholderIndexIs(es, progressId, j);
      return null, j;
    }

    /** createGameInstallEntry: a placeholder carrying exactly one Install
        entry with the given id goes to the front of the list. */
    method CreateGameInstallEntry(progressId: int)
      requires Valid()
      modifies this
      ensures Valid()
      ensures |games| == |old(games)| + 1 && games[1..] == old(games)
      ensures fresh(games[0])
      ensures games[0].info == GameInfoStore(Placeholder, None, None)
      ensures games[0].progressList == [GameProgress(progressId, Install)]
    {
      var _ := PrependGame(GameInfoStore(Placeholder, None, None), progressId);
    }

    /** A new game with the given info and one Install entry goes to the
        front of the list (the new-game branches of createGameInstallEntry
        and add). */
    method PrependGame(info: GameInfoStore, progressId: int) returns (game: Game)
      requires Valid()
      modifies this
      ensures Valid()
      ensures games == [game] + old(games)
      ensures fresh(game)
      ensures game.info == info && game.progressList == [GameProgress(progressId, Install)]
    {
      game := new Game(info);
      var _ := game.AddProgress(GameProgress(progressId, Install));
      DistinctCons(game, games);
      games := [game] + games;
    }

    /** One step of add's loop over the reported titles: an unknown path
        becomes a new game at the front with an Install entry; a known path
        (its first game) is merged by `Game.Merge`. `target` is the game that
        now stands for the title; no other game changes. */
    method AddOne(info: GameInfo, progressId: int) returns (ok: bool, ghost target: Game)
      requires Valid()
      modifies this, games
      ensures Valid()
      ensures Added(ok, View(games)) == AddTitle(old(View(games)), info, progressId)
      ensures games == old(games) || ([games[0]] + old(games) == games && fresh(games[0]))
      ensures target in games && target.info.path == info.path
      ensures ok ==> GameProgress(progressId, Install) in target.progressList
      ensures forall h | h in old(games) && h != target :: h.info == old(h.info) && h.progressList == old(h.progressList)
      ensures target in old(games) ==>
        target.info.path == old(target.info.path) && old(target.progressList) <= target.progressList
    {
      var existing: Game?;
      ghost var i: nat;
      existing, i := Find(info.path);
      if existing == null {
        target := AddNew(info, progressId);
        ok := true;
        assert target !in old(games);
      } else {
        ok := MergeAt(existing, i, info, progressId);
        target := existing;
        assert target == games[i] == old(games[i]);
      }
    }

    /** AddOne for a title whose path no game has: a new game in front. */
    method AddNew(info: GameInfo, progressId: int) returns (target: Game)
      requires Valid()
      requires EntryIndex(View(games), info.path) == |games|
      modifies this
      ensures Valid()
      ensures Added(true, View(games)) == AddTitle(old(View(games)), info, progressId)
      ensures games == [target] + old(games) && fresh(target)
      ensures target.info.path == info.path && GameProgress(progressId, Install) in target.progressList
    {
      ghost var before := View(games);
      target := PrependGame(ToStore(info), progressId);
      assert games[1..] == old(games);
      assert View(games) == [Entry(ToStore(info), [GameProgress(progressId, Install)])] + before;
    }

    /** AddOne for a title whose path the game `g` at `i` has first: it
        is merged with it (`Game.Merge`); nothing else changes. */
    method MergeAt(g: Game, ghost i: nat, info: GameInfo, progressId: int) returns (ok: bool)
      requires Valid() && i < |games| && games[i] == g && EntryIndex(View(games), info.path) == i
      modifies g
      ensures Valid()
      ensures Added(ok, View(games)) == AddTitle(old(View(games)), info, progressId)
      ensures games[i].info.path == old(games[i].info.path)
      ensures old(games[i].progressList) <= games[i].progressList
      ensures ok ==> GameProgress(progressId, Install) in games[i].progressList
    {
      ghost var before := View(games);
      ok := g.Merge(info, progressId);
      assert View(games) == before[i := Entry(g.info, g.progressList)] by {
        forall k | 0 <= k < |games| ensures View(games)[k] == before[i := Entry(g.info, g.progressList)][k] {
          if k != i {
            DistinctAt(games, k, i);
          }
        }
      }
      MergedAt(before, i, info, progressId, ok, Entry(g.info, g.progressList));
    }

    /** The first part of add: the first placeholder whose Install entry has
        id `progressId` leaves the list, if there is one; the other games
        stay, in order. */
    method RemoveInstallPlaceholder(progressId: int)
      requires Valid()
      modifies this
      ensures Valid()
      ensures games == Without(old(games), PlaceholderIndex(old(View(games)), progressId))
      ensures forall k | 0 <= k < |games| :: games[k] in old(games)
      ensures View(games) == DropPlaceholder(old(View(games)), progressId)
    {
      ghost var before := View(games);
      var placeholder: Game?;
      ghost var i: nat;
      placeholder, i := FindInstallPlaceholder(progressId);
      if placeholder != null {
        RemoveAt(placeholder, i);
      } else {
        assert DropPlaceholder(before, progressId) == before;
      }
    }

    /** games.remove(game) for the game at `i`: the list without it. */
    method RemoveAt(game: Game, ghost i: nat)
      requires Valid() && i < |games| && games[i] == game
      modifies this
      ensures Valid()
      ensures games == old(games)[..i] + old(games)[i + 1..]
      ensures View(games) == old(View(games))[..i] + old(View(games))[i + 1..]
      ensures forall k | 0 <= k < |games| :: games[k] in old(games)
    {
      ghost var rest := games[..i] + games[i + 1..];
      assert RemoveFirst(games, game) == rest by {
        assert FirstIndex(games, game) == i by {
          forall k | 0 <= k < i ensures games[k] != game {
            DistinctAt(games, k, i);
          }
        }
      }
      ViewWithout(games, i);
      RemoveFirstDistinct(games, game);
      games := RemoveFirst(games, game);
      assert View(games) == old(View(rest));
    }

    /** add(gameInfos, progressId): the placeholder that stood for this install
        leaves the list, then each reported title is added or merged in turn
        (AddAll): on values, AddTitles after DropPlaceholder. The games that
        stay keep their order behind the ones created (`created`). */
    method Add(infos: seq<GameInfo>, progressId: int) returns (ok: bool, ghost created: seq<Game>)
      requires Valid()
      modifies this, games
      ensures Valid()
      ensures Added(ok, View(games)) == AddTitles(DropPlaceholder(old(View(games)), progressId), infos, progressId)
      ensures var kept := DropPlaceholder(old(View(games)), progressId);
        && (ok <==> Installable(kept, infos))
        && (ok ==> View(games) == NewEntries(kept, infos, progressId) + MergedEntries(kept, infos, progressId))
      ensures games == created + Without(old(games), PlaceholderIndex(old(View(games)), progressId))
      ensures forall k | 0 <= k < |created| :: fresh(created[k])
      ensures ok ==> forall info | info in infos :: exists g | g in games ::
        g.info.path == info.path && GameProgress(progressId, Install) in g.progressList
    {
      RemoveInstallPlaceholder(progressId);
      ghost var dropped := View(games);
      ok, created := AddAll(infos, progressId);
      AddTitlesOutcome(dropped, infos, progressId);
    }

    /** The forEach of add: each reported title is added or merged in turn; a
        title that already has an Install entry stops the loop, because
        addProgress throws (`ok` false). On values this is AddTitles; the
        games already listed stay, in order, behind the ones created
        (`created`). */
    method AddAll(infos: seq<GameInfo>, progressId: int) returns (ok: bool, ghost created: seq<Game>)
      requires Valid()
      modifies this, games
      ensures Valid()
      ensures Added(ok, View(games)) == AddTitles(old(View(games)), infos, progressId)
      ensures games == created + old(games)
      ensures forall k | 0 <= k < |created| :: fresh(created[k])
      ensures ok ==> forall info | info in infos :: exists g | g in games ::
        g.info.path == info.path && GameProgress(progressId, Install) in g.progressList
    {
      ok := true;
      var i := 0;
      ghost var targets: seq<Game> := [];
      created := [];
      while i < |infos| && ok
        invariant 0 <= i <= |infos|
        invariant Valid()
        invariant Added(ok, View(games)) == AddTitles(old(View(games)), infos[..i], progressId)
        invariant games == created + old(games)
        invariant forall k | 0 <= k < |created| :: fresh(created[k])
        invariant |targets| == i
        invariant forall k | 0 <= k < i :: targets[k] in games && targets[k].info.path == infos[k].path
        invariant ok ==> forall k | 0 <= k < i :: GameProgress(progressId, Install) in targets[k].progressList
      {
        assert forall k | 0 <= k < |games| :: games[k] in old(games) || fresh(games[k]) by {
          forall k | 0 <= k < |games| ensures games[k] in old(games) || fresh(games[k]) {
            if k < |created| {
              assert games[k] == created[k];
            } else {
              assert games[k] == old(games)[k - |created|];
            }
          }
        }
        ghost var created';
        ok, targets, created' := AddAllStep(infos, i, progressId, targets, old(View(games)), old(games), created);
        forall k | 0 <= k < |created'| ensures fresh(created'[k]) {
          if created' != created && k > 0 {
            assert created'[k] == created'[1..][k - 1] == created[k - 1];
          }
        }
        created := created';
        i := i + 1;
      }
      if !ok {
        StopsAfterThrow(old(View(games)), infos, progressId, i, |infos|);
      }
      assert infos[..|infos|] == infos;
      if ok {
        EveryTitleInstalled(infos, progressId, targets, games);
      }
    }

    /** Games standing title by title for `infos`, each with the Install
        entry, leave no title without such a game. */
    lemma EveryTitleInstalled(infos: seq<GameInfo>, progressId: int, targets: seq<Game>, gs: seq<Game>)
      requires |targets| == |infos|
      requires forall k | 0 <= k < |infos| :: targets[k] in gs && targets[k].info.path == infos[k].path
      requires forall k | 0 <= k < |infos| :: GameProgress(progressId, Install) in targets[k].progressList
      ensures forall info | info in infos :: exists g | g in gs ::
        g.info.path == info.path && GameProgress(progressId, Install) in g.progressList
    {
      forall info | info in infos
        ensures exists g | g in gs :: g.info.path == info.path && GameProgress(progressId, Install) in g.progressList
      {
        var k :| 0 <= k < |infos| && infos[k] == info;
        assert targets[k] in gs;
      }
    }

    /** One turn of AddAll's loop, after titles that did not throw: on values
        the titles so far grow by `infos[i]`; `created` (the games created so
        far, in front of `base`) gains the game created for it, if any. */
    method AddAllStep(infos: seq<GameInfo>, i: nat, progressId: int, ghost targets: seq<Game>,
                      ghost es: seq<Entry>, ghost base: seq<Game>, ghost created: seq<Game>)
      returns (ok: bool, ghost targets': seq<Game>, ghost created': seq<Game>)
      requires Valid()
      requires i < |infos| && |targets| == i
      requires forall k | 0 <= k < i ::
        && targets[k] in games && targets[k].info.path == infos[k].path
        && GameProgress(progressId, Install) in targets[k].progressList
      requires Added(true, View(games)) == AddTitles(es, infos[..i], progressId)
      requires games == created + base
      modifies this, games
      ensures Valid()
      ensures Added(ok, View(games)) == AddTitles(es, infos[..i + 1], progressId)
      ensures games == created' + base
      ensures created' == created || (|created'| == |created| + 1 && created'[1..] == created && fresh(created'[0]))
      ensures |targets'| == i + 1
      ensures forall k | 0 <= k <= i :: targets'[k] in games && targets'[k].info.path == infos[k].path
      ensures ok ==> forall k | 0 <= k <= i :: GameProgress(progressId, Install) in targets'[k].progressList
    {
      ghost var prev := games;
      ghost var here := View(games);
      AddTitlesStep(es, infos, i, progressId);
      ok, targets' := AddAt(infos, i, progressId, targets);
      assert Added(ok, View(games)) == AddTitle(here, infos[i], progressId);
      if games != prev {
        ConcatAssoc([games[0]], created, base);
        created' := [games[0]] + created;
        assert created'[1..] == created;
      } else {
        created' := created;
      }
    }

    /** One iteration of add's forEach: the title `infos[i]` is added or
        merged (AddOne, on values AddTitle). The games standing for the
        titles before it keep their paths and their Install entries;
        `targets` records, title by title, the game that stands for it. */
    method AddAt(infos: seq<GameInfo>, i: nat, progressId: int, ghost targets: seq<Game>)
      returns (ok: bool, ghost targets': seq<Game>)
      requires Valid()
      requires i < |infos| && |targets| == i
      requires forall k | 0 <= k < i ::
        && targets[k] in games && targets[k].info.path == infos[k].path
        && GameProgress(progressId, Install) in targets[k].progressList
      modifies this, games
      ensures Valid()
      ensures Added(ok, View(games)) == AddTitle(old(View(games)), infos[i], progressId)
      ensures games == old(games) || ([games[0]] + old(games) == games && fresh(games[0]))
      ensures |targets'| == i + 1
      ensures forall k | 0 <= k <= i :: targets'[k] in games && targets'[k].info.path == infos[k].path
      ensures ok ==> forall k | 0 <= k <= i :: GameProgress(progressId, Install) in targets'[k].progressList
    {
      ghost var target;
      ok, target := AddOne(infos[i], progressId);
      targets' := targets + [target];
      forall k | 0 <= k < i
        ensures targets'[k] in games && targets'[k].info.path == infos[k].path
        ensures GameProgress(progressId, Install) in targets'[k].progressList
      {
        var t := targets[k];
        assert targets'[k] == t && t in old(games);
        assert t in games by {
          if games != old(games) {
            assert games[1..] == old(games);
          }
        }
        if t == target {
          assert t.info.path == old(t.info.path) && old(t.progressList) <= t.progressList;
        } else {
          assert t.info == old(t.info) && t.progressList == old(t.progressList);
        }
      }
    }

    /** onBoot(game): the booted game moves to the front; the list is left
        alone when it is already there. `games.first()` throws on an empty
        list (`ok` false). */
    method OnBoot(game: Game) returns (ok: bool)
      requires Valid() && game.Valid()
      modifies this
      ensures Valid()
      ensures ok <==> old(games) != []
      ensures !ok ==> games == old(games)
      ensures ok && old(games)[0] == game ==> games == old(games)
      ensures ok && old(games)[0] != game ==> games == [game] + RemoveFirst(old(games), game)
    {
      if games == [] {
        return false;
      }
      ok := true;
      if games[0] != game {
        RemoveFirstDistinct(games, game);
        DistinctCons(game, RemoveFirst(games, game));
        games := [game] + RemoveFirst(games, game);
      }
    }

    /** clearProgress(id): the entries of operation `id` leave every game's
        progress list; then the placeholders left without any entry leave the
        list. Real games are never removed (see KeptAfterClear). */
    method ClearProgress(progressId: int)
      requires Valid()
      modifies this, games
      ensures Valid()
      ensures forall g | g in old(games) ::
        g.info == old(g.info) && g.progressList == WithoutId(old(g.progressList), progressId)
      ensures games == KeptAfterClear(old(games))
    {
      ClearEntries(progressId);
      DropEmptyPlaceholders();
    }

    /** The forEach of clearProgress: every game loses its entries for `progressId`. */
    method ClearEntries(progressId: int)
      requires Valid()
      modifies games
      ensures Valid()
      ensures forall g | g in games ::
        g.info == old(g.info) && g.progressList == WithoutId(old(g.progressList), progressId)
    {
      var i := 0;
      while i < |games|
        invariant 0 <= i <= |games|
        invariant forall k | 0 <= k < i ::
          games[k].info == old(games[k].info) && games[k].progressList == WithoutId(old(games[k].progressList), progressId)
        invariant forall k | i <= k < |games| ::
          games[k].info == old(games[k].info) && games[k].progressList == old(games[k].progressList)
        invariant forall k | 0 <= k < |games| :: games[k].Valid()
      {
        var g := games[i];
        forall k | 0 <= k < |games| && k != i ensures games[k] != g {
          DistinctAt(games, k, i);
        }
        g.progressList := WithoutId(g.progressList, progressId);
        i := i + 1;
      }
    }

    /** The removeIf of clearProgress: placeholders without entries leave the list. */
    method DropEmptyPlaceholders()
      requires Valid()
      modifies this
      ensures Valid()
      ensures games == KeptAfterClear(old(games))
    {
      var kept: seq<Game> := [];
      var j := 0;
      while j < |games|
        invariant 0 <= j <= |games|
        invariant kept == KeptAfterClear(games[..j])
      {
        var g := games[j];
        assert games[..j + 1][..j] == games[..j];
        if !(g.info.path == Placeholder && g.progressList == []) {
          kept := kept + [g];
        }
        j := j + 1;
      }
      assert games[..j] == games;
      games := kept;
    }

    /** remove(game): the first occurrence of the game leaves the list. */
    method Remove(game: Game)
      requires Valid()
      modifies this
      ensures Valid()
      ensures games == RemoveFirst(old(games), game)
      ensures game !in games
      ensures forall h | h in old(games) && h != game :: h in games
    {
      RemoveFirstDistinct(games, game);
      games := RemoveFirst(games, game);
    }
  }
}
