/**
 * The copy service: it checks that a copy can start, runs one copy task at
 * a time over the registry's list, and moves each item's workshop
 * directory to the target (copy, then delete the source).
 *
 * The background thread, the JavaFX application thread and the task's
 * cancellation are not modelled as concurrency: a task is started by
 * `StartCopy` and then run to its end by `RunCopyTask`, every deferred
 * status update is applied at once, and a cancellation enters as the index
 * of the first `isCancelled()` check that sees it. How the file system lists
 * and walks a directory enters as `Listings`.
 */
module Copying {
  import opened Wrappers
  import opened JavaText
  import opened ListItems
  import opened DataService
  import opened FileUtils

  /** `CopyConfig`: the mode, the copy path as typed and the target directory made from it. */
  datatype CopyConfig = CopyConfig(copyVideoMode: bool, copyPath: string, targetDir: Path)

  /** `Constants.WORKSHOP_CONTENT_PATH`, name by name. */
  const WorkshopContentPath: Path := ["steamapps", "workshop", "content", "431960"]

  /** `Paths.get(steamPath, WORKSHOP_CONTENT_PATH, id)`: the item's workshop directory. */
  function SourceDir(steamPath: string, id: string): (p: Path)
    ensures |p| == 6 && p[0] == steamPath && p[1..5] == WorkshopContentPath && Name(p) == id
  {
    [steamPath] + WorkshopContentPath + [id]
  }

  /** `Paths.get(copyPath)`: the typed path is one name. */
  function TargetDir(copyPath: string): (p: Path)
    ensures p != [] && Name(p) == copyPath
  {
    [copyPath]
  }

  /**
   * How the file system answers, for each directory: its directory stream,
   * its walk, and that walk sorted in reverse path order.
   */
  datatype Listings = Listings(listing: Path -> seq<Path>, walk: Path -> seq<Path>, sorted: Path -> seq<Path>)

  /** A directory stream lists paths just below the directory, and a walk stays at or below it. */
  ghost predicate WellFormed(l: Listings)
  {
    && (forall d: Path, i | 0 <= i < |l.listing(d)| :: d < l.listing(d)[i])
    && (forall d: Path, i | 0 <= i < |l.walk(d)| :: d <= l.walk(d)[i])
  }

  /**
   * `copyItem`: the item's directory is copied by the configured mode, and
   * deleted only when the copy passed; what the deletion reports is ignored.
   */
  function CopyItemEffect(fs: Tree, failing: set<Path>, steamPath: string, id: string, config: CopyConfig, l: Listings): (e: Effect)
    requires WellFormed(l)
  {
    var source := SourceDir(steamPath, id);
    var copied :=
      if config.copyVideoMode then CopyVideo(fs, failing, source, config.targetDir, l.listing(source))
      else CopyTree(fs, failing, source, config.targetDir, l.walk(source));
    if copied.outcome.Fail? then copied
    else Effect(Pass, DeleteTree(copied.tree, failing, source, l.sorted(source)).tree)
  }

  /** The target lies neither at nor below the item's directory, nor the other way round. */
  predicate Separate(steamPath: string, id: string, config: CopyConfig)
  {
    Apart(SourceDir(steamPath, id), config.targetDir)
  }

  /**
   * The item's directory can be deleted whole: a sorted walk that covers it
   * and lists children before their parents, with nothing that fails.
   */
  predicate Removable(fs: Tree, failing: set<Path>, source: Path, sorted: seq<Path>)
  {
    && DescendantsFirst(sorted)
    && (forall i | 0 <= i < |sorted| :: source <= sorted[i])
    && (forall p | p in fs && source <= p :: p in sorted && p !in failing)
  }

  /** The walk sorted by `Comparator.reverseOrder()` is one that `Removable` accepts. */
  lemma ReverseSortedIsRemovable(fs: Tree, failing: set<Path>, source: Path, sorted: seq<Path>)
    requires ReverseSorted(sorted) && forall i | 0 <= i < |sorted| :: source <= sorted[i]
    requires forall p | p in fs && source <= p :: p in sorted && p !in failing
    ensures Removable(fs, failing, source, sorted)
  {
    ReverseSortedChildrenFirst(sorted);
  }

  /** An item whose copy failed keeps its workshop directory as it was. */
  lemma FailedCopyKeepsSource(fs: Tree, failing: set<Path>, steamPath: string, id: string, config: CopyConfig, l: Listings, q: Path)
    requires WellFormed(l) && Separate(steamPath, id, config)
    requires CopyItemEffect(fs, failing, steamPath, id, config, l).outcome.Fail?
    requires SourceDir(steamPath, id) <= q
    ensures q in CopyItemEffect(fs, failing, steamPath, id, config, l).tree <==> q in fs
    ensures q in fs ==> CopyItemEffect(fs, failing, steamPath, id, config, l).tree[q] == fs[q]
  {
    var source := SourceDir(steamPath, id);
    if config.copyVideoMode {
      CopyVideoKeepsSource(fs, failing, source, config.targetDir, l.listing(source), q);
    } else {
      CopyTreeKeepsSource(fs, failing, source, config.targetDir, l.walk(source), q);
    }
  }

  /** A copy that passed removes the source, once it is removable, and keeps whatever lies outside it. */
  lemma PassedCopyDeletesSource(fs: Tree, failing: set<Path>, source: Path, copied: Effect, sorted: seq<Path>)
    requires copied.outcome.Pass? && IsDir(fs, source) && Removable(fs, failing, source, sorted)
    requires forall q | source <= q :: (q in copied.tree <==> q in fs) && (q in fs ==> copied.tree[q] == fs[q])
    ensures forall p | p in DeleteTree(copied.tree, failing, source, sorted).tree :: !(source <= p)
    ensures forall p | p in copied.tree && !(source <= p) ::
      p in DeleteTree(copied.tree, failing, source, sorted).tree && DeleteTree(copied.tree, failing, source, sorted).tree[p] == copied.tree[p]
  {
    assert source <= source;
    DeleteTreeEmpties(copied.tree, failing, source, sorted);
  }

  /**
   * Directory mode moves the item: after a copy that passed, nothing is left
   * at or below the item's directory, and every entry walked below it is
   * found, with the same content, under `target/<id>`.
   */
  lemma DirectoryModeMoves(fs: Tree, failing: set<Path>, steamPath: string, id: string, config: CopyConfig, l: Listings)
    requires WellFormed(l) && !config.copyVideoMode && Separate(steamPath, id, config)
    requires CopyItemEffect(fs, failing, steamPath, id, config, l).outcome.Pass?
    requires var source := SourceDir(steamPath, id); Removable(fs, failing, source, l.sorted(source))
    ensures var source := SourceDir(steamPath, id);
      var t := CopyItemEffect(fs, failing, steamPath, id, config, l).tree;
      && (forall p | p in t :: !(source <= p))
      && (forall i | 0 <= i < |l.walk(source)| && l.walk(source)[i] != source ::
            var d := Dest(source, config.targetDir + [id], l.walk(source)[i]);
            l.walk(source)[i] in fs && d in t && t[d] == fs[l.walk(source)[i]])
  {
    var source := SourceDir(steamPath, id);
    var walk := l.walk(source);
    var copied := CopyTree(fs, failing, source, config.targetDir, walk);
    CopyTreePlaces(fs, failing, source, config.targetDir, walk);
    forall q | source <= q
      ensures (q in copied.tree <==> q in fs) && (q in fs ==> copied.tree[q] == fs[q])
    {
      CopyTreeKeepsSource(fs, failing, source, config.targetDir, walk, q);
    }
    PassedCopyDeletesSource(fs, failing, source, copied, l.sorted(source));
    var targetPath := config.targetDir + [id];
    ApartBelowName(source, config.targetDir, id);
    forall i | 0 <= i < |walk| && walk[i] != source
      ensures !(source <= Dest(source, targetPath, walk[i]))
    {
      ApartBelow(source, targetPath, Dest(source, targetPath, walk[i]));
    }
  }

  /**
   * Video mode moves the first video: after a copy that passed, nothing is
   * left at or below the item's directory, and the first listed entry that
   * is a video file is found, with its content, under the target by its name.
   */
  lemma VideoModeMoves(fs: Tree, failing: set<Path>, steamPath: string, id: string, config: CopyConfig, l: Listings)
    requires WellFormed(l) && config.copyVideoMode && Separate(steamPath, id, config)
    requires CopyItemEffect(fs, failing, steamPath, id, config, l).outcome.Pass?
    requires var source := SourceDir(steamPath, id); Removable(fs, failing, source, l.sorted(source))
    ensures var source := SourceDir(steamPath, id);
      var listing := l.listing(source);
      var k := FirstVideo(WithDirs(fs, config.targetDir), listing);
      var t := CopyItemEffect(fs, failing, steamPath, id, config, l).tree;
      && (forall p | p in t :: !(source <= p))
      && 0 <= k && listing[k] in fs
      && config.targetDir + [Name(listing[k])] in t && t[config.targetDir + [Name(listing[k])]] == fs[listing[k]]
  {
    var source := SourceDir(steamPath, id);
    var listing := l.listing(source);
    var copied := CopyVideo(fs, failing, source, config.targetDir, listing);
    forall q | source <= q
      ensures (q in copied.tree <==> q in fs) && (q in fs ==> copied.tree[q] == fs[q])
    {
      CopyVideoKeepsSource(fs, failing, source, config.targetDir, listing, q);
    }
    PassedCopyDeletesSource(fs, failing, source, copied, l.sorted(source));
    var k := FirstVideo(WithDirs(fs, config.targetDir), listing);
    WithDirsKeepsSource(fs, source, config.targetDir, listing[k]);
    ApartBelow(source, config.targetDir, config.targetDir + [Name(listing[k])]);
  }

  /*** The copy loop as a function ***/

  /** What the task's loop has produced so far: the item states, the tree and the two counters. */
  datatype Progress = Progress(items: seq<ItemState>, tree: Tree, successCount: nat, failedCount: nat)

  /** The message a failed item records: the exception's message, here its key or class name. */
  function Message(e: Exception): Option<string>
  {
    Some(e.key)
  }

  /** What copying the item with a given id does to a tree. */
  type Copier = (Tree, string) -> Effect

  /** `copy` does what `copyItem` does, with the disk's failing paths, the Steam path, the configuration and the listings fixed. */
  ghost predicate Moves(copy: Copier, failing: set<Path>, steamPath: string, config: CopyConfig, l: Listings)
  {
    && WellFormed(l)
    && forall t: Tree, id: string {:trigger CopyItemEffect(t, failing, steamPath, id, config, l)} ::
         copy(t, id) == CopyItemEffect(t, failing, steamPath, id, config, l)
  }

  /** `copyItem` with the disk's failing paths, the Steam path, the configuration and the listings fixed. */
  function Mover(failing: set<Path>, steamPath: string, config: CopyConfig, l: Listings): (copy: Copier)
    requires WellFormed(l)
    ensures Moves(copy, failing, steamPath, config, l)
  {
    (t: Tree, id: string) => CopyItemEffect(t, failing, steamPath, id, config, l)
  }

  /** The loop body for item `i`: skip an item already copied, otherwise copy it and record the outcome. */
  function Step(p: Progress, i: nat, copy: Copier): Progress
    requires i < |p.items|
  {
    if p.items[i].status == Succeeded then p
    else
      var e := copy(p.tree, p.items[i].rec.id);
      if e.outcome.Pass? then
        Progress(p.items[i := p.items[i].(status := Succeeded, message := Some(""))], e.tree, p.successCount + 1, p.failedCount)
      else
        Progress(p.items[i := p.items[i].(status := Failed, message := Message(e.outcome.error))], e.tree, p.successCount, p.failedCount + 1)
  }

  /** The loop over the first `k` items. */
  function Run(start: Progress, k: nat, copy: Copier): (p: Progress)
    requires k <= |start.items|
    ensures |p.items| == |start.items|
    decreases k
  {
    if k == 0 then start
    else Step(Run(start, k - 1, copy), k - 1, copy)
  }

  /**
   * What the loop does to the list: records never change, items from `k` on
   * are untouched, an item already copied stays as it was, and every
   * visited item ends copied or failed.
   */
  lemma {:induction false} RunShape(start: Progress, k: nat, copy: Copier)
    requires k <= |start.items|
    ensures var p := Run(start, k, copy);
      && (forall j | 0 <= j < |p.items| :: p.items[j].rec == start.items[j].rec)
      && (forall j | k <= j < |p.items| :: p.items[j] == start.items[j])
      && (forall j | 0 <= j < |p.items| && start.items[j].status == Succeeded :: p.items[j] == start.items[j])
      && (forall j | 0 <= j < k :: p.items[j].status == Succeeded || p.items[j].status == Failed)
  {
    if k > 0 {
      RunShape(start, k - 1, copy);
    }
  }

  /** Each progress in `trace` is the loop body applied to the one before it, item by item. */
  ghost predicate Chained(trace: seq<Progress>, copy: Copier)
  {
    forall j | 0 <= j < |trace| - 1 :: j < |trace[j].items| && trace[j + 1] == Step(trace[j], j, copy)
  }

  /** A chain grows by one pass of the loop body. */
  lemma ChainExtend(trace: seq<Progress>, copy: Copier, next: Progress)
    requires trace != [] && Chained(trace, copy)
    requires |trace| - 1 < |trace[|trace| - 1].items| && next == Step(trace[|trace| - 1], |trace| - 1, copy)
    ensures Chained(trace + [next], copy)
  {
    var t := trace + [next];
    forall j | 0 <= j < |t| - 1
      ensures j < |t[j].items| && t[j + 1] == Step(t[j], j, copy)
    {
      assert t[j] == trace[j];
    }
  }

  /** The last progress of a chain that starts at `trace[0]` is the loop run over as many items. */
  lemma {:induction false} ChainIsRun(trace: seq<Progress>, copy: Copier)
    requires trace != [] && Chained(trace, copy) && |trace| - 1 <= |trace[0].items|
    ensures trace[|trace| - 1] == Run(trace[0], |trace| - 1, copy)
  {
    var n := |trace| - 1;
    if n > 0 {
      var front := trace[..n];
      assert Chained(front, copy) by {
        forall j | 0 <= j < |front| - 1
          ensures j < |front[j].items| && front[j + 1] == Step(front[j], j, copy)
        {
          assert front[j] == trace[j] && front[j + 1] == trace[j + 1];
        }
      }
      ChainIsRun(front, copy);
      assert trace[n] == Step(trace[n - 1], n - 1, copy);
    }
  }

  /** The loop body on an item not yet copied, given what its copy did to the tree. */
  lemma StepCopies(p: Progress, i: nat, copy: Copier, failing: set<Path>, steamPath: string, config: CopyConfig, l: Listings,
                   r: Outcome<Exception>, tree: Tree, items: seq<ItemState>)
    requires Moves(copy, failing, steamPath, config, l) && i < |p.items| && p.items[i].status != Succeeded
    requires Effect(r, tree) == CopyItemEffect(p.tree, failing, steamPath, p.items[i].rec.id, config, l)
    requires items == p.items[i := p.items[i].(
      status := if r.Pass? then Succeeded else Failed,
      message := if r.Pass? then Some("") else Message(r.error))]
    ensures Step(p, i, copy) ==
      if r.Pass? then Progress(items, tree, p.successCount + 1, p.failedCount)
      else Progress(items, tree, p.successCount, p.failedCount + 1)
  {
  }

  /** The loop body changes item `i` alone, and counts it once when it was not yet copied: as failed iff it is left not copied. */
  lemma StepCounts(q: Progress, i: nat, copy: Copier)
    requires i < |q.items|
    ensures var p := Step(q, i, copy);
      && p.items == q.items[i := p.items[i]]
      && p.successCount + p.failedCount == q.successCount + q.failedCount + (if q.items[i].status != Succeeded then 1 else 0)
      && p.failedCount == q.failedCount + (if p.items[i].status != Succeeded then 1 else 0)
  {
  }

  /** The counters together count the visited items that were not yet copied. */
  lemma {:induction false} RunCounts(start: Progress, k: nat, copy: Copier)
    requires k <= |start.items|
    ensures var p := Run(start, k, copy);
      p.successCount + p.failedCount == start.successCount + start.failedCount + CountNonSuccess(start.items[..k])
  {
    if k > 0 {
      var q := Run(start, k - 1, copy);
      RunCounts(start, k - 1, copy);
      assert q.items[k - 1] == start.items[k - 1] by {
        RunShape(start, k - 1, copy);
      }
      StepCounts(q, k - 1, copy);
      assert start.items[..k][..k - 1] == start.items[..k - 1];
      assert CountNonSuccess(start.items[..k]) == CountNonSuccess(start.items[..k - 1]) + (if start.items[k - 1].status != Succeeded then 1 else 0);
    }
  }

  /** Once the loop has visited an item, it is left not copied exactly when the copy failed. */
  lemma {:induction false} RunLeavesFailures(start: Progress, k: nat, copy: Copier)
    requires k <= |start.items|
    ensures var p := Run(start, k, copy);
      CountNonSuccess(p.items[..k]) == p.failedCount - start.failedCount
  {
    if k > 0 {
      var q := Run(start, k - 1, copy);
      var p := Run(start, k, copy);
      RunLeavesFailures(start, k - 1, copy);
      StepCounts(q, k - 1, copy);
      assert p.items[..k][..k - 1] == q.items[..k - 1];
      assert CountNonSuccess(p.items[..k]) == CountNonSuccess(q.items[..k - 1]) + (if p.items[k - 1].status != Succeeded then 1 else 0);
    }
  }

  /** A whole run: the report adds up to the items to copy, and what is left to copy is what failed. */
  lemma WholeRun(cs: seq<ItemState>, tree: Tree, copy: Copier)
    ensures var p := Run(Progress(cs, tree, 0, 0), |cs|, copy);
      && p.successCount + p.failedCount == CountNonSuccess(cs)
      && CountNonSuccess(p.items) == p.failedCount
      && Ids(p.items) == Ids(cs)
  {
    var start := Progress(cs, tree, 0, 0);
    var p := Run(start, |cs|, copy);
    RunCounts(start, |cs|, copy);
    RunLeavesFailures(start, |cs|, copy);
    assert cs[..|cs|] == cs && p.items[..|cs|] == p.items;
    RunShape(start, |cs|, copy);
    SameIds(cs, p.items);
  }

  /** How many items the loop visits: all of them, unless a check sees a cancellation first. */
  function Visited(cancelAt: Option<nat>, n: nat): (k: nat)
    ensures k <= n
    ensures cancelAt.None? ==> k == n
    ensures cancelAt.Some? ==> k <= cancelAt.value
  {
    if cancelAt.Some? && cancelAt.value < n then cancelAt.value else n
  }

  /*** The service ***/

  /**
   * `CopyService`. `running` stands for a current task that is running,
   * `config` and `reportsCompletion` for that task's configuration and
   * whether its completion callback is non-null, and `completions` lists
   * every pair passed to a completion callback, in order.
   */
  class CopyService {
    const dataService: WorkshopDataService
    var running: bool
    var config: CopyConfig
    var reportsCompletion: bool
    var completions: seq<(int, int)>

    ghost predicate Valid()
      reads this, dataService, dataService.Repr
    {
      dataService.Valid() && this !in dataService.Repr
    }

    constructor (dataService: WorkshopDataService)
      ensures this.dataService == dataService && !running && completions == []
    {
      this.dataService := dataService;
      running := false;
      config := CopyConfig(false, "", []);
      reportsCompletion := false;
      completions := [];
    }

    /**
     * `validateCopyConditions`: the Steam path must be non-null and non-empty,
     * the list non-empty and the copy path non-blank, in that order; then the
     * target directory is created and the configuration returned.
     */
    method ValidateCopyConditions(steamPath: Option<string>, copyPath: Option<string>, copyVideoMode: bool, fs: FileSystem)
      returns (r: Result<CopyConfig, Exception>)
      requires Valid()
      modifies fs
      ensures steamPath.None? || steamPath.value == [] ==>
        r == Failure(IllegalArgument("status.please.configure.steam.path")) && fs.entries == old(fs.entries)
      ensures steamPath.Some? && steamPath.value != [] && dataService.Contents == [] ==>
        r == Failure(IllegalArgument("status.no.workshop.items")) && fs.entries == old(fs.entries)
      ensures steamPath.Some? && steamPath.value != [] && dataService.Contents != [] && (copyPath.None? || IsBlank(copyPath.value)) ==>
        r == Failure(IllegalArgument("status.please.enter.copy.path")) && fs.entries == old(fs.entries)
      ensures steamPath.Some? && steamPath.value != [] && dataService.Contents != [] && copyPath.Some? && !IsBlank(copyPath.value) ==>
        var made := CreateDirectories(old(fs.entries), fs.failing, TargetDir(copyPath.value));
        && fs.entries == made.tree
        && (made.outcome.Fail? ==> r == Failure(made.outcome.error))
        && (made.outcome.Pass? ==> r == Success(CopyConfig(copyVideoMode, copyPath.value, TargetDir(copyPath.value))))
    {
      if steamPath.None? || steamPath.value == [] {
        return Failure(IllegalArgument("status.please.configure.steam.path"));
      }
      var total := dataService.GetTotalCount();
      if total == 0 {
        return Failure(IllegalArgument("status.no.workshop.items"));
      }
      if copyPath.None? || Trim(copyPath.value) == [] {
        return Failure(IllegalArgument("status.please.enter.copy.path"));
      }
      var targetDir := TargetDir(copyPath.value);
      var made := fs.CreateDirectoriesAt(targetDir);
      if made.Fail? {
        return Failure(made.error);
      }
      r := Success(CopyConfig(copyVideoMode, copyPath.value, targetDir));
    }

    /** `startCopy`: refused while a task runs; otherwise a new task with this configuration starts. */
    method StartCopy(copyConfig: CopyConfig, onCompletePresent: bool) returns (r: Outcome<Exception>)
      modifies this
      ensures old(running) ==>
        r == Fail(IllegalState("error.copy.task.running")) && running && config == old(config) && reportsCompletion == old(reportsCompletion)
      ensures !old(running) ==> r == Pass && running && config == copyConfig && reportsCompletion == onCompletePresent
      ensures completions == old(completions)
    {
      if running {
        return Fail(IllegalState("error.copy.task.running"));
      }
      running, config, reportsCompletion := true, copyConfig, onCompletePresent;
      r := Pass;
    }

    /** `isCopyRunning`. */
    method IsCopyRunning() returns (b: bool)
      ensures b == running
    {
      b := running;
    }

    /**
     * `copyItem` on the disk `fs`: the configured copy of the item's
     * directory, then its deletion once the copy passed.
     */
    method CopyItem(fs: FileSystem, steamPath: string, id: string, copyConfig: CopyConfig, l: Listings) returns (r: Outcome<Exception>)
      requires WellFormed(l)
      modifies fs
      ensures Effect(r, fs.entries) == CopyItemEffect(old(fs.entries), fs.failing, steamPath, id, copyConfig, l)
    {
      var source := SourceDir(steamPath, id);
      if copyConfig.copyVideoMode {
        r := fs.CopyVideoFiles(Some(source), Some(copyConfig.targetDir), l.listing(source));
      } else {
        r := fs.CopyDirectory(Some(source), Some(copyConfig.targetDir), l.walk(source));
      }
      if r.Fail? {
        return;
      }
      var ignored := fs.DeleteDirectory(Some(source), l.sorted(source));
    }

    /**
     * One pass of the loop body on an item not yet copied: the item shows
     * `COPYING`, its directory is copied, and it shows `SUCCESS` with an empty
     * message or `FAILED` with the exception's message.
     */
    method CopyOne(fs: FileSystem, steamPath: string, l: Listings, i: int, ghost successCount: nat, ghost failedCount: nat, ghost copy: Copier)
      returns (passed: bool)
      requires Valid() && Moves(copy, fs.failing, steamPath, config, l) && fs !in dataService.Repr
      requires 0 <= i < |dataService.Contents| && dataService.Contents[i].status != Succeeded
      modifies dataService.Repr, fs
      ensures Valid() && dataService.Repr == old(dataService.Repr)
      ensures dataService.hasListener == old(dataService.hasListener) && dataService.notifications == old(dataService.notifications)
      ensures Step(Progress(old(dataService.Contents), old(fs.entries), successCount, failedCount), i, copy)
        == if passed then Progress(dataService.Contents, fs.entries, successCount + 1, failedCount)
           else Progress(dataService.Contents, fs.entries, successCount, failedCount + 1)
    {
      ghost var p := Progress(dataService.Contents, fs.entries, successCount, failedCount);
      var item := dataService.items[i];
      assert item.State() == dataService.Contents[i];
      var id := item.data.id;
      dataService.SetCopyStatusAt(i, Copying, Some(""));
      var r := CopyItem(fs, steamPath, id, config, l);
      passed := r.Pass?;
      RecordOutcome(i, r);
      StepCopies(p, i, copy, fs.failing, steamPath, config, l, r, fs.entries, dataService.Contents);
    }

    /** The status update after a copy: `SUCCESS` with an empty message, or `FAILED` with the exception's message. */
    method RecordOutcome(i: int, r: Outcome<Exception>)
      requires Valid() && 0 <= i < |dataService.Contents|
      modifies dataService.Repr
      ensures Valid() && dataService.Repr == old(dataService.Repr)
      ensures dataService.hasListener == old(dataService.hasListener) && dataService.notifications == old(dataService.notifications)
      ensures dataService.Contents == old(dataService.Contents)[i := old(dataService.Contents)[i].(
        status := if r.Pass? then Succeeded else Failed,
        message := if r.Pass? then Some("") else Message(r.error))]
    {
      if r.Pass? {
        dataService.SetCopyStatusAt(i, Succeeded, Some(""));
      } else {
        dataService.SetCopyStatusAt(i, Failed, Message(r.error));
      }
    }

    /** The loop body for item `i`: an item already copied is skipped, any other is copied and counted. */
    method Visit(fs: FileSystem, steamPath: string, l: Listings, i: int, successCount: nat, failedCount: nat, ghost copy: Copier)
      returns (successCount': nat, failedCount': nat)
      requires Valid() && Moves(copy, fs.failing, steamPath, config, l) && fs !in dataService.Repr && 0 <= i < |dataService.Contents|
      modifies dataService.Repr, fs
      ensures Valid() && dataService.Repr == old(dataService.Repr) && |dataService.Contents| == old(|dataService.Contents|)
      ensures dataService.hasListener == old(dataService.hasListener) && dataService.notifications == old(dataService.notifications)
      ensures Progress(dataService.Contents, fs.entries, successCount', failedCount') ==
        Step(Progress(old(dataService.Contents), old(fs.entries), successCount, failedCount), i, copy)
    {
      successCount', failedCount' := successCount, failedCount;
      var item := dataService.items[i];
      assert item.State() == dataService.Contents[i];
      if item.copyStatus != Succeeded {
        var passed := CopyOne(fs, steamPath, l, i, successCount, failedCount, copy);
        if passed {
          successCount' := successCount + 1;
        } else {
          failedCount' := failedCount + 1;
        }
      }
    }

    /**
     * The task's loop: over the items the list held when the task began,
     * stopping at the first check that sees a cancellation.
     */
    method CopyAll(fs: FileSystem, steamPath: string, l: Listings, cancelAt: Option<nat>, ghost copy: Copier) returns (successCount: nat, failedCount: nat)
      requires Valid() && Moves(copy, fs.failing, steamPath, config, l) && fs !in dataService.Repr
      modifies dataService.Repr, fs
      ensures Valid() && dataService.Repr == old(dataService.Repr)
      ensures dataService.hasListener == old(dataService.hasListener) && dataService.notifications == old(dataService.notifications)
      ensures Progress(dataService.Contents, fs.entries, successCount, failedCount) ==
        Run(Progress(old(dataService.Contents), old(fs.entries), 0, 0), Visited(cancelAt, |old(dataService.Contents)|), copy)
    {
      ghost var start := Progress(dataService.Contents, fs.entries, 0, 0);
      ghost var trace := [start];
      var totalCount := dataService.GetTotalCount();
      successCount, failedCount := 0, 0;
      var i := 0;
      while i < totalCount
        invariant 0 <= i <= totalCount == |start.items| == |dataService.Contents|
        invariant cancelAt.Some? ==> i <= cancelAt.value
        invariant dataService.Valid() && dataService.Repr == old(dataService.Repr)
        invariant dataService.hasListener == old(dataService.hasListener) && dataService.notifications == old(dataService.notifications)
        invariant |trace| == i + 1 && trace[0] == start && Chained(trace, copy)
        invariant trace[i] == Progress(dataService.Contents, fs.entries, successCount, failedCount)
      {
        if cancelAt.Some? && cancelAt.value <= i {
          break;
        }
        successCount, failedCount := Visit(fs, steamPath, l, i, successCount, failedCount, copy);
        ChainExtend(trace, copy, Progress(dataService.Contents, fs.entries, successCount, failedCount));
        trace := trace + [Progress(dataService.Contents, fs.entries, successCount, failedCount)];
        i := i + 1;
      }
      ChainIsRun(trace, copy);
      assert i == Visited(cancelAt, totalCount);
    }

    /**
     * The task's `call` and then its `succeeded`: the loop, and the
     * completion callback with the two counters unless the task was
     * cancelled.
     */
    method RunCopyTask(fs: FileSystem, steamPath: string, l: Listings, cancelAt: Option<nat>)
      requires Valid() && running && WellFormed(l) && fs !in dataService.Repr
      modifies this, dataService.Repr, fs
      ensures Valid() && !running && dataService.Repr == old(dataService.Repr)
      ensures config == old(config) && reportsCompletion == old(reportsCompletion)
      ensures dataService.hasListener == old(dataService.hasListener) && dataService.notifications == old(dataService.notifications)
      ensures var p := Run(Progress(old(dataService.Contents), old(fs.entries), 0, 0), Visited(cancelAt, |old(dataService.Contents)|),
                           Mover(fs.failing, steamPath, old(config), l));
        && dataService.Contents == p.items && fs.entries == p.tree
        && completions == old(completions) + (if cancelAt.None? && old(reportsCompletion) then [(p.successCount as int, p.failedCount as int)] else [])
    {
      var successCount, failedCount := CopyAll(fs, steamPath, l, cancelAt, Mover(fs.failing, steamPath, config, l));
      running := false;
      if cancelAt.None? && reportsCompletion {
        completions := completions + [(successCount, failedCount)];
      }
    }

    /** The task's `failed`: the completion callback with no success and every item of the list failed. */
    method TaskFailed()
      requires Valid() && running
      modifies this
      ensures config == old(config) && reportsCompletion == old(reportsCompletion)
      ensures !running && completions == old(completions) + (if old(reportsCompletion) then [(0, |dataService.Contents|)] else [])
    {
      running := false;
      if reportsCompletion {
        var total := dataService.GetTotalCount();
        completions := completions + [(0, total)];
      }
    }
  }
}
