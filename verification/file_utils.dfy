/**
 * The file helpers used by a copy: copy the first video file of a
 * directory, copy a whole directory tree, and delete a directory tree.
 *
 * The file system is a map from paths to nodes. A path is its sequence of
 * names, so `p < q` (a proper prefix) says that `q` lies below `p`. The set
 * `failing` names the paths (a locked or unreadable file) at which opening a
 * directory stream or a walk, copying, creating or deleting fails;
 * `Files.exists` and `Files.isDirectory` still answer for them. Directory
 * streams and walks list entries in an order the file system chooses; that
 * order enters as a parameter.
 */
module FileUtils {
  import opened Wrappers
  import opened JavaText

  type Path = seq<string>

  datatype Node = Directory | File(data: string)

  type Tree = map<Path, Node>

  /** The outcome of a file-system operation and the tree it leaves. */
  datatype Effect = Effect(outcome: Outcome<Exception>, tree: Tree)

  /** `Path.getFileName`. */
  function Name(p: Path): string
    requires p != []
  {
    p[|p| - 1]
  }

  /** `Files.isDirectory`: false for a missing path. */
  predicate IsDir(fs: Tree, p: Path)
  {
    p in fs && fs[p].Directory?
  }

  /** Some entry lies below `p`. */
  predicate HasChild(fs: Tree, p: Path)
  {
    exists q | q in fs :: p < q
  }

  /*** The file-system primitives ***/

  /** The path and its ancestors, the root excluded. */
  function Ancestry(p: Path): set<Path>
  {
    set j | 0 < j <= |p| :: p[..j]
  }

  /** The path or one of its ancestors is a file. */
  predicate Blocked(fs: Tree, p: Path)
  {
    exists j | 0 < j <= |p| :: p[..j] in fs && fs[p[..j]].File?
  }

  /** `fs` with `p` and all its ancestors made directories. */
  function WithDirs(fs: Tree, p: Path): Tree
  {
    map k | k in fs.Keys + Ancestry(p) :: if k in Ancestry(p) then Directory else fs[k]
  }

  /** `Files.createDirectories`: fails when the path or an ancestor is a file. */
  function CreateDirectories(fs: Tree, failing: set<Path>, p: Path): (e: Effect)
    ensures e.outcome.Fail? ==> e.tree == fs
    ensures e.outcome.Pass? <==> p !in failing && !Blocked(fs, p)
    ensures e.outcome.Pass? ==> p == [] || IsDir(e.tree, p)
  {
    if p in failing then Effect(Fail(IO("AccessDeniedException")), fs)
    else if Blocked(fs, p) then Effect(Fail(IO("FileAlreadyExistsException")), fs)
    else
      assert p[..|p|] == p;
      assert p == [] || p in Ancestry(p);
      Effect(Pass, WithDirs(fs, p))
  }

  /** `Files.copy(from, to, REPLACE_EXISTING)`. */
  function CopyFile(fs: Tree, failing: set<Path>, from: Path, to: Path): (e: Effect)
    requires to != []
    ensures e.outcome.Fail? ==> e.tree == fs
    ensures e.outcome.Pass? ==> from in fs && e.tree == fs[to := fs[from]]
  {
    if from in failing || to in failing then Effect(Fail(IO("AccessDeniedException")), fs)
    else if from !in fs || (|to| > 1 && !IsDir(fs, to[..|to| - 1])) then Effect(Fail(IO("NoSuchFileException")), fs)
    else if IsDir(fs, to) && HasChild(fs, to) then Effect(Fail(IO("DirectoryNotEmptyException")), fs)
    else Effect(Pass, fs[to := fs[from]])
  }

  /** `Files.deleteIfExists`: a directory must be empty. */
  function DeleteIfExists(fs: Tree, failing: set<Path>, p: Path): (e: Effect)
    ensures e.outcome.Fail? ==> e.tree == fs
    ensures e.outcome.Pass? <==> p !in failing && !(IsDir(fs, p) && HasChild(fs, p))
    ensures e.outcome.Pass? ==> e.tree == fs - {p}
  {
    if p in failing then Effect(Fail(IO("AccessDeniedException")), fs)
    else if IsDir(fs, p) && HasChild(fs, p) then Effect(Fail(IO("DirectoryNotEmptyException")), fs)
    else Effect(Pass, fs - {p})
  }

  /*** copyVideoFiles ***/

  const VideoExtensions: seq<string> := [".mp4", ".avi", ".mov", ".wmv", ".flv", ".mkv"]

  /** The lower-cased name ends with one of the video extensions. */
  predicate IsVideoName(name: string)
  {
    exists e | e in VideoExtensions :: EndsWith(ToLower(name), e)
  }

  /** The entry `copyVideoFiles` would take: not a directory, with a video name. */
  predicate Qualifies(fs: Tree, p: Path)
    requires p != []
  {
    !IsDir(fs, p) && IsVideoName(Name(p))
  }

  /** The index of the first entry of the listing that qualifies, or -1. */
  function FirstVideo(fs: Tree, listing: seq<Path>): (k: int)
    requires forall i | 0 <= i < |listing| :: listing[i] != []
    ensures -1 <= k < |listing|
    ensures 0 <= k ==> Qualifies(fs, listing[k])
    ensures forall i | 0 <= i < |listing| && (k < 0 || i < k) :: !Qualifies(fs, listing[i])
  {
    if listing == [] then -1
    else if Qualifies(fs, listing[0]) then 0
    else
      var k := FirstVideo(fs, listing[1..]);
      assert forall i | 1 <= i < |listing| :: listing[i] == listing[1..][i - 1];
      if k < 0 then -1 else k + 1
  }

  /*** copyDirectory ***/

  /** Where `copyDirectory` puts the walked entry `p`: the target root resolved with `p` relative to the source. */
  function Dest(source: Path, targetPath: Path, p: Path): (d: Path)
    requires source <= p
    ensures targetPath <= d && |d| == |targetPath| + |p| - |source|
  {
    targetPath + p[|source|..]
  }

  /** One step of the walk: the source itself is skipped, a directory is created, anything else is copied. */
  function CopyEntry(fs: Tree, failing: set<Path>, source: Path, targetPath: Path, p: Path): Effect
    requires source <= p && targetPath != []
  {
    if p == source then Effect(Pass, fs)
    else if IsDir(fs, p) then CreateDirectories(fs, failing, Dest(source, targetPath, p))
    else CopyFile(fs, failing, p, Dest(source, targetPath, p))
  }

  /** The walk in order; the first failure ends it. */
  function CopyWalk(fs: Tree, failing: set<Path>, source: Path, targetPath: Path, walk: seq<Path>): Effect
    requires targetPath != [] && forall i | 0 <= i < |walk| :: source <= walk[i]
    decreases |walk|
  {
    if walk == [] then Effect(Pass, fs)
    else
      var e := CopyEntry(fs, failing, source, targetPath, walk[0]);
      if e.outcome.Fail? then e else CopyWalk(e.tree, failing, source, targetPath, walk[1..])
  }

  /** Neither path lies at or below the other. */
  predicate Apart(a: Path, b: Path)
  {
    !(a <= b) && !(b <= a)
  }

  /** A path below `targetPath` is never at or below `source` when the two are apart. */
  lemma ApartBelow(source: Path, targetPath: Path, d: Path)
    requires Apart(source, targetPath) && targetPath <= d
    ensures !(source <= d)
  {
    if |source| <= |targetPath| {
      assert d[..|source|] == targetPath[..|source|];
    } else {
      assert d[..|targetPath|] == targetPath;
    }
  }

  /** Neither an ancestor of a destination nor the destination itself lies below the source. */
  lemma ApartPrefix(source: Path, targetPath: Path, d: Path, k: Path)
    requires Apart(source, targetPath) && targetPath <= d && k in Ancestry(d)
    ensures !(source <= k)
  {
    var j :| 0 < j <= |d| && d[..j] == k;
    if |k| >= |targetPath| {
      assert targetPath <= k;
      ApartBelow(source, targetPath, k);
    } else {
      assert k == targetPath[..|k|];
    }
  }

  /** A step of the walk leaves everything at or below the source as it was. */
  lemma CopyEntryKeepsSource(fs: Tree, failing: set<Path>, source: Path, targetPath: Path, p: Path, q: Path)
    requires source <= p && Apart(source, targetPath) && targetPath != []
    requires source <= q
    ensures q in CopyEntry(fs, failing, source, targetPath, p).tree <==> q in fs
    ensures q in fs ==> CopyEntry(fs, failing, source, targetPath, p).tree[q] == fs[q]
  {
    if p != source {
      var d := Dest(source, targetPath, p);
      ApartBelow(source, targetPath, d);
      if q in Ancestry(d) {
        ApartPrefix(source, targetPath, d, q);
      }
    }
  }

  /**
   * Once the walk has passed, an entry `d` keeps its node, as long as every
   * later entry copied to `d` carries that same node.
   */
  lemma {:induction false} CopyWalkKeeps(fs: Tree, failing: set<Path>, source: Path, targetPath: Path, walk: seq<Path>, d: Path)
    requires Apart(source, targetPath) && targetPath != [] && forall i | 0 <= i < |walk| :: source <= walk[i]
    requires CopyWalk(fs, failing, source, targetPath, walk).outcome.Pass?
    requires d in fs && targetPath <= d
    requires forall i | 0 <= i < |walk| && walk[i] != source && Dest(source, targetPath, walk[i]) == d ::
      walk[i] in fs && fs[walk[i]] == fs[d]
    ensures d in CopyWalk(fs, failing, source, targetPath, walk).tree
    ensures CopyWalk(fs, failing, source, targetPath, walk).tree[d] == fs[d]
    decreases |walk|
  {
    if walk != [] {
      var p := walk[0];
      var e := CopyEntry(fs, failing, source, targetPath, p);
      assert e.outcome.Pass?;
      if p != source {
        var dp := Dest(source, targetPath, p);
        if IsDir(fs, p) {
          assert e == CreateDirectories(fs, failing, dp);
          if d in Ancestry(dp) && fs[d].File? {
            BlockedByPrefix(fs, dp, d);
          }
        } else {
          assert e == CopyFile(fs, failing, p, dp);
          if dp == d {
            assert walk[0] != source && Dest(source, targetPath, walk[0]) == d;
          }
        }
      }
      assert d in e.tree && e.tree[d] == fs[d];
      forall i | 0 <= i < |walk[1..]| && walk[1..][i] != source && Dest(source, targetPath, walk[1..][i]) == d
        ensures walk[1..][i] in e.tree && e.tree[walk[1..][i]] == e.tree[d]
      {
        assert walk[1..][i] == walk[i + 1];
        CopyEntryKeepsSource(fs, failing, source, targetPath, p, walk[i + 1]);
      }
      CopyWalkKeeps(e.tree, failing, source, targetPath, walk[1..], d);
    }
  }

  /** A file at an ancestor of `p`, or at `p`, blocks `createDirectories(p)`. */
  lemma BlockedByPrefix(fs: Tree, p: Path, k: Path)
    requires k in Ancestry(p) && k in fs && fs[k].File?
    ensures Blocked(fs, p)
  {
    var j :| 0 < j <= |p| && p[..j] == k;
  }

  /**
   * When the walk of a source that is apart from the target passes, every
   * walked entry below the source exists and its copy, at its destination,
   * holds the same node: a directory for a directory, the same data for a
   * file.
   */
  lemma {:induction false} CopyWalkPlaces(fs: Tree, failing: set<Path>, source: Path, targetPath: Path, walk: seq<Path>)
    requires Apart(source, targetPath) && targetPath != [] && forall i | 0 <= i < |walk| :: source <= walk[i]
    requires CopyWalk(fs, failing, source, targetPath, walk).outcome.Pass?
    ensures forall i | 0 <= i < |walk| && walk[i] != source ::
      && walk[i] in fs
      && Dest(source, targetPath, walk[i]) in CopyWalk(fs, failing, source, targetPath, walk).tree
      && CopyWalk(fs, failing, source, targetPath, walk).tree[Dest(source, targetPath, walk[i])] == fs[walk[i]]
    decreases |walk|
  {
    if walk != [] {
      var p := walk[0];
      var rest := walk[1..];
      var e := CopyEntry(fs, failing, source, targetPath, p);
      var t := CopyWalk(fs, failing, source, targetPath, walk).tree;
      assert t == CopyWalk(e.tree, failing, source, targetPath, rest).tree;
      CopyWalkPlaces(e.tree, failing, source, targetPath, rest);
      forall i | 0 <= i < |rest|
        ensures rest[i] in fs <==> rest[i] in e.tree
        ensures rest[i] in fs ==> e.tree[rest[i]] == fs[rest[i]]
      {
        CopyEntryKeepsSource(fs, failing, source, targetPath, p, rest[i]);
      }
      if p != source {
        var dp := Dest(source, targetPath, p);
        assert p in fs;
        CopyEntryKeepsSource(fs, failing, source, targetPath, p, p);
        assert dp in e.tree && e.tree[dp] == fs[p];
        forall i | 0 <= i < |rest| && rest[i] != source && Dest(source, targetPath, rest[i]) == dp
          ensures rest[i] in e.tree && e.tree[rest[i]] == e.tree[dp]
        {
          var a, b := rest[i][|source|..], p[|source|..];
          assert a == (targetPath + a)[|targetPath|..];
          assert b == (targetPath + b)[|targetPath|..];
          assert rest[i] == source + a;
          assert p == source + p[|source|..];
        }
        CopyWalkKeeps(e.tree, failing, source, targetPath, rest, dp);
      }
      forall i | 0 <= i < |walk| && walk[i] != source
        ensures walk[i] in fs && Dest(source, targetPath, walk[i]) in t
        ensures t[Dest(source, targetPath, walk[i])] == fs[walk[i]]
      {
        if i > 0 {
          assert walk[i] == rest[i - 1];
        }
      }
    }
  }

  /*** deleteDirectory ***/

  lemma PrefixTransitive(a: Path, b: Path, c: Path)
    ensures a <= b && b <= c ==> a <= c
  {
    if a <= b && b <= c {
      assert c[..|a|] == b[..|a|];
    }
  }

  /** Deleting every path of `order` in turn; a failed deletion is skipped. */
  function DeleteEach(fs: Tree, failing: set<Path>, order: seq<Path>): Tree
    decreases |order|
  {
    if order == [] then fs else DeleteEach(DeleteIfExists(fs, failing, order[0]).tree, failing, order[1..])
  }

  /**
   * The text of a path as `WindowsPath.toString` writes it, with a separator
   * in front of every name. All the paths being compared lie below one
   * directory and so start with the same separator, which therefore does
   * not change how two of them compare.
   */
  function Text(p: Path): (t: string)
  {
    if p == [] then [] else Text(p[..|p| - 1]) + ['\\'] + p[|p| - 1]
  }

  /** A path's text, followed by a separator, begins the text of every path below it. */
  lemma {:induction false} TextPrefix(a: Path, b: Path)
    requires a < b
    ensures Text(a) + ['\\'] <= Text(b)
    decreases |b|
  {
    var parent := b[..|b| - 1];
    assert Text(b) == Text(parent) + ['\\'] + b[|b| - 1];
    if a != parent {
      assert a < parent;
      TextPrefix(a, parent);
    }
  }

  /**
   * `a.compareTo(b) < 0` on Windows paths: the texts compared character by
   * character with the case of letters ignored, a proper prefix first.
   */
  predicate PathLess(a: Path, b: Path)
  {
    Less(ToUpper(Text(a)), ToUpper(Text(b)))
  }

  /** A directory comes before every path below it. */
  lemma PathPrefixIsLess(a: Path, b: Path)
    requires a < b
    ensures PathLess(a, b)
  {
    TextPrefix(a, b);
    var s, t := ToUpper(Text(a)), ToUpper(Text(b));
    assert s == t[..|s|];
    PrefixIsLess(s, t);
  }

  /** Each path comes after every path below it. */
  predicate DescendantsFirst(order: seq<Path>)
  {
    forall i, j | 0 <= i < j < |order| :: !(order[i] < order[j])
  }

  /** A stream sorted by `Comparator.reverseOrder()`: no path is less than one after it. */
  predicate ReverseSorted(order: seq<Path>)
  {
    forall i, j | 0 <= i < j < |order| :: !PathLess(order[i], order[j])
  }

  /** Reverse path order lists children before their parents. */
  lemma ReverseSortedChildrenFirst(order: seq<Path>)
    requires ReverseSorted(order)
    ensures DescendantsFirst(order)
  {
    forall i, j | 0 <= i < j < |order|
      ensures !(order[i] < order[j])
    {
      if order[i] < order[j] {
        PathPrefixIsLess(order[i], order[j]);
      }
    }
  }

  /**
   * Deleting children first removes a whole tree when no entry in it fails,
   * and leaves everything outside the tree as it was.
   */
  lemma {:induction false} DeleteEachEmpties(fs: Tree, failing: set<Path>, dir: Path, order: seq<Path>)
    requires DescendantsFirst(order) && forall i | 0 <= i < |order| :: dir <= order[i]
    requires forall p | p in fs && dir <= p :: p in order && p !in failing
    ensures forall p | p in DeleteEach(fs, failing, order) :: !(dir <= p)
    ensures forall p | p in fs && !(dir <= p) :: p in DeleteEach(fs, failing, order) && DeleteEach(fs, failing, order)[p] == fs[p]
    decreases |order|
  {
    if order != [] {
      var p := order[0];
      var rest := order[1..];
      forall q | q in fs
        ensures !(p < q)
      {
        if dir <= q {
          var j :| 0 <= j < |order| && order[j] == q;
          if j > 0 {
            assert !(order[0] < order[j]);
          }
        } else {
          PrefixTransitive(dir, p, q);
        }
      }
      var fs' := fs - {p};
      assert DeleteIfExists(fs, failing, p).tree == fs';
      forall i, j | 0 <= i < j < |rest|
        ensures !(rest[i] < rest[j])
      {
        assert rest[i] == order[i + 1] && rest[j] == order[j + 1];
      }
      forall q | q in fs' && dir <= q
        ensures q in rest && q !in failing
      {
        var j :| 0 <= j < |order| && order[j] == q;
        assert rest[j - 1] == q;
      }
      DeleteEachEmpties(fs', failing, dir, rest);
    }
  }

  /*** The three helpers as functions of the tree ***/

  /**
   * `copyVideoFiles` once both paths are non-null: a missing source is an
   * error; otherwise the target is created and the first listed entry that
   * is not a directory and has a video name is copied under the target with
   * its own name. A source that cannot be listed, or no such entry, is an
   * error that keeps the created target.
   */
  function CopyVideo(fs: Tree, failing: set<Path>, source: Path, target: Path, listing: seq<Path>): (e: Effect)
    requires forall i | 0 <= i < |listing| :: listing[i] != []
    ensures !IsDir(fs, source) ==> e == Effect(Fail(IO("error.directory.not.exists")), fs)
    ensures IsDir(fs, source) && source in failing && target !in failing && !Blocked(fs, target) ==>
      e == Effect(Fail(IO("AccessDeniedException")), WithDirs(fs, target))
    ensures e.outcome.Pass? ==>
      var made := WithDirs(fs, target);
      var k := FirstVideo(made, listing);
      && IsDir(fs, source) && source !in failing && target !in failing && !Blocked(fs, target)
      && 0 <= k && listing[k] in made
      && e.tree == made[target + [Name(listing[k])] := made[listing[k]]]
  {
    if !IsDir(fs, source) then Effect(Fail(IO("error.directory.not.exists")), fs)
    else
      var made := CreateDirectories(fs, failing, target);
      if made.outcome.Fail? then made
      else if source in failing then Effect(Fail(IO("AccessDeniedException")), made.tree)
      else
        var k := FirstVideo(made.tree, listing);
        if k < 0 then Effect(Fail(IO("error.video.file.not.exists")), made.tree)
        else CopyFile(made.tree, failing, listing[k], target + [Name(listing[k])])
  }

  /**
   * `copyDirectory` once both paths are non-null: a missing source is an
   * error, the root has no name to copy under, and otherwise
   * `target/<source name>` is created and the walk copied into it; a source
   * that cannot be walked is an error that keeps the created directory.
   */
  function CopyTree(fs: Tree, failing: set<Path>, source: Path, target: Path, walk: seq<Path>): (e: Effect)
    requires forall i | 0 <= i < |walk| :: source <= walk[i]
    ensures !IsDir(fs, source) ==> e == Effect(Fail(IO("error.directory.not.exists")), fs)
    ensures IsDir(fs, source) && source == [] ==> e == Effect(Fail(NullPointer("getFileName")), fs)
    ensures IsDir(fs, source) && source != [] && source in failing ==>
      var targetPath := target + [Name(source)];
      e.outcome.Fail? &&
      e.tree == if targetPath in failing || Blocked(fs, targetPath) then fs else WithDirs(fs, targetPath)
    ensures e.outcome.Pass? ==> source != [] && source !in failing && IsDir(e.tree, target + [Name(source)])
  {
    if !IsDir(fs, source) then Effect(Fail(IO("error.directory.not.exists")), fs)
    else if source == [] then Effect(Fail(NullPointer("getFileName")), fs)
    else
      var targetPath := target + [Name(source)];
      var made := CreateDirectories(fs, failing, targetPath);
      if made.outcome.Fail? then made
      else if source in failing then Effect(Fail(IO("AccessDeniedException")), made.tree)
      else
        CopyWalkKeepsTarget(made.tree, failing, source, targetPath, walk);
        CopyWalk(made.tree, failing, source, targetPath, walk)
  }

  /** What `deleteDirectory` reports and the tree it leaves. */
  datatype Removal = Removal(deleted: bool, tree: Tree)

  /**
   * `deleteDirectory` on a non-null path: nothing happens to a path that is
   * not a directory or cannot be walked; otherwise every path of the sorted
   * walk is deleted in turn.
   */
  function DeleteTree(fs: Tree, failing: set<Path>, dir: Path, sorted: seq<Path>): (d: Removal)
    ensures d.deleted <==> IsDir(fs, dir) && dir !in failing
    ensures !d.deleted ==> d.tree == fs
  {
    if IsDir(fs, dir) && dir !in failing then Removal(true, DeleteEach(fs, failing, sorted))
    else Removal(false, fs)
  }

  /*** What the helpers promise ***/

  /** Making the target's directories touches nothing at or below a source apart from it. */
  lemma WithDirsKeepsSource(fs: Tree, source: Path, target: Path, q: Path)
    requires Apart(source, target) && source <= q
    ensures q in WithDirs(fs, target) <==> q in fs
    ensures q in fs ==> WithDirs(fs, target)[q] == fs[q]
  {
    if q in Ancestry(target) {
      ApartPrefix(source, target, target, q);
    }
  }

  /** A copy walk that passed leaves the root of the target a directory. */
  lemma {:induction false} CopyWalkKeepsTarget(fs: Tree, failing: set<Path>, source: Path, targetPath: Path, walk: seq<Path>)
    requires targetPath != [] && IsDir(fs, targetPath) && forall i | 0 <= i < |walk| :: source <= walk[i]
    ensures CopyWalk(fs, failing, source, targetPath, walk).outcome.Pass? ==> IsDir(CopyWalk(fs, failing, source, targetPath, walk).tree, targetPath)
    decreases |walk|
  {
    if walk != [] {
      var e := CopyEntry(fs, failing, source, targetPath, walk[0]);
      if e.outcome.Pass? {
        if walk[0] != source {
          var d := Dest(source, targetPath, walk[0]);
          assert d[..|targetPath|] == targetPath && |targetPath| < |d|;
          assert targetPath in Ancestry(d);
        }
        CopyWalkKeepsTarget(e.tree, failing, source, targetPath, walk[1..]);
      }
    }
  }

  /** A copy walk touches nothing at or below its source when the source and the target are apart. */
  lemma {:induction false} CopyWalkKeepsSource(fs: Tree, failing: set<Path>, source: Path, targetPath: Path, walk: seq<Path>, q: Path)
    requires Apart(source, targetPath) && targetPath != [] && forall i | 0 <= i < |walk| :: source <= walk[i]
    requires source <= q
    ensures q in CopyWalk(fs, failing, source, targetPath, walk).tree <==> q in fs
    ensures q in fs ==> CopyWalk(fs, failing, source, targetPath, walk).tree[q] == fs[q]
    decreases |walk|
  {
    if walk != [] {
      var e := CopyEntry(fs, failing, source, targetPath, walk[0]);
      CopyEntryKeepsSource(fs, failing, source, targetPath, walk[0], q);
      if e.outcome.Pass? {
        CopyWalkKeepsSource(e.tree, failing, source, targetPath, walk[1..], q);
      }
    }
  }

  /** A target apart from the source stays apart once the source's name is appended to it. */
  lemma ApartBelowName(source: Path, target: Path, name: string)
    requires Apart(source, target)
    ensures Apart(source, target + [name])
  {
    assert target <= target + [name];
    PrefixTransitive(target, target + [name], source);
    assert source <= target + [name] && |source| <= |target| ==> source <= target;
    assert source <= target + [name] && |source| > |target| ==> source == target + [name];
  }

  /** Copying a directory, passed or not, leaves everything at or below the source as it was. */
  lemma CopyTreeKeepsSource(fs: Tree, failing: set<Path>, source: Path, target: Path, walk: seq<Path>, q: Path)
    requires forall i | 0 <= i < |walk| :: source <= walk[i]
    requires Apart(source, target) && source <= q
    ensures q in CopyTree(fs, failing, source, target, walk).tree <==> q in fs
    ensures q in fs ==> CopyTree(fs, failing, source, target, walk).tree[q] == fs[q]
  {
    if IsDir(fs, source) && source != [] {
      var targetPath := target + [Name(source)];
      ApartBelowName(source, target, Name(source));
      WithDirsKeepsSource(fs, source, targetPath, q);
      var made := CreateDirectories(fs, failing, targetPath);
      CopyWalkKeepsSource(made.tree, failing, source, targetPath, walk, q);
    }
  }

  /** Copying a video file, passed or not, leaves everything at or below the source as it was. */
  lemma CopyVideoKeepsSource(fs: Tree, failing: set<Path>, source: Path, target: Path, listing: seq<Path>, q: Path)
    requires forall i | 0 <= i < |listing| :: listing[i] != []
    requires Apart(source, target) && source <= q
    ensures q in CopyVideo(fs, failing, source, target, listing).tree <==> q in fs
    ensures q in fs ==> CopyVideo(fs, failing, source, target, listing).tree[q] == fs[q]
  {
    WithDirsKeepsSource(fs, source, target, q);
    if IsDir(fs, source) {
      var made := CreateDirectories(fs, failing, target);
      var k := FirstVideo(made.tree, listing);
      if made.outcome.Pass? && 0 <= k {
        ApartBelow(source, target, target + [Name(listing[k])]);
      }
    }
  }

  /**
   * A directory copy that passed holds, at the destination of every walked
   * entry below the source, what that entry held before the copy.
   */
  lemma CopyTreePlaces(fs: Tree, failing: set<Path>, source: Path, target: Path, walk: seq<Path>)
    requires forall i | 0 <= i < |walk| :: source <= walk[i]
    requires Apart(source, target) && CopyTree(fs, failing, source, target, walk).outcome.Pass?
    ensures source != []
    ensures forall i | 0 <= i < |walk| && walk[i] != source ::
      && walk[i] in fs
      && Dest(source, target + [Name(source)], walk[i]) in CopyTree(fs, failing, source, target, walk).tree
      && CopyTree(fs, failing, source, target, walk).tree[Dest(source, target + [Name(source)], walk[i])] == fs[walk[i]]
  {
    var targetPath := target + [Name(source)];
    ApartBelowName(source, target, Name(source));
    var made := CreateDirectories(fs, failing, targetPath);
    CopyWalkPlaces(made.tree, failing, source, targetPath, walk);
    forall i | 0 <= i < |walk| && walk[i] != source
      ensures walk[i] in fs && made.tree[walk[i]] == fs[walk[i]]
    {
      WithDirsKeepsSource(fs, source, targetPath, walk[i]);
    }
  }

  /**
   * Deleting a directory whose sorted walk covers it, children before their
   * parents, with no entry that fails, leaves nothing at or below it and
   * keeps everything else.
   */
  lemma DeleteTreeEmpties(fs: Tree, failing: set<Path>, dir: Path, sorted: seq<Path>)
    requires IsDir(fs, dir) && DescendantsFirst(sorted) && forall i | 0 <= i < |sorted| :: dir <= sorted[i]
    requires forall p | p in fs && dir <= p :: p in sorted && p !in failing
    ensures DeleteTree(fs, failing, dir, sorted).deleted
    ensures forall p | p in DeleteTree(fs, failing, dir, sorted).tree :: !(dir <= p)
    ensures forall p | p in fs && !(dir <= p) ::
      p in DeleteTree(fs, failing, dir, sorted).tree && DeleteTree(fs, failing, dir, sorted).tree[p] == fs[p]
  {
    DeleteEachEmpties(fs, failing, dir, sorted);
  }

  /*** The file system and the three helpers ***/

  /** The file system the helpers work on; `failing` never changes. */
  class FileSystem {
    var entries: Tree
    const failing: set<Path>

    constructor (entries: Tree, failing: set<Path>)
      ensures this.entries == entries && this.failing == failing
    {
      this.entries := entries;
      this.failing := failing;
    }

    method CreateDirectoriesAt(p: Path) returns (r: Outcome<Exception>)
      modifies this
      ensures Effect(r, entries) == CreateDirectories(old(entries), failing, p)
    {
      var e := CreateDirectories(entries, failing, p);
      r, entries := e.outcome, e.tree;
    }

    method CopyFileAt(from: Path, to: Path) returns (r: Outcome<Exception>)
      requires to != []
      modifies this
      ensures Effect(r, entries) == CopyFile(old(entries), failing, from, to)
    {
      var e := CopyFile(entries, failing, from, to);
      r, entries := e.outcome, e.tree;
    }

    method DeleteIfExistsAt(p: Path) returns (r: Outcome<Exception>)
      modifies this
      ensures Effect(r, entries) == DeleteIfExists(old(entries), failing, p)
    {
      var e := DeleteIfExists(entries, failing, p);
      r, entries := e.outcome, e.tree;
    }

    /** `copyVideoFiles`: null paths are rejected, then `CopyVideo`. */
    method CopyVideoFiles(sourceDir: Option<Path>, targetDir: Option<Path>, listing: seq<Path>) returns (r: Outcome<Exception>)
      requires forall i | 0 <= i < |listing| :: listing[i] != []
      modifies this
      ensures sourceDir.None? || targetDir.None? ==>
        r == Fail(IO("error.source.or.target.dir.null")) && entries == old(entries)
      ensures sourceDir.Some? && targetDir.Some? ==>
        Effect(r, entries) == CopyVideo(old(entries), failing, sourceDir.value, targetDir.value, listing)
    {
      if sourceDir.None? || targetDir.None? {
        return Fail(IO("error.source.or.target.dir.null"));
      }
      if !IsDir(entries, sourceDir.value) {
        return Fail(IO("error.directory.not.exists"));
      }
      var target := targetDir.value;
      r := CreateDirectoriesAt(target);
      if r.Fail? {
        return;
      }
      if sourceDir.value in failing {
        return Fail(IO("AccessDeniedException"));
      }
      ghost var made := entries;
      ghost var k := FirstVideo(made, listing);
      assert CopyVideo(old(entries), failing, sourceDir.value, target, listing) ==
        if k < 0 then Effect(Fail(IO("error.video.file.not.exists")), made)
        else CopyFile(made, failing, listing[k], target + [Name(listing[k])]);
      var copied := false;
      var i := 0;
      while i < |listing|
        invariant 0 <= i <= |listing| && entries == made && !copied
        invariant forall j | 0 <= j < i :: !Qualifies(made, listing[j])
      {
        var sourceFile := listing[i];
        if !IsDir(entries, sourceFile) && IsVideoName(Name(sourceFile)) {
          assert k == i;
          r := CopyFileAt(sourceFile, target + [Name(sourceFile)]);
          if r.Fail? {
            return;
          }
          copied := true;
          break;
        }
        i := i + 1;
      }
      if !copied {
        r := Fail(IO("error.video.file.not.exists"));
      }
    }

    /** `copyDirectory`: null paths are rejected, then `CopyTree`. */
    method CopyDirectory(sourceDir: Option<Path>, targetDir: Option<Path>, walk: seq<Path>) returns (r: Outcome<Exception>)
      requires sourceDir.Some? ==> forall i | 0 <= i < |walk| :: sourceDir.value <= walk[i]
      modifies this
      ensures sourceDir.None? || targetDir.None? ==>
        r == Fail(IO("error.source.or.target.dir.null")) && entries == old(entries)
      ensures sourceDir.Some? && targetDir.Some? ==>
        Effect(r, entries) == CopyTree(old(entries), failing, sourceDir.value, targetDir.value, walk)
    {
      if sourceDir.None? || targetDir.None? {
        return Fail(IO("error.source.or.target.dir.null"));
      }
      var source := sourceDir.value;
      if !IsDir(entries, source) {
        return Fail(IO("error.directory.not.exists"));
      }
      if source == [] {
        return Fail(NullPointer("getFileName"));
      }
      var targetPath := targetDir.value + [Name(source)];
      r := CreateDirectoriesAt(targetPath);
      if r.Fail? {
        return;
      }
      if source in failing {
        return Fail(IO("AccessDeniedException"));
      }
      ghost var made := entries;
      for i := 0 to |walk|
        invariant CopyWalk(made, failing, source, targetPath, walk) == CopyWalk(entries, failing, source, targetPath, walk[i..])
      {
        assert walk[i..][1..] == walk[i + 1..];
        var entry := walk[i];
        if entry != source {
          var destination := targetPath + entry[|source|..];
          if IsDir(entries, entry) {
            r := CreateDirectoriesAt(destination);
          } else {
            r := CopyFileAt(entry, destination);
          }
          if r.Fail? {
            return;
          }
        }
      }
      r := Pass;
    }

    /** `deleteDirectory`: false for a null path, otherwise `DeleteTree`. */
    method DeleteDirectory(dirPath: Option<Path>, sorted: seq<Path>) returns (deleted: bool)
      modifies this
      ensures dirPath.None? ==> !deleted && entries == old(entries)
      ensures dirPath.Some? ==> Removal(deleted, entries) == DeleteTree(old(entries), failing, dirPath.value, sorted)
    {
      if dirPath.None? {
        return false;
      }
      if dirPath.value !in entries {
        return false;
      }
      if !IsDir(entries, dirPath.value) {
        return false;
      }
      if dirPath.value in failing {
        return false;
      }
      for i := 0 to |sorted|
        invariant DeleteEach(old(entries), failing, sorted) == DeleteEach(entries, failing, sorted[i..])
      {
        assert sorted[i..][1..] == sorted[i + 1..];
        var ignored := DeleteIfExistsAt(sorted[i]);
      }
      return true;
    }
  }
}
