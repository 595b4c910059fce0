/**
 * The log-file watcher: a small state machine that, once a second, looks at
 * the log file's modification time, re-parses the file when it changed, and
 * tells its listener about the parsed list only when it differs from the
 * list it last reported.
 *
 * The scheduler, the clock and the file system are inputs: a detect cycle
 * receives the modification time (`None` when reading it failed) and the
 * file's lines (`None` when the file is missing or unreadable).
 */
module Watching {
  import opened Wrappers
  import opened JavaText
  import opened WorkshopRecords
  import LogAnalyzer

  /** The watcher's fields; `delivered` lists every value passed to the listener, in order. */
  datatype Watch = Watch(
    running: bool,
    startTime: Option<string>,
    steamPath: Option<string>,
    lastModifiedTime: int,
    cache: Option<seq<Record>>,
    delivered: seq<Option<seq<Record>>>)

  /** A watcher as the constructor leaves it. */
  function Initial(startTime: Option<string>): (w: Watch)
    ensures !w.running && w.steamPath.None? && w.cache.None? && w.delivered == []
    ensures w.startTime == startTime && w.lastModifiedTime == 0
  {
    Watch(false, startTime, None, 0, None, [])
  }

  /** `stopWatching`: a no-op unless running; otherwise stops and forgets the cache. */
  function Stop(w: Watch): (w': Watch)
    ensures !w'.running
    ensures !w.running ==> w' == w
    ensures w.running ==> w' == w.(running := false, cache := None)
  {
    if !w.running then w else w.(running := false, cache := None)
  }

  /** `startWatching` with a path that is not blank once trimmed. */
  function Start(w: Watch, path: string): (w': Watch)
    requires !IsBlank(path)
    ensures w'.running && w'.steamPath == Some(Trim(path)) && Trim(path) != []
    ensures w'.lastModifiedTime == w.lastModifiedTime && w'.startTime == w.startTime
    ensures w'.delivered == w.delivered
    ensures w'.cache == (if w.running then None else w.cache)
  {
    Stop(w).(steamPath := Some(Trim(path)), running := true)
  }

  /** `updateStartTime` with a non-null time: new filter, and the next cycle must re-parse. */
  function Refilter(w: Watch, newTime: string): (w': Watch)
    ensures w'.startTime == Some(newTime) && w'.lastModifiedTime == 0 && w'.cache.None?
    ensures w'.running == w.running && w'.steamPath == w.steamPath && w'.delivered == w.delivered
  {
    w.(startTime := Some(newTime), lastModifiedTime := 0, cache := None)
  }

  /** Whether a detect cycle reading `mtime` gets past the fast path and re-parses the file. */
  predicate Reparses(w: Watch, mtime: Option<int>)
  {
    w.running && w.steamPath.Some? && mtime.Some? && mtime.value != w.lastModifiedTime
  }

  /**
   * `detectFile`, given the modification time read and the list the
   * analyzer produced (`None` for an unreadable file): on a new time it
   * records the time, and it notifies and replaces the cache iff the new
   * list differs from the cache.
   */
  function Detect(w: Watch, mtime: Option<int>, models: Option<seq<Record>>): (w': Watch)
    ensures !Reparses(w, mtime) ==> w' == w
    ensures Reparses(w, mtime) ==> w'.lastModifiedTime == mtime.value && w'.cache == models
    ensures w'.running == w.running && w'.steamPath == w.steamPath && w'.startTime == w.startTime
  {
    if !Reparses(w, mtime) then w
    else if models != w.cache then
      w.(lastModifiedTime := mtime.value, cache := models, delivered := w.delivered + [models])
    else
      w.(lastModifiedTime := mtime.value)
  }

  /*** Properties of the state machine ***/

  /** The cache always holds the value the listener was told last, if any. */
  predicate CacheIsLastDelivered(w: Watch)
  {
    w.cache.Some? ==> w.delivered != [] && w.delivered[|w.delivered| - 1] == w.cache
  }

  /** Every transition keeps the cache equal to the last notification. */
  lemma TransitionsKeepCache(w: Watch, path: string, newTime: string, mtime: Option<int>, models: Option<seq<Record>>)
    requires CacheIsLastDelivered(w)
    ensures CacheIsLastDelivered(Stop(w))
    ensures !IsBlank(path) ==> CacheIsLastDelivered(Start(w, path))
    ensures CacheIsLastDelivered(Refilter(w, newTime))
    ensures CacheIsLastDelivered(Detect(w, mtime, models))
  {
  }

  /**
   * A cycle that re-parses notifies exactly when the parse differs from the
   * cache, and then with the parse; otherwise the listener hears nothing.
   */
  lemma NotifiesIffChanged(w: Watch, mtime: Option<int>, models: Option<seq<Record>>)
    ensures var w' := Detect(w, mtime, models);
      w'.delivered == w.delivered + (if Reparses(w, mtime) && models != w.cache then [models] else [])
  {
  }

  /** A second cycle that reads the same modification time changes nothing. */
  lemma SameTimeIsQuiet(w: Watch, m: int, models: Option<seq<Record>>, again: Option<seq<Record>>)
    ensures var w' := Detect(w, Some(m), models);
      Detect(w', Some(m), again) == w'
  {
  }

  /**
   * After `updateStartTime`, a running watcher re-parses on the next cycle
   * whose time is not 0, and a readable file is reported even when its
   * list equals the one reported before.
   */
  lemma RefilterReports(w: Watch, newTime: string, m: int, models: seq<Record>)
    requires w.running && w.steamPath.Some? && m != 0
    ensures var w' := Refilter(w, newTime);
      Reparses(w', Some(m)) && Detect(w', Some(m), Some(models)).delivered == w.delivered + [Some(models)]
  {
  }

  /** Stopping keeps the modification time, so a restart on an unchanged file re-parses only if the time moved. */
  lemma StopKeepsTime(w: Watch)
    ensures Stop(Stop(w)) == Stop(w)
    ensures Stop(w).lastModifiedTime == w.lastModifiedTime && Stop(w).delivered == w.delivered
  {
  }

  /*** The comparison of `detectFile` ***/

  /** The element-by-element comparison loop: `changed` iff some position holds unequal records. */
  method ListsDiffer(a: seq<Record>, b: seq<Record>) returns (changed: bool)
    requires |a| == |b|
    ensures changed <==> a != b
  {
    for i := 0 to |a|
      invariant a[..i] == b[..i]
    {
      if a[i] != b[i] {
        return true;
      }
      assert a[..i + 1] == a[..i] + [a[i]];
      assert b[..i + 1] == b[..i] + [b[i]];
    }
    assert a == a[..|a|] && b == b[..|b|];
    return false;
  }

  /** The comparison of the cached and the new list: null-ness, then size, then element by element. */
  method CacheDiffers(oldModels: Option<seq<Record>>, newModels: Option<seq<Record>>) returns (changed: bool)
    ensures changed <==> oldModels != newModels
  {
    if oldModels.None? || newModels.None? {
      return oldModels != newModels;
    }
    if |oldModels.value| != |newModels.value| {
      return true;
    }
    changed := ListsDiffer(oldModels.value, newModels.value);
  }

  /** `FileWatcher`: the state `Watch` held in fields that the methods update. */
  class FileWatcher {
    var running: bool
    var startTime: Option<string>
    var steamPath: Option<string>
    var lastModifiedTime: int
    var cache: Option<seq<Record>>
    var delivered: seq<Option<seq<Record>>>

    function State(): Watch
      reads this
    {
      Watch(running, startTime, steamPath, lastModifiedTime, cache, delivered)
    }

    constructor (startTime: Option<string>)
      ensures State() == Initial(startTime)
    {
      running := false;
      this.startTime := startTime;
      steamPath := None;
      lastModifiedTime := 0;
      cache := None;
      delivered := [];
    }

    /** `startWatching`: a null or blank path is rejected and nothing changes. */
    method StartWatching(path: Option<string>) returns (r: Outcome<Exception>)
      modifies this
      ensures path.None? || IsBlank(path.value) ==>
        r == Fail(IllegalArgument("error.steam.path.null.or.empty")) && State() == old(State())
      ensures path.Some? && !IsBlank(path.value) ==> r == Pass && State() == Start(old(State()), path.value)
    {
      if path.None? || Trim(path.value) == [] {
        return Fail(IllegalArgument("error.steam.path.null.or.empty"));
      }
      StopWatching();
      steamPath := Some(Trim(path.value));
      running := true;
      r := Pass;
    }

    /** `updateStartTime`: a null time is rejected and nothing changes. */
    method UpdateStartTime(newTime: Option<string>) returns (r: Outcome<Exception>)
      modifies this
      ensures newTime.None? ==> r == Fail(IllegalArgument("error.start.time.null")) && State() == old(State())
      ensures newTime.Some? ==> r == Pass && State() == Refilter(old(State()), newTime.value)
    {
      if newTime.None? {
        return Fail(IllegalArgument("error.start.time.null"));
      }
      startTime := newTime;
      lastModifiedTime := 0;
      cache := None;
      r := Pass;
    }

    /**
     * `detectFile`: `mtime` is the modification time read (`None` when the
     * read failed) and `content` the file's lines (`None` when missing or
     * unreadable). `models` is what the analyzer produced, when the cycle
     * got that far.
     */
    method DetectFile(mtime: Option<int>, content: Option<seq<string>>) returns (models: Option<seq<Record>>)
      modifies this
      ensures State() == Detect(old(State()), mtime, models)
      ensures Reparses(old(State()), mtime) ==> (models.None? <==> content.None?)
      ensures models.Some? ==> LogAnalyzer.Lists(models.value, LogAnalyzer.Analysis(content, startTime))
    {
      models := None;
      if !running || steamPath.None? || mtime.None? || mtime.value == lastModifiedTime {
        return;
      }
      lastModifiedTime := mtime.value;
      if content.Some? {
        var parsed := LogAnalyzer.AnalyzeLog(content, startTime);
        models := Some(parsed);
      }
      var changed := CacheDiffers(cache, models);
      if changed {
        cache := models;
        delivered := delivered + [models];
      }
    }

    /** `stopWatching`. */
    method StopWatching()
      modifies this
      ensures State() == Stop(old(State()))
    {
      if !running {
        return;
      }
      running := false;
      cache := None;
    }
  }

  /** The constructor's null check on the listener: `listenerPresent` is false for a null listener. */
  method NewFileWatcher(listenerPresent: bool, startTime: Option<string>) returns (r: Result<FileWatcher, Exception>)
    ensures !listenerPresent <==> r.Failure?
    ensures r.Failure? ==> r.error == NullPointer("error.file.change.listener.null")
    ensures r.Success? ==> fresh(r.value) && r.value.State() == Initial(startTime)
  {
    if !listenerPresent {
      return Failure(NullPointer("error.file.change.listener.null"));
    }
    var w := new FileWatcher(startTime);
    r := Success(w);
  }
}
