/**
 * Parsing the Steam workshop log: every line tagged for Wallpaper Engine
 * (AppID 431960) that carries a bracketed timestamp at or after the start
 * time either removes an id or sets its record, and the last such line for an
 * id decides what the result holds for it.
 */
module LogAnalyzer {
  import opened Wrappers
  import opened JavaText
  import opened WorkshopRecords

  const AppMarker: string := "[AppID 431960]"
  const UnusedPhrase: string := "Detected workshop change : removing unused item "
  const UnknownPhrase: string := "Detected workshop change : removing unknown item "
  const SubscribePhrase: string := "Detected workshop change : added subscribed item "
  const UnsubscribePhrase: string := "Detected workshop change : removing unsubscribed item "

  /** Character `k` of the `yyyy-MM-dd HH:mm:ss` shape: `\d{4}-\d{2}-\d{2} \d{2}:\d{2}:\d{2}`. */
  predicate FitsFormatAt(k: nat, c: char)
  {
    if k == 4 || k == 7 then c == '-'
    else if k == 10 then c == ' '
    else if k == 13 || k == 16 then c == ':'
    else IsDigit(c)
  }

  predicate IsTimestamp(t: string)
  {
    |t| == 19 && forall k | 0 <= k < 19 :: FitsFormatAt(k, t[k])
  }

  /** The regular expression `\[(timestamp)\]` matches at index `i`. */
  predicate TimestampAt(line: string, i: nat)
  {
    i + 21 <= |line| && line[i] == '[' && IsTimestamp(line[i + 1..i + 20]) && line[i + 20] == ']'
  }

  /**
   * `TIME_PATTERN.matcher(line).find()` from index `from`, and its group 1:
   * no match when the pattern matches nowhere, otherwise the timestamp
   * between the brackets of the leftmost match.
   */
  function FindTimestamp(line: string, from: nat): (r: Option<string>)
    requires from <= |line|
    ensures r.None? ==> forall i | from <= i <= |line| :: !TimestampAt(line, i)
    ensures r.Some? ==> IsTimestamp(r.value)
    ensures r.Some? ==> exists i | from <= i <= |line| ::
      && TimestampAt(line, i)
      && (forall k | from <= k < i :: !TimestampAt(line, k))
      && r.value == line[i + 1..i + 20]
    decreases |line| - from
  {
    if TimestampAt(line, from) then Some(line[from + 1..from + 20])
    else if from == |line| then None
    else FindTimestamp(line, from + 1)
  }

  /** The number of digits in `s` starting at index `j` (the greedy `\d+`). */
  function DigitRun(s: string, j: nat): (n: nat)
    requires j <= |s|
    ensures j + n <= |s|
    ensures forall k | j <= k < j + n :: IsDigit(s[k])
    ensures j + n == |s| || !IsDigit(s[j + n])
    decreases |s| - j
  {
    if j < |s| && IsDigit(s[j]) then 1 + DigitRun(s, j + 1) else 0
  }

  /** `phrase` followed by at least one digit occurs at index `i`. */
  predicate IdAt(line: string, phrase: string, i: nat)
  {
    OccursAt(line, phrase, i) && i + |phrase| < |line| && IsDigit(line[i + |phrase|])
  }

  /**
   * `Pattern.compile(phrase + "(\\d+)").matcher(line).find()` from `from`, and
   * its group 1: no match when the phrase is nowhere followed by a digit,
   * otherwise every digit that follows the phrase at its leftmost such
   * occurrence.
   */
  function FindId(line: string, phrase: string, from: nat): (r: Option<string>)
    requires from <= |line|
    ensures r.None? ==> forall i | from <= i <= |line| :: !IdAt(line, phrase, i)
    ensures r.Some? ==> r.value != [] && forall k | 0 <= k < |r.value| :: IsDigit(r.value[k])
    ensures r.Some? ==> exists i | from <= i <= |line| ::
      && IdAt(line, phrase, i)
      && (forall k | from <= k < i :: !IdAt(line, phrase, k))
      && r.value == line[i + |phrase|..i + |phrase| + DigitRun(line, i + |phrase|)]
    decreases |line| - from
  {
    if IdAt(line, phrase, from) then
      var j := from + |phrase|;
      Some(line[j..j + DigitRun(line, j)])
    else if from == |line| then None
    else FindId(line, phrase, from + 1)
  }

  /** A null or empty start time switches the time filter off. */
  predicate Filtering(startTime: Option<string>)
  {
    startTime.Some? && startTime.value != ""
  }

  /** The time filter keeps a line whose timestamp is not lexically below the start time. */
  predicate PassesFilter(t: string, startTime: Option<string>)
  {
    !Filtering(startTime) || !Less(t, startTime.value)
  }

  /** What one line does to the working map. */
  datatype Action = Skip | Remove(id: string) | Upsert(rec: Record)

  /** The id an action concerns, if any. */
  predicate Mentions(a: Action, id: string)
  {
    match a
    case Skip => false
    case Remove(x) => x == id
    case Upsert(r) => r.id == id
  }

  /**
   * The effect of one line: no marker, no timestamp or a timestamp below the
   * filter skips it; the unused and unknown removals are tested before the
   * subscribe phrase, and the subscribe phrase before the unsubscribe phrase.
   */
  function Classify(line: string, startTime: Option<string>): Action
  {
    if !Contains(line, AppMarker) then Skip
    else
      match FindTimestamp(line, 0)
      case None => Skip
      case Some(t) =>
        if Filtering(startTime) && Less(t, startTime.value) then Skip
        else if FindId(line, UnusedPhrase, 0).Some? then Remove(FindId(line, UnusedPhrase, 0).value)
        else if FindId(line, UnknownPhrase, 0).Some? then Remove(FindId(line, UnknownPhrase, 0).value)
        else if FindId(line, SubscribePhrase, 0).Some? then Upsert(Record(FindId(line, SubscribePhrase, 0).value, t, true))
        else if FindId(line, UnsubscribePhrase, 0).Some? then Upsert(Record(FindId(line, UnsubscribePhrase, 0).value, t, false))
        else Skip
  }

  /**
   * What decides a line's action: the marker, the timestamp and the filter
   * gate every action; a removal phrase wins over both subscription phrases,
   * and the subscribe phrase over the unsubscribe phrase.
   */
  lemma ClassifyFacts(line: string, startTime: Option<string>)
    ensures var a := Classify(line, startTime);
      && (!Contains(line, AppMarker) ==> a == Skip)
      && (FindTimestamp(line, 0).None? ==> a == Skip)
      && (a != Skip ==> FindTimestamp(line, 0).Some? && PassesFilter(FindTimestamp(line, 0).value, startTime))
      && (a.Upsert? ==> a.rec.time == FindTimestamp(line, 0).value && IsTimestamp(a.rec.time))
      && (a.Upsert? ==> (a.rec.subscribed <==> FindId(line, SubscribePhrase, 0).Some?))
      && (a != Skip && (FindId(line, UnusedPhrase, 0).Some? || FindId(line, UnknownPhrase, 0).Some?) ==> a.Remove?)
  {
  }

  /** One iteration of the parse loop over the working map. */
  function Step(m: map<string, Record>, line: string, startTime: Option<string>): map<string, Record>
  {
    match Classify(line, startTime)
    case Skip => m
    case Remove(id) => m - {id}
    case Upsert(r) => m[r.id := r]
  }

  /** The working map after the whole log, as a fold over the lines in order. */
  function Analyze(lines: seq<string>, startTime: Option<string>): map<string, Record>
  {
    if lines == [] then map[]
    else Step(Analyze(lines[..|lines| - 1], startTime), lines[|lines| - 1], startTime)
  }

  /** `analyzeLog`'s map: a null log is treated like an empty one. */
  function Analysis(logContent: Option<seq<string>>, startTime: Option<string>): map<string, Record>
  {
    if logContent.None? then map[] else Analyze(logContent.value, startTime)
  }

  /** Every record is stored under its own id. */
  lemma {:induction false} AnalyzeKeysAreIds(lines: seq<string>, startTime: Option<string>)
    ensures forall id | id in Analyze(lines, startTime) :: Analyze(lines, startTime)[id].id == id
  {
    if lines != [] {
      AnalyzeKeysAreIds(lines[..|lines| - 1], startTime);
    }
  }

  /** The index of the last line whose action concerns `id`, or -1. */
  function LastMention(lines: seq<string>, startTime: Option<string>, id: string): (k: int)
    ensures -1 <= k < |lines|
    ensures k >= 0 ==> Mentions(Classify(lines[k], startTime), id)
    ensures forall j | k < j < |lines| :: !Mentions(Classify(lines[j], startTime), id)
  {
    if lines == [] then -1
    else if Mentions(Classify(lines[|lines| - 1], startTime), id) then |lines| - 1
    else
      var init := lines[..|lines| - 1];
      assert forall j | 0 <= j < |init| :: init[j] == lines[j];
      LastMention(init, startTime, id)
  }

  /**
   * Last qualifying line wins: an id is in the result exactly when the last
   * line that concerns it is a subscribe or unsubscribe line, and its record
   * is the one that line describes, whatever the timestamps of earlier lines.
   */
  lemma {:induction false} LastLineWins(lines: seq<string>, startTime: Option<string>, id: string)
    ensures var k := LastMention(lines, startTime, id);
      && (id in Analyze(lines, startTime) <==> k >= 0 && Classify(lines[k], startTime).Upsert?)
      && (id in Analyze(lines, startTime) ==> Analyze(lines, startTime)[id] == Classify(lines[k], startTime).rec)
  {
    if lines != [] {
      var init := lines[..|lines| - 1];
      LastLineWins(init, startTime, id);
      if !Mentions(Classify(lines[|lines| - 1], startTime), id) {
        assert LastMention(lines, startTime, id) == LastMention(init, startTime, id);
        var k := LastMention(init, startTime, id);
        if k >= 0 {
          assert lines[k] == init[k];
        }
      }
    }
  }

  /** An id whose last mention is an unused or unknown removal is absent, even if it was subscribed earlier. */
  lemma RemovalLast(lines: seq<string>, startTime: Option<string>, id: string)
    requires var k := LastMention(lines, startTime, id); k >= 0 && Classify(lines[k], startTime).Remove?
    ensures id !in Analyze(lines, startTime)
  {
    LastLineWins(lines, startTime, id);
  }

  /** A skipped line (no marker, no timestamp, filtered out or no phrase) never affects the result. */
  lemma {:induction false} SkippedLineIsInvisible(before: seq<string>, line: string, after: seq<string>, startTime: Option<string>)
    requires Classify(line, startTime) == Skip
    ensures Analyze(before + [line] + after, startTime) == Analyze(before + after, startTime)
  {
    if after == [] {
      var xs := before + [line];
      assert xs[..|xs| - 1] == before;
      assert before + [line] + after == xs;
      assert before + after == before;
    } else {
      var last := after[|after| - 1];
      var rest := after[..|after| - 1];
      SkippedLineIsInvisible(before, line, rest, startTime);
      var xs := before + [line] + rest;
      var ys := before + rest;
      AnalyzeSnoc(xs, last, startTime);
      AnalyzeSnoc(ys, last, startTime);
      assert before + [line] + after == xs + [last];
      assert before + after == ys + [last];
    }
  }

  /** Appending a line applies one more step of the fold. */
  lemma AnalyzeSnoc(lines: seq<string>, line: string, startTime: Option<string>)
    ensures Analyze(lines + [line], startTime) == Step(Analyze(lines, startTime), line, startTime)
  {
    assert (lines + [line])[..|lines|] == lines;
  }

  /** A line is kept by the filter when its timestamp equals the start time: the lower bound is inclusive. */
  lemma FilterIsInclusive(t: string)
    ensures PassesFilter(t, Some(t))
  {
    LessIrreflexive(t);
  }

  /** A line whose timestamp is lexically below a non-empty start time is dropped. */
  lemma FilterDropsEarlier(t: string, startTime: string)
    requires Less(t, startTime)
    ensures !PassesFilter(t, Some(startTime))
  {
  }

  /** `s` lists the values of `m` once each, in some order. */
  predicate Lists(s: seq<Record>, m: map<string, Record>)
  {
    && (forall i | 0 <= i < |s| :: s[i].id in m && m[s[i].id] == s[i])
    && (forall i, j | 0 <= i < j < |s| :: s[i].id != s[j].id)
    && m.Keys == IdsOf(s)
  }

  /**
   * `LogAnalyzer.analyzeLog`: the records of `Analysis`, one per id, in the
   * unspecified order of a hash map's values.
   */
  method AnalyzeLog(logContent: Option<seq<string>>, startTime: Option<string>) returns (models: seq<Record>)
    ensures Lists(models, Analysis(logContent, startTime))
    ensures logContent.None? || logContent.value == [] ==> models == []
  {
    if logContent.None? || |logContent.value| == 0 {
      return [];
    }
    var lines := logContent.value;
    var modelMap: map<string, Record> := map[];
    var shouldFilterByTime := startTime.Some? && startTime.value != "";
    for n := 0 to |lines|
      invariant modelMap == Analyze(lines[..n], startTime)
    {
      assert lines[..n + 1][..n] == lines[..n];
      var line := lines[n];
      assert Analyze(lines[..n + 1], startTime) == Step(modelMap, line, startTime);
      if !Contains(line, AppMarker) {
        continue;
      }
      var timeMatch := FindTimestamp(line, 0);
      if timeMatch.None? {
        continue;
      }
      var logTime := timeMatch.value;
      if shouldFilterByTime && Less(logTime, startTime.value) {
        continue;
      }
      var unused := FindId(line, UnusedPhrase, 0);
      if unused.Some? {
        assert Classify(line, startTime) == Remove(unused.value);
        modelMap := modelMap - {unused.value};
        continue;
      }
      var unknown := FindId(line, UnknownPhrase, 0);
      if unknown.Some? {
        assert Classify(line, startTime) == Remove(unknown.value);
        modelMap := modelMap - {unknown.value};
        continue;
      }
      var itemId: Option<string> := None;
      var subscribeStatus := false;
      var subscribe := FindId(line, SubscribePhrase, 0);
      if subscribe.Some? {
        itemId, subscribeStatus := subscribe, true;
      }
      var unsubscribe := FindId(line, UnsubscribePhrase, 0);
      if itemId.None? && unsubscribe.Some? {
        itemId, subscribeStatus := unsubscribe, false;
      }
      if itemId.Some? {
        assert Classify(line, startTime) == Upsert(Record(itemId.value, logTime, subscribeStatus));
        modelMap := modelMap[itemId.value := Record(itemId.value, logTime, subscribeStatus)];
      } else {
        assert Classify(line, startTime) == Skip;
      }
    }
    assert lines[..|lines|] == lines;
    AnalyzeKeysAreIds(lines, startTime);
    models := ListValues(modelMap);
  }

  /** `new ArrayList<>(map.values())` for a map whose records are stored under their own ids. */
  method ListValues(modelMap: map<string, Record>) returns (models: seq<Record>)
    requires forall id | id in modelMap :: modelMap[id].id == id
    ensures Lists(models, modelMap)
  {
    var rest := modelMap.Keys;
    models := [];
    while rest != {}
      invariant rest <= modelMap.Keys
      invariant modelMap.Keys == rest + IdsOf(models)
      invariant forall i | 0 <= i < |models| :: models[i].id in modelMap && modelMap[models[i].id] == models[i]
      invariant forall i | 0 <= i < |models| :: models[i].id !in rest
      invariant forall i, j | 0 <= i < j < |models| :: models[i].id != models[j].id
      decreases |rest|
    {
      var id :| id in rest;
      var next := models + [modelMap[id]];
      assert next[..|models|] == models;
      assert IdsOf(next) == IdsOf(models) + {id};
      models := next;
      rest := rest - {id};
    }
  }
}
