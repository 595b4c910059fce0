# WallpaperExtractor core in Dafny

WallpaperExtractor watches the Steam client's workshop log and moves
Wallpaper Engine (AppID 431960) workshop downloads out of Steam's content
folder. This project models the path from the log to the copied files:

- **Log analysis.** `LogAnalyzer.analyzeLog` turns the log's lines into one
  record per workshop id. Only lines tagged `[AppID 431960]` count, and each
  must carry a bracketed `yyyy-MM-dd HH:mm:ss` timestamp that is not below
  the start time. A removal line drops its id, a subscribe or unsubscribe
  line sets its record, and the last such line for an id decides it.
- **Records and list items.** `WorkshopData` is a mutable record whose
  `equals`/`hashCode` cover id, time and flag. `WorkshopListItem` wraps a
  record and adds a copy status, a message and display texts.
- **The item registry.** `WorkshopDataService` keeps a list and an id map of
  list items. It reconciles them against each parsed snapshot, and it counts
  and resets copy statuses.
- **The log watcher.** `FileWatcher` is a state machine. Each cycle checks
  the log's modification time, re-parses the log when the time moved, and
  notifies its listener only when the parsed list differs from its cache.
- **The copy service.** `CopyService` validates a copy request and runs one
  task at a time. The task goes through the list and moves each item not yet
  copied: it copies the item's folder, or its first video file, to the
  target, and then deletes the source.
- **File helpers.** `FileUtils` holds `copyVideoFiles`, `copyDirectory` and
  `deleteDirectory`, over a file system modelled as a map from paths to
  nodes.

Modules follow the source classes:

| Module | File | Models |
|---|---|---|
| `Wrappers` | `wrappers.dfy` | Option, Result and Outcome, plus the exceptions the core throws |
| `JavaText` | `java_text.dfy` | the `String` operations used: `compareTo`, `trim`, `contains`, `endsWith`, `toLowerCase` |
| `WorkshopRecords` | `workshop_data.dfy` | `WorkshopData` |
| `LogAnalyzer` | `log_analyzer.dfy` | `LogAnalyzer` |
| `ListItems` | `workshop_list_item.dfy` | `WorkshopListItem` |
| `DataService` | `data_service.dfy` | `WorkshopDataService` |
| `Watching` | `file_watcher.dfy` | `FileWatcher` |
| `FileUtils` | `file_utils.dfy` | `FileUtils` |
| `Copying` | `copy_service.dfy` | `CopyService` |

Each imperative operation is a method proved against a pure specification
function, and the properties are lemmas about that function:

- `AnalyzeLog` is specified by the fold `Analyze`.
- The registry's methods keep a ghost `Contents : seq<ItemState>`. It is tied
  to the list and the map by `Valid`, and each method's new `Contents` is
  given by `Reconcile`, `ResetAll` or `CountNonSuccess`.
- The copy loop is specified by `Run`, which folds `Step` over the items.
- The file helpers are specified by `CopyVideo`, `CopyTree` and `DeleteTree`.

Inputs stand in for I/O:

- The watcher receives the modification time and the log's lines.
- The file helpers receive the order in which the file system lists and
  walks a directory (`Listings`).
- A cancellation is the index of the first `isCancelled()` check that sees it.

Exception messages are kept as resource-bundle keys, as in
`IllegalArgument("status.no.workshop.items")`.

A cancelled copy task calls no completion callback. The callback is
called only from the JavaFX task's `succeeded` and `failed` hooks, and
JavaFX runs neither of them for a cancelled task. So `RunCopyTask` reports
nothing when `cancelAt` is set.

## Model

All source paths are relative to the repository root.

| member | source | states |
|---|---|---|
| JavaText.Less | src/main/java/cn/sun45_/wallpaperextractor/monitor/LogAnalyzer.java:112 | `a.compareTo(b) < 0`: the first differing character decides, and a proper prefix comes first; its properties are the four lemmas below |
| JavaText.LessIrreflexive | src/main/java/cn/sun45_/wallpaperextractor/monitor/LogAnalyzer.java:112 | `compareTo` is never negative for equal strings, so a timestamp equal to the start time is kept |
| JavaText.LessAsymmetric | src/main/java/cn/sun45_/wallpaperextractor/monitor/LogAnalyzer.java:112 | the string order is asymmetric |
| JavaText.LessTransitive | src/main/java/cn/sun45_/wallpaperextractor/monitor/LogAnalyzer.java:112 | the string order is transitive |
| JavaText.LessTotal | src/main/java/cn/sun45_/wallpaperextractor/monitor/LogAnalyzer.java:112 | any two distinct strings are ordered one way or the other |
| JavaText.PrefixIsLess | src/main/java/cn/sun45_/wallpaperextractor/utils/FileUtils.java:151 | a proper prefix comes first in `compareTo` order |
| JavaText.Leading | src/main/java/cn/sun45_/wallpaperextractor/monitor/FileWatcher.java:111 | counts the leading characters up to the space that `trim` removes, and stops at the first other character |
| JavaText.Trailing | src/main/java/cn/sun45_/wallpaperextractor/monitor/FileWatcher.java:111 | counts the trailing characters that `trim` removes, and stops at the last other character |
| JavaText.Trim | src/main/java/cn/sun45_/wallpaperextractor/monitor/FileWatcher.java:111-119 | `trim` gives a substring of its input; it is empty exactly when the input is blank, and otherwise removes exactly the leading and trailing characters up to the space, so it starts and ends with a character above it |
| JavaText.IndexOfFrom | src/main/java/cn/sun45_/wallpaperextractor/monitor/LogAnalyzer.java:99 | finds the first occurrence at or after `from`, or -1 exactly when there is none |
| JavaText.Contains | src/main/java/cn/sun45_/wallpaperextractor/monitor/LogAnalyzer.java:99 | `contains` holds exactly when the pattern occurs at some index |
| JavaText.ToLower | src/main/java/cn/sun45_/wallpaperextractor/utils/FileUtils.java:57 | `toLowerCase` keeps the length and maps each character on its own |
| JavaText.ToUpper | src/main/java/cn/sun45_/wallpaperextractor/utils/FileUtils.java:150-151 | `toUpperCase`, which `WindowsPath.compareTo` applies to differing characters, keeps the length and maps each character on its own |
| WorkshopRecords.WrapInt32 | src/main/java/cn/sun45_/wallpaperextractor/monitor/WorkshopData.java:114-116 | Java `int` overflow: the result is a 32-bit value congruent to the input modulo 2^32 |
| WorkshopRecords.StringHash | src/main/java/cn/sun45_/wallpaperextractor/monitor/WorkshopData.java:114-116 | `String.hashCode` is a 32-bit `int` |
| WorkshopRecords.Hash | src/main/java/cn/sun45_/wallpaperextractor/monitor/WorkshopData.java:114-116 | `Objects.hash` of the three fields is a 32-bit `int` |
| WorkshopRecords.WorkshopData.constructor | src/main/java/cn/sun45_/wallpaperextractor/monitor/LogAnalyzer.java:160-163 | a new record, with its fields set, holds exactly the given id, time and flag |
| WorkshopRecords.WorkshopData.SetId | src/main/java/cn/sun45_/wallpaperextractor/monitor/WorkshopData.java:51-53 | changes the id and nothing else; `getId` then returns it |
| WorkshopRecords.WorkshopData.SetTime | src/main/java/cn/sun45_/wallpaperextractor/monitor/WorkshopData.java:69-71 | changes the time and nothing else; `getTime` then returns it |
| WorkshopRecords.WorkshopData.SetSubscribed | src/main/java/cn/sun45_/wallpaperextractor/monitor/WorkshopData.java:87-89 | changes the flag and nothing else; `isSubscribed` then returns it |
| WorkshopRecords.WorkshopData.Equals | src/main/java/cn/sun45_/wallpaperextractor/monitor/WorkshopData.java:100-104 | false for null and for other classes; otherwise true exactly when id, time and flag all agree |
| WorkshopRecords.WorkshopData.HashCode | src/main/java/cn/sun45_/wallpaperextractor/monitor/WorkshopData.java:114-116 | the hash is a 32-bit `int` built from the three fields |
| WorkshopRecords.IdsOf | src/main/java/cn/sun45_/wallpaperextractor/monitor/LogAnalyzer.java:170 | every record's id is among the ids of a list |
| WorkshopRecords.EqualsImpliesSameHash | src/main/java/cn/sun45_/wallpaperextractor/monitor/WorkshopData.java:100-116 | equal records have equal hash codes |
| WorkshopRecords.EqualsSymmetric | src/main/java/cn/sun45_/wallpaperextractor/monitor/WorkshopData.java:100-104 | `equals` is symmetric |
| LogAnalyzer.FindTimestamp | src/main/java/cn/sun45_/wallpaperextractor/monitor/LogAnalyzer.java:104-109 | `find()` fails exactly when no bracketed `yyyy-MM-dd HH:mm:ss` timestamp occurs at or after `from`; otherwise group 1 is the timestamp inside the leftmost such match |
| LogAnalyzer.DigitRun | src/main/java/cn/sun45_/wallpaperextractor/monitor/LogAnalyzer.java:121-123 | the greedy `\d+`: every character of the run is a digit, and the run stops at a non-digit or the end |
| LogAnalyzer.FindId | src/main/java/cn/sun45_/wallpaperextractor/monitor/LogAnalyzer.java:121-147 | a phrase pattern fails exactly when the phrase is nowhere followed by a digit; otherwise group 1 is the whole digit run after the phrase at its leftmost such occurrence |
| LogAnalyzer.TimestampAt | src/main/java/cn/sun45_/wallpaperextractor/monitor/LogAnalyzer.java:104-109 | `TIME_PATTERN` matches at an index: `[`, nineteen characters of the shape `yyyy-MM-dd HH:mm:ss`, then `]` |
| LogAnalyzer.IdAt | src/main/java/cn/sun45_/wallpaperextractor/monitor/LogAnalyzer.java:121-147 | a phrase pattern matches at an index: the phrase followed by at least one digit |
| LogAnalyzer.PassesFilter | src/main/java/cn/sun45_/wallpaperextractor/monitor/LogAnalyzer.java:95-114 | a null or empty start time keeps every line; otherwise a timestamp is kept unless it is below the start time |
| LogAnalyzer.Classify | src/main/java/cn/sun45_/wallpaperextractor/monitor/LogAnalyzer.java:98-148 | what one line does: skipped without the marker, a timestamp or the filter; otherwise the unused removal, the unknown removal, the subscribe phrase and the unsubscribe phrase, tried in that order; `ClassifyFacts` states its properties |
| LogAnalyzer.ClassifyFacts | src/main/java/cn/sun45_/wallpaperextractor/monitor/LogAnalyzer.java:99-148 | a line without the marker or without a timestamp does nothing; every action needs a timestamp that passes the filter; an upsert carries the line's timestamp and is subscribed iff the subscribe phrase matched; a removal phrase always wins |
| LogAnalyzer.Step | src/main/java/cn/sun45_/wallpaperextractor/monitor/LogAnalyzer.java:120-166 | one pass of the loop on the map: a removal drops the id, a subscription line updates or creates the id's record with the line's time and flag |
| LogAnalyzer.Analyze | src/main/java/cn/sun45_/wallpaperextractor/monitor/LogAnalyzer.java:92-167 | the map after the loop over all the lines in order; `LastLineWins`, `SkippedLineIsInvisible` and `AnalyzeSnoc` state its properties |
| LogAnalyzer.Analysis | src/main/java/cn/sun45_/wallpaperextractor/monitor/LogAnalyzer.java:86-89 | a null log gives the empty map, otherwise `Analyze` |
| LogAnalyzer.AnalyzeKeysAreIds | src/main/java/cn/sun45_/wallpaperextractor/monitor/LogAnalyzer.java:152-165 | every record in the map is stored under its own id |
| LogAnalyzer.LastMention | src/main/java/cn/sun45_/wallpaperextractor/monitor/LogAnalyzer.java:121-166 | finds the last line whose action concerns the id; no later line concerns it |
| LogAnalyzer.LastLineWins | src/main/java/cn/sun45_/wallpaperextractor/monitor/LogAnalyzer.java:121-166 | an id is in the result iff its last qualifying line is a subscribe or unsubscribe line, and its record is that line's, whatever earlier timestamps say |
| LogAnalyzer.RemovalLast | src/main/java/cn/sun45_/wallpaperextractor/monitor/LogAnalyzer.java:121-134 | an id whose last mentioning line is an unused or unknown removal is absent, whatever came before |
| LogAnalyzer.SkippedLineIsInvisible | src/main/java/cn/sun45_/wallpaperextractor/monitor/LogAnalyzer.java:99-114 | inserting a skipped line anywhere in the log leaves the result unchanged |
| LogAnalyzer.AnalyzeSnoc | src/main/java/cn/sun45_/wallpaperextractor/monitor/LogAnalyzer.java:97-167 | one more line applies one more loop step to the map |
| LogAnalyzer.FilterIsInclusive | src/main/java/cn/sun45_/wallpaperextractor/monitor/LogAnalyzer.java:112-114 | a timestamp equal to the start time passes the filter |
| LogAnalyzer.FilterDropsEarlier | src/main/java/cn/sun45_/wallpaperextractor/monitor/LogAnalyzer.java:112-114 | a timestamp lexically below a non-empty start time is dropped |
| LogAnalyzer.AnalyzeLog | src/main/java/cn/sun45_/wallpaperextractor/monitor/LogAnalyzer.java:86-171 | the result lists each record of the fold `Analysis` once, one per id; a null or empty log gives an empty list |
| LogAnalyzer.ListValues | src/main/java/cn/sun45_/wallpaperextractor/monitor/LogAnalyzer.java:170 | `values()` lists each map entry exactly once, with no id twice |
| ListItems.FirstArgument | src/main/java/cn/sun45_/wallpaperextractor/model/WorkshopListItem.java:168-170 | the stored message is the first variable argument, or the empty string when there is none or the array is null |
| ListItems.StatusText | src/main/java/cn/sun45_/wallpaperextractor/model/WorkshopListItem.java:180-185 | the text is the display name alone iff the message is null or empty, and otherwise the display name followed by ": " and the message |
| ListItems.SubscribeTextsDistinguish | src/main/java/cn/sun45_/wallpaperextractor/model/WorkshopListItem.java:134-145 | the subscribe text and the style class each tell subscribed and unsubscribed apart |
| ListItems.WorkshopListItem.constructor | src/main/java/cn/sun45_/wallpaperextractor/model/WorkshopListItem.java:22-41 | a new item wraps the given record, with status `NOT_COPIED` and an empty message |
| ListItems.WorkshopListItem.SubscribeStatus | src/main/java/cn/sun45_/wallpaperextractor/model/WorkshopListItem.java:134-136 | the subscribe text depends only on the wrapped record's flag |
| ListItems.WorkshopListItem.SubscribeStyleClass | src/main/java/cn/sun45_/wallpaperextractor/model/WorkshopListItem.java:143-145 | the style class depends only on the wrapped record's flag |
| ListItems.WorkshopListItem.CopyStatusText | src/main/java/cn/sun45_/wallpaperextractor/model/WorkshopListItem.java:180-185 | the item's status text is `StatusText` of its status and message |
| ListItems.WorkshopListItem.SetCopyStatus | src/main/java/cn/sun45_/wallpaperextractor/model/WorkshopListItem.java:162-171 | a null status throws `IllegalArgumentException` and changes nothing; otherwise it sets the status and stores the first argument or "" |
| ListItems.EditShowsThrough | src/main/java/cn/sun45_/wallpaperextractor/model/WorkshopListItem.java:98-126 | id, time and flag are read through the wrapped record: after its time and flag are set in place, the item shows the new values and keeps its id, status and message |
| DataService.Find | src/main/java/cn/sun45_/wallpaperextractor/service/WorkshopDataService.java:83 | finds the position of an id among the item ids, or -1 exactly when it is absent |
| DataService.Latest | src/main/java/cn/sun45_/wallpaperextractor/service/WorkshopDataService.java:79-96 | the last record of the snapshot with the id exists iff the id is in the snapshot, and it carries that id |
| DataService.KeepIds | src/main/java/cn/sun45_/wallpaperextractor/service/WorkshopDataService.java:121-140 | the kept ids are exactly the ids present in both the list and the keep set |
| DataService.CountNonSuccess | src/main/java/cn/sun45_/wallpaperextractor/service/WorkshopDataService.java:162-175 | the count is at most the list size, and 0 iff every item is `SUCCESS` |
| DataService.Upsert | src/main/java/cn/sun45_/wallpaperextractor/service/WorkshopDataService.java:79-95 | one pass of the update loop: a tracked id takes the snapshot's time and flag and keeps its copy status and message; a new id is wrapped at the end of the list |
| DataService.UpsertAll | src/main/java/cn/sun45_/wallpaperextractor/service/WorkshopDataService.java:79-96 | the update loop over the whole snapshot in order; `UpsertAllTracks`, `UpsertAllRecords` and `UpsertAllKeepsPrefix` state its properties |
| DataService.UpsertExisting | src/main/java/cn/sun45_/wallpaperextractor/service/WorkshopDataService.java:83-89 | for a tracked id, only the item's record changes, and it becomes the snapshot's record |
| DataService.UpsertStep | src/main/java/cn/sun45_/wallpaperextractor/service/WorkshopDataService.java:79-96 | one loop pass keeps `UpsertedFrom`: ids stay unique, old items keep id, status and message, new items are `NOT_COPIED`, and every record is the latest in the snapshot |
| DataService.UpsertAllFrom | src/main/java/cn/sun45_/wallpaperextractor/service/WorkshopDataService.java:79-96 | the whole update loop establishes `UpsertedFrom` |
| DataService.UpsertAllTracks | src/main/java/cn/sun45_/wallpaperextractor/service/WorkshopDataService.java:79-96 | after the update loop, ids are unique and every snapshot id is tracked |
| DataService.UpsertAllRecords | src/main/java/cn/sun45_/wallpaperextractor/service/WorkshopDataService.java:79-96 | every item whose id is in the snapshot holds the snapshot's last record for that id |
| DataService.UpsertAllKeepsPrefix | src/main/java/cn/sun45_/wallpaperextractor/service/WorkshopDataService.java:79-96 | existing items keep their position, id, status and message; appended items are `NOT_COPIED` with an empty message |
| DataService.Retain | src/main/java/cn/sun45_/wallpaperextractor/service/WorkshopDataService.java:121-140 | `removeObsoleteItems`: the items whose id is current, in list order; `RetainIds`, `RetainElements` and `RetainUnique` state its properties |
| DataService.RetainIds | src/main/java/cn/sun45_/wallpaperextractor/service/WorkshopDataService.java:121-140 | removing obsolete items leaves the kept ids in their old order |
| DataService.RetainElements | src/main/java/cn/sun45_/wallpaperextractor/service/WorkshopDataService.java:121-140 | an item survives iff it was in the list and its id is current |
| DataService.RetainUnique | src/main/java/cn/sun45_/wallpaperextractor/service/WorkshopDataService.java:121-140 | removal keeps ids unique |
| DataService.KeepIdsAppend | src/main/java/cn/sun45_/wallpaperextractor/service/WorkshopDataService.java:121-140 | filtering ids distributes over concatenation |
| DataService.Reconcile | src/main/java/cn/sun45_/wallpaperextractor/service/WorkshopDataService.java:70-99 | `updateWorkshopItems`: a null or empty snapshot clears the registry, otherwise the update loop and then the removal of ids not in the snapshot; the `Reconcile…` lemmas state its properties |
| DataService.ReconcileTracksSnapshot | src/main/java/cn/sun45_/wallpaperextractor/service/WorkshopDataService.java:70-105 | after `updateWorkshopItems`, the tracked ids are exactly the snapshot's ids, each once |
| DataService.ReconcileRecords | src/main/java/cn/sun45_/wallpaperextractor/service/WorkshopDataService.java:70-105 | every item holds the snapshot's last record for its id |
| DataService.ReconcileKeepsOne | src/main/java/cn/sun45_/wallpaperextractor/service/WorkshopDataService.java:83-99 | a tracked item still in the snapshot keeps its copy status and message and takes the new record |
| DataService.ReconcileKeepsStatus | src/main/java/cn/sun45_/wallpaperextractor/service/WorkshopDataService.java:83-99 | every tracked item still in the snapshot keeps its copy status and message |
| DataService.ReconcileWrapsOne | src/main/java/cn/sun45_/wallpaperextractor/service/WorkshopDataService.java:90-99 | a snapshot id not tracked before becomes a `NOT_COPIED` item with an empty message |
| DataService.ReconcileWrapsNew | src/main/java/cn/sun45_/wallpaperextractor/service/WorkshopDataService.java:90-99 | every new snapshot id becomes a `NOT_COPIED` item with an empty message |
| DataService.ReconcileKeepsOrder | src/main/java/cn/sun45_/wallpaperextractor/service/WorkshopDataService.java:77-140 | surviving items keep their relative order, ahead of the new ones |
| DataService.IdsExtend | src/main/java/cn/sun45_/wallpaperextractor/service/WorkshopDataService.java:91-95 | appending keeps the ids of the existing prefix |
| DataService.KeepIdsPrefix | src/main/java/cn/sun45_/wallpaperextractor/service/WorkshopDataService.java:121-140 | the filtered ids of a prefix are a prefix of the filtered ids of the whole |
| DataService.ResetAll | src/main/java/cn/sun45_/wallpaperextractor/service/WorkshopDataService.java:180-188 | `resetNonSuccessCopyStatus`: every item not at `SUCCESS` goes back to `NOT_COPIED`; `ResetAllFacts` and `ResetKeepsCount` state its properties |
| DataService.ResetAllFacts | src/main/java/cn/sun45_/wallpaperextractor/service/WorkshopDataService.java:180-188 | reset keeps ids and records, leaves `SUCCESS` items untouched, turns all others into `NOT_COPIED`, and is idempotent |
| DataService.ResetKeepsCount | src/main/java/cn/sun45_/wallpaperextractor/service/WorkshopDataService.java:162-188 | reset does not change the number of items left to copy |
| DataService.Without | src/main/java/cn/sun45_/wallpaperextractor/service/WorkshopDataService.java:134 | `removeAll` only drops items |
| DataService.WithoutShowsRetain | src/main/java/cn/sun45_/wallpaperextractor/service/WorkshopDataService.java:123-134 | removing the collected items from the list leaves the items that `Retain` keeps |
| DataService.WithoutNothing | src/main/java/cn/sun45_/wallpaperextractor/service/WorkshopDataService.java:132 | removing no items leaves the list as it is |
| DataService.RemovalMapKeys | src/main/java/cn/sun45_/wallpaperextractor/service/WorkshopDataService.java:135-137 | after removal, every key left in the map is a kept id |
| DataService.RemovalMapValues | src/main/java/cn/sun45_/wallpaperextractor/service/WorkshopDataService.java:133-138 | after removal, the map still sends each kept id to its list item |
| DataService.RemovalKeepsRegistry | src/main/java/cn/sun45_/wallpaperextractor/service/WorkshopDataService.java:121-140 | after removal, the list and the map still describe the same items, one per id |
| DataService.WorkshopDataService.constructor | src/main/java/cn/sun45_/wallpaperextractor/service/WorkshopDataService.java:33-36 | a new registry is empty and has no listener |
| DataService.WorkshopDataService.SetOnDataChangedListener | src/main/java/cn/sun45_/wallpaperextractor/service/WorkshopDataService.java:43-45 | sets or clears the listener and changes no item |
| DataService.WorkshopDataService.UpsertOne | src/main/java/cn/sun45_/wallpaperextractor/service/WorkshopDataService.java:79-96 | one loop pass turns the contents into `Upsert` of them, and the registry stays valid |
| DataService.WorkshopDataService.UpdateTracked | src/main/java/cn/sun45_/wallpaperextractor/service/WorkshopDataService.java:83-89 | a tracked item's record is edited in place, which is `Upsert` of the contents |
| DataService.WorkshopDataService.AddNew | src/main/java/cn/sun45_/wallpaperextractor/service/WorkshopDataService.java:91-95 | a new item goes into the map and at the end of the list, which is `Upsert` of the contents |
| DataService.WorkshopDataService.UpdateWorkshopItems | src/main/java/cn/sun45_/wallpaperextractor/service/WorkshopDataService.java:70-105 | the contents become `Reconcile` of the old contents; the listener hears the snapshot's size, or 0 for a null or empty snapshot |
| DataService.WorkshopDataService.UpsertEach | src/main/java/cn/sun45_/wallpaperextractor/service/WorkshopDataService.java:77-96 | the update loop gives `UpsertAll` of the contents and collects exactly the snapshot's ids |
| DataService.WorkshopDataService.NotifyListener | src/main/java/cn/sun45_/wallpaperextractor/service/WorkshopDataService.java:101-104 | the listener, if set, hears the count once |
| DataService.WorkshopDataService.RemoveObsoleteItems | src/main/java/cn/sun45_/wallpaperextractor/service/WorkshopDataService.java:121-140 | the contents become `Retain` of the old contents, and the list and map stay in step |
| DataService.WorkshopDataService.Install | src/main/java/cn/sun45_/wallpaperextractor/service/WorkshopDataService.java:133-138 | installs a list and map that describe the given contents |
| DataService.WorkshopDataService.RemoveEach | src/main/java/cn/sun45_/wallpaperextractor/service/WorkshopDataService.java:135-137 | the map loses exactly the removed items' ids and keeps every other entry |
| DataService.WorkshopDataService.ObsoleteItems | src/main/java/cn/sun45_/wallpaperextractor/service/WorkshopDataService.java:123-129 | collects exactly the list items whose id is not current, with their ids |
| DataService.WorkshopDataService.ClearWorkshopItems | src/main/java/cn/sun45_/wallpaperextractor/service/WorkshopDataService.java:145-155 | the list and map become empty, and the listener, if set, hears 0 |
| DataService.WorkshopDataService.CalculateActualCopyCount | src/main/java/cn/sun45_/wallpaperextractor/service/WorkshopDataService.java:162-175 | the result is the number of items not at `SUCCESS` |
| DataService.WorkshopDataService.ResetNonSuccessCopyStatus | src/main/java/cn/sun45_/wallpaperextractor/service/WorkshopDataService.java:180-188 | the contents become `ResetAll` of the old contents |
| DataService.WorkshopDataService.SetItemStatus | src/main/java/cn/sun45_/wallpaperextractor/service/WorkshopDataService.java:184 | `setCopyStatus` on one item changes only that item's status and message |
| DataService.WorkshopDataService.GetTotalCount | src/main/java/cn/sun45_/wallpaperextractor/service/WorkshopDataService.java:205-207 | returns the list length |
| DataService.WorkshopDataService.GetWorkshopItemById | src/main/java/cn/sun45_/wallpaperextractor/service/WorkshopDataService.java:196-198 | returns null iff the id is not tracked, and otherwise the item that shows it |
| DataService.WorkshopDataService.SetCopyStatusAt | src/main/java/cn/sun45_/wallpaperextractor/service/CopyService.java:326-335 | a status update changes only the item at that index |
| Watching.Initial | src/main/java/cn/sun45_/wallpaperextractor/monitor/FileWatcher.java:92-100 | a new watcher is stopped, with no path, no cache, time 0 and the given filter |
| Watching.Stop | src/main/java/cn/sun45_/wallpaperextractor/monitor/FileWatcher.java:246-261 | `stopWatching` does nothing when stopped; otherwise it clears `running` and the cache and keeps the time |
| Watching.Start | src/main/java/cn/sun45_/wallpaperextractor/monitor/FileWatcher.java:110-124 | `startWatching` stops any previous run, stores the trimmed path and runs; the time and the filter are kept |
| Watching.Refilter | src/main/java/cn/sun45_/wallpaperextractor/monitor/FileWatcher.java:132-140 | `updateStartTime` sets the filter, resets the time to 0 and clears the cache |
| Watching.Detect | src/main/java/cn/sun45_/wallpaperextractor/monitor/FileWatcher.java:150-207 | a cycle that is stopped, has no path, fails to read the time or sees the same time changes nothing; otherwise it records the time and the cache becomes the new list |
| Watching.TransitionsKeepCache | src/main/java/cn/sun45_/wallpaperextractor/monitor/FileWatcher.java:110-261 | every operation keeps the cache equal to the last list sent to the listener |
| Watching.NotifiesIffChanged | src/main/java/cn/sun45_/wallpaperextractor/monitor/FileWatcher.java:180-207 | a cycle notifies iff it re-parses and the new list differs from the cache, and then with the new list |
| Watching.SameTimeIsQuiet | src/main/java/cn/sun45_/wallpaperextractor/monitor/FileWatcher.java:165-173 | a second cycle that reads the same time changes nothing |
| Watching.RefilterReports | src/main/java/cn/sun45_/wallpaperextractor/monitor/FileWatcher.java:132-207 | after `updateStartTime`, the next cycle re-parses and reports a readable log even when its list is unchanged |
| Watching.StopKeepsTime | src/main/java/cn/sun45_/wallpaperextractor/monitor/FileWatcher.java:246-261 | stopping is idempotent and keeps the time and the notification history |
| Watching.ListsDiffer | src/main/java/cn/sun45_/wallpaperextractor/monitor/FileWatcher.java:201-207 | the element-by-element loop reports a change iff two lists of equal size differ |
| Watching.CacheDiffers | src/main/java/cn/sun45_/wallpaperextractor/monitor/FileWatcher.java:185-207 | comparing null-ness, then size, then elements reports a change iff the two lists differ |
| Watching.NewFileWatcher | src/main/java/cn/sun45_/wallpaperextractor/monitor/FileWatcher.java:92-94 | construction fails with a `NullPointerException` iff the listener is null |
| Watching.FileWatcher.constructor | src/main/java/cn/sun45_/wallpaperextractor/monitor/FileWatcher.java:92-100 | the fields start as in `Initial` |
| Watching.FileWatcher.StartWatching | src/main/java/cn/sun45_/wallpaperextractor/monitor/FileWatcher.java:110-124 | a null or blank path throws `IllegalArgumentException` and changes nothing; otherwise the state becomes `Start` |
| Watching.FileWatcher.UpdateStartTime | src/main/java/cn/sun45_/wallpaperextractor/monitor/FileWatcher.java:132-140 | a null time throws `IllegalArgumentException` and changes nothing; otherwise the state becomes `Refilter` |
| Watching.FileWatcher.DetectFile | src/main/java/cn/sun45_/wallpaperextractor/monitor/FileWatcher.java:150-208 | the state becomes `Detect` of the old state; an unreadable log parses to null, and a readable one to the records of `Analysis` |
| Watching.FileWatcher.StopWatching | src/main/java/cn/sun45_/wallpaperextractor/monitor/FileWatcher.java:246-261 | the state becomes `Stop` of the old state |
| FileUtils.CreateDirectories | src/main/java/cn/sun45_/wallpaperextractor/utils/FileUtils.java:51 | `createDirectories` passes iff no ancestor is a file and nothing fails; it then leaves the path a directory, and on failure changes nothing |
| FileUtils.CopyFile | src/main/java/cn/sun45_/wallpaperextractor/utils/FileUtils.java:60 | `copy` with `REPLACE_EXISTING` puts the source's content at the target and changes nothing else |
| FileUtils.DeleteIfExists | src/main/java/cn/sun45_/wallpaperextractor/utils/FileUtils.java:154 | `deleteIfExists` passes iff the path is not a non-empty directory and does not fail; it then removes only that path |
| FileUtils.FirstVideo | src/main/java/cn/sun45_/wallpaperextractor/utils/FileUtils.java:53-65 | picks the first listed entry that is not a directory and has a video extension, or -1 when none has |
| FileUtils.IsVideoName | src/main/java/cn/sun45_/wallpaperextractor/utils/FileUtils.java:57-58 | a lower-cased file name ends with one of the video extensions |
| FileUtils.Qualifies | src/main/java/cn/sun45_/wallpaperextractor/utils/FileUtils.java:56-58 | a listed entry that is not a directory and has a video name |
| FileUtils.Dest | src/main/java/cn/sun45_/wallpaperextractor/utils/FileUtils.java:101-102 | the destination is the target root followed by the entry's path relative to the source |
| FileUtils.CopyEntry | src/main/java/cn/sun45_/wallpaperextractor/utils/FileUtils.java:97-110 | one walk step: the source itself is skipped, a directory is created at its destination, anything else is copied there |
| FileUtils.CopyWalk | src/main/java/cn/sun45_/wallpaperextractor/utils/FileUtils.java:96-117 | the walk in order, the first failure ending it; `CopyWalkPlaces`, `CopyWalkKeeps` and `CopyWalkKeepsSource` state its properties |
| FileUtils.ApartBelow | src/main/java/cn/sun45_/wallpaperextractor/utils/FileUtils.java:93-110 | no destination lies at or below the source when source and target are apart |
| FileUtils.ApartPrefix | src/main/java/cn/sun45_/wallpaperextractor/utils/FileUtils.java:93-110 | no ancestor of a destination lies at or below the source |
| FileUtils.CopyEntryKeepsSource | src/main/java/cn/sun45_/wallpaperextractor/utils/FileUtils.java:97-110 | one walk step leaves everything at or below the source as it was |
| FileUtils.CopyWalkKeeps | src/main/java/cn/sun45_/wallpaperextractor/utils/FileUtils.java:96-117 | a destination written earlier in a passed walk keeps its content to the end |
| FileUtils.BlockedByPrefix | src/main/java/cn/sun45_/wallpaperextractor/utils/FileUtils.java:94 | a file at the path or at an ancestor blocks `createDirectories` |
| FileUtils.CopyWalkPlaces | src/main/java/cn/sun45_/wallpaperextractor/utils/FileUtils.java:96-117 | after a passed walk, each walked entry's content is at its destination |
| FileUtils.DeleteEach | src/main/java/cn/sun45_/wallpaperextractor/utils/FileUtils.java:150-158 | every path of the sorted walk deleted in turn, a failed deletion logged and skipped; `DeleteEachEmpties` states its property |
| FileUtils.Text | src/main/java/cn/sun45_/wallpaperextractor/utils/FileUtils.java:151 | the text `Path.toString` gives a Windows path, names joined by `\` |
| FileUtils.PathLess | src/main/java/cn/sun45_/wallpaperextractor/utils/FileUtils.java:151 | `a.compareTo(b) < 0` for Windows paths: the texts compared character by character with letter case ignored, a proper prefix first |
| FileUtils.TextPrefix | src/main/java/cn/sun45_/wallpaperextractor/utils/FileUtils.java:150-151 | the text of a directory, followed by a separator, begins the text of every path below it |
| FileUtils.PathPrefixIsLess | src/main/java/cn/sun45_/wallpaperextractor/utils/FileUtils.java:150-151 | in `Path.compareTo` order (texts compared with case ignored), a directory comes before every path below it |
| FileUtils.ReverseSorted | src/main/java/cn/sun45_/wallpaperextractor/utils/FileUtils.java:150-151 | the stream after `sorted(Comparator.reverseOrder())`: no path is below a later one in path order |
| FileUtils.ReverseSortedChildrenFirst | src/main/java/cn/sun45_/wallpaperextractor/utils/FileUtils.java:150-151 | a walk sorted by `Comparator.reverseOrder()` lists every path after all paths below it |
| FileUtils.DeleteEachEmpties | src/main/java/cn/sun45_/wallpaperextractor/utils/FileUtils.java:150-158 | deleting children first, with no failing entry, leaves nothing at or below the directory and keeps everything else |
| FileUtils.CopyVideo | src/main/java/cn/sun45_/wallpaperextractor/utils/FileUtils.java:42-71 | a missing source throws; a source that cannot be listed throws after the target was made; a pass means the source was listed, the target was made and the first video was copied under it with its own name |
| FileUtils.CopyTree | src/main/java/cn/sun45_/wallpaperextractor/utils/FileUtils.java:83-117 | a missing source throws, and the root has no name; a source that cannot be walked throws after `target/<source name>` was made; a pass means the source was walked and leaves `target/<source name>` a directory |
| FileUtils.DeleteTree | src/main/java/cn/sun45_/wallpaperextractor/utils/FileUtils.java:136-164 | returns true iff the path is a directory that can be walked; on false, nothing changes |
| FileUtils.WithDirsKeepsSource | src/main/java/cn/sun45_/wallpaperextractor/utils/FileUtils.java:51 | creating the target's directories touches nothing at or below a source apart from it |
| FileUtils.CopyWalkKeepsTarget | src/main/java/cn/sun45_/wallpaperextractor/utils/FileUtils.java:93-117 | a passed walk leaves the target root a directory |
| FileUtils.CopyWalkKeepsSource | src/main/java/cn/sun45_/wallpaperextractor/utils/FileUtils.java:96-117 | a walk, passed or failed, leaves the source tree as it was |
| FileUtils.ApartBelowName | src/main/java/cn/sun45_/wallpaperextractor/utils/FileUtils.java:93 | `target/<name>` stays apart from a source that the target is apart from |
| FileUtils.CopyTreeKeepsSource | src/main/java/cn/sun45_/wallpaperextractor/utils/FileUtils.java:83-117 | `copyDirectory`, passed or failed, leaves the source tree as it was |
| FileUtils.CopyVideoKeepsSource | src/main/java/cn/sun45_/wallpaperextractor/utils/FileUtils.java:42-71 | `copyVideoFiles`, passed or failed, leaves the source tree as it was |
| FileUtils.CopyTreePlaces | src/main/java/cn/sun45_/wallpaperextractor/utils/FileUtils.java:93-110 | after a passed `copyDirectory`, each walked entry's content is at `target/<source name>/<relative path>` |
| FileUtils.DeleteTreeEmpties | src/main/java/cn/sun45_/wallpaperextractor/utils/FileUtils.java:136-164 | `deleteDirectory` with a sorted walk that lists children before parents and has no failing entry returns true, removes the whole tree and keeps everything else |
| FileUtils.FileSystem.CreateDirectoriesAt | src/main/java/cn/sun45_/wallpaperextractor/utils/FileUtils.java:51 | the disk changes as `CreateDirectories` says |
| FileUtils.FileSystem.CopyFileAt | src/main/java/cn/sun45_/wallpaperextractor/utils/FileUtils.java:60 | the disk changes as `CopyFile` says |
| FileUtils.FileSystem.DeleteIfExistsAt | src/main/java/cn/sun45_/wallpaperextractor/utils/FileUtils.java:154 | the disk changes as `DeleteIfExists` says |
| FileUtils.FileSystem.CopyVideoFiles | src/main/java/cn/sun45_/wallpaperextractor/utils/FileUtils.java:42-71 | null paths throw `IOException` and change nothing; otherwise the directory check, the creation of the target, the opening of the directory stream and the listing loop with its `copied` flag and `break` do what `CopyVideo` says |
| FileUtils.FileSystem.CopyDirectory | src/main/java/cn/sun45_/wallpaperextractor/utils/FileUtils.java:83-117 | null paths throw `IOException` and change nothing; otherwise the directory check, the creation of `target/<source name>`, the opening of the walk and the walk loop, which stops at the first error, do what `CopyTree` says |
| FileUtils.FileSystem.DeleteDirectory | src/main/java/cn/sun45_/wallpaperextractor/utils/FileUtils.java:136-164 | a null path gives false and changes nothing; otherwise the deletion loop, which skips failed deletions, does what `DeleteTree` says |
| Copying.SourceDir | src/main/java/cn/sun45_/wallpaperextractor/service/CopyService.java:303-304 | the source is `steamPath/steamapps/workshop/content/431960/<id>`, whose name is the id |
| Copying.TargetDir | src/main/java/cn/sun45_/wallpaperextractor/service/CopyService.java:164 | the target directory is named by the copy path |
| Copying.CopyItemEffect | src/main/java/cn/sun45_/wallpaperextractor/service/CopyService.java:302-314 | `copyItem`: the copy by the configured mode, then `deleteDirectory` of the source only when the copy passed, its result ignored |
| Copying.FailedCopyKeepsSource | src/main/java/cn/sun45_/wallpaperextractor/service/CopyService.java:302-314 | an item whose copy failed keeps its source directory untouched: no deletion without a passed copy |
| Copying.ReverseSortedIsRemovable | src/main/java/cn/sun45_/wallpaperextractor/utils/FileUtils.java:150-151 | the walk as `deleteDirectory` sorts it meets the ordering that `PassedCopyDeletesSource`, `DirectoryModeMoves` and `VideoModeMoves` ask of it |
| Copying.PassedCopyDeletesSource | src/main/java/cn/sun45_/wallpaperextractor/service/CopyService.java:312-313 | after a passed copy, the deletion removes the source tree and keeps the rest |
| Copying.DirectoryModeMoves | src/main/java/cn/sun45_/wallpaperextractor/service/CopyService.java:302-313 | in directory mode, a passed item leaves nothing at its source, and every walked entry's content is under `target/<id>` |
| Copying.VideoModeMoves | src/main/java/cn/sun45_/wallpaperextractor/service/CopyService.java:302-313 | in video mode, a passed item leaves nothing at its source, and the first video's content is under the target by its name |
| Copying.Mover | src/main/java/cn/sun45_/wallpaperextractor/service/CopyService.java:302-314 | the per-item copy oracle does what `copyItem` does |
| Copying.Step | src/main/java/cn/sun45_/wallpaperextractor/service/CopyService.java:246-263 | one pass of the loop body: an item at `SUCCESS` is skipped; otherwise it is copied and ends at `SUCCESS` with a success counted, or at `FAILED` with the message and a failure counted |
| Copying.Run | src/main/java/cn/sun45_/wallpaperextractor/service/CopyService.java:239-264 | the loop over the first k items keeps the list length |
| Copying.RunShape | src/main/java/cn/sun45_/wallpaperextractor/service/CopyService.java:239-264 | the loop never changes records, leaves unvisited and `SUCCESS` items alone, and ends each visited item at `SUCCESS` or `FAILED` |
| Copying.ChainExtend | src/main/java/cn/sun45_/wallpaperextractor/service/CopyService.java:239-264 | a trace of loop states grows by one pass of the loop body |
| Copying.ChainIsRun | src/main/java/cn/sun45_/wallpaperextractor/service/CopyService.java:239-264 | the last state of such a trace is the loop run over as many items |
| Copying.StepCopies | src/main/java/cn/sun45_/wallpaperextractor/service/CopyService.java:252-263 | one pass on an item not yet copied sets `SUCCESS` and counts a success, or sets `FAILED` with the message and counts a failure |
| Copying.StepCounts | src/main/java/cn/sun45_/wallpaperextractor/service/CopyService.java:246-263 | one pass changes only item i, and counts it once iff it was not at `SUCCESS`, as a failure iff it ends not at `SUCCESS` |
| Copying.RunCounts | src/main/java/cn/sun45_/wallpaperextractor/service/CopyService.java:231-263 | `successCount + failedCount` is the number of visited items that were not at `SUCCESS` |
| Copying.RunLeavesFailures | src/main/java/cn/sun45_/wallpaperextractor/service/CopyService.java:246-263 | among the visited items, those not at `SUCCESS` are exactly the failures counted |
| Copying.WholeRun | src/main/java/cn/sun45_/wallpaperextractor/service/CopyService.java:231-264 | over a whole list, the counters add up to the items that were left to copy, the failures are what is left to copy, and the ids keep their order |
| Copying.Visited | src/main/java/cn/sun45_/wallpaperextractor/service/CopyService.java:239-242 | the loop visits every item, or stops at the first check that sees a cancellation |
| Copying.CopyService.constructor | src/main/java/cn/sun45_/wallpaperextractor/service/CopyService.java:64-66 | a new service has no running task and has made no callback |
| Copying.CopyService.ValidateCopyConditions | src/main/java/cn/sun45_/wallpaperextractor/service/CopyService.java:150-167 | rejects, in this order, a null or empty Steam path, an empty list and a null or blank copy path, changing nothing; otherwise it creates the target and returns the configuration, or passes on the creation error |
| Copying.CopyService.StartCopy | src/main/java/cn/sun45_/wallpaperextractor/service/CopyService.java:176-189 | throws `IllegalStateException` and keeps the running task while one runs; otherwise it starts a task with the given configuration |
| Copying.CopyService.IsCopyRunning | src/main/java/cn/sun45_/wallpaperextractor/service/CopyService.java:205-207 | reports whether a task is running |
| Copying.CopyService.CopyItem | src/main/java/cn/sun45_/wallpaperextractor/service/CopyService.java:302-314 | the disk changes as `CopyItemEffect` says: the copy by mode, then deletion of the source only after a passed copy |
| Copying.CopyService.CopyOne | src/main/java/cn/sun45_/wallpaperextractor/service/CopyService.java:251-263 | an item not yet copied shows `COPYING`, is copied, and ends as one pass of the loop body says |
| Copying.CopyService.RecordOutcome | src/main/java/cn/sun45_/wallpaperextractor/service/CopyService.java:256-263 | the item becomes `SUCCESS` with "" or `FAILED` with the exception's message, and nothing else changes |
| Copying.CopyService.Visit | src/main/java/cn/sun45_/wallpaperextractor/service/CopyService.java:244-263 | the list, the disk and the counters change as `Step` says, for any copier that does what `copyItem` does |
| Copying.CopyService.CopyAll | src/main/java/cn/sun45_/wallpaperextractor/service/CopyService.java:235-267 | the list, the disk and the counters end as `Run` over the visited items of the list as it was at the start |
| Copying.CopyService.RunCopyTask | src/main/java/cn/sun45_/wallpaperextractor/service/CopyService.java:235-274 | the task runs the loop, stops running, and calls the callback once with the two counters, unless it was cancelled or the callback is null |
| Copying.CopyService.TaskFailed | src/main/java/cn/sun45_/wallpaperextractor/service/CopyService.java:276-281 | a failed task calls the callback with 0 and the list size, if the callback is set |

## Left out

- Concurrency is not modelled:
  - the watcher's scheduler, `synchronized` and `volatile`;
  - the copy task's thread;
  - every `Platform.runLater`.
  Each operation is one sequential step, and deferred list and status updates are applied at once.
- `cancelCopy` is not an operation of the model. A cancellation enters `RunCopyTask` and `CopyService.CopyAll` as `cancelAt`: the index of the first loop check that sees it. An item being copied is always finished first.
- The JavaFX `Task` life cycle is left out, beyond `succeeded` (the end of `RunCopyTask`) and `failed` (`TaskFailed`).
- When `call` throws outside its per-item `catch` is not modelled. That needs the concurrency left out above, such as the list shrinking while the task runs. `TaskFailed` states only what `failed` then does.
- The file system, clock and log file enter as inputs:
  - the watcher receives the modification time and the log's lines, with `None` for a failed read;
  - the file helpers work on a map from paths to nodes;
  - `failing` names the paths at which opening a directory stream or a walk, copying, creating or deleting fails, while `Files.exists` and `Files.isDirectory` still answer for them;
  - directory streams, walks and sorted walks are given in `Listings`.
- An error while traversing a walk or a directory stream (`UncheckedIOException` thrown by the stream itself) is not modelled. Opening a directory stream or a walk fails exactly when the directory is in `failing`: in `deleteDirectory` nothing is deleted, and in the two copy helpers the call throws after the target directories were created.
- `Paths.get(steamPath, …)` joins names with the platform's separator; the model keeps a path as its list of names, and writes its text with the Windows separator `\` only where paths are compared.
- FileUtils.PathLess: follows `WindowsPath.compareTo` (case ignored), since the program runs against a Windows Steam installation; the case-sensitive order of Unix paths is not modelled. The letters it folds are the ASCII ones (see `JavaText.ToUpper`).
- `AppConfig.getSteamPath()` is read again in `copyItem`. The model passes the Steam path that `validateCopyConditions` checked.
- `ResourceManager` message lookup is not modelled: messages are their bundle keys.
- The Java regular-expression engine is replaced by a matcher written for the fixed patterns: a bracketed fixed-width timestamp, and a phrase followed by a digit run.
- `HashMap` iteration order is not modelled: `AnalyzeLog` returns the map's records in an order it does not promise, as the source does.
- Null records, and records with a null id or time, are not modelled. The parser and the registry never create them.
- DataService.WorkshopDataService.AddNew: the new list item wraps a fresh `WorkshopData` that holds the snapshot record's values, where the source wraps the snapshot's own object. That object is edited again only by a later reconcile (WorkshopDataService.java:85-88), after the watcher's cache has moved on to that later snapshot.
- JavaText.ToLower: maps only ASCII letters, because the file names it is applied to are compared against ASCII extensions.
- JavaText.ToUpper: maps only ASCII letters, so two paths whose names differ only in the case of a non-ASCII letter are ordered here where `WindowsPath.compareTo` treats them as equal.
- JavaText.Less: compares Unicode scalar values, where `String.compareTo` compares UTF-16 code units; the two orders differ only between a supplementary character and one in U+E000 to U+FFFF, which the timestamps and workshop paths it is applied to do not contain.
- WorkshopRecords.StringHash: folds Unicode scalar values, where `String.hashCode` folds UTF-16 code units; the two differ only for strings holding a supplementary character, which ids and timestamps do not contain.
- Copying.TargetDir: the typed copy path is taken as a single name, because path parsing of `Paths.get` is not modelled.
- Copying.Message: a failed item's message is the exception's key: a bundle key, or the exception class for errors raised by the JDK's file operations.
- The presentation layer, the tray, animations, `AppConfig` storage, `Constants` and the helpers that open folders or web pages are not part of this model.
