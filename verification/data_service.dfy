/**
 * The registry of tracked workshop items: a list in display order plus a map
 * from id to list item, reconciled against each parsed snapshot.
 */
module DataService {
  import opened Wrappers
  import opened WorkshopRecords
  import opened ListItems

  /*** The registry's contents as values ***/

  /** The ids of the items, in list order. */
  function Ids(cs: seq<ItemState>): seq<string>
  {
    seq(|cs|, i requires 0 <= i < |cs| => cs[i].rec.id)
  }

  /** No id occurs twice. */
  predicate UniqueIds(cs: seq<ItemState>)
  {
    forall i, j | 0 <= i < j < |cs| :: cs[i].rec.id != cs[j].rec.id
  }

  /** The position of `id` in `ids`, or -1. */
  function Find(ids: seq<string>, id: string): (k: int)
    ensures -1 <= k < |ids|
    ensures 0 <= k ==> ids[k] == id
    ensures k < 0 <==> id !in ids
  {
    if ids == [] then -1
    else if ids[|ids| - 1] == id then |ids| - 1
    else Find(ids[..|ids| - 1], id)
  }

  /** The last record of the snapshot `s` that carries `id`. */
  function Latest(s: seq<Record>, id: string): (r: Option<Record>)
    ensures r.Some? <==> id in IdsOf(s)
    ensures r.Some? ==> r.value.id == id
  {
    if s == [] then None
    else if s[|s| - 1].id == id then Some(s[|s| - 1])
    else Latest(s[..|s| - 1], id)
  }

  /**
   * One pass of the update loop: an id already tracked gets the snapshot's
   * time and subscription flag and keeps its copy status and message; a new
   * id is wrapped as a fresh item at the end of the list.
   */
  function Upsert(cs: seq<ItemState>, r: Record): seq<ItemState>
  {
    var k := Find(Ids(cs), r.id);
    if k < 0 then cs + [Wrapped(r)]
    else cs[k := cs[k].(rec := cs[k].rec.(time := r.time, subscribed := r.subscribed))]
  }

  /** The update loop over the whole snapshot, in snapshot order. */
  function UpsertAll(cs: seq<ItemState>, s: seq<Record>): seq<ItemState>
  {
    if s == [] then cs else Upsert(UpsertAll(cs, s[..|s| - 1]), s[|s| - 1])
  }

  /** `removeObsoleteItems`: the items whose id is in `keep`, in list order. */
  function Retain(cs: seq<ItemState>, keep: set<string>): seq<ItemState>
  {
    if cs == [] then []
    else Retain(cs[..|cs| - 1], keep) + (if cs[|cs| - 1].rec.id in keep then [cs[|cs| - 1]] else [])
  }

  /** The ids of `ids` that are in `keep`, in order. */
  function KeepIds(ids: seq<string>, keep: set<string>): (r: seq<string>)
    ensures forall id :: id in r <==> id in ids && id in keep
  {
    if ids == [] then []
    else KeepIds(ids[..|ids| - 1], keep) + (if ids[|ids| - 1] in keep then [ids[|ids| - 1]] else [])
  }

  /** `updateWorkshopItems`: a null or empty snapshot clears the registry. */
  function Reconcile(cs: seq<ItemState>, snapshot: Option<seq<Record>>): seq<ItemState>
  {
    if snapshot.None? || snapshot.value == [] then []
    else Retain(UpsertAll(cs, snapshot.value), IdsOf(snapshot.value))
  }

  /** The items `calculateActualCopyCount` counts: those not at `Succeeded`. */
  function CountNonSuccess(cs: seq<ItemState>): (n: nat)
    ensures n <= |cs|
    ensures n == 0 <==> forall i | 0 <= i < |cs| :: cs[i].status == Succeeded
  {
    if cs == [] then 0
    else CountNonSuccess(cs[..|cs| - 1]) + (if cs[|cs| - 1].status != Succeeded then 1 else 0)
  }

  /** `resetNonSuccessCopyStatus`: every item not at `Succeeded` goes back to `NotCopied` with an empty message. */
  function ResetAll(cs: seq<ItemState>): seq<ItemState>
  {
    seq(|cs|, i requires 0 <= i < |cs| =>
      if cs[i].status == Succeeded then cs[i] else cs[i].(status := NotCopied, message := Some("")))
  }

  /*** Facts about the update loop ***/

  /** What the update loop has done after reading the snapshot `s` into `cs`, giving `u`. */
  predicate UpsertedFrom(cs: seq<ItemState>, u: seq<ItemState>, s: seq<Record>)
  {
    && |cs| <= |u|
    && UniqueIds(u)
    && (forall i | 0 <= i < |cs| ::
          u[i].rec.id == cs[i].rec.id && u[i].status == cs[i].status && u[i].message == cs[i].message)
    && (forall i | |cs| <= i < |u| ::
          u[i].status == NotCopied && u[i].message == Some("") && u[i].rec.id !in Ids(cs))
    && (forall i | 0 <= i < |u| ::
          if u[i].rec.id in IdsOf(s) then Latest(s, u[i].rec.id) == Some(u[i].rec)
          else i < |cs| && u[i].rec == cs[i].rec)
    && (forall id | id in IdsOf(s) :: id in Ids(u))
  }

  /** An update of a tracked record overwrites exactly its time and flag, which makes it the new record. */
  lemma UpsertExisting(cs: seq<ItemState>, r: Record)
    requires r.id in Ids(cs)
    ensures var k := Find(Ids(cs), r.id);
      Upsert(cs, r) == cs[k := cs[k].(rec := r)]
  {
  }

  lemma UpsertStep(cs: seq<ItemState>, u: seq<ItemState>, s: seq<Record>, r: Record)
    requires UpsertedFrom(cs, u, s)
    ensures UpsertedFrom(cs, Upsert(u, r), s + [r])
  {
    var s' := s + [r];
    assert s'[..|s'| - 1] == s;
    assert IdsOf(s') == IdsOf(s) + {r.id};
    var u' := Upsert(u, r);
    var k := Find(Ids(u), r.id);
    if k < 0 {
      assert u' == u + [Wrapped(r)];
      forall i | 0 <= i < |u|
        ensures u[i].rec.id != r.id
      {
        assert Ids(u)[i] == u[i].rec.id;
      }
      forall i | 0 <= i < |cs|
        ensures cs[i].rec.id != r.id
      {
        assert u[i].rec.id == cs[i].rec.id;
      }
      assert r.id !in Ids(cs);
      assert Ids(u') == Ids(u) + [r.id];
    } else {
      UpsertExisting(u, r);
      assert u' == u[k := u[k].(rec := r)];
      assert Ids(u') == Ids(u);
      forall i | 0 <= i < |u'| && i != k
        ensures u'[i].rec.id != r.id
      {
        assert u[i].rec.id != u[k].rec.id;
      }
    }
  }

  lemma {:induction false} UpsertAllFrom(cs: seq<ItemState>, s: seq<Record>)
    requires UniqueIds(cs)
    ensures UpsertedFrom(cs, UpsertAll(cs, s), s)
  {
    if s == [] {
      assert IdsOf(s) == {};
    } else {
      var p := s[..|s| - 1];
      UpsertAllFrom(cs, p);
      UpsertStep(cs, UpsertAll(cs, p), p, s[|s| - 1]);
      assert p + [s[|s| - 1]] == s;
    }
  }

  lemma UpsertAllTracks(cs: seq<ItemState>, s: seq<Record>)
    requires UniqueIds(cs)
    ensures UniqueIds(UpsertAll(cs, s))
    ensures forall id | id in IdsOf(s) :: id in Ids(UpsertAll(cs, s))
  {
    UpsertAllFrom(cs, s);
  }

  lemma UpsertAllRecords(cs: seq<ItemState>, s: seq<Record>)
    requires UniqueIds(cs)
    ensures forall i | 0 <= i < |UpsertAll(cs, s)| && UpsertAll(cs, s)[i].rec.id in IdsOf(s) ::
      Latest(s, UpsertAll(cs, s)[i].rec.id) == Some(UpsertAll(cs, s)[i].rec)
  {
    UpsertAllFrom(cs, s);
  }

  lemma UpsertAllKeepsPrefix(cs: seq<ItemState>, s: seq<Record>)
    requires UniqueIds(cs)
    ensures |cs| <= |UpsertAll(cs, s)|
    ensures forall i | 0 <= i < |cs| ::
      && UpsertAll(cs, s)[i].rec.id == cs[i].rec.id
      && UpsertAll(cs, s)[i].status == cs[i].status
      && UpsertAll(cs, s)[i].message == cs[i].message
    ensures forall i | |cs| <= i < |UpsertAll(cs, s)| ::
      UpsertAll(cs, s)[i].status == NotCopied && UpsertAll(cs, s)[i].message == Some("")
  {
    UpsertAllFrom(cs, s);
  }

  /*** Facts about the removal of obsolete items ***/

  lemma {:induction false} RetainIds(cs: seq<ItemState>, keep: set<string>)
    ensures Ids(Retain(cs, keep)) == KeepIds(Ids(cs), keep)
  {
    if cs != [] {
      var p := cs[..|cs| - 1];
      RetainIds(p, keep);
      assert Ids(p) == Ids(cs)[..|cs| - 1];
    }
  }

  lemma {:induction false} RetainElements(cs: seq<ItemState>, keep: set<string>)
    ensures forall x | x in Retain(cs, keep) :: x in cs && x.rec.id in keep
    ensures forall i | 0 <= i < |cs| && cs[i].rec.id in keep :: cs[i] in Retain(cs, keep)
  {
    if cs != [] {
      var p := cs[..|cs| - 1];
      RetainElements(p, keep);
      forall i | 0 <= i < |p| && cs[i].rec.id in keep
        ensures cs[i] in Retain(cs, keep)
      {
        assert p[i] == cs[i];
      }
    }
  }

  lemma {:induction false} RetainUnique(cs: seq<ItemState>, keep: set<string>)
    requires UniqueIds(cs)
    ensures UniqueIds(Retain(cs, keep))
  {
    if cs != [] {
      var p := cs[..|cs| - 1];
      assert UniqueIds(p);
      RetainUnique(p, keep);
      RetainElements(p, keep);
      var last := cs[|cs| - 1];
      forall x | x in Retain(p, keep)
        ensures x.rec.id != last.rec.id
      {
        var i :| 0 <= i < |p| && p[i] == x;
      }
    }
  }

  lemma {:induction false} KeepIdsAppend(a: seq<string>, b: seq<string>, keep: set<string>)
    ensures KeepIds(a + b, keep) == KeepIds(a, keep) + KeepIds(b, keep)
  {
    if b != [] {
      var b' := b[..|b| - 1];
      assert (a + b)[..|a + b| - 1] == a + b';
      KeepIdsAppend(a, b', keep);
    } else {
      assert a + b == a;
    }
  }

  /*** The reconcile step as a whole ***/

  /**
   * After a non-empty snapshot the registry tracks exactly the snapshot's
   * ids, each once.
   */
  lemma ReconcileTracksSnapshot(cs: seq<ItemState>, s: seq<Record>)
    requires UniqueIds(cs) && s != []
    ensures UniqueIds(Reconcile(cs, Some(s)))
    ensures forall id :: id in Ids(Reconcile(cs, Some(s))) <==> id in IdsOf(s)
  {
    var keep := IdsOf(s);
    var u := UpsertAll(cs, s);
    var r := Retain(u, keep);
    assert Reconcile(cs, Some(s)) == r;
    UpsertAllTracks(cs, s);
    RetainUnique(u, keep);
    RetainIds(u, keep);
  }

  /** Every item after a reconcile holds the last snapshot record with its id. */
  lemma ReconcileRecords(cs: seq<ItemState>, s: seq<Record>)
    requires UniqueIds(cs) && s != []
    ensures forall x | x in Reconcile(cs, Some(s)) :: Latest(s, x.rec.id) == Some(x.rec)
  {
    var keep := IdsOf(s);
    var u := UpsertAll(cs, s);
    var r := Retain(u, keep);
    assert Reconcile(cs, Some(s)) == r;
    UpsertAllRecords(cs, s);
    RetainElements(u, keep);
    forall x | x in r
      ensures Latest(s, x.rec.id) == Some(x.rec)
    {
      var i :| 0 <= i < |u| && u[i] == x;
    }
  }

  lemma ReconcileKeepsOne(cs: seq<ItemState>, s: seq<Record>, i: nat)
    requires UniqueIds(cs) && s != []
    requires i < |cs| && cs[i].rec.id in IdsOf(s)
    ensures ItemState(Latest(s, cs[i].rec.id).value, cs[i].status, cs[i].message) in Reconcile(cs, Some(s))
  {
    var keep := IdsOf(s);
    var u := UpsertAll(cs, s);
    UpsertAllRecords(cs, s);
    UpsertAllKeepsPrefix(cs, s);
    RetainElements(u, keep);
    var x := u[i];
    assert x.rec.id == cs[i].rec.id;
    assert x in Retain(u, keep);
    assert x == ItemState(Latest(s, cs[i].rec.id).value, cs[i].status, cs[i].message);
  }

  /**
   * A tracked item whose id is still in the snapshot survives with its copy
   * status and message, holding the snapshot's last record for its id.
   */
  lemma ReconcileKeepsStatus(cs: seq<ItemState>, s: seq<Record>)
    requires UniqueIds(cs) && s != []
    ensures forall i | 0 <= i < |cs| && cs[i].rec.id in IdsOf(s) ::
      ItemState(Latest(s, cs[i].rec.id).value, cs[i].status, cs[i].message) in Reconcile(cs, Some(s))
  {
    forall i | 0 <= i < |cs| && cs[i].rec.id in IdsOf(s)
      ensures ItemState(Latest(s, cs[i].rec.id).value, cs[i].status, cs[i].message) in Reconcile(cs, Some(s))
    {
      ReconcileKeepsOne(cs, s, i);
    }
  }

  lemma ReconcileWrapsOne(cs: seq<ItemState>, s: seq<Record>, id: string)
    requires UniqueIds(cs) && s != []
    requires id in IdsOf(s) && id !in Ids(cs)
    ensures Wrapped(Latest(s, id).value) in Reconcile(cs, Some(s))
  {
    var keep := IdsOf(s);
    var u := UpsertAll(cs, s);
    UpsertAllTracks(cs, s);
    UpsertAllRecords(cs, s);
    UpsertAllKeepsPrefix(cs, s);
    RetainElements(u, keep);
    var i := Find(Ids(u), id);
    assert u[i].rec.id == id;
    forall j | 0 <= j < |cs|
      ensures cs[j].rec.id != id
    {
      assert Ids(cs)[j] == cs[j].rec.id;
    }
    assert |cs| <= i;
    assert u[i] in Retain(u, keep);
    assert u[i] == Wrapped(Latest(s, id).value);
  }

  /** A snapshot id not tracked before enters as a fresh item holding the snapshot's last record for it. */
  lemma ReconcileWrapsNew(cs: seq<ItemState>, s: seq<Record>)
    requires UniqueIds(cs) && s != []
    ensures forall id | id in IdsOf(s) && id !in Ids(cs) :: Wrapped(Latest(s, id).value) in Reconcile(cs, Some(s))
  {
    forall id | id in IdsOf(s) && id !in Ids(cs)
      ensures Wrapped(Latest(s, id).value) in Reconcile(cs, Some(s))
    {
      ReconcileWrapsOne(cs, s, id);
    }
  }

  /** The surviving old items come first, in their old relative order; new items follow. */
  lemma ReconcileKeepsOrder(cs: seq<ItemState>, s: seq<Record>)
    requires UniqueIds(cs) && s != []
    ensures KeepIds(Ids(cs), IdsOf(s)) <= Ids(Reconcile(cs, Some(s)))
  {
    var keep := IdsOf(s);
    var u := UpsertAll(cs, s);
    assert Reconcile(cs, Some(s)) == Retain(u, keep);
    UpsertAllKeepsPrefix(cs, s);
    RetainIds(u, keep);
    IdsExtend(cs, u);
    KeepIdsPrefix(Ids(cs), Ids(u)[|cs|..], keep);
  }

  /** A list that starts with the items of `cs` (by id) has the ids of `cs` in front. */
  lemma IdsExtend(cs: seq<ItemState>, u: seq<ItemState>)
    requires |cs| <= |u| && forall i | 0 <= i < |cs| :: u[i].rec.id == cs[i].rec.id
    ensures Ids(u) == Ids(cs) + Ids(u)[|cs|..]
  {
    forall i | 0 <= i < |cs|
      ensures Ids(u)[i] == Ids(cs)[i]
    {
      assert u[i].rec.id == cs[i].rec.id;
    }
  }

  lemma KeepIdsPrefix(a: seq<string>, b: seq<string>, keep: set<string>)
    ensures KeepIds(a, keep) <= KeepIds(a + b, keep)
  {
    KeepIdsAppend(a, b, keep);
  }

  /*** Counting and resetting copy statuses ***/

  /** The reset keeps every item's record and leaves only `Succeeded` and `NotCopied`. */
  lemma ResetAllFacts(cs: seq<ItemState>)
    ensures |ResetAll(cs)| == |cs| && Ids(ResetAll(cs)) == Ids(cs)
    ensures forall i | 0 <= i < |cs| :: ResetAll(cs)[i].rec == cs[i].rec
    ensures forall i | 0 <= i < |cs| :: ResetAll(cs)[i].status in {Succeeded, NotCopied}
    ensures forall i | 0 <= i < |cs| :: cs[i].status == Succeeded ==> ResetAll(cs)[i] == cs[i]
    ensures ResetAll(ResetAll(cs)) == ResetAll(cs)
  {
  }

  /** Resetting does not change how many items a copy would process. */
  lemma {:induction false} ResetKeepsCount(cs: seq<ItemState>)
    ensures CountNonSuccess(ResetAll(cs)) == CountNonSuccess(cs)
  {
    if cs != [] {
      var p := cs[..|cs| - 1];
      ResetKeepsCount(p);
      assert ResetAll(cs)[..|cs| - 1] == ResetAll(p);
    }
  }

  /** Changing anything but the ids keeps the ids and their uniqueness. */
  lemma SameIds(a: seq<ItemState>, b: seq<ItemState>)
    requires |a| == |b| && forall i | 0 <= i < |a| :: a[i].rec.id == b[i].rec.id
    ensures Ids(a) == Ids(b)
    ensures UniqueIds(a) ==> UniqueIds(b)
  {
  }

  lemma IdsSnoc(cs: seq<ItemState>, x: ItemState)
    ensures Ids(cs + [x]) == Ids(cs) + [x.rec.id]
  {
  }

  /** `List.removeAll` over object identity: the entries of `xs` not in `drop`, in order. */
  function Without(xs: seq<WorkshopListItem>, drop: seq<WorkshopListItem>): (r: seq<WorkshopListItem>)
    ensures forall x | x in r :: x in xs
  {
    if xs == [] then []
    else Without(xs[..|xs| - 1], drop) + (if xs[|xs| - 1] in drop then [] else [xs[|xs| - 1]])
  }

  /** Removing the list items that show the dropped ids leaves the items that show `Retain`. */
  lemma {:induction false} WithoutShowsRetain(xs: seq<WorkshopListItem>, cs: seq<ItemState>, drop: seq<WorkshopListItem>, keep: set<string>)
    requires |xs| == |cs|
    requires forall i | 0 <= i < |xs| :: xs[i].State() == cs[i]
    requires forall i | 0 <= i < |xs| :: xs[i] in drop <==> cs[i].rec.id !in keep
    ensures |Without(xs, drop)| == |Retain(cs, keep)|
    ensures forall i | 0 <= i < |Without(xs, drop)| :: Without(xs, drop)[i].State() == Retain(cs, keep)[i]
  {
    if xs != [] {
      WithoutShowsRetain(xs[..|xs| - 1], cs[..|cs| - 1], drop, keep);
    }
  }

  lemma {:induction false} WithoutNothing(xs: seq<WorkshopListItem>)
    ensures Without(xs, []) == xs
  {
    if xs != [] {
      WithoutNothing(xs[..|xs| - 1]);
    }
  }

  /** After the removal, every id left in the map is the id of a retained item. */
  lemma RemovalMapKeys(cs0: seq<ItemState>, m0: map<string, WorkshopListItem>,
                       removedIds: seq<string>, keep: set<string>, m1: map<string, WorkshopListItem>)
    requires forall id | id in m0 :: id in Ids(cs0)
    requires forall i | 0 <= i < |cs0| :: cs0[i].rec.id in removedIds <==> cs0[i].rec.id !in keep
    requires forall id :: id in m1 <==> id in m0 && id !in removedIds
    ensures forall id | id in m1 :: id in Ids(Retain(cs0, keep))
  {
    RetainIds(cs0, keep);
    forall id | id in m1
      ensures id in Ids(Retain(cs0, keep))
    {
      var k :| 0 <= k < |cs0| && Ids(cs0)[k] == id;
      assert cs0[k].rec.id == id;
      assert id in KeepIds(Ids(cs0), keep);
    }
  }

  /** After the removal, the map sends each retained id to the list item at its position. */
  lemma RemovalMapValues(
    items0: seq<WorkshopListItem>, cs0: seq<ItemState>, m0: map<string, WorkshopListItem>,
    drop: seq<WorkshopListItem>, removedIds: seq<string>, keep: set<string>, m1: map<string, WorkshopListItem>)
    requires |items0| == |cs0|
    requires forall i | 0 <= i < |items0| :: items0[i].State() == cs0[i]
    requires forall i | 0 <= i < |cs0| :: cs0[i].rec.id in m0 && m0[cs0[i].rec.id] == items0[i]
    requires forall i | 0 <= i < |items0| :: items0[i] in drop <==> cs0[i].rec.id !in keep
    requires forall i | 0 <= i < |cs0| :: cs0[i].rec.id in removedIds <==> cs0[i].rec.id !in keep
    requires forall id :: id in m1 <==> id in m0 && id !in removedIds
    requires forall id | id in m1 :: m1[id] == m0[id]
    ensures |Without(items0, drop)| == |Retain(cs0, keep)|
    ensures forall i | 0 <= i < |Retain(cs0, keep)| ::
      Retain(cs0, keep)[i].rec.id in m1 && m1[Retain(cs0, keep)[i].rec.id] == Without(items0, drop)[i]
  {
    var items1, cs1 := Without(items0, drop), Retain(cs0, keep);
    WithoutShowsRetain(items0, cs0, drop, keep);
    forall i | 0 <= i < |cs1|
      ensures cs1[i].rec.id in m1 && m1[cs1[i].rec.id] == items1[i]
    {
      var x := items1[i];
      assert x in items1;
      var k :| 0 <= k < |items0| && items0[k] == x;
      assert cs1[i] == cs0[k];
    }
  }

  /**
   * The list `items`, the map `m` and the values `cs` describe the same
   * registry: each list item shows the value at its position, ids are
   * unique, and the map sends exactly the tracked ids to their list items.
   */
  ghost predicate Describes(items: seq<WorkshopListItem>, cs: seq<ItemState>, m: map<string, WorkshopListItem>)
    reads set i | 0 <= i < |items| :: items[i]
    reads set i | 0 <= i < |items| :: items[i].data
  {
    && |items| == |cs|
    && (forall i | 0 <= i < |items| :: items[i].State() == cs[i])
    && UniqueIds(cs)
    && (forall id | id in m :: id in Ids(cs))
    && (forall i | 0 <= i < |cs| :: cs[i].rec.id in m && m[cs[i].rec.id] == items[i])
  }

  /**
   * Removing the items of the obsolete ids from the list, and their ids from
   * the map, leaves a list and a map that describe `Retain` of the contents.
   */
  lemma RemovalKeepsRegistry(
    items0: seq<WorkshopListItem>, cs0: seq<ItemState>, m0: map<string, WorkshopListItem>,
    drop: seq<WorkshopListItem>, removedIds: seq<string>, keep: set<string>,
    items1: seq<WorkshopListItem>, cs1: seq<ItemState>, m1: map<string, WorkshopListItem>)
    requires Describes(items0, cs0, m0)
    requires forall i | 0 <= i < |items0| :: items0[i] in drop <==> cs0[i].rec.id !in keep
    requires forall i | 0 <= i < |cs0| :: cs0[i].rec.id in removedIds <==> cs0[i].rec.id !in keep
    requires forall id :: id in m1 <==> id in m0 && id !in removedIds
    requires forall id | id in m1 :: m1[id] == m0[id]
    requires items1 == Without(items0, drop) && cs1 == Retain(cs0, keep)
    ensures forall x | x in items1 :: x in items0
    ensures Describes(items1, cs1, m1)
  {
    WithoutShowsRetain(items0, cs0, drop, keep);
    RetainUnique(cs0, keep);
    RemovalMapKeys(cs0, m0, removedIds, keep, m1);
    RemovalMapValues(items0, cs0, m0, drop, removedIds, keep, m1);
  }

  /**
   * `WorkshopDataService`: the observable list `items` and the map `byId`
   * always describe the same items, one per id. `notifications` is the
   * sequence of values passed to the data-changed listener.
   */
  class WorkshopDataService {
    var items: seq<WorkshopListItem>
    var byId: map<string, WorkshopListItem>
    var hasListener: bool
    var notifications: seq<int>
    ghost var Contents: seq<ItemState>
    ghost var Repr: set<object>

    ghost predicate Valid()
      reads this, Repr
    {
      && this in Repr
      && (forall i | 0 <= i < |items| :: items[i] in Repr && items[i].data in Repr)
      && Describes(items, Contents, byId)
    }

    constructor ()
      ensures Valid() && fresh(Repr)
      ensures Contents == [] && !hasListener && notifications == []
    {
      items := [];
      byId := map[];
      hasListener := false;
      notifications := [];
      Contents := [];
      Repr := {this};
    }

    /** `setOnDataChangedListener`: `present` is false for a null listener. */
    method SetOnDataChangedListener(present: bool)
      requires Valid()
      modifies this
      ensures Valid() && Repr == old(Repr) && Contents == old(Contents)
      ensures hasListener == present && notifications == old(notifications)
    {
      hasListener := present;
    }

    /** One pass of the loop in `updateWorkshopItems`. */
    method UpsertOne(r: Record)
      requires Valid()
      modifies Repr
      ensures Valid() && fresh(Repr - old(Repr))
      ensures Contents == Upsert(old(Contents), r)
      ensures hasListener == old(hasListener) && notifications == old(notifications)
    {
      if r.id in byId {
        var existingItem := byId[r.id];
        UpdateTracked(existingItem, r);
      } else {
        var model := new WorkshopData(r);
        var newItem := new WorkshopListItem(model);
        AddNew(newItem, r);
      }
    }

    /** A tracked id: the item's record takes the new time and flag in place. */
    method UpdateTracked(existingItem: WorkshopListItem, r: Record)
      requires Valid() && r.id in byId && existingItem == byId[r.id]
      modifies Repr
      ensures Valid() && Repr == old(Repr)
      ensures Contents == Upsert(old(Contents), r)
      ensures hasListener == old(hasListener) && notifications == old(notifications)
    {
      ghost var k := Find(Ids(Contents), r.id);
      assert Contents[k].rec.id == r.id;
      assert items[k] == existingItem;
      forall j | 0 <= j < |items| && j != k
        ensures items[j].data != existingItem.data
      {
        assert items[j].State() == Contents[j];
      }
      var existingModel := existingItem.data;
      existingModel.SetTime(r.time);
      existingModel.SetSubscribed(r.subscribed);
      SameIds(Contents, Contents[k := Contents[k].(rec := Contents[k].rec.(time := r.time, subscribed := r.subscribed))]);
      Contents := Contents[k := Contents[k].(rec := Contents[k].rec.(time := r.time, subscribed := r.subscribed))];
    }

    /** A new id: a fresh item is put in the map and appended to the list. */
    method AddNew(newItem: WorkshopListItem, r: Record)
      requires Valid() && r.id !in byId
      requires newItem !in Repr && newItem.data !in Repr && newItem.State() == Wrapped(r)
      modifies this
      ensures Valid() && Repr == old(Repr) + {newItem, newItem.data}
      ensures Contents == Upsert(old(Contents), r)
      ensures hasListener == old(hasListener) && notifications == old(notifications)
    {
      assert r.id !in Ids(Contents);
      IdsSnoc(Contents, Wrapped(r));
      byId := byId[r.id := newItem];
      items := items + [newItem];
      Contents := Contents + [Wrapped(r)];
      Repr := Repr + {newItem, newItem.data};
    }

    /**
     * `updateWorkshopItems`: the registry becomes `Reconcile` of its old
     * contents and the snapshot, and the listener hears the snapshot's size,
     * or 0 when the snapshot was null or empty.
     */
    method UpdateWorkshopItems(snapshot: Option<seq<Record>>)
      requires Valid()
      modifies Repr
      ensures Valid() && fresh(Repr - old(Repr))
      ensures Contents == Reconcile(old(Contents), snapshot)
      ensures hasListener == old(hasListener)
      ensures notifications == old(notifications) +
        (if !hasListener then [] else if snapshot.None? || snapshot.value == [] then [0] else [|snapshot.value|])
    {
      if snapshot.None? || |snapshot.value| == 0 {
        ClearWorkshopItems();
        return;
      }
      var s := snapshot.value;
      var currentIds := UpsertEach(s);
      RemoveObsoleteItems(currentIds);
      NotifyListener(|s|);
    }

    /** The loop of `updateWorkshopItems`: every record in snapshot order, collecting the snapshot's ids. */
    method UpsertEach(s: seq<Record>) returns (currentIds: set<string>)
      requires Valid()
      modifies Repr
      ensures Valid() && fresh(Repr - old(Repr))
      ensures Contents == UpsertAll(old(Contents), s) && currentIds == IdsOf(s)
      ensures hasListener == old(hasListener) && notifications == old(notifications)
    {
      currentIds := {};
      for i := 0 to |s|
        invariant Valid() && fresh(Repr - old(Repr))
        invariant Contents == UpsertAll(old(Contents), s[..i])
        invariant currentIds == IdsOf(s[..i])
        invariant hasListener == old(hasListener) && notifications == old(notifications)
      {
        assert s[..i + 1][..i] == s[..i];
        currentIds := currentIds + {s[i].id};
        UpsertOne(s[i]);
      }
      assert s[..|s|] == s;
    }

    /** Passes `n` to the data-changed listener, when one is set. */
    method NotifyListener(n: int)
      requires Valid()
      modifies this
      ensures Valid() && Repr == old(Repr) && Contents == old(Contents) && hasListener == old(hasListener)
      ensures notifications == old(notifications) + (if hasListener then [n] else [])
    {
      if hasListener {
        notifications := notifications + [n];
      }
    }

    /** `removeObsoleteItems`: the items whose id is not in `currentIds` leave both the list and the map. */
    method RemoveObsoleteItems(currentIds: set<string>)
      requires Valid()
      modifies this
      ensures Valid() && Repr == old(Repr)
      ensures Contents == Retain(old(Contents), currentIds)
      ensures hasListener == old(hasListener) && notifications == old(notifications)
    {
      var itemsToRemove, removedIds := ObsoleteItems(currentIds);
      var list, map' := items, byId;
      if |itemsToRemove| > 0 {
        list := Without(items, itemsToRemove);
        map' := RemoveEach(byId, itemsToRemove, removedIds);
      } else {
        assert removedIds == [];
        WithoutNothing(items);
      }
      RemovalKeepsRegistry(items, Contents, byId, itemsToRemove, removedIds, currentIds,
                           list, Retain(Contents, currentIds), map');
      Install(list, map', Retain(Contents, currentIds));
    }

    /** Makes `list` and `m`, which describe `cs`, the registry's list and map. */
    method Install(list: seq<WorkshopListItem>, m: map<string, WorkshopListItem>, ghost cs: seq<ItemState>)
      requires this in Repr
      requires forall x | x in list :: x in Repr && x.data in Repr
      requires Describes(list, cs, m)
      modifies this
      ensures Valid() && Repr == old(Repr) && Contents == cs
      ensures hasListener == old(hasListener) && notifications == old(notifications)
    {
      items, byId, Contents := list, m, cs;
    }

    /** The second loop of `removeObsoleteItems`: the map without the ids of the removed items. */
    static method RemoveEach(m: map<string, WorkshopListItem>, drop: seq<WorkshopListItem>, ghost ids: seq<string>)
      returns (m': map<string, WorkshopListItem>)
      requires |drop| == |ids| && forall k | 0 <= k < |drop| :: drop[k].data.id == ids[k]
      ensures forall id :: id in m' <==> id in m && id !in ids
      ensures forall id | id in m' :: m'[id] == m[id]
    {
      m' := m;
      for j := 0 to |drop|
        invariant forall id :: id in m' <==> id in m && id !in ids[..j]
        invariant forall id | id in m' :: m'[id] == m[id]
      {
        assert ids[..j + 1] == ids[..j] + [ids[j]];
        m' := m' - {drop[j].data.id};
      }
      assert ids[..|drop|] == ids;
    }

    /**
     * The first loop of `removeObsoleteItems`: the list items whose id is
     * not in `currentIds`, in list order, with their ids.
     */
    method ObsoleteItems(currentIds: set<string>) returns (itemsToRemove: seq<WorkshopListItem>, ghost removedIds: seq<string>)
      requires Valid()
      ensures |itemsToRemove| == |removedIds|
      ensures forall k | 0 <= k < |itemsToRemove| ::
        itemsToRemove[k].data.id == removedIds[k] && removedIds[k] !in currentIds
      ensures forall k | 0 <= k < |items| :: items[k] in itemsToRemove <==> Contents[k].rec.id !in currentIds
      ensures forall k | 0 <= k < |Contents| :: Contents[k].rec.id in removedIds <==> Contents[k].rec.id !in currentIds
    {
      itemsToRemove := [];
      removedIds := [];
      for i := 0 to |items|
        invariant |itemsToRemove| == |removedIds|
        invariant forall k | 0 <= k < |itemsToRemove| ::
          itemsToRemove[k].data.id == removedIds[k] && removedIds[k] !in currentIds
        invariant forall k | 0 <= k < i :: items[k] in itemsToRemove <==> Contents[k].rec.id !in currentIds
        invariant forall k | 0 <= k < i :: Contents[k].rec.id in removedIds <==> Contents[k].rec.id !in currentIds
      {
        var item := items[i];
        assert item.State() == Contents[i];
        forall k | 0 <= k < i
          ensures items[k] != item && Contents[k].rec.id != item.data.id
        {
          assert items[k].State() == Contents[k];
        }
        if item.data.id !in currentIds {
          itemsToRemove := itemsToRemove + [item];
          removedIds := removedIds + [item.data.id];
        }
      }
    }

    /** `clearWorkshopItems`: both collections empty, and the listener hears 0. */
    method ClearWorkshopItems()
      requires Valid()
      modifies this
      ensures Valid() && Repr == old(Repr) && Contents == []
      ensures hasListener == old(hasListener)
      ensures notifications == old(notifications) + (if hasListener then [0] else [])
    {
      items := [];
      byId := map[];
      Contents := [];
      NotifyListener(0);
    }

    /** `calculateActualCopyCount`: the number of items not yet copied successfully. */
    method CalculateActualCopyCount() returns (count: int)
      requires Valid()
      ensures count == CountNonSuccess(Contents)
    {
      if |items| == 0 {
        return 0;
      }
      count := 0;
      for i := 0 to |items|
        invariant count == CountNonSuccess(Contents[..i])
      {
        assert Contents[..i + 1][..i] == Contents[..i];
        assert items[i].State() == Contents[i];
        if items[i].copyStatus != Succeeded {
          count := count + 1;
        }
      }
      assert Contents[..|items|] == Contents;
    }

    /** `resetNonSuccessCopyStatus`. */
    method ResetNonSuccessCopyStatus()
      requires Valid()
      modifies Repr
      ensures Valid() && Repr == old(Repr)
      ensures Contents == ResetAll(old(Contents))
      ensures hasListener == old(hasListener) && notifications == old(notifications)
    {
      for i := 0 to |items|
        invariant Valid() && Repr == old(Repr) && |items| == |old(Contents)|
        invariant hasListener == old(hasListener) && notifications == old(notifications)
        invariant |Contents| == |old(Contents)|
        invariant forall k | 0 <= k < i :: Contents[k] == ResetAll(old(Contents))[k]
        invariant forall k | i <= k < |Contents| :: Contents[k] == old(Contents)[k]
      {
        assert items[i].State() == Contents[i];
        if items[i].copyStatus != Succeeded {
          SetItemStatus(i, NotCopied, Some([]));
        }
      }
      assert Contents == ResetAll(old(Contents));
    }

    /** `setCopyStatus(status, args)` on the item at `index`. */
    method SetItemStatus(index: int, status: CopyStatus, args: Option<seq<Option<string>>>)
      requires Valid() && 0 <= index < |Contents|
      modifies Repr
      ensures Valid() && Repr == old(Repr) && items == old(items)
      ensures Contents == old(Contents)[index := old(Contents)[index].(status := status, message := FirstArgument(args))]
      ensures hasListener == old(hasListener) && notifications == old(notifications)
    {
      var item := items[index];
      assert item.State() == Contents[index];
      forall k | 0 <= k < |items| && k != index
        ensures items[k] != item
      {
        assert items[k].State() == Contents[k];
      }
      var _ := item.SetCopyStatus(Some(status), args);
      SameIds(Contents, Contents[index := Contents[index].(status := status, message := FirstArgument(args))]);
      Contents := Contents[index := Contents[index].(status := status, message := FirstArgument(args))];
    }

    /** `getTotalCount`. */
    method GetTotalCount() returns (n: int)
      requires Valid()
      ensures n == |Contents|
    {
      n := |items|;
    }

    /** `getWorkshopItemById`: the item showing `id`, or null when no item does. */
    method GetWorkshopItemById(id: string) returns (item: WorkshopListItem?)
      requires Valid()
      ensures item == null <==> id !in Ids(Contents)
      ensures item != null ==> item.State() == Contents[Find(Ids(Contents), id)]
    {
      if id in byId {
        item := byId[id];
        assert item in items;
      } else {
        item := null;
      }
    }

    /**
     * The effect of `CopyService.updateItemCopyStatus` on the item at
     * `index`: its status and message change and nothing else does.
     */
    method SetCopyStatusAt(index: int, status: CopyStatus, message: Option<string>)
      requires Valid() && 0 <= index < |Contents|
      modifies Repr
      ensures Valid() && Repr == old(Repr)
      ensures Contents == old(Contents)[index := old(Contents)[index].(status := status, message := message)]
      ensures hasListener == old(hasListener) && notifications == old(notifications)
    {
      var item := items[index];
      SetItemStatus(index, status, Some([message]));
      if 0 <= index < |items| {
        items := items[index := item];
      }
    }
  }
}
