/**
 * The record parsed from the workshop log for one item: its id, the time of
 * the line that last changed it and whether it is subscribed.
 */
module WorkshopRecords {

  /** The value of a `WorkshopData` object: its three fields. */
  datatype Record = Record(id: string, time: string, subscribed: bool)

  const Int32Modulus: int := 0x1_0000_0000

  predicate IsInt32(x: int)
  {
    -0x8000_0000 <= x < 0x8000_0000
  }

  /** Java `int` arithmetic: the result is reduced to 32 bits, two's complement. */
  function WrapInt32(x: int): (r: int)
    ensures IsInt32(r)
    ensures (r - x) % Int32Modulus == 0
  {
    var m := x % Int32Modulus;
    if m >= 0x8000_0000 then m - Int32Modulus else m
  }

  /** `String.hashCode`: h = 31 * h + c over the characters, in `int` arithmetic. */
  function StringHash(s: string): (h: int)
    ensures IsInt32(h)
  {
    if s == [] then 0 else WrapInt32(31 * StringHash(s[..|s| - 1]) + s[|s| - 1] as int)
  }

  /** `Boolean.hashCode`. */
  function BooleanHash(b: bool): int
  {
    if b then 1231 else 1237
  }

  /** `Objects.hash(workshopId, timestamp, subscribed)`: 31-based combination starting at 1. */
  function Hash(r: Record): (h: int)
    ensures IsInt32(h)
  {
    var h1 := WrapInt32(31 * 1 + StringHash(r.id));
    var h2 := WrapInt32(31 * h1 + StringHash(r.time));
    WrapInt32(31 * h2 + BooleanHash(r.subscribed))
  }

  /** A mutable workshop record. The core always fills all three fields right after creation. */
  class WorkshopData {
    var id: string
    var time: string
    var subscribed: bool

    /** `new WorkshopData()` followed by `setId`, `setTime` and `setSubscribed`. */
    constructor (r: Record)
      ensures Value() == r
    {
      id, time, subscribed := r.id, r.time, r.subscribed;
    }

    /** The three fields, as read by `getId`, `getTime` and `isSubscribed`. */
    function Value(): Record
      reads this
    {
      Record(id, time, subscribed)
    }

    method SetId(workshopId: string)
      modifies this
      ensures Value() == old(Value()).(id := workshopId)
    {
      id := workshopId;
    }

    method SetTime(timestamp: string)
      modifies this
      ensures Value() == old(Value()).(time := timestamp)
    {
      time := timestamp;
    }

    method SetSubscribed(b: bool)
      modifies this
      ensures Value() == old(Value()).(subscribed := b)
    {
      subscribed := b;
    }

    /**
     * `equals(Object)`: false for null and for objects of another class,
     * otherwise true exactly when the three fields agree.
     */
    predicate Equals(o: object?)
      reads this, o
      ensures Equals(o) <==> o is WorkshopData && Value() == (o as WorkshopData).Value()
    {
      if o == null || !(o is WorkshopData) then false
      else
        var that := o as WorkshopData;
        subscribed == that.subscribed && id == that.id && time == that.time
    }

    /** `hashCode()`: a Java `int` built from the same three fields that `Equals` compares. */
    function HashCode(): (h: int)
      reads this
      ensures IsInt32(h)
    {
      Hash(Record(id, time, subscribed))
    }
  }

  /** The ids of a list of records. */
  function IdsOf(s: seq<Record>): (ids: set<string>)
    ensures forall i | 0 <= i < |s| :: s[i].id in ids
  {
    if s == [] then {} else IdsOf(s[..|s| - 1]) + {s[|s| - 1].id}
  }

  /** Objects that are equal have equal hash codes. */
  lemma EqualsImpliesSameHash(a: WorkshopData, b: WorkshopData)
    requires a.Equals(b)
    ensures a.HashCode() == b.HashCode()
  {
  }

  /** `Equals` is symmetric. */
  lemma EqualsSymmetric(a: WorkshopData, b: WorkshopData)
    ensures a.Equals(b) <==> b.Equals(a)
  {
  }
}
