/** A workshop record as shown in the list: the record plus the state of its copy. */
module ListItems {
  import opened Wrappers
  import opened WorkshopRecords

  /** `WorkshopListItem.CopyStatus`. */
  datatype CopyStatus = NotCopied | Copying | Succeeded | Failed

  /** `CopyStatus.getDisplayName`. */
  function DisplayName(s: CopyStatus): string
  {
    match s
    case NotCopied => "未拷贝"
    case Copying => "拷贝中"
    case Succeeded => "拷贝成功"
    case Failed => "拷贝失败"
  }

  /** Everything an item shows: its record's value, its copy status and the status message (`None` is null). */
  datatype ItemState = ItemState(rec: Record, status: CopyStatus, message: Option<string>)

  /** A freshly wrapped record: not copied, with an empty message. */
  function Wrapped(r: Record): ItemState
  {
    ItemState(r, NotCopied, Some(""))
  }

  /** The message `setCopyStatus` stores for its variable arguments (`None` is a null array). */
  function FirstArgument(args: Option<seq<Option<string>>>): (m: Option<string>)
    ensures args.Some? && |args.value| > 0 ==> m == args.value[0]
    ensures args.None? || args.value == [] ==> m == Some("")
  {
    if args.Some? && |args.value| > 0 then args.value[0] else Some("")
  }

  /**
   * `getCopyStatusText`: the display name alone when the message is null or
   * empty, otherwise the display name, a colon, a space and the message.
   */
  function StatusText(status: CopyStatus, message: Option<string>): (t: string)
    ensures DisplayName(status) <= t
    ensures t == DisplayName(status) <==> message.None? || message.value == ""
    ensures message.Some? && message.value != "" ==> t[|DisplayName(status)|..] == ": " + message.value
  {
    if message.Some? && message.value != "" then DisplayName(status) + ": " + message.value
    else DisplayName(status)
  }

  /** `getSubscribeStatus` for a given `isSubscribed()`. */
  function SubscribeLabel(subscribed: bool): string
  {
    if subscribed then "已订阅" else "已取消订阅"
  }

  /** `getSubscribeStyleClass` for a given `isSubscribed()`. */
  function SubscribeStyle(subscribed: bool): string
  {
    if subscribed then "subscribe-status-subscribed" else "subscribe-status-unsubscribed"
  }

  /** The subscribe text and the style class each tell the two states apart. */
  lemma SubscribeTextsDistinguish(a: bool, b: bool)
    ensures SubscribeLabel(a) == SubscribeLabel(b) <==> a == b
    ensures SubscribeStyle(a) == SubscribeStyle(b) <==> a == b
  {
    if a != b {
      assert |SubscribeLabel(true)| != |SubscribeLabel(false)|;
      assert |SubscribeStyle(true)| != |SubscribeStyle(false)|;
    }
  }

  class WorkshopListItem {
    /** The wrapped record: the field is final, the record itself is edited in place by the registry. */
    const data: WorkshopData
    var copyStatus: CopyStatus
    var message: Option<string>

    constructor (workshopData: WorkshopData)
      ensures data == workshopData
      ensures copyStatus == NotCopied && message == Some("")
    {
      data := workshopData;
      copyStatus := NotCopied;
      message := Some("");
    }

    /** What the item shows now; the record part is read through `data` on every call. */
    function State(): ItemState
      reads this, data
    {
      ItemState(data.Value(), copyStatus, message)
    }

    /** `getSubscribeStatus`: depends on the wrapped record's `subscribed` flag alone. */
    function SubscribeStatus(): (s: string)
      reads data
      ensures s == SubscribeLabel(State().rec.subscribed)
    {
      SubscribeLabel(data.subscribed)
    }

    /** `getSubscribeStyleClass`: depends on the wrapped record's `subscribed` flag alone. */
    function SubscribeStyleClass(): (s: string)
      reads data
      ensures s == SubscribeStyle(State().rec.subscribed)
    {
      SubscribeStyle(data.subscribed)
    }

    /** `getCopyStatusText`. */
    function CopyStatusText(): (t: string)
      reads this
      ensures t == StatusText(State().status, State().message)
    {
      StatusText(copyStatus, message)
    }

    /**
     * `setCopyStatus(status, args...)`: a null status throws and changes
     * nothing; otherwise the status is set and the message becomes the first
     * argument, or the empty string when no argument is given.
     */
    method SetCopyStatus(status: Option<CopyStatus>, args: Option<seq<Option<string>>>) returns (r: Outcome<Exception>)
      modifies this
      ensures status.None? ==> r == Fail(IllegalArgument("copyStatus")) && copyStatus == old(copyStatus) && message == old(message)
      ensures status.Some? ==> r == Pass && copyStatus == status.value && message == FirstArgument(args)
    {
      if status.None? {
        return Fail(IllegalArgument("copyStatus"));
      }
      copyStatus := status.value;
      message := if args.Some? && |args.value| > 0 then args.value[0] else Some("");
      r := Pass;
    }
  }

  /**
   * An edit to the wrapped record shows through the item: after the record's
   * time and flag are set in place, the item shows the new values, and its
   * id, copy status and message are as before.
   */
  method EditShowsThrough(item: WorkshopListItem, time: string, subscribed: bool)
    modifies item.data
    ensures item.State() == old(item.State()).(rec := old(item.State().rec).(time := time, subscribed := subscribed))
  {
    item.data.SetTime(time);
    item.data.SetSubscribed(subscribed);
  }
}
