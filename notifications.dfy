/** The front end's notification list: add with defaults and a scheduled
    auto-removal, remove by id, clear, and the four typed helpers. The fresh
    id is a parameter; a scheduled removal is recorded, not timed. */
module Notifications {
  import opened Common

  datatype Kind = SuccessKind | ErrorKind | WarningKind | InfoKind

  datatype Notification = Notification(
    id: string, kind: Kind, title: string, message: string, duration: int, dismissible: bool)

  /** The object handed to add: kind, title and message, and the optional
      fields the caller supplied (None for a field the object does not have). */
  datatype NotificationInput = NotificationInput(
    kind: Kind, title: string, message: string,
    id: Option<string>, duration: Option<int>, dismissible: Option<bool>)

  /** A helper's options: any field of a notification, id included. */
  datatype Options = Options(
    kind: Option<Kind>, title: Option<string>, message: Option<string>,
    id: Option<string>, duration: Option<int>, dismissible: Option<bool>)

  const DefaultDuration: int := 5000

  function Or<T>(given: Option<T>, default: T): (r: T)
    ensures given.Some? ==> r == given.value
    ensures given.None? ==> r == default
  {
    if given.Some? then given.value else default
  }

  /** The notification add builds, as written: the defaults (the fresh id,
      duration 5000, dismissible) are spread first and every field of the
      input after them, an id included. */
  function MergeAsWritten(freshId: string, input: NotificationInput): Notification
  {
    Notification(Or(input.id, freshId), input.kind, input.title, input.message,
                 Or(input.duration, DefaultDuration), Or(input.dismissible, true))
  }

  /** The notification add builds, with the fresh id kept: the duration and
      dismissible defaults yield to the caller's fields, the id does not. */
  function Merge(freshId: string, input: NotificationInput): (n: Notification)
    ensures n.id == freshId
    ensures n.kind == input.kind && n.title == input.title && n.message == input.message
    ensures input.duration.None? ==> n.duration == DefaultDuration
    ensures input.duration.Some? ==> n.duration == input.duration.value
    ensures n.dismissible == (input.dismissible.None? || input.dismissible.value)
    ensures input.id.None? ==> n == MergeAsWritten(freshId, input)
  {
    MergeAsWritten(freshId, input).(id := freshId)
  }

  /** notifications.filter(n => n.id !== id): the others, in order. */
  function WithoutId(items: seq<Notification>, id: string): (r: seq<Notification>)
    ensures forall n :: n in r <==> n in items && n.id != id
    ensures |r| <= |items|
  {
    if items == [] then []
    else if items[0].id == id then WithoutId(items[1..], id)
    else [items[0]] + WithoutId(items[1..], id)
  }

  /** Filtering keeps the relative order of what stays. */
  lemma {:induction false} WithoutIdKeepsUnmatched(items: seq<Notification>, id: string)
    requires forall n :: n in items ==> n.id != id
    ensures WithoutId(items, id) == items
  {
    if items != [] {
      WithoutIdKeepsUnmatched(items[1..], id);
      assert items == [items[0]] + items[1..];
    }
  }

  /** Filtering distributes over concatenation. */
  lemma {:induction false} WithoutIdAppend(a: seq<Notification>, b: seq<Notification>, id: string)
    ensures WithoutId(a + b, id) == WithoutId(a, id) + WithoutId(b, id)
  {
    if a != [] {
      assert (a + b)[1..] == a[1..] + b;
      WithoutIdAppend(a[1..], b, id);
    } else {
      assert a + b == b;
    }
  }

  /** When the input carries its own id, the notification appended as
      written does not have the id add returns: neither remove(id) nor the
      scheduled auto-removal, both filtering by that id, can drop it. */
  lemma AsWrittenReturnedIdMisses(items: seq<Notification>, freshId: string, input: NotificationInput)
    requires input.id.Some? && input.id.value != freshId
    ensures MergeAsWritten(freshId, input).id != freshId
    ensures MergeAsWritten(freshId, input) in WithoutId(items + [MergeAsWritten(freshId, input)], freshId)
  {
  }

  /** A concrete case: success("t", "m", {id: "mine"}) stores a notification
      with id "mine" and the 5000 ms default, so a removal is scheduled, but
      that removal filters by the generated id and leaves the notification. */
  lemma AsWrittenSuccessHelperExample()
    ensures var n := MergeAsWritten("fresh", HelperInput(SuccessKind, "t", "m", None, Options(None, None, None, Some("mine"), None, None)));
      && n.id == "mine" && n.duration == DefaultDuration
      && n in WithoutId([n], "fresh")
  {
  }

  /** The object a helper hands to add: its kind, title and message (and,
      for error, duration 0), overridden by any option given. */
  function HelperInput(kind: Kind, title: string, message: string, duration: Option<int>, options: Options)
    : (input: NotificationInput)
    ensures input.kind == Or(options.kind, kind)
    ensures input.title == Or(options.title, title) && input.message == Or(options.message, message)
    ensures input.duration == (if options.duration.Some? then options.duration else duration)
    ensures input.id == options.id && input.dismissible == options.dismissible
  {
    NotificationInput(Or(options.kind, kind), Or(options.title, title), Or(options.message, message),
                      options.id, if options.duration.Some? then options.duration else duration,
                      options.dismissible)
  }

  /** The error helper makes a persistent notification unless told otherwise;
      the other helpers keep the 5000 ms default. */
  lemma HelperDurations(freshId: string, title: string, message: string, options: Options)
    requires options.duration.None?
    ensures Merge(freshId, HelperInput(ErrorKind, title, message, Some(0), options)).duration == 0
    ensures forall k :: k != ErrorKind ==> Merge(freshId, HelperInput(k, title, message, None, options)).duration == DefaultDuration
  {
  }

  /** The auto-removal add schedules for a new notification: one, after its
      duration, when that is positive, and none otherwise. */
  function Removal(n: Notification): (r: seq<(string, int)>)
    ensures |r| <= 1
    ensures r != [] <==> n.duration > 0
    ensures r != [] ==> r[0] == (n.id, n.duration)
  {
    if n.duration > 0 then [(n.id, n.duration)] else []
  }

  class NotificationStore {
    /** The current notifications, oldest first. */
    var items: seq<Notification>
    /** The auto-removals scheduled so far: the id and the delay in ms. */
    var scheduled: seq<(string, int)>

    constructor ()
      ensures items == [] && scheduled == []
    {
      items := [];
      scheduled := [];
    }

    /** add: append one notification at the end, schedule its removal when
        its duration is positive, and return its id. */
    method Add(input: NotificationInput, freshId: string) returns (id: string)
      modifies this
      ensures id == freshId
      ensures items == old(items) + [Merge(freshId, input)]
      ensures input.id.None? ==> items == old(items) + [MergeAsWritten(freshId, input)]
      ensures scheduled == old(scheduled) + Removal(Merge(freshId, input))
    {
      var n := Merge(freshId, input);
      items := items + [n];
      if n.duration > 0 {
        scheduled := scheduled + [(freshId, n.duration)];
      }
      id := freshId;
    }

    /** remove: drop the notifications with this id, keep the rest in order. */
    method Remove(id: string)
      modifies this
      ensures items == WithoutId(old(items), id)
      ensures scheduled == old(scheduled)
    {
      items := WithoutId(items, id);
    }

    /** clear: no notifications remain. */
    method Clear()
      modifies this
      ensures items == [] && scheduled == old(scheduled)
    {
      items := [];
    }

    method Success(title: string, message: string, options: Options, freshId: string) returns (id: string)
      modifies this
      ensures id == freshId
      ensures items == old(items) + [Merge(freshId, HelperInput(SuccessKind, title, message, None, options))]
      ensures scheduled == old(scheduled) + Removal(Merge(freshId, HelperInput(SuccessKind, title, message, None, options)))
    {
      id := Add(HelperInput(SuccessKind, title, message, None, options), freshId);
    }

    method Error(title: string, message: string, options: Options, freshId: string) returns (id: string)
      modifies this
      ensures id == freshId
      ensures items == old(items) + [Merge(freshId, HelperInput(ErrorKind, title, message, Some(0), options))]
      ensures scheduled == old(scheduled) + Removal(Merge(freshId, HelperInput(ErrorKind, title, message, Some(0), options)))
    {
      id := Add(HelperInput(ErrorKind, title, message, Some(0), options), freshId);
    }

    method Warning(title: string, message: string, options: Options, freshId: string) returns (id: string)
      modifies this
      ensures id == freshId
      ensures items == old(items) + [Merge(freshId, HelperInput(WarningKind, title, message, None, options))]
      ensures scheduled == old(scheduled) + Removal(Merge(freshId, HelperInput(WarningKind, title, message, None, options)))
    {
      id := Add(HelperInput(WarningKind, title, message, None, options), freshId);
    }

    method Info(title: string, message: string, options: Options, freshId: string) returns (id: string)
      modifies this
      ensures id == freshId
      ensures items == old(items) + [Merge(freshId, HelperInput(InfoKind, title, message, None, options))]
      ensures scheduled == old(scheduled) + Removal(Merge(freshId, HelperInput(InfoKind, title, message, None, options)))
    {
      id := Add(HelperInput(InfoKind, title, message, None, options), freshId);
    }
  }

  /** With the fresh id kept, removing by the id add returned drops the new
      notification and leaves the earlier ones (whose ids differ) as they were. */
  lemma AddThenRemove(items: seq<Notification>, freshId: string, input: NotificationInput)
    requires forall n :: n in items ==> n.id != freshId
    ensures WithoutId(items + [Merge(freshId, input)], freshId) == items
  {
    WithoutIdAppend(items, [Merge(freshId, input)], freshId);
    WithoutIdKeepsUnmatched(items, freshId);
    assert WithoutId([Merge(freshId, input)], freshId) == [];
  }
}
