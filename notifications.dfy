/**
 * Notifications and their per-group status rows (read / hidden).
 *
 * The `notifications` table is a sequence of rows in insertion order; the
 * `group_notification_status` table is a map from its composite primary key
 * (group id, notification id) to the two flags. No operation here creates
 * status rows; they are part of the state the operations start from.
 */
module Notifications {
  import opened Wrappers

  datatype Notification = Notification(id: int, title: string, description: string, link: Option<string>, notificationType: string)

  datatype Status = Status(isRead: bool, isHidden: bool)

  type StatusKey = (int, int)

  /** `GroupNotificationStatusRead`: a status row with its key. */
  datatype StatusRow = StatusRow(groupId: int, notificationId: int, isRead: bool, isHidden: bool)

  /** The `values` dict of an update: the columns it writes, and with what. */
  datatype StatusValues = StatusValues(isRead: Option<bool>, isHidden: Option<bool>)

  /** The values the guard in `update_notification_status` compares: the
      result object of `db.execute(select(Notification.notification_type)...)`,
      and the string "system". */
  datatype PyValue = PyStr(s: string) | PyQueryResult(types: seq<string>)

  /** Python's `==` on these values: a query result object is never equal to
      a string. */
  predicate PyEquals(a: PyValue, b: PyValue)
  {
    match (a, b)
    case (PyStr(x), PyStr(y)) => x == y
    case (PyQueryResult(x), PyQueryResult(y)) => x == y
    case _ => false
  }

  /** The types of the notifications with that id (at most one, ids being
      unique), as the select statement reads them. */
  function TypesOf(ns: seq<Notification>, notificationId: int): (ts: seq<string>)
    ensures |ts| <= |ns|
    ensures forall t :: t in ts <==> exists n :: n in ns && n.id == notificationId && n.notificationType == t
  {
    if ns == [] then []
    else
      var rest := TypesOf(ns[1..], notificationId);
      assert forall n :: n in ns[1..] ==> n in ns;
      assert forall n :: n in ns ==> n == ns[0] || n in ns[1..];
      if ns[0].id == notificationId then [ns[0].notificationType] + rest else rest
  }

  /** The `values` dict as `update_notification_status` builds it: `is_read`
      when supplied, and `is_hidden` when supplied and the type guard lets it
      through. The guard compares the query result object, not the type it
      holds, with "system", so it lets every value through: whatever the
      notification's type, the dict holds exactly the supplied arguments. */
  function ValuesFor(ns: seq<Notification>, notificationId: int, isRead: Option<bool>, isHidden: Option<bool>): (v: StatusValues)
    ensures v == StatusValues(isRead, isHidden)
  {
    var typeResult := PyQueryResult(TypesOf(ns, notificationId));
    var readPart := if isRead.Some? then isRead else None;
    var hiddenPart := if isHidden.Some? && !PyEquals(typeResult, PyStr("system")) then isHidden else None;
    StatusValues(readPart, hiddenPart)
  }

  /** `UPDATE ... SET <values>`: the columns named in `values` take their
      value, the others keep theirs. */
  function Apply(st: Status, v: StatusValues): (r: Status)
    ensures r.isRead == (if v.isRead.Some? then v.isRead.value else st.isRead)
    ensures r.isHidden == (if v.isHidden.Some? then v.isHidden.value else st.isHidden)
  {
    Status(if v.isRead.Some? then v.isRead.value else st.isRead,
           if v.isHidden.Some? then v.isHidden.value else st.isHidden)
  }

  /** An update that names no column leaves the row as it was, and applying
      the same update twice is the same as applying it once. */
  lemma ApplyIdentityAndIdempotent(st: Status, v: StatusValues)
    ensures Apply(st, StatusValues(None, None)) == st
    ensures Apply(Apply(st, v), v) == Apply(st, v)
  {
  }

  /** `get_notifications_for_group`: the notifications joined with a status
      row of that group, in table order. */
  function NotificationsForGroup(ns: seq<Notification>, statuses: map<StatusKey, Status>, groupId: int): (r: seq<Notification>)
    ensures |r| <= |ns|
    ensures forall n :: n in r <==> n in ns && (groupId, n.id) in statuses
  {
    if ns == [] then []
    else
      var rest := NotificationsForGroup(ns[1..], statuses, groupId);
      assert forall n :: n in ns[1..] ==> n in ns;
      assert forall n :: n in ns ==> n == ns[0] || n in ns[1..];
      if (groupId, ns[0].id) in statuses then [ns[0]] + rest else rest
  }

  class NotificationStore {
    var notifications: seq<Notification>
    var statuses: map<StatusKey, Status>
    var nextId: int

    /** Ids are positive, unique and below the sequence's next value, and
        every status row refers to an existing notification. */
    ghost predicate Valid()
      reads this
    {
      && nextId > 0
      && (forall i :: 0 <= i < |notifications| ==> 0 < notifications[i].id < nextId)
      && (forall i, j :: 0 <= i < j < |notifications| ==> notifications[i].id != notifications[j].id)
      && (forall k :: k in statuses ==> exists i :: 0 <= i < |notifications| && notifications[i].id == k.1)
    }

    constructor ()
      ensures Valid() && notifications == [] && statuses == map[]
    {
      notifications := [];
      statuses := map[];
      nextId := 1;
    }

    /** `create_notification`: appends one notification with a fresh id and
        the given fields; the status table is untouched. */
    method CreateNotification(title: string, description: string, link: Option<string>, notificationType: string)
      returns (n: Notification)
      requires Valid()
      modifies this
      ensures Valid()
      ensures n == Notification(old(nextId), title, description, link, notificationType)
      ensures forall m :: m in old(notifications) ==> m.id != n.id
      ensures notifications == old(notifications) + [n] && statuses == old(statuses)
    {
      n := Notification(nextId, title, description, link, notificationType);
      ghost var before := notifications;
      notifications := notifications + [n];
      nextId := nextId + 1;
      forall k | k in statuses ensures exists i :: 0 <= i < |notifications| && notifications[i].id == k.1 {
        var m :| 0 <= m < |before| && before[m].id == k.1;
        assert notifications[m] == before[m];
      }
    }

    /** `update_notification_status`: builds `values` from the supplied
        arguments and applies it to the one status row keyed by (group,
        notification); every other row is untouched. Without such a row
        nothing changes and the result is `None`. */
    method UpdateNotificationStatus(groupId: int, notificationId: int, isRead: Option<bool>, isHidden: Option<bool>)
      returns (r: Option<StatusRow>)
      requires Valid()
      modifies this
      ensures Valid()
      ensures notifications == old(notifications) && nextId == old(nextId)
      ensures (groupId, notificationId) !in old(statuses) ==> r == None && statuses == old(statuses)
      ensures (groupId, notificationId) in old(statuses) ==>
        var st := Apply(old(statuses)[(groupId, notificationId)], StatusValues(isRead, isHidden));
        && statuses == old(statuses)[(groupId, notificationId) := st]
        && r == Some(StatusRow(groupId, notificationId, st.isRead, st.isHidden))
    {
      var values := StatusValues(None, None);
      var notificationType := PyQueryResult(TypesOf(notifications, notificationId));
      if isRead.Some? {
        values := values.(isRead := isRead);
      }
      if isHidden.Some? && !PyEquals(notificationType, PyStr("system")) {
        values := values.(isHidden := isHidden);
      }
      assert values == ValuesFor(notifications, notificationId, isRead, isHidden);
      var key := (groupId, notificationId);
      if key !in statuses {
        return None;
      }
      var st := Apply(statuses[key], values);
      statuses := statuses[key := st];
      r := Some(StatusRow(groupId, notificationId, st.isRead, st.isHidden));
    }
  }

  /** A "system" notification, which the schema says cannot be hidden, is
      hidden all the same: the values for hiding it carry `is_hidden`. */
  lemma SystemNotificationIsHideable(ns: seq<Notification>, i: nat, st: Status)
    requires i < |ns| && ns[i].notificationType == "system"
    ensures Apply(st, ValuesFor(ns, ns[i].id, None, Some(true))) == Status(st.isRead, true)
  {
  }
}
