/**
 * Notifications: the type tag, the read flag, and the per-user listing,
 * unread count, mark-read and mark-all-read rules. A notification's id is
 * its position in the table, which is also its creation order.
 */
module Notifications {
  import opened Wrappers

  /** The six declared types. The administrators' send form stores
      whatever type it is sent, so any other tag is kept as `OtherType`. */
  datatype NotificationType =
    | LessonAdded | Enrollment | CourseCompleted | QuizGraded | CertificateIssued | General
    | OtherType(tag: string)

  function TypeTag(t: NotificationType): string {
    match t
    case LessonAdded => "lesson_added"
    case Enrollment => "enrollment"
    case CourseCompleted => "course_completed"
    case QuizGraded => "quiz_graded"
    case CertificateIssued => "certificate_issued"
    case General => "general"
    case OtherType(s) => s
  }

  /** The type a stored tag denotes. */
  function TypeOfTag(s: string): (r: NotificationType)
    ensures r.OtherType? <==>
      s !in {"lesson_added", "enrollment", "course_completed", "quiz_graded", "certificate_issued", "general"}
    ensures TypeTag(r) == s
  {
    if s == "lesson_added" then LessonAdded
    else if s == "enrollment" then Enrollment
    else if s == "course_completed" then CourseCompleted
    else if s == "quiz_graded" then QuizGraded
    else if s == "certificate_issued" then CertificateIssued
    else if s == "general" then General
    else OtherType(s)
  }

  /** Reading a declared type's tag back gives the type. */
  lemma TagRoundTrip(t: NotificationType)
    ensures TypeOfTag(TypeTag(t)) == t ||
      (t.OtherType? && TypeTag(t) in {"lesson_added", "enrollment", "course_completed", "quiz_graded", "certificate_issued", "general"})
  {
  }

  datatype Notification = Notification(user: nat, title: string, message: string, ntype: NotificationType, isRead: bool)

  /** A new notification is unread. */
  function NewNotification(user: nat, title: string, message: string, ntype: NotificationType): (n: Notification)
    ensures !n.isRead && n.user == user && n.ntype == ntype
  {
    Notification(user, title, message, ntype, false)
  }

  /** The number of `user`'s unread notifications. */
  function UnreadCount(ns: seq<Notification>, user: nat): (n: nat)
    ensures n <= |ns|
  {
    if ns == [] then 0
    else UnreadCount(ns[..|ns| - 1], user) + (if ns[|ns| - 1].user == user && !ns[|ns| - 1].isRead then 1 else 0)
  }

  /** The count is 0 exactly when every notification of the user is read. */
  lemma {:induction false} UnreadCountZero(ns: seq<Notification>, user: nat)
    ensures UnreadCount(ns, user) == 0 <==> forall i :: 0 <= i < |ns| && ns[i].user == user ==> ns[i].isRead
  {
    if ns != [] {
      var init := ns[..|ns| - 1];
      UnreadCountZero(init, user);
      assert forall i :: 0 <= i < |init| ==> init[i] == ns[i];
    }
  }

  /** Appending a notification for someone else leaves a user's count; an
      unread one of their own adds one. */
  lemma UnreadCountAppend(ns: seq<Notification>, n: Notification, user: nat)
    ensures UnreadCount(ns + [n], user) == UnreadCount(ns, user) + (if n.user == user && !n.isRead then 1 else 0)
  {
    assert (ns + [n])[..|ns|] == ns;
  }

  /** `mark_read`: only the caller's own notification is found (otherwise
      not found and nothing changes); it alone becomes read. */
  function MarkRead(ns: seq<Notification>, id: nat, user: nat): (r: Option<seq<Notification>>)
    ensures r.None? <==> !(id < |ns| && ns[id].user == user)
    ensures r.Some? ==> (|r.value| == |ns| && r.value[id] == ns[id].(isRead := true) &&
      forall i :: 0 <= i < |ns| && i != id ==> r.value[i] == ns[i])
  {
    if id < |ns| && ns[id].user == user then Some(ns[id := ns[id].(isRead := true)]) else None
  }

  /** Marking the same notification twice is the same as once. */
  lemma MarkReadIdempotent(ns: seq<Notification>, id: nat, user: nat)
    requires MarkRead(ns, id, user).Some?
    ensures MarkRead(MarkRead(ns, id, user).value, id, user) == MarkRead(ns, id, user)
  {
    var once := MarkRead(ns, id, user).value;
    var twice := MarkRead(once, id, user).value;
    assert twice == once;
  }

  /** `mark_all_read`: the caller's notifications become read; those of
      other users are untouched. */
  function MarkAllRead(ns: seq<Notification>, user: nat): (r: seq<Notification>)
    ensures |r| == |ns|
    ensures forall i :: 0 <= i < |ns| ==>
      r[i] == if ns[i].user == user then ns[i].(isRead := true) else ns[i]
  {
    if ns == [] then []
    else
      var n := ns[0];
      [if n.user == user then n.(isRead := true) else n] + MarkAllRead(ns[1..], user)
  }

  /** Afterwards the caller has nothing unread, and every other user's count
      is what it was. */
  lemma MarkAllReadClears(ns: seq<Notification>, user: nat, other: nat)
    requires other != user
    ensures UnreadCount(MarkAllRead(ns, user), user) == 0
    ensures UnreadCount(MarkAllRead(ns, user), other) == UnreadCount(ns, other)
  {
    UnreadCountZero(MarkAllRead(ns, user), user);
    UnreadCountOthers(ns, MarkAllRead(ns, user), other);
  }

  /** Two tables that agree on `user`'s notifications give the same count. */
  lemma {:induction false} UnreadCountOthers(ns: seq<Notification>, ms: seq<Notification>, user: nat)
    requires |ns| == |ms|
    requires forall i :: 0 <= i < |ns| ==> (ns[i].user == user || ms[i].user == user) ==> ns[i] == ms[i]
    ensures UnreadCount(ms, user) == UnreadCount(ns, user)
  {
    if ns != [] {
      UnreadCountOthers(ns[..|ns| - 1], ms[..|ms| - 1], user);
    }
  }

  /** The ids of `user`'s notifications, newest first. */
  function ListIds(ns: seq<Notification>, user: nat): (r: seq<nat>)
    ensures forall id: nat :: id in r <==> id < |ns| && ns[id].user == user
    ensures forall i, j :: 0 <= i < j < |r| ==> r[i] > r[j]
  {
    if ns == [] then []
    else
      var rest := ListIds(ns[..|ns| - 1], user);
      assert forall k :: 0 <= k < |rest| ==> rest[k] in rest && rest[k] < |ns| - 1;
      (if ns[|ns| - 1].user == user then [|ns| - 1] else []) + rest
  }
}
