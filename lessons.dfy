/**
 * Lessons of a course and the navigation rules of the lesson views: the
 * list sorted by `order`, the previous and next lesson around the one being
 * viewed, the lesson to go to after marking one complete, and the order
 * proposed for a new lesson.
 *
 * `order_by('order')` leaves ties to the database; here ties keep table
 * order (the sort is stable).
 */
module Lessons {
  import opened Wrappers

  datatype Lesson = Lesson(id: nat, course: nat, title: string, order: int)

  /** No two lessons share an id (the primary key). */
  predicate DistinctIds(ls: seq<Lesson>) {
    forall i, j :: 0 <= i < j < |ls| ==> ls[i].id != ls[j].id
  }

  /** The first lesson in the table with this id, if any. */
  function FindLesson(ls: seq<Lesson>, id: nat): (r: Option<Lesson>)
    ensures r.Some? ==> r.value in ls && r.value.id == id
    ensures r.None? <==> forall i :: 0 <= i < |ls| ==> ls[i].id != id
  {
    Find(ls, (l: Lesson) => l.id == id)
  }

  /** `Lesson.objects.filter(course=course)`, in table order. */
  function CourseLessons(ls: seq<Lesson>, course: nat): (r: seq<Lesson>)
    ensures forall l :: l in r <==> l in ls && l.course == course
    ensures |r| <= |ls|
  {
    if ls == [] then []
    else (if ls[0].course == course then [ls[0]] else []) + CourseLessons(ls[1..], course)
  }

  /** Non-decreasing in `order`. */
  predicate SortedByOrder(s: seq<Lesson>) {
    forall i, j :: 0 <= i < j < |s| ==> s[i].order <= s[j].order
  }

  /** Puts `x` in front of the first lesson of `s` whose order is not
      smaller, so that `x` stays ahead of the lessons it preceded. */
  function InsertByOrder(x: Lesson, s: seq<Lesson>): (r: seq<Lesson>)
    ensures multiset(r) == multiset(s) + multiset{x}
  {
    if s == [] || x.order <= s[0].order then [x] + s
    else
      assert s == [s[0]] + s[1..];
      [s[0]] + InsertByOrder(x, s[1..])
  }

  /** Inserting into a sorted list keeps it sorted. */
  lemma {:induction false} InsertKeepsSorted(x: Lesson, s: seq<Lesson>)
    requires SortedByOrder(s)
    ensures SortedByOrder(InsertByOrder(x, s))
  {
    if s != [] && x.order > s[0].order {
      var rest := InsertByOrder(x, s[1..]);
      InsertKeepsSorted(x, s[1..]);
      forall k | 0 <= k < |rest| ensures s[0].order <= rest[k].order {
        assert rest[k] in multiset(rest);
        assert rest[k] in multiset(s[1..]) || rest[k] == x;
      }
    }
  }

  /** `order_by('order')`: the same lessons, sorted by order. */
  function SortByOrder(ls: seq<Lesson>): (r: seq<Lesson>)
    ensures multiset(r) == multiset(ls)
  {
    if ls == [] then []
    else
      assert ls == [ls[0]] + ls[1..];
      InsertByOrder(ls[0], SortByOrder(ls[1..]))
  }

  /** The sorted list is sorted. */
  lemma {:induction false} SortIsSorted(ls: seq<Lesson>)
    ensures SortedByOrder(SortByOrder(ls))
  {
    if ls != [] {
      SortIsSorted(ls[1..]);
      InsertKeepsSorted(ls[0], SortByOrder(ls[1..]));
    }
  }

  /** Sorting keeps exactly the lessons it was given. */
  lemma SortedMembers(ls: seq<Lesson>)
    ensures |SortByOrder(ls)| == |ls|
    ensures forall l :: l in SortByOrder(ls) <==> l in ls
  {
    var r := SortByOrder(ls);
    assert |r| == |multiset(r)| == |multiset(ls)| == |ls|;
    forall l ensures l in r <==> l in ls {
      assert l in r <==> l in multiset(r);
      assert l in ls <==> l in multiset(ls);
    }
  }

  /** `prev` and `next` are the neighbours of lesson `id` in `ls`. */
  predicate Adjacent(ls: seq<Lesson>, id: nat, prev: Option<Lesson>, next: Option<Lesson>) {
    forall i :: 0 <= i < |ls| && ls[i].id == id ==>
      prev == (if i > 0 then Some(ls[i - 1]) else None) &&
      next == (if i < |ls| - 1 then Some(ls[i + 1]) else None)
  }

  /** The previous and next lesson around lesson `id` in `ls`, as the
      navigation loop of the lesson page finds them: nothing before the
      first lesson, nothing after the last, and nothing at all when `id` is
      not in the list. */
  method Neighbours(ls: seq<Lesson>, id: nat) returns (prev: Option<Lesson>, next: Option<Lesson>)
    requires DistinctIds(ls)
    ensures (forall i :: 0 <= i < |ls| ==> ls[i].id != id) ==> prev.None? && next.None?
    ensures Adjacent(ls, id, prev, next)
  {
    prev, next := None, None;
    var i := 0;
    while i < |ls|
      invariant 0 <= i <= |ls|
      invariant (forall k :: 0 <= k < i ==> ls[k].id != id) ==> prev.None? && next.None?
      invariant forall k :: 0 <= k < i && ls[k].id == id ==>
        prev == (if k > 0 then Some(ls[k - 1]) else None) &&
        next == (if k < |ls| - 1 then Some(ls[k + 1]) else None)
    {
      if ls[i].id == id {
        if i > 0 {
          prev := Some(ls[i - 1]);
        }
        if i < |ls| - 1 {
          next := Some(ls[i + 1]);
        }
      }
      i := i + 1;
    }
    assert i == |ls|;
  }

  /** In a list sorted by order, the neighbours bracket the current lesson. */
  lemma NeighboursBracket(ls: seq<Lesson>, i: nat)
    requires SortedByOrder(ls) && i < |ls|
    ensures i > 0 ==> ls[i - 1].order <= ls[i].order
    ensures i < |ls| - 1 ==> ls[i].order <= ls[i + 1].order
  {
  }

  /** The course's lessons whose order is strictly greater than `order`. */
  function LessonsAfter(ls: seq<Lesson>, course: nat, order: int): (r: seq<Lesson>)
    ensures forall l :: l in r <==> l in ls && l.course == course && l.order > order
  {
    if ls == [] then []
    else
      (if ls[0].course == course && ls[0].order > order then [ls[0]] else [])
        + LessonsAfter(ls[1..], course, order)
  }

  /** Where `mark_lesson_complete` sends the student next: the first lesson
      of the course, by order, among those after the current order. */
  function NextLessonAfter(ls: seq<Lesson>, course: nat, order: int): Option<Lesson> {
    var after := SortByOrder(LessonsAfter(ls, course, order));
    if after == [] then None else Some(after[0])
  }

  /** The next lesson is a lesson of the same course with the smallest order
      strictly greater than the current one; there is none exactly when no
      lesson of the course comes later. */
  lemma NextLessonAfterIsLeast(ls: seq<Lesson>, course: nat, order: int)
    ensures NextLessonAfter(ls, course, order).None? <==>
      forall l :: l in ls && l.course == course ==> l.order <= order
    ensures NextLessonAfter(ls, course, order).Some? ==>
      var n := NextLessonAfter(ls, course, order).value;
      n in ls && n.course == course && n.order > order &&
      forall l :: l in ls && l.course == course && l.order > order ==> n.order <= l.order
  {
    var after := LessonsAfter(ls, course, order);
    var sorted := SortByOrder(after);
    SortedMembers(after);
    SortIsSorted(after);
    if sorted != [] {
      assert sorted[0] in sorted;
      SortedHeadLeast(sorted);
    } else {
      forall l | l in ls && l.course == course
        ensures l.order <= order
      {
        assert l !in after;
      }
    }
  }

  /** The head of a sorted list has the smallest order. */
  lemma SortedHeadLeast(s: seq<Lesson>)
    requires SortedByOrder(s) && s != []
    ensures forall l :: l in s ==> s[0].order <= l.order
  {
    forall l | l in s ensures s[0].order <= l.order {
      var k :| 0 <= k < |s| && s[k] == l;
      assert k == 0 || s[0].order <= s[k].order;
    }
  }

  /** The largest order among the lessons. */
  function MaxOrder(ls: seq<Lesson>): (r: int)
    requires ls != []
    ensures exists i :: 0 <= i < |ls| && ls[i].order == r
    ensures forall i :: 0 <= i < |ls| ==> ls[i].order <= r
  {
    if |ls| == 1 then ls[0].order
    else
      var m := MaxOrder(ls[1..]);
      assert forall i :: 1 <= i < |ls| ==> ls[i] == ls[1..][i - 1];
      if ls[0].order >= m then ls[0].order else m
  }

  /** The order offered for a new lesson of the course: one more than the
      largest order of its lessons, or 1 when it has none. */
  function NextOrder(ls: seq<Lesson>, course: nat): int {
    var mine := CourseLessons(ls, course);
    if mine == [] then 1 else MaxOrder(mine) + 1
  }

  /** The offered order is above every existing order of the course, and
      exactly one above the largest of them. */
  lemma NextOrderIsFresh(ls: seq<Lesson>, course: nat)
    ensures forall l :: l in ls && l.course == course ==> l.order < NextOrder(ls, course)
    ensures (forall l :: l in ls ==> l.course != course) <==> NextOrder(ls, course) == 1 && CourseLessons(ls, course) == []
    ensures (exists l :: l in ls && l.course == course) ==>
      exists l :: l in ls && l.course == course && l.order == NextOrder(ls, course) - 1
  {
    var mine := CourseLessons(ls, course);
    if mine != [] {
      var m := MaxOrder(mine);
      var i :| 0 <= i < |mine| && mine[i].order == m;
      assert mine[i] in ls && mine[i].course == course;
      forall l | l in ls && l.course == course ensures l.order < NextOrder(ls, course) {
        assert l in mine;
        var k :| 0 <= k < |mine| && mine[k] == l;
      }
    } else {
      assert forall l :: l in ls ==> l !in mine;
    }
  }
  // ---------------------------------------------------------------------
  // Distinct ids survive filtering and sorting

  /** The tail of a list with distinct ids has distinct ids, none of them
      the head's. */
  lemma DistinctTail(s: seq<Lesson>)
    requires DistinctIds(s) && s != []
    ensures DistinctIds(s[1..])
    ensures forall l :: l in s[1..] ==> l.id != s[0].id
  {
    forall i, j | 0 <= i < j < |s[1..]| ensures s[1..][i].id != s[1..][j].id {
      assert s[1..][i] == s[i + 1] && s[1..][j] == s[j + 1];
    }
    forall l | l in s[1..] ensures l.id != s[0].id {
      var j :| 0 <= j < |s[1..]| && s[1..][j] == l;
      assert s[j + 1] == l;
    }
  }

  /** Filtering by course keeps the ids distinct. */
  lemma {:induction false} CourseLessonsDistinct(ls: seq<Lesson>, course: nat)
    requires DistinctIds(ls)
    ensures DistinctIds(CourseLessons(ls, course))
  {
    if ls != [] {
      var rest := CourseLessons(ls[1..], course);
      DistinctTail(ls);
      CourseLessonsDistinct(ls[1..], course);
      forall k | 0 <= k < |rest| ensures rest[k].id != ls[0].id {
        assert rest[k] in ls[1..];
      }
    }
  }

  /** Inserting a lesson whose id is new keeps the ids distinct. */
  lemma {:induction false} InsertKeepsDistinct(x: Lesson, s: seq<Lesson>)
    requires DistinctIds(s)
    requires forall l :: l in s ==> l.id != x.id
    ensures DistinctIds(InsertByOrder(x, s))
  {
    if s == [] || x.order <= s[0].order {
      assert forall k :: 0 <= k < |s| ==> s[k] in s;
    } else {
      var rest := InsertByOrder(x, s[1..]);
      DistinctTail(s);
      assert forall l :: l in s[1..] ==> l in s;
      InsertKeepsDistinct(x, s[1..]);
      forall k | 0 <= k < |rest| ensures rest[k].id != s[0].id {
        assert rest[k] in multiset(rest);
        if rest[k] != x {
          assert rest[k] in multiset(s[1..]);
          assert rest[k] in s[1..];
        } else {
          assert s[0] in s;
        }
      }
    }
  }

  /** Sorting keeps the ids distinct. */
  lemma {:induction false} SortKeepsDistinct(ls: seq<Lesson>)
    requires DistinctIds(ls)
    ensures DistinctIds(SortByOrder(ls))
  {
    if ls != [] {
      DistinctTail(ls);
      SortKeepsDistinct(ls[1..]);
      SortedMembers(ls[1..]);
      forall l | l in SortByOrder(ls[1..]) ensures l.id != ls[0].id {
        assert l in ls[1..];
        var j :| 0 <= j < |ls[1..]| && ls[1..][j] == l;
        assert ls[j + 1] == l;
      }
      InsertKeepsDistinct(ls[0], SortByOrder(ls[1..]));
    }
  }

  /** The navigation list of a course: its lessons sorted by order, with
      distinct ids when the table has them. */
  lemma NavigationDistinct(ls: seq<Lesson>, course: nat)
    requires DistinctIds(ls)
    ensures DistinctIds(SortByOrder(CourseLessons(ls, course)))
  {
    CourseLessonsDistinct(ls, course);
    SortKeepsDistinct(CourseLessons(ls, course));
  }

  // ---------------------------------------------------------------------
  // `create_lesson` and `reorder_lessons`

  /** An id above every id in the table, as the database's auto-increment
      hands out. */
  function NewLessonId(ls: seq<Lesson>): (r: nat)
    ensures forall l :: l in ls ==> l.id < r
  {
    if ls == [] then 1
    else
      var m := NewLessonId(ls[..|ls| - 1]);
      assert forall l :: l in ls ==> l in ls[..|ls| - 1] || l == ls[|ls| - 1];
      if ls[|ls| - 1].id < m then m else ls[|ls| - 1].id + 1
  }

  /** Appending a lesson with a new id keeps the ids distinct. */
  lemma AppendKeepsDistinct(ls: seq<Lesson>, l: Lesson)
    requires DistinctIds(ls)
    requires l.id == NewLessonId(ls)
    ensures DistinctIds(ls + [l])
  {
    assert forall k :: 0 <= k < |ls| ==> ls[k] in ls;
  }

  /** One assignment of the reorder loop: the lesson with this id gets the
      new order; every other lesson, and every other column, is kept. */
  function SetOrder(ls: seq<Lesson>, id: nat, order: int): (r: seq<Lesson>)
    ensures |r| == |ls|
    ensures forall i :: 0 <= i < |ls| ==> r[i].id == ls[i].id && r[i].course == ls[i].course && r[i].title == ls[i].title
    ensures forall i :: 0 <= i < |ls| ==> r[i].order == if ls[i].id == id then order else ls[i].order
    ensures SameIds(ls, r)
  {
    seq(|ls|, i requires 0 <= i < |ls| => if ls[i].id == id then ls[i].(order := order) else ls[i])
  }

  /** Two lists with the same ids at every position. */
  predicate SameIds(a: seq<Lesson>, b: seq<Lesson>) {
    |a| == |b| && forall k :: 0 <= k < |a| ==> a[k].id == b[k].id
  }

  /** Lists with the same ids find the same ids and are both keyed
      uniquely or both not. */
  lemma SameIdsFind(a: seq<Lesson>, b: seq<Lesson>, id: nat)
    requires SameIds(a, b)
    ensures FindLesson(a, id).None? <==> FindLesson(b, id).None?
    ensures DistinctIds(a) ==> DistinctIds(b)
  {
  }

  /** The order the last pair for this id assigns, if any pair does. */
  function LastOrderFor(pairs: seq<(nat, int)>, id: nat): (r: Option<int>)
    ensures r.None? <==> forall k :: 0 <= k < |pairs| ==> pairs[k].0 != id
    ensures r.Some? ==> exists k :: 0 <= k < |pairs| && pairs[k] == (id, r.value)
  {
    if pairs == [] then None
    else if pairs[|pairs| - 1].0 == id then Some(pairs[|pairs| - 1].1)
    else
      var r := LastOrderFor(pairs[..|pairs| - 1], id);
      assert forall k :: 0 <= k < |pairs| - 1 ==> pairs[..|pairs| - 1][k] == pairs[k];
      r
  }

  /** The lessons after the reorder loop has applied `pairs` in order. */
  function Reordered(ls: seq<Lesson>, pairs: seq<(nat, int)>): seq<Lesson>
  {
    if pairs == [] then ls
    else SetOrder(Reordered(ls, pairs[..|pairs| - 1]), pairs[|pairs| - 1].0, pairs[|pairs| - 1].1)
  }

  /** The loop of `reorder_lessons` on the lesson table: each pair sets
      the order of the lesson with its id, until an id names no lesson.
      Returns the table and how many pairs were applied. */
  method ApplyOrderPairs(ls: seq<Lesson>, ps: seq<(nat, int)>) returns (r: seq<Lesson>, n: nat)
    ensures n == FoundPrefix(ls, ps)
    ensures r == Reordered(ls, ps[..n])
    ensures SameIds(ls, r)
  {
    r := ls;
    var i := 0;
    while i < |ps|
      invariant 0 <= i <= FoundPrefix(ls, ps)
      invariant r == Reordered(ls, ps[..i])
    {
      ReorderedSameIds(ls, ps[..i]);
      SameIdsFind(ls, r, ps[i].0);
      if FindLesson(r, ps[i].0).None? {
        return r, i;
      }
      ReorderedStep(ls, ps, i);
      r := SetOrder(r, ps[i].0, ps[i].1);
      i := i + 1;
    }
    assert ps[..i] == ps;
    ReorderedSameIds(ls, ps);
    n := i;
  }

  /** Reordering keeps every lesson's id at its position. */
  lemma {:induction false} ReorderedSameIds(ls: seq<Lesson>, pairs: seq<(nat, int)>)
    ensures SameIds(ls, Reordered(ls, pairs))
  {
    if pairs != [] {
      ReorderedSameIds(ls, pairs[..|pairs| - 1]);
    }
  }

  /** One more pair applied to the reordered list. */
  lemma ReorderedStep(ls: seq<Lesson>, pairs: seq<(nat, int)>, i: nat)
    requires i < |pairs|
    ensures Reordered(ls, pairs[..i + 1]) == SetOrder(Reordered(ls, pairs[..i]), pairs[i].0, pairs[i].1)
  {
    assert pairs[..i + 1][..i] == pairs[..i];
  }

  /** After the loop each lesson keeps its id, course and title; its order
      is the one the last pair naming it assigns, and a lesson no pair names
      is unchanged, whatever its course. */
  lemma {:induction false} ReorderedFrame(ls: seq<Lesson>, pairs: seq<(nat, int)>)
    ensures |Reordered(ls, pairs)| == |ls|
    ensures forall i :: 0 <= i < |ls| ==>
      var r := Reordered(ls, pairs)[i];
      r.id == ls[i].id && r.course == ls[i].course && r.title == ls[i].title &&
      r.order == (match LastOrderFor(pairs, ls[i].id) case Some(o) => o case None => ls[i].order)
    ensures forall i :: 0 <= i < |ls| && LastOrderFor(pairs, ls[i].id).None? ==> Reordered(ls, pairs)[i] == ls[i]
  {
    if pairs != [] {
      var init := pairs[..|pairs| - 1];
      ReorderedFrame(ls, init);
    }
  }

  /** The number of leading pairs whose id names a lesson: the loop stops at
      the first pair that does not (`Lesson.DoesNotExist`). */
  function FoundPrefix(ls: seq<Lesson>, pairs: seq<(nat, int)>): (n: nat)
    ensures n <= |pairs|
    ensures forall k :: 0 <= k < n ==> FindLesson(ls, pairs[k].0).Some?
    ensures n < |pairs| ==> FindLesson(ls, pairs[n].0).None?
  {
    if pairs == [] || FindLesson(ls, pairs[0].0).None? then 0
    else 1 + FoundPrefix(ls, pairs[1..])
  }
}
