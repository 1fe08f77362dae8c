/**
 * The display order of the task list (src/components/app/task-list.tsx): an
 * empty list shows the empty state; otherwise a sorted copy is shown, ordered
 * by the comparator `Compare`. The library sort is modelled by a stable
 * insertion sort driven by the same comparator.
 */
module TaskList {
  import opened Types

  /**
   * The comparator: negative puts `a` first. Incomplete before complete; then,
   * when both scores are present and differ, the higher score; otherwise the
   * earlier due date.
   */
  function Compare(a: Task, b: Task): (r: int)
    ensures a.isComplete != b.isComplete ==> (r < 0 <==> !a.isComplete) && r != 0
    ensures a.isComplete == b.isComplete && a.priorityScore.Some? && b.priorityScore.Some?
            && a.priorityScore != b.priorityScore ==>
              (r < 0 <==> a.priorityScore.value > b.priorityScore.value) && r != 0
    ensures a.isComplete == b.isComplete
            && (a.priorityScore.None? || b.priorityScore.None? || a.priorityScore == b.priorityScore) ==>
              (r < 0 <==> a.dueDate < b.dueDate) && (r == 0 <==> a.dueDate == b.dueDate)
  {
    if a.isComplete != b.isComplete then
      (if a.isComplete then 1 else -1)
    else if a.priorityScore.Some? && b.priorityScore.Some? && a.priorityScore.value != b.priorityScore.value then
      b.priorityScore.value - a.priorityScore.value
    else
      a.dueDate - b.dueDate
  }

  /** `Compare(a, b)` and `Compare(b, a)` have opposite signs, or are both zero. */
  lemma CompareAntisymmetric(a: Task, b: Task)
    ensures Compare(a, b) < 0 <==> Compare(b, a) > 0
    ensures Compare(a, b) == 0 <==> Compare(b, a) == 0
  {
  }

  /** The comparator is not transitive once scored and unscored tasks share a completion group. */
  lemma CompareNotTransitive()
    ensures !(forall a: Task, b: Task, c: Task :: Compare(a, b) < 0 && Compare(b, c) < 0 ==> Compare(a, c) < 0)
  {
    var a := Task("a", "a", None, 10, Low, false, Some(20), None);
    var b := Task("b", "b", None, 5, Low, false, None, None);
    var c := Task("c", "c", None, 1, Low, false, Some(10), None);
    assert Compare(a, c) < 0 && Compare(c, b) < 0 && Compare(b, a) < 0;
  }

  /** Scored and unscored tasks are not mixed within one completion group. */
  predicate Compatible(a: Task, b: Task)
  {
    a.isComplete == b.isComplete ==> a.priorityScore.Some? == b.priorityScore.Some?
  }

  /** Within each completion group, either every task is scored or none is. */
  predicate ScoreHomogeneous(s: seq<Task>)
  {
    forall a, b :: a in s && b in s ==> Compatible(a, b)
  }

  /** Among compatible tasks, "not after" is transitive. */
  lemma CompareTransitive(a: Task, b: Task, c: Task)
    requires Compatible(a, b) && Compatible(b, c) && Compatible(a, c)
    requires Compare(a, b) <= 0 && Compare(b, c) <= 0
    ensures Compare(a, c) <= 0
  {
  }

  /** Every incomplete task precedes every complete task. */
  predicate CompletionPartitioned(s: seq<Task>)
  {
    forall i, j :: 0 <= i < j < |s| && s[i].isComplete ==> s[j].isComplete
  }

  /** No task is placed after one the comparator puts after it. */
  predicate Sorted(s: seq<Task>)
  {
    forall i, j :: 0 <= i < j < |s| ==> Compare(s[i], s[j]) <= 0
  }

  /** Places `x` before the first element it does not come after. */
  function Insert(x: Task, s: seq<Task>): (r: seq<Task>)
    ensures |r| == |s| + 1
    ensures multiset(r) == multiset(s) + multiset{x}
  {
    if s == [] then [x]
    else if Compare(x, s[0]) <= 0 then [x] + s
    else
      assert s == [s[0]] + s[1..];
      [s[0]] + Insert(x, s[1..])
  }

  lemma {:induction false} InsertPartitioned(x: Task, s: seq<Task>)
    requires CompletionPartitioned(s)
    ensures CompletionPartitioned(Insert(x, s))
  {
    if s != [] && Compare(x, s[0]) > 0 {
      var u := Insert(x, s[1..]);
      InsertPartitioned(x, s[1..]);
      if s[0].isComplete {
        forall y | y in u ensures y.isComplete {
          assert y in multiset(u);
          assert y in s[1..] || y == x;
        }
      }
      var r := [s[0]] + u;
      forall i, j | 0 <= i < j < |r| && r[i].isComplete ensures r[j].isComplete {
        if i == 0 {
          assert r[j] in u;
        }
      }
    }
  }

  /** The sorted copy: a permutation of the input with incomplete tasks first. */
  function SortForDisplay(tasks: seq<Task>): (r: seq<Task>)
    ensures |r| == |tasks|
    ensures multiset(r) == multiset(tasks)
    ensures CompletionPartitioned(r)
  {
    if tasks == [] then []
    else
      assert tasks == [tasks[0]] + tasks[1..];
      var rest := SortForDisplay(tasks[1..]);
      InsertPartitioned(tasks[0], rest);
      Insert(tasks[0], rest)
  }

  /** Every element of `Insert(x, s)` is `x` or an element of `s`. */
  lemma InsertElements(x: Task, s: seq<Task>, y: Task)
    requires y in Insert(x, s)
    ensures y in s || y == x
  {
  }

  /** Homogeneity of `s + [x]` carries over to `s[1..] + [x]`. */
  lemma HomogeneousTail(x: Task, s: seq<Task>)
    requires s != [] && ScoreHomogeneous(s + [x])
    ensures ScoreHomogeneous(s[1..] + [x])
  {
  }

  lemma {:induction false} InsertSorted(x: Task, s: seq<Task>)
    requires Sorted(s)
    requires ScoreHomogeneous(s + [x])
    ensures Sorted(Insert(x, s))
  {
    if s == [] {
    } else if Compare(x, s[0]) <= 0 {
      var r := [x] + s;
      forall i, j | 0 <= i < j < |r| ensures Compare(r[i], r[j]) <= 0 {
        if i == 0 && j > 1 {
          assert x in s + [x] && s[0] in s + [x] && s[j - 1] in s + [x];
          CompareTransitive(x, s[0], s[j - 1]);
        }
      }
    } else {
      HomogeneousTail(x, s);
      InsertSorted(x, s[1..]);
      InsertAfterHead(x, s);
    }
  }

  /** When `x` goes after the head, the head precedes everything `Insert` builds behind it. */
  lemma HeadPrecedesInsert(x: Task, s: seq<Task>, y: Task)
    requires s != [] && Compare(x, s[0]) > 0 && Sorted(s)
    requires y in Insert(x, s[1..])
    ensures Compare(s[0], y) <= 0
  {
    InsertElements(x, s[1..], y);
    if y == x {
      CompareAntisymmetric(x, s[0]);
    } else {
      var k :| 0 <= k < |s[1..]| && s[1..][k] == y;
      assert s[k + 1] == y;
    }
  }

  lemma InsertAfterHead(x: Task, s: seq<Task>)
    requires s != [] && Compare(x, s[0]) > 0
    requires Sorted(s) && Sorted(Insert(x, s[1..]))
    ensures Sorted(Insert(x, s))
  {
    var u := Insert(x, s[1..]);
    var r := [s[0]] + u;
    assert r == Insert(x, s);
    forall i, j | 0 <= i < j < |r| ensures Compare(r[i], r[j]) <= 0 {
      if i == 0 {
        HeadPrecedesInsert(x, s, r[j]);
      } else {
        assert r[i] == u[i - 1] && r[j] == u[j - 1];
      }
    }
  }

  /** Under score homogeneity the sorted copy is in comparator order. */
  lemma {:induction false} SortedWhenHomogeneous(tasks: seq<Task>)
    requires ScoreHomogeneous(tasks)
    ensures Sorted(SortForDisplay(tasks))
  {
    if tasks != [] {
      var t := tasks[1..];
      assert ScoreHomogeneous(t) by {
        forall a, b | a in t && b in t ensures Compatible(a, b) {
          assert a in tasks && b in tasks;
        }
      }
      SortedWhenHomogeneous(t);
      var u := SortForDisplay(t);
      assert ScoreHomogeneous(u + [tasks[0]]) by {
        forall a, b | a in u + [tasks[0]] && b in u + [tasks[0]] ensures Compatible(a, b) {
          assert a in multiset(u) || a == tasks[0];
          assert b in multiset(u) || b == tasks[0];
          assert a in tasks && b in tasks;
        }
      }
      InsertSorted(tasks[0], u);
    }
  }

  /**
   * What the sorted copy promises field by field when the scores are
   * homogeneous: incomplete first; a higher score first when both are scored
   * and differ; otherwise an earlier-or-equal due date first.
   */
  lemma DisplayOrder(tasks: seq<Task>, i: int, j: int)
    requires ScoreHomogeneous(tasks)
    requires 0 <= i < j < |tasks|
    ensures var s := SortForDisplay(tasks);
      && (s[i].isComplete ==> s[j].isComplete)
      && ((s[i].isComplete == s[j].isComplete && s[i].priorityScore.Some? && s[j].priorityScore.Some?
           && s[i].priorityScore != s[j].priorityScore) ==> s[i].priorityScore.value > s[j].priorityScore.value)
      && ((s[i].isComplete == s[j].isComplete
           && (s[i].priorityScore.None? || s[j].priorityScore.None? || s[i].priorityScore == s[j].priorityScore))
          ==> s[i].dueDate <= s[j].dueDate)
  {
    var s := SortForDisplay(tasks);
    SortedWhenHomogeneous(tasks);
    assert Compare(s[i], s[j]) <= 0;
  }

  datatype View = EmptyState | Listing(sorted: seq<Task>)

  /** `TaskList`: the empty state for no tasks, else the sorted copy; the input itself is left as it is. */
  function TaskListView(tasks: seq<Task>): (v: View)
    ensures v.EmptyState? <==> |tasks| == 0
    ensures v.Listing? ==> multiset(v.sorted) == multiset(tasks) && CompletionPartitioned(v.sorted)
  {
    if |tasks| == 0 then EmptyState else Listing(SortForDisplay(tasks))
  }
}
