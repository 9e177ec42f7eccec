/** The values the component derives from its state on every render: the
    filtered list, the sorted list shown to the user and the aggregate counts. */
module Views {
  import opened Tasks

  /** The filter tabs: 'all' | 'done' | 'todo' | 'important'. */
  datatype Filter = All | Done | Todo | Important

  /** The predicate of `filteredTasks` for each tab: 'done' shows the completed
      tasks, 'todo' the pending ones, 'important' the important pending ones
      (never a completed one) and 'all' every task. */
  function Shows(f: Filter, t: Task): (b: bool)
    ensures f == All ==> b
    ensures f == Done ==> (b <==> t.done)
    ensures f == Todo ==> (b <==> !t.done)
    ensures f == Important ==> (b <==> t.important && !t.done)
    ensures f == Important && b ==> !t.done
  {
    match f
    case Done => t.done
    case Todo => !t.done
    case Important => t.important && !t.done
    case All => true
  }

  /** `filteredTasks`: the tasks the active tab shows, in list order. */
  function FilteredTasks(ts: seq<Task>, f: Filter): (r: seq<Task>)
    ensures IsSubsequence(r, ts)
    ensures forall t :: multiset(r)[t] == if Shows(f, t) then multiset(ts)[t] else 0
    ensures f == All ==> r == ts
  {
    var keep := t => Shows(f, t);
    SelectSpec(ts, keep);
    if f == All then SelectAll(ts, keep); Select(ts, keep)
    else Select(ts, keep)
  }

  /** Each tab keeps exactly the tasks its predicate names. */
  lemma FilteredMembers(ts: seq<Task>, f: Filter, t: Task)
    ensures f == Done ==> (t in FilteredTasks(ts, f) <==> t in ts && t.done)
    ensures f == Todo ==> (t in FilteredTasks(ts, f) <==> t in ts && !t.done)
    ensures f == Important ==> (t in FilteredTasks(ts, f) <==> t in ts && t.important && !t.done)
    ensures f == All ==> (t in FilteredTasks(ts, f) <==> t in ts)
  {
    var r := FilteredTasks(ts, f);
    assert t in r <==> multiset(r)[t] > 0;
  }

  /** The comparator passed to `sort`: important first, then not done, then
      the most recently created first. */
  function Compare(a: Task, b: Task): (r: int)
    ensures a.important != b.important ==> (r < 0 <==> a.important) && (r == -1 || r == 1)
    ensures a.important == b.important && a.done != b.done ==> (r < 0 <==> !a.done) && (r == -1 || r == 1)
    ensures a.important == b.important && a.done == b.done ==>
      (r < 0 <==> a.createdAt > b.createdAt) && (r == 0 <==> a.createdAt == b.createdAt)
  {
    if a.important != b.important then (if a.important then -1 else 1)
    else if a.done != b.done then (if a.done then 1 else -1)
    else b.createdAt - a.createdAt
  }

  /** The sort key, which decides the comparator: tasks with equal keys compare as 0. */
  datatype Key = Key(important: bool, done: bool, createdAt: int)

  function KeyOf(t: Task): Key {
    Key(t.important, t.done, t.createdAt)
  }

  function KeyIs(k: Key): Task -> bool {
    (t: Task) => KeyOf(t) == k
  }

  /** The comparator is antisymmetric, total and transitive, and it is 0 exactly
      on equal keys, so it is a consistent comparator for `sort`. */
  lemma CompareIsPreorder(a: Task, b: Task, c: Task)
    ensures Compare(a, b) == -Compare(b, a)
    ensures Compare(a, b) == 0 <==> KeyOf(a) == KeyOf(b)
    ensures Compare(a, b) <= 0 && Compare(b, c) <= 0 ==> Compare(a, c) <= 0
  {
  }

  /** Every adjacent pair is in comparator order. */
  predicate Sorted(s: seq<Task>) {
    forall i :: 0 <= i < |s| - 1 ==> Compare(s[i], s[i + 1]) <= 0
  }

  /** Puts `x` in front of the first element that does not sort before it. */
  function Insert(x: Task, s: seq<Task>): (r: seq<Task>)
    ensures multiset(r) == multiset(s) + multiset{x}
    ensures |r| == |s| + 1
    ensures r[0] == x || (s != [] && r[0] == s[0])
  {
    if s == [] || Compare(x, s[0]) <= 0 then [x] + s
    else
      assert s == [s[0]] + s[1..];
      [s[0]] + Insert(x, s[1..])
  }

  /** Inserting into a sorted list keeps it sorted. */
  lemma {:induction false} InsertSorted(x: Task, s: seq<Task>)
    requires Sorted(s)
    ensures Sorted(Insert(x, s))
  {
    if s != [] && Compare(x, s[0]) > 0 {
      var tail := s[1..];
      assert Sorted(tail) by {
        forall i | 0 <= i < |tail| - 1 ensures Compare(tail[i], tail[i + 1]) <= 0 {
          assert tail[i] == s[i + 1] && tail[i + 1] == s[i + 2];
        }
      }
      InsertSorted(x, tail);
      CompareIsPreorder(x, s[0], x);
      var rest := Insert(x, tail);
      var r := [s[0]] + rest;
      assert Compare(r[0], r[1]) <= 0;
      forall i | 1 <= i < |r| - 1 ensures Compare(r[i], r[i + 1]) <= 0 {
        assert r[i] == rest[i - 1] && r[i + 1] == rest[i];
      }
    }
  }

  /** `[...s].sort(Compare)`, modelled as a stable insertion sort (the order
      `Array.prototype.sort` is required to produce for this comparator). */
  function Sort(s: seq<Task>): (r: seq<Task>)
    ensures multiset(r) == multiset(s)
    ensures |r| == |s|
    ensures Sorted(r)
  {
    if s == [] then []
    else
      assert s == [s[0]] + s[1..];
      InsertSorted(s[0], Sort(s[1..]));
      Insert(s[0], Sort(s[1..]))
  }

  lemma {:induction false} InsertStable(x: Task, s: seq<Task>, k: Key)
    ensures Select(Insert(x, s), KeyIs(k)) == Select([x] + s, KeyIs(k))
  {
    if s == [] || Compare(x, s[0]) <= 0 {
    } else {
      CompareIsPreorder(x, s[0], x);
      assert s == [s[0]] + s[1..];
      SelectCons(s[0], Insert(x, s[1..]), KeyIs(k));
      InsertStable(x, s[1..], k);
      SelectCons(x, s[1..], KeyIs(k));
      SelectCons(x, s, KeyIs(k));
      SelectCons(s[0], s[1..], KeyIs(k));
    }
  }

  /** Sorting is stable: the tasks of each key keep their relative order. */
  lemma {:induction false} SortStable(s: seq<Task>, k: Key)
    ensures Select(Sort(s), KeyIs(k)) == Select(s, KeyIs(k))
  {
    if s != [] {
      assert s == [s[0]] + s[1..];
      InsertStable(s[0], Sort(s[1..]), k);
      SelectCons(s[0], Sort(s[1..]), KeyIs(k));
      SortStable(s[1..], k);
      SelectCons(s[0], s[1..], KeyIs(k));
    }
  }

  /** Sorted adjacent pairs give every pair in comparator order. */
  lemma {:induction false} SortedAllPairs(s: seq<Task>)
    requires Sorted(s)
    ensures forall i, j :: 0 <= i < j < |s| ==> Compare(s[i], s[j]) <= 0
  {
    if |s| > 1 {
      SortedAllPairs(s[1..]);
      forall j | 1 < j < |s| ensures Compare(s[0], s[j]) <= 0 {
        assert s[1..][j - 1] == s[j];
        CompareIsPreorder(s[0], s[1], s[j]);
      }
    }
  }

  /** The order the user sees, spelled out field by field. */
  predicate InDisplayOrder(s: seq<Task>) {
    forall i, j :: 0 <= i < j < |s| ==>
      && (s[j].important ==> s[i].important)
      && (s[i].important == s[j].important && s[i].done ==> s[j].done)
      && (s[i].important == s[j].important && s[i].done == s[j].done ==> s[i].createdAt >= s[j].createdAt)
  }

  /** `sortedTasks`: a permutation of `filteredTasks`, sorted by the comparator,
      stable among equal keys, hence important first, then pending, then newest. */
  function SortedTasks(ts: seq<Task>, f: Filter): (r: seq<Task>)
    ensures multiset(r) == multiset(FilteredTasks(ts, f))
    ensures Sorted(r)
    ensures InDisplayOrder(r)
  {
    var r := Sort(FilteredTasks(ts, f));
    SortedAllPairs(r);
    r
  }

  /** The relative order of equal-key tasks in `sortedTasks` is list order. */
  lemma SortedTasksStable(ts: seq<Task>, f: Filter, k: Key)
    ensures Select(SortedTasks(ts, f), KeyIs(k)) == Select(FilteredTasks(ts, f), KeyIs(k))
  {
    SortStable(FilteredTasks(ts, f), k);
  }

  predicate IsDone(t: Task) { t.done }

  predicate IsPending(t: Task) { !t.done }

  predicate IsPendingImportant(t: Task) { t.important && !t.done }

  /** `completedTasks`: `tasks.filter(task => task.done).length`. */
  function CompletedCount(ts: seq<Task>): (r: nat)
    ensures r <= |ts|
    ensures r == 0 <==> forall i :: 0 <= i < |ts| ==> !ts[i].done
    ensures r == |ts| <==> forall i :: 0 <= i < |ts| ==> ts[i].done
  {
    SelectExtremes(ts, IsDone);
    |Select(ts, IsDone)|
  }

  /** `importantTasks`: `tasks.filter(task => task.important && !task.done).length`. */
  function ImportantCount(ts: seq<Task>): (r: nat)
    ensures r <= |ts|
    ensures r == 0 <==> forall i :: 0 <= i < |ts| ==> !(ts[i].important && !ts[i].done)
  {
    SelectExtremes(ts, IsPendingImportant);
    |Select(ts, IsPendingImportant)|
  }

  /** The completed count is at most the total, and so is the completed count
      plus the important (necessarily pending) count. */
  lemma {:induction false} CountBounds(ts: seq<Task>)
    ensures CompletedCount(ts) <= |ts|
    ensures ImportantCount(ts) + CompletedCount(ts) <= |ts|
  {
    if ts != [] {
      assert ts == [ts[0]] + ts[1..];
      SelectCons(ts[0], ts[1..], IsDone);
      SelectCons(ts[0], ts[1..], IsPendingImportant);
      CountBounds(ts[1..]);
    }
  }

  /** The 'done' and 'important' tabs hold `completedTasks` and `importantTasks`
      tasks, and the 'todo' tab holds the rest of the 'done' tab's complement. */
  lemma FilterCounts(ts: seq<Task>)
    ensures |FilteredTasks(ts, Done)| == CompletedCount(ts)
    ensures |FilteredTasks(ts, Important)| == ImportantCount(ts)
    ensures |FilteredTasks(ts, Todo)| == |ts| - CompletedCount(ts)
  {
    SelectSame(ts, t => Shows(Done, t), IsDone);
    SelectSame(ts, t => Shows(Important, t), IsPendingImportant);
    SelectSame(ts, t => Shows(Todo, t), IsPending);
    PendingCounts(ts);
  }

  /** `clearCompleted`'s filter: the tasks not done. */
  function Pending(ts: seq<Task>): (r: seq<Task>)
    ensures IsSubsequence(r, ts)
    ensures forall t :: multiset(r)[t] == if t.done then 0 else multiset(ts)[t]
  {
    SelectSpec(ts, IsPending);
    Select(ts, IsPending)
  }

  /** Clearing the completed tasks leaves none completed and removes exactly
      as many tasks as were completed. */
  lemma {:induction false} PendingCounts(ts: seq<Task>)
    ensures CompletedCount(Pending(ts)) == 0
    ensures |Pending(ts)| == |ts| - CompletedCount(ts)
  {
    if ts == [] {
    } else {
      assert ts == [ts[0]] + ts[1..];
      SelectCons(ts[0], ts[1..], IsPending);
      SelectCons(ts[0], ts[1..], IsDone);
      PendingCounts(ts[1..]);
      if !ts[0].done {
        SelectCons(ts[0], Pending(ts[1..]), IsDone);
      }
    }
  }

  /** `completionPercentage`: `Math.round(completed / total * 100)`, 0 for an
      empty list. Written in integers: the nearest whole percentage, halves
      rounded up, which is `floor((200 * completed + total) / (2 * total))`. */
  function CompletionPercentage(ts: seq<Task>): (r: int)
    ensures 0 <= r <= 100
    ensures ts == [] ==> r == 0
    ensures ts != [] ==> 2 * |ts| * r <= 200 * CompletedCount(ts) + |ts| < 2 * |ts| * r + 2 * |ts|
    ensures CompletedCount(ts) == 0 ==> r == 0
    ensures ts != [] && CompletedCount(ts) == |ts| ==> r == 100
  {
    var total := |ts|;
    var completed := CompletedCount(ts);
    if total > 0 then
      CountBounds(ts);
      RoundedPercent(completed, total)
    else 0
  }

  function RoundedPercent(c: nat, t: nat): (r: int)
    requires 0 < t && c <= t
    ensures 0 <= r <= 100
    ensures 2 * t * r <= 200 * c + t < 2 * t * r + 2 * t
    ensures c == 0 ==> r == 0
    ensures c == t ==> r == 100
  {
    var n := 200 * c + t;
    var d := 2 * t;
    var q := n / d;
    DivBounds(n, d);
    assert n < d * 101 by { assert d * 101 == 202 * t; }
    QuotientBelow(n, d, 101);
    assert c == 0 ==> q == 0 by {
      if c == 0 {
        QuotientBelow(n, d, 1);
      }
    }
    assert c == t ==> q == 100 by {
      if c == t {
        assert n == d * 100 + t;
        QuotientExact(d, 100, t);
      }
    }
    q
  }

  lemma DivBounds(n: nat, d: nat)
    requires 0 < d
    ensures d * (n / d) <= n < d * (n / d) + d
  {
  }

  lemma QuotientBelow(n: nat, d: nat, m: nat)
    requires 0 < d && n < d * m
    ensures n / d < m
  {
    DivBounds(n, d);
    if n / d >= m {
      MulMonotone(d, m, n / d);
    }
  }

  lemma QuotientExact(d: nat, q: nat, rem: nat)
    requires rem < d
    ensures (d * q + rem) / d == q
  {
    var n := d * q + rem;
    DivBounds(n, d);
    var k := n / d;
    if k > q {
      MulMonotone(d, q + 1, k);
    }
    if k < q {
      MulMonotone(d, k + 1, q);
    }
  }

  lemma MulMonotone(d: nat, a: nat, b: nat)
    requires a <= b
    ensures d * a <= d * b
  {
  }
}
