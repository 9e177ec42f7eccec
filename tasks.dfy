/** The task record and the list operations the handlers are built from:
    `tasks.map(...)` over the tasks with a given id, `tasks.filter(...)` and
    `tasks.find(...)`. */
module Tasks {
  import opened Text

  datatype Option<T> = None | Some(value: T)

  /** One to-do item. `createdAt` is the creation time in milliseconds
      (`Date.getTime()`); `id` is the caller-chosen number (`Date.now()`). */
  datatype Task = Task(id: int, text: string, done: bool, createdAt: int, important: bool)

  /** The three per-task rewrites the handlers perform through `{ ...task, f: v }`. */
  datatype Change = FlipDone | FlipImportant | Retext(text: string)

  /** The rewritten task: the one field the change names is replaced and every
      other field, in particular `id` and `createdAt`, is kept. */
  function Apply(t: Task, c: Change): (r: Task)
    ensures r.id == t.id && r.createdAt == t.createdAt
    ensures r.done == (if c.FlipDone? then !t.done else t.done)
    ensures r.important == (if c.FlipImportant? then !t.important else t.important)
    ensures r.text == (if c.Retext? then c.text else t.text)
  {
    match c
    case FlipDone => t.(done := !t.done)
    case FlipImportant => t.(important := !t.important)
    case Retext(s) => t.(text := s)
  }

  /** `tasks.map(task => task.id === id ? change(task) : task)`: same length, every
      task with the id rewritten, every other task kept, order kept. */
  function UpdateWhere(ts: seq<Task>, id: int, c: Change): (r: seq<Task>)
    ensures |r| == |ts|
  {
    if ts == [] then []
    else [if ts[0].id == id then Apply(ts[0], c) else ts[0]] + UpdateWhere(ts[1..], id, c)
  }

  /** Position by position, the tasks with the id are rewritten and the others kept. */
  lemma {:induction false} UpdateWhereSpec(ts: seq<Task>, id: int, c: Change)
    ensures forall i :: 0 <= i < |ts| ==>
      UpdateWhere(ts, id, c)[i] == (if ts[i].id == id then Apply(ts[i], c) else ts[i])
  {
    if ts != [] {
      UpdateWhereSpec(ts[1..], id, c);
      var r := UpdateWhere(ts, id, c);
      forall i | 1 <= i < |ts|
        ensures r[i] == (if ts[i].id == id then Apply(ts[i], c) else ts[i])
      {
        assert r[i] == UpdateWhere(ts[1..], id, c)[i - 1];
        assert ts[i] == ts[1..][i - 1];
      }
    }
  }

  /** No task carries the id. */
  predicate Absent(ts: seq<Task>, id: int) {
    forall i :: 0 <= i < |ts| ==> ts[i].id != id
  }

  /** An id that no task carries leaves the list identical. */
  lemma UpdateAbsent(ts: seq<Task>, id: int, c: Change)
    requires Absent(ts, id)
    ensures UpdateWhere(ts, id, c) == ts
  {
  }

  /** Flipping the same flag twice gives back the original list. */
  lemma FlipTwice(ts: seq<Task>, id: int, c: Change)
    requires c.FlipDone? || c.FlipImportant?
    ensures UpdateWhere(UpdateWhere(ts, id, c), id, c) == ts
  {
  }

  /** Rewriting the text twice is rewriting it once with the second text. */
  lemma RetextTwice(ts: seq<Task>, id: int, s1: string, s2: string)
    ensures UpdateWhere(UpdateWhere(ts, id, Retext(s1)), id, Retext(s2)) == UpdateWhere(ts, id, Retext(s2))
  {
  }

  /** `a` is `b` with some elements left out, in the same order. */
  predicate IsSubsequence(a: seq<Task>, b: seq<Task>)
    decreases |b|
  {
    if a == [] then true
    else if b == [] then false
    else (a[0] == b[0] && IsSubsequence(a[1..], b[1..])) || IsSubsequence(a, b[1..])
  }

  /** `tasks.filter(keep)`, keeping the tasks that satisfy `keep` in list order. */
  function Select(ts: seq<Task>, keep: Task -> bool): (r: seq<Task>)
    ensures |r| <= |ts|
    ensures IsSubsequence(r, ts)
  {
    if ts == [] then []
    else
      var rest := Select(ts[1..], keep);
      if keep(ts[0]) then
        assert ([ts[0]] + rest)[1..] == rest;
        [ts[0]] + rest
      else rest
  }

  /** The filtered list holds each task satisfying `keep` exactly as often as
      `ts` does, and no other task. */
  lemma {:induction false} SelectSpec(ts: seq<Task>, keep: Task -> bool)
    ensures forall t :: multiset(Select(ts, keep))[t] == if keep(t) then multiset(ts)[t] else 0
    ensures forall t :: t in Select(ts, keep) <==> t in ts && keep(t)
  {
    if ts != [] {
      SelectSpec(ts[1..], keep);
      assert ts == [ts[0]] + ts[1..];
      SelectCons(ts[0], ts[1..], keep);
    }
  }

  lemma SelectCons(t: Task, ts: seq<Task>, keep: Task -> bool)
    ensures Select([t] + ts, keep) == (if keep(t) then [t] else []) + Select(ts, keep)
  {
    assert ([t] + ts)[1..] == ts;
  }

  /** A predicate every task satisfies keeps the whole list. */
  lemma {:induction false} SelectAll(ts: seq<Task>, keep: Task -> bool)
    requires forall i :: 0 <= i < |ts| ==> keep(ts[i])
    ensures Select(ts, keep) == ts
  {
    if ts != [] {
      SelectAll(ts[1..], keep);
    }
  }

  /** The filtered list is empty exactly when no task is kept, and as long as
      the list exactly when every task is kept. */
  lemma {:induction false} SelectExtremes(ts: seq<Task>, keep: Task -> bool)
    ensures Select(ts, keep) == [] <==> forall i :: 0 <= i < |ts| ==> !keep(ts[i])
    ensures |Select(ts, keep)| == |ts| <==> forall i :: 0 <= i < |ts| ==> keep(ts[i])
  {
    if ts != [] {
      var tail := ts[1..];
      assert ts == [ts[0]] + tail;
      SelectCons(ts[0], tail, keep);
      SelectExtremes(tail, keep);
      assert forall i :: 1 <= i < |ts| ==> ts[i] == tail[i - 1];
    }
  }

  /** Two predicates that agree on every task select the same list. */
  lemma {:induction false} SelectSame(ts: seq<Task>, p: Task -> bool, q: Task -> bool)
    requires forall t :: p(t) == q(t)
    ensures Select(ts, p) == Select(ts, q)
  {
    if ts != [] {
      SelectSame(ts[1..], p, q);
    }
  }

  /** Selecting twice with the same predicate changes nothing more. */
  lemma {:induction false} SelectIdempotent(ts: seq<Task>, keep: Task -> bool)
    ensures Select(Select(ts, keep), keep) == Select(ts, keep)
  {
    var r := Select(ts, keep);
    SelectSpec(ts, keep);
    forall i | 0 <= i < |r| ensures keep(r[i]) {
      assert r[i] in r;
    }
    SelectAll(r, keep);
  }

  function IdIsNot(id: int): Task -> bool {
    (t: Task) => t.id != id
  }

  /** `tasks.filter(task => task.id !== id)`: the list in order with every task
      carrying the id left out and every other task kept. */
  function WithoutId(ts: seq<Task>, id: int): (r: seq<Task>)
    ensures IsSubsequence(r, ts)
    ensures forall t :: multiset(r)[t] == if t.id == id then 0 else multiset(ts)[t]
    ensures Absent(r, id)
  {
    var r := Select(ts, IdIsNot(id));
    SelectSpec(ts, IdIsNot(id));
    assert forall i :: 0 <= i < |r| ==> r[i] in r;
    r
  }

  /** Deleting an id no task carries leaves the list identical. */
  lemma WithoutAbsent(ts: seq<Task>, id: int)
    requires Absent(ts, id)
    ensures WithoutId(ts, id) == ts
  {
    SelectAll(ts, IdIsNot(id));
  }

  /** With distinct ids, deleting a present id removes exactly one task. */
  lemma {:induction false} WithoutPresent(ts: seq<Task>, id: int)
    requires DistinctIds(ts) && !Absent(ts, id)
    ensures |WithoutId(ts, id)| == |ts| - 1
  {
    var tail := ts[1..];
    assert ts == [ts[0]] + tail;
    SelectCons(ts[0], tail, IdIsNot(id));
    DistinctTail(ts);
    if ts[0].id == id {
      WithoutAbsent(tail, id);
    } else {
      var k :| 0 <= k < |ts| && ts[k].id == id;
      assert tail[k - 1].id == id;
      WithoutPresent(tail, id);
    }
  }

  /** With distinct ids the tail is distinct and lacks the head's id. */
  lemma DistinctTail(ts: seq<Task>)
    requires DistinctIds(ts) && ts != []
    ensures DistinctIds(ts[1..]) && Absent(ts[1..], ts[0].id)
  {
    var tail := ts[1..];
    forall i | 0 <= i < |tail| ensures tail[i] == ts[i + 1] {
    }
  }

  /** The position of the first task with the id: where `find` stops. */
  function FindIndex(ts: seq<Task>, id: int): (r: Option<nat>)
    ensures r.None? <==> Absent(ts, id)
    ensures r.Some? ==> r.value < |ts| && ts[r.value].id == id
    ensures r.Some? ==> forall j :: 0 <= j < r.value ==> ts[j].id != id
  {
    if ts == [] then None
    else if ts[0].id == id then Some(0)
    else match FindIndex(ts[1..], id)
      case None => None
      case Some(k) => Some(k + 1)
  }

  /** `k` is the position of the first task with the id. */
  predicate FirstWith(ts: seq<Task>, id: int, k: int) {
    0 <= k < |ts| && ts[k].id == id && forall j :: 0 <= j < k ==> ts[j].id != id
  }

  /** `tasks.find(t => t.id === id)`: the first task with the id, if any. */
  function Find(ts: seq<Task>, id: int): (r: Option<Task>)
    ensures r.None? <==> Absent(ts, id)
    ensures r.Some? ==> exists k :: FirstWith(ts, id, k) && ts[k] == r.value
  {
    match FindIndex(ts, id)
    case None => None
    case Some(k) =>
      assert FirstWith(ts, id, k);
      Some(ts[k])
  }

  /** The ids of the list, with repetitions. */
  function Ids(ts: seq<Task>): (r: seq<int>)
    ensures |r| == |ts| && forall i :: 0 <= i < |ts| ==> r[i] == ts[i].id
  {
    if ts == [] then [] else [ts[0].id] + Ids(ts[1..])
  }

  /** No two tasks share an id. */
  predicate DistinctIds(ts: seq<Task>) {
    forall i, j :: 0 <= i < j < |ts| ==> ts[i].id != ts[j].id
  }

  /** A per-id update keeps every id (and so their distinctness). */
  lemma UpdateKeepsIds(ts: seq<Task>, id: int, c: Change)
    ensures Ids(UpdateWhere(ts, id, c)) == Ids(ts)
  {
  }

  /** Filtering never introduces a repeated id. */
  lemma {:induction false} SelectKeepsDistinct(ts: seq<Task>, keep: Task -> bool)
    requires DistinctIds(ts)
    ensures DistinctIds(Select(ts, keep))
  {
    if ts != [] {
      var rest := Select(ts[1..], keep);
      SelectKeepsDistinct(ts[1..], keep);
      SelectSpec(ts[1..], keep);
      SelectCons(ts[0], ts[1..], keep);
      if keep(ts[0]) {
        forall j | 0 <= j < |rest| ensures ts[0].id != rest[j].id {
          assert rest[j] in ts[1..];
        }
      }
    }
  }

  /** Every task's text is non-blank. */
  predicate AllNonBlank(ts: seq<Task>) {
    forall i :: 0 <= i < |ts| ==> !IsBlank(ts[i].text)
  }

  /** Putting a task with a non-blank text and a fresh id in front keeps both
      invariants. */
  lemma PrependKeeps(t: Task, ts: seq<Task>)
    ensures AllNonBlank(ts) && !IsBlank(t.text) ==> AllNonBlank([t] + ts)
    ensures DistinctIds(ts) && Absent(ts, t.id) ==> DistinctIds([t] + ts)
  {
    var r := [t] + ts;
    assert forall i :: 1 <= i < |r| ==> r[i] == ts[i - 1];
  }

  /** A per-id update with a non-blank text (or none) keeps every text non-blank. */
  lemma UpdateKeepsNonBlank(ts: seq<Task>, id: int, c: Change)
    requires AllNonBlank(ts)
    requires c.Retext? ==> !IsBlank(c.text)
    ensures AllNonBlank(UpdateWhere(ts, id, c))
  {
  }

  /** Filtering keeps every text non-blank. */
  lemma SelectKeepsNonBlank(ts: seq<Task>, keep: Task -> bool)
    requires AllNonBlank(ts)
    ensures AllNonBlank(Select(ts, keep))
  {
    var r := Select(ts, keep);
    SelectSpec(ts, keep);
    forall i | 0 <= i < |r| ensures !IsBlank(r[i].text) {
      assert r[i] in ts;
    }
  }
}
