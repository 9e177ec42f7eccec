/** A session on a fresh store: two tasks added, then the older one marked
    important. The shown list puts the newer task first, then the important
    one; a draft with surrounding spaces is stored exactly as typed. */
module Session {
  import opened Tasks
  import opened Views
  import opened Store

  lemma NotBlankAt(s: string, i: int)
    requires 0 <= i < |s| && !Text.IsTrimmable(s[i])
    ensures !Text.IsBlank(s)
  {
  }

  lemma ShownPair(a: Task, b: Task)
    ensures SortedTasks([a, b], All) == if Compare(a, b) <= 0 then [a, b] else [b, a]
  {
    assert [a, b][1..] == [b];
    assert [b][1..] == [];
    assert Sort([b]) == [b];
  }

  lemma FlippedPair(a: Task, b: Task, id: int)
    requires a.id != id && b.id == id
    ensures UpdateWhere([a, b], id, FlipImportant) == [a, b.(important := !b.important)]
  {
  }

  const WriteReport := Task(1, "Write report", false, 1000, false)
  const CallClient := Task(2, "Call client", false, 2000, false)

  /** A fresh store after typing and adding "Write report", then "Call client". */
  method TwoTasks() returns (store: TaskStore)
    ensures fresh(store)
    ensures store.tasks == [CallClient, WriteReport] && store.filter == All
  {
    store := new TaskStore([]);
    store.SetText("Write report");
    NotBlankAt("Write report", 0);
    var n := store.AddTask(1, 1000);
    store.SetText("Call client");
    NotBlankAt("Call client", 0);
    n := store.AddTask(2, 2000);
  }

  /** After the two additions the newer task is
      shown first; once the older one is marked important it is shown first. */
  method ExampleSession() returns (before: seq<string>, after: seq<string>)
    ensures before == ["Call client", "Write report"]
    ensures after == ["Write report", "Call client"]
  {
    var store := TwoTasks();
    ShownPair(CallClient, WriteReport);
    var shown := SortedTasks(store.tasks, store.filter);
    before := [shown[0].text, shown[1].text];
    var n := store.ToggleImportant(1);
    var important := WriteReport.(important := true);
    FlippedPair(CallClient, WriteReport, 1);
    ShownPair(CallClient, important);
    shown := SortedTasks(store.tasks, store.filter);
    after := [shown[0].text, shown[1].text];
  }

  /** Surrounding spaces pass validation and are kept in the stored text. */
  method UntrimmedDraft() returns (stored: string)
    ensures stored == "  Buy milk  "
  {
    var store := new TaskStore([]);
    var draft := "  Buy milk  ";
    store.SetText(draft);
    assert draft[2] == 'B';
    NotBlankAt(draft, 2);
    var n := store.AddTask(3, 3000);
    stored := store.tasks[0].text;
  }
}
