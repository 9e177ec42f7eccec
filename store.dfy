/** The component's task state and the event handlers that update it. */
module Store {
  import opened Text
  import opened Tasks
  import opened Views

  /** The transient message each handler shows (`showToast`); the timer that
      hides it again is not part of this model. */
  datatype Notice =
    | EmptyTaskText | TaskAdded | MarkedPending | MarkedDone | TaskRemoved
    | MarkedNormal | MarkedImportant | EmptyEditText | TaskUpdated | CompletedCleared

  /** The text `showToast` receives for each notice; every one is non-empty. */
  function Message(n: Notice): (s: string)
    ensures |s| > 0
  {
    match n
    case EmptyTaskText => "Digite algo para adicionar uma tarefa!"
    case TaskAdded => "Tarefa adicionada com sucesso!"
    case MarkedPending => "Tarefa marcada como pendente"
    case MarkedDone => "Tarefa conclu\U{00ED}da! \U{1F389}"
    case TaskRemoved => "Tarefa removida!"
    case MarkedNormal => "Marcada como normal"
    case MarkedImportant => "Tarefa importante! \U{26A1}"
    case EmptyEditText => "A tarefa n\U{00E3}o pode ficar vazia!"
    case TaskUpdated => "Tarefa atualizada!"
    case CompletedCleared => "Tarefas conclu\U{00ED}das removidas!"
  }

  /** Different notices show different texts, so the user can tell every
      outcome apart. */
  lemma MessagesDistinct(m: Notice, n: Notice)
    ensures m != n ==> Message(m) != Message(n)
  {
  }

  /** Adding a task whose text passed the blank check keeps every text non-blank. */
  lemma AddKeepsNonBlank(ts: seq<Task>, t: Task)
    ensures !IsBlank(t.text) && AllNonBlank(ts) ==> AllNonBlank([t] + ts)
  {
    PrependKeeps(t, ts);
  }

  /** Toggling a flag keeps every text non-blank. */
  lemma FlipKeepsNonBlank(ts: seq<Task>, id: int, c: Change)
    requires c.FlipDone? || c.FlipImportant?
    ensures AllNonBlank(ts) ==> AllNonBlank(UpdateWhere(ts, id, c))
  {
    if AllNonBlank(ts) {
      UpdateKeepsNonBlank(ts, id, c);
    }
  }

  /** Deleting and clearing keep every text non-blank. */
  lemma FilterKeepsNonBlank(ts: seq<Task>, keep: Task -> bool)
    ensures AllNonBlank(ts) ==> AllNonBlank(Select(ts, keep))
  {
    if AllNonBlank(ts) {
      SelectKeepsNonBlank(ts, keep);
    }
  }

  /** Saving a draft that passed the blank check keeps every text non-blank. */
  lemma EditKeepsNonBlank(ts: seq<Task>, id: int, draft: string)
    ensures !IsBlank(draft) && AllNonBlank(ts) ==> AllNonBlank(UpdateWhere(ts, id, Retext(draft)))
  {
    if !IsBlank(draft) && AllNonBlank(ts) {
      UpdateKeepsNonBlank(ts, id, Retext(draft));
    }
  }

  /** The state of the component that the handlers read and write. */
  class TaskStore {
    var tasks: seq<Task>
    var text: string         // the new-task draft
    var filter: Filter
    var editingId: Option<int>
    var editText: string     // the in-place edit draft

    /** The state after mounting, with `saved` the list read back from storage. */
    constructor (saved: seq<Task>)
      ensures tasks == saved && text == "" && filter == All
      ensures editingId == None && editText == ""
    {
      tasks := saved;
      text := "";
      filter := All;
      editingId := None;
      editText := "";
    }

    /** `addTask`, with `id` and `now` standing for `Date.now()` and `new Date()`.
        A blank draft (the guard `!text.trim()`, which `TrimsToEmpty` proves is
        `IsBlank`) changes nothing; otherwise a new pending, unimportant task
        holding the draft as typed (not trimmed) goes in front and the draft
        is cleared. */
    method AddTask(id: int, now: int) returns (notice: Notice)
      modifies this
      ensures IsBlank(old(text)) ==> tasks == old(tasks) && text == old(text) && notice == EmptyTaskText
      ensures !IsBlank(old(text)) ==>
        && tasks == [Task(id, old(text), false, now, false)] + old(tasks)
        && text == "" && notice == TaskAdded
      ensures AllNonBlank(old(tasks)) ==> AllNonBlank(tasks)
      ensures filter == old(filter) && editingId == old(editingId) && editText == old(editText)
    {
      if IsBlank(text) {
        notice := EmptyTaskText;
        return;
      }
      var newTask := Task(id, text, false, now, false);
      AddKeepsNonBlank(tasks, newTask);
      tasks := [newTask] + tasks;
      text := "";
      notice := TaskAdded;
    }

    /** `toggleDone`: every task with the id has `done` negated, nothing else
        changes; the notice depends on the first such task before the change. */
    method ToggleDone(id: int) returns (notice: Notice)
      modifies this
      ensures tasks == UpdateWhere(old(tasks), id, FlipDone)
      ensures AllNonBlank(old(tasks)) ==> AllNonBlank(tasks)
      ensures notice == match Find(old(tasks), id)
                        case Some(t) => if t.done then MarkedPending else MarkedDone
                        case None => MarkedDone
      ensures text == old(text) && filter == old(filter)
      ensures editingId == old(editingId) && editText == old(editText)
    {
      var found := Find(tasks, id);
      FlipKeepsNonBlank(tasks, id, FlipDone);
      tasks := UpdateWhere(tasks, id, FlipDone);
      notice := if found.Some? && found.value.done then MarkedPending else MarkedDone;
    }

    /** `toggleImportant`: every task with the id has `important` negated,
        nothing else changes. */
    method ToggleImportant(id: int) returns (notice: Notice)
      modifies this
      ensures tasks == UpdateWhere(old(tasks), id, FlipImportant)
      ensures AllNonBlank(old(tasks)) ==> AllNonBlank(tasks)
      ensures notice == match Find(old(tasks), id)
                        case Some(t) => if t.important then MarkedNormal else MarkedImportant
                        case None => MarkedImportant
      ensures text == old(text) && filter == old(filter)
      ensures editingId == old(editingId) && editText == old(editText)
    {
      var found := Find(tasks, id);
      FlipKeepsNonBlank(tasks, id, FlipImportant);
      tasks := UpdateWhere(tasks, id, FlipImportant);
      notice := if found.Some? && found.value.important then MarkedNormal else MarkedImportant;
    }

    /** `deleteTask`: the tasks with the id are dropped; the edit selection is
        left as it was, even when it named a deleted task. */
    method DeleteTask(id: int) returns (notice: Notice)
      modifies this
      ensures tasks == WithoutId(old(tasks), id)
      ensures AllNonBlank(old(tasks)) ==> AllNonBlank(tasks)
      ensures Absent(tasks, id) && IsSubsequence(tasks, old(tasks))
      ensures text == old(text) && filter == old(filter)
      ensures editingId == old(editingId) && editText == old(editText)
      ensures notice == TaskRemoved
    {
      FilterKeepsNonBlank(tasks, IdIsNot(id));
      tasks := WithoutId(tasks, id);
      notice := TaskRemoved;
    }

    /** `startEdit`: selects the task for editing and loads its text into the
        edit draft, dropping any earlier unsaved draft. */
    method StartEdit(id: int, currentText: string)
      modifies this
      ensures editingId == Some(id) && editText == currentText
      ensures tasks == old(tasks) && text == old(text) && filter == old(filter)
    {
      editingId := Some(id);
      editText := currentText;
    }

    /** `saveEdit`: a blank edit draft (`!editText.trim()`, see `TrimsToEmpty`)
        changes nothing (edit mode stays on);
        otherwise every task with the id takes the draft as typed and edit mode
        ends. */
    method SaveEdit(id: int) returns (notice: Notice)
      modifies this
      ensures IsBlank(old(editText)) ==>
        && tasks == old(tasks) && editingId == old(editingId) && editText == old(editText)
        && notice == EmptyEditText
      ensures !IsBlank(old(editText)) ==>
        && tasks == UpdateWhere(old(tasks), id, Retext(old(editText)))
        && editingId == None && editText == "" && notice == TaskUpdated
      ensures AllNonBlank(old(tasks)) ==> AllNonBlank(tasks)
      ensures text == old(text) && filter == old(filter)
    {
      if IsBlank(editText) {
        notice := EmptyEditText;
        return;
      }
      var updated := UpdateWhere(tasks, id, Retext(editText));
      EditKeepsNonBlank(tasks, id, editText);
      tasks := updated;
      editingId := None;
      editText := "";
      notice := TaskUpdated;
    }

    /** `clearCompleted`: keeps the pending tasks in order; afterwards no task
        is completed and the list is shorter by the old completed count. */
    method ClearCompleted() returns (notice: Notice)
      modifies this
      ensures tasks == Pending(old(tasks))
      ensures AllNonBlank(old(tasks)) ==> AllNonBlank(tasks)
      ensures CompletedCount(tasks) == 0
      ensures |tasks| == |old(tasks)| - CompletedCount(old(tasks))
      ensures text == old(text) && filter == old(filter)
      ensures editingId == old(editingId) && editText == old(editText)
      ensures notice == CompletedCleared
    {
      PendingCounts(tasks);
      FilterKeepsNonBlank(tasks, IsPending);
      tasks := Pending(tasks);
      notice := CompletedCleared;
    }

    /** The new-task input's `onChange`: `setText(e.target.value)`. */
    method SetText(value: string)
      modifies this
      ensures text == value
      ensures tasks == old(tasks) && filter == old(filter)
      ensures editingId == old(editingId) && editText == old(editText)
    {
      text := value;
    }

    /** The edit input's `onChange`: `setEditText(e.target.value)`. */
    method SetEditText(value: string)
      modifies this
      ensures editText == value
      ensures tasks == old(tasks) && text == old(text)
      ensures filter == old(filter) && editingId == old(editingId)
    {
      editText := value;
    }

    /** A filter tab's `onClick`: `setFilter(f)`. */
    method SetFilter(f: Filter)
      modifies this
      ensures filter == f
      ensures tasks == old(tasks) && text == old(text)
      ensures editingId == old(editingId) && editText == old(editText)
    {
      filter := f;
    }
  }
}
