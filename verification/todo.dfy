/**
 The todo list's task operations: the state behind the window is the task
 list, the selected filter, the id of the task being edited, and the entry
 box with its priority menu. Every button is a function from state to state.
 */
module Todo {
  import opened Wrappers
  import opened PyStr
  import opened Seqs

  /** One task. The id and the creation time come from the clock. */
  datatype Task = Task(id: int, text: string, priority: string, completed: bool, created: string)

  datatype State = State(
    tasks: seq<Task>,
    filter: string,
    editId: Option<int>,
    entry: string,
    priority: string)

  const DefaultPriority := "Medium"

  /** The window just after start-up, over the tasks loaded from disk. */
  function Init(tasks: seq<Task>): (s: State)
    ensures s.tasks == tasks && s.filter == "All" && s.editId.None?
    ensures s.entry == "" && s.priority == DefaultPriority
  {
    State(tasks, "All", None, "", DefaultPriority)
  }

  /** At start-up the whole loaded list is shown. */
  lemma InitShowsAll(tasks: seq<Task>)
    ensures Shown(Init(tasks).tasks, Init(tasks).filter) == tasks
  {
    ShownAll(tasks, "All");
  }

  /** `new_task`: an open task with the given text and priority. */
  function NewTask(text: string, priority: string, id: int, created: string): (t: Task)
    ensures t.text == text && t.priority == priority && !t.completed && t.id == id
  {
    Task(id, text, priority, false, created)
  }

  /** `_passes_filter`: "Active" keeps the open tasks, "Completed" the done
      ones, any other filter keeps everything. */
  predicate PassesFilter(filter: string, t: Task)
  {
    if filter == "Active" then !t.completed
    else if filter == "Completed" then t.completed
    else true
  }

  /** The list shown under the current filter. */
  function Shown(tasks: seq<Task>, filter: string): (r: seq<Task>)
    ensures IsSubsequence(r, tasks)
    ensures forall t :: t in r <==> t in tasks && PassesFilter(filter, t)
    ensures forall t {:trigger multiset(r)[t]} :: multiset(r)[t] == if PassesFilter(filter, t) then multiset(tasks)[t] else 0
  {
    if tasks == [] then []
    else
      assert tasks == [tasks[0]] + tasks[1..];
      if PassesFilter(filter, tasks[0]) then
        var r := [tasks[0]] + Shown(tasks[1..], filter);
        assert r[1..] == Shown(tasks[1..], filter);
        r
      else Shown(tasks[1..], filter)
  }

  /** Any filter other than the two named ones shows the whole list. */
  lemma {:induction false} ShownAll(tasks: seq<Task>, filter: string)
    requires filter != "Active" && filter != "Completed"
    ensures Shown(tasks, filter) == tasks
  {
    if tasks != [] {
      ShownAll(tasks[1..], filter);
    }
  }

  /** How many tasks are done. */
  function DoneCount(tasks: seq<Task>): (n: nat)
    ensures n <= |tasks|
  {
    if tasks == [] then 0 else (if tasks[0].completed then 1 else 0) + DoneCount(tasks[1..])
  }

  datatype Stats = Stats(total: nat, done: nat, pending: int)

  /** `_update_stats`: total, done, and pending as the difference. */
  function GetStats(tasks: seq<Task>): (s: Stats)
    ensures s.done <= s.total == |tasks|
    ensures s.pending == s.total - s.done && s.pending >= 0
  {
    var done := DoneCount(tasks);
    Stats(|tasks|, done, |tasks| - done)
  }

  /** The counters agree with the filters: done is the length of the
      "Completed" list and pending that of the "Active" list. */
  lemma {:induction false} StatsMatchFilters(tasks: seq<Task>)
    ensures GetStats(tasks).done == |Shown(tasks, "Completed")|
    ensures GetStats(tasks).pending == |Shown(tasks, "Active")|
  {
    if tasks != [] {
      StatsMatchFilters(tasks[1..]);
    }
  }

  /** The position of the first task with id `id`, if any. */
  function FirstWithId(tasks: seq<Task>, id: int): (r: Option<nat>)
    ensures r.Some? ==> r.value < |tasks| && tasks[r.value].id == id
    ensures r.Some? ==> forall j :: 0 <= j < r.value ==> tasks[j].id != id
    ensures r.None? ==> forall j :: 0 <= j < |tasks| ==> tasks[j].id != id
  {
    if tasks == [] then None
    else if tasks[0].id == id then Some(0)
    else
      match FirstWithId(tasks[1..], id)
      case None => None
      case Some(i) => Some(i + 1)
  }

  /** The save loop of `_add_or_save`: the first task with the edited id gets
      the new text and priority; nothing else changes. */
  function SaveEdit(tasks: seq<Task>, id: int, text: string, priority: string): (r: seq<Task>)
    ensures |r| == |tasks|
    ensures forall k :: 0 <= k < |r| && FirstWithId(tasks, id) != Some(k) ==> r[k] == tasks[k]
    ensures FirstWithId(tasks, id).Some? ==>
              var i := FirstWithId(tasks, id).value;
              r[i] == tasks[i].(text := text, priority := priority)
  {
    match FirstWithId(tasks, id)
    case None => tasks
    case Some(i) => tasks[i := tasks[i].(text := text, priority := priority)]
  }

  /** `_add_or_save`: a blank entry (after stripping) changes nothing. In
      edit mode the edited task is saved and edit mode ends; otherwise a new
      open task is appended. Either way the entry is cleared and the
      priority menu goes back to its default. The clock's id and time are
      parameters. */
  function AddOrSave(s: State, id: int, created: string): (r: State)
    ensures Strip(s.entry) == [] ==> r == s
    ensures Strip(s.entry) != [] ==>
              && r.editId == None && r.entry == "" && r.priority == DefaultPriority
              && r.filter == s.filter
    ensures Strip(s.entry) != [] && s.editId.None? ==>
              r.tasks == s.tasks + [NewTask(Strip(s.entry), s.priority, id, created)]
    ensures Strip(s.entry) != [] && s.editId.Some? ==>
              r.tasks == SaveEdit(s.tasks, s.editId.value, Strip(s.entry), s.priority)
  {
    var text := Strip(s.entry);
    if text == [] then s
    else
      var tasks :=
        if s.editId.Some? then SaveEdit(s.tasks, s.editId.value, text, s.priority)
        else s.tasks + [NewTask(text, s.priority, id, created)];
      State(tasks, s.filter, None, "", DefaultPriority)
  }

  /** `_start_edit`: the entry box and priority menu take the task's text and
      priority, and the task's id is remembered. */
  function StartEdit(s: State, t: Task): (r: State)
    ensures r.tasks == s.tasks && r.filter == s.filter
    ensures r.editId == Some(t.id) && r.entry == t.text && r.priority == t.priority
  {
    s.(editId := Some(t.id), entry := t.text, priority := t.priority)
  }

  /** `_cancel_edit`: leave edit mode and reset the entry and priority. */
  function CancelEdit(s: State): (r: State)
    ensures r.tasks == s.tasks && r.filter == s.filter
    ensures r.editId == None && r.entry == "" && r.priority == DefaultPriority
  {
    s.(editId := None, entry := "", priority := DefaultPriority)
  }

  /** Cancelling right after opening a task for editing ends in the same
      state as cancelling without opening it. */
  lemma CancelUndoesStartEdit(s: State, t: Task)
    ensures CancelEdit(StartEdit(s, t)) == CancelEdit(s)
  {
  }

  /** `_toggle`: the check box of the task at position `i` sets its
      `completed` to the box's new value; every other task stays. */
  function Toggle(s: State, i: nat, value: bool): (r: State)
    requires i < |s.tasks|
    ensures |r.tasks| == |s.tasks| && r.tasks[i] == s.tasks[i].(completed := value)
    ensures forall k :: 0 <= k < |s.tasks| && k != i ==> r.tasks[k] == s.tasks[k]
    ensures r.filter == s.filter && r.editId == s.editId && r.entry == s.entry && r.priority == s.priority
  {
    s.(tasks := s.tasks[i := s.tasks[i].(completed := value)])
  }

  /** Clicking the check box back restores the state. */
  lemma ToggleBackRestores(s: State, i: nat, value: bool)
    requires i < |s.tasks|
    ensures Toggle(Toggle(s, i, value), i, s.tasks[i].completed) == s
  {
    assert Toggle(Toggle(s, i, value), i, s.tasks[i].completed).tasks == s.tasks;
  }

  /** A toggle moves the done counter by one exactly when the flag changes. */
  lemma {:induction false} ToggleMovesDoneCount(tasks: seq<Task>, i: nat, value: bool)
    requires i < |tasks|
    ensures DoneCount(tasks[i := tasks[i].(completed := value)])
            == DoneCount(tasks) - (if tasks[i].completed then 1 else 0) + (if value then 1 else 0)
  {
    var t := tasks[i := tasks[i].(completed := value)];
    if i == 0 {
      assert t[1..] == tasks[1..];
    } else {
      assert t[1..] == tasks[1..][i - 1 := tasks[i].(completed := value)];
      ToggleMovesDoneCount(tasks[1..], i - 1, value);
    }
  }

  /** The tasks whose id is not `id`, in order. */
  function WithoutId(tasks: seq<Task>, id: int): (r: seq<Task>)
    ensures IsSubsequence(r, tasks)
    ensures forall t :: t in r <==> t in tasks && t.id != id
    ensures forall t {:trigger multiset(r)[t]} :: multiset(r)[t] == if t.id != id then multiset(tasks)[t] else 0
  {
    if tasks == [] then []
    else
      assert tasks == [tasks[0]] + tasks[1..];
      if tasks[0].id == id then WithoutId(tasks[1..], id)
      else
        var r := [tasks[0]] + WithoutId(tasks[1..], id);
        assert r[1..] == WithoutId(tasks[1..], id);
        r
  }

  /** `_delete`: once confirmed, every task with that id goes; if it was the
      task being edited, editing is cancelled. Unconfirmed, nothing
      happens. */
  function Delete(s: State, id: int, confirmed: bool): (r: State)
    ensures !confirmed ==> r == s
    ensures confirmed ==> r.tasks == WithoutId(s.tasks, id) && r.filter == s.filter
    ensures confirmed && s.editId == Some(id) ==> r.editId == None && r.entry == "" && r.priority == DefaultPriority
    ensures confirmed && s.editId != Some(id) ==> r.editId == s.editId && r.entry == s.entry && r.priority == s.priority
  {
    if !confirmed then s
    else
      var s' := s.(tasks := WithoutId(s.tasks, id));
      if s.editId == Some(id) then CancelEdit(s') else s'
  }

  /** A delete never lengthens the list. */
  lemma DeleteNeverLengthens(s: State, id: int, confirmed: bool)
    ensures |Delete(s, id, confirmed).tasks| <= |s.tasks|
  {
    SubsequenceLength(WithoutId(s.tasks, id), s.tasks);
  }

  /** No filter shows more tasks than the list holds. */
  lemma ShownNeverLonger(tasks: seq<Task>, filter: string)
    ensures |Shown(tasks, filter)| <= |tasks|
  {
    SubsequenceLength(Shown(tasks, filter), tasks);
  }

  /** `_set_filter`. */
  function SetFilter(s: State, f: string): (r: State)
    ensures r.filter == f && r.tasks == s.tasks && r.editId == s.editId
    ensures r.entry == s.entry && r.priority == s.priority
  {
    s.(filter := f)
  }

  /** Adding a task with a fresh id and then deleting that id gives the
      original list back. */
  lemma AddThenDeleteRestores(s: State, id: int, created: string)
    requires s.editId.None? && Strip(s.entry) != []
    requires forall k :: 0 <= k < |s.tasks| ==> s.tasks[k].id != id
    ensures Delete(AddOrSave(s, id, created), id, true).tasks == s.tasks
  {
    var t := NewTask(Strip(s.entry), s.priority, id, created);
    WithoutIdAppend(s.tasks, t, id);
    WithoutIdFresh(s.tasks, id);
  }

  lemma {:induction false} WithoutIdAppend(tasks: seq<Task>, t: Task, id: int)
    requires t.id == id
    ensures WithoutId(tasks + [t], id) == WithoutId(tasks, id)
  {
    if tasks == [] {
      assert tasks + [t] == [t];
      assert [t][1..] == [];
    } else {
      assert (tasks + [t])[1..] == tasks[1..] + [t];
      WithoutIdAppend(tasks[1..], t, id);
    }
  }

  lemma {:induction false} WithoutIdFresh(tasks: seq<Task>, id: int)
    requires forall k :: 0 <= k < |tasks| ==> tasks[k].id != id
    ensures WithoutId(tasks, id) == tasks
  {
    if tasks != [] {
      var rest := tasks[1..];
      forall k | 0 <= k < |rest|
        ensures rest[k].id != id
      {
        assert rest[k] == tasks[k + 1];
      }
      WithoutIdFresh(rest, id);
      assert tasks[0].id != id;
      assert tasks == [tasks[0]] + rest;
    }
  }

  /** Opening a task for editing and saving it untouched changes no task,
      when its text has no surrounding whitespace and it is the first task
      with its id. */
  lemma EditUnchangedIsNoop(s: State, i: nat, id: int, created: string)
    requires i < |s.tasks| && FirstWithId(s.tasks, s.tasks[i].id) == Some(i)
    requires s.tasks[i].text != [] && Strip(s.tasks[i].text) == s.tasks[i].text
    ensures AddOrSave(StartEdit(s, s.tasks[i]), id, created).tasks == s.tasks
  {
    var t := s.tasks[i];
    var s1 := StartEdit(s, t);
    assert Strip(s1.entry) == t.text && s1.editId == Some(t.id);
    var r := SaveEdit(s.tasks, t.id, t.text, t.priority);
    assert AddOrSave(s1, id, created).tasks == r;
    assert t.(text := t.text, priority := t.priority) == t;
    assert forall k :: 0 <= k < |r| ==> r[k] == s.tasks[k];
  }

  /** A save in edit mode changes one task at most, and never its id or its
      done flag. */
  lemma SaveKeepsIdAndDone(s: State, id: int, created: string)
    requires s.editId.Some? && Strip(s.entry) != []
    ensures var r := AddOrSave(s, id, created);
            && |r.tasks| == |s.tasks|
            && forall k :: 0 <= k < |s.tasks| ==>
                 r.tasks[k].id == s.tasks[k].id && r.tasks[k].completed == s.tasks[k].completed
  {
  }
}
