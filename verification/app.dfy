/**
 * The page's state and its handlers. The persisted store, the id under edit
 * (`editingTaskId`) and the active filter (`currentFilter`) are the fields of
 * one object. Each handler that changes the collection (add, delete, toggle,
 * save edit, clear completed) reads the whole collection, changes it, and
 * writes the whole collection back.
 *
 * A handler whose read of the store fails stops there (the exception of
 * `JSON.parse` propagates): nothing is written and no field changes. That is
 * reported as `Threw`.
 */
module App {
  import opened Wrappers
  import opened Text
  import opened Tasks
  import opened Storage
  import opened View

  /** How a handler ended: ran through, returned early, or stopped on an unreadable store. */
  datatype Outcome = Applied | Ignored | Threw(error: LoadError)

  class TodoApp {
    var store: Stored
    var editingId: Option<int>
    var filter: Filter

    /** Page load: whatever the store holds, no edit open, filter `all`. */
    constructor (initial: Stored)
      ensures store == initial && editingId == None && filter == All
    {
      store := initial;
      editingId := None;
      filter := All;
    }

    /** `setTasks`: replaces the stored value with the whole collection. */
    method SetTasks(ts: seq<Task>)
      modifies this
      ensures store == Saved(ts)
      ensures editingId == old(editingId) && filter == old(filter)
    {
      store := Saved(ts);
    }

    /**
     * `addTask`: input that trims to nothing is rejected and nothing is
     * stored; otherwise one record with the trimmed text, not completed, with
     * the given id and timestamp, goes at the end of the loaded collection.
     */
    method AddTask(input: string, id: int, createdAt: string) returns (outcome: Outcome)
      modifies this
      ensures editingId == old(editingId) && filter == old(filter)
      ensures Trim(input) == [] ==> outcome == Ignored && store == old(store)
      ensures Trim(input) != [] ==>
        var loaded := GetTasks(old(store));
        if loaded.Failure? then outcome == Threw(loaded.error) && store == old(store)
        else outcome == Applied && store == Saved(loaded.value + [Task(id, Trim(input), false, createdAt)])
    {
      var text := Trim(input);
      if text == [] {
        return Ignored;
      }
      var task := Task(id, text, false, createdAt);
      var loaded := GetTasks(store);
      if loaded.Failure? {
        return Threw(loaded.error);
      }
      SetTasks(loaded.value + [task]);
      outcome := Applied;
    }

    /** `deleteTask`: keeps the records whose id is not `id`. */
    method DeleteTask(id: int) returns (outcome: Outcome)
      modifies this
      ensures editingId == old(editingId) && filter == old(filter)
      ensures var loaded := GetTasks(old(store));
        if loaded.Failure? then outcome == Threw(loaded.error) && store == old(store)
        else outcome == Applied && store == Saved(Remaining(loaded.value, id))
    {
      var loaded := GetTasks(store);
      if loaded.Failure? {
        return Threw(loaded.error);
      }
      SetTasks(Remaining(loaded.value, id));
      outcome := Applied;
    }

    /** `toggleComplete`: every record with id `id` gets `completed := checked`. */
    method ToggleComplete(id: int, checked: bool) returns (outcome: Outcome)
      modifies this
      ensures editingId == old(editingId) && filter == old(filter)
      ensures var loaded := GetTasks(old(store));
        if loaded.Failure? then outcome == Threw(loaded.error) && store == old(store)
        else outcome == Applied && store == Saved(WithCompletion(loaded.value, id, checked))
    {
      var loaded := GetTasks(store);
      if loaded.Failure? {
        return Threw(loaded.error);
      }
      var ts := SetCompletedWhere(loaded.value, id, checked);
      SetTasks(ts);
      outcome := Applied;
    }

    /**
     * `openEditModal`: on an id present in the collection, the edit targets it
     * (replacing any edit already open) and the edit field is filled with the
     * text of the first record with that id; on an absent id nothing changes.
     */
    method OpenEditModal(id: int) returns (outcome: Outcome, draft: Option<string>)
      modifies this
      ensures store == old(store) && filter == old(filter)
      ensures var loaded := GetTasks(old(store));
        if loaded.Failure? then
          outcome == Threw(loaded.error) && draft == None && editingId == old(editingId)
        else match FirstIndexOf(loaded.value, id)
          case None => outcome == Ignored && draft == None && editingId == old(editingId)
          case Some(k) => outcome == Applied && draft == Some(loaded.value[k].text) && editingId == Some(id)
    {
      var loaded := GetTasks(store);
      if loaded.Failure? {
        return Threw(loaded.error), None;
      }
      var found := FirstIndexOf(loaded.value, id);
      if found.None? {
        return Ignored, None;
      }
      editingId := Some(id);
      outcome, draft := Applied, Some(loaded.value[found.value].text);
    }

    /** `closeModal` (cancel, Escape, click on the overlay): no edit is open afterwards. */
    method CloseModal()
      modifies this
      ensures editingId == None
      ensures store == old(store) && filter == old(filter)
    {
      editingId := None;
    }

    /**
     * `saveEdit`: with an edit open and input that does not trim to nothing,
     * every record with the edited id gets the trimmed text and the edit
     * closes; otherwise nothing changes and the edit stays as it was.
     */
    method SaveEdit(input: string) returns (outcome: Outcome)
      modifies this
      ensures filter == old(filter)
      ensures Trim(input) == [] || old(editingId).None? ==>
        outcome == Ignored && store == old(store) && editingId == old(editingId)
      ensures Trim(input) != [] && old(editingId).Some? ==>
        var loaded := GetTasks(old(store));
        if loaded.Failure? then
          outcome == Threw(loaded.error) && store == old(store) && editingId == old(editingId)
        else
          outcome == Applied && editingId == None
          && store == Saved(WithText(loaded.value, old(editingId).value, Trim(input)))
    {
      var text := Trim(input);
      if text == [] || editingId.None? {
        return Ignored;
      }
      var loaded := GetTasks(store);
      if loaded.Failure? {
        return Threw(loaded.error);
      }
      var ts := SetTextWhere(loaded.value, editingId.value, text);
      SetTasks(ts);
      CloseModal();
      outcome := Applied;
    }

    /** The clear-completed button: keeps the records that are not completed. */
    method ClearCompletedTasks() returns (outcome: Outcome)
      modifies this
      ensures editingId == old(editingId) && filter == old(filter)
      ensures var loaded := GetTasks(old(store));
        if loaded.Failure? then outcome == Threw(loaded.error) && store == old(store)
        else outcome == Applied && store == Saved(ClearCompleted(loaded.value))
    {
      var loaded := GetTasks(store);
      if loaded.Failure? {
        return Threw(loaded.error);
      }
      SetTasks(ClearCompleted(loaded.value));
      outcome := Applied;
    }

    /** A filter button: makes `f` the active filter and touches nothing else. */
    method SelectFilter(f: Filter)
      modifies this
      ensures filter == f
      ensures store == old(store) && editingId == old(editingId)
    {
      filter := f;
    }
  }

  /**
   * The edit flow on a fresh page: open the edit of task 2, confirm
   * "  new text ", and task 2 carries "new text" with no edit open.
   */
  method EditFlowExample() returns (tasks: seq<Task>, editing: Option<int>)
    ensures editing == None
    ensures tasks == [Task(1, "first", false, "t1"), Task(2, "new text", false, "t2")]
  {
    var app := new TodoApp(Saved([Task(1, "first", false, "t1"), Task(2, "second", false, "t2")]));
    var openOutcome, draft := app.OpenEditModal(2);
    assert app.editingId == Some(2);
    assert "  new text " == "  " + "new text" + " ";
    TrimSurrounded("  ", "new text", " ");
    var saved := app.SaveEdit("  new text ");
    tasks, editing := app.store.tasks, app.editingId;
  }

  /** Clearing completed tasks twice leaves the same store as clearing once. */
  method ClearTwiceExample(initial: seq<Task>) returns (once: Stored, twice: Stored)
    ensures once == twice == Saved(ClearCompleted(initial))
  {
    var app := new TodoApp(Saved(initial));
    var o1 := app.ClearCompletedTasks();
    once := app.store;
    var o2 := app.ClearCompletedTasks();
    twice := app.store;
    ClearCompletedKeepsPending(initial);
  }
}
