/**
 * The module-level task list of the page and its persisted copy. Every
 * operation reassigns the list with one of the pure transformations of
 * module Tasks; add, toggle, delete and save-edit then copy the list to
 * storage, start-edit and cancel-edit do not.
 */
module Store {
  import opened Text
  import opened Tasks

  class TodoList {
    /** The in-memory list, in display order. */
    var todos: seq<Task>
    /** What the storage key "todos" holds: the list as of the last save. */
    ghost var stored: seq<Task>

    /** Page load: the stored snapshot when there is one, otherwise the empty list. */
    constructor (snapshot: Option<seq<Task>>)
      ensures todos == (if snapshot.Some? then snapshot.value else [])
      ensures stored == todos
    {
      todos := if snapshot.Some? then snapshot.value else [];
      stored := todos;
    }

    /** saveTodos: overwrite the stored snapshot with the current list. */
    method SaveTodos()
      modifies this`stored
      ensures stored == todos
    {
      stored := todos;
    }

    /**
     * addTodo with the input text, the chosen deadline (None when the field
     * is empty), the start of the current day and the clock reading. On a
     * refusal nothing changes; on success exactly one task is appended and
     * the list is saved.
     */
    method AddTodo(input: string, deadline: Option<int>, startOfToday: int, now: nat)
      returns (outcome: NewTask)
      modifies this
      ensures outcome == Validate(input, deadline, startOfToday, now)
      ensures outcome.Rejected? ==> todos == old(todos) && stored == old(stored)
      ensures outcome.Accepted? ==>
                && todos == old(todos) + [outcome.task]
                && outcome.task == Task(ClockId(now), Trim(input), false, deadline, false)
                && stored == todos
      ensures DistinctIds(old(todos)) && ClockId(now) !in Ids(old(todos)) ==> DistinctIds(todos)
    {
      outcome := Validate(input, deadline, startOfToday, now);
      if outcome.Rejected? {
        return;
      }
      if DistinctIds(todos) && ClockId(now) !in Ids(todos) {
        AddKeepsDistinct(todos, input, deadline, startOfToday, now);
      }
      todos := Added(todos, outcome);
      SaveTodos();
    }

    /** toggleTodo: flip completed on the entries with this id, then save. */
    method ToggleTodo(id: string)
      modifies this
      ensures todos == UpdateWhere(old(todos), id, Flip) && stored == todos
      ensures |todos| == |old(todos)|
      ensures forall i :: 0 <= i < |todos| ==>
                && todos[i].completed == (old(todos)[i].completed != (old(todos)[i].id == id))
                && todos[i].id == old(todos)[i].id && todos[i].text == old(todos)[i].text
                && todos[i].deadline == old(todos)[i].deadline && todos[i].editing == old(todos)[i].editing
      ensures id !in Ids(old(todos)) ==> todos == old(todos)
      ensures DistinctIds(old(todos)) ==> DistinctIds(todos)
    {
      if id !in Ids(todos) {
        UpdateAbsent(todos, id, Flip);
      }
      if DistinctIds(todos) {
        UpdateKeepsDistinct(todos, id, Flip);
      }
      todos := UpdateWhere(todos, id, Flip);
      SaveTodos();
    }

    /** deleteTodo: keep the entries with a different id, in order, then save. */
    method DeleteTodo(id: string)
      modifies this
      ensures todos == Without(old(todos), id) && stored == todos
      ensures |todos| == |old(todos)| - Occurrences(old(todos), id)
      ensures forall t :: t in todos <==> t in old(todos) && t.id != id
      ensures forall t :: multiset(todos)[t] == if t.id == id then 0 else multiset(old(todos))[t]
      ensures id !in Ids(old(todos)) ==> todos == old(todos)
      ensures DistinctIds(old(todos)) ==> DistinctIds(todos)
      ensures DistinctIds(old(todos)) && id in Ids(old(todos)) ==> |todos| == |old(todos)| - 1
    {
      WithoutCounts(todos, id);
      if id !in Ids(todos) {
        WithoutAbsent(todos, id);
      }
      if DistinctIds(todos) {
        WithoutKeepsDistinct(todos, id);
        if id in Ids(todos) {
          var k :| 0 <= k < |todos| && Ids(todos)[k] == id;
          DistinctOccursOnce(todos, k);
        }
      }
      todos := Without(todos, id);
      SaveTodos();
    }

    /** startEdit: mark the entries with this id as being edited; not saved. */
    method StartEdit(id: string)
      modifies this`todos
      ensures todos == UpdateWhere(old(todos), id, BeginEdit)
      ensures |todos| == |old(todos)|
      ensures forall i :: 0 <= i < |todos| ==>
                && todos[i].editing == (old(todos)[i].editing || old(todos)[i].id == id)
                && todos[i].id == old(todos)[i].id && todos[i].text == old(todos)[i].text
                && todos[i].completed == old(todos)[i].completed && todos[i].deadline == old(todos)[i].deadline
      ensures DistinctIds(old(todos)) ==> DistinctIds(todos)
    {
      if DistinctIds(todos) {
        UpdateKeepsDistinct(todos, id, BeginEdit);
      }
      todos := UpdateWhere(todos, id, BeginEdit);
    }

    /**
     * saveEdit: text that trims to nothing changes nothing (the entry stays
     * in editing); otherwise the entries with this id get the trimmed text and
     * leave editing, and the list is saved.
     */
    method SaveEdit(id: string, newText: string)
      modifies this
      ensures AllWhitespace(newText) ==> todos == old(todos) && stored == old(stored)
      ensures !AllWhitespace(newText) ==>
                todos == UpdateWhere(old(todos), id, Revise(Trim(newText))) && stored == todos
      ensures |todos| == |old(todos)|
      ensures forall i :: 0 <= i < |todos| ==>
                && todos[i].id == old(todos)[i].id
                && todos[i].completed == old(todos)[i].completed && todos[i].deadline == old(todos)[i].deadline
                && (if old(todos)[i].id == id && !AllWhitespace(newText)
                    then todos[i].text == Trim(newText) && todos[i].text != [] && !todos[i].editing
                    else todos[i] == old(todos)[i])
      ensures DistinctIds(old(todos)) ==> DistinctIds(todos)
    {
      var text := Trim(newText);
      if text == [] {
        return;
      }
      if DistinctIds(todos) {
        UpdateKeepsDistinct(todos, id, Revise(text));
      }
      todos := UpdateWhere(todos, id, Revise(text));
      SaveTodos();
    }

    /** cancelEdit: the entries with this id leave editing, text untouched; not saved. */
    method CancelEdit(id: string)
      modifies this`todos
      ensures todos == UpdateWhere(old(todos), id, EndEdit)
      ensures |todos| == |old(todos)|
      ensures forall i :: 0 <= i < |todos| ==>
                && todos[i].editing == (old(todos)[i].editing && old(todos)[i].id != id)
                && todos[i].id == old(todos)[i].id && todos[i].text == old(todos)[i].text
                && todos[i].completed == old(todos)[i].completed && todos[i].deadline == old(todos)[i].deadline
      ensures DistinctIds(old(todos)) ==> DistinctIds(todos)
    {
      if DistinctIds(todos) {
        UpdateKeepsDistinct(todos, id, EndEdit);
      }
      todos := UpdateWhere(todos, id, EndEdit);
    }
  }

  /**
   * The life of one task: starting from an empty list, add "Buy milk" with no
   * deadline, toggle it, delete it; the list ends empty and saved.
   */
  method BuyMilk(startOfToday: int, now: nat)
  {
    var milk := "Buy milk";
    TrimmedIsFixed(milk);
    var list := new TodoList(None);
    var outcome := list.AddTodo(milk, None, startOfToday, now);
    assert outcome == Accepted(Task(ClockId(now), milk, false, None, false));
    var id := outcome.task.id;
    assert list.todos == [outcome.task];
    list.ToggleTodo(id);
    assert list.todos[0].completed && list.todos[0].text == milk;
    list.DeleteTodo(id);
    assert list.todos == [] && list.stored == [];
  }
}
