/** The todo widget's controller: the reducer's list, the text buffer of the
    input box and the add/edit mode, updated by the component's handlers. */
module TodoApp {
  import opened TodoReducer

  /** The item under edit, as an explicit variant: `Adding` where the
      component holds `null`, `Editing` bound to an item's id and title. */
  datatype Mode = Adding | Editing(id: int, title: string)

  class TodoList {
    var todos: seq<Todo>   // the reducer state
    var buffer: string     // the text in the input box
    var mode: Mode         // which action a submit produces

    /** A fresh component: no items, an empty box, add mode. */
    constructor ()
      ensures todos == InitialTodos
      ensures buffer == [] && mode == Adding
    {
      todos := InitialTodos;
      buffer := [];
      mode := Adding;
    }

    /** A successful startup fetch: its items replace the list. */
    method Load(payload: seq<Todo>)
      modifies this
      ensures todos == Reduce(old(todos), SetTodos(payload)) && todos == payload
      ensures buffer == old(buffer) && mode == old(mode)
    {
      SetTodosReplaces(todos, payload);
      todos := Reduce(todos, SetTodos(payload));
    }

    /** Typing into the input box replaces the buffer and nothing else. */
    method SetText(s: string)
      modifies this
      ensures buffer == s
      ensures todos == old(todos) && mode == old(mode)
    {
      buffer := s;
    }

    /** The Edit button: the box shows the item's title and the mode is bound
        to the item. The item need not be in the list. */
    method EditOn(t: Todo)
      modifies this
      ensures buffer == t.title && mode == Editing(t.id, t.title)
      ensures todos == old(todos)
    {
      buffer := t.title;
      mode := Editing(t.id, t.title);
    }

    /** The Delete button: the items with this id leave the list; the buffer
        and the mode stay as they were. */
    method Delete(id: int)
      modifies this
      ensures todos == Reduce(old(todos), DeleteTodo(id))
      ensures forall t :: multiset(todos)[t] == if t.id == id then 0 else multiset(old(todos))[t]
      ensures forall t :: t in todos <==> t in old(todos) && t.id != id
      ensures IsSubsequence(todos, old(todos))
      ensures !HasId(todos, id)
      ensures buffer == old(buffer) && mode == old(mode)
    {
      DeleteTodoFilters(todos, id);
      todos := Reduce(todos, DeleteTodo(id));
    }

    /** The submit button. In add mode it appends an item with the given id and
        the buffer as title; in edit mode it retitles the bound id with the
        buffer. Either way it returns the action it dispatched, and ends in add
        mode with an empty buffer. */
    method Submit(freshId: int) returns (action: Action)
      modifies this
      ensures old(mode).Adding? ==> action == AddTodo(Todo(freshId, old(buffer)))
      ensures old(mode).Editing? ==> action == UpdateTodo(old(mode).id, old(buffer))
      ensures todos == Reduce(old(todos), action)
      ensures old(mode).Adding? ==> todos == old(todos) + [Todo(freshId, old(buffer))]
      ensures old(mode).Editing? ==> |todos| == |old(todos)|
      ensures old(mode).Editing? ==>
        forall i :: 0 <= i < |old(todos)| ==>
          todos[i] == if old(todos)[i].id == old(mode).id then Todo(old(mode).id, old(buffer)) else old(todos)[i]
      ensures UniqueIds(old(todos)) && (old(mode).Adding? ==> !HasId(old(todos), freshId)) ==> UniqueIds(todos)
      ensures buffer == [] && mode == Adding
    {
      if mode.Adding? {
        action := AddTodo(Todo(freshId, buffer));
      } else {
        action := UpdateTodo(mode.id, buffer);
        RetitledAt(todos, mode.id, buffer);
      }
      if UniqueIds(todos) && (mode.Adding? ==> !HasId(todos, freshId)) {
        ReducePreservesUniqueIds(todos, action);
      }
      todos := Reduce(todos, action);
      mode := Adding;
      buffer := [];
    }
  }

  /** The reducer's worked run, driven through the controller's handlers. */
  method Walkthrough()
  {
    var app := new TodoList();
    app.Load([Todo(1, "A"), Todo(2, "B")]);
    app.Delete(1);
    assert [Todo(1, "A"), Todo(2, "B")][1..] == [Todo(2, "B")];
    assert [Todo(2, "B")][1..] == [];
    assert app.todos == [Todo(2, "B")];
    app.SetText("C");
    var added := app.Submit(3);
    assert added == AddTodo(Todo(3, "C"));
    assert app.todos == [Todo(2, "B"), Todo(3, "C")];
    app.EditOn(Todo(3, "C"));
    assert app.buffer == "C";
    app.SetText("C2");
    var updated := app.Submit(4);
    assert updated == UpdateTodo(3, "C2");
    assert app.todos == [Todo(2, "B"), Todo(3, "C2")];
    assert app.mode == Adding && app.buffer == "";
  }
}
