/** The todo-list reducer: a total, pure transition function from a list of
    items and an action to the next list of items.

    The reducer's state record holds exactly one field, `todos`; each of the
    four action cases rebuilds it with `{ ...state, todos: ... }` and the
    default case returns the state itself. The spread therefore copies
    nothing else, and the model works on the list itself. */
module TodoReducer {

  /** One item of the list: a numeric identifier and a display title. */
  datatype Todo = Todo(id: int, title: string)

  /** The actions the reducer recognises, plus every other action. */
  datatype Action =
    | SetTodos(todos: seq<Todo>)         // replace the whole list
    | AddTodo(todo: Todo)                // append one item
    | DeleteTodo(id: int)                // drop the items with this id
    | UpdateTodo(id: int, title: string) // retitle the items with this id
    | Unknown                            // any other action type

  /** The list the application starts from. */
  const InitialTodos: seq<Todo> := []

  /** The reducer: one case per action type, and the state unchanged otherwise.
      Except for a replacement, it never invents an item: every item of the
      result was already listed, is the added item, or is a retitled item
      with the action's id and title; and only ADD_TODO and SET_TODOS can
      grow the list. */
  function Reduce(todos: seq<Todo>, action: Action): (r: seq<Todo>)
    ensures !action.SetTodos? ==> forall t :: t in r ==>
      t in todos || (action.AddTodo? && t == action.todo) ||
      (action.UpdateTodo? && t == Todo(action.id, action.title))
    ensures !action.SetTodos? && !action.AddTodo? ==> |r| <= |todos|
  {
    match action
    case SetTodos(payload) => payload
    case AddTodo(item) => todos + [item]
    case DeleteTodo(id) => Without(todos, id)
    case UpdateTodo(id, title) => Retitled(todos, id, title)
    case Unknown => todos
  }

  /** The items whose id differs from `id`, in their original order. */
  function Without(todos: seq<Todo>, id: int): (r: seq<Todo>)
    ensures |r| <= |todos|
    ensures forall t :: t in r ==> t in todos && t.id != id
  {
    if todos == [] then []
    else if todos[0].id == id then Without(todos[1..], id)
    else [todos[0]] + Without(todos[1..], id)
  }

  /** Each item with the id gets the new title; the others stay as they are. */
  function Retitled(todos: seq<Todo>, id: int, title: string): (r: seq<Todo>)
    ensures |r| == |todos|
    ensures forall i :: 0 <= i < |r| ==> r[i].id == todos[i].id
    ensures forall t :: t in r ==> t in todos || t == Todo(id, title)
  {
    if todos == [] then []
    else [if todos[0].id == id then todos[0].(title := title) else todos[0]]
         + Retitled(todos[1..], id, title)
  }

  // ---------------------------------------------------------------------
  // Reference notions the reducer is specified against

  /** Some item of the list carries this id. */
  predicate HasId(todos: seq<Todo>, id: int)
  {
    exists i :: 0 <= i < |todos| && todos[i].id == id
  }

  /** No two positions of the list carry the same id. */
  predicate UniqueIds(todos: seq<Todo>)
  {
    forall i, j :: 0 <= i < j < |todos| ==> todos[i].id != todos[j].id
  }

  /** `sub` is obtained from `s` by deleting some positions, keeping the
      relative order of the others. */
  predicate IsSubsequence(sub: seq<Todo>, s: seq<Todo>)
    decreases |s|
  {
    sub == [] ||
    (s != [] &&
     ((sub[0] == s[0] && IsSubsequence(sub[1..], s[1..])) || IsSubsequence(sub, s[1..])))
  }

  // ---------------------------------------------------------------------
  // SET_TODOS, ADD_TODO and the default case

  /** SET_TODOS installs its payload verbatim, whatever the old list was. */
  lemma SetTodosReplaces(todos: seq<Todo>, payload: seq<Todo>)
    ensures Reduce(todos, SetTodos(payload)) == payload
  {
  }

  /** ADD_TODO appends: one more item, the payload last, the rest untouched. */
  lemma AddTodoAppends(todos: seq<Todo>, item: Todo)
    ensures Reduce(todos, AddTodo(item)) == todos + [item]
    ensures |Reduce(todos, AddTodo(item))| == |todos| + 1
    ensures Reduce(todos, AddTodo(item))[|todos|] == item
    ensures forall i :: 0 <= i < |todos| ==> Reduce(todos, AddTodo(item))[i] == todos[i]
  {
  }

  /** An action the reducer does not recognise is a no-op. */
  lemma UnknownIsNoOp(todos: seq<Todo>)
    ensures Reduce(todos, Unknown) == todos
  {
  }

  // ---------------------------------------------------------------------
  // DELETE_TODO

  /** The filter keeps every copy of an item whose id differs and no copy of
      an item whose id matches. */
  lemma {:induction false} WithoutMultiplicity(todos: seq<Todo>, id: int, t: Todo)
    ensures multiset(Without(todos, id))[t] == if t.id == id then 0 else multiset(todos)[t]
  {
    if todos != [] {
      WithoutMultiplicity(todos[1..], id, t);
      assert todos == [todos[0]] + todos[1..];
      assert multiset(todos) == multiset([todos[0]]) + multiset(todos[1..]);
    }
  }

  /** An item survives DELETE_TODO exactly when it was there and its id differs. */
  lemma {:induction false} WithoutMembership(todos: seq<Todo>, id: int, t: Todo)
    ensures t in Without(todos, id) <==> t in todos && t.id != id
  {
    WithoutMultiplicity(todos, id, t);
  }

  /** The survivors keep their original relative order. */
  lemma {:induction false} WithoutIsSubsequence(todos: seq<Todo>, id: int)
    ensures IsSubsequence(Without(todos, id), todos)
  {
    if todos != [] {
      WithoutIsSubsequence(todos[1..], id);
      var rest := Without(todos[1..], id);
      if todos[0].id != id {
        assert ([todos[0]] + rest)[1..] == rest;
      }
    }
  }

  /** The filter distributes over concatenation. */
  lemma {:induction false} WithoutAppend(a: seq<Todo>, b: seq<Todo>, id: int)
    ensures Without(a + b, id) == Without(a, id) + Without(b, id)
  {
    if a == [] {
      assert a + b == b;
    } else {
      assert (a + b)[0] == a[0];
      assert (a + b)[1..] == a[1..] + b;
      WithoutAppend(a[1..], b, id);
    }
  }

  /** No remaining item has the deleted id (a consequence of `Without`'s
      own contract). */
  lemma WithoutRemovesId(todos: seq<Todo>, id: int)
    ensures !HasId(Without(todos, id), id)
  {
  }

  /** Deleting an id that no item carries leaves the list unchanged. */
  lemma {:induction false} WithoutAbsent(todos: seq<Todo>, id: int)
    requires !HasId(todos, id)
    ensures Without(todos, id) == todos
  {
    if todos != [] {
      assert todos[0].id != id;
      assert !HasId(todos[1..], id) by {
        forall i | 0 <= i < |todos[1..]|
          ensures todos[1..][i].id != id
        {
          assert todos[1..][i] == todos[i + 1];
        }
      }
      WithoutAbsent(todos[1..], id);
      assert todos == [todos[0]] + todos[1..];
    }
  }

  /** With unique ids, DELETE_TODO removes one item if the id is present and
      none otherwise. */
  lemma {:induction false} WithoutLength(todos: seq<Todo>, id: int)
    requires UniqueIds(todos)
    ensures |Without(todos, id)| == if HasId(todos, id) then |todos| - 1 else |todos|
  {
    if todos == [] {
    } else {
      var tail := todos[1..];
      assert UniqueIds(tail) by {
        forall i, j | 0 <= i < j < |tail|
          ensures tail[i].id != tail[j].id
        {
          assert tail[i] == todos[i + 1] && tail[j] == todos[j + 1];
        }
      }
      WithoutLength(tail, id);
      assert HasId(tail, id) ==> HasId(todos, id) by {
        if HasId(tail, id) {
          var i :| 0 <= i < |tail| && tail[i].id == id;
          assert todos[i + 1].id == id;
        }
      }
      if todos[0].id == id {
        assert HasId(todos, id);
        assert !HasId(tail, id) by {
          forall i | 0 <= i < |tail|
            ensures tail[i].id != id
          {
            assert tail[i] == todos[i + 1];
          }
        }
        WithoutAbsent(tail, id);
      } else {
        assert HasId(todos, id) ==> HasId(tail, id) by {
          if HasId(todos, id) {
            var i :| 0 <= i < |todos| && todos[i].id == id;
            assert i > 0 && tail[i - 1] == todos[i];
          }
        }
      }
    }
  }

  /** DELETE_TODO, stated on the reducer: exactly the items with another id
      remain, every copy of them and in their original order; no survivor has
      the id; an absent id changes nothing; and deleting twice is deleting
      once. */
  lemma DeleteTodoFilters(todos: seq<Todo>, id: int)
    ensures forall t ::
      multiset(Reduce(todos, DeleteTodo(id)))[t] == if t.id == id then 0 else multiset(todos)[t]
    ensures forall t :: t in Reduce(todos, DeleteTodo(id)) <==> t in todos && t.id != id
    ensures IsSubsequence(Reduce(todos, DeleteTodo(id)), todos)
    ensures !HasId(Reduce(todos, DeleteTodo(id)), id)
    ensures !HasId(todos, id) ==> Reduce(todos, DeleteTodo(id)) == todos
    ensures Reduce(Reduce(todos, DeleteTodo(id)), DeleteTodo(id)) == Reduce(todos, DeleteTodo(id))
  {
    forall t
      ensures multiset(Without(todos, id))[t] == if t.id == id then 0 else multiset(todos)[t]
      ensures t in Without(todos, id) <==> t in todos && t.id != id
    {
      WithoutMultiplicity(todos, id, t);
      WithoutMembership(todos, id, t);
    }
    WithoutIsSubsequence(todos, id);
    WithoutRemovesId(todos, id);
    if !HasId(todos, id) {
      WithoutAbsent(todos, id);
    }
    WithoutAbsent(Without(todos, id), id);
  }

  /** Adding an item whose id is new and then deleting that id gives back
      the original list. */
  lemma AddThenDelete(todos: seq<Todo>, item: Todo)
    requires !HasId(todos, item.id)
    ensures Reduce(Reduce(todos, AddTodo(item)), DeleteTodo(item.id)) == todos
  {
    WithoutAppend(todos, [item], item.id);
    WithoutAbsent(todos, item.id);
    assert [item][1..] == [];
  }

  // ---------------------------------------------------------------------
  // UPDATE_TODO

  /** The map, position by position: same length, same ids, the matching
      items carry the new title and every other item is unchanged. */
  lemma {:induction false} RetitledAt(todos: seq<Todo>, id: int, title: string)
    ensures |Retitled(todos, id, title)| == |todos|
    ensures forall i :: 0 <= i < |todos| ==>
      Retitled(todos, id, title)[i] ==
        if todos[i].id == id then Todo(id, title) else todos[i]
  {
    if todos != [] {
      RetitledAt(todos[1..], id, title);
      var r := Retitled(todos, id, title);
      forall i | 0 <= i < |todos|
        ensures r[i] == if todos[i].id == id then Todo(id, title) else todos[i]
      {
        if i > 0 {
          assert r[i] == Retitled(todos[1..], id, title)[i - 1];
          assert todos[1..][i - 1] == todos[i];
        }
      }
    }
  }

  /** UPDATE_TODO, stated on the reducer: length and every id are preserved,
      each matching item gets the new title, every other item is unchanged,
      and an id that no item carries changes nothing. */
  lemma UpdateTodoRetitles(todos: seq<Todo>, id: int, title: string)
    ensures |Reduce(todos, UpdateTodo(id, title))| == |todos|
    ensures forall i :: 0 <= i < |todos| ==> Reduce(todos, UpdateTodo(id, title))[i].id == todos[i].id
    ensures forall i :: 0 <= i < |todos| && todos[i].id == id ==>
      Reduce(todos, UpdateTodo(id, title))[i].title == title
    ensures forall i :: 0 <= i < |todos| && todos[i].id != id ==>
      Reduce(todos, UpdateTodo(id, title))[i] == todos[i]
    ensures !HasId(todos, id) ==> Reduce(todos, UpdateTodo(id, title)) == todos
  {
    RetitledAt(todos, id, title);
  }

  /** Re-submitting an item with the title it already has is a no-op when
      ids are unique (editing and saving without typing). */
  lemma RetitleSameTitle(todos: seq<Todo>, t: Todo)
    requires UniqueIds(todos) && t in todos
    ensures Reduce(todos, UpdateTodo(t.id, t.title)) == todos
  {
    RetitledAt(todos, t.id, t.title);
    var k :| 0 <= k < |todos| && todos[k] == t;
    var r := Retitled(todos, t.id, t.title);
    forall i | 0 <= i < |todos|
      ensures r[i] == todos[i]
    {
      if todos[i].id == t.id {
        assert i == k;
      }
    }
  }

  /** Deleting an id after retitling it is the same as just deleting it. */
  lemma {:induction false} UpdateThenDelete(todos: seq<Todo>, id: int, title: string)
    ensures Reduce(Reduce(todos, UpdateTodo(id, title)), DeleteTodo(id)) == Reduce(todos, DeleteTodo(id))
  {
    if todos != [] {
      UpdateThenDelete(todos[1..], id, title);
      var head := if todos[0].id == id then todos[0].(title := title) else todos[0];
      var r := [head] + Retitled(todos[1..], id, title);
      assert r[0] == head && r[1..] == Retitled(todos[1..], id, title);
    }
  }

  // ---------------------------------------------------------------------
  // Id uniqueness

  /** Every transition keeps ids unique, given that a replacement list is
      itself unique and that an added item's id is new; neither condition
      is checked by the reducer. */
  lemma ReducePreservesUniqueIds(todos: seq<Todo>, action: Action)
    requires UniqueIds(todos)
    requires action.SetTodos? ==> UniqueIds(action.todos)
    requires action.AddTodo? ==> !HasId(todos, action.todo.id)
    ensures UniqueIds(Reduce(todos, action))
  {
    match action
    case SetTodos(_) =>
    case AddTodo(item) =>
    case DeleteTodo(id) =>
      WithoutUnique(todos, id);
    case UpdateTodo(id, title) =>
      RetitledAt(todos, id, title);
    case Unknown =>
  }

  /** Filtering keeps ids unique. */
  lemma {:induction false} WithoutUnique(todos: seq<Todo>, id: int)
    requires UniqueIds(todos)
    ensures UniqueIds(Without(todos, id))
  {
    if todos != [] {
      var tail := todos[1..];
      assert UniqueIds(tail) by {
        forall i, j | 0 <= i < j < |tail|
          ensures tail[i].id != tail[j].id
        {
          assert tail[i] == todos[i + 1] && tail[j] == todos[j + 1];
        }
      }
      WithoutUnique(tail, id);
      if todos[0].id != id {
        var rest := Without(tail, id);
        var r := [todos[0]] + rest;
        forall i, j | 0 <= i < j < |r|
          ensures r[i].id != r[j].id
        {
          if i == 0 {
            assert r[j] == rest[j - 1];
            WithoutMembership(tail, id, rest[j - 1]);
            var k :| 0 <= k < |tail| && tail[k] == rest[j - 1];
            assert todos[k + 1] == tail[k];
          } else {
            assert r[i] == rest[i - 1] && r[j] == rest[j - 1];
          }
        }
      }
    }
  }

  // ---------------------------------------------------------------------
  // A worked run of the reducer

  /** Replace with [1:A, 2:B], delete 1, add 3:C, retitle 3 to C2; and a
      delete of an absent id on a one-item list. */
  lemma Scenario()
    ensures Reduce(InitialTodos, SetTodos([Todo(1, "A"), Todo(2, "B")])) == [Todo(1, "A"), Todo(2, "B")]
    ensures Reduce([Todo(1, "A"), Todo(2, "B")], DeleteTodo(1)) == [Todo(2, "B")]
    ensures Reduce([Todo(2, "B")], AddTodo(Todo(3, "C"))) == [Todo(2, "B"), Todo(3, "C")]
    ensures Reduce([Todo(2, "B"), Todo(3, "C")], UpdateTodo(3, "C2")) == [Todo(2, "B"), Todo(3, "C2")]
    ensures Reduce([Todo(1, "A")], DeleteTodo(999)) == [Todo(1, "A")]
  {
  }
}
