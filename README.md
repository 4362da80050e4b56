# Todo list: reducer and add/edit controller

This project models the logic of a single-page to-do widget (`src/todolist.jsx`)
and proves properties of it in Dafny.

The widget has two layers:

- **The reducer** (`todoReducer`) is a pure, total transition function. It
  takes the list of todo items and an action and returns the next list:
  - `SET_TODOS` replaces the list;
  - `ADD_TODO` appends an item;
  - `DELETE_TODO` filters out the items with a given id;
  - `UPDATE_TODO` retitles the items with a given id;
  - every other action leaves the state alone.

  The state record has one field, `todos`. Each of the four action cases
  rebuilds it with a spread of the old state, and the default case returns
  the state itself. So the model works on `seq<Todo>` directly
  (`TodoReducer.Reduce`). The filter and the map are the recursive functions
  `Without` and `Retitled`.
- **The controller** is the component's handler logic. It holds the reducer's
  list, the input box's text (`newTodo`) and the item under edit
  (`editingTodo`, `null` in add mode). It is the class `TodoApp.TodoList`,
  with fields `todos`, `buffer` and `mode`. The nullable item becomes the
  variant `Mode = Adding | Editing(id, title)`. Its handlers are methods:
  - `Load` is a successful fetch;
  - `SetText` is typing;
  - `EditOn` is the Edit button;
  - `Delete` is the Delete button;
  - `Submit` is the submit button. It routes to add or update by the mode,
    as the button's `onClick` does.

The reducer is specified against independent notions:
- `HasId`: some position carries the id;
- `UniqueIds`: no two positions share an id;
- `IsSubsequence`: order-preserving deletion of positions;
- multiset multiplicities.

The id of a new item comes from the clock in the source (`Date.now()`). Here
it is the parameter `freshId` of `Submit`. Freshness is a hypothesis only
where a property needs it: the uniqueness clause of `Submit`,
`ReducePreservesUniqueIds` and `AddThenDelete`.

DELETE_TODO and UPDATE_TODO act on every item whose id matches
(src/todolist.jsx:15, 19-21), not only on one. `WithoutLength` shows that at
most one item goes when ids are unique.

## Model

| member | source | states |
|---|---|---|
| `TodoReducer.Reduce` | src/todolist.jsx:8-26 | one case per action type; apart from SET_TODOS it never invents an item (each result item was listed, is the added item, or carries the updated id and title), and only SET_TODOS and ADD_TODO can lengthen the list; the per-case properties are the lemmas below |
| `TodoReducer.Without` | src/todolist.jsx:15 | the filter never lengthens the list, and every item it keeps was listed and has another id |
| `TodoReducer.Retitled` | src/todolist.jsx:19-21 | the map keeps the length and the id at every position, and every item it yields was listed or is the matching id with the new title |
| `TodoReducer.SetTodosReplaces` | src/todolist.jsx:10-11 | SET_TODOS makes the list exactly the payload, whatever the old list was |
| `TodoReducer.AddTodoAppends` | src/todolist.jsx:12-13 | ADD_TODO gives `old + [item]`: one more item, the payload last, every earlier position unchanged |
| `TodoReducer.UnknownIsNoOp` | src/todolist.jsx:23-24 | an unrecognised action returns the list unchanged |
| `TodoReducer.WithoutMultiplicity` | src/todolist.jsx:15 | after the filter, an item with the deleted id occurs zero times; any other item occurs as often as before |
| `TodoReducer.WithoutMembership` | src/todolist.jsx:15 | an item survives DELETE_TODO if and only if it was in the list and its id differs |
| `TodoReducer.WithoutIsSubsequence` | src/todolist.jsx:15 | the survivors keep their original relative order (the result is a subsequence of the input) |
| `TodoReducer.WithoutAppend` | src/todolist.jsx:15 | the filter distributes over concatenation |
| `TodoReducer.WithoutRemovesId` | src/todolist.jsx:15 | no remaining item carries the deleted id |
| `TodoReducer.WithoutAbsent` | src/todolist.jsx:15 | deleting an id that no item carries leaves the list unchanged |
| `TodoReducer.WithoutLength` | src/todolist.jsx:15 | with unique ids, the list shrinks by one if the id is present and not at all otherwise |
| `TodoReducer.DeleteTodoFilters` | src/todolist.jsx:14-15 | DELETE_TODO keeps exactly the items with another id, every copy of each, in order; none with the id remains; an absent id changes nothing; deleting twice equals deleting once |
| `TodoReducer.AddThenDelete` | src/todolist.jsx:12-15 | adding an item with a new id and then deleting that id gives back the original list |
| `TodoReducer.RetitledAt` | src/todolist.jsx:19-21 | the map keeps length; each position with the id becomes that id with the new title; every other position is unchanged |
| `TodoReducer.UpdateTodoRetitles` | src/todolist.jsx:16-22 | UPDATE_TODO preserves length and every id, gives each matching item the new title, leaves the others unchanged, and changes nothing when no id matches |
| `TodoReducer.RetitleSameTitle` | src/todolist.jsx:16-22 | with unique ids, updating a listed item to the title it already has is a no-op |
| `TodoReducer.UpdateThenDelete` | src/todolist.jsx:14-22 | deleting an id after retitling it equals just deleting it |
| `TodoReducer.ReducePreservesUniqueIds` | src/todolist.jsx:8-26 | every action keeps ids unique, given that a replacement list is unique and an added id is new |
| `TodoReducer.WithoutUnique` | src/todolist.jsx:15 | filtering keeps ids unique |
| `TodoReducer.Scenario` | src/todolist.jsx:8-26 | the worked run: replace with [1:A, 2:B], delete 1, add 3:C, retitle 3 to C2 gives [2:B, 3:C2]; deleting 999 from [1:A] changes nothing; the method `TodoApp.Walkthrough` drives the same run through the controller's handlers |
| `TodoApp.TodoList.constructor` | src/todolist.jsx:29-31 | the controller starts with the initial empty list (lines 4-6), an empty buffer and add mode |
| `TodoApp.TodoList.Load` | src/todolist.jsx:41-43 | a successful fetch dispatches SET_TODOS with the fetched items; buffer and mode are unchanged |
| `TodoApp.TodoList.SetText` | src/todolist.jsx:86 | typing replaces the buffer; list and mode are unchanged |
| `TodoApp.TodoList.EditOn` | src/todolist.jsx:71-74 | after Edit, the buffer is the item's title and the mode is bound to the item; the list is unchanged |
| `TodoApp.TodoList.Delete` | src/todolist.jsx:58-60 | Delete dispatches DELETE_TODO: exactly the items with another id remain, every copy of each and in their order, and none with the id; buffer and mode are unchanged |
| `TodoApp.TodoList.Submit` | src/todolist.jsx:49-69 | the button at line 90 emits ADD_TODO with `{freshId, buffer}` in add mode and UPDATE_TODO for the bound id with the buffer in edit mode, applies it to the list, keeps ids unique when they were unique and a new id is fresh, and always ends in add mode with an empty buffer |

## Left out

- The startup `fetch` and its promise chain (src/todolist.jsx:33-47) are network I/O and asynchronous. Only the success outcome is modelled, as `Load` (one SET_TODOS). The failure path only logs to the console and dispatches nothing.
- `Date.now()` (src/todolist.jsx:51) is a clock. It is the `freshId` parameter of `Submit`. Freshness is not guaranteed by the source, so `Submit` does not require it.
- JSX rendering, the Bootstrap import, the button label chosen by the mode (line 92) and the wiring of `onChange` to `SetText` are presentation only.
- React's `useReducer`, `useState` and `useEffect` are framework plumbing. `dispatch` is modelled as applying `Reduce` to the controller's list. React's batching of state updates is not modelled: each handler's updates are applied together.
- Fetched items are typed records with an integer `id` and a string `title`. Extra JSON fields, string ids and malformed payloads are not modelled. JavaScript's `===` on numbers is modelled as equality of unbounded integers.
