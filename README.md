# To-do store of FastApi-Todos, modelled in Dafny

The service keeps a list of to-do items (`id`, `title`, `description`,
`completed`, `priority`) in one JSON document. Every HTTP handler loads the
whole list, changes it and saves it back. This project models that list and
the five handlers of `fastapi-app/main.py`:

- **List** (`get_todos`) returns the list as stored.
- **Create** (`create_todo`) appends a new item. An explicit priority is kept
  verbatim. Without one, the new priority is one more than the largest priority
  among items not completed, or 1.0 when no item is incomplete.
- **Replace** (`update_todo`) overwrites the first item with the path id by the
  request body. The path id is kept.
- **Toggle** (`toggle_todo`) negates `completed` of the first item with the path id.
- **Delete** (`delete_todo`) filters out every item with the path id. It reports
  NotFound when the length did not change.

Layout:

- `todos.dfy`, module `Todos`: the records, the pure parts of the handlers,
  and the lemmas about them. The pure parts are the priority rule (a list
  comprehension and `max`), the first-match lookup, and delete's comprehension.
- `todo_store.dfy`, module `TodoApp`: class `TodoStore`. Its field `todos: seq<Item>`
  stands for the backing document. Each handler is a method that `modifies this`.
  Replace and Toggle search with a `while` loop, as the source does.
  Each method's `ensures` gives the whole new document in terms of the
  old one and the functions of `Todos`.

Records read from a document may lack `completed` or `priority`, and the
handlers read those keys with a default (false and 0). So `Item` holds both
fields as `Option`, and `IsCompleted` and `PriorityOf` apply the defaults.
Priorities are `real`.

Points where the code does less than its own comments and tests suggest:

- The comment at `fastapi-app/main.py:54` speaks of a unique new id, but
  nothing checks uniqueness. Create never compares the new id with the stored
  ones. So uniqueness is not an invariant of the store. Instead, each method
  proves that it keeps unique ids unique; for Create this holds only when the
  new id is fresh.
- Delete removes *every* item with the id, not just one. With unique ids that
  is exactly one item (`WithoutRemovesOne`).
- The tests at `fastapi-app/tests/test_main.py:232-268` exercise a
  priority-only update (`PATCH /todos/{id}/priority`), and `PriorityUpdate` is
  declared at `fastapi-app/main.py:26-27`. But `main.py` has no handler for
  it, so it is not modelled.

## Model

| member | source | states |
|---|---|---|
| `Todos.Filter` | fastapi-app/main.py:105 | a conditional list comprehension keeps exactly the elements that pass the condition and never grows the list |
| `Todos.FilterAppend` | fastapi-app/main.py:105 | the comprehension distributes over concatenation, so survivors keep their original relative order |
| `Todos.FilterKeepsAll` | fastapi-app/main.py:105-106 | the comprehension keeps the length iff every element passes, and then returns the list unchanged |
| `Todos.Incomplete` | fastapi-app/main.py:60 | the incomplete items are exactly the stored items whose `completed` (absent meaning false) is false |
| `Todos.MaxPriority` | fastapi-app/main.py:62 | `max` of the priorities (absent meaning 0) is an upper bound of every item's priority and is attained by one of them |
| `Todos.AutoPriority` | fastapi-app/main.py:59-65 | with no incomplete item the automatic priority is 1.0; otherwise it is at least one more than every incomplete item's priority and exactly one more than some incomplete item's priority |
| `Todos.ConsecutiveAutoPriorities` | fastapi-app/main.py:60-65 | appending an incomplete item that got the automatic priority raises the next automatic priority by exactly 1 |
| `Todos.CompletedItemKeepsAutoPriority` | fastapi-app/main.py:60 | appending a completed item leaves the automatic priority unchanged |
| `Todos.TwoAutoCreatesFromEmpty` | fastapi-app/main.py:60-65 | on an empty store two creates without a priority get 1.0 and then 2.0 |
| `Todos.FirstIndex` | fastapi-app/main.py:82-83 | the lookup finds no position iff no item has the id; otherwise it gives a position holding the id with no earlier item holding it |
| `Todos.FirstIndexOfSameIds` | fastapi-app/main.py:94-95 | the first match depends only on the ids, so a later replace or toggle of the same id targets the same item |
| `Todos.SameIdsKeepUnique` | fastapi-app/main.py:84-86 | an update that keeps every id keeps the ids unique, and the converse |
| `Todos.ToggleTwiceRestores` | fastapi-app/main.py:94-98 | toggling one id twice targets the same item and restores its completion state; the whole list is restored when `completed` was stored explicitly |
| `Todos.Without` | fastapi-app/main.py:105 | delete's result holds no item with the id and holds exactly the stored items with other ids |
| `Todos.WithoutShrinksIff` | fastapi-app/main.py:105-106 | the length drops iff some item has the id; with no such item the list is unchanged |
| `Todos.WithoutAppend` | fastapi-app/main.py:105 | delete's filter distributes over concatenation, so the remaining items stay in their original order |
| `Todos.DeleteTwiceNotFound` | fastapi-app/main.py:105-109 | a second delete of the same id removes nothing, so it reports NotFound |
| `Todos.WithoutKeepsUnique` | fastapi-app/main.py:105 | deleting from a list with unique ids leaves unique ids |
| `Todos.WithoutRemovesOne` | fastapi-app/main.py:105-106 | with unique ids, delete removes exactly one item when the id is present and none otherwise |
| `TodoApp.TodoStore.constructor` | fastapi-app/main.py:33-37 | the store holds the loaded document as is |
| `TodoApp.TodoStore.List` | fastapi-app/main.py:46-48 | returns the whole stored list in stored order |
| `TodoApp.TodoStore.Create` | fastapi-app/main.py:52-76 | appends exactly one item, leaving the existing items in place; the item has the given id, title, description and completed, the explicit priority if given and the automatic priority of the old list otherwise; a fresh id keeps unique ids unique |
| `TodoApp.TodoStore.Replace` | fastapi-app/main.py:80-89 | with no item of that id: NotFound and nothing changes; otherwise the first such item, and no other, becomes the body's fields under the path id, and that item is returned; ids keep their positions |
| `TodoApp.TodoStore.Toggle` | fastapi-app/main.py:92-99 | with no item of that id: NotFound and nothing changes; otherwise only `completed` of the first such item changes, to the negation of its old value (absent meaning false), and that item is returned |
| `TodoApp.TodoStore.Delete` | fastapi-app/main.py:103-109 | succeeds with the deletion message iff some item has the id, and the store becomes delete's filter of the old list; on NotFound nothing changes; with unique ids exactly one item goes |

## Left out

- Loading and saving the JSON file (`fastapi-app/main.py:33-42`). The document is the `todos` field. The constructor stands for a load, and an absent file loads as an empty list.
- Id generation with `uuid4` (`fastapi-app/main.py:55`). The new id is a parameter of Create; freshness is a hypothesis, not a guarantee.
- HTTP routing and request validation by the web framework. That includes the 422 answer to a create body without `title` or `description`: the model's request types always carry both.
- Response validation of returned items. A toggled record that lacks `priority` is saved, but the framework would then fail the response. The model returns the item.
- Keys other than the five item fields. `dict.update` keeps such keys in a replaced record, but the model has no place for them.
- Stored records are taken to carry a string `id`, `title` and `description`. A record without an `id` key makes update, toggle and delete fail with a `KeyError` (an HTTP 500), and a non-string id such as the number `5` matches the path id `"5"` through `str()` (`fastapi-app/main.py:83, 95, 105`) and is rewritten as a string by Replace (`fastapi-app/main.py:85`). Neither the missing key nor the `str()` coercion is modelled.
- A `completed` or `priority` key present with a JSON `null` or a non-boolean or non-numeric value. The model only distinguishes present from absent.
- Floating-point behaviour of `priority` (rounding, infinities, NaN). Priorities are exact reals.
- Serving the HTML page (`fastapi-app/main.py:112-116`). This is file I/O only.
- Concurrent requests and lost updates between load and save. The source has no locking.
- The priority-only update endpoint. It is not implemented in `fastapi-app/main.py`.
