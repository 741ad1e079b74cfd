/**
 The request handlers of the to-do service. Each handler loads the backing
 document, changes it and saves it back; the model keeps the document as the
 `todos` field of a `TodoStore`, so a load is a read of the field and a save
 an assignment to it. A handler that fails saves nothing.
 */
module TodoApp {
  import opened Todos

  class TodoStore {
    /** The backing document: every stored item, in file order. */
    var todos: seq<Item>

    /** A store over a loaded document; an absent file loads as `[]`. */
    constructor (document: seq<Item>)
      ensures todos == document
    {
      todos := document;
    }

    /** GET /todos: the whole document, unfiltered, in stored order. */
    method List() returns (r: seq<Item>)
      ensures r == todos
    {
      r := todos;
    }

    /**
     POST /todos: appends one new item with the caller's fresh `newId`. An
     explicit priority is stored verbatim; otherwise the automatic priority
     of the items already stored is used.
     */
    method Create(newId: string, req: TodoCreate) returns (item: Item)
      modifies this
      ensures item.id == newId
      ensures item.title == req.title && item.description == req.description
      ensures item.completed == Some(req.completed)
      ensures req.priority.Some? ==> item.priority == req.priority
      ensures req.priority.None? ==> item.priority == Some(AutoPriority(old(todos)))
      ensures todos == old(todos) + [item]
      ensures UniqueIds(old(todos)) && !HasId(old(todos), newId) ==> UniqueIds(todos)
    {
      var priority: real;
      if req.priority.Some? {
        priority := req.priority.value;
      } else {
        priority := AutoPriority(todos);
      }
      item := Item(newId, req.title, req.description, Some(req.completed), Some(priority));
      todos := todos + [item];
    }

    /**
     PUT /todos/{id}: overwrites the first item whose id is `id` with the
     body, keeping `id` whatever the body's id says.
     */
    method Replace(id: string, body: TodoItem) returns (r: Result<Item>)
      modifies this
      ensures match FirstIndex(old(todos), id)
              case None => r == Err(NotFound) && todos == old(todos)
              case Some(i) => r == Ok(Overwrite(id, body)) && todos == old(todos)[i := Overwrite(id, body)]
      ensures SameIds(old(todos), todos)
      ensures UniqueIds(old(todos)) ==> UniqueIds(todos)
    {
      var i := 0;
      while i < |todos|
        invariant 0 <= i <= |todos|
        invariant forall k :: 0 <= k < i ==> todos[k].id != id
      {
        if todos[i].id == id {
          var updated := Overwrite(id, body);
          ghost var before := todos;
          todos := todos[i := updated];
          assert SameIds(before, todos);
          SameIdsKeepUnique(before, todos);
          return Ok(updated);
        }
        i := i + 1;
      }
      return Err(NotFound);
    }

    /**
     PATCH /todos/{id}/toggle: negates `completed` of the first item whose
     id is `id`, an absent value counting as false.
     */
    method Toggle(id: string) returns (r: Result<Item>)
      modifies this
      ensures match FirstIndex(old(todos), id)
              case None => r == Err(NotFound) && todos == old(todos)
              case Some(i) => r == Ok(Flip(old(todos)[i])) && todos == old(todos)[i := Flip(old(todos)[i])]
      ensures SameIds(old(todos), todos)
      ensures UniqueIds(old(todos)) ==> UniqueIds(todos)
    {
      var i := 0;
      while i < |todos|
        invariant 0 <= i <= |todos|
        invariant forall k :: 0 <= k < i ==> todos[k].id != id
      {
        if todos[i].id == id {
          var updated := Flip(todos[i]);
          ghost var before := todos;
          todos := todos[i := updated];
          assert SameIds(before, todos);
          SameIdsKeepUnique(before, todos);
          return Ok(updated);
        }
        i := i + 1;
      }
      return Err(NotFound);
    }

    /**
     DELETE /todos/{id}: removes every item whose id is `id`, keeping the
     others in order; reports NotFound when nothing was removed.
     */
    method Delete(id: string) returns (r: Result<string>)
      modifies this
      ensures r.Ok? <==> HasId(old(todos), id)
      ensures r.Ok? ==> r.value == DeletedMessage && todos == Without(old(todos), id)
      ensures r.Err? ==> r.error == NotFound && todos == old(todos)
      ensures UniqueIds(old(todos)) ==> UniqueIds(todos) && |todos| == |old(todos)| - (if r.Ok? then 1 else 0)
    {
      var kept := Without(todos, id);
      WithoutShrinksIff(todos, id);
      if UniqueIds(todos) {
        WithoutKeepsUnique(todos, id);
        WithoutRemovesOne(todos, id);
      }
      if |kept| != |todos| {
        todos := kept;
        r := Ok(DeletedMessage);
      } else {
        r := Err(NotFound);
      }
    }
  }
}
