/**
 The records of the to-do service and the pure rules its handlers apply:
 the automatic priority given to a new item, the first-match lookup used by
 replace and toggle, and the filter used by delete.
 */
module Todos {

  datatype Option<T> = None | Some(value: T) {
    /** The wrapped value, or `default` when there is none (Python's `dict.get(key, default)`). */
    function GetOr(default: T): T {
      if Some? then value else default
    }
  }

  /** The only error the core reports; it becomes HTTP 404 at the boundary. */
  datatype Error = NotFound

  datatype Result<T> = Ok(value: T) | Err(error: Error)

  /** Confirmation returned by a successful delete. */
  const DeletedMessage: string := "To-Do item deleted"

  /**
   A to-do record as kept in the backing document. Records written by the
   service always carry `completed` and `priority`; a record loaded from a
   document written by hand may lack either key, which the handlers read with
   a default. Every record is taken to carry a string `id`, `title` and
   `description`.
   */
  datatype Item = Item(
    id: string,
    title: string,
    description: string,
    completed: Option<bool>,
    priority: Option<real>)

  /** Body of a create request; `completed` already defaulted to false by the boundary. */
  datatype TodoCreate = TodoCreate(
    title: string,
    description: string,
    completed: bool,
    priority: Option<real>)

  /** Body of a replace request: a complete item, whose `id` the handler ignores. */
  datatype TodoItem = TodoItem(
    id: string,
    title: string,
    description: string,
    completed: bool,
    priority: real)

  /** `completed`, an absent key counting as false. */
  function IsCompleted(t: Item): (done: bool) {
    t.completed.GetOr(false)
  }

  /** `priority`, an absent key counting as 0. */
  function PriorityOf(t: Item): (p: real) {
    t.priority.GetOr(0.0)
  }

  predicate HasId(s: seq<Item>, id: string) {
    exists k :: 0 <= k < |s| && s[k].id == id
  }

  /** The uniqueness of ids the service intends but never checks. */
  predicate UniqueIds(s: seq<Item>) {
    forall i, j :: 0 <= i < j < |s| ==> s[i].id != s[j].id
  }

  /** Same length, and the same id at every position. */
  predicate SameIds(s: seq<Item>, u: seq<Item>) {
    |s| == |u| && forall k :: 0 <= k < |s| ==> s[k].id == u[k].id
  }

  // ---------------------------------------------------------------------------
  // List comprehension with a condition
  // ---------------------------------------------------------------------------

  /** `[x for x in s if keep(x)]`. */
  function Filter<T(!new)>(s: seq<T>, keep: T -> bool): (r: seq<T>)
    ensures |r| <= |s|
    ensures forall x :: x in r <==> x in s && keep(x)
  {
    if s == [] then []
    else if keep(s[0]) then [s[0]] + Filter(s[1..], keep)
    else Filter(s[1..], keep)
  }

  /** Filtering distributes over concatenation: it keeps the survivors in their original order. */
  lemma {:induction false} FilterAppend<T(!new)>(a: seq<T>, b: seq<T>, keep: T -> bool)
    ensures Filter(a + b, keep) == Filter(a, keep) + Filter(b, keep)
  {
    if a == [] {
      assert a + b == b;
    } else {
      assert (a + b)[1..] == a[1..] + b;
      FilterAppend(a[1..], b, keep);
    }
  }

  /** Nothing is dropped exactly when every element passes, and then the filter is the identity. */
  lemma {:induction false} FilterKeepsAll<T(!new)>(s: seq<T>, keep: T -> bool)
    ensures |Filter(s, keep)| == |s| <==> forall k :: 0 <= k < |s| ==> keep(s[k])
    ensures (forall k :: 0 <= k < |s| ==> keep(s[k])) ==> Filter(s, keep) == s
  {
    if s != [] {
      FilterKeepsAll(s[1..], keep);
      if !keep(s[0]) {
        assert |Filter(s, keep)| < |s|;
      } else {
        assert forall k :: 1 <= k < |s| ==> s[k] == s[1..][k - 1];
      }
    }
  }

  // ---------------------------------------------------------------------------
  // Automatic priority (create)
  // ---------------------------------------------------------------------------

  /** The items that are not completed, in stored order. */
  function Incomplete(s: seq<Item>): (r: seq<Item>)
    ensures forall t :: t in r <==> t in s && !IsCompleted(t)
  {
    Filter(s, (t: Item) => !IsCompleted(t))
  }

  /** Largest priority of a non-empty sequence, absent priorities counting as 0. */
  function MaxPriority(s: seq<Item>): (r: real)
    requires s != []
    ensures forall k :: 0 <= k < |s| ==> PriorityOf(s[k]) <= r
    ensures exists k :: 0 <= k < |s| && PriorityOf(s[k]) == r
  {
    if |s| == 1 then PriorityOf(s[0])
    else
      var rest := MaxPriority(s[1..]);
      assert forall k :: 1 <= k < |s| ==> s[k] == s[1..][k - 1];
      if PriorityOf(s[0]) >= rest then PriorityOf(s[0]) else rest
  }

  /**
   The priority a create request without one receives: one more than the
   largest priority among incomplete items, or 1.0 when no item is incomplete.
   */
  function AutoPriority(s: seq<Item>): (r: real)
    ensures (forall t :: t in s ==> IsCompleted(t)) ==> r == 1.0
    ensures forall t :: t in s && !IsCompleted(t) ==> PriorityOf(t) + 1.0 <= r
    ensures (exists t :: t in s && !IsCompleted(t)) ==>
              exists t :: t in s && !IsCompleted(t) && r == PriorityOf(t) + 1.0
  {
    var open := Incomplete(s);
    if open == [] then 1.0
    else
      var m := MaxPriority(open);
      assert forall t :: t in open ==> PriorityOf(t) <= m by {
        forall t | t in open ensures PriorityOf(t) <= m {
          var k :| 0 <= k < |open| && open[k] == t;
        }
      }
      var k :| 0 <= k < |open| && PriorityOf(open[k]) == m;
      assert open[k] in open;
      m + 1.0
  }

  /**
   Creating an incomplete item with the automatic priority makes the next
   automatic priority exactly one higher: consecutive creates without a
   priority get 1.0, 2.0, 3.0, ... when nothing is completed in between.
   */
  lemma ConsecutiveAutoPriorities(s: seq<Item>, x: Item)
    requires !IsCompleted(x) && PriorityOf(x) == AutoPriority(s)
    ensures AutoPriority(s + [x]) == AutoPriority(s) + 1.0
  {
  }

  /** Appending a completed item does not move the automatic priority. */
  lemma CompletedItemKeepsAutoPriority(s: seq<Item>, x: Item)
    requires IsCompleted(x)
    ensures AutoPriority(s + [x]) == AutoPriority(s)
  {
  }

  /** From an empty store, two creates without a priority get 1.0 and then 2.0. */
  lemma TwoAutoCreatesFromEmpty(first: Item)
    requires !IsCompleted(first) && first.priority == Some(AutoPriority([]))
    ensures AutoPriority([]) == 1.0
    ensures AutoPriority([first]) == 2.0
  {
  }

  // ---------------------------------------------------------------------------
  // First match (replace, toggle)
  // ---------------------------------------------------------------------------

  /** Position of the first item whose id is `id`, if any. */
  function FirstIndex(s: seq<Item>, id: string): (r: Option<nat>)
    ensures r.None? <==> !HasId(s, id)
    ensures r.Some? ==> r.value < |s| && s[r.value].id == id &&
                        forall k :: 0 <= k < r.value ==> s[k].id != id
  {
    if s == [] then None
    else if s[0].id == id then Some(0)
    else
      match FirstIndex(s[1..], id)
      case None =>
        assert forall k :: 1 <= k < |s| ==> s[k] == s[1..][k - 1];
        None
      case Some(i) => Some(i + 1)
  }

  /** The first match depends on the ids only, so an update that keeps ids keeps it. */
  lemma FirstIndexOfSameIds(s: seq<Item>, u: seq<Item>, id: string)
    requires SameIds(s, u)
    ensures FirstIndex(u, id) == FirstIndex(s, id)
  {
  }

  /** Item after a replace: every field from the body, except the id, which is the path id. */
  function Overwrite(id: string, body: TodoItem): (u: Item) {
    Item(id, body.title, body.description, Some(body.completed), Some(body.priority))
  }

  /** Item after a toggle: `completed` negated (absent counting as false), nothing else changed. */
  function Flip(t: Item): (u: Item) {
    t.(completed := Some(!IsCompleted(t)))
  }

  /**
   Toggling the same id twice hits the same item both times and restores its
   completion state; when the item stored `completed` explicitly, the whole
   sequence is restored.
   */
  lemma ToggleTwiceRestores(s: seq<Item>, id: string)
    requires HasId(s, id)
    ensures var i := FirstIndex(s, id).value;
            var once := s[i := Flip(s[i])];
            FirstIndex(once, id) == Some(i) &&
            IsCompleted(once[i]) == !IsCompleted(s[i]) &&
            IsCompleted(Flip(once[i])) == IsCompleted(s[i]) &&
            (s[i].completed.Some? ==> once[i := Flip(once[i])] == s)
  {
  }

  /** Whether ids are unique depends on the ids only: an update that keeps them keeps uniqueness. */
  lemma SameIdsKeepUnique(s: seq<Item>, u: seq<Item>)
    requires SameIds(s, u)
    ensures UniqueIds(u) <==> UniqueIds(s)
  {
  }

  // ---------------------------------------------------------------------------
  // Delete's filter
  // ---------------------------------------------------------------------------

  /** Delete's condition: the item's id differs from `id`. */
  function Other(id: string): (keep: Item -> bool) {
    (t: Item) => t.id != id
  }

  /** `[t for t in s if t.id != id]`. */
  function Without(s: seq<Item>, id: string): (r: seq<Item>)
    ensures !HasId(r, id)
    ensures forall t :: t in r <==> t in s && t.id != id
  {
    var r := Filter(s, Other(id));
    assert forall k :: 0 <= k < |r| ==> r[k] in r;
    r
  }

  /**
   Delete's length test is exact: the filter drops something iff some item
   has the id, and otherwise returns the sequence unchanged.
   */
  lemma WithoutShrinksIff(s: seq<Item>, id: string)
    ensures |Without(s, id)| < |s| <==> HasId(s, id)
    ensures !HasId(s, id) ==> Without(s, id) == s
  {
    FilterKeepsAll(s, Other(id));
  }

  /** Delete keeps the other items in their original order (it commutes with concatenation). */
  lemma WithoutAppend(a: seq<Item>, b: seq<Item>, id: string)
    ensures Without(a + b, id) == Without(a, id) + Without(b, id)
  {
    FilterAppend(a, b, Other(id));
  }

  /** A second delete of the same id finds nothing to remove. */
  lemma DeleteTwiceNotFound(s: seq<Item>, id: string)
    ensures |Without(Without(s, id), id)| == |Without(s, id)|
    ensures Without(Without(s, id), id) == Without(s, id)
  {
    WithoutShrinksIff(Without(s, id), id);
  }

  /** One step of delete's comprehension. */
  lemma WithoutStep(s: seq<Item>, id: string)
    requires s != []
    ensures Without(s, id) == if s[0].id != id then [s[0]] + Without(s[1..], id)
                              else Without(s[1..], id)
  {
  }

  /** The tail of a sequence with unique ids has unique ids, none equal to the head's. */
  lemma UniqueTail(s: seq<Item>)
    requires s != [] && UniqueIds(s)
    ensures UniqueIds(s[1..])
    ensures !HasId(s[1..], s[0].id)
  {
  }

  /** With unique ids, delete keeps ids unique. */
  lemma {:induction false} WithoutKeepsUnique(s: seq<Item>, id: string)
    requires UniqueIds(s)
    ensures UniqueIds(Without(s, id))
  {
    if s != [] {
      UniqueTail(s);
      WithoutKeepsUnique(s[1..], id);
      WithoutStep(s, id);
      var rest := Without(s[1..], id);
      if s[0].id != id {
        var w := Without(s, id);
        forall i, j | 0 <= i < j < |w| ensures w[i].id != w[j].id {
          if i == 0 {
            assert w[j] == rest[j - 1] && rest[j - 1] in rest;
            assert w[j] in s[1..];
          } else {
            assert w[i] == rest[i - 1] && w[j] == rest[j - 1];
          }
        }
      }
    }
  }

  /** With unique ids, delete removes exactly one item when the id is present. */
  lemma {:induction false} WithoutRemovesOne(s: seq<Item>, id: string)
    requires UniqueIds(s)
    ensures |Without(s, id)| == if HasId(s, id) then |s| - 1 else |s|
  {
    if s != [] {
      var tail := s[1..];
      UniqueTail(s);
      WithoutRemovesOne(tail, id);
      WithoutStep(s, id);
      if s[0].id == id {
        assert !HasId(tail, id);
      } else {
        assert HasId(s, id) <==> HasId(tail, id) by {
          if HasId(s, id) {
            var k :| 0 <= k < |s| && s[k].id == id;
            assert tail[k - 1] == s[k];
          }
          if HasId(tail, id) {
            var k :| 0 <= k < |tail| && tail[k].id == id;
            assert s[k + 1] == tail[k];
          }
        }
      }
    }
  }
}
