/** The to-do list engine: each user's list is one document holding an
    ordered array of items, each item numbered by `exercise_todo_id`. The
    store is a map from user to document; every operation is a pure function
    from the old store to a success flag and the new store. */
module TodoList {
  import opened Common
  import opened Catalog

  /** The id the first item of an empty or missing list receives. */
  const FirstTodoId := 1000

  /** What `item.get("exercise_todo_id", 999)` yields for an item without an
      id; also `max`'s default for an empty list. */
  const MissingIdValue := 999

  /** A free-form field value (`working_time`, `reps`, `weight`): a form
      string, or a number. */
  datatype Field = Str(s: string) | Num(n: int)

  /** One element of the `todo` array. `todoId` is `None` for an element
      without an `exercise_todo_id` key; the optional fields are stored
      explicitly as `None` when unset. */
  datatype TodoItem = TodoItem(
    todoId: Option<int>,
    exerciseId: ExerciseId,
    workoutName: string,
    workingTime: Option<Field>,
    reps: Option<Field>,
    weight: Option<Field>)

  /** A user's to-do document; `todo` is `None` when the document has no
      `todo` field. */
  datatype TodoDoc = TodoDoc(todo: Option<seq<TodoItem>>)

  /** The `todo` collection, keyed by `user_id`. */
  type Todos = map<UserId, TodoDoc>

  /** A mutation's outcome: the boolean the source returns and the store
      after the call. */
  datatype Outcome = Outcome(ok: bool, todos: Todos)

  /** What `get_latest_todo_id` produces: `None` for an empty list, the
      largest id, or the `ValueError` `max` raises when no item has an id. */
  datatype Latest = NoItems | LatestId(id: int) | NoIdError

  // ----- Reading -----

  /** `get_todo`: the user's items, or the empty list when there is no
      document or the document has no `todo` field. */
  function GetTodo(todos: Todos, user: UserId): (r: seq<TodoItem>)
    ensures user !in todos ==> r == []
    ensures user in todos && todos[user].todo.None? ==> r == []
    ensures user in todos && todos[user].todo.Some? ==> r == todos[user].todo.value
  {
    if user in todos && todos[user].todo.Some? then todos[user].todo.value else []
  }

  /** Some item of `items` carries the id. */
  predicate HasId(items: seq<TodoItem>, id: int) {
    exists k :: 0 <= k < |items| && items[k].todoId == Some(id)
  }

  /** The position of the first item carrying the id (where MongoDB's
      positional `$` points). */
  function FirstIndex(items: seq<TodoItem>, id: int): (k: nat)
    requires HasId(items, id)
    ensures k < |items| && items[k].todoId == Some(id)
    ensures forall j :: 0 <= j < k ==> items[j].todoId != Some(id)
  {
    if items[0].todoId == Some(id) then 0
    else
      assert HasId(items[1..], id) by {
        var k :| 0 <= k < |items| && items[k].todoId == Some(id);
        assert items[1..][k - 1] == items[k];
      }
      1 + FirstIndex(items[1..], id)
  }

  /** `get_exercise_in_todo`: a linear scan for the first item whose id
      equals the requested one; `None` when there is no list or no match. */
  method GetExerciseInTodo(todos: Todos, user: UserId, id: int) returns (r: Option<TodoItem>)
    ensures r.None? <==> !HasId(GetTodo(todos, user), id)
    ensures r.Some? ==>
              exists k :: 0 <= k < |GetTodo(todos, user)| && GetTodo(todos, user)[k] == r.value
                          && r.value.todoId == Some(id)
                          && forall j :: 0 <= j < k ==> GetTodo(todos, user)[j].todoId != Some(id)
  {
    if user !in todos {
      return None;
    }
    var items := match todos[user].todo case Some(s) => s case None => [];
    var i := 0;
    while i < |items|
      invariant 0 <= i <= |items|
      invariant forall j :: 0 <= j < i ==> items[j].todoId != Some(id)
    {
      if items[i].todoId == Some(id) {
        return Some(items[i]);
      }
      i := i + 1;
    }
    return None;
  }

  /** The largest id present among `items`, if any item has one. */
  function MaxPresentId(items: seq<TodoItem>): (r: Option<int>)
    ensures r.None? <==> forall k :: 0 <= k < |items| ==> items[k].todoId.None?
    ensures r.Some? ==> exists k :: 0 <= k < |items| && items[k].todoId == r
    ensures r.Some? ==> forall k :: 0 <= k < |items| && items[k].todoId.Some? ==> items[k].todoId.value <= r.value
  {
    if items == [] then None
    else
      var rest := MaxPresentId(items[1..]);
      assert forall k :: 1 <= k < |items| ==> items[k] == items[1..][k - 1];
      match items[0].todoId
      case None => rest
      case Some(n) => if rest.Some? && rest.value > n then rest else Some(n)
  }

  /** `get_latest_todo_id`. */
  function GetLatestTodoId(todos: Todos, user: UserId): (r: Latest)
    ensures r.NoItems? <==> GetTodo(todos, user) == []
    ensures r.NoIdError? <==> GetTodo(todos, user) != [] && forall k :: 0 <= k < |GetTodo(todos, user)| ==> GetTodo(todos, user)[k].todoId.None?
    ensures r.LatestId? ==> HasId(GetTodo(todos, user), r.id)
    ensures r.LatestId? ==> forall k :: 0 <= k < |GetTodo(todos, user)| && GetTodo(todos, user)[k].todoId.Some? ==> GetTodo(todos, user)[k].todoId.value <= r.id
  {
    var items := GetTodo(todos, user);
    if items == [] then NoItems
    else match MaxPresentId(items)
      case None => NoIdError
      case Some(m) => LatestId(m)
  }

  // ----- Adding -----

  /** The value an item contributes to the next-id computation. */
  function IdOrDefault(item: TodoItem): int {
    match item.todoId
    case Some(n) => n
    case None => MissingIdValue
  }

  /** `max([item.get("exercise_todo_id", 999) ...], default=999)`. */
  function MaxId(items: seq<TodoItem>): (r: int)
    ensures items == [] ==> r == MissingIdValue
    ensures forall k :: 0 <= k < |items| ==> IdOrDefault(items[k]) <= r
    ensures items != [] ==> exists k :: 0 <= k < |items| && IdOrDefault(items[k]) == r
  {
    if |items| <= 1 then
      if items == [] then MissingIdValue else IdOrDefault(items[0])
    else
      var rest := MaxId(items[1..]);
      assert forall k :: 1 <= k < |items| ==> items[k] == items[1..][k - 1];
      if IdOrDefault(items[0]) >= rest then IdOrDefault(items[0]) else rest
  }

  /** The id `add_todo` gives a new item: one more than the largest id of an
      existing list (items without id counting as 999), or 1000. */
  function NextId(todos: Todos, user: UserId): (r: int)
    ensures GetTodo(todos, user) == [] ==> r == FirstTodoId
    ensures forall k :: 0 <= k < |GetTodo(todos, user)| && GetTodo(todos, user)[k].todoId.Some? ==>
              GetTodo(todos, user)[k].todoId.value < r
    ensures (exists k :: 0 <= k < |GetTodo(todos, user)| && GetTodo(todos, user)[k].todoId.None?) ==> r >= FirstTodoId
    ensures GetTodo(todos, user) != [] ==> r == MaxId(GetTodo(todos, user)) + 1
  {
    if user in todos && todos[user].todo.Some? then MaxId(todos[user].todo.value) + 1
    else FirstTodoId
  }

  /** The item `add_todo` builds for a catalog exercise. */
  function NewItem(e: Exercise, id: int, workingTime: Option<Field>, reps: Option<Field>, weight: Option<Field>): TodoItem {
    TodoItem(Some(id), e.id, e.workoutName, workingTime, reps, weight)
  }

  /** `add_todo`: fails without effect when the exercise is not in the
      catalog; otherwise appends one new item with the next id (`$push` onto
      an existing document, which creates the array when the field is
      missing, or `insert_one` of a fresh document). */
  function AddTodo(catalog: seq<Exercise>, todos: Todos, user: UserId, exerciseId: ExerciseId,
                   workingTime: Option<Field>, reps: Option<Field>, weight: Option<Field>): (r: Outcome)
    ensures r.ok <==> FindExercise(catalog, exerciseId).Some?
    ensures !r.ok ==> r.todos == todos
    ensures r.ok ==> r.todos.Keys == todos.Keys + {user}
    ensures r.ok ==> forall u :: u in todos && u != user ==> r.todos[u] == todos[u]
    ensures r.ok ==> |GetTodo(r.todos, user)| == |GetTodo(todos, user)| + 1
    ensures r.ok ==> GetTodo(r.todos, user)[..|GetTodo(todos, user)|] == GetTodo(todos, user)
    ensures r.ok ==>
              var added := GetTodo(r.todos, user)[|GetTodo(todos, user)|];
              && added.todoId == Some(NextId(todos, user))
              && added.exerciseId == exerciseId
              && added.workoutName == FindExercise(catalog, exerciseId).value.workoutName
              && added.workingTime == workingTime && added.reps == reps && added.weight == weight
  {
    match FindExercise(catalog, exerciseId)
    case None => Outcome(false, todos)
    case Some(e) =>
      var item := NewItem(e, NextId(todos, user), workingTime, reps, weight);
      var items := GetTodo(todos, user);
      assert (items + [item])[..|items|] == items;
      Outcome(true, todos[user := TodoDoc(Some(items + [item]))])
  }

  // ----- Deleting -----

  /** The items not carrying the id, in their original order (`$pull`). */
  function RemoveId(items: seq<TodoItem>, id: int): (r: seq<TodoItem>)
    ensures |r| <= |items|
    ensures forall x :: x in r <==> x in items && x.todoId != Some(id)
  {
    if items == [] then []
    else (if items[0].todoId == Some(id) then [] else [items[0]]) + RemoveId(items[1..], id)
  }

  /** `delete_todo`: `$pull` every item with the id; reports whether the
      document changed. */
  function DeleteTodo(todos: Todos, user: UserId, id: int): (r: Outcome)
    ensures r.ok <==> HasId(GetTodo(todos, user), id)
    ensures !r.ok ==> r.todos == todos
    ensures r.todos.Keys == todos.Keys
    ensures forall u :: u in todos && u != user ==> r.todos[u] == todos[u]
    ensures !HasId(GetTodo(r.todos, user), id)
    ensures forall x :: x in GetTodo(r.todos, user) <==> x in GetTodo(todos, user) && x.todoId != Some(id)
    ensures r.ok ==> GetTodo(r.todos, user) == RemoveId(GetTodo(todos, user), id)
  {
    var items := GetTodo(todos, user);
    if HasId(items, id) then
      Outcome(true, todos[user := TodoDoc(Some(RemoveId(items, id)))])
    else
      assert forall x :: x in items ==> x.todoId != Some(id);
      Outcome(false, todos)
  }

  // ----- Editing -----

  /** A partial `$set`: a given field replaces the stored one. */
  function Override(given: Option<Field>, stored: Option<Field>): Option<Field> {
    if given.Some? then given else stored
  }

  /** The item after `$set` of the given fields. */
  function Patch(item: TodoItem, workingTime: Option<Field>, weight: Option<Field>, reps: Option<Field>): TodoItem {
    item.(workingTime := Override(workingTime, item.workingTime),
          reps := Override(reps, item.reps),
          weight := Override(weight, item.weight))
  }

  /** `edit_exercise`: refuses an edit with no field to set; otherwise sets
      the given fields on the first item with the id and reports whether the
      document matched (not whether anything changed). */
  function EditExercise(todos: Todos, user: UserId, id: int,
                        workingTime: Option<Field>, weight: Option<Field>, reps: Option<Field>): (r: Outcome)
    ensures r.ok <==> (workingTime.Some? || weight.Some? || reps.Some?) && HasId(GetTodo(todos, user), id)
    ensures !r.ok ==> r.todos == todos
    ensures r.todos.Keys == todos.Keys
    ensures forall u :: u in todos && u != user ==> r.todos[u] == todos[u]
    ensures |GetTodo(r.todos, user)| == |GetTodo(todos, user)|
    ensures r.ok ==>
              var old_ := GetTodo(todos, user);
              var new_ := GetTodo(r.todos, user);
              var k := FirstIndex(old_, id);
              && (forall j :: 0 <= j < |old_| && j != k ==> new_[j] == old_[j])
              && new_[k].todoId == old_[k].todoId
              && new_[k].exerciseId == old_[k].exerciseId
              && new_[k].workoutName == old_[k].workoutName
              && new_[k].workingTime == (if workingTime.Some? then workingTime else old_[k].workingTime)
              && new_[k].weight == (if weight.Some? then weight else old_[k].weight)
              && new_[k].reps == (if reps.Some? then reps else old_[k].reps)
  {
    if workingTime.None? && weight.None? && reps.None? then Outcome(false, todos)
    else
      var items := GetTodo(todos, user);
      if HasId(items, id) then
        var k := FirstIndex(items, id);
        Outcome(true, todos[user := TodoDoc(Some(items[k := Patch(items[k], workingTime, weight, reps)]))])
      else Outcome(false, todos)
  }
}
