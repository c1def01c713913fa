/** Properties of the to-do list engine that relate several calls: the id
    invariant every operation preserves, the numbering of successive adds,
    and the reuse of an id after the largest one is deleted. */
module TodoProperties {
  import opened Common
  import opened Catalog
  import opened TodoList

  /** Every item has an id and ids strictly increase along the list. */
  predicate IdsIncreasing(items: seq<TodoItem>) {
    && (forall k :: 0 <= k < |items| ==> items[k].todoId.Some?)
    && (forall i, j :: 0 <= i < j < |items| ==> IdOrDefault(items[i]) < IdOrDefault(items[j]))
  }

  /** The invariant of a list built only through the engine: increasing ids,
      none below 1000. */
  predicate ValidList(items: seq<TodoItem>) {
    IdsIncreasing(items) && forall k :: 0 <= k < |items| ==> IdOrDefault(items[k]) >= FirstTodoId
  }

  predicate ValidStore(todos: Todos) {
    forall u :: u in todos ==> ValidList(GetTodo(todos, u))
  }

  /** The ids are exactly 1000, 1001, ... in list order. */
  predicate Consecutive(items: seq<TodoItem>) {
    forall k :: 0 <= k < |items| ==> items[k].todoId == Some(FirstTodoId + k)
  }

  /** A run of `add_todo` calls without optional fields, one per exercise id. */
  function AddMany(catalog: seq<Exercise>, todos: Todos, user: UserId, exerciseIds: seq<ExerciseId>): Todos
    decreases |exerciseIds|
  {
    if exerciseIds == [] then todos
    else AddMany(catalog, AddTodo(catalog, todos, user, exerciseIds[0], None, None, None).todos, user, exerciseIds[1..])
  }

  // ----- Preservation of the id invariant -----

  /** Replacing one user's list by a valid list keeps a valid store valid. */
  lemma ReplaceKeepsStoreValid(todos: Todos, after: Todos, user: UserId)
    requires ValidStore(todos)
    requires after.Keys <= todos.Keys + {user}
    requires forall u :: u in todos && u != user ==> u in after && after[u] == todos[u]
    requires ValidList(GetTodo(after, user))
    ensures ValidStore(after)
  {
    forall u | u in after
      ensures ValidList(GetTodo(after, u))
    {
      if u != user {
        assert GetTodo(after, u) == GetTodo(todos, u);
      }
    }
  }

  /** A valid list followed by an item with a larger id (at least 1000) is
      valid. */
  lemma SnocValid(items: seq<TodoItem>, item: TodoItem)
    requires ValidList(items)
    requires item.todoId.Some? && IdOrDefault(item) >= FirstTodoId
    requires forall k :: 0 <= k < |items| ==> IdOrDefault(items[k]) < IdOrDefault(item)
    ensures ValidList(items + [item])
  {
    var r := items + [item];
    assert forall k :: 0 <= k < |items| ==> r[k] == items[k];
  }

  /** An item with an id smaller than every id of a valid list, put in
      front of it, gives a valid list. */
  lemma ConsValid(item: TodoItem, items: seq<TodoItem>)
    requires ValidList(items)
    requires item.todoId.Some? && IdOrDefault(item) >= FirstTodoId
    requires forall x :: x in items ==> IdOrDefault(item) < IdOrDefault(x)
    ensures ValidList([item] + items)
  {
    var r := [item] + items;
    assert forall k :: 0 < k < |r| ==> r[k] == items[k - 1] && items[k - 1] in items;
  }

  /** `add_todo` keeps every list valid. */
  lemma AddPreservesValid(catalog: seq<Exercise>, todos: Todos, user: UserId, exerciseId: ExerciseId,
                          workingTime: Option<Field>, reps: Option<Field>, weight: Option<Field>)
    requires ValidStore(todos)
    ensures ValidStore(AddTodo(catalog, todos, user, exerciseId, workingTime, reps, weight).todos)
  {
    var r := AddTodo(catalog, todos, user, exerciseId, workingTime, reps, weight);
    if r.ok {
      var old_ := GetTodo(todos, user);
      var new_ := GetTodo(r.todos, user);
      assert ValidList(old_) by {
        if user in todos {
          assert ValidList(GetTodo(todos, user));
        }
      }
      var item := new_[|old_|];
      assert new_ == old_ + [item];
      var n := NextId(todos, user);
      assert n >= FirstTodoId by {
        if old_ != [] {
          assert IdOrDefault(old_[0]) >= FirstTodoId;
        }
      }
      SnocValid(old_, item);
      ReplaceKeepsStoreValid(todos, r.todos, user);
    }
  }

  /** The tail of a valid list is valid, and its head is smaller than
      every item of the tail. */
  lemma TailValid(items: seq<TodoItem>)
    requires ValidList(items) && items != []
    ensures ValidList(items[1..])
    ensures items[0].todoId.Some? && IdOrDefault(items[0]) >= FirstTodoId
    ensures forall x :: x in items[1..] ==> IdOrDefault(items[0]) < IdOrDefault(x)
  {
    var rest := items[1..];
    assert forall k :: 0 <= k < |rest| ==> rest[k] == items[k + 1];
  }

  /** Removing items keeps the survivors' ids increasing. */
  lemma {:induction false} RemoveIdKeepsValid(items: seq<TodoItem>, id: int)
    requires ValidList(items)
    ensures ValidList(RemoveId(items, id))
  {
    if items != [] {
      var rest := items[1..];
      TailValid(items);
      RemoveIdKeepsValid(rest, id);
      var tail := RemoveId(rest, id);
      if items[0].todoId == Some(id) {
        assert RemoveId(items, id) == tail;
      } else {
        assert RemoveId(items, id) == [items[0]] + tail;
        ConsValid(items[0], tail);
      }
    }
  }

  /** `delete_todo` keeps every list valid. */
  lemma DeletePreservesValid(todos: Todos, user: UserId, id: int)
    requires ValidStore(todos)
    ensures ValidStore(DeleteTodo(todos, user, id).todos)
  {
    var r := DeleteTodo(todos, user, id);
    if r.ok {
      assert ValidList(GetTodo(todos, user));
      RemoveIdKeepsValid(GetTodo(todos, user), id);
      assert GetTodo(r.todos, user) == RemoveId(GetTodo(todos, user), id);
      ReplaceKeepsStoreValid(todos, r.todos, user);
    }
  }

  /** `edit_exercise` keeps every list valid: it never touches an id. */
  lemma EditPreservesValid(todos: Todos, user: UserId, id: int,
                           workingTime: Option<Field>, weight: Option<Field>, reps: Option<Field>)
    requires ValidStore(todos)
    ensures ValidStore(EditExercise(todos, user, id, workingTime, weight, reps).todos)
  {
    var r := EditExercise(todos, user, id, workingTime, weight, reps);
    if r.ok {
      var old_ := GetTodo(todos, user);
      var new_ := GetTodo(r.todos, user);
      assert ValidList(old_);
      var k := FirstIndex(old_, id);
      assert forall j :: 0 <= j < |old_| ==> new_[j].todoId == old_[j].todoId;
      SameIdsValid(old_, new_);
      ReplaceKeepsStoreValid(todos, r.todos, user);
    }
  }

  /** Validity depends on the ids alone. */
  lemma SameIdsValid(items: seq<TodoItem>, other: seq<TodoItem>)
    requires ValidList(items) && |other| == |items|
    requires forall j :: 0 <= j < |items| ==> other[j].todoId == items[j].todoId
    ensures ValidList(other)
  {
    assert forall j :: 0 <= j < |items| ==> IdOrDefault(other[j]) == IdOrDefault(items[j]);
  }

  // ----- Which id an add allocates -----

  /** On a valid list the latest id is the last item's id. */
  lemma LatestIsLast(todos: Todos, user: UserId)
    requires ValidList(GetTodo(todos, user))
    requires GetTodo(todos, user) != []
    ensures GetLatestTodoId(todos, user) == LatestId(IdOrDefault(GetTodo(todos, user)[|GetTodo(todos, user)| - 1]))
  {
    var items := GetTodo(todos, user);
    var last := |items| - 1;
    assert items[last].todoId.Some?;
    var r := GetLatestTodoId(todos, user);
    assert r.LatestId?;
  }

  /** Right after a successful add, the new item is the only one carrying the
      new id, it is the last item, and it holds the latest id. */
  lemma AddedItemIsLatest(catalog: seq<Exercise>, todos: Todos, user: UserId, exerciseId: ExerciseId,
                          workingTime: Option<Field>, reps: Option<Field>, weight: Option<Field>)
    requires AddTodo(catalog, todos, user, exerciseId, workingTime, reps, weight).ok
    ensures var after := AddTodo(catalog, todos, user, exerciseId, workingTime, reps, weight).todos;
            var n := NextId(todos, user);
            && GetLatestTodoId(after, user) == LatestId(n)
            && HasId(GetTodo(after, user), n)
            && FirstIndex(GetTodo(after, user), n) == |GetTodo(todos, user)|
  {
    var after := AddTodo(catalog, todos, user, exerciseId, workingTime, reps, weight).todos;
    var old_ := GetTodo(todos, user);
    var new_ := GetTodo(after, user);
    var n := NextId(todos, user);
    assert forall k :: 0 <= k < |old_| ==> new_[k] == old_[k];
    assert new_[|old_|].todoId == Some(n);
    var r := GetLatestTodoId(after, user);
    assert r.LatestId?;
    var k :| 0 <= k < |new_| && new_[k].todoId == Some(r.id);
    assert r.id == n;
  }

  /** On a consecutively numbered list, the next id continues the count. */
  lemma NextIdOfConsecutive(todos: Todos, user: UserId)
    requires Consecutive(GetTodo(todos, user))
    ensures NextId(todos, user) == FirstTodoId + |GetTodo(todos, user)|
  {
    var items := GetTodo(todos, user);
    if items != [] {
      var m := MaxId(items);
      assert IdOrDefault(items[|items| - 1]) == FirstTodoId + |items| - 1;
      var k :| 0 <= k < |items| && IdOrDefault(items[k]) == m;
      assert NextId(todos, user) == m + 1;
    }
  }

  /** Adding to a list numbered 1000, 1001, ... gives the next number. */
  lemma AddKeepsConsecutive(catalog: seq<Exercise>, todos: Todos, user: UserId, exerciseId: ExerciseId,
                            workingTime: Option<Field>, reps: Option<Field>, weight: Option<Field>)
    requires Consecutive(GetTodo(todos, user))
    requires FindExercise(catalog, exerciseId).Some?
    ensures var after := AddTodo(catalog, todos, user, exerciseId, workingTime, reps, weight).todos;
            && Consecutive(GetTodo(after, user))
            && |GetTodo(after, user)| == |GetTodo(todos, user)| + 1
            && GetTodo(after, user)[|GetTodo(todos, user)|].todoId == Some(FirstTodoId + |GetTodo(todos, user)|)
  {
    NextIdOfConsecutive(todos, user);
    var after := AddTodo(catalog, todos, user, exerciseId, workingTime, reps, weight).todos;
    var old_ := GetTodo(todos, user);
    var new_ := GetTodo(after, user);
    assert forall k :: 0 <= k < |old_| ==> new_[k] == old_[k];
  }

  /** n successive adds of catalog exercises to an empty (or missing) list
      number the items 1000, 1001, ..., 1000 + n - 1. */
  lemma {:induction false} AddManyNumbersFrom1000(catalog: seq<Exercise>, todos: Todos, user: UserId,
                                                  exerciseIds: seq<ExerciseId>)
    requires Consecutive(GetTodo(todos, user))
    requires forall i :: 0 <= i < |exerciseIds| ==> FindExercise(catalog, exerciseIds[i]).Some?
    ensures Consecutive(GetTodo(AddMany(catalog, todos, user, exerciseIds), user))
    ensures |GetTodo(AddMany(catalog, todos, user, exerciseIds), user)| == |GetTodo(todos, user)| + |exerciseIds|
    decreases |exerciseIds|
  {
    if exerciseIds != [] {
      AddKeepsConsecutive(catalog, todos, user, exerciseIds[0], None, None, None);
      var next := AddTodo(catalog, todos, user, exerciseIds[0], None, None, None).todos;
      AddManyNumbersFrom1000(catalog, next, user, exerciseIds[1..]);
    }
  }

  // ----- Deleting and re-adding -----

  /** `$pull` works piecewise, so the survivors keep their relative order. */
  lemma {:induction false} RemoveIdConcat(a: seq<TodoItem>, b: seq<TodoItem>, id: int)
    ensures RemoveId(a + b, id) == RemoveId(a, id) + RemoveId(b, id)
  {
    if a == [] {
      assert a + b == b;
    } else {
      var head := if a[0].todoId == Some(id) then [] else [a[0]];
      assert (a + b)[1..] == a[1..] + b;
      calc {
        RemoveId(a + b, id);
        head + RemoveId(a[1..] + b, id);
        { RemoveIdConcat(a[1..], b, id); }
        head + (RemoveId(a[1..], id) + RemoveId(b, id));
        RemoveId(a, id) + RemoveId(b, id);
      }
    }
  }

  /** Deleting the largest id of a list numbered 1000 .. 1000 + n - 1
      removes exactly its last item. */
  lemma {:induction false} RemoveLastOfConsecutive(items: seq<TodoItem>)
    requires Consecutive(items) && items != []
    ensures RemoveId(items, FirstTodoId + |items| - 1) == items[..|items| - 1]
    ensures Consecutive(items[..|items| - 1])
  {
    var n := |items|;
    var id := FirstTodoId + n - 1;
    var front := items[..n - 1];
    assert items == front + [items[n - 1]];
    RemoveIdConcat(front, [items[n - 1]], id);
    assert RemoveId([items[n - 1]], id) == [] by {
      assert [items[n - 1]][1..] == [];
    }
    assert forall k :: 0 <= k < |front| ==> front[k].todoId == Some(FirstTodoId + k);
    RemoveIdAbsent(front, id);
  }

  /** Deleting the largest id of a list numbered 1000 .. 1000 + n - 1
      succeeds and leaves the first n - 1 items. */
  lemma {:induction false} DeleteLastOfConsecutive(todos: Todos, user: UserId)
    requires Consecutive(GetTodo(todos, user)) && GetTodo(todos, user) != []
    ensures var items := GetTodo(todos, user);
            var d := DeleteTodo(todos, user, FirstTodoId + |items| - 1);
            && d.ok && GetTodo(d.todos, user) == items[..|items| - 1]
            && Consecutive(GetTodo(d.todos, user))
  {
    var items := GetTodo(todos, user);
    var n := |items|;
    assert items[n - 1].todoId == Some(FirstTodoId + n - 1);
    RemoveLastOfConsecutive(items);
  }

  /** Deleting the largest id of a list numbered 1000 .. 1000 + n - 1 makes
      the next add hand out that same id again: allocation is "largest + 1",
      not "never used before". */
  lemma {:induction false} DeleteLastThenAddReusesId(todos: Todos, user: UserId)
    requires Consecutive(GetTodo(todos, user)) && GetTodo(todos, user) != []
    ensures var last := FirstTodoId + |GetTodo(todos, user)| - 1;
            var d := DeleteTodo(todos, user, last);
            d.ok && NextId(d.todos, user) == last
  {
    var items := GetTodo(todos, user);
    var n := |items|;
    var d := DeleteTodo(todos, user, FirstTodoId + n - 1);
    DeleteLastOfConsecutive(todos, user);
    assert |GetTodo(d.todos, user)| == n - 1;
    NextIdOfConsecutive(d.todos, user);
  }

  /** `$pull` of an id nobody carries changes nothing. */
  lemma {:induction false} RemoveIdAbsent(items: seq<TodoItem>, id: int)
    requires forall k :: 0 <= k < |items| ==> items[k].todoId != Some(id)
    ensures RemoveId(items, id) == items
  {
    if items != [] {
      assert forall k :: 0 <= k < |items[1..]| ==> items[1..][k] == items[k + 1];
      RemoveIdAbsent(items[1..], id);
    }
  }

  /** The end-to-end walk-through: add exercise X to an empty list (id 1000),
      add exercise Y (id 1001), delete 1000, set only the weight of 1001 to
      50; one item remains, id 1001, with weight 50 and everything else as
      added. */
  lemma AddAddDeleteEditScenario(catalog: seq<Exercise>, todos: Todos, user: UserId, x: ExerciseId, y: ExerciseId)
    requires FindExercise(catalog, x).Some? && FindExercise(catalog, y).Some?
    requires GetTodo(todos, user) == []
    ensures var t1 := AddTodo(catalog, todos, user, x, None, None, None).todos;
            var t2 := AddTodo(catalog, t1, user, y, None, None, None).todos;
            var d := DeleteTodo(t2, user, 1000);
            var e := EditExercise(d.todos, user, 1001, None, Some(Num(50)), None);
            && GetTodo(t1, user)[0].todoId == Some(1000)
            && GetTodo(t1, user)[0].exerciseId == x
            && GetTodo(t2, user)[1].todoId == Some(1001)
            && d.ok && e.ok
            && GetTodo(e.todos, user)
               == [TodoItem(Some(1001), y, FindExercise(catalog, y).value.workoutName, None, None, Some(Num(50)))]
  {
    var t1 := AddTodo(catalog, todos, user, x, None, None, None).todos;
    var t2 := AddTodo(catalog, t1, user, y, None, None, None).todos;
    var second := TodoItem(Some(1001), y, FindExercise(catalog, y).value.workoutName, None, None, None);
    ScenarioAdds(catalog, todos, user, x, y);
    var d := DeleteTodo(t2, user, 1000);
    ScenarioDelete(t2, user, GetTodo(t2, user)[0], second);
    ScenarioEdit(d.todos, user, second);
  }

  /** The two adds of the walk-through number the items 1000 and 1001. */
  lemma ScenarioAdds(catalog: seq<Exercise>, todos: Todos, user: UserId, x: ExerciseId, y: ExerciseId)
    requires FindExercise(catalog, x).Some? && FindExercise(catalog, y).Some?
    requires GetTodo(todos, user) == []
    ensures var t1 := AddTodo(catalog, todos, user, x, None, None, None).todos;
            var t2 := AddTodo(catalog, t1, user, y, None, None, None).todos;
            && GetTodo(t1, user)[0].todoId == Some(1000)
            && GetTodo(t1, user)[0].exerciseId == x
            && |GetTodo(t2, user)| == 2
            && GetTodo(t2, user)[0].todoId == Some(1000)
            && GetTodo(t2, user)[1]
               == TodoItem(Some(1001), y, FindExercise(catalog, y).value.workoutName, None, None, None)
  {
    var t1 := AddTodo(catalog, todos, user, x, None, None, None).todos;
    AddKeepsConsecutive(catalog, todos, user, x, None, None, None);
    AddKeepsConsecutive(catalog, t1, user, y, None, None, None);
  }

  /** Deleting 1000 from the list [1000, 1001] leaves the second item. */
  lemma ScenarioDelete(todos: Todos, user: UserId, first: TodoItem, second: TodoItem)
    requires GetTodo(todos, user) == [first, second]
    requires first.todoId == Some(1000) && second.todoId == Some(1001)
    ensures DeleteTodo(todos, user, 1000).ok
    ensures GetTodo(DeleteTodo(todos, user, 1000).todos, user) == [second]
  {
    assert [first, second] == [first] + [second];
    RemoveIdConcat([first], [second], 1000);
    assert RemoveId([second], 1000) == [second] by {
      assert [second][1..] == [];
    }
    assert RemoveId([first], 1000) == [] by {
      assert [first][1..] == [];
    }
    assert HasId([first, second], 1000) by {
      assert [first, second][0].todoId == Some(1000);
    }
  }

  /** Setting only the weight of the single item 1001 to 50. */
  lemma ScenarioEdit(todos: Todos, user: UserId, item: TodoItem)
    requires GetTodo(todos, user) == [item] && item.todoId == Some(1001)
    ensures EditExercise(todos, user, 1001, None, Some(Num(50)), None).ok
    ensures GetTodo(EditExercise(todos, user, 1001, None, Some(Num(50)), None).todos, user)
            == [item.(weight := Some(Num(50)))]
  {
    assert HasId([item], 1001) by {
      assert [item][0].todoId == Some(1001);
    }
    assert FirstIndex([item], 1001) == 0;
  }
}
