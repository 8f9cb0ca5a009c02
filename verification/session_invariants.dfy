/** What the session store's operations promise beyond a single call: every
    transition keeps `SessionStore.Valid`, and lookups after a write see it. */
module SessionInvariants {
  import opened Basics
  import opened SessionStore

  lemma TodoIdsAppend(todos: seq<Todo>, t: Todo)
    ensures TodoIds(todos + [t]) == TodoIds(todos) + {t.id}
  {
    assert forall u :: u in todos + [t] <==> u in todos || u == t;
  }

  lemma TodoIdsShrink(todos: seq<Todo>, kept: seq<Todo>)
    requires forall u :: u in kept ==> u in todos
    ensures TodoIds(kept) <= TodoIds(todos)
  {
  }

  lemma TodoIdsSameIds(todos: seq<Todo>, changed: seq<Todo>)
    requires |changed| == |todos|
    requires forall k :: 0 <= k < |todos| ==> changed[k].id == todos[k].id
    ensures TodoIds(changed) == TodoIds(todos)
  {
    forall x | x in TodoIds(todos)
      ensures x in TodoIds(changed)
    {
      var u :| u in todos && u.id == x;
      var k :| 0 <= k < |todos| && todos[k] == u;
      assert changed[k] in changed;
    }
    forall x | x in TodoIds(changed)
      ensures x in TodoIds(todos)
    {
      var u :| u in changed && u.id == x;
      var k :| 0 <= k < |changed| && changed[k] == u;
      assert todos[k] in todos;
    }
  }

  /** Replacing list `i` by one with the same id and a todo set whose ids are
      known, distinct, and disjoint from every other list keeps the session valid. */
  lemma ReplaceListPreservesValid(s: Session, i: nat, x: TodoList, todoNumber: nat)
    requires Valid(s) && i < |s.lists|
    requires x.id == s.lists[i].id
    requires todoNumber >= s.todoNumber
    requires Pairwise(x.todos, DifferentTodoIds)
    requires forall t :: t in x.todos ==> t.id < todoNumber
    requires forall k :: 0 <= k < |s.lists| && k != i ==> TodoIds(s.lists[k].todos) !! TodoIds(x.todos)
    ensures Valid(Session(s.lists[i := x], s.listNumber, todoNumber))
  {
    var r := Session(s.lists[i := x], s.listNumber, todoNumber);
    assert s.lists[i] in s.lists;
    forall l | l in r.lists
      ensures l.id < r.listNumber
      ensures forall t :: t in l.todos ==> t.id < r.todoNumber
      ensures Pairwise(l.todos, DifferentTodoIds)
    {
      var k :| 0 <= k < |r.lists| && r.lists[k] == l;
      if k != i {
        assert s.lists[k] in s.lists;
      }
    }
    forall k | 0 <= k < i
      ensures DifferentListIds(s.lists[k], x)
    {
    }
    PairwiseUpdate(s.lists, i, x, DifferentListIds);
    PairwiseUpdate(s.lists, i, x, DisjointTodoIds);
  }

  /** `create_new_list` keeps the invariant: the new id is fresh and the new
      list brings no todos. */
  lemma CreateNewListPreservesValid(s: Session, name: string)
    requires Valid(s)
    ensures Valid(CreateNewList(s, name))
  {
    var x := TodoList(s.listNumber, name, []);
    PairwiseAppend(s.lists, x, DifferentListIds);
    PairwiseAppend(s.lists, x, DisjointTodoIds);
    var r := CreateNewList(s, name);
    assert r.lists == s.lists + [x];
  }

  /** `delete_list` keeps the invariant: the survivors are a subsequence. */
  lemma DeleteListPreservesValid(s: Session, id: int)
    requires Valid(s)
    ensures Valid(DeleteList(s, id))
  {
    FilterPreservesPairwise(s.lists, Keeps(id), DifferentListIds);
    FilterPreservesPairwise(s.lists, Keeps(id), DisjointTodoIds);
  }

  lemma UpdateListPreservesValid(s: Session, listId: int, newName: string)
    requires Valid(s) && HasList(s, listId)
    ensures Valid(UpdateList(s, listId, newName))
  {
    var i := Locate(s.lists, listId);
    assert s.lists[i] in s.lists;
    forall k | 0 <= k < |s.lists| && k != i
      ensures TodoIds(s.lists[k].todos) !! TodoIds(s.lists[i].todos)
    {
      if k < i { assert DisjointTodoIds(s.lists[k], s.lists[i]); }
      else { assert DisjointTodoIds(s.lists[i], s.lists[k]); }
    }
    ReplaceListPreservesValid(s, i, s.lists[i].(name := newName), s.todoNumber);
  }

  /** `add_todo_to_list` keeps the invariant: the new todo's id is
      `todo_number`, above every id in the session. */
  lemma AddTodoToListPreservesValid(s: Session, listId: int, todoName: string)
    requires Valid(s) && HasList(s, listId)
    ensures Valid(AddTodoToList(s, listId, todoName))
  {
    var i := Locate(s.lists, listId);
    var list := s.lists[i];
    assert list in s.lists;
    var t := Todo(s.todoNumber, todoName, false);
    var x := list.(todos := list.todos + [t]);
    PairwiseAppend(list.todos, t, DifferentTodoIds);
    TodoIdsAppend(list.todos, t);
    forall k | 0 <= k < |s.lists| && k != i
      ensures TodoIds(s.lists[k].todos) !! TodoIds(x.todos)
    {
      assert s.lists[k] in s.lists;
      if k < i { assert DisjointTodoIds(s.lists[k], list); }
      else { assert DisjointTodoIds(list, s.lists[k]); }
      assert s.todoNumber !in TodoIds(s.lists[k].todos);
    }
    ReplaceListPreservesValid(s, i, x, s.todoNumber + 1);
  }

  lemma DeleteTodoPreservesValid(s: Session, listId: int, todoId: int)
    requires Valid(s) && HasList(s, listId)
    ensures Valid(DeleteTodo(s, listId, todoId))
  {
    var i := Locate(s.lists, listId);
    var list := s.lists[i];
    assert list in s.lists;
    var x := list.(todos := Filter(list.todos, KeepsTodo(todoId)));
    FilterPreservesPairwise(list.todos, KeepsTodo(todoId), DifferentTodoIds);
    TodoIdsShrink(list.todos, x.todos);
    forall k | 0 <= k < |s.lists| && k != i
      ensures TodoIds(s.lists[k].todos) !! TodoIds(x.todos)
    {
      if k < i { assert DisjointTodoIds(s.lists[k], list); }
      else { assert DisjointTodoIds(list, s.lists[k]); }
    }
    ReplaceListPreservesValid(s, i, x, s.todoNumber);
  }

  lemma UpdateTodoStatusPreservesValid(s: Session, listId: int, todoId: int, newStatus: bool)
    requires Valid(s) && HasList(s, listId)
    requires HasTodo(s.lists[Locate(s.lists, listId)], todoId)
    ensures Valid(UpdateTodoStatus(s, listId, todoId, newStatus))
  {
    var i := Locate(s.lists, listId);
    var list := s.lists[i];
    assert list in s.lists;
    var j := LocateTodo(list.todos, todoId);
    var t := list.todos[j].(completed := newStatus);
    var x := list.(todos := list.todos[j := t]);
    forall k | 0 <= k < j
      ensures DifferentTodoIds(list.todos[k], t)
    {
      assert DifferentTodoIds(list.todos[k], list.todos[j]);
    }
    forall k | j < k < |list.todos|
      ensures DifferentTodoIds(t, list.todos[k])
    {
      assert DifferentTodoIds(list.todos[j], list.todos[k]);
    }
    PairwiseUpdate(list.todos, j, t, DifferentTodoIds);
    TodoIdsSameIds(list.todos, x.todos);
    forall k | 0 <= k < |s.lists| && k != i
      ensures TodoIds(s.lists[k].todos) !! TodoIds(x.todos)
    {
      if k < i { assert DisjointTodoIds(s.lists[k], list); }
      else { assert DisjointTodoIds(list, s.lists[k]); }
    }
    assert forall u :: u in x.todos ==> u.id in TodoIds(list.todos);
    ReplaceListPreservesValid(s, i, x, s.todoNumber);
  }

  lemma MarkAllTodosCompletePreservesValid(s: Session, listId: int)
    requires Valid(s) && HasList(s, listId)
    ensures Valid(MarkAllTodosComplete(s, listId))
  {
    var i := Locate(s.lists, listId);
    var list := s.lists[i];
    assert list in s.lists;
    var x := list.(todos := CompleteAll(list.todos));
    assert Pairwise(x.todos, DifferentTodoIds) by {
      forall a, b | 0 <= a < b < |x.todos|
        ensures DifferentTodoIds(x.todos[a], x.todos[b])
      {
        assert DifferentTodoIds(list.todos[a], list.todos[b]);
      }
    }
    TodoIdsSameIds(list.todos, x.todos);
    forall k | 0 <= k < |s.lists| && k != i
      ensures TodoIds(s.lists[k].todos) !! TodoIds(x.todos)
    {
      if k < i { assert DisjointTodoIds(s.lists[k], list); }
      else { assert DisjointTodoIds(list, s.lists[k]); }
    }
    assert forall u :: u in x.todos ==> u.id in TodoIds(list.todos);
    ReplaceListPreservesValid(s, i, x, s.todoNumber);
  }

  // ---------------------------------------------------------------------------
  // Deleting lists
  // ---------------------------------------------------------------------------

  /** Deleting the same list twice is deleting it once. */
  lemma DeleteListIdempotent(s: Session, id: int)
    ensures DeleteList(DeleteList(s, id), id) == DeleteList(s, id)
  {
    FilterIdempotent(s.lists, Keeps(id));
  }

  /** Deleting an id no list carries changes nothing. */
  lemma DeleteListAbsentIsNoop(s: Session, id: int)
    requires !HasList(s, id)
    ensures DeleteList(s, id) == s
  {
    FilterKeepsAll(s.lists, Keeps(id));
  }

  /** In a valid session, deleting an existing list removes exactly that one
      list and keeps the others in their original order. */
  lemma DeleteListRemovesExactlyOne(s: Session, id: int)
    requires Valid(s) && HasList(s, id)
    ensures var i := Locate(s.lists, id);
            DeleteList(s, id).lists == s.lists[..i] + s.lists[i + 1..]
  {
    var i := Locate(s.lists, id);
    forall k | 0 <= k < |s.lists| && k != i
      ensures Keeps(id)(s.lists[k])
    {
      if k < i { assert DifferentListIds(s.lists[k], s.lists[i]); }
      else { assert DifferentListIds(s.lists[i], s.lists[k]); }
    }
    FilterRemovesOne(s.lists, i, Keeps(id));
  }

  // ---------------------------------------------------------------------------
  // Reading back what was written
  // ---------------------------------------------------------------------------

  /** In a valid session, the list just created is found under the old
      `list_number`, named as given and empty. */
  lemma CreateThenFind(s: Session, name: string)
    requires Valid(s)
    ensures FindList(CreateNewList(s, name), s.listNumber) == Some(TodoList(s.listNumber, name, []))
  {
    var r := CreateNewList(s, name);
    var found := FindList(r, s.listNumber);
    assert r.lists[|s.lists|] in r.lists;
    var i :| 0 <= i < |r.lists| && r.lists[i] == found.value && found.value.id == s.listNumber
             && forall k :: 0 <= k < i ==> r.lists[k].id != s.listNumber;
  }

  /** In a valid session, a renamed list is found under the same id with the
      new name and the same todos. */
  lemma UpdateThenFind(s: Session, listId: int, newName: string)
    requires Valid(s) && HasList(s, listId)
    ensures var old_ := FindList(s, listId).value;
            FindList(UpdateList(s, listId, newName), listId) == Some(TodoList(listId, newName, old_.todos))
  {
    var i := Locate(s.lists, listId);
    var r := UpdateList(s, listId, newName);
    assert r.lists[i] in r.lists;
    var found := FindList(r, listId);
    var k :| 0 <= k < |r.lists| && r.lists[k] == found.value && found.value.id == listId
             && forall m :: 0 <= m < k ==> r.lists[m].id != listId;
    assert k == i;
  }

  /** After `mark_all_todos_complete`, the list holds the same todos, all completed. */
  lemma MarkAllThenAllCompleted(s: Session, listId: int)
    requires HasList(s, listId)
    ensures var before := FindList(s, listId).value;
            var after := FindList(MarkAllTodosComplete(s, listId), listId).value;
            && |after.todos| == |before.todos|
            && forall k :: 0 <= k < |after.todos| ==>
                 after.todos[k].completed && after.todos[k].id == before.todos[k].id
                 && after.todos[k].name == before.todos[k].name
  {
    var i := Locate(s.lists, listId);
    var r := MarkAllTodosComplete(s, listId);
    assert r.lists[i] in r.lists;
    assert Locate(r.lists, listId) == i;
  }

  /** After `add_todo_to_list`, `find_list` shows the list's old todos followed
      by one open todo numbered by the old `todo_number`. */
  lemma AddTodoThenFind(s: Session, listId: int, todoName: string)
    requires HasList(s, listId)
    ensures var before := FindList(s, listId).value;
            FindList(AddTodoToList(s, listId, todoName), listId) ==
              Some(TodoList(listId, before.name, before.todos + [Todo(s.todoNumber, todoName, false)]))
  {
    var i := Locate(s.lists, listId);
    var r := AddTodoToList(s, listId, todoName);
    assert r.lists[i] in r.lists;
    assert Locate(r.lists, listId) == i;
  }

  /** After `delete_todo`, the list `find_list` returns holds no todo with that id. */
  lemma DeleteTodoThenFind(s: Session, listId: int, todoId: int)
    requires HasList(s, listId)
    ensures var after := FindList(DeleteTodo(s, listId, todoId), listId);
            after.Some? && after.value.id == listId && !HasTodo(after.value, todoId)
  {
    var i := Locate(s.lists, listId);
    var r := DeleteTodo(s, listId, todoId);
    assert r.lists[i] in r.lists;
    assert Locate(r.lists, listId) == i;
  }

  /** In a valid session, deleting a todo the list holds cuts out exactly that
      todo and keeps the others in their original order. */
  lemma DeleteTodoRemovesExactlyOne(s: Session, listId: int, todoId: int)
    requires Valid(s) && HasList(s, listId)
    requires HasTodo(s.lists[Locate(s.lists, listId)], todoId)
    ensures var i := Locate(s.lists, listId);
            var todos := s.lists[i].todos;
            var j := LocateTodo(todos, todoId);
            DeleteTodo(s, listId, todoId).lists[i].todos == todos[..j] + todos[j + 1..]
  {
    var i := Locate(s.lists, listId);
    var todos := s.lists[i].todos;
    var j := LocateTodo(todos, todoId);
    assert s.lists[i] in s.lists;
    forall k | 0 <= k < |todos| && k != j
      ensures KeepsTodo(todoId)(todos[k])
    {
      if k < j { assert DifferentTodoIds(todos[k], todos[j]); }
      else { assert DifferentTodoIds(todos[j], todos[k]); }
    }
    FilterRemovesOne(todos, j, KeepsTodo(todoId));
  }

  /** After `update_todo_status`, the list `find_list` returns has the same
      todos in the same order, except that the first todo with that id now
      carries the new status. */
  lemma UpdateTodoStatusThenFind(s: Session, listId: int, todoId: int, newStatus: bool)
    requires HasList(s, listId)
    requires HasTodo(s.lists[Locate(s.lists, listId)], todoId)
    ensures var before := FindList(s, listId).value;
            var after := FindList(UpdateTodoStatus(s, listId, todoId, newStatus), listId).value;
            var j := LocateTodo(before.todos, todoId);
            && after.id == listId && after.name == before.name
            && |after.todos| == |before.todos|
            && after.todos[j] == Todo(todoId, before.todos[j].name, newStatus)
            && forall k :: 0 <= k < |before.todos| && k != j ==> after.todos[k] == before.todos[k]
  {
    var i := Locate(s.lists, listId);
    var r := UpdateTodoStatus(s, listId, todoId, newStatus);
    assert r.lists[i] in r.lists;
    assert Locate(r.lists, listId) == i;
  }

  /** Deleting a todo id that the list does not hold leaves the session as it was. */
  lemma DeleteTodoAbsentIsNoop(s: Session, listId: int, todoId: int)
    requires HasList(s, listId)
    requires !HasTodo(s.lists[Locate(s.lists, listId)], todoId)
    ensures DeleteTodo(s, listId, todoId) == s
  {
    var i := Locate(s.lists, listId);
    FilterKeepsAll(s.lists[i].todos, KeepsTodo(todoId));
    assert s.lists[i := s.lists[i]] == s.lists;
  }
}
