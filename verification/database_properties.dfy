/** What the database store's statements promise together: the grouped
    LEFT JOIN computes exactly the direct per-list counts, every write keeps
    the schema constraints, and reads after writes see the writes. */
module DatabaseProperties {
  import opened Basics
  import opened DatabaseStore

  /** The aggregate row a list is meant to have: its own id and name, its
      todo count and its count of todos stored as not completed. */
  function DirectSummary(t: Tables, l: ListRow): ListSummary {
    ListSummary(l.id, l.name, TodosCount(t.todos, l.id), TodosRemaining(t.todos, l.id))
  }

  // ---------------------------------------------------------------------------
  // The aggregate query against the direct counts
  // ---------------------------------------------------------------------------

  /** Inner-join rows of a list count one todo id per matching todo, and one
      non-NULL `NULLIF(completed, true)` per matching todo stored as false. */
  lemma {:induction false} MatchesCounts(l: ListRow, todos: seq<TodoRow>)
    ensures Count(Matches(l, todos), CountsTodoId) == Count(todos, BelongsTo(l.id))
    ensures Count(Matches(l, todos), CountsRemaining) == Count(todos, OpenIn(l.id))
    decreases |todos|
  {
    if |todos| > 0 {
      MatchesCounts(l, todos[1..]);
      if todos[0].listId == l.id {
        var head := [JoinedRow(l, Some(todos[0]))];
        CountConcat(head, Matches(l, todos[1..]), CountsTodoId);
        CountConcat(head, Matches(l, todos[1..]), CountsRemaining);
      }
    }
  }

  /** The left-join rows of one list carry the list's direct counts, the
      NULL row of a todo-less list counting for nothing. */
  lemma JoinOneCounts(l: ListRow, todos: seq<TodoRow>)
    ensures Count(JoinOne(l, todos), CountsTodoId) == TodosCount(todos, l.id)
    ensures Count(JoinOne(l, todos), CountsRemaining) == TodosRemaining(todos, l.id)
  {
    MatchesCounts(l, todos);
    if |Matches(l, todos)| == 0 {
      CountMonotone(todos, OpenIn(l.id), BelongsTo(l.id));
    }
  }

  /** With distinct list ids, the group of a list in the joined rows is
      exactly that list's own left-join rows. */
  lemma {:induction false} GroupOfLeftJoin(lists: seq<ListRow>, todos: seq<TodoRow>, l: ListRow)
    requires Pairwise(lists, DifferentListRows)
    requires l in lists
    ensures Filter(LeftJoin(lists, todos), InGroup(l.id)) == JoinOne(l, todos)
    decreases |lists|
  {
    var first := JoinOne(lists[0], todos);
    var rest := LeftJoin(lists[1..], todos);
    assert LeftJoin(lists, todos) == first + rest;
    FilterConcat(first, rest, InGroup(l.id));
    var k :| 0 <= k < |lists| && lists[k] == l;
    if k == 0 {
      FilterKeepsAll(first, InGroup(l.id));
      forall jr | jr in rest
        ensures !InGroup(l.id)(jr)
      {
        var m :| 0 <= m < |lists[1..]| && lists[1..][m] == jr.list;
        assert DifferentListRows(lists[0], lists[m + 1]);
      }
      FilterDropsAll(rest, InGroup(l.id));
      assert Filter(first, InGroup(l.id)) + [] == first;
    } else {
      assert DifferentListRows(lists[0], lists[k]);
      FilterDropsAll(first, InGroup(l.id));
      assert Pairwise(lists[1..], DifferentListRows) by {
        forall i, j | 0 <= i < j < |lists[1..]|
          ensures DifferentListRows(lists[1..][i], lists[1..][j])
        {
          assert DifferentListRows(lists[i + 1], lists[j + 1]);
        }
      }
      assert lists[1..][k - 1] == l;
      GroupOfLeftJoin(lists[1..], todos, l);
    }
  }

  /** The key equivalence: with distinct list ids, the grouped LEFT JOIN with
      `COUNT(todos.id)` and `COUNT(NULLIF(todos.completed, true))` yields, for
      every list, exactly its direct todo count and remaining count. */
  lemma AggregateIsDirectCount(t: Tables, l: ListRow)
    requires Pairwise(t.lists, DifferentListRows)
    requires l in t.lists
    ensures Aggregate(l, LeftJoin(t.lists, t.todos)) == DirectSummary(t, l)
  {
    GroupOfLeftJoin(t.lists, t.todos, l);
    JoinOneCounts(l, t.todos);
  }

  /** `find_list` returns the list's id and name, the number of todo rows
      that reference it, and the number of those stored as not completed. */
  lemma FindListIsDirectCount(t: Tables, id: int)
    requires WellFormed(t) && ListExists(t.lists, id)
    ensures var r := FindList(t, id);
            && r == DirectSummary(t, t.lists[LocateRow(t.lists, id)])
            && r.todosCount == TodosCount(t.todos, id)
            && r.todosRemaining == TodosRemaining(t.todos, id)
  {
    AggregateIsDirectCount(t, t.lists[LocateRow(t.lists, id)]);
  }

  /** Every list row's direct summary is among the entries of `all_lists`. */
  lemma AllListsCoversEveryList(t: Tables, l: ListRow)
    requires Pairwise(t.lists, DifferentListRows) && l in t.lists
    ensures DirectSummary(t, l) in AllLists(t)
  {
    var sums := Summaries(t);
    var k :| 0 <= k < |t.lists| && t.lists[k] == l;
    AggregateIsDirectCount(t, l);
    assert sums[k] in multiset(sums);
  }

  /** Every entry of `all_lists` is the direct summary of some list row. */
  lemma AllListsEntryIsSomeList(t: Tables, e: ListSummary)
    requires Pairwise(t.lists, DifferentListRows) && e in AllLists(t)
    ensures exists l :: l in t.lists && e == DirectSummary(t, l)
  {
    var sums := Summaries(t);
    assert e in multiset(AllLists(t));
    assert e in multiset(sums);
    var k :| 0 <= k < |sums| && sums[k] == e;
    AggregateIsDirectCount(t, t.lists[k]);
    assert t.lists[k] in t.lists;
  }

  /** `all_lists` holds the direct summary of every list row, and nothing else. */
  lemma AllListsIsOnePerList(t: Tables)
    requires WellFormed(t)
    ensures forall l :: l in t.lists ==> DirectSummary(t, l) in AllLists(t)
    ensures forall e :: e in AllLists(t) ==> exists l :: l in t.lists && e == DirectSummary(t, l)
  {
    forall l | l in t.lists
      ensures DirectSummary(t, l) in AllLists(t)
    {
      AllListsCoversEveryList(t, l);
    }
    forall e | e in AllLists(t)
      ensures exists l :: l in t.lists && e == DirectSummary(t, l)
    {
      AllListsEntryIsSomeList(t, e);
    }
  }

  /** Thanks to the LEFT JOIN, a list without todos still appears in
      `all_lists`, with both counts zero. */
  lemma EmptyListStillListed(t: Tables, l: ListRow)
    requires WellFormed(t) && l in t.lists
    requires forall r :: r in t.todos ==> r.listId != l.id
    ensures ListSummary(l.id, l.name, 0, 0) in AllLists(t)
  {
    AllListsCoversEveryList(t, l);
    CountMonotone(t.todos, OpenIn(l.id), BelongsTo(l.id));
  }

  // ---------------------------------------------------------------------------
  // Writes keep the schema constraints
  // ---------------------------------------------------------------------------

  lemma CreateNewListPreservesWellFormed(t: Tables, name: string, newId: int)
    requires WellFormed(t) && !ListExists(t.lists, newId)
    ensures WellFormed(CreateNewList(t, name, newId))
  {
    var r := CreateNewList(t, name, newId);
    assert r.lists == t.lists + [ListRow(newId, name)];
    PairwiseAppend(t.lists, ListRow(newId, name), DifferentListRows);
    forall row | row in r.todos
      ensures ListExists(r.lists, row.listId)
    {
      var l :| l in t.lists && l.id == row.listId;
      assert l in r.lists;
    }
  }

  /** `delete_list` keeps both keys and leaves no todo without its list. */
  lemma DeleteListPreservesWellFormed(t: Tables, id: int)
    requires WellFormed(t)
    ensures WellFormed(DeleteList(t, id))
  {
    var r := DeleteList(t, id);
    assert r.lists == Filter(t.lists, OtherList(id));
    assert r.todos == Filter(t.todos, OtherListsTodo(id));
    FilterPreservesPairwise(t.lists, OtherList(id), DifferentListRows);
    FilterPreservesPairwise(t.todos, OtherListsTodo(id), DifferentTodoRows);
    forall row | row in r.todos
      ensures ListExists(r.lists, row.listId)
    {
      var l :| l in t.lists && l.id == row.listId;
      assert l in r.lists;
    }
  }

  lemma UpdateListPreservesWellFormed(t: Tables, listId: int, newName: string)
    requires WellFormed(t)
    ensures WellFormed(UpdateList(t, listId, newName))
  {
    var r := UpdateList(t, listId, newName);
    assert forall k :: 0 <= k < |t.lists| ==> r.lists[k].id == t.lists[k].id;
    assert Pairwise(r.lists, DifferentListRows) by {
      forall i, j | 0 <= i < j < |r.lists|
        ensures DifferentListRows(r.lists[i], r.lists[j])
      {
        assert DifferentListRows(t.lists[i], t.lists[j]);
      }
    }
    forall row | row in r.todos
      ensures ListExists(r.lists, row.listId)
    {
      var l :| l in t.lists && l.id == row.listId;
      var k :| 0 <= k < |t.lists| && t.lists[k] == l;
      assert r.lists[k] in r.lists;
    }
  }

  lemma AddTodoToListPreservesWellFormed(t: Tables, listId: int, todoName: string, newId: int,
                                         completedDefault: Option<bool>)
    requires WellFormed(t) && !TodoIdTaken(t.todos, newId)
    requires AddTodoToList(t, listId, todoName, newId, completedDefault).Ok?
    ensures WellFormed(AddTodoToList(t, listId, todoName, newId, completedDefault).value)
  {
    var row := TodoRow(newId, listId, todoName, completedDefault);
    PairwiseAppend(t.todos, row, DifferentTodoRows);
  }

  lemma DeleteTodoPreservesWellFormed(t: Tables, listId: int, todoId: int)
    requires WellFormed(t)
    ensures WellFormed(DeleteTodo(t, listId, todoId))
  {
    FilterPreservesPairwise(t.todos, NotAddressed(listId, todoId), DifferentTodoRows);
  }

  /** Changing only `completed` keeps both keys and every reference. */
  lemma SetCompletedPreservesWellFormed(t: Tables, todos: seq<TodoRow>)
    requires WellFormed(t)
    requires |todos| == |t.todos|
    requires forall k :: 0 <= k < |todos| ==> todos[k].id == t.todos[k].id && todos[k].listId == t.todos[k].listId
    ensures WellFormed(t.(todos := todos))
  {
    assert Pairwise(todos, DifferentTodoRows) by {
      forall i, j | 0 <= i < j < |todos|
        ensures DifferentTodoRows(todos[i], todos[j])
      {
        assert DifferentTodoRows(t.todos[i], t.todos[j]);
      }
    }
    forall row | row in todos
      ensures ListExists(t.lists, row.listId)
    {
      var k :| 0 <= k < |todos| && todos[k] == row;
      assert t.todos[k] in t.todos;
    }
  }

  lemma UpdateTodoStatusPreservesWellFormed(t: Tables, listId: int, todoId: int, newStatus: bool)
    requires WellFormed(t)
    ensures WellFormed(UpdateTodoStatus(t, listId, todoId, newStatus))
  {
    SetCompletedPreservesWellFormed(t, UpdateTodoStatus(t, listId, todoId, newStatus).todos);
  }

  lemma MarkAllTodosCompletePreservesWellFormed(t: Tables, listId: int)
    requires WellFormed(t)
    ensures WellFormed(MarkAllTodosComplete(t, listId))
  {
    SetCompletedPreservesWellFormed(t, MarkAllTodosComplete(t, listId).todos);
  }

  // ---------------------------------------------------------------------------
  // Deleting a list
  // ---------------------------------------------------------------------------

  /** A second `delete_list` of the same id changes nothing. */
  lemma DeleteListIdempotent(t: Tables, id: int)
    ensures DeleteList(DeleteList(t, id), id) == DeleteList(t, id)
  {
    var once := DeleteList(t, id);
    assert once.todos == Filter(t.todos, OtherListsTodo(id));
    assert once.lists == Filter(t.lists, OtherList(id));
    FilterIdempotent(t.todos, OtherListsTodo(id));
    FilterIdempotent(t.lists, OtherList(id));
  }

  /** In well-formed tables, deleting an id no list carries changes nothing:
      by the foreign key no todo can reference it either. */
  lemma DeleteListAbsentIsNoop(t: Tables, id: int)
    requires WellFormed(t) && !ListExists(t.lists, id)
    ensures DeleteList(t, id) == t
  {
    FilterKeepsAll(t.todos, OtherListsTodo(id));
    FilterKeepsAll(t.lists, OtherList(id));
  }

  /** After `delete_list`, `get_todos` of that list is empty: no orphan survives. */
  lemma DeleteListThenNoTodos(t: Tables, id: int)
    ensures GetTodos(DeleteList(t, id), id) == []
  {
    var r := DeleteList(t, id);
    assert TodosCount(r.todos, id) == 0;
  }

  // ---------------------------------------------------------------------------
  // Todo writes read back
  // ---------------------------------------------------------------------------

  /** `delete_todo` with a pair of ids no row carries changes nothing. */
  lemma DeleteTodoUnmatchedIsNoop(t: Tables, listId: int, todoId: int)
    requires forall row :: row in t.todos ==> !(row.id == todoId && row.listId == listId)
    ensures DeleteTodo(t, listId, todoId) == t
  {
    FilterKeepsAll(t.todos, NotAddressed(listId, todoId));
  }

  /** `update_todo_status` with a pair of ids no row carries changes nothing. */
  lemma UpdateTodoStatusUnmatchedIsNoop(t: Tables, listId: int, todoId: int, newStatus: bool)
    requires forall row :: row in t.todos ==> !(row.id == todoId && row.listId == listId)
    ensures UpdateTodoStatus(t, listId, todoId, newStatus) == t
  {
    var r := UpdateTodoStatus(t, listId, todoId, newStatus);
    assert forall k :: 0 <= k < |t.todos| ==> t.todos[k] in t.todos;
    assert r.todos == t.todos;
  }

  /** Setting `completed` never changes which list a row belongs to, so the
      todo count of every list is unchanged. */
  lemma {:induction false} SetCompletedKeepsCount(todos: seq<TodoRow>, sel: TodoRow -> bool, v: bool, id: int)
    ensures TodosCount(SetCompletedWhere(todos, sel, v), id) == TodosCount(todos, id)
    decreases |todos|
  {
    if |todos| > 0 {
      var r := SetCompletedWhere(todos, sel, v);
      assert r[1..] == SetCompletedWhere(todos[1..], sel, v);
      SetCompletedKeepsCount(todos[1..], sel, v, id);
    }
  }

  /** After `mark_all_todos_complete(L)` no row of `L` is stored as not completed. */
  lemma MarkAllLeavesNoneOpen(t: Tables, listId: int)
    ensures TodosRemaining(MarkAllTodosComplete(t, listId).todos, listId) == 0
  {
    var r := MarkAllTodosComplete(t, listId);
    forall row | row in r.todos
      ensures !OpenIn(listId)(row)
    {
      var k :| 0 <= k < |r.todos| && r.todos[k] == row;
    }
  }

  /** After `mark_all_todos_complete(L)`, `find_list(L)` reports no remaining
      todos and the same todo count as before. */
  lemma MarkAllThenFind(t: Tables, listId: int)
    requires WellFormed(t) && ListExists(t.lists, listId)
    ensures FindList(MarkAllTodosComplete(t, listId), listId).todosRemaining == 0
    ensures FindList(MarkAllTodosComplete(t, listId), listId).todosCount == FindList(t, listId).todosCount
  {
    var r := MarkAllTodosComplete(t, listId);
    MarkAllTodosCompletePreservesWellFormed(t, listId);
    FindListIsDirectCount(t, listId);
    FindListIsDirectCount(r, listId);
    SetCompletedKeepsCount(t.todos, BelongsTo(listId), true, listId);
    MarkAllLeavesNoneOpen(t, listId);
  }

  /** Renaming keeps every row's id, so the list is found at the same position. */
  lemma UpdateListKeepsPosition(t: Tables, listId: int, newName: string)
    requires ListExists(t.lists, listId)
    ensures ListExists(UpdateList(t, listId, newName).lists, listId)
    ensures LocateRow(UpdateList(t, listId, newName).lists, listId) == LocateRow(t.lists, listId)
    ensures UpdateList(t, listId, newName).lists[LocateRow(t.lists, listId)] == ListRow(listId, newName)
  {
    var r := UpdateList(t, listId, newName);
    var i := LocateRow(t.lists, listId);
    assert r.lists[i] in r.lists;
    var j := LocateRow(r.lists, listId);
    assert forall k :: 0 <= k < |t.lists| ==> r.lists[k].id == t.lists[k].id;
  }

  /** After `update_list`, `find_list` reports the new name and the same counts. */
  lemma UpdateListThenFind(t: Tables, listId: int, newName: string)
    requires WellFormed(t) && ListExists(t.lists, listId)
    ensures ListExists(UpdateList(t, listId, newName).lists, listId)
    ensures FindList(UpdateList(t, listId, newName), listId) == FindList(t, listId).(name := newName)
  {
    var r := UpdateList(t, listId, newName);
    UpdateListKeepsPosition(t, listId, newName);
    UpdateListPreservesWellFormed(t, listId, newName);
    FindListIsDirectCount(t, listId);
    FindListIsDirectCount(r, listId);
  }

  /** A todo added to a list is returned by `get_todos` for that list, open
      unless the column default stores it as completed. */
  lemma AddTodoThenGetTodos(t: Tables, listId: int, todoName: string, newId: int,
                            completedDefault: Option<bool>)
    requires ListExists(t.lists, listId) && !TodoIdTaken(t.todos, newId)
    ensures var r := AddTodoToList(t, listId, todoName, newId, completedDefault);
            && r.Ok?
            && TodoView(newId, todoName, completedDefault == Some(true)) in GetTodos(r.value, listId)
  {
    var r := AddTodoToList(t, listId, todoName, newId, completedDefault).value;
    assert TodoRow(newId, listId, todoName, completedDefault) in r.todos;
  }
}
