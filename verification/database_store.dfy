/** The database-backed store (`DatabasePersistence`) read as relational
    semantics: the two tables `lists(id, name)` and
    `todos(id, list_id, name, completed)` are sequences of rows, and every
    method is the effect of its SQL statements on them. */
module DatabaseStore {
  import opened Basics

  datatype ListRow = ListRow(id: int, name: string)

  /** A `todos` row; `completed` is a nullable boolean, `None` being NULL. */
  datatype TodoRow = TodoRow(id: int, listId: int, name: string, completed: Option<bool>)

  datatype Tables = Tables(lists: seq<ListRow>, todos: seq<TodoRow>)

  /** What the database refuses: a todo pointing at no list, or a list
      still referenced by todos (`todos.list_id` references `lists.id`). */
  datatype DbError = ForeignKeyViolation

  /** The hash `tuple_to_list_hash` builds from one aggregate row. */
  datatype ListSummary = ListSummary(id: int, name: string, todosCount: nat, todosRemaining: nat)

  /** The hash `get_todos` builds from one `todos` row. */
  datatype TodoView = TodoView(id: int, name: string, completed: bool)

  // ---------------------------------------------------------------------------
  // Schema constraints
  // ---------------------------------------------------------------------------

  predicate DifferentListRows(a: ListRow, b: ListRow) {
    a.id != b.id
  }

  predicate DifferentTodoRows(a: TodoRow, b: TodoRow) {
    a.id != b.id
  }

  predicate ListExists(lists: seq<ListRow>, id: int) {
    exists l :: l in lists && l.id == id
  }

  predicate TodoIdTaken(todos: seq<TodoRow>, id: int) {
    exists r :: r in todos && r.id == id
  }

  /** Both primary keys hold and every todo references an existing list. */
  ghost predicate WellFormed(t: Tables) {
    && Pairwise(t.lists, DifferentListRows)
    && Pairwise(t.todos, DifferentTodoRows)
    && forall r :: r in t.todos ==> ListExists(t.lists, r.listId)
  }

  // ---------------------------------------------------------------------------
  // Row tests used by the WHERE clauses
  // ---------------------------------------------------------------------------

  /** `todos.list_id = id` */
  function BelongsTo(id: int): TodoRow -> bool {
    (r: TodoRow) => r.listId == id
  }

  /** `todos.list_id = id` and the todo is stored as not completed. */
  function OpenIn(id: int): TodoRow -> bool {
    (r: TodoRow) => r.listId == id && r.completed == Some(false)
  }

  /** `lists.id <> id` */
  function OtherList(id: int): ListRow -> bool {
    (l: ListRow) => l.id != id
  }

  /** `todos.list_id <> id` */
  function OtherListsTodo(id: int): TodoRow -> bool {
    (r: TodoRow) => r.listId != id
  }

  /** `todos.id = todoId AND todos.list_id = listId` */
  function Addressed(listId: int, todoId: int): TodoRow -> bool {
    (r: TodoRow) => r.id == todoId && r.listId == listId
  }

  /** Everything `delete_todo` keeps: the negation of `Addressed`. */
  function NotAddressed(listId: int, todoId: int): TodoRow -> bool {
    (r: TodoRow) => !(r.id == todoId && r.listId == listId)
  }

  // ---------------------------------------------------------------------------
  // Direct reference counts: what the aggregates are meant to be
  // ---------------------------------------------------------------------------

  /** Number of todo rows of list `id`. */
  function TodosCount(todos: seq<TodoRow>, id: int): nat {
    Count(todos, BelongsTo(id))
  }

  /** Number of todo rows of list `id` stored as not completed. */
  function TodosRemaining(todos: seq<TodoRow>, id: int): nat {
    Count(todos, OpenIn(id))
  }

  // ---------------------------------------------------------------------------
  // LEFT JOIN, GROUP BY and the two COUNTs
  // ---------------------------------------------------------------------------

  /** One row of `lists LEFT JOIN todos ON lists.id = todos.list_id`; the todo
      half is NULL when the list matched no todo. */
  datatype JoinedRow = JoinedRow(list: ListRow, todo: Option<TodoRow>)

  /** The inner-join rows of one list row: one per matching todo, in table order. */
  function Matches(l: ListRow, todos: seq<TodoRow>): (r: seq<JoinedRow>)
    ensures forall jr :: jr in r ==> jr.list == l && jr.todo.Some? && jr.todo.value.listId == l.id
    ensures |r| == 0 <==> forall t :: t in todos ==> t.listId != l.id
    decreases |todos|
  {
    if |todos| == 0 then []
    else if todos[0].listId == l.id then [JoinedRow(l, Some(todos[0]))] + Matches(l, todos[1..])
    else Matches(l, todos[1..])
  }

  /** The left-join rows of one list row: its matches, or a single row with a
      NULL todo half when there are none. */
  function JoinOne(l: ListRow, todos: seq<TodoRow>): (r: seq<JoinedRow>)
    ensures |r| > 0
    ensures forall jr :: jr in r ==> jr.list == l
  {
    var m := Matches(l, todos);
    if |m| == 0 then [JoinedRow(l, None)] else m
  }

  /** `lists LEFT JOIN todos ON lists.id = todos.list_id`. */
  function LeftJoin(lists: seq<ListRow>, todos: seq<TodoRow>): (r: seq<JoinedRow>)
    ensures forall jr :: jr in r ==> jr.list in lists
    ensures forall l :: l in lists ==> exists jr :: jr in r && jr.list == l
    decreases |lists|
  {
    if |lists| == 0 then []
    else
      var first := JoinOne(lists[0], todos);
      var rest := LeftJoin(lists[1..], todos);
      assert forall l :: l in lists ==> l == lists[0] || l in lists[1..];
      assert forall jr :: jr in rest ==> jr in first + rest;
      assert first[0] in first + rest;
      first + rest
  }

  /** `WHERE lists.id = id` and `GROUP BY lists.id` both select by the list id. */
  function InGroup(id: int): JoinedRow -> bool {
    (jr: JoinedRow) => jr.list.id == id
  }

  /** `NULLIF(v, x)`: NULL when `v` equals `x`, otherwise `v` (NULL stays NULL). */
  function NullIf(v: Option<bool>, x: bool): (r: Option<bool>)
    ensures r.Some? <==> v.Some? && v.value != x
  {
    if v == Some(x) then None else v
  }

  /** `COUNT(todos.id)` counts the joined rows whose todo half is not NULL. */
  function CountsTodoId(jr: JoinedRow): bool {
    jr.todo.Some?
  }

  /** `COUNT(NULLIF(todos.completed, true))` counts the joined rows whose
      `completed` is neither NULL nor true. */
  function CountsRemaining(jr: JoinedRow): bool {
    jr.todo.Some? && NullIf(jr.todo.value.completed, true).Some?
  }

  /** The aggregate row of the group of list row `l` in the joined rows. */
  function Aggregate(l: ListRow, joined: seq<JoinedRow>): (r: ListSummary)
    ensures r.id == l.id && r.name == l.name
    ensures r.todosRemaining <= r.todosCount
  {
    var group := Filter(joined, InGroup(l.id));
    CountMonotone(group, CountsRemaining, CountsTodoId);
    ListSummary(l.id, l.name, Count(group, CountsTodoId), Count(group, CountsRemaining))
  }

  // ---------------------------------------------------------------------------
  // ORDER BY todos_remaining DESC
  // ---------------------------------------------------------------------------

  predicate SortedByRemaining(s: seq<ListSummary>) {
    forall i, j :: 0 <= i < j < |s| ==> s[i].todosRemaining >= s[j].todosRemaining
  }

  /** An entry at least as large as every entry of a sorted sequence can go in front. */
  lemma SortedCons(h: ListSummary, s: seq<ListSummary>)
    requires SortedByRemaining(s)
    requires forall y :: y in s ==> h.todosRemaining >= y.todosRemaining
    ensures SortedByRemaining([h] + s)
  {
    var r := [h] + s;
    forall i, j | 0 <= i < j < |r|
      ensures r[i].todosRemaining >= r[j].todosRemaining
    {
      assert r[j] == s[j - 1];
      if i > 0 {
        assert r[i] == s[i - 1];
      } else {
        assert s[j - 1] in s;
      }
    }
  }

  /** The head of a sorted sequence bounds every element of a permutation of
      its tail extended by a smaller-or-equal entry. */
  lemma HeadBounds(s: seq<ListSummary>, x: ListSummary, rest: seq<ListSummary>)
    requires SortedByRemaining(s) && |s| > 0
    requires s[0].todosRemaining >= x.todosRemaining
    requires multiset(rest) == multiset(s[1..]) + multiset{x}
    ensures forall y :: y in rest ==> s[0].todosRemaining >= y.todosRemaining
  {
    forall y | y in rest
      ensures s[0].todosRemaining >= y.todosRemaining
    {
      assert y in multiset(rest);
      if y != x {
        assert y in multiset(s[1..]);
        var k :| 0 <= k < |s[1..]| && s[1..][k] == y;
        assert s[k + 1] == y;
      }
    }
  }

  /** One step of the insertion: the head of a sorted sequence, put in front
      of the sorted insertion into its tail, gives the sorted insertion. */
  lemma InsertBehindHead(s: seq<ListSummary>, x: ListSummary, rest: seq<ListSummary>)
    requires SortedByRemaining(s) && |s| > 0
    requires s[0].todosRemaining >= x.todosRemaining
    requires SortedByRemaining(rest)
    requires multiset(rest) == multiset(s[1..]) + multiset{x}
    ensures SortedByRemaining([s[0]] + rest)
    ensures multiset([s[0]] + rest) == multiset(s) + multiset{x}
  {
    HeadBounds(s, x, rest);
    SortedCons(s[0], rest);
    assert s == [s[0]] + s[1..];
  }

  /** Place `x` after every entry with at least as many remaining todos. */
  function InsertByRemaining(x: ListSummary, s: seq<ListSummary>): (r: seq<ListSummary>)
    requires SortedByRemaining(s)
    ensures SortedByRemaining(r)
    ensures multiset(r) == multiset(s) + multiset{x}
    decreases |s|
  {
    if |s| == 0 then [x]
    else if s[0].todosRemaining < x.todosRemaining then
      SortedCons(x, s);
      [x] + s
    else
      assert SortedByRemaining(s[1..]);
      var rest := InsertByRemaining(x, s[1..]);
      InsertBehindHead(s, x, rest);
      [s[0]] + rest
  }

  /** `ORDER BY todos_remaining DESC`, keeping the retrieval order among ties. */
  function SortByRemaining(s: seq<ListSummary>): (r: seq<ListSummary>)
    ensures SortedByRemaining(r)
    ensures multiset(r) == multiset(s)
    decreases |s|
  {
    if |s| == 0 then []
    else
      var init := s[..|s| - 1];
      assert s == init + [s[|s| - 1]];
      InsertByRemaining(s[|s| - 1], SortByRemaining(init))
  }

  // ---------------------------------------------------------------------------
  // Reads
  // ---------------------------------------------------------------------------

  /** The aggregate row of every list row, in table order, before sorting. */
  function Summaries(t: Tables): (r: seq<ListSummary>)
    ensures |r| == |t.lists|
    ensures forall k :: 0 <= k < |r| ==> r[k] == Aggregate(t.lists[k], LeftJoin(t.lists, t.todos))
  {
    var joined := LeftJoin(t.lists, t.todos);
    seq(|t.lists|, k requires 0 <= k < |t.lists| => Aggregate(t.lists[k], joined))
  }

  /** `all_lists`: one aggregate row per list, most remaining todos first.
      `GROUP BY lists.id` gives one group per list row because `lists.id` is
      the primary key. */
  function AllLists(t: Tables): (r: seq<ListSummary>)
    requires Pairwise(t.lists, DifferentListRows)
    ensures |r| == |t.lists|
    ensures multiset(r) == multiset(Summaries(t))
    ensures SortedByRemaining(r)
  {
    var r := SortByRemaining(Summaries(t));
    assert |r| == |multiset(r)|;
    r
  }

  /** Position of the first list row with that id. */
  function LocateRow(lists: seq<ListRow>, id: int): (i: nat)
    requires ListExists(lists, id)
    ensures i < |lists| && lists[i].id == id
    ensures forall k :: 0 <= k < i ==> lists[k].id != id
    decreases |lists|
  {
    if lists[0].id == id then 0
    else
      assert ListExists(lists[1..], id) by {
        var l :| l in lists && l.id == id;
        var m :| 0 <= m < |lists| && lists[m] == l;
        assert lists[1..][m - 1] == l;
      }
      1 + LocateRow(lists[1..], id)
  }

  /** `find_list`: the aggregate row of the list with that id. The source
      passes the first result tuple to `tuple_to_list_hash` unchecked, so the
      list must exist. */
  function FindList(t: Tables, id: int): (r: ListSummary)
    requires ListExists(t.lists, id)
    ensures r.id == id && r.name == t.lists[LocateRow(t.lists, id)].name
    ensures r.todosRemaining <= r.todosCount
  {
    Aggregate(t.lists[LocateRow(t.lists, id)], LeftJoin(t.lists, t.todos))
  }

  /** `completed: tuple["completed"] == 't'`: only a stored true reads as true. */
  function ViewOf(r: TodoRow): (v: TodoView)
    ensures v.id == r.id && v.name == r.name
    ensures v.completed <==> r.completed == Some(true)
  {
    TodoView(r.id, r.name, r.completed == Some(true))
  }

  function Views(rows: seq<TodoRow>): (r: seq<TodoView>)
    ensures |r| == |rows|
    ensures forall k :: 0 <= k < |rows| ==> r[k] == ViewOf(rows[k])
  {
    seq(|rows|, k requires 0 <= k < |rows| => ViewOf(rows[k]))
  }

  /** `get_todos`: the todo rows of list `id`, as hashes, in table order. */
  function GetTodos(t: Tables, id: int): (r: seq<TodoView>)
    ensures |r| == TodosCount(t.todos, id)
    ensures forall row :: row in t.todos && row.listId == id ==> ViewOf(row) in r
    ensures forall v :: v in r ==> exists row :: row in t.todos && row.listId == id && v == ViewOf(row)
  {
    var rows := Filter(t.todos, BelongsTo(id));
    CountIsFilterLength(t.todos, BelongsTo(id));
    var r := Views(rows);
    assert forall row :: row in rows ==> ViewOf(row) in r by {
      forall row | row in rows
        ensures ViewOf(row) in r
      {
        var k :| 0 <= k < |rows| && rows[k] == row;
        assert r[k] == ViewOf(row);
      }
    }
    assert forall v :: v in r ==> exists row :: row in rows && v == ViewOf(row) by {
      forall v | v in r
        ensures exists row :: row in rows && v == ViewOf(row)
      {
        var k :| 0 <= k < |r| && r[k] == v;
        assert rows[k] in rows;
      }
    }
    r
  }

  // ---------------------------------------------------------------------------
  // Writes
  // ---------------------------------------------------------------------------

  /** `INSERT INTO lists (name) VALUES ($1)`: the database assigns `newId`,
      which no list row carries yet. */
  function CreateNewList(t: Tables, name: string, newId: int): (r: Tables)
    requires !ListExists(t.lists, newId)
    ensures |r.lists| == |t.lists| + 1 && r.lists[..|t.lists|] == t.lists
    ensures r.lists[|t.lists|] == ListRow(newId, name)
    ensures r.todos == t.todos
  {
    t.(lists := t.lists + [ListRow(newId, name)])
  }

  /** `DELETE FROM todos WHERE list_id = $1` */
  function DeleteTodosOfList(t: Tables, id: int): (r: Tables)
    ensures forall row :: row in r.todos <==> row in t.todos && row.listId != id
    ensures r.lists == t.lists
  {
    t.(todos := Filter(t.todos, OtherListsTodo(id)))
  }

  /** `DELETE FROM lists WHERE id = $1`: refused while a todo still references the list. */
  function DeleteListRows(t: Tables, id: int): (r: Result<Tables, DbError>)
    ensures r.Err? <==> exists row :: row in t.todos && row.listId == id
    ensures r.Ok? ==> r.value.todos == t.todos
    ensures r.Ok? ==> forall l :: l in r.value.lists <==> l in t.lists && l.id != id
  {
    if exists row :: row in t.todos && row.listId == id then Err(ForeignKeyViolation)
    else Ok(t.(lists := Filter(t.lists, OtherList(id))))
  }

  /** `delete_list`: delete the list's todos first, then the list row. The
      second statement can never be refused, because the first one removed
      every row that references the list. */
  function DeleteList(t: Tables, id: int): (r: Tables)
    ensures forall row :: row in r.todos ==> row.listId != id
    ensures forall row :: row in r.todos <==> row in t.todos && row.listId != id
    ensures forall l :: l in r.lists <==> l in t.lists && l.id != id
  {
    var cleared := DeleteTodosOfList(t, id);
    var removed := DeleteListRows(cleared, id);
    assert removed.Ok?;
    removed.value
  }

  /** `UPDATE lists SET name = $1 WHERE id = $2` */
  function UpdateList(t: Tables, listId: int, newName: string): (r: Tables)
    ensures |r.lists| == |t.lists|
    ensures forall k :: 0 <= k < |t.lists| && t.lists[k].id == listId ==> r.lists[k] == ListRow(listId, newName)
    ensures forall k :: 0 <= k < |t.lists| && t.lists[k].id != listId ==> r.lists[k] == t.lists[k]
    ensures r.todos == t.todos
  {
    t.(lists := seq(|t.lists|, k requires 0 <= k < |t.lists| =>
                      if t.lists[k].id == listId then t.lists[k].(name := newName) else t.lists[k]))
  }

  /** `INSERT INTO todos (list_id, name) VALUES ($1, $2)`: the database
      assigns the fresh id `newId`, and `completed` takes the column default
      `completedDefault`, which the statement never sets. An id naming no list
      is refused. */
  function AddTodoToList(t: Tables, listId: int, todoName: string, newId: int,
                         completedDefault: Option<bool>): (r: Result<Tables, DbError>)
    requires !TodoIdTaken(t.todos, newId)
    ensures r.Err? <==> !ListExists(t.lists, listId)
    ensures r.Ok? ==> r.value.lists == t.lists
    ensures r.Ok? ==> r.value.todos == t.todos + [TodoRow(newId, listId, todoName, completedDefault)]
  {
    if ListExists(t.lists, listId) then
      Ok(t.(todos := t.todos + [TodoRow(newId, listId, todoName, completedDefault)]))
    else
      Err(ForeignKeyViolation)
  }

  /** `DELETE FROM todos WHERE id = $1 AND list_id = $2` */
  function DeleteTodo(t: Tables, listId: int, todoId: int): (r: Tables)
    ensures forall row :: row in r.todos <==> row in t.todos && !(row.id == todoId && row.listId == listId)
    ensures r.lists == t.lists
  {
    t.(todos := Filter(t.todos, NotAddressed(listId, todoId)))
  }

  /** `UPDATE todos SET completed = v WHERE <sel>`, row by row in table order. */
  function SetCompletedWhere(todos: seq<TodoRow>, sel: TodoRow -> bool, v: bool): (r: seq<TodoRow>)
    ensures |r| == |todos|
    ensures forall k :: 0 <= k < |todos| && sel(todos[k]) ==> r[k] == todos[k].(completed := Some(v))
    ensures forall k :: 0 <= k < |todos| && !sel(todos[k]) ==> r[k] == todos[k]
    decreases |todos|
  {
    if |todos| == 0 then []
    else [if sel(todos[0]) then todos[0].(completed := Some(v)) else todos[0]]
         + SetCompletedWhere(todos[1..], sel, v)
  }

  /** `UPDATE todos SET completed = $1 WHERE id = $2 AND list_id = $3` */
  function UpdateTodoStatus(t: Tables, listId: int, todoId: int, newStatus: bool): (r: Tables)
    ensures |r.todos| == |t.todos| && r.lists == t.lists
    ensures forall k :: 0 <= k < |t.todos| && t.todos[k].id == todoId && t.todos[k].listId == listId ==>
                          r.todos[k] == t.todos[k].(completed := Some(newStatus))
    ensures forall k :: 0 <= k < |t.todos| && !(t.todos[k].id == todoId && t.todos[k].listId == listId) ==>
                          r.todos[k] == t.todos[k]
  {
    t.(todos := SetCompletedWhere(t.todos, Addressed(listId, todoId), newStatus))
  }

  /** `UPDATE todos SET completed = true WHERE list_id = $2` */
  function MarkAllTodosComplete(t: Tables, listId: int): (r: Tables)
    ensures |r.todos| == |t.todos| && r.lists == t.lists
    ensures forall k :: 0 <= k < |t.todos| && t.todos[k].listId == listId ==>
                          r.todos[k] == t.todos[k].(completed := Some(true))
    ensures forall k :: 0 <= k < |t.todos| && t.todos[k].listId != listId ==> r.todos[k] == t.todos[k]
  {
    t.(todos := SetCompletedWhere(t.todos, BelongsTo(listId), true))
  }
}
