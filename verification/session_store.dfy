/** The session-backed store (`SessionPersistence`): lists and their todos live
    in a per-session structure, and ids come from two counters kept beside
    the data. Every operation is a pure transition from one `Session` to the
    next. */
module SessionStore {
  import opened Basics

  datatype Todo = Todo(id: nat, name: string, completed: bool)

  datatype TodoList = TodoList(id: nat, name: string, todos: seq<Todo>)

  /** The three session keys the store owns: `:lists`, `:list_number`, `:todo_number`. */
  datatype Session = Session(lists: seq<TodoList>, listNumber: nat, todoNumber: nat)

  /** The session hash as the constructor receives it: any of the keys may be unset. */
  datatype RawSession = RawSession(lists: Option<seq<TodoList>>, listNumber: Option<nat>, todoNumber: Option<nat>)

  // ---------------------------------------------------------------------------
  // The invariant the counters are meant to keep
  // ---------------------------------------------------------------------------

  predicate DifferentListIds(a: TodoList, b: TodoList) {
    a.id != b.id
  }

  predicate DifferentTodoIds(a: Todo, b: Todo) {
    a.id != b.id
  }

  /** The ids of the todos of one list. */
  function TodoIds(todos: seq<Todo>): set<nat> {
    set t | t in todos :: t.id
  }

  /** No todo of `a` shares its id with a todo of `b`. */
  predicate DisjointTodoIds(a: TodoList, b: TodoList) {
    TodoIds(a.todos) !! TodoIds(b.todos)
  }

  /** List ids are distinct and below `listNumber`; todo ids are distinct
      across the whole session and below `todoNumber`. */
  ghost predicate Valid(s: Session) {
    && (forall l :: l in s.lists ==> l.id < s.listNumber)
    && Pairwise(s.lists, DifferentListIds)
    && (forall l :: l in s.lists ==> forall t :: t in l.todos ==> t.id < s.todoNumber)
    && (forall l :: l in s.lists ==> Pairwise(l.todos, DifferentTodoIds))
    && Pairwise(s.lists, DisjointTodoIds)
  }

  // ---------------------------------------------------------------------------
  // Construction and lookup
  // ---------------------------------------------------------------------------

  /** `initialize`: every key that is already set is kept (`||=`); unset keys
      become an empty list sequence and zero counters. */
  function Init(raw: RawSession): (s: Session)
    ensures raw.lists.Some? ==> s.lists == raw.lists.value
    ensures raw.lists.None? ==> s.lists == []
    ensures raw.listNumber.Some? ==> s.listNumber == raw.listNumber.value
    ensures raw.listNumber.None? ==> s.listNumber == 0
    ensures raw.todoNumber.Some? ==> s.todoNumber == raw.todoNumber.value
    ensures raw.todoNumber.None? ==> s.todoNumber == 0
  {
    Session(
      match raw.lists case Some(ls) => ls case None => [],
      match raw.listNumber case Some(n) => n case None => 0,
      match raw.todoNumber case Some(n) => n case None => 0)
  }

  /** The session hash once the store has written its keys back into it. */
  function ToRaw(s: Session): RawSession {
    RawSession(Some(s.lists), Some(s.listNumber), Some(s.todoNumber))
  }

  /** Constructing a store over a session that already holds a store's keys
      changes nothing, and a brand-new session starts out valid. */
  lemma InitKeepsExistingSession(s: Session)
    ensures Init(ToRaw(s)) == s
    ensures Valid(Init(RawSession(None, None, None)))
  {
  }

  /** Position of the first list whose id is `id`, if any. */
  function FindIndex(lists: seq<TodoList>, id: int): (r: Option<nat>)
    ensures r.Some? ==> r.value < |lists| && lists[r.value].id == id
    ensures r.Some? ==> forall k :: 0 <= k < r.value ==> lists[k].id != id
    ensures r.None? <==> forall l :: l in lists ==> l.id != id
    decreases |lists|
  {
    if |lists| == 0 then None
    else if lists[0].id == id then Some(0)
    else match FindIndex(lists[1..], id)
      case Some(k) => Some(k + 1)
      case None => None
  }

  predicate HasList(s: Session, id: int) {
    exists l :: l in s.lists && l.id == id
  }

  /** Position of the list `find_list(id)` returns, for a list known to exist. */
  function Locate(lists: seq<TodoList>, id: int): (i: nat)
    requires exists l :: l in lists && l.id == id
    ensures i < |lists| && lists[i].id == id
    ensures forall k :: 0 <= k < i ==> lists[k].id != id
  {
    FindIndex(lists, id).value
  }

  /** `find_list`: the first list with that id, or nothing when no list has it. */
  function FindList(s: Session, id: int): (r: Option<TodoList>)
    ensures r.None? <==> !HasList(s, id)
    ensures r.Some? ==> exists i :: 0 <= i < |s.lists| && s.lists[i] == r.value
                                    && r.value.id == id
                                    && forall k :: 0 <= k < i ==> s.lists[k].id != id
    ensures HasList(s, id) ==> r == Some(s.lists[Locate(s.lists, id)])
  {
    match FindIndex(s.lists, id)
    case Some(i) => Some(s.lists[i])
    case None => None
  }

  /** `all_lists`: the stored sequence itself, in insertion order. */
  function AllLists(s: Session): seq<TodoList> {
    s.lists
  }

  // ---------------------------------------------------------------------------
  // List operations
  // ---------------------------------------------------------------------------

  /** `create_new_list`: append an empty list numbered by `list_number`, then bump it. */
  function CreateNewList(s: Session, name: string): (r: Session)
    ensures |r.lists| == |s.lists| + 1 && r.lists[..|s.lists|] == s.lists
    ensures r.lists[|s.lists|] == TodoList(s.listNumber, name, [])
    ensures r.listNumber == s.listNumber + 1 && r.todoNumber == s.todoNumber
  {
    s.(lists := s.lists + [TodoList(s.listNumber, name, [])], listNumber := s.listNumber + 1)
  }

  /** A list with id `id` is not wanted any more. */
  function Keeps(id: int): TodoList -> bool {
    (l: TodoList) => l.id != id
  }

  /** `delete_list`: drop every list with that id (`reject!`). */
  function DeleteList(s: Session, id: int): (r: Session)
    ensures forall l :: l in r.lists <==> l in s.lists && l.id != id
    ensures r.listNumber == s.listNumber && r.todoNumber == s.todoNumber
  {
    s.(lists := Filter(s.lists, Keeps(id)))
  }

  /** `update_list`: rename the list `find_list` returns. */
  function UpdateList(s: Session, listId: int, newName: string): (r: Session)
    requires HasList(s, listId)
    ensures |r.lists| == |s.lists|
    ensures var i := Locate(s.lists, listId);
            r.lists[i] == TodoList(s.lists[i].id, newName, s.lists[i].todos)
    ensures forall k :: 0 <= k < |s.lists| && k != Locate(s.lists, listId) ==> r.lists[k] == s.lists[k]
    ensures r.listNumber == s.listNumber && r.todoNumber == s.todoNumber
  {
    var i := Locate(s.lists, listId);
    s.(lists := s.lists[i := s.lists[i].(name := newName)])
  }

  // ---------------------------------------------------------------------------
  // Todo operations
  // ---------------------------------------------------------------------------

  /** `add_todo_to_list`: append an open todo numbered by `todo_number` to the
      list `find_list` returns, then bump the counter. */
  function AddTodoToList(s: Session, listId: int, todoName: string): (r: Session)
    requires HasList(s, listId)
    ensures |r.lists| == |s.lists|
    ensures var i := Locate(s.lists, listId);
            r.lists[i] == TodoList(s.lists[i].id, s.lists[i].name,
                                   s.lists[i].todos + [Todo(s.todoNumber, todoName, false)])
    ensures forall k :: 0 <= k < |s.lists| && k != Locate(s.lists, listId) ==> r.lists[k] == s.lists[k]
    ensures r.todoNumber == s.todoNumber + 1 && r.listNumber == s.listNumber
  {
    var i := Locate(s.lists, listId);
    var list := s.lists[i];
    s.(lists := s.lists[i := list.(todos := list.todos + [Todo(s.todoNumber, todoName, false)])],
       todoNumber := s.todoNumber + 1)
  }

  /** A todo with id `id` is not wanted any more. */
  function KeepsTodo(id: int): Todo -> bool {
    (t: Todo) => t.id != id
  }

  /** `delete_todo`: drop every todo with that id from the list `find_list` returns. */
  function DeleteTodo(s: Session, listId: int, todoId: int): (r: Session)
    requires HasList(s, listId)
    ensures |r.lists| == |s.lists|
    ensures var i := Locate(s.lists, listId);
            && r.lists[i].id == s.lists[i].id && r.lists[i].name == s.lists[i].name
            && forall t :: t in r.lists[i].todos <==> t in s.lists[i].todos && t.id != todoId
    ensures forall k :: 0 <= k < |s.lists| && k != Locate(s.lists, listId) ==> r.lists[k] == s.lists[k]
    ensures r.listNumber == s.listNumber && r.todoNumber == s.todoNumber
  {
    var i := Locate(s.lists, listId);
    var list := s.lists[i];
    s.(lists := s.lists[i := list.(todos := Filter(list.todos, KeepsTodo(todoId)))])
  }

  predicate HasTodo(list: TodoList, todoId: int) {
    exists t :: t in list.todos && t.id == todoId
  }

  /** Position of the first todo with that id in a list that has one. */
  function LocateTodo(todos: seq<Todo>, todoId: int): (j: nat)
    requires exists t :: t in todos && t.id == todoId
    ensures j < |todos| && todos[j].id == todoId
    ensures forall k :: 0 <= k < j ==> todos[k].id != todoId
    decreases |todos|
  {
    if todos[0].id == todoId then 0
    else
      assert exists t :: t in todos[1..] && t.id == todoId by {
        var t :| t in todos && t.id == todoId;
        var m :| 0 <= m < |todos| && todos[m] == t;
        assert todos[1..][m - 1] == t;
      }
      1 + LocateTodo(todos[1..], todoId)
  }

  /** `update_todo_status`: set the flag of the first todo with that id in the
      list `find_list` returns. */
  function UpdateTodoStatus(s: Session, listId: int, todoId: int, newStatus: bool): (r: Session)
    requires HasList(s, listId)
    requires HasTodo(s.lists[Locate(s.lists, listId)], todoId)
    ensures |r.lists| == |s.lists|
    ensures var i := Locate(s.lists, listId);
            var j := LocateTodo(s.lists[i].todos, todoId);
            && r.lists[i].id == s.lists[i].id && r.lists[i].name == s.lists[i].name
            && |r.lists[i].todos| == |s.lists[i].todos|
            && r.lists[i].todos[j] == Todo(todoId, s.lists[i].todos[j].name, newStatus)
            && forall k :: 0 <= k < |s.lists[i].todos| && k != j ==> r.lists[i].todos[k] == s.lists[i].todos[k]
    ensures forall k :: 0 <= k < |s.lists| && k != Locate(s.lists, listId) ==> r.lists[k] == s.lists[k]
    ensures r.listNumber == s.listNumber && r.todoNumber == s.todoNumber
  {
    var i := Locate(s.lists, listId);
    var list := s.lists[i];
    var j := LocateTodo(list.todos, todoId);
    s.(lists := s.lists[i := list.(todos := list.todos[j := list.todos[j].(completed := newStatus)])])
  }

  /** Every todo of `todos` marked complete, nothing else changed. */
  function CompleteAll(todos: seq<Todo>): (r: seq<Todo>)
    ensures |r| == |todos|
    ensures forall k :: 0 <= k < |todos| ==> r[k] == Todo(todos[k].id, todos[k].name, true)
  {
    seq(|todos|, k requires 0 <= k < |todos| => todos[k].(completed := true))
  }

  /** `mark_all_todos_complete`: complete every todo of the list `find_list` returns. */
  function MarkAllTodosComplete(s: Session, listId: int): (r: Session)
    requires HasList(s, listId)
    ensures |r.lists| == |s.lists|
    ensures var i := Locate(s.lists, listId);
            && r.lists[i].id == s.lists[i].id && r.lists[i].name == s.lists[i].name
            && |r.lists[i].todos| == |s.lists[i].todos|
            && forall k :: 0 <= k < |s.lists[i].todos| ==>
                 r.lists[i].todos[k] == Todo(s.lists[i].todos[k].id, s.lists[i].todos[k].name, true)
    ensures forall k :: 0 <= k < |s.lists| && k != Locate(s.lists, listId) ==> r.lists[k] == s.lists[k]
    ensures r.listNumber == s.listNumber && r.todoNumber == s.todoNumber
  {
    var i := Locate(s.lists, listId);
    var list := s.lists[i];
    s.(lists := s.lists[i := list.(todos := CompleteAll(list.todos))])
  }
}
