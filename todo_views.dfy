/** The values the todo-list component derives from its list of todos on every
    render: the filtered list it shows, whether any todo is done, how many are
    left, the record it sends when a todo is created, the record it sends when a
    todo is toggled, and the ids "clear completed" deletes.

    The list functions recurse on the last element (`Init`, `Last`), so that an
    index into the shorter list is an index into the longer one. */
module TodoViews {

  datatype Option<T> = None | Some(value: T)

  /** A todo record as the remote store returns it. */
  datatype Todo = Todo(id: int, userId: int, title: string, completed: bool)

  /** The three filters of the list. */
  datatype SortType = All | Active | Completed

  /** The user that owns every todo this client creates or loads. */
  const USER_ID: int := 6476

  /** The record `createNewTodo` builds. Its id is `Math.max` over the ids plus
      one; `Math.max` of no numbers is `-Infinity`, which is not an integer and
      is written `None` here. */
  datatype NewTodo = NewTodo(id: Option<int>, userId: int, title: string, completed: bool)

  function Init(todos: seq<Todo>): seq<Todo>
    requires todos != []
  {
    todos[..|todos| - 1]
  }

  function Last(todos: seq<Todo>): Todo
    requires todos != []
  {
    todos[|todos| - 1]
  }

  /** The test each todo passes to be shown under a filter. */
  predicate Shows(filterBy: SortType, todo: Todo) {
    match filterBy
    case Active => !todo.completed
    case Completed => todo.completed
    case All => true
  }

  /** `visibleTodos`: the todos that pass the filter. */
  function VisibleTodos(todos: seq<Todo>, filterBy: SortType): (r: seq<Todo>)
    ensures |r| <= |todos|
    ensures forall k :: 0 <= k < |r| ==> Shows(filterBy, r[k])
  {
    if todos == [] then []
    else if Shows(filterBy, Last(todos)) then VisibleTodos(Init(todos), filterBy) + [Last(todos)]
    else VisibleTodos(Init(todos), filterBy)
  }

  /** The positions in `todos` of the todos that pass the filter, in increasing
      order. */
  function ShownIndices(todos: seq<Todo>, filterBy: SortType): seq<int>
  {
    if todos == [] then []
    else if Shows(filterBy, Last(todos)) then ShownIndices(Init(todos), filterBy) + [|todos| - 1]
    else ShownIndices(Init(todos), filterBy)
  }

  /** `idx` lists positions of a sequence of length `n`, strictly increasing. */
  ghost predicate Increasing(idx: seq<int>, n: int) {
    (forall k :: 0 <= k < |idx| ==> 0 <= idx[k] < n) &&
    (forall k, l :: 0 <= k < l < |idx| ==> idx[k] < idx[l])
  }

  /** `r` is obtained from `s` by dropping elements, keeping the order of the rest. */
  ghost predicate IsSubsequence(r: seq<Todo>, s: seq<Todo>) {
    exists idx: seq<int> ::
      |idx| == |r| && Increasing(idx, |s|) &&
      forall k :: 0 <= k < |idx| ==> r[k] == s[idx[k]]
  }

  /** The filtered list is exactly the todos at the positions that pass the
      filter, in their original order. */
  lemma {:induction false} VisibleTodosSelectsInOrder(todos: seq<Todo>, filterBy: SortType)
    ensures |ShownIndices(todos, filterBy)| == |VisibleTodos(todos, filterBy)|
    ensures Increasing(ShownIndices(todos, filterBy), |todos|)
    ensures forall k :: 0 <= k < |VisibleTodos(todos, filterBy)| ==>
              VisibleTodos(todos, filterBy)[k] == todos[ShownIndices(todos, filterBy)[k]]
    ensures forall i :: 0 <= i < |todos| ==>
              (i in ShownIndices(todos, filterBy) <==> Shows(filterBy, todos[i]))
  {
    if todos != [] {
      var init := Init(todos);
      VisibleTodosSelectsInOrder(init, filterBy);
      var idx0 := ShownIndices(init, filterBy);
      var r0 := VisibleTodos(init, filterBy);
      assert forall i :: 0 <= i < |init| ==> todos[i] == init[i];
      assert forall k :: 0 <= k < |idx0| ==> idx0[k] < |init|;
    }
  }

  /** The filtered list keeps the original order: it is a subsequence of the todos. */
  lemma VisibleTodosIsSubsequence(todos: seq<Todo>, filterBy: SortType)
    ensures IsSubsequence(VisibleTodos(todos, filterBy), todos)
  {
    VisibleTodosSelectsInOrder(todos, filterBy);
    var idx := ShownIndices(todos, filterBy);
    assert |idx| == |VisibleTodos(todos, filterBy)| && Increasing(idx, |todos|);
  }

  /** A todo is shown exactly when it is in the list and passes the filter. */
  lemma {:induction false} VisibleTodosMembers(todos: seq<Todo>, filterBy: SortType, t: Todo)
    ensures t in VisibleTodos(todos, filterBy) <==> t in todos && Shows(filterBy, t)
  {
    VisibleTodosSelectsInOrder(todos, filterBy);
    var r := VisibleTodos(todos, filterBy);
    var idx := ShownIndices(todos, filterBy);
    if t in r {
      var k :| 0 <= k < |r| && r[k] == t;
      assert todos[idx[k]] == t;
    }
    if t in todos && Shows(filterBy, t) {
      var i :| 0 <= i < |todos| && todos[i] == t;
      assert i in idx;
      var k :| 0 <= k < |idx| && idx[k] == i;
      assert r[k] == t;
    }
  }

  /** Under `All` every todo is shown. */
  lemma {:induction false} VisibleTodosAll(todos: seq<Todo>)
    ensures VisibleTodos(todos, All) == todos
  {
    if todos != [] {
      VisibleTodosAll(Init(todos));
      assert Init(todos) + [Last(todos)] == todos;
    }
  }

  /** The `Active` and `Completed` views split the list: every todo is in
      exactly one of them, as many times as it occurs in the list. */
  lemma {:induction false} ActiveCompletedPartition(todos: seq<Todo>)
    ensures multiset(VisibleTodos(todos, Active)) + multiset(VisibleTodos(todos, Completed)) == multiset(todos)
    ensures |VisibleTodos(todos, Active)| + |VisibleTodos(todos, Completed)| == |todos|
  {
    if todos != [] {
      ActiveCompletedPartition(Init(todos));
      assert Init(todos) + [Last(todos)] == todos;
      assert multiset(todos) == multiset(Init(todos)) + multiset{Last(todos)};
    }
  }

  /** `hasCompleteTodos`: some todo is done. */
  function HasCompleteTodos(todos: seq<Todo>): (r: bool)
    ensures r <==> exists i :: 0 <= i < |todos| && todos[i].completed
  {
    if todos == [] then false
    else
      assert forall i :: 0 <= i < |Init(todos)| ==> Init(todos)[i] == todos[i];
      HasCompleteTodos(Init(todos)) || Last(todos).completed
  }

  /** `mustBeCompleted`: the number of todos still to do, shown as "items left". */
  function MustBeCompleted(todos: seq<Todo>): (r: nat)
    ensures r <= |todos|
  {
    |VisibleTodos(todos, Active)|
  }

  /** The positions of the todos still to do. */
  ghost function ActivePositions(todos: seq<Todo>): set<int> {
    set i | 0 <= i < |todos| && !todos[i].completed
  }

  /** The count of items left is the number of positions holding a todo that
      is not done. */
  lemma {:induction false} MustBeCompletedCountsActive(todos: seq<Todo>)
    ensures MustBeCompleted(todos) == |ActivePositions(todos)|
  {
    if todos != [] {
      var init := Init(todos);
      MustBeCompletedCountsActive(init);
      var n := |todos| - 1;
      assert n !in ActivePositions(init);
      if Last(todos).completed {
        assert ActivePositions(todos) == ActivePositions(init);
      } else {
        assert ActivePositions(todos) == ActivePositions(init) + {n};
      }
    }
  }

  /** Some todo is done exactly when fewer items are left than there are todos. */
  lemma {:induction false} HasCompleteTodosIffSomeDone(todos: seq<Todo>)
    ensures HasCompleteTodos(todos) <==> MustBeCompleted(todos) < |todos|
  {
    ActiveCompletedPartition(todos);
    var done := VisibleTodos(todos, Completed);
    if HasCompleteTodos(todos) {
      var i :| 0 <= i < |todos| && todos[i].completed;
      VisibleTodosMembers(todos, Completed, todos[i]);
    }
    if done != [] {
      VisibleTodosMembers(todos, Completed, done[0]);
    }
  }

  /** The id `createNewTodo` computes: one more than the largest id, or
      `None` (`-Infinity`) when there are no todos. */
  function NewId(todos: seq<Todo>): (r: Option<int>)
    ensures r.None? <==> todos == []
    ensures r.Some? ==> forall i :: 0 <= i < |todos| ==> todos[i].id < r.value
    ensures r.Some? ==> exists i :: 0 <= i < |todos| && r.value == todos[i].id + 1
  {
    if todos == [] then None
    else
      assert forall i :: 0 <= i < |Init(todos)| ==> Init(todos)[i] == todos[i];
      match NewId(Init(todos))
      case None => Some(Last(todos).id + 1)
      case Some(m) => Some(if m < Last(todos).id + 1 then Last(todos).id + 1 else m)
  }

  /** `createNewTodo`: a todo of this user, not done, titled `query`, whose id
      differs from every id in the list. */
  function CreateNewTodo(todos: seq<Todo>, query: string): (r: NewTodo)
    ensures r.userId == USER_ID && r.title == query && !r.completed
    ensures r.id.None? <==> todos == []
    ensures r.id.Some? ==> forall t :: t in todos ==> t.id < r.id.value
  {
    NewTodo(NewId(todos), USER_ID, query, false)
  }

  /** No two todos of the list share an id. */
  ghost predicate UniqueIds(todos: seq<Todo>) {
    forall i, j :: 0 <= i < j < |todos| ==> todos[i].id != todos[j].id
  }

  /** A todo stored under the id `createNewTodo` picks keeps the ids unique. */
  lemma NewIdKeepsIdsUnique(todos: seq<Todo>, query: string, stored: Todo)
    requires UniqueIds(todos)
    requires todos != [] && stored.id == CreateNewTodo(todos, query).id.value
    ensures UniqueIds(todos + [stored])
  {
  }

  /** The record `onCompletedChange` sends: the same todo with `completed` negated. */
  function TogglePayload(todo: Todo): (r: Todo)
    ensures r.id == todo.id && r.userId == todo.userId && r.title == todo.title
    ensures r.completed != todo.completed
  {
    Todo(todo.id, todo.userId, todo.title, !todo.completed)
  }

  /** Toggling twice gives back the original record. */
  lemma TogglePayloadInvolutive(todo: Todo)
    ensures TogglePayload(TogglePayload(todo)) == todo
  {
  }

  /** Toggling moves a todo from the `Active` view to the `Completed` one and back. */
  lemma TogglePayloadSwapsViews(todo: Todo)
    ensures Shows(Active, todo) <==> Shows(Completed, TogglePayload(todo))
    ensures Shows(Completed, todo) <==> Shows(Active, TogglePayload(todo))
  {
  }

  /** The ids of a list of todos, in order. */
  function Ids(todos: seq<Todo>): (r: seq<int>)
    ensures |r| == |todos|
  {
    seq(|todos|, k requires 0 <= k < |todos| => todos[k].id)
  }

  /** The ids `clearCompleted` deletes: those of the completed todos, in list order. */
  function CompletedIds(todos: seq<Todo>): seq<int> {
    Ids(VisibleTodos(todos, Completed))
  }

  /** `clearCompleted` deletes one id per completed todo, in list order, every
      completed todo's id, and, when ids are unique, no active todo's id. */
  lemma ClearCompletedSelection(todos: seq<Todo>)
    ensures |CompletedIds(todos)| + MustBeCompleted(todos) == |todos|
    ensures Increasing(ShownIndices(todos, Completed), |todos|)
    ensures |ShownIndices(todos, Completed)| == |CompletedIds(todos)|
    ensures forall k :: 0 <= k < |CompletedIds(todos)| ==>
              var i := ShownIndices(todos, Completed)[k];
              todos[i].completed && CompletedIds(todos)[k] == todos[i].id
    ensures forall i :: 0 <= i < |todos| && todos[i].completed ==> todos[i].id in CompletedIds(todos)
    ensures UniqueIds(todos) ==>
              forall i :: 0 <= i < |todos| && !todos[i].completed ==> todos[i].id !in CompletedIds(todos)
  {
    ActiveCompletedPartition(todos);
    VisibleTodosSelectsInOrder(todos, Completed);
    var idx := ShownIndices(todos, Completed);
    var ids := CompletedIds(todos);
    forall i | 0 <= i < |todos| && todos[i].completed ensures todos[i].id in ids {
      assert i in idx;
      var k :| 0 <= k < |idx| && idx[k] == i;
      assert ids[k] == todos[i].id;
    }
    if UniqueIds(todos) {
      forall i | 0 <= i < |todos| && !todos[i].completed ensures todos[i].id !in ids {
        forall k | 0 <= k < |ids| ensures ids[k] != todos[i].id {
          assert todos[idx[k]].completed;
        }
      }
    }
  }
}
