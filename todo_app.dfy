/** The state of the todo-list component and the handlers that change it.

    Each remote call is recorded in `calls`, the requests the component has
    sent, and its outcome is a parameter of the handler: `true`/`false` for a
    create, update or delete that succeeds or fails, a `LoadReply` for a list
    reload. A handler that awaits a call is modelled as sending it and then
    running its continuation (`SettleUpdate`, `SettleDelete`) with the outcome.
    The two bulk handlers, `ToggleAllCompleted` and `ClearCompleted`, do not
    await: they only send their requests, and each reply later settles through
    `SettleUpdate` or `SettleDelete` on its own. */
module TodoApp {
  import opened TodoViews

  const LOAD_ERROR: string := "Can't load data..."
  const EMPTY_TITLE_ERROR: string := "Empty title alowed"
  const ADD_ERROR: string := "Unable to add a todo"
  const UPDATE_ERROR: string := "Unable to update a todo"
  const DELETE_ERROR: string := "Unable to delete a todo"

  /** A request sent to the remote todo API. */
  datatype ApiCall =
    | GetTodos(userId: int)
    | AddTodo(newTodo: NewTodo)
    | UpdateTodo(todoId: int, payload: Todo)
    | DeleteTodo(todoId: int)

  /** The remote store's answer to a list reload. */
  datatype LoadReply = Loaded(todos: seq<Todo>) | LoadFailed

  /** The todo shown while a create is in flight: id 0, not done. */
  function Placeholder(title: string): Todo {
    Todo(0, USER_ID, title, false)
  }

  /** The delete requests for a list of ids, in order. */
  function DeleteCalls(ids: seq<int>): (r: seq<ApiCall>)
    ensures |r| == |ids|
  {
    seq(|ids|, k requires 0 <= k < |ids| => DeleteTodo(ids[k]))
  }

  /** The toggle requests for a list of todos, in order. */
  function UpdateCalls(todos: seq<Todo>): (r: seq<ApiCall>)
    ensures |r| == |todos|
  {
    seq(|todos|, k requires 0 <= k < |todos| => UpdateTodo(todos[k].id, TogglePayload(todos[k])))
  }

  class App {
    var todos: seq<Todo>
    var filterBy: SortType
    var inputDisable: bool
    var tempTodo: Option<Todo>
    var errorMessage: string
    /** Every request sent to the remote API, oldest first. */
    var calls: seq<ApiCall>

    /** The in-flight todo, when there is one, is a placeholder: id 0, this
        user's, not done. Only `SendTodo` sets it; the error slot is left free,
        since the list component may also write any message into it. */
    ghost predicate Valid()
      reads this
    {
      tempTodo.Some? ==> tempTodo.value.id == 0 && tempTodo.value.userId == USER_ID && !tempTodo.value.completed
    }

    /** The state on first render. The mount effect then runs `LoadTodosData`
        once, so a mounted component is this followed by that call. */
    constructor ()
      ensures Valid()
      ensures todos == [] && filterBy == All && !inputDisable
      ensures tempTodo == None && errorMessage == "" && calls == []
    {
      todos := [];
      filterBy := All;
      inputDisable := false;
      tempTodo := None;
      errorMessage := "";
      calls := [];
    }

    /** The footer's filter links. */
    method SetFilterBy(f: SortType)
      modifies this`filterBy
      ensures filterBy == f
    {
      filterBy := f;
    }

    /** `loadTodosData`: fetch the list; on success replace it, drop the
        placeholder and re-enable input; on failure only report the error. */
    method LoadTodosData(reply: LoadReply)
      requires Valid()
      modifies this
      ensures Valid()
      ensures calls == old(calls) + [GetTodos(USER_ID)]
      ensures filterBy == old(filterBy)
      ensures reply.Loaded? ==>
                todos == reply.todos && tempTodo == None && !inputDisable &&
                errorMessage == old(errorMessage)
      ensures reply.LoadFailed? ==>
                todos == old(todos) && tempTodo == old(tempTodo) &&
                inputDisable == old(inputDisable) && errorMessage == LOAD_ERROR
    {
      calls := calls + [GetTodos(USER_ID)];
      match reply
      case Loaded(fromServer) =>
        tempTodo := None;
        inputDisable := false;
        todos := fromServer;
      case LoadFailed =>
        errorMessage := LOAD_ERROR;
    }

    /** What follows an update request: on success drop the placeholder and
        reload; on failure set the update error and change nothing else. */
    method SettleUpdate(updated: bool, reload: LoadReply)
      requires Valid()
      modifies this
      ensures Valid()
      ensures filterBy == old(filterBy)
      ensures !updated ==>
                calls == old(calls) && todos == old(todos) && tempTodo == old(tempTodo) &&
                inputDisable == old(inputDisable) && errorMessage == UPDATE_ERROR
      ensures updated ==> calls == old(calls) + [GetTodos(USER_ID)] && tempTodo == None
      ensures updated && reload.Loaded? ==>
                todos == reload.todos && !inputDisable && errorMessage == old(errorMessage)
      ensures updated && reload.LoadFailed? ==>
                todos == old(todos) && inputDisable == old(inputDisable) && errorMessage == LOAD_ERROR
    {
      if updated {
        tempTodo := None;
        LoadTodosData(reload);
      } else {
        errorMessage := UPDATE_ERROR;
      }
    }

    /** `onCompletedChange`: send the todo with `completed` negated, then settle. */
    method OnCompletedChange(todo: Todo, updated: bool, reload: LoadReply)
      requires Valid()
      modifies this
      ensures Valid()
      ensures filterBy == old(filterBy)
      ensures !updated ==>
                calls == old(calls) + [UpdateTodo(todo.id, TogglePayload(todo))] &&
                todos == old(todos) && tempTodo == old(tempTodo) &&
                inputDisable == old(inputDisable) && errorMessage == UPDATE_ERROR
      ensures updated ==>
                calls == old(calls) + [UpdateTodo(todo.id, TogglePayload(todo)), GetTodos(USER_ID)] &&
                tempTodo == None
      ensures updated && reload.Loaded? ==>
                todos == reload.todos && !inputDisable && errorMessage == old(errorMessage)
      ensures updated && reload.LoadFailed? ==>
                todos == old(todos) && inputDisable == old(inputDisable) && errorMessage == LOAD_ERROR
    {
      calls := calls + [UpdateTodo(todo.id, TogglePayload(todo))];
      SettleUpdate(updated, reload);
    }

    /** `sendTodo`: show a placeholder; with a non-empty title send the new todo
        and, if that fails, drop the placeholder, report it and re-enable input
        without reloading; with an empty title send nothing but report it; in
        the other two cases reload. */
    method SendTodo(title: string, added: bool, reload: LoadReply)
      requires Valid()
      modifies this
      ensures Valid()
      ensures filterBy == old(filterBy)
      ensures title == "" ==>
                calls == old(calls) + [GetTodos(USER_ID)]
      ensures title == "" && reload.Loaded? ==>
                todos == reload.todos && tempTodo == None && !inputDisable &&
                errorMessage == EMPTY_TITLE_ERROR
      ensures title == "" && reload.LoadFailed? ==>
                todos == old(todos) && tempTodo == Some(Placeholder(title)) &&
                inputDisable == old(inputDisable) && errorMessage == LOAD_ERROR
      ensures title != "" && !added ==>
                calls == old(calls) + [AddTodo(CreateNewTodo(old(todos), title))] &&
                todos == old(todos) && tempTodo == None && !inputDisable &&
                errorMessage == ADD_ERROR
      ensures title != "" && added ==>
                calls == old(calls) + [AddTodo(CreateNewTodo(old(todos), title)), GetTodos(USER_ID)]
      ensures title != "" && added && reload.Loaded? ==>
                todos == reload.todos && tempTodo == None && !inputDisable &&
                errorMessage == old(errorMessage)
      ensures title != "" && added && reload.LoadFailed? ==>
                todos == old(todos) && tempTodo == Some(Placeholder(title)) &&
                inputDisable == old(inputDisable) && errorMessage == LOAD_ERROR
    {
      tempTodo := Some(Placeholder(title));
      if title != "" {
        calls := calls + [AddTodo(CreateNewTodo(todos, title))];
        if !added {
          tempTodo := None;
          errorMessage := ADD_ERROR;
          inputDisable := false;
          return;
        }
      } else {
        errorMessage := EMPTY_TITLE_ERROR;
      }
      LoadTodosData(reload);
    }

    /** What follows a delete request: on success reload; on failure drop the
        placeholder and set the delete error, keeping the list. */
    method SettleDelete(deleted: bool, reload: LoadReply)
      requires Valid()
      modifies this
      ensures Valid()
      ensures filterBy == old(filterBy)
      ensures !deleted ==>
                calls == old(calls) && todos == old(todos) && tempTodo == None &&
                inputDisable == old(inputDisable) && errorMessage == DELETE_ERROR
      ensures deleted ==> calls == old(calls) + [GetTodos(USER_ID)]
      ensures deleted && reload.Loaded? ==>
                todos == reload.todos && tempTodo == None && !inputDisable &&
                errorMessage == old(errorMessage)
      ensures deleted && reload.LoadFailed? ==>
                todos == old(todos) && tempTodo == old(tempTodo) &&
                inputDisable == old(inputDisable) && errorMessage == LOAD_ERROR
    {
      if deleted {
        LoadTodosData(reload);
      } else {
        tempTodo := None;
        errorMessage := DELETE_ERROR;
      }
    }

    /** `removeTodo`: send the delete, then settle. */
    method RemoveTodo(todoId: int, deleted: bool, reload: LoadReply)
      requires Valid()
      modifies this
      ensures Valid()
      ensures filterBy == old(filterBy)
      ensures !deleted ==>
                calls == old(calls) + [DeleteTodo(todoId)] &&
                todos == old(todos) && tempTodo == None &&
                inputDisable == old(inputDisable) && errorMessage == DELETE_ERROR
      ensures deleted ==> calls == old(calls) + [DeleteTodo(todoId), GetTodos(USER_ID)]
      ensures deleted && reload.Loaded? ==>
                todos == reload.todos && tempTodo == None && !inputDisable &&
                errorMessage == old(errorMessage)
      ensures deleted && reload.LoadFailed? ==>
                todos == old(todos) && tempTodo == old(tempTodo) &&
                inputDisable == old(inputDisable) && errorMessage == LOAD_ERROR
    {
      calls := calls + [DeleteTodo(todoId)];
      SettleDelete(deleted, reload);
    }

    /** `toggleAllComlpleted`: send one toggle per shown todo, in list order,
        without waiting for any of them. */
    method ToggleAllCompleted()
      modifies this`calls
      ensures calls == old(calls) + UpdateCalls(VisibleTodos(todos, filterBy))
    {
      var visible := VisibleTodos(todos, filterBy);
      var i := 0;
      while i < |visible|
        invariant 0 <= i <= |visible|
        invariant calls == old(calls) + UpdateCalls(visible[..i])
      {
        assert UpdateCalls(visible[..i + 1]) == UpdateCalls(visible[..i]) + [UpdateTodo(visible[i].id, TogglePayload(visible[i]))];
        calls := calls + [UpdateTodo(visible[i].id, TogglePayload(visible[i]))];
        i := i + 1;
      }
      assert visible[..i] == visible;
    }

    /** `clearCompleted`: send one delete per completed todo, in list order,
        without waiting for any of them. */
    method ClearCompleted()
      modifies this`calls
      ensures calls == old(calls) + DeleteCalls(CompletedIds(todos))
    {
      var clearCompletedTodos := VisibleTodos(todos, Completed);
      var i := 0;
      while i < |clearCompletedTodos|
        invariant 0 <= i <= |clearCompletedTodos|
        invariant calls == old(calls) + DeleteCalls(Ids(clearCompletedTodos[..i]))
      {
        assert DeleteCalls(Ids(clearCompletedTodos[..i + 1])) ==
               DeleteCalls(Ids(clearCompletedTodos[..i])) + [DeleteTodo(clearCompletedTodos[i].id)];
        calls := calls + [DeleteTodo(clearCompletedTodos[i].id)];
        i := i + 1;
      }
      assert clearCompletedTodos[..i] == clearCompletedTodos;
    }
  }
}
