# Todo list with a remote API — Dafny model

This project models the state logic of a client-side todo-list component
(`src/App.tsx`). The component keeps a list of todos fetched from a remote
API. It shows the list through a filter (All / Active / Completed) and lets the
user create, toggle, delete and bulk-clear todos. After every successful
change it reloads the whole list.

Two modules:

- `TodoViews` (`todo_views.dfy`) holds the values the component derives from
  its list on every render, as functions with lemmas about them. These are the
  filtered list `visibleTodos`, the flag `hasCompleteTodos`, the "items left"
  count `mustBeCompleted`, the record `createNewTodo` builds, the toggle record
  `onCompletedChange` sends, and the ids `clearCompleted` deletes.
- `TodoApp` (`todo_app.dfy`) holds the component state as a class `App`. Its
  fields are `todos`, `filterBy`, `inputDisable`, `tempTodo` and
  `errorMessage`, plus `calls`, the log of requests sent to the remote API.
  Each handler is a method whose postcondition gives the exact new state for
  every outcome of its remote calls. `Valid()` is the invariant every handler
  keeps: the in-flight todo, when there is one, is a placeholder with id 0,
  owned by user 6476 and not done. The constructor gives the state of the
  first render; the mount effect (src/App.tsx:67-69) then runs
  `loadTodosData` once, so a mounted component is the constructor followed
  by `LoadTodosData`.

The remote API is not modelled. Each call appends a request to `calls`, and
its outcome is a parameter of the handler: a `bool` for create, update and
delete, and a `LoadReply` (the list, or a failure) for a reload. An awaited
call is modelled as sending the request and then running the continuation with
the outcome (`SettleUpdate`, `SettleDelete`). The bulk handlers
`toggleAllComlpleted` and `clearCompleted` do not await their requests. So
`ToggleAllCompleted` and `ClearCompleted` only send them, and each reply then
settles separately through `SettleUpdate` or `SettleDelete`.

Details of the code that the model keeps as written:

- The empty-title message is `"Empty title alowed"`, spelt as in the code.
- With an empty title the code sends no create request, but it still reloads
  the list. If that reload fails, the message becomes `"Can't load data..."`
  and the placeholder stays.
- A failed create does not reload.
- A failed load leaves `todos` as it was. It does not empty the list.
- A successful update also clears the placeholder before it reloads.

## Model

| member | source | states |
|---|---|---|
| `TodoViews.VisibleTodos` | src/App.tsx:33-47 | the filtered list is no longer than the list and every todo in it passes the filter |
| `TodoViews.VisibleTodosSelectsInOrder` | src/App.tsx:33-47 | the filtered list is exactly the todos at the passing positions, taken in increasing position order; a position is selected iff its todo passes the filter |
| `TodoViews.VisibleTodosIsSubsequence` | src/App.tsx:33-47 | the filtered list is a subsequence of the todos, so it keeps their order |
| `TodoViews.VisibleTodosMembers` | src/App.tsx:34-45 | a todo is in the filtered list iff it is in the list and passes the filter (Active: not done, Completed: done, All: always) |
| `TodoViews.VisibleTodosAll` | src/App.tsx:42-43 | under All the filtered list equals the whole list |
| `TodoViews.ActiveCompletedPartition` | src/App.tsx:36-40 | the Active and Completed views together hold each todo exactly as often as the list does, and their lengths add up to the list's length |
| `TodoViews.HasCompleteTodos` | src/App.tsx:49-51 | true iff some todo in the list is done |
| `TodoViews.HasCompleteTodosIffSomeDone` | src/App.tsx:49-53 | some todo is done iff fewer items are left than there are todos |
| `TodoViews.MustBeCompleted` | src/App.tsx:53 | the number of items left never exceeds the number of todos |
| `TodoViews.MustBeCompletedCountsActive` | src/App.tsx:53 | the number of items left equals the number of positions holding a todo that is not done |
| `TodoViews.NewId` | src/App.tsx:72 | for a non-empty list, the new id is one more than some todo's id and greater than every id; for an empty list there is no integer id (`Math.max()` is `-Infinity`) |
| `TodoViews.CreateNewTodo` | src/App.tsx:71-82 | the new todo belongs to user 6476, carries the given title, is not done, and on a non-empty list has an id greater than every existing id |
| `TodoViews.NewIdKeepsIdsUnique` | src/App.tsx:71-82 | adding a todo under the id `createNewTodo` picks keeps the list's ids unique |
| `TodoViews.TogglePayload` | src/App.tsx:86-91 | the update record keeps id, owner and title and negates `completed` |
| `TodoViews.TogglePayloadInvolutive` | src/App.tsx:86-91 | applying the toggle twice gives back the original record |
| `TodoViews.TogglePayloadSwapsViews` | src/App.tsx:36-40 | toggling moves a todo between the Active and Completed views |
| `TodoViews.ClearCompletedSelection` | src/App.tsx:149-153 | clear-completed deletes one id per completed todo, in list order; every completed todo's id is deleted; with unique ids no active todo's id is deleted; deletes plus items left equal the list length |
| `TodoApp.App.constructor` | src/App.tsx:26-31 | initial state: no todos, filter All, input enabled, no placeholder, no error, no request sent; the mount effect then runs `LoadTodosData` |
| `TodoApp.App.SetFilterBy` | src/App.tsx:27 | changing the filter touches nothing but the filter |
| `TodoApp.App.LoadTodosData` | src/App.tsx:55-65 | sends one list request for user 6476; on success the list is replaced, the placeholder cleared and input re-enabled, and the error is kept; on failure the error becomes "Can't load data..." and nothing else changes |
| `TodoApp.App.SettleUpdate` | src/App.tsx:93-97 | a failed update changes only the error, which becomes "Unable to update a todo"; a successful one clears the placeholder and reloads |
| `TodoApp.App.OnCompletedChange` | src/App.tsx:84-98 | sends the toggled record for the todo's id, then settles as `SettleUpdate` says |
| `TodoApp.App.SendTodo` | src/App.tsx:100-122 | an empty title sends no create request, sets "Empty title alowed" and reloads; a failed create clears the placeholder, sets "Unable to add a todo", re-enables input, leaves the list and does not reload; a successful create sends `createNewTodo`'s record and reloads; a failed reload leaves the placeholder shown |
| `TodoApp.App.SettleDelete` | src/App.tsx:136-140 | a failed delete clears the placeholder, sets "Unable to delete a todo" and leaves the list unchanged; a successful one reloads |
| `TodoApp.App.RemoveTodo` | src/App.tsx:133-141 | sends the delete for the id, then settles as `SettleDelete` says |
| `TodoApp.App.ToggleAllCompleted` | src/App.tsx:143-147 | sends one toggle request per shown todo, in list order, and changes nothing else |
| `TodoApp.App.ClearCompleted` | src/App.tsx:149-153 | sends one delete per completed todo, for exactly the ids `ClearCompletedSelection` describes, in list order, and changes nothing else |

## Left out

- The remote API (`getTodos`, `addTodo`, `onDelete`, `onUpdate` in `src/api/todos`) is not part of this model. Each call is a request in the log, and its outcome is a handler parameter.
- Interleaving of asynchronous replies is left out. A handler that awaits is modelled as if its reply arrived before any other event. The replies to the bulk handlers' requests settle one by one, in whatever order the caller applies `SettleUpdate` / `SettleDelete`. Which reply wins the shared error slot is not stated.
- JavaScript numbers are modelled as unbounded integers. The one non-integer value that matters, `Math.max()` of no ids (`-Infinity`), is `None`.
- `TodoList` receives `setErrorMessage` and `loadTodosData` (src/App.tsx:180-181) and may write any message into the error slot or start a reload. `TodoList` is not part of this model; since `Valid()` places no constraint on the error slot, a reload it starts is the same `LoadTodosData`.
- `handleFormSubmit` is left out as event plumbing. It disables input, starts `sendTodo` and clears the draft title. The draft title is therefore a parameter of `SendTodo`.
- The `USER_ID` gate that renders `UserWarning` is left out, because `USER_ID` is a non-zero constant.
- The rendering is left out, along with the `Header`, `TodoList`, `Notification` and `Footer` components. `Footer` reads a prop named `noCompleteTodos`, while the component passes `hasCompleteTodos`, so that prop is always undefined and the "Clear completed" button always gets the class `todoapp__clear-completed_none` (src/components/Footer/Footer.tsx:65-68). That is a rendering defect and is not modelled.
