/**
  The client-side cache of the todo list (hooks/useTodos.ts): the list
  (absent until the first fetch succeeds), a loading flag and an error
  message. Every method receives the outcome of the service call it makes
  as a parameter; on success it applies a local update, on failure it
  records an error and leaves the list alone.
 */
module UseTodos {
  import opened TodoTypes
  import opened Sequences

  // ----- The local list updates -----

  /** The list after a toggle: each todo with the id gets the negated
      status, every other entry is kept as it was. */
  function WithStatus(todos: seq<Todo>, todoId: string, currentStatus: bool): (r: seq<Todo>)
    ensures |r| == |todos|
    ensures forall i :: 0 <= i < |r| ==> r[i].id == todos[i].id
    ensures forall i :: 0 <= i < |r| && todos[i].id == todoId ==>
              r[i].completed == !currentStatus && r[i].(completed := todos[i].completed) == todos[i]
    ensures forall i :: 0 <= i < |r| && todos[i].id != todoId ==> r[i] == todos[i]
  {
    seq(|todos|, i requires 0 <= i < |todos| =>
      if todos[i].id == todoId then todos[i].(completed := !currentStatus) else todos[i])
  }

  /** Toggling back with the status just set restores a list in which the
      todo had the status the caller reported. */
  lemma WithStatusUndone(todos: seq<Todo>, todoId: string, currentStatus: bool)
    requires forall t :: t in todos && t.id == todoId ==> t.completed == currentStatus
    ensures WithStatus(WithStatus(todos, todoId, currentStatus), todoId, !currentStatus) == todos
  {
  }

  /** The due date a local update stores: none for the empty string. */
  function LocalDueDate(dueDate: string): (d: Option<string>)
    ensures d.None? <==> dueDate == ""
    ensures d.Some? ==> d.value == dueDate
  {
    if dueDate == "" then None else Some(dueDate)
  }

  /** The list after a due-date update: only the todos with the id change,
      and only in their due date. */
  function WithDueDate(todos: seq<Todo>, todoId: string, dueDate: string): (r: seq<Todo>)
    ensures |r| == |todos|
    ensures forall i :: 0 <= i < |r| && todos[i].id == todoId ==>
              r[i].dueDate == LocalDueDate(dueDate) && r[i].(dueDate := todos[i].dueDate) == todos[i]
    ensures forall i :: 0 <= i < |r| && todos[i].id != todoId ==> r[i] == todos[i]
  {
    seq(|todos|, i requires 0 <= i < |todos| =>
      if todos[i].id == todoId then todos[i].(dueDate := LocalDueDate(dueDate)) else todos[i])
  }

  /** Setting a due date twice is setting it once, with the later value. */
  lemma WithDueDateOverrides(todos: seq<Todo>, todoId: string, first: string, second: string)
    ensures WithDueDate(WithDueDate(todos, todoId, first), todoId, second) == WithDueDate(todos, todoId, second)
  {
  }

  /** The list after a delete: the other todos, in their order, each as
      often as the list held it. */
  function Without(todos: seq<Todo>, todoId: string): (r: seq<Todo>)
    ensures todoId !in Ids(r)
    ensures forall t :: t in r <==> t in todos && t.id != todoId
    ensures forall t :: multiset(r)[t] == if t.id == todoId then 0 else multiset(todos)[t]
    ensures IsSubsequence(r, todos)
  {
    Filter(todos, (t: Todo) => t.id != todoId)
  }

  /** Deleting an id the list does not hold leaves it as it is. */
  lemma WithoutAbsent(todos: seq<Todo>, todoId: string)
    requires todoId !in Ids(todos)
    ensures Without(todos, todoId) == todos
  {
    FilterKeepsAll(todos, (t: Todo) => t.id != todoId);
  }

  /** The list after a create: the new todo, with no shares, in front of
      the previous list, an absent list counting as empty. */
  function Prepended(created: Todo, previous: Option<seq<Todo>>): (r: seq<Todo>)
    ensures |r| >= 1 && r[0] == created.(todoShares := [])
    ensures r[1..] == if previous.Some? then previous.value else []
  {
    [created.(todoShares := [])] + (if previous.Some? then previous.value else [])
  }

  /** `message || fallback`: an empty message gives way to the fallback. */
  function MessageOr(e: ServiceError, fallback: string): (m: string)
    ensures e.Message() != "" ==> m == e.Message()
    ensures e.Message() == "" ==> m == fallback
    ensures fallback != "" ==> m != ""
  {
    if e.Message() == "" then fallback else e.Message()
  }

  /** The error a failed create shows: the message of an `Error`, else a
      fixed text. */
  function CreateErrorMessage(e: ServiceError): (m: string)
    ensures e.IsErrorInstance() ==> m == e.Message()
    ensures !e.IsErrorInstance() ==> m == "Failed to create todo"
  {
    if e.IsErrorInstance() then e.Message() else "Failed to create todo"
  }

  /** `prev ? f(prev) : null`: an update applied to a present list only. */
  function MapPresent(todos: Option<seq<Todo>>, f: seq<Todo> -> seq<Todo>): (r: Option<seq<Todo>>)
    ensures r.None? <==> todos.None?
    ensures r.Some? ==> r.value == f(todos.value)
  {
    if todos.Some? then Some(f(todos.value)) else None
  }

  // ----- The cache -----

  class TodosCache {
    var todos: Option<seq<Todo>>
    var loading: bool
    var error: Option<string>

    /** No list yet, loading, no error. */
    constructor ()
      ensures todos == None && loading && error == None
    {
      todos := None;
      loading := true;
      error := None;
    }

    /** The part of `fetchTodos` before its query is awaited: loading on,
        error cleared, list kept. */
    method BeginFetch()
      modifies this
      ensures loading && error == None && todos == old(todos)
    {
      loading := true;
      error := None;
    }

    /** The part of `fetchTodos` after its query returns: the rows replace
        the list, or the error message is shown over the old list; loading
        ends either way. */
    method CompleteFetch(result: Result<seq<Todo>>)
      modifies this
      ensures !loading
      ensures result.Success? ==> todos == Some(result.value) && error == old(error)
      ensures result.Failure? ==> todos == old(todos) && error == Some(MessageOr(result.error, "An error occurred"))
    {
      if result.Success? {
        todos := Some(result.value);
      } else {
        error := Some(MessageOr(result.error, "An error occurred"));
      }
      loading := false;
    }

    /** `fetchTodos`: the whole request; it never fails itself. */
    method FetchTodos(result: Result<seq<Todo>>)
      modifies this
      ensures !loading
      ensures result.Success? ==> todos == Some(result.value) && error == None
      ensures result.Failure? ==> todos == old(todos) && error == Some(MessageOr(result.error, "An error occurred"))
    {
      BeginFetch();
      CompleteFetch(result);
    }

    /** The effect run on mount and on identity change: it fetches only for
        a non-empty user id. */
    method OnIdentity(userId: string, result: Result<seq<Todo>>)
      modifies this
      ensures userId == "" ==> todos == old(todos) && loading == old(loading) && error == old(error)
      ensures userId != "" && result.Success? ==> todos == Some(result.value) && !loading && error == None
      ensures userId != "" && result.Failure? ==>
                todos == old(todos) && !loading && error == Some(MessageOr(result.error, "An error occurred"))
    {
      if userId != "" {
        FetchTodos(result);
      }
    }

    method ToggleTodoStatus(todoId: string, currentStatus: bool, outcome: Outcome)
      modifies this
      ensures loading == old(loading)
      ensures outcome.Pass? ==>
                todos == MapPresent(old(todos), s => WithStatus(s, todoId, currentStatus)) && error == old(error)
      ensures outcome.Fail? ==> todos == old(todos) && error == Some("Failed to update todo status")
    {
      if outcome.Pass? {
        todos := MapPresent(todos, s => WithStatus(s, todoId, currentStatus));
      } else {
        error := Some("Failed to update todo status");
      }
    }

    /** `confirmed` is the user's answer to the confirmation prompt; `called`
        says whether the service was asked to delete. */
    method DeleteTodo(todoId: string, confirmed: bool, outcome: Outcome) returns (called: bool)
      modifies this
      ensures called == confirmed
      ensures loading == old(loading)
      ensures !confirmed ==> todos == old(todos) && error == old(error)
      ensures confirmed && outcome.Pass? ==>
                todos == MapPresent(old(todos), s => Without(s, todoId)) && error == old(error)
      ensures confirmed && outcome.Fail? ==> todos == old(todos) && error == Some("Failed to delete todo")
    {
      if !confirmed {
        return false;
      }
      if outcome.Pass? {
        todos := MapPresent(todos, s => Without(s, todoId));
      } else {
        error := Some("Failed to delete todo");
      }
      return true;
    }

    method UpdateDueDate(todoId: string, dueDate: string, outcome: Outcome)
      modifies this
      ensures loading == old(loading)
      ensures outcome.Pass? ==>
                todos == MapPresent(old(todos), s => WithDueDate(s, todoId, dueDate)) && error == old(error)
      ensures outcome.Fail? ==> todos == old(todos) && error == Some("Failed to update due date")
    {
      if outcome.Pass? {
        todos := MapPresent(todos, s => WithDueDate(s, todoId, dueDate));
      } else {
        error := Some("Failed to update due date");
      }
    }

    /** Shares, then refetches. It reports `true` whenever the share itself
        succeeded: the refetch records its own error and never fails. */
    method ShareTodo(todoId: string, email: string, outcome: Outcome, refetch: Result<seq<Todo>>)
      returns (ok: bool)
      modifies this
      ensures ok == outcome.Pass?
      ensures outcome.Fail? ==>
                todos == old(todos) && loading == old(loading) && error == Some(MessageOr(outcome.error, "Failed to share todo"))
      ensures outcome.Pass? && refetch.Success? ==> todos == Some(refetch.value) && !loading && error == None
      ensures outcome.Pass? && refetch.Failure? ==>
                todos == old(todos) && !loading && error == Some(MessageOr(refetch.error, "An error occurred"))
    {
      if outcome.Fail? {
        error := Some(MessageOr(outcome.error, "Failed to share todo"));
        return false;
      }
      FetchTodos(refetch);
      return true;
    }

    /** Clears the error, creates, and on success puts the new todo in front
        of the list; on failure records the error and passes it on. */
    method CreateTodo(outcome: Result<Todo>) returns (r: Result<Todo>)
      modifies this
      ensures r == outcome
      ensures loading == old(loading)
      ensures outcome.Success? ==> todos == Some(Prepended(outcome.value, old(todos))) && error == None
      ensures outcome.Failure? ==> todos == old(todos) && error == Some(CreateErrorMessage(outcome.error))
    {
      error := None;
      if outcome.Success? {
        todos := Some(Prepended(outcome.value, todos));
      } else {
        error := Some(CreateErrorMessage(outcome.error));
      }
      return outcome;
    }

    method ClearError()
      modifies this
      ensures error == None && todos == old(todos) && loading == old(loading)
    {
      error := None;
    }
  }
}
