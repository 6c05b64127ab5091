/**
  The records the todo application passes around (types/todo.ts), the errors
  its data-access service raises, and a few predicates over lists of todos
  that the other modules share.

  Timestamps are integer milliseconds since the epoch; the textual ISO dates
  of the original, and their parsing, are not modelled.
 */
module TodoTypes {

  datatype Option<T> = None | Some(value: T)

  /** The two access levels a share can grant. */
  datatype Permission = Read | ReadWrite

  /** A row of the `todo_shares` table. */
  datatype TodoShare = TodoShare(
    todoId: string,
    sharedWithEmail: string,
    permission: Permission,
    createdAt: int,
    ownerEmail: string)

  /** A row of the `todos` table, with the shares the query attached to it. */
  datatype Todo = Todo(
    id: string,
    content: string,
    completed: bool,
    userId: string,
    description: Option<string>,
    dueDate: Option<string>,
    createdAt: int,
    updatedAt: Option<int>,
    todoShares: seq<TodoShare>)

  /** The fields a caller supplies when creating a todo: everything but the
      ones the store assigns (`id`, `created_at`, `updated_at`) and the shares. */
  datatype NewTodo = NewTodo(
    content: string,
    completed: bool,
    userId: string,
    description: Option<string>,
    dueDate: Option<string>)

  /** The authenticated user of the current session. */
  datatype SessionUser = SessionUser(id: string, email: string)

  /** An error reported by the hosted store for one query. `isErrorInstance`
      records whether the thrown value is a JavaScript `Error`, which decides
      the message the client cache shows after a failed create. */
  datatype StoreFault = StoreFault(message: string, isErrorInstance: bool)

  /** What a call of the data-access service can fail with. */
  datatype ServiceError =
    | NoUserId
    | AlreadyShared
    | NotAuthenticated
    | NotFound(fault: StoreFault)
    | StoreError(fault: StoreFault)
  {
    /** The `message` property of the thrown value. */
    function Message(): string {
      match this
      case NoUserId => "No userId provided"
      case AlreadyShared => "Todo is already shared with this user"
      case NotAuthenticated => "User not authenticated"
      case NotFound(f) => f.message
      case StoreError(f) => f.message
    }

    /** Whether the thrown value is an instance of `Error`. */
    predicate IsErrorInstance() {
      match this
      case StoreError(f) => f.isErrorInstance
      case _ => true
    }
  }

  /** The outcome of a service call that returns a value. */
  datatype Result<T> = Success(value: T) | Failure(error: ServiceError)

  /** The outcome of a service call that returns nothing. */
  datatype Outcome = Pass | Fail(error: ServiceError)

  /** The ids present in a list of todos. */
  function Ids(todos: seq<Todo>): set<string> {
    set t | t in todos :: t.id
  }

  /** No two entries of the list share an id. */
  predicate DistinctIds(todos: seq<Todo>) {
    forall i, j :: 0 <= i < j < |todos| ==> todos[i].id != todos[j].id
  }

  /** The list is ordered by creation time, newest first. */
  predicate NewestFirst(todos: seq<Todo>) {
    forall i, j :: 0 <= i < j < |todos| ==> todos[i].createdAt >= todos[j].createdAt
  }
}
