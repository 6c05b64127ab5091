/**
  The list view (components/todo-list.tsx): it splits the todos into an
  incomplete column and a completed column, or shows "No todos found." when
  there are none. Rendering itself is not modelled.
 */
module TodoList {
  import opened TodoTypes
  import opened Sequences

  /** What the list view shows. */
  datatype TodoListView =
    | NoTodosFound
    | Columns(incomplete: seq<Todo>, completed: seq<Todo>)

  function CompletedTodos(todos: seq<Todo>): (r: seq<Todo>)
    ensures forall t :: t in r <==> t in todos && t.completed
    ensures IsSubsequence(r, todos)
  {
    Filter(todos, (t: Todo) => t.completed)
  }

  function IncompleteTodos(todos: seq<Todo>): (r: seq<Todo>)
    ensures forall t :: t in r <==> t in todos && !t.completed
    ensures IsSubsequence(r, todos)
  {
    Filter(todos, (t: Todo) => !t.completed)
  }

  /** Every todo lands in exactly one column: the columns share no element,
      together hold each todo as often as the input does, and their lengths
      add up to the input's. */
  lemma ColumnsPartition(todos: seq<Todo>)
    ensures multiset(CompletedTodos(todos)) + multiset(IncompleteTodos(todos)) == multiset(todos)
    ensures |CompletedTodos(todos)| + |IncompleteTodos(todos)| == |todos|
    ensures forall t :: !(t in CompletedTodos(todos) && t in IncompleteTodos(todos))
  {
    FilterSplits(todos, (t: Todo) => t.completed, (t: Todo) => !t.completed);
  }

  /** An input where nothing is completed leaves the completed column empty
      and the incomplete column equal to the input. */
  lemma AllIncompleteColumns(todos: seq<Todo>)
    requires forall t :: t in todos ==> !t.completed
    ensures IncompleteTodos(todos) == todos && CompletedTodos(todos) == []
  {
    FilterKeepsAll(todos, (t: Todo) => !t.completed);
  }

  function Render(todos: seq<Todo>): (v: TodoListView)
    ensures v.NoTodosFound? <==> |todos| == 0
    ensures v.Columns? ==> v.incomplete == IncompleteTodos(todos) && v.completed == CompletedTodos(todos)
    ensures v.Columns? ==> |v.incomplete| + |v.completed| == |todos|
  {
    ColumnsPartition(todos);
    var completedTodos := CompletedTodos(todos);
    var incompleteTodos := IncompleteTodos(todos);
    if |todos| == 0 then NoTodosFound else Columns(incompleteTodos, completedTodos)
  }
}
