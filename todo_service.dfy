/**
  The data-access service (services/todo-service.ts).

  `GetTodos` merges the two query results it is given: the todos the user
  owns and the todos shared with the user's email. The hosted database is a
  `TodoStore`: the `todos` table keyed by id and the `todo_shares` table as a
  sequence of rows. Each store call that can fail takes an
  `Option<StoreFault>`: `Some(f)` means that call reported the error `f`.
  Clock readings are the parameter `now`.
 */
module TodoService {
  import opened TodoTypes
  import opened Sequences

  /** The answer to one select query: its rows, or the store's error. */
  datatype QueryResult = Rows(rows: seq<Todo>) | QueryFailed(fault: StoreFault)

  // ----- Merging the owned and the shared query results -----

  /** The position of the last todo with the given id. */
  function LastIndexWithId(s: seq<Todo>, id: string): (i: nat)
    requires id in Ids(s)
    ensures i < |s| && s[i].id == id
    ensures forall j :: i < j < |s| ==> s[j].id != id
  {
    var n := |s| - 1;
    if s[n].id == id then n
    else
      assert id in Ids(s[..n]) by {
        var t :| t in s && t.id == id;
        var k :| 0 <= k < |s| && s[k] == t;
        assert s[..n][k] == t;
      }
      LastIndexWithId(s[..n], id)
  }

  /** The position of the first todo with the given id. */
  function FirstIndexWithId(s: seq<Todo>, id: string): (i: nat)
    requires id in Ids(s)
    ensures i < |s| && s[i].id == id
    ensures forall j :: 0 <= j < i ==> s[j].id != id
  {
    var n := |s| - 1;
    if id in Ids(s[..n]) then FirstIndexWithId(s[..n], id)
    else
      assert s[n].id == id by {
        var t :| t in s && t.id == id;
        assert s == s[..n] + [s[n]];
        assert t !in s[..n];
      }
      assert forall j :: 0 <= j < n ==> s[j].id != id by {
        forall j | 0 <= j < n ensures s[j].id != id {
          assert s[..n][j] == s[j];
        }
      }
      n
  }

  /** The id-keyed map after `set(todo.id, todo)` for every owned todo in
      order: a later todo with the same id replaces an earlier one. */
  ghost function OwnedById(owned: seq<Todo>): map<string, Todo> {
    if owned == [] then map[]
    else
      var last := owned[|owned| - 1];
      OwnedById(owned[..|owned| - 1])[last.id := last]
  }

  /** The map after adding every shared todo in order whose id is not yet
      present: an id already there keeps its entry. */
  ghost function WithShared(base: map<string, Todo>, shared: seq<Todo>): map<string, Todo> {
    if shared == [] then base
    else
      var m := WithShared(base, shared[..|shared| - 1]);
      var last := shared[|shared| - 1];
      if last.id in m then m else m[last.id := last]
  }

  lemma {:induction false} OwnedByIdMeaning(owned: seq<Todo>)
    ensures OwnedById(owned).Keys == Ids(owned)
    ensures forall id :: id in Ids(owned) ==> OwnedById(owned)[id] == owned[LastIndexWithId(owned, id)]
  {
    if owned != [] {
      var n := |owned| - 1;
      OwnedByIdMeaning(owned[..n]);
      assert owned == owned[..n] + [owned[n]];
      assert Ids(owned) == Ids(owned[..n]) + {owned[n].id};
    }
  }

  lemma {:induction false} WithSharedMeaning(base: map<string, Todo>, shared: seq<Todo>)
    ensures WithShared(base, shared).Keys == base.Keys + Ids(shared)
    ensures forall id :: id in base ==> WithShared(base, shared)[id] == base[id]
    ensures forall id :: id in Ids(shared) && id !in base ==>
              WithShared(base, shared)[id] == shared[FirstIndexWithId(shared, id)]
  {
    if shared != [] {
      var n := |shared| - 1;
      WithSharedMeaning(base, shared[..n]);
      assert shared == shared[..n] + [shared[n]];
      assert Ids(shared) == Ids(shared[..n]) + {shared[n].id};
    }
  }

  /** Every entry of an id-keyed map built by `set(todo.id, todo)` is stored
      under its own id. */
  lemma {:induction false} MergedEntriesKeyedById(owned: seq<Todo>, shared: seq<Todo>)
    ensures forall id :: id in WithShared(OwnedById(owned), shared) ==>
              WithShared(OwnedById(owned), shared)[id].id == id
  {
    OwnedByIdMeaning(owned);
    WithSharedMeaning(OwnedById(owned), shared);
  }

  /** A list whose ids are distinct and each of whose entries is the one
      the id-keyed merge keeps: the owned record for an owned id (the last
      one, as `set` overwrites), otherwise the first shared record with
      that id. Its ids are exactly those of the two inputs. */
  ghost predicate IsMergeById(r: seq<Todo>, owned: seq<Todo>, shared: seq<Todo>) {
    && DistinctIds(r)
    && Ids(r) == Ids(owned) + Ids(shared)
    && (forall t :: t in r && t.id in Ids(owned) ==> t == owned[LastIndexWithId(owned, t.id)])
    && (forall t :: t in r && t.id !in Ids(owned) ==>
          t.id in Ids(shared) && t == shared[FirstIndexWithId(shared, t.id)])
  }

  /** The map's values in the order of its keys (`Array.from(map.values())`)
      form a merge by id. */
  lemma MapValuesAreMerge(owned: seq<Todo>, shared: seq<Todo>, keys: seq<string>, m: map<string, Todo>)
    requires m == WithShared(OwnedById(owned), shared)
    requires forall a, b :: 0 <= a < b < |keys| ==> keys[a] != keys[b]
    requires forall k :: k in keys <==> k in m
    ensures IsMergeById(seq(|keys|, k requires 0 <= k < |keys| => m[keys[k]]), owned, shared)
  {
    var values := seq(|keys|, k requires 0 <= k < |keys| => m[keys[k]]);
    OwnedByIdMeaning(owned);
    WithSharedMeaning(OwnedById(owned), shared);
    MergedEntriesKeyedById(owned, shared);
    assert forall k :: 0 <= k < |keys| ==> values[k].id == keys[k];
    assert DistinctIds(values);
    assert Ids(values) == m.Keys by {
      forall id | id in m ensures id in Ids(values) {
        var k :| 0 <= k < |keys| && keys[k] == id;
        assert values[k] in values;
      }
    }
    forall t | t in values ensures t.id in m && t == m[t.id] {
      var k :| 0 <= k < |values| && values[k] == t;
    }
  }

  /** Reordering a merge by id leaves a merge by id. */
  lemma MergeByIdReordered(r: seq<Todo>, r': seq<Todo>, owned: seq<Todo>, shared: seq<Todo>)
    requires IsMergeById(r, owned, shared)
    requires multiset(r') == multiset(r) && DistinctIds(r')
    ensures IsMergeById(r', owned, shared)
  {
    assert forall t :: t in r' <==> t in r by {
      forall t ensures t in r' <==> t in r {
        assert t in r' <==> t in multiset(r');
        assert t in r <==> t in multiset(r);
      }
    }
    assert Ids(r') == Ids(r);
  }

  // ----- Sorting newest first -----

  /** No entry of `s` is newer than `c`. */
  ghost predicate NoneNewerThan(s: seq<Todo>, c: int) {
    forall x :: x in s ==> x.createdAt <= c
  }

  lemma NewestFirstCons(x: Todo, s: seq<Todo>)
    requires NewestFirst(s) && NoneNewerThan(s, x.createdAt)
    ensures NewestFirst([x] + s)
  {
  }

  /** Inserts `t` before the first entry that is not newer than it. */
  function InsertNewestFirst(t: Todo, s: seq<Todo>): (r: seq<Todo>)
    requires NewestFirst(s)
    ensures NewestFirst(r)
    ensures multiset(r) == multiset(s) + multiset{t}
  {
    if s == [] || s[0].createdAt <= t.createdAt then
      NewestFirstCons(t, s);
      [t] + s
    else
      var rest := InsertNewestFirst(t, s[1..]);
      assert s == [s[0]] + s[1..];
      assert NoneNewerThan(rest, s[0].createdAt) by {
        forall x | x in rest ensures x.createdAt <= s[0].createdAt {
          assert x in multiset(s[1..]) + multiset{t};
          if x != t {
            var k :| 0 <= k < |s[1..]| && s[1..][k] == x;
            assert s[k + 1] == x;
          }
        }
      }
      NewestFirstCons(s[0], rest);
      [s[0]] + rest
  }

  /** The merged list ordered by `created_at`, newest first (the comparator
      `b.created_at - a.created_at`). */
  function SortNewestFirst(s: seq<Todo>): (r: seq<Todo>)
    ensures NewestFirst(r)
    ensures multiset(r) == multiset(s)
  {
    if s == [] then []
    else
      assert s == [s[0]] + s[1..];
      InsertNewestFirst(s[0], SortNewestFirst(s[1..]))
  }

  /** The entries of `s` created at time `c`, in their order in `s`. */
  ghost function CreatedAtTime(s: seq<Todo>, c: int): seq<Todo> {
    if s == [] then []
    else (if s[0].createdAt == c then [s[0]] else []) + CreatedAtTime(s[1..], c)
  }

  /** The entries of time `c` in a list with `x` in front. */
  lemma CreatedAtTimeCons(x: Todo, s: seq<Todo>, c: int)
    ensures CreatedAtTime([x] + s, c) == (if x.createdAt == c then [x] else []) + CreatedAtTime(s, c)
  {
  }

  /** Inserting `t` puts it in front of every entry created at the same
      time, and leaves the other entries of that time in their order. */
  lemma {:induction false} InsertStable(t: Todo, s: seq<Todo>, c: int)
    requires NewestFirst(s)
    ensures CreatedAtTime(InsertNewestFirst(t, s), c) ==
              (if t.createdAt == c then [t] else []) + CreatedAtTime(s, c)
  {
    if s == [] || s[0].createdAt <= t.createdAt {
      CreatedAtTimeCons(t, s, c);
    } else {
      var tail := s[1..];
      InsertStable(t, tail, c);
      CreatedAtTimeCons(s[0], InsertNewestFirst(t, tail), c);
      assert s == [s[0]] + tail;
      CreatedAtTimeCons(s[0], tail, c);
    }
  }

  /** The sort is stable: entries created at the same time keep their input
      order, as `Array.prototype.sort` guarantees for a comparator that
      returns 0 on them. */
  lemma {:induction false} SortStable(s: seq<Todo>, c: int)
    ensures CreatedAtTime(SortNewestFirst(s), c) == CreatedAtTime(s, c)
  {
    if s != [] {
      SortStable(s[1..], c);
      InsertStable(s[0], SortNewestFirst(s[1..]), c);
      assert s == [s[0]] + s[1..];
      CreatedAtTimeCons(s[0], s[1..], c);
    }
  }

  /** Putting `x` in front keeps ids distinct exactly when `x`'s id is
      new. */
  lemma DistinctIdsCons(x: Todo, s: seq<Todo>)
    ensures DistinctIds([x] + s) <==> DistinctIds(s) && x.id !in Ids(s)
  {
    var r := [x] + s;
    if DistinctIds(r) {
      forall i, j | 0 <= i < j < |s| ensures s[i].id != s[j].id {
        assert s[i] == r[i + 1] && s[j] == r[j + 1];
      }
      forall y | y in s ensures y.id != x.id {
        var k :| 0 <= k < |s| && s[k] == y;
        assert r[0] == x && r[k + 1] == y;
      }
    }
    if DistinctIds(s) && x.id !in Ids(s) {
      forall i, j | 0 <= i < j < |r| ensures r[i].id != r[j].id {
        assert r[j] == s[j - 1] && r[j] in s;
        if i > 0 { assert r[i] == s[i - 1]; }
      }
    }
  }

  /** The entries of a list with one more element. */
  lemma MembersAfterInsert(t: Todo, s: seq<Todo>)
    requires NewestFirst(s)
    ensures forall x :: x in InsertNewestFirst(t, s) <==> x == t || x in s
  {
  }

  /** Inserting an entry whose id is new keeps ids distinct. */
  lemma {:induction false} InsertKeepsDistinctIds(t: Todo, s: seq<Todo>)
    requires NewestFirst(s) && DistinctIds(s) && t.id !in Ids(s)
    ensures DistinctIds(InsertNewestFirst(t, s))
  {
    if s == [] || s[0].createdAt <= t.createdAt {
      DistinctIdsCons(t, s);
    } else {
      var tail := s[1..];
      assert s == [s[0]] + tail;
      DistinctIdsCons(s[0], tail);
      assert t.id !in Ids(tail) by {
        assert forall x :: x in tail ==> x in s;
      }
      InsertKeepsDistinctIds(t, tail);
      var rest := InsertNewestFirst(t, tail);
      MembersAfterInsert(t, tail);
      assert s[0] in s;
      assert s[0].id !in Ids(rest);
      DistinctIdsCons(s[0], rest);
    }
  }

  /** Sorting keeps ids distinct. */
  lemma {:induction false} SortKeepsDistinctIds(s: seq<Todo>)
    requires DistinctIds(s)
    ensures DistinctIds(SortNewestFirst(s))
  {
    if s != [] {
      var tail := s[1..];
      assert s == [s[0]] + tail;
      DistinctIdsCons(s[0], tail);
      SortKeepsDistinctIds(tail);
      var sortedTail := SortNewestFirst(tail);
      assert s[0].id !in Ids(sortedTail) by {
        forall x | x in sortedTail ensures x.id != s[0].id {
          assert x in multiset(sortedTail);
          assert x in tail;
        }
      }
      InsertKeepsDistinctIds(s[0], sortedTail);
    }
  }

  /** The id-keyed merge of the owned and the shared todos, built as the
      original builds its Map: owned todos are `set` in order, then each
      shared todo is `set` only when its id is not there yet. The result
      lists the map's values in key-insertion order. */
  method MergeById(owned: seq<Todo>, shared: seq<Todo>) returns (merged: seq<Todo>)
    ensures IsMergeById(merged, owned, shared)
  {
    // A JavaScript Map: its entries, and its keys in insertion order.
    var todoMap: map<string, Todo> := map[];
    var keys: seq<string> := [];
    var i := 0;
    while i < |owned|
      invariant 0 <= i <= |owned|
      invariant todoMap == OwnedById(owned[..i])
      invariant forall a, b :: 0 <= a < b < |keys| ==> keys[a] != keys[b]
      invariant forall k :: k in keys <==> k in todoMap
    {
      var todo := owned[i];
      if todo.id !in todoMap {
        keys := keys + [todo.id];
      }
      todoMap := todoMap[todo.id := todo];
      assert owned[..i + 1][..i] == owned[..i];
      i := i + 1;
    }
    assert owned[..i] == owned;
    var j := 0;
    while j < |shared|
      invariant 0 <= j <= |shared|
      invariant todoMap == WithShared(OwnedById(owned), shared[..j])
      invariant forall a, b :: 0 <= a < b < |keys| ==> keys[a] != keys[b]
      invariant forall k :: k in keys <==> k in todoMap
    {
      var todo := shared[j];
      if todo.id !in todoMap {
        keys := keys + [todo.id];
        todoMap := todoMap[todo.id := todo];
      }
      assert shared[..j + 1][..j] == shared[..j];
      j := j + 1;
    }
    assert shared[..j] == shared;
    MapValuesAreMerge(owned, shared, keys, todoMap);
    merged := seq(|keys|, k requires 0 <= k < |keys| => todoMap[keys[k]]);
  }

  /** The todos the user sees. With no user id the call fails before any
      query. With an email, the owned and the shared todos are merged by id,
      the owned copy winning, and sorted newest first; the owned query's
      error is reported before the shared query's. Without an email the
      single ordered query's rows are returned as the store ordered them. */
  method GetTodos(
    userId: string, userEmail: Option<string>,
    ownedQuery: QueryResult, sharedQuery: QueryResult, orderedQuery: QueryResult)
    returns (r: Result<seq<Todo>>)
    ensures userId == "" ==> r == Failure(NoUserId)
    ensures userId != "" && (userEmail.None? || userEmail.value == "") ==>
              r == match orderedQuery
                   case Rows(rows) => Success(rows)
                   case QueryFailed(f) => Failure(StoreError(f))
    ensures userId != "" && userEmail.Some? && userEmail.value != "" ==>
              match (ownedQuery, sharedQuery)
              case (QueryFailed(f), _) => r == Failure(StoreError(f))
              case (Rows(_), QueryFailed(f)) => r == Failure(StoreError(f))
              case (Rows(owned), Rows(shared)) =>
                r.Success? && NewestFirst(r.value) && IsMergeById(r.value, owned, shared)
  {
    if userId == "" {
      return Failure(NoUserId);
    }
    if userEmail.Some? && userEmail.value != "" {
      if ownedQuery.QueryFailed? {
        return Failure(StoreError(ownedQuery.fault));
      }
      if sharedQuery.QueryFailed? {
        return Failure(StoreError(sharedQuery.fault));
      }
      var merged := MergeById(ownedQuery.rows, sharedQuery.rows);
      var sorted := SortNewestFirst(merged);
      SortKeepsDistinctIds(merged);
      MergeByIdReordered(merged, sorted, ownedQuery.rows, sharedQuery.rows);
      return Success(sorted);
    } else {
      if orderedQuery.QueryFailed? {
        return Failure(StoreError(orderedQuery.fault));
      }
      return Success(orderedQuery.rows);
    }
  }

  // ----- The two tables -----

  /** The share belongs to the pair (todo id, shared-with email). */
  predicate SharedWith(share: TodoShare, todoId: string, email: string) {
    share.todoId == todoId && share.sharedWithEmail == email
  }

  /** The shares rows matching the pair, in table order. */
  function SharesMatching(shares: seq<TodoShare>, todoId: string, email: string): seq<TodoShare> {
    Filter(shares, (s: TodoShare) => SharedWith(s, todoId, email))
  }

  /** The shares rows of one todo, in table order. */
  function SharesOf(shares: seq<TodoShare>, todoId: string): seq<TodoShare> {
    Filter(shares, (s: TodoShare) => s.todoId == todoId)
  }

  /** At most one share row per (todo id, shared-with email) pair. */
  ghost predicate PairsUnique(shares: seq<TodoShare>) {
    forall i, j :: 0 <= i < j < |shares| ==>
      !SharedWith(shares[j], shares[i].todoId, shares[i].sharedWithEmail)
  }

  /** Where pairs are unique, a pair matches at most one row. */
  lemma {:induction false} UniquePairMatchesAtMostOne(shares: seq<TodoShare>, todoId: string, email: string)
    requires PairsUnique(shares)
    ensures |SharesMatching(shares, todoId, email)| <= 1
  {
    if shares != [] {
      var tail := shares[1..];
      assert PairsUnique(tail) by {
        forall i, j | 0 <= i < j < |tail|
          ensures !SharedWith(tail[j], tail[i].todoId, tail[i].sharedWithEmail)
        {
          assert tail[i] == shares[i + 1] && tail[j] == shares[j + 1];
        }
      }
      UniquePairMatchesAtMostOne(tail, todoId, email);
      if SharedWith(shares[0], todoId, email) {
        forall x | x in tail ensures !SharedWith(x, todoId, email) {
          var k :| 0 <= k < |tail| && tail[k] == x;
          assert shares[k + 1] == x;
        }
      }
    }
  }

  /** Updating the permission of the matching rows, row by row. */
  function WithPermission(shares: seq<TodoShare>, todoId: string, email: string, permission: Permission)
    : (r: seq<TodoShare>)
    ensures |r| == |shares|
    ensures forall i :: 0 <= i < |r| ==>
              r[i].(permission := shares[i].permission) == shares[i]
    ensures forall i :: 0 <= i < |r| ==>
              r[i].permission == if SharedWith(shares[i], todoId, email) then permission else shares[i].permission
  {
    seq(|shares|, i requires 0 <= i < |shares| =>
      if SharedWith(shares[i], todoId, email) then shares[i].(permission := permission) else shares[i])
  }

  /** A permission update keeps every pair and so keeps pairs unique; every
      row of the pair then carries the new permission. */
  lemma WithPermissionKeepsPairs(shares: seq<TodoShare>, todoId: string, email: string, permission: Permission)
    ensures PairsUnique(shares) ==> PairsUnique(WithPermission(shares, todoId, email, permission))
    ensures forall s :: s in SharesMatching(WithPermission(shares, todoId, email, permission), todoId, email) ==>
              s.permission == permission
  {
  }

  /** The row that creating a todo stores. */
  function CreatedRow(fields: NewTodo, id: string, now: int): (t: Todo)
    ensures t.id == id && t.createdAt == now && t.todoShares == []
    ensures t.content == fields.content && t.completed == fields.completed && t.userId == fields.userId
    ensures t.description == fields.description && t.dueDate == fields.dueDate
    ensures t.updatedAt == None
  {
    Todo(id, fields.content, fields.completed, fields.userId, fields.description,
      fields.dueDate, now, None, [])
  }

  class TodoStore {
    /** The `todos` table, keyed by id. */
    var todos: map<string, Todo>
    /** The `todo_shares` table, in insertion order. */
    var shares: seq<TodoShare>

    /** Each row is stored under its own id and holds no embedded shares:
        shares live in their own table. */
    ghost predicate Valid()
      reads this
    {
      forall id :: id in todos ==> todos[id].id == id && todos[id].todoShares == []
    }

    /** A service over the tables as the database currently holds them. */
    constructor (todos0: map<string, Todo>, shares0: seq<TodoShare>)
      requires forall id :: id in todos0 ==> todos0[id].id == id && todos0[id].todoShares == []
      ensures Valid() && todos == todos0 && shares == shares0
    {
      todos := todos0;
      shares := shares0;
    }

    /** The todo with its shares attached (the single-row query). The query's
        own error is passed on; when no row has the id the client reports
        `missing`, which is passed on as `NotFound`. */
    function GetTodoById(todoId: string, fault: Option<StoreFault>, missing: StoreFault): (r: Result<Todo>)
      reads this
      requires Valid()
      ensures r.Success? <==> fault.None? && todoId in todos
      ensures fault.Some? ==> r == Failure(StoreError(fault.value))
      ensures fault.None? && todoId !in todos ==> r == Failure(NotFound(missing))
      ensures r.Success? ==> r.value.id == todoId && r.value.(todoShares := []) == todos[todoId]
      ensures r.Success? ==> forall s :: s in r.value.todoShares <==> s in shares && s.todoId == todoId
    {
      if fault.Some? then Failure(StoreError(fault.value))
      else if todoId in todos then Success(todos[todoId].(todoShares := SharesOf(shares, todoId)))
      else Failure(NotFound(missing))
    }

    /** Sets `completed` to the negation of the status the caller reports,
        whatever is stored, and refreshes `updated_at`, in the row with that
        id only. */
    method ToggleTodoStatus(todoId: string, currentStatus: bool, now: int, fault: Option<StoreFault>)
      returns (r: Outcome)
      requires Valid()
      modifies this
      ensures Valid() && shares == old(shares)
      ensures fault.Some? ==> r == Fail(StoreError(fault.value)) && todos == old(todos)
      ensures fault.None? ==> r == Pass && todos.Keys == old(todos).Keys
      ensures fault.None? ==> forall id :: id in todos && id != todoId ==> todos[id] == old(todos)[id]
      ensures fault.None? && todoId in todos ==>
                todos[todoId] == old(todos)[todoId].(completed := !currentStatus, updatedAt := Some(now))
    {
      if fault.Some? {
        return Fail(StoreError(fault.value));
      }
      if todoId in todos {
        todos := todos[todoId := todos[todoId].(completed := !currentStatus, updatedAt := Some(now))];
      }
      return Pass;
    }

    /** Stores the given due date, or none for the empty string, and
        refreshes `updated_at`, in the row with that id only. */
    method UpdateDueDate(todoId: string, dueDate: string, now: int, fault: Option<StoreFault>)
      returns (r: Outcome)
      requires Valid()
      modifies this
      ensures Valid() && shares == old(shares)
      ensures fault.Some? ==> r == Fail(StoreError(fault.value)) && todos == old(todos)
      ensures fault.None? ==> r == Pass && todos.Keys == old(todos).Keys
      ensures fault.None? ==> forall id :: id in todos && id != todoId ==> todos[id] == old(todos)[id]
      ensures fault.None? && todoId in todos ==>
                todos[todoId] == old(todos)[todoId].(
                  dueDate := if dueDate == "" then None else Some(dueDate),
                  updatedAt := Some(now))
    {
      if fault.Some? {
        return Fail(StoreError(fault.value));
      }
      if todoId in todos {
        var stored := if dueDate == "" then None else Some(dueDate);
        todos := todos[todoId := todos[todoId].(dueDate := stored, updatedAt := Some(now))];
      }
      return Pass;
    }

    /** Deletes the todo's shares, then the todo. An error deleting the
        shares is ignored; only an error deleting the todo is reported. */
    method DeleteTodo(todoId: string, sharesFault: Option<StoreFault>, todoFault: Option<StoreFault>)
      returns (r: Outcome)
      requires Valid()
      modifies this
      ensures Valid()
      ensures shares == if sharesFault.None? then Filter(old(shares), (s: TodoShare) => s.todoId != todoId)
                        else old(shares)
      ensures todos == if todoFault.None? then old(todos) - {todoId} else old(todos)
      ensures r == if todoFault.None? then Pass else Fail(StoreError(todoFault.value))
      ensures sharesFault.None? ==> SharesOf(shares, todoId) == []
      ensures todoFault.None? ==> forall missing :: GetTodoById(todoId, None, missing) == Failure(NotFound(missing))
    {
      if sharesFault.None? {
        shares := Filter(shares, (s: TodoShare) => s.todoId != todoId);
        assert forall s :: s in shares ==> s.todoId != todoId;
      }
      if todoFault.Some? {
        return Fail(StoreError(todoFault.value));
      }
      todos := todos - {todoId};
      return Pass;
    }

    /** Shares the todo with `email` at `read_write`, with the session
        user's email as owner email. The duplicate lookup is a single-row
        query: it finds an existing share only when exactly one row matches,
        and its own error is ignored. It comes before the authentication
        check. */
    method ShareTodo(
      todoId: string, email: string, session: Option<SessionUser>, now: int,
      lookupFault: Option<StoreFault>, insertFault: Option<StoreFault>)
      returns (r: Outcome)
      requires Valid()
      modifies this
      ensures Valid() && todos == old(todos)
      ensures var existing := lookupFault.None? && |SharesMatching(old(shares), todoId, email)| == 1;
              if existing then r == Fail(AlreadyShared) && shares == old(shares)
              else if session.None? then r == Fail(NotAuthenticated) && shares == old(shares)
              else if insertFault.Some? then r == Fail(StoreError(insertFault.value)) && shares == old(shares)
              else r == Pass && shares == old(shares) + [TodoShare(todoId, email, ReadWrite, now, session.value.email)]
      ensures lookupFault.None? && PairsUnique(old(shares)) ==>
                PairsUnique(shares) && (r == Fail(AlreadyShared) <==> SharesMatching(old(shares), todoId, email) != [])
    {
      if PairsUnique(shares) {
        UniquePairMatchesAtMostOne(shares, todoId, email);
      }
      var existing := lookupFault.None? && |SharesMatching(shares, todoId, email)| == 1;
      if existing {
        return Fail(AlreadyShared);
      }
      if session.None? {
        return Fail(NotAuthenticated);
      }
      if insertFault.Some? {
        return Fail(StoreError(insertFault.value));
      }
      var share := TodoShare(todoId, email, ReadWrite, now, session.value.email);
      if lookupFault.None? && PairsUnique(shares) {
        assert SharesMatching(shares, todoId, email) == [];
        forall k | 0 <= k < |shares| ensures !SharedWith(share, shares[k].todoId, shares[k].sharedWithEmail) {
          assert shares[k] in shares;
        }
      }
      shares := shares + [share];
      return Pass;
    }

    /** Deletes the share rows of the pair (todo id, email); no other row. */
    method RemoveTodoShare(todoId: string, email: string, fault: Option<StoreFault>)
      returns (r: Outcome)
      requires Valid()
      modifies this
      ensures Valid() && todos == old(todos)
      ensures fault.Some? ==> r == Fail(StoreError(fault.value)) && shares == old(shares)
      ensures fault.None? ==> r == Pass && shares == Filter(old(shares), (s: TodoShare) => !SharedWith(s, todoId, email))
      ensures fault.None? ==> SharesMatching(shares, todoId, email) == []
    {
      if fault.Some? {
        return Fail(StoreError(fault.value));
      }
      shares := Filter(shares, (s: TodoShare) => !SharedWith(s, todoId, email));
      return Pass;
    }

    /** Sets the permission of the share rows of the pair (todo id, email)
        to exactly the given value; no other row changes. */
    method UpdateSharePermission(todoId: string, email: string, permission: Permission, fault: Option<StoreFault>)
      returns (r: Outcome)
      requires Valid()
      modifies this
      ensures Valid() && todos == old(todos)
      ensures fault.Some? ==> r == Fail(StoreError(fault.value)) && shares == old(shares)
      ensures fault.None? ==> r == Pass && shares == WithPermission(old(shares), todoId, email, permission)
    {
      if fault.Some? {
        return Fail(StoreError(fault.value));
      }
      shares := WithPermission(shares, todoId, email, permission);
      return Pass;
    }

    /** Inserts a row with the caller's fields; the store supplies the id,
        which no row has yet, and `created_at`. Returns the stored row. */
    method CreateTodo(fields: NewTodo, newId: string, now: int, fault: Option<StoreFault>)
      returns (r: Result<Todo>)
      requires Valid()
      requires newId !in todos
      modifies this
      ensures Valid() && shares == old(shares)
      ensures fault.Some? ==> r == Failure(StoreError(fault.value)) && todos == old(todos)
      ensures fault.None? ==> r == Success(CreatedRow(fields, newId, now))
      ensures fault.None? ==> todos == old(todos)[newId := CreatedRow(fields, newId, now)]
    {
      if fault.Some? {
        return Failure(StoreError(fault.value));
      }
      var row := CreatedRow(fields, newId, now);
      todos := todos[newId := row];
      return Success(row);
    }
  }

  /** The create, share, re-share, change permission, unshare and delete
      sequence of a single owner, told through the store's contracts. */
  method ShareLifecycle(owner: SessionUser, now: int, missing: StoreFault)
  {
    var store := new TodoStore(map[], []);
    var created := store.CreateTodo(NewTodo("Buy milk", false, owner.id, None, None), "t1", now, None);
    assert created.Success? && created.value.id == "t1" && !created.value.completed;

    var shared := store.ShareTodo("t1", "b@x.com", Some(owner), now, None, None);
    assert shared == Pass;
    var share := TodoShare("t1", "b@x.com", ReadWrite, now, owner.email);
    assert store.shares == [share];

    var again := store.ShareTodo("t1", "b@x.com", Some(owner), now, None, None);
    assert SharesMatching([share], "t1", "b@x.com") == [share];
    assert again == Fail(AlreadyShared);

    var updated := store.UpdateSharePermission("t1", "b@x.com", Read, None);
    assert store.shares == [share.(permission := Read)];
    var fetched := store.GetTodoById("t1", None, missing);
    assert fetched.Success? && share.(permission := Read) in fetched.value.todoShares;

    var removed := store.RemoveTodoShare("t1", "b@x.com", None);
    assert store.shares == [];
    fetched := store.GetTodoById("t1", None, missing);
    assert fetched.Success? && fetched.value.todoShares == [];

    var deleted := store.DeleteTodo("t1", None, None);
    assert store.GetTodoById("t1", None, missing) == Failure(NotFound(missing));
  }
}
