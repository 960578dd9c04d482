/** The service that orchestrates the repository. Each operation runs its statements one
    after another against the table and returns its result together with the table it
    leaves behind; a thrown exception rolls the transaction back, so it leaves the table
    as it was. */
module TaskService {
  import opened Wrappers
  import opened TaskModel
  import Repo = TaskRepository
  import Seqs

  /** A service call's result and the table after the call. */
  datatype Reply<T> = Reply(result: T, store: Repo.Store)

  /** `find`: the repository's `select`, with no logic of its own. */
  function Find(s: Repo.Store, c: SearchCriterion): (r: Reply<seq<Task>>)
    requires Repo.LikeSafe(c)
    ensures r.store == s
    ensures forall t :: t in r.result <==> t in s.rows && Repo.Matches(c, t)
    ensures Seqs.IsSubsequence(r.result, s.rows)
    ensures r.result == Repo.Select(s, c)
  {
    Reply(Repo.Select(s, c), s)
  }

  /** `findById`: the repository's `selectById`; on a valid table it finds exactly the
      row with that id. */
  function FindById(s: Repo.Store, id: int): (r: Reply<Option<Task>>)
    ensures r.store == s
    ensures r.result.Some? ==> r.result.value in s.rows && r.result.value.id == Some(id)
    ensures r.result.None? <==> forall i :: 0 <= i < |s.rows| ==> s.rows[i].id != Some(id)
  {
    Reply(Repo.SelectById(s, id), s)
  }

  /** `create`: insert, ask for `MAX(id)`, read that row back, and fall back to the input
      when the read finds nothing. Unboxing a null `MAX(id)` would throw, but the insert
      has just made the table non-empty. */
  function Create(s: Repo.Store, t: Task): (r: Result<Reply<Task>>)
    ensures r.Ok?
    ensures r.Ok? ==> r.value.store == Repo.Insert(s, t)
  {
    var s1 := Repo.Insert(s, t);
    match Repo.SelectMaxId(s1)
    case None => Thrown(NullPointerException)
    case Some(id) => Ok(Reply(Repo.SelectById(s1, id).GetOr(t), s1))
  }

  /** The read-back in `create` always finds a row, on any table: `MAX(id)` is the id of
      some row, so the fallback to the input is dead code in a sequential run. */
  lemma CreateReadBackFinds(s: Repo.Store, t: Task)
    ensures Repo.SelectMaxId(Repo.Insert(s, t)).Some?
    ensures Repo.SelectById(Repo.Insert(s, t), Repo.SelectMaxId(Repo.Insert(s, t)).value).Some?
  {
    var s1 := Repo.Insert(s, t);
    var m := Repo.SelectMaxId(s1).value;
    var i :| 0 <= i < |s1.rows| && s1.rows[i].id == Some(m);
  }

  /** On a valid table `create` returns the new row: the input's fields under a fresh id
      that is now the largest. The table grows by that one row, stays valid, and looking
      the returned id up gives the returned task. */
  lemma CreateReturnsNewRow(s: Repo.Store, t: Task)
    requires Repo.Valid(s)
    ensures var r := Create(s, t).value;
      && r.result == Task(Some(s.nextId), t.summary, t.description, t.status)
      && (t.id != Some(s.nextId) ==> r.result != t)
      && Repo.SelectMaxId(r.store) == r.result.id
      && |r.store.rows| == |s.rows| + 1
      && (forall i :: 0 <= i < |s.rows| ==> r.store.rows[i] == s.rows[i])
      && Repo.Valid(r.store)
      && FindById(r.store, s.nextId).result == Some(r.result)
  {
    var s1 := Repo.Insert(s, t);
    var row := s1.rows[|s.rows|];
    assert s1.rows[..|s.rows|] == s.rows;
    assert forall i :: 0 <= i < |s.rows| ==> s1.rows[i] == s.rows[i];
    Repo.SelectByIdExact(s1, s.nextId, row);
  }

  /** `update`: issue the update, then read the row back by `t`'s id, falling back to `t`.
      A null id passes the update (it matches no row) and then throws when it is unboxed
      for the read-back. Whatever the table, the task returned is `t` itself: the row read
      back carries `t`'s id and has just received `t`'s fields. */
  function Update(s: Repo.Store, t: Task): (r: Result<Reply<Task>>)
    ensures r.Ok? <==> t.id.Some?
    ensures r.Thrown? ==> r.exception == NullPointerException
    ensures r.Ok? ==> r.value.result == t
    ensures r.Ok? ==> r.value.store == Repo.Update(s, t)
  {
    match t.id
    case None => Thrown(NullPointerException)
    case Some(id) =>
      var s1 := Repo.Update(s, t);
      var back := Repo.SelectById(s1, id);
      assert back.Some? ==> back.value == t by {
        if back.Some? {
          var i :| 0 <= i < |s1.rows| && s1.rows[i] == back.value;
        }
      }
      Ok(Reply(back.GetOr(t), s1))
  }

  /** Updating an existing task: afterwards `findById` gives `t`, the table stays valid,
      and every other id is looked up as before. */
  lemma UpdateExisting(s: Repo.Store, t: Task, other: int)
    requires Repo.Valid(s) && t.id.Some?
    requires exists i :: 0 <= i < |s.rows| && s.rows[i].id == t.id
    ensures var r := Update(s, t).value;
      && r.result == t
      && Repo.Valid(r.store)
      && FindById(r.store, t.id.value).result == Some(t)
      && (Some(other) != t.id ==> FindById(r.store, other).result == FindById(s, other).result)
  {
    Repo.UpdateThenSelectById(s, t, other);
  }

  /** Updating an id no row has changes nothing and hands the input back. */
  lemma UpdateMissing(s: Repo.Store, t: Task)
    requires t.id.Some?
    requires forall i :: 0 <= i < |s.rows| ==> s.rows[i].id != t.id
    ensures Update(s, t) == Ok(Reply(t, s))
  {
    Repo.UpdateMissing(s, t);
  }

  /** `delete`: the repository's `delete`, without an existence check. Afterwards the id is
      not found, and deleting it again leaves the table as it is. */
  function Delete(s: Repo.Store, id: int): (r: Repo.Store)
    ensures r == Repo.Delete(s, id)
    ensures FindById(r, id).result.None?
    ensures Repo.Delete(r, id) == r
    ensures forall t :: t in r.rows <==> t in s.rows && t.id != Some(id)
    ensures Seqs.IsSubsequence(r.rows, s.rows)
    ensures r.nextId == s.nextId
    ensures Repo.Valid(s) ==> Repo.Valid(r)
  {
    Repo.DeleteIdempotent(s, id);
    Repo.Delete(s, id)
  }
}
