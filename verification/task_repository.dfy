/** The `tasks` table and the statements the repository issues against it, each a pure
    function of the table. The table is a sequence of rows in primary-key order together
    with the next value of the identity column. */
module TaskRepository {
  import opened Wrappers
  import opened Strings
  import opened Seqs
  import opened TaskModel

  /** The table's rows in primary-key order, and the value the identity column hands out next. */
  datatype Store = Store(rows: seq<Task>, nextId: int)

  predicate HasIds(rows: seq<Task>) {
    forall i :: 0 <= i < |rows| ==> rows[i].id.Some?
  }

  /** Every row has an id and the ids strictly increase along the sequence, so they are distinct. */
  predicate IdsIncreasing(rows: seq<Task>) {
    && HasIds(rows)
    && forall i, j :: 0 <= i < j < |rows| ==> rows[i].id.value < rows[j].id.value
  }

  /** The table invariant: a primary key listed in increasing order, and an identity
      counter above every id it has handed out. */
  predicate Valid(s: Store) {
    && IdsIncreasing(s.rows)
    && forall i :: 0 <= i < |s.rows| ==> s.rows[i].id.value < s.nextId
  }

  lemma {:induction false} FilterKeepsIncreasing(rows: seq<Task>, p: Task -> bool)
    ensures IdsIncreasing(rows) ==> IdsIncreasing(Filter(rows, p))
  {
    if |rows| > 0 && IdsIncreasing(rows) {
      var rest := Filter(rows[1..], p);
      assert IdsIncreasing(rows[1..]);
      FilterKeepsIncreasing(rows[1..], p);
      if p(rows[0]) {
        TailAboveHead(rows, rest);
        ConsIncreasing(rows[0], rest);
      }
    }
  }

  lemma TailAboveHead(rows: seq<Task>, rest: seq<Task>)
    requires |rows| > 0 && IdsIncreasing(rows) && HasIds(rest)
    requires forall j :: 0 <= j < |rest| ==> rest[j] in rows[1..]
    ensures forall j :: 0 <= j < |rest| ==> rows[0].id.value < rest[j].id.value
  {
    forall j | 0 <= j < |rest|
      ensures rows[0].id.value < rest[j].id.value
    {
      var k :| 0 <= k < |rows[1..]| && rows[1..][k] == rest[j];
      assert rows[k + 1] == rest[j];
    }
  }

  lemma ConsIncreasing(x: Task, rest: seq<Task>)
    requires x.id.Some? && IdsIncreasing(rest)
    requires forall j :: 0 <= j < |rest| ==> x.id.value < rest[j].id.value
    ensures IdsIncreasing([x] + rest)
  {
    var r := [x] + rest;
    forall i, j | 0 <= i < j < |r|
      ensures r[i].id.value < r[j].id.value
    {
      assert r[j] == rest[j - 1];
      if i > 0 {
        assert r[i] == rest[i - 1];
      }
    }
  }

  // ---------------------------------------------------------------------------------
  // select: SELECT ... FROM tasks WHERE [summary LIKE '%term%'] [AND status IN (...)]
  // ---------------------------------------------------------------------------------

  /** Characters SQL `LIKE` interprets: the two wildcards and H2's default escape character. */
  predicate IsLikeMeta(ch: char) {
    ch == '%' || ch == '_' || ch == '\\'
  }

  /** The summary term, if any, is matched literally by `LIKE`. */
  predicate LikeSafe(c: SearchCriterion) {
    c.summary.Some? ==> forall i :: 0 <= i < |c.summary.value| ==> !IsLikeMeta(c.summary.value[i])
  }

  /** The `<if>` guard of the summary condition: non-null and not the empty string. */
  predicate FiltersSummary(c: SearchCriterion) {
    c.summary.Some? && c.summary.value != ""
  }

  /** The `<if>` guard of the status condition: non-null and non-empty. */
  predicate FiltersStatus(c: SearchCriterion) {
    c.status.Some? && |c.status.value| > 0
  }

  /** A null summary column never satisfies `LIKE`. */
  predicate SummaryMatches(c: SearchCriterion, t: Task) {
    FiltersSummary(c) ==> t.summary.Some? && Contains(t.summary.value, c.summary.value)
  }

  predicate StatusMatches(c: SearchCriterion, t: Task) {
    FiltersStatus(c) ==> t.status in c.status.value
  }

  /** The `WHERE` clause: the conditions present are joined with `AND`. */
  predicate Matches(c: SearchCriterion, t: Task) {
    SummaryMatches(c, t) && StatusMatches(c, t)
  }

  function Matching(c: SearchCriterion): Task -> bool {
    (t: Task) => Matches(c, t)
  }

  /** `select`: the rows the criterion admits, in table order. */
  function Select(s: Store, c: SearchCriterion): (r: seq<Task>)
    requires LikeSafe(c)
    ensures forall t :: t in r <==> t in s.rows && Matches(c, t)
    ensures IsSubsequence(r, s.rows)
    ensures Valid(s) ==> IdsIncreasing(r)
  {
    FilterIsSubsequence(s.rows, Matching(c));
    FilterKeepsIncreasing(s.rows, Matching(c));
    Filter(s.rows, Matching(c))
  }

  /** With neither condition present the `WHERE` clause is empty and every row comes back in order. */
  lemma SelectUnfiltered(s: Store, c: SearchCriterion)
    requires !FiltersSummary(c) && !FiltersStatus(c)
    ensures Select(s, c) == s.rows
  {
    FilterAll(s.rows, Matching(c));
  }

  /** A summary term alone admits exactly the rows whose summary has the term as a substring. */
  lemma SelectBySummary(s: Store, c: SearchCriterion)
    requires LikeSafe(c) && FiltersSummary(c) && !FiltersStatus(c)
    ensures forall t :: t in Select(s, c) <==>
      t in s.rows && t.summary.Some? && exists i :: OccursAt(t.summary.value, c.summary.value, i)
  {
    forall t: Task | t.summary.Some? {
      ContainsIffOccurs(t.summary.value, c.summary.value);
    }
  }

  /** A status list alone admits exactly the rows whose status is one of the listed ones:
      several statuses combine with OR. */
  lemma SelectByStatus(s: Store, c: SearchCriterion)
    requires !FiltersSummary(c) && FiltersStatus(c)
    ensures forall t :: t in Select(s, c) <==>
      t in s.rows && exists k :: 0 <= k < |c.status.value| && c.status.value[k] == t.status
  {
  }

  /** The criterion restricted to its summary term. */
  function SummaryPart(c: SearchCriterion): SearchCriterion {
    SearchCriterion(c.summary, None)
  }

  /** The criterion restricted to its status list. */
  function StatusPart(c: SearchCriterion): SearchCriterion {
    SearchCriterion(None, c.status)
  }

  /** Both conditions together select the intersection of what each selects alone, and
      applying them one after the other gives the same rows in the same order. */
  lemma SelectBoth(s: Store, c: SearchCriterion)
    requires LikeSafe(c)
    ensures forall t :: t in Select(s, c) <==> t in Select(s, SummaryPart(c)) && t in Select(s, StatusPart(c))
    ensures Select(s, c) == Select(Store(Select(s, SummaryPart(c)), s.nextId), StatusPart(c))
  {
    FilterTwice(s.rows, Matching(SummaryPart(c)), Matching(StatusPart(c)), Matching(c));
  }

  // ---------------------------------------------------------------------------------
  // selectById: SELECT ... FROM tasks WHERE id = #{taskId}
  // ---------------------------------------------------------------------------------

  function FirstWithId(rows: seq<Task>, id: int): (r: Option<Task>)
    ensures r.Some? ==> r.value in rows && r.value.id == Some(id)
    ensures r.None? <==> forall i :: 0 <= i < |rows| ==> rows[i].id != Some(id)
  {
    if |rows| == 0 then None
    else if rows[0].id == Some(id) then Some(rows[0])
    else
      assert forall i :: 1 <= i < |rows| ==> rows[i] == rows[1..][i - 1];
      FirstWithId(rows[1..], id)
  }

  /** `selectById`: a row carrying `id`, or `None` when there is none. */
  function SelectById(s: Store, id: int): (r: Option<Task>)
    ensures r.Some? ==> r.value in s.rows && r.value.id == Some(id)
    ensures r.None? <==> forall i :: 0 <= i < |s.rows| ==> s.rows[i].id != Some(id)
  {
    FirstWithId(s.rows, id)
  }

  /** On a valid table the row found is THE row with that id: the lookup is exact. */
  lemma SelectByIdExact(s: Store, id: int, t: Task)
    requires Valid(s)
    ensures SelectById(s, id) == Some(t) <==> t in s.rows && t.id == Some(id)
  {
    if t in s.rows && t.id == Some(id) {
      var i :| 0 <= i < |s.rows| && s.rows[i] == t;
      var r := SelectById(s, id);
      var j :| 0 <= j < |s.rows| && s.rows[j] == r.value;
      assert !(i < j) && !(j < i);
    }
  }

  // ---------------------------------------------------------------------------------
  // selectMaxId: SELECT MAX(id) FROM tasks
  // ---------------------------------------------------------------------------------

  function MaxId(rows: seq<Task>): (r: Option<int>)
    ensures r.None? <==> forall i :: 0 <= i < |rows| ==> rows[i].id.None?
    ensures r.Some? ==> exists i :: 0 <= i < |rows| && rows[i].id == Some(r.value)
    ensures r.Some? ==> forall i :: 0 <= i < |rows| && rows[i].id.Some? ==> rows[i].id.value <= r.value
  {
    if |rows| == 0 then None
    else
      assert forall i :: 1 <= i < |rows| ==> rows[i] == rows[1..][i - 1];
      var m := MaxId(rows[1..]);
      match rows[0].id
      case None => m
      case Some(v) => if m.Some? && m.value > v then m else Some(v)
  }

  /** `selectMaxId`: the largest id in the table, `None` (SQL NULL) on an empty one. */
  function SelectMaxId(s: Store): (r: Option<int>)
    ensures r.None? <==> forall i :: 0 <= i < |s.rows| ==> s.rows[i].id.None?
    ensures r.Some? ==> exists i :: 0 <= i < |s.rows| && s.rows[i].id == Some(r.value)
    ensures r.Some? ==> forall i :: 0 <= i < |s.rows| && s.rows[i].id.Some? ==> s.rows[i].id.value <= r.value
  {
    MaxId(s.rows)
  }

  // ---------------------------------------------------------------------------------
  // insert: INSERT INTO tasks (summary, description, status) VALUES (...)
  // ---------------------------------------------------------------------------------

  /** `insert`: appends a row whose id the identity column assigns; the id of `t` is not
      part of the statement. */
  function Insert(s: Store, t: Task): (r: Store)
    ensures |r.rows| == |s.rows| + 1
    ensures r.rows[..|s.rows|] == s.rows
    ensures r.rows[|s.rows|].id == Some(s.nextId)
    ensures r.rows[|s.rows|].summary == t.summary
    ensures r.rows[|s.rows|].description == t.description
    ensures r.rows[|s.rows|].status == t.status
    ensures Valid(s) ==> forall i :: 0 <= i < |s.rows| ==> s.rows[i].id != Some(s.nextId)
    ensures Valid(s) ==> Valid(r)
    ensures Valid(s) ==> SelectMaxId(r) == Some(s.nextId)
  {
    Store(s.rows + [Task(Some(s.nextId), t.summary, t.description, t.status)], s.nextId + 1)
  }

  /** A search after an insert returns what it returned before, followed by the new row
      exactly when the new row matches: the new row is last in table order. */
  lemma SelectAfterInsert(s: Store, t: Task, c: SearchCriterion)
    requires LikeSafe(c)
    ensures var r := Insert(s, t);
      Select(r, c) == Select(s, c) + (if Matches(c, r.rows[|s.rows|]) then [r.rows[|s.rows|]] else [])
  {
    var r := Insert(s, t);
    var row := r.rows[|s.rows|];
    assert r.rows == s.rows + [row];
    FilterAppend(s.rows, [row], Matching(c));
    assert [row][1..] == [];
  }

  // ---------------------------------------------------------------------------------
  // update: UPDATE tasks SET summary, description, status WHERE id = #{task.id}
  // ---------------------------------------------------------------------------------

  /** One row under the `UPDATE`: a null `task.id` compares unknown and matches nothing. */
  function Overwrite(row: Task, t: Task): Task {
    if t.id.Some? && row.id == t.id then Task(row.id, t.summary, t.description, t.status) else row
  }

  /** `update`: every row whose id is `t`'s takes `t`'s fields (and so becomes `t`); all
      other rows are left as they were. */
  function Update(s: Store, t: Task): (r: Store)
    ensures r.nextId == s.nextId
    ensures |r.rows| == |s.rows|
    ensures forall i :: 0 <= i < |s.rows| ==> r.rows[i].id == s.rows[i].id
    ensures forall i :: 0 <= i < |s.rows| && t.id.Some? && s.rows[i].id == t.id ==> r.rows[i] == t
    ensures forall i :: 0 <= i < |s.rows| && s.rows[i].id != t.id ==> r.rows[i] == s.rows[i]
    ensures Valid(s) ==> Valid(r)
  {
    Store(seq(|s.rows|, i requires 0 <= i < |s.rows| => Overwrite(s.rows[i], t)), s.nextId)
  }

  /** Updating an id no row has leaves the table as it was. */
  lemma UpdateMissing(s: Store, t: Task)
    requires t.id.None? || forall i :: 0 <= i < |s.rows| ==> s.rows[i].id != t.id
    ensures Update(s, t) == s
  {
    assert Update(s, t).rows == s.rows;
  }

  /** After updating an existing row, looking its id up gives `t`; every other id still
      gives what it gave before. */
  lemma UpdateThenSelectById(s: Store, t: Task, other: int)
    requires Valid(s) && t.id.Some?
    requires exists i :: 0 <= i < |s.rows| && s.rows[i].id == t.id
    ensures SelectById(Update(s, t), t.id.value) == Some(t)
    ensures Some(other) != t.id ==> SelectById(Update(s, t), other) == SelectById(s, other)
  {
    var u := Update(s, t);
    var i :| 0 <= i < |s.rows| && s.rows[i].id == t.id;
    assert u.rows[i] == t;
    SelectByIdExact(u, t.id.value, t);
    if Some(other) != t.id {
      match SelectById(s, other)
      case None =>
      case Some(row) =>
        var j :| 0 <= j < |s.rows| && s.rows[j] == row;
        assert u.rows[j] == row;
        SelectByIdExact(u, other, row);
    }
  }

  // ---------------------------------------------------------------------------------
  // delete: DELETE FROM tasks WHERE id = #{taskId}
  // ---------------------------------------------------------------------------------

  function Keeps(id: int): Task -> bool {
    (t: Task) => t.id != Some(id)
  }

  /** `delete`: drops the rows carrying `id`; the rest keep their order. */
  function Delete(s: Store, id: int): (r: Store)
    ensures r.nextId == s.nextId
    ensures forall t :: t in r.rows <==> t in s.rows && t.id != Some(id)
    ensures IsSubsequence(r.rows, s.rows)
    ensures Valid(s) ==> Valid(r)
  {
    FilterIsSubsequence(s.rows, Keeps(id));
    FilterKeepsIncreasing(s.rows, Keeps(id));
    Store(Filter(s.rows, Keeps(id)), s.nextId)
  }

  /** On a valid table, deleting an existing id removes exactly that one row. */
  lemma DeleteRemovesRow(s: Store, id: int, i: int)
    requires Valid(s) && 0 <= i < |s.rows| && s.rows[i].id == Some(id)
    ensures Delete(s, id).rows == s.rows[..i] + s.rows[i + 1..]
    ensures |Delete(s, id).rows| == |s.rows| - 1
  {
    FilterDropsOne(s.rows, Keeps(id), i);
  }

  /** Deleting an id no row has leaves the table as it was. */
  lemma DeleteMissing(s: Store, id: int)
    requires forall i :: 0 <= i < |s.rows| ==> s.rows[i].id != Some(id)
    ensures Delete(s, id) == s
  {
    FilterAll(s.rows, Keeps(id));
  }

  /** After a delete the id is gone, and deleting it again changes nothing. */
  lemma DeleteIdempotent(s: Store, id: int)
    ensures SelectById(Delete(s, id), id).None?
    ensures Delete(Delete(s, id), id) == Delete(s, id)
  {
    var d := Delete(s, id);
    assert forall i :: 0 <= i < |d.rows| ==> d.rows[i] in d.rows;
    DeleteMissing(d, id);
  }
}
