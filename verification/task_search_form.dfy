/** The query parameters of the task list, and their conversion to a search criterion. */
module TaskSearchForm {
  import opened Wrappers
  import opened TaskModel

  /** `summary` and the repeated `status` parameters; either may be absent (null). */
  datatype SearchForm = SearchForm(summary: Option<string>, status: Option<seq<string>>)

  /** Index `k` holds the first name in `names` that is not a status name. */
  predicate FirstInvalid(names: seq<string>, k: int) {
    && 0 <= k < |names|
    && !IsStatusName(names[k])
    && forall j :: 0 <= j < k ==> IsStatusName(names[j])
  }

  /** `names.stream().map(TaskStatus::valueOf).toList()`: converts the names in order and
      throws on the first one that is not a status. */
  function ValueOfAll(names: seq<string>): (r: Result<seq<Status>>)
    ensures r.Ok? <==> forall i :: 0 <= i < |names| ==> IsStatusName(names[i])
    ensures r.Ok? ==> |r.value| == |names|
    ensures r.Ok? ==> forall i :: 0 <= i < |names| ==> Name(r.value[i]) == names[i]
    ensures r.Thrown? ==> exists k :: FirstInvalid(names, k) && r.exception == IllegalArgumentException(names[k])
  {
    if |names| == 0 then Ok([])
    else
      assert forall i :: 1 <= i < |names| ==> names[i] == names[1..][i - 1];
      match ValueOf(Some(names[0]))
      case Thrown(e) =>
        assert FirstInvalid(names, 0);
        Thrown(e)
      case Ok(st) =>
        match ValueOfAll(names[1..])
        case Thrown(e) =>
          var k :| FirstInvalid(names[1..], k) && e == IllegalArgumentException(names[1..][k]);
          assert FirstInvalid(names, k + 1);
          Thrown(e)
        case Ok(rest) => Ok([st] + rest)
  }

  /** `toEntity`: the summary passes through untouched (null included); a missing status
      list becomes the empty list, and a present one is converted name by name. */
  function ToEntity(f: SearchForm): (r: Result<SearchCriterion>)
    ensures r.Ok? <==> f.status.None? || forall i :: 0 <= i < |f.status.value| ==> IsStatusName(f.status.value[i])
    ensures r.Ok? ==> r.value.summary == f.summary && r.value.status.Some?
    ensures f.status.None? ==> r == Ok(SearchCriterion(f.summary, Some([])))
    ensures r.Ok? && f.status.Some? ==>
      && |r.value.status.value| == |f.status.value|
      && forall i :: 0 <= i < |f.status.value| ==> Name(r.value.status.value[i]) == f.status.value[i]
    ensures r.Thrown? ==>
      && f.status.Some?
      && exists k :: FirstInvalid(f.status.value, k) && r.exception == IllegalArgumentException(f.status.value[k])
  {
    match f.status
    case None => Ok(SearchCriterion(f.summary, Some([])))
    case Some(names) =>
      match ValueOfAll(names)
      case Thrown(e) => Thrown(e)
      case Ok(sts) => Ok(SearchCriterion(f.summary, Some(sts)))
  }

  /** `isChecked`: whether the status list is present and holds `status`. The list holds no
      null entries, so a null argument is never checked. */
  function IsChecked(f: SearchForm, status: Option<string>): (r: bool)
    ensures r <==> && f.status.Some? && status.Some?
                   && exists i :: 0 <= i < |f.status.value| && f.status.value[i] == status.value
  {
    match f.status
    case None => false
    case Some(names) => status.Some? && status.value in names
  }

  lemma NameInjective(a: Status, b: Status)
    ensures Name(a) == Name(b) ==> a == b
  {
    ValueOfName(a);
    ValueOfName(b);
  }

  /** The boxes a form shows checked are exactly the statuses its criterion filters on. */
  lemma CheckedIffFiltered(f: SearchForm, st: Status)
    requires ToEntity(f).Ok?
    ensures IsChecked(f, Some(Name(st))) <==> st in ToEntity(f).value.status.value
  {
    if f.status.Some? {
      var sts := ToEntity(f).value.status.value;
      forall i | 0 <= i < |sts|
        ensures sts[i] == st <==> f.status.value[i] == Name(st)
      {
        NameInjective(sts[i], st);
      }
    }
  }
}
