/** The domain values the service layer passes around: the task entity, its status
    enumeration and the search criterion. */
module TaskModel {
  import opened Wrappers

  /** The closed set of task states. No transition graph is enforced: an update may
      set any state. */
  datatype Status = TODO | DOING | DONE

  /** `Enum.name()`: the constant's own identifier. */
  function Name(st: Status): (r: string)
    ensures IsStatusName(r)
  {
    match st
    case TODO => "TODO"
    case DOING => "DOING"
    case DONE => "DONE"
  }

  /** The names that denote a status, which is also the language of the request
      validators' regular expression `TODO|DOING|DONE`. */
  predicate IsStatusName(s: string) {
    s == "TODO" || s == "DOING" || s == "DONE"
  }

  /** `TaskStatus.valueOf`: a null name throws `NullPointerException`, a name that is not
      a constant throws `IllegalArgumentException`. */
  function ValueOf(name: Option<string>): (r: Result<Status>)
    ensures r.Ok? <==> name.Some? && IsStatusName(name.value)
    ensures r.Ok? ==> name == Some(Name(r.value))
    ensures name.None? ==> r == Thrown(NullPointerException)
    ensures name.Some? && !IsStatusName(name.value) ==> r == Thrown(IllegalArgumentException(name.value))
  {
    match name
    case None => Thrown(NullPointerException)
    case Some(s) =>
      if s == "TODO" then Ok(TODO)
      else if s == "DOING" then Ok(DOING)
      else if s == "DONE" then Ok(DONE)
      else Thrown(IllegalArgumentException(s))
  }

  /** Parsing a status's own name gives the status back, so `Name` is injective. */
  lemma ValueOfName(st: Status)
    ensures ValueOf(Some(Name(st))) == Ok(st)
  {
  }

  /** A task as the service sees it. `id` is `None` on a task not yet stored; a null
      summary or description is `None`. */
  datatype Task = Task(id: Option<int>, summary: Option<string>, description: Option<string>, status: Status)

  /** A search request. A `None` or empty summary, and a `None` or empty status list,
      mean "no restriction". */
  datatype SearchCriterion = SearchCriterion(summary: Option<string>, status: Option<seq<Status>>)
}
