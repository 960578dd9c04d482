/** The JSON shape of a task in API responses, and its conversion from and to a task. */
module TaskApiDto {
  import opened Wrappers
  import opened TaskModel
  import Repo = TaskRepository
  import Service = TaskService
  import opened TaskApiRequests

  /** `TaskApiDTO`: a primitive `long` id and the status as its name. */
  datatype Dto = Dto(id: int, summary: Option<string>, description: Option<string>, status: Option<string>)

  /** `toDTO`: copies the fields and names the status. Unboxing a null id into the `long`
      field throws. */
  function ToDto(e: Task): (r: Result<Dto>)
    ensures r.Ok? <==> e.id.Some?
    ensures r.Thrown? ==> r.exception == NullPointerException
    ensures r.Ok? ==> && Some(r.value.id) == e.id
                      && r.value.summary == e.summary
                      && r.value.description == e.description
                      && r.value.status == Some(Name(e.status))
                      && IsStatusName(r.value.status.value)
  {
    match e.id
    case None => Thrown(NullPointerException)
    case Some(id) => Ok(Dto(id, e.summary, e.description, Some(Name(e.status))))
  }

  /** `toEntity`: copies the fields back and parses the status with `valueOf`. */
  function ToEntity(d: Dto): (r: Result<Task>)
    ensures d.status.None? ==> r == Thrown(NullPointerException)
    ensures d.status.Some? && !IsStatusName(d.status.value) ==> r == Thrown(IllegalArgumentException(d.status.value))
    ensures r.Ok? <==> d.status.Some? && IsStatusName(d.status.value)
    ensures r.Ok? ==> && r.value.id == Some(d.id)
                      && r.value.summary == d.summary
                      && r.value.description == d.description
                      && Some(Name(r.value.status)) == d.status
  {
    match ValueOf(d.status)
    case Thrown(e) => Thrown(e)
    case Ok(st) => Ok(Task(Some(d.id), d.summary, d.description, st))
  }

  /** A task with an id survives the trip to JSON and back unchanged. */
  lemma TaskRoundTrip(e: Task)
    requires e.id.Some?
    ensures ToDto(e).Ok? && ToEntity(ToDto(e).value) == Ok(e)
  {
    ValueOfName(e.status);
  }

  /** A DTO whose status is a status name survives the trip to a task and back unchanged. */
  lemma DtoRoundTrip(d: Dto)
    requires d.status.Some? && IsStatusName(d.status.value)
    ensures ToEntity(d).Ok? && ToDto(ToEntity(d).value) == Ok(d)
  {
  }

  /** Every row of a valid table converts, so mapping a query's result to DTOs never throws. */
  lemma StoredRowsConvert(s: Repo.Store, t: Task)
    requires Repo.Valid(s) && t in s.rows
    ensures ToDto(t).Ok?
  {
  }

  /** A valid update request, converted, applied by the service and mapped back to JSON,
      answers with the path's id and exactly the request's fields, whatever the table holds. */
  lemma UpdateResponseEchoesRequest(s: Repo.Store, req: UpdateRequest, id: int)
    requires ValidateUpdate(req) == {}
    ensures var t := UpdateToEntity(req, id).value;
      && Service.Update(s, t).Ok?
      && ToDto(Service.Update(s, t).value.result) == Ok(Dto(id, req.summary, req.description, req.status))
  {
  }

  /** A valid create request, converted, created by the service on a valid table and mapped
      back to JSON, answers with the fresh id and exactly the request's fields. */
  lemma CreateResponseEchoesRequest(s: Repo.Store, req: CreateRequest)
    requires Repo.Valid(s) && ValidateCreate(req) == {}
    ensures var t := CreateToEntity(req).value;
      && Service.Create(s, t).Ok?
      && ToDto(Service.Create(s, t).value.result) == Ok(Dto(s.nextId, req.summary, req.description, req.status))
  {
    Service.CreateReturnsNewRow(s, CreateToEntity(req).value);
  }
}
