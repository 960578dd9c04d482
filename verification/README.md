# Task query and mutation layer, modelled in Dafny

This project models the core of a small task-tracking application: the `tasks` table and
the six statements its repository issues (`select`, `selectById`, `insert`, `selectMaxId`,
`update`, `delete`), the service that orchestrates them (`find`, `findById`, the
insert-then-reread `create`, the update-then-reread `update`, `delete`), and the value
objects at the API boundary: the search form, the create and update requests with their
validation constraints, and the response DTO.

The table is an immutable `Store`: its rows in primary-key order plus the next value of the
identity column. Every statement and every service call is a pure function of the store;
service calls return a `Reply` holding their result and the store they leave behind.
Java's `null` is `Option.None`. A thrown exception is `Result.Thrown`: `valueOf` on a null
or unknown name, and unboxing a null `Long`. The table invariant `Valid` says every row has
an id, ids strictly increase along the table, and the identity counter is above all of
them. Each mutation preserves it.

Modules, one per source component:

- `Wrappers`: `Option`, `Result`, the two exceptions.
- `Strings`: substring search (`Contains`, the meaning of `LIKE '%term%'` and of `String.contains`) and `String.trim`/blankness.
- `Seqs`: order-preserving `Filter` and its algebra.
- `TaskModel`: `Status` with `Name`/`ValueOf`, `Task`, `SearchCriterion`.
- `TaskRepository`: the store and the six statements.
- `TaskService`: the service.
- `TaskSearchForm`, `TaskApiRequests`, `TaskApiDto`: the boundary value objects.
- `TaskScenarios`: the repository tests' fixture rows, replayed.

Modelling choices, where the source leaves a gap:

- The declarations of `TaskEntity`, `TaskSearchEntity` and `TaskStatus` are inferred from
  how the code uses them:
  - `Task(id: Option<int>, summary, description: Option<string>, status)`;
  - `SearchCriterion(summary: Option<string>, status: Option<seq<Status>>)`;
  - `Status = TODO | DOING | DONE`.
- `insert` takes its id from an identity counter (`nextId`), not from `MAX(id) + 1`. H2's
  identity column never reuses an id, even after the largest row is deleted.
- `@NotBlank` is modelled as the validator implements it: the value is non-null and
  something is left after `String.trim`. `trim` drops characters at or below U+0020, so
  "contains a non-whitespace character" means "contains a character above U+0020".
- Validation returns a set of violations: the validator checks every constraint and
  reports them in no fixed order. A null status fails only `@NotBlank`, because `@Pattern`
  and `@Size` accept null. An empty status fails both `@NotBlank` and `@Pattern`.
- A Dafny `string` is a sequence of Unicode scalar values, while Java's `String.length`
  counts UTF-16 code units. `@Size` is therefore checked against `Strings.Utf16Length`,
  which counts two units for every character above U+FFFF.
- A null summary column never satisfies `LIKE`.
- The rows come back in table order. The `SELECT` has no `ORDER BY`; the model takes the
  primary-key scan order of the tests.

## Model

| member | source | states |
|---|---|---|
| TaskModel.ValueOf | src/main/java/com/example/todo/controller/api/task/TaskSearchForm.java:39 | `TaskStatus.valueOf` succeeds exactly on the three constant names, and the status it returns has the given name. A null name throws `NullPointerException`; any other name throws `IllegalArgumentException` carrying it |
| TaskModel.Name | src/main/java/com/example/todo/controller/api/task/TaskApiDTO.java:44 | `name()` of every status is one of "TODO", "DOING", "DONE" |
| TaskModel.ValueOfName | src/main/java/com/example/todo/controller/api/task/TaskApiDTO.java:44 | parsing a status's name gives the same status back |
| Strings.ContainsIffOccurs | src/main/java/com/example/todo/repository/task/TaskRepository.java:24 | the substring scan used for `LIKE '%term%'` is true exactly when the term occurs at some position of the summary |
| Strings.BlankIffAllTrimmed | src/main/java/com/example/todo/controller/api/task/TaskApiCreateRequest.java:28 | a string is blank (empty after `trim`) exactly when every character is at or below U+0020 |
| Strings.Utf16LengthBmp | src/main/java/com/example/todo/controller/api/task/TaskApiCreateRequest.java:30 | the `String.length` that `@Size` bounds equals the character count exactly when no character lies above U+FFFF |
| Strings.Utf16LengthAllSupplementary | src/main/java/com/example/todo/controller/api/task/TaskApiCreateRequest.java:30 | the `String.length` is twice the character count exactly when every character lies above U+FFFF, since each is a surrogate pair |
| TaskRepository.Select | src/main/java/com/example/todo/repository/task/TaskRepository.java:18-35 | `select` returns exactly the rows the `WHERE` clause admits. They are a subsequence of the table, so store order is kept, and on a valid table their ids increase. The summary term must not contain `%`, `_` or `\` |
| TaskRepository.SelectUnfiltered | src/main/java/com/example/todo/repository/task/TaskRepository.java:22-32 | with a null or empty summary and a null or empty status list, `select` returns the whole table in order |
| TaskRepository.SelectBySummary | src/main/java/com/example/todo/repository/task/TaskRepository.java:23-25 | a summary term alone admits exactly the rows with a non-null summary in which the term occurs as a substring |
| TaskRepository.SelectByStatus | src/main/java/com/example/todo/repository/task/TaskRepository.java:26-31 | a status list alone admits exactly the rows whose status equals some entry of the list, so several statuses combine with OR |
| TaskRepository.SelectBoth | src/main/java/com/example/todo/repository/task/TaskRepository.java:22-32 | both conditions together admit the intersection of what each admits alone. Filtering by the summary and then by the status gives the same sequence |
| TaskRepository.SelectById | src/main/java/com/example/todo/repository/task/TaskRepository.java:38-39 | `selectById` returns a row of the table carrying the id, and returns nothing exactly when no row carries it |
| TaskRepository.SelectByIdExact | src/main/java/com/example/todo/repository/task/TaskRepository.java:38-39 | on a valid table, `selectById(id)` returns `t` exactly when `t` is the table's row with that id |
| TaskRepository.SelectMaxId | src/main/java/com/example/todo/repository/task/TaskRepository.java:54-55 | `MAX(id)` is NULL exactly when no row has an id; otherwise it is the id of some row and at least every id |
| TaskRepository.Insert | src/main/java/com/example/todo/repository/task/TaskRepository.java:47-48 | `insert` adds exactly one row after the untouched old rows. The row has the input's summary, description and status. Its id is the counter's value, whatever id the input carries. On a valid table that id is fresh, the table stays valid, and `MAX(id)` becomes that id |
| TaskRepository.SelectAfterInsert | src/main/java/com/example/todo/repository/task/TaskRepository.java:47-48 | after an `insert`, any search returns what it returned before. The new row follows, last in table order, exactly when it matches the criterion |
| TaskRepository.Update | src/main/java/com/example/todo/repository/task/TaskRepository.java:57-58 | `update` keeps every row's id and the table's length. A row whose id equals the task's non-null id becomes the task itself; every other row is unchanged. Validity is preserved |
| TaskRepository.UpdateMissing | src/main/java/com/example/todo/repository/task/TaskRepository.java:57-58 | an update whose id is null or matches no row leaves the table unchanged |
| TaskRepository.UpdateThenSelectById | src/main/java/com/example/todo/repository/task/TaskRepository.java:57-58 | after updating an existing row of a valid table, looking its id up gives the task, and every other id gives what it gave before |
| TaskRepository.Delete | src/main/java/com/example/todo/repository/task/TaskRepository.java:60-61 | `delete` keeps exactly the rows whose id differs, in their order, and preserves validity |
| TaskRepository.DeleteRemovesRow | src/main/java/com/example/todo/repository/task/TaskRepository.java:60-61 | on a valid table, deleting an existing id removes exactly that one row and leaves the rest in order |
| TaskRepository.DeleteMissing | src/main/java/com/example/todo/repository/task/TaskRepository.java:60-61 | deleting an id no row has leaves the table unchanged |
| TaskRepository.DeleteIdempotent | src/main/java/com/example/todo/repository/task/TaskRepository.java:60-61 | after `delete(id)` no row has the id, and a second `delete(id)` changes nothing |
| TaskService.Find | src/main/java/com/example/todo/service/task/TaskService.java:20-22 | `find` returns what `select` returns, unchanged: exactly the rows the criterion admits, as a subsequence of the table in table order. The table is left unchanged |
| TaskService.FindById | src/main/java/com/example/todo/service/task/TaskService.java:25-27 | `findById` returns a row with the id, or nothing exactly when there is none, and leaves the table unchanged |
| TaskService.Create | src/main/java/com/example/todo/service/task/TaskService.java:29-37 | `create` never throws, and its only effect on the table is the one insert |
| TaskService.CreateReadBackFinds | src/main/java/com/example/todo/service/task/TaskService.java:34-36 | on every table, after the insert `MAX(id)` is non-null and the read-back by it finds a row. So the fallback to the input is unreachable in a sequential run |
| TaskService.CreateReturnsNewRow | src/main/java/com/example/todo/service/task/TaskService.java:30-37 | on a valid table, `create` returns the input's summary, description and status under a fresh id, and that id is the new `MAX(id)`. The table gains exactly that row, keeps the old rows and stays valid. `findById` of the returned id gives the returned task |
| TaskService.Update | src/main/java/com/example/todo/service/task/TaskService.java:39-44 | `update` throws `NullPointerException` exactly when the id is null. Otherwise it returns the input task itself, whether the read-back found the row or fell back, and performs the one repository update |
| TaskService.UpdateExisting | src/main/java/com/example/todo/service/task/TaskService.java:40-44 | updating an existing id of a valid table returns the task, keeps the table valid, and makes `findById` of that id return the task. Lookups of other ids are unchanged |
| TaskService.UpdateMissing | src/main/java/com/example/todo/service/task/TaskService.java:41-43 | updating a non-null id that no row has returns the input and leaves the table unchanged |
| TaskService.Delete | src/main/java/com/example/todo/service/task/TaskService.java:46-49 | `delete(id)` is exactly the repository's `delete`: the rows are the old ones without that id, in their order, the identity counter is kept and a valid table stays valid. `findById(id)` finds nothing, and deleting again changes nothing |
| TaskSearchForm.ValueOfAll | src/main/java/com/example/todo/controller/api/task/TaskSearchForm.java:38-39 | converting the status names succeeds exactly when every name is a status name. The result then has the same length and order, each status named by the string at its position. Otherwise the exception names the first invalid string |
| TaskSearchForm.ToEntity | src/main/java/com/example/todo/controller/api/task/TaskSearchForm.java:36-43 | `toEntity` passes the summary through (null included) and never yields a null status list. A null list becomes the empty list. Otherwise the criterion lists the statuses named by the form, in order, or the call throws on the first invalid name |
| TaskSearchForm.IsChecked | src/main/java/com/example/todo/controller/api/task/TaskSearchForm.java:54-58 | `isChecked(s)` is true exactly when the status list is non-null, `s` is non-null, and some entry equals `s`. It is false for a null list, and for a null `s`, because the list holds no null entries |
| TaskSearchForm.CheckedIffFiltered | src/main/java/com/example/todo/controller/api/task/TaskSearchForm.java:36-58 | the status boxes a form shows as checked are exactly the statuses of the criterion it converts to |
| TaskApiRequests.NotBlankIffVisible | src/main/java/com/example/todo/controller/api/task/TaskApiCreateRequest.java:28 | `@NotBlank` accepts exactly the non-null values holding a character above U+0020 |
| TaskApiRequests.Violations | src/main/java/com/example/todo/controller/api/task/TaskApiCreateRequest.java:26-41 | each of the four constraints fails exactly on its own inputs. There are no violations exactly when the summary is non-null, has a visible character and at most 256 UTF-16 code units (`String.length`), and the status is TODO, DOING or DONE. The description is not an input, so it cannot affect validity |
| TaskApiRequests.ValidateCreate | src/main/java/com/example/todo/controller/api/task/TaskApiCreateRequest.java:26-41 | a create request is valid exactly when the summary is non-null, non-blank and at most 256 UTF-16 code units long, and the status is one of the three names, whatever the description |
| TaskApiRequests.ValidateUpdate | src/main/java/com/example/todo/controller/api/task/TaskApiUpdateRequest.java:28-43 | an update request is valid under exactly the same condition |
| TaskApiRequests.SameRules | src/main/java/com/example/todo/controller/api/task/TaskApiUpdateRequest.java:28-43 | a create and an update request with the same summary and status fail the same constraints, whatever their descriptions |
| TaskApiRequests.SummaryFailures | src/main/java/com/example/todo/controller/api/task/TaskApiCreateRequest.java:28-31 | an empty summary fails `@NotBlank` but not `@Size`, and an over-long visible summary fails `@Size` but not `@NotBlank`. The two are distinct violations with distinct codes and messages, both on field `summary` |
| TaskApiRequests.SupplementarySummaryTooLong | src/main/java/com/example/todo/controller/api/task/TaskApiCreateRequest.java:30 | a summary of 200 emoji is 400 UTF-16 units long. With status `TODO` it fails exactly `@Size`, although it has only 200 characters |
| TaskApiRequests.CreateWithEmptySummary | src/test/java/com/example/todo/controller/api/task/TaskApiControllerTest.java:213-234 | the create body `{"summary":"","description":"詳細","status":"TODO"}` fails exactly the summary's `@NotBlank`, on field `summary` |
| TaskApiRequests.UpdateWithInvalidStatus | src/test/java/com/example/todo/controller/api/task/TaskApiControllerTest.java:285-302 | the update body with status `INVALID` fails exactly the status's `@Pattern`, on field `status` |
| TaskApiRequests.CreateToEntity | src/main/java/com/example/todo/controller/api/task/TaskApiCreateRequest.java:49-51 | `toEntity` succeeds exactly when the status is a status name, which every valid request has. The task then has no id, the request's summary and description, and the status of that name. Otherwise `valueOf` throws: `NullPointerException` on a null status, `IllegalArgumentException` carrying the name on any other string |
| TaskApiRequests.UpdateToEntity | src/main/java/com/example/todo/controller/api/task/TaskApiUpdateRequest.java:52-54 | `toEntity(id)` succeeds under the same condition. The task then carries the given id, the request's summary and description, and the status of that name. Otherwise `valueOf` throws: `NullPointerException` on a null status, `IllegalArgumentException` carrying the name on any other string |
| TaskApiDto.ToDto | src/main/java/com/example/todo/controller/api/task/TaskApiDTO.java:39-46 | `toDTO` throws `NullPointerException` exactly when the id is null. Otherwise it copies id, summary and description, and the status string is the name of the task's own status |
| TaskApiDto.ToEntity | src/main/java/com/example/todo/controller/api/task/TaskApiDTO.java:53-55 | `toEntity` succeeds exactly when the status string is a status name. It copies the fields back, and the task's status has that name. Otherwise `valueOf` throws: `NullPointerException` on a null status, `IllegalArgumentException` carrying the name on any other string |
| TaskApiDto.TaskRoundTrip | src/main/java/com/example/todo/controller/api/task/TaskApiDTO.java:39-55 | for a task with an id, converting it to a DTO and back gives the task again |
| TaskApiDto.DtoRoundTrip | src/main/java/com/example/todo/controller/api/task/TaskApiDTO.java:39-55 | for a DTO whose status is a status name, converting it to a task and back gives the DTO again |
| TaskApiDto.StoredRowsConvert | src/main/java/com/example/todo/controller/api/task/TaskApiDTO.java:39-46 | every row of a valid table converts to a DTO without throwing |
| TaskApiDto.UpdateResponseEchoesRequest | src/main/java/com/example/todo/controller/api/task/TaskApiUpdateRequest.java:52-54 | a valid update request, converted with the path id, applied by `update` and converted with `toDTO`, answers with that id and exactly the request's summary, description and status, on any table |
| TaskApiDto.CreateResponseEchoesRequest | src/main/java/com/example/todo/controller/api/task/TaskApiCreateRequest.java:49-51 | on a valid table, a valid create request, converted, created by `create` and converted with `toDTO`, answers with the fresh id and exactly the request's summary, description and status |
| TaskScenarios.SeedAll | src/test/java/com/example/todo/repository/task/TaskRepositoryTest.java:67-95 | the two fixture rows form a valid table, and searching with no summary and an empty status list returns both in order |
| TaskScenarios.SeedBySummary | src/test/java/com/example/todo/repository/task/TaskRepositoryTest.java:113-132 | searching the fixture for "Spring Boot" returns only the "Spring Boot を学ぶ" row |
| TaskScenarios.SeedByTodo | src/test/java/com/example/todo/repository/task/TaskRepositoryTest.java:150-170 | searching the fixture for TODO returns only the "Spring Security を学ぶ" row |
| TaskScenarios.SeedBySummaryAndDone | src/test/java/com/example/todo/repository/task/TaskRepositoryTest.java:188-209 | searching the fixture for "Spring" and DONE returns only the "Spring Boot を学ぶ" row |
| TaskScenarios.SeedByTodoOrDone | src/test/java/com/example/todo/repository/task/TaskRepositoryTest.java:475-501 | searching the fixture for TODO or DONE returns both rows |
| TaskScenarios.SeedLookup | src/test/java/com/example/todo/repository/task/TaskRepositoryTest.java:226-276 | in the fixture, id 1 finds its row and id 999 finds nothing |
| TaskScenarios.SeedDelete | src/test/java/com/example/todo/repository/task/TaskRepositoryTest.java:423-455 | deleting id 1 from the fixture: id 1 was found before and is not found after, and an unfiltered search returns only the row with id 2 |

## Left out

- SQL `LIKE` metacharacters: a summary term containing `%`, `_` or `\` (H2's default escape character) is excluded by `TaskRepository.LikeSafe`, because its meaning as a pattern is not modelled. Case sensitivity follows H2's default collation: exact characters.
- The database engine, MyBatis mapping, Spring wiring and `@Transactional` are left out. A thrown exception is taken to roll its transaction back, so a `Thrown` result leaves the store as it was.
- Concurrency is left out. The model runs one call at a time. Under concurrent creates, `MAX(id)` can name another transaction's row, and `create` would then return the wrong task. `TaskService.CreateReadBackFinds` holds on every table, but `TaskService.CreateReturnsNewRow` needs the single-writer invariant `Valid`.
- Integer width is not modelled. Ids are unbounded integers; the source's 64-bit `long` and identity overflow are not.
- Null entries inside the search form's status list are not modelled: the list holds non-null strings.
- `TaskApiController`, `TaskController`, `IndexController`, both exception handlers and all JavaScript are HTTP, view or front-end plumbing. They are not part of this model. The violation labels (`TaskApiRequests.Field`, `Code`, `Message`) stand in for the error body those handlers build.
- The database schema is not modelled beyond the columns the SQL names. The declarations of `TaskEntity`, `TaskSearchEntity` and `TaskStatus` are inferred from how the code uses them.
- A null `TaskEntity.status` is not modelled: `Task.status` is always one of the three statuses, since every status comes from `valueOf`. So `TaskApiDto.ToDto` cannot show the `NullPointerException` that `toDTO` throws on a null status.
