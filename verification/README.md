# Course service model

A Dafny model of the backend course service of a two-tier NestJS application
(`CoursesService` in `private/src/courses/course.service.ts`). The service
keeps courses in a database table; every course has a unique title, some
descriptive fields and a many-to-many relation to files. Its operations —
`create`, `findAll`, `findOne`, `update`, `remove` and `removeFilesFromCourse` —
either return a value or throw an `RpcException` whose `{ code, message }`
is one of four fixed failures.

The model replaces the TypeORM repository with a map from course id to
course, and each operation with a pure transition from the store before the
call to an outcome and the store after it:

- `options.dfy` — `Option`, for fields an update may leave out and for parsing.
- `id_lists.dfy` — `Without`, the "keep the ids not in that list" filter used for both the
  missing-id report and the removal, with proofs that it is an order-preserving filter and
  that it is the only one.
- `id_text.dfy` — decimal text of ids and `ids.join(', ')`, with a parser that reads the
  joined text back.
- `outcomes.dfy` — the outcome datatype (`Ok`, `AlreadyExists`, `NotFound`,
  `FilesMissing(ids)`, `Internal`), the gRPC status codes, the fixed messages, and the
  mapping from outcome to `RpcException` payload, proved to lose no information.
- `courses.dfy` — the `Course` entity, the store, the request types, the store invariant
  (each course under its own id, titles distinct) and the repository's `merge`.
- `course_service.dfy` — the six operations.
- `service_properties.dfy` — properties that relate calls to each other, to the store
  invariant and to what is sent over the wire.

Modelling choices:

- The database's id generation is a parameter `newId` of `Create`. A `newId` already in use
  would violate the primary key; that is a store error, so `create` reports INTERNAL.
- Errors of the store itself are modelled for `create` only: `Fault` says whether the title
  lookup or the insert fails. `create` is the one operation whose `catch` turns such errors
  into INTERNAL ("Internal server error"), and it rethrows its own ALREADY_EXISTS unchanged.
- The title lookup `findOneBy({ title })` is exact string equality (`HasTitle`).
- A course's files are the ids of the related file rows, in the order the relation loads them.
- `findAll` is a method that picks keys in an unspecified order. The store decides the order
  and the source does not fix it.
- `update` checks only that the id exists. It does not check titles, so it can give two
  courses the same title, and `ServiceProperties.UpdateMayDuplicateTitle` shows this.
  `create` keeps titles distinct (`ServiceProperties.CreatePreservesValid`).

The not-found message is the fixed "Course not found" and never names the id. Each
`throw` writes its status and message inline. File addition has no live implementation.

## Model

| member | source | states |
|---|---|---|
| CourseService.Create | private/src/courses/course.service.ts:23-48 | Succeeds exactly when no store error occurs, no course holds the title and the generated id is unused. A held title gives ALREADY_EXISTS, and every other failure is INTERNAL. Failures leave the store unchanged. On success exactly one course is added, carrying the request's fields, no files and the new id, and every other course is unchanged. |
| ServiceProperties.CreateFailureOnTheWire | private/src/courses/course.service.ts:25-46 | A failed create is sent as ALREADY_EXISTS (code 6, "Course already exists") only when the title is held. Otherwise it is INTERNAL (code 13, "Internal server error") and caused by a store error. No other failure escapes. |
| ServiceProperties.CreatePreservesValid | private/src/courses/course.service.ts:25-38 | If every course is stored under its own id and titles are distinct before a create, both still hold after it. |
| ServiceProperties.CreateSameTitleTwice | private/src/courses/course.service.ts:25-38 | From any store, after a successful create, a second create with the same title is refused with ALREADY_EXISTS and leaves the store unchanged. Exactly one course then holds the title. |
| ServiceProperties.CreateThenFindOne | private/src/courses/course.service.ts:35-38 | The course returned by a successful create is what findOne returns for its id. |
| ServiceProperties.CreateThenRemove | private/src/courses/course.service.ts:86-98 | Removing a course just created returns that course and restores the previous store. |
| CourseService.FindAll | private/src/courses/course.service.ts:50-53 | Returns every stored course, each once (as many as are stored, all of them stored ones, ids distinct when courses sit under their own ids), in an order the store chooses. |
| CourseService.FindOne | private/src/courses/course.service.ts:55-67 | Returns the stored course exactly when the id is present, otherwise NOT_FOUND. |
| ServiceProperties.UnknownCourse | private/src/courses/course.service.ts:55-147 | For an id not in the store, findOne, update, remove and removeFilesFromCourse all give NOT_FOUND (code 5, "Course not found") and leave the store unchanged. |
| CourseService.Update | private/src/courses/course.service.ts:69-84 | NOT_FOUND exactly for an unknown id, with the store unchanged. Otherwise the merged course replaces the stored one under the same id, is returned, and every other course is unchanged. |
| Courses.Merge | private/src/courses/course.service.ts:70-80 | A merge keeps the id and the files. It takes the title and each field from the request when supplied, and keeps the course's own value otherwise. No field appears that neither side had. |
| Courses.MergeNothing | private/src/courses/course.service.ts:70-80 | A merge that supplies no field returns the course unchanged. |
| Courses.MergeIdempotent | private/src/courses/course.service.ts:80 | Merging the same update twice gives the same course as merging it once. |
| ServiceProperties.UpdateNothing | private/src/courses/course.service.ts:69-84 | An update supplying no field returns the stored course and leaves the store identical. |
| ServiceProperties.UpdateTwice | private/src/courses/course.service.ts:69-84 | Repeating an update gives the same outcome and the same store as applying it once. |
| ServiceProperties.UpdateKeepsIds | private/src/courses/course.service.ts:70-81 | Update never changes a course's id: courses stay stored under their own ids. |
| ServiceProperties.UpdateMayDuplicateTitle | private/src/courses/course.service.ts:69-84 | With no title check, a valid store can be driven to one where two courses share a title. |
| CourseService.Remove | private/src/courses/course.service.ts:86-99 | NOT_FOUND exactly for an unknown id, with the store unchanged. Otherwise the course is deleted, every other course is unchanged, and the course as it was before deletion is returned. |
| ServiceProperties.RemovePreservesValid | private/src/courses/course.service.ts:86-98 | Removal keeps every course under its own id and titles distinct. |
| ServiceProperties.RemoveThenFindOne | private/src/courses/course.service.ts:97-98 | After a remove, findOne for that id is NOT_FOUND. |
| CourseService.RemoveFiles | private/src/courses/course.service.ts:133-168 | An unknown course gives NOT_FOUND. If any requested id is not attached, the outcome is FilesMissing with the non-empty list of unattached requested ids, and the store is unchanged. Otherwise only that course's files change, to the old files minus the requested ids, and the updated course and its files are returned. |
| ServiceProperties.RemoveFilesReportsMissing | private/src/courses/course.service.ts:149-159 | The reported ids keep the request's order and hold exactly the unattached requested ids, with their repetitions. The message is "Files with IDs " + ids joined by ", " + " not found in the course", and the ids can be read back from it. |
| ServiceProperties.RemoveFilesAllOrNothing | private/src/courses/course.service.ts:149-162 | Either nothing changes, or every requested id was attached and none is attached afterwards. In that case all other attachments stay, with their repetitions and in their order. |
| ServiceProperties.RemoveFilesRepeat | private/src/courses/course.service.ts:149-167 | After a successful non-empty removal, repeating the same request reports every requested id missing and changes nothing. |
| ServiceProperties.RemoveFilesPreservesValid | private/src/courses/course.service.ts:161-162 | Detaching files keeps every course under its own id and titles distinct. |
| IdLists.Without | private/src/courses/course.service.ts:150-152 | The filter's result contains an id exactly when the input has it and the excluded list does not, and the result is no longer than the input. |
| IdLists.WithoutIsOrderedFilter | private/src/courses/course.service.ts:150-152 | The filter's result is a subsequence of its input. It keeps every occurrence of an id that is not excluded, and no occurrence of an excluded one. |
| IdLists.WithoutUnique | private/src/courses/course.service.ts:161 | Any subsequence with those counts is the filter's result, so the order-preserving filter is fully determined. |
| IdLists.WithoutDisjoint | private/src/courses/course.service.ts:150-152 | When no element is excluded, the filter returns its input unchanged. |
| IdText.JoinIdsRoundTrip | private/src/courses/course.service.ts:157 | Parsing the text of ids.join(', ') gives back the same ids in the same order, including the empty list. |
| IdText.JoinIdsInjective | private/src/courses/course.service.ts:157 | Different id lists never join to the same text. |
| Outcomes.MissingFilesMessageRoundTrip | private/src/courses/course.service.ts:155-158 | The missing-files message names exactly the missing ids, in order. |
| Outcomes.RpcErrorRoundTrip | private/src/courses/course.service.ts:143-158 | Every failure is sent with a status other than OK, and its status and message together give back the failure. In particular "Course not found" and a missing-files report, both NOT_FOUND, are told apart. |
| Outcomes.RpcErrorInjective | private/src/courses/course.service.ts:143-158 | Two different failures are never sent as the same RpcException payload. |

## Left out

- The gateway controller (`gateway/src/course/course.controller.ts`) forwards each HTTP call to the gRPC client stub. It returns the call's observable without awaiting it, so its local `catch` never sees an RPC failure. Integer parsing of `:id` and the mapping of RPC failures to HTTP are done by framework pipes and an interceptor whose source is not part of this model.
- Module wiring and configuration (`private/src/app.module.ts`, `gateway/src/app.module.ts`) are not modelled.
- The add-files operation is commented out in the service and has no live implementation, so no semantics (union or replace) is modelled for it or for the gateway route that calls it.
- Store errors in `findAll`, `findOne`, `update`, `remove` and `removeFilesFromCourse` are not modelled. Those operations have no `catch`, so such errors leave the service as raw errors, and the framework handles them.
- Concurrency is not modelled. Each operation is one atomic transition, so the race between the title check and the insert in `create` cannot be expressed.
- `console.log` calls, async/await and the ORM's relation loading are left out.
- Ids are modelled as unbounded integers. JavaScript numbers that are not integers, or whose magnitude reaches 10^21 (printed in exponent form), are not covered by the id text functions.
- Which update fields count as "supplied" depends on how the gRPC loader decodes absent fields, which is not visible. The model treats a field as supplied exactly when the request carries it.
- The entity's descriptive fields other than the title are not visible. They are modelled as a name-to-value map that `create` copies from the request.
- CourseService.FindAll: states that the result holds every stored course once, not which order, because the order is the database's.
- CourseService.Remove: returns the course with its id, as it sits in the store. The repository's `remove` clears the primary key of the object it deletes, and that same object is returned, so the real response carries no id. The ORM's entity mutation is not modelled. The same holds for the course that `ServiceProperties.CreateThenRemove` returns.
- CourseService.FindOne: returns the stored course with its file ids. `findOneBy({ id })` loads no `files` relation, so the real responses of `findOne`, `update` and `remove` carry no files. Relation loading is not modelled: the store holds a course's files at all times.
