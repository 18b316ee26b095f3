/**
 Properties that relate several calls of the course service, or a call and
 the store invariant, or an outcome and the RpcException it is sent as.
 */
module ServiceProperties {
  import opened Options
  import opened IdLists
  import opened Courses
  import opened Outcomes
  import opened CourseService

  // ---- create ----

  /** `create` keeps every course under its own id and keeps titles distinct. */
  lemma CreatePreservesValid(store: Store, req: CreateRequest, newId: int, fault: Fault)
    requires Valid(store)
    ensures Valid(Create(store, req, newId, fault).store)
  {
  }

  /** Creating two courses with one title: the first is stored, the second is refused
      with ALREADY_EXISTS, and exactly one course holds the title afterwards. */
  lemma CreateSameTitleTwice(store: Store, first: CreateRequest, second: CreateRequest,
                             id1: int, id2: int, fault: Fault)
    requires Create(store, first, id1, NoFault).outcome.Ok?
    requires second.title == first.title && fault != LookupFault
    ensures var s1 := Create(store, first, id1, NoFault);
      && Create(s1.store, second, id2, fault) == Step(AlreadyExists, s1.store)
      && CoursesTitled(s1.store, first.title) == {id1}
  {
    var s1 := Create(store, first, id1, NoFault);
    assert s1.store[id1].title == first.title;
    assert HasTitle(s1.store, second.title);
    forall k | k in CoursesTitled(s1.store, first.title)
      ensures k == id1
    {
    }
  }

  /** A created course can be found under its new id. */
  lemma CreateThenFindOne(store: Store, req: CreateRequest, newId: int)
    requires Create(store, req, newId, NoFault).outcome.Ok?
    ensures var s := Create(store, req, newId, NoFault);
      FindOne(s.store, newId) == Ok(s.outcome.value)
  {
  }

  /** Removing a course just created restores the store and returns that course. */
  lemma CreateThenRemove(store: Store, req: CreateRequest, newId: int)
    requires Create(store, req, newId, NoFault).outcome.Ok?
    ensures var s := Create(store, req, newId, NoFault);
      Remove(s.store, newId) == Step(Ok(s.outcome.value), store)
  {
  }

  /** What `create` sends over the wire when it fails: ALREADY_EXISTS when the title is
      taken, INTERNAL for any error of the store, never anything else. */
  lemma CreateFailureOnTheWire(store: Store, req: CreateRequest, newId: int, fault: Fault)
    requires !Create(store, req, newId, fault).outcome.Ok?
    ensures var e := ToRpcError(Create(store, req, newId, fault).outcome);
      || (e == RpcError(ALREADY_EXISTS, "Course already exists") && Code(e.status) == 6
          && HasTitle(store, req.title))
      || (e == RpcError(INTERNAL, "Internal server error") && Code(e.status) == 13
          && (fault != NoFault || newId in store))
  {
  }

  // ---- findOne / update / remove on an unknown id ----

  /** An unknown course id is NOT_FOUND ("Course not found") for every operation that
      takes one, and the store is left as it was. */
  lemma UnknownCourse(store: Store, id: int, u: UpdateRequest, fileIds: seq<int>)
    requires id !in store && u.id == id
    ensures FindOne(store, id) == NotFound
    ensures Update(store, u) == Step(NotFound, store)
    ensures Remove(store, id) == Step(NotFound, store)
    ensures RemoveFiles(store, FilesRequest(id, fileIds)) == Step(NotFound, store)
    ensures ToRpcError<Course>(NotFound) == RpcError(NOT_FOUND, "Course not found")
    ensures Code(NOT_FOUND) == 5
  {
  }

  // ---- update ----

  /** An update that supplies no field returns the course unchanged and changes nothing. */
  lemma UpdateNothing(store: Store, id: int)
    requires id in store
    ensures Update(store, UpdateRequest(id, None, map[])) == Step(Ok(store[id]), store)
  {
    MergeNothing(store[id], id);
    assert store[id := store[id]] == store;
  }

  /** Repeating an update changes nothing more. */
  lemma UpdateTwice(store: Store, u: UpdateRequest)
    ensures var s := Update(store, u);
      Update(s.store, u) == s
  {
    var s := Update(store, u);
    if u.id in store {
      MergeIdempotent(store[u.id], u);
      assert s.store[u.id := s.outcome.value] == s.store;
    }
  }

  /** `update` never moves a course to another id. */
  lemma UpdateKeepsIds(store: Store, u: UpdateRequest)
    requires IdsMatchKeys(store)
    ensures IdsMatchKeys(Update(store, u).store)
  {
  }

  /** `update` does not check titles: renaming a course to a title another course holds
      succeeds, and two courses then share that title. */
  lemma UpdateMayDuplicateTitle()
    ensures var store := map[1 := Course(1, "A", map[], []), 2 := Course(2, "B", map[], [])];
      var s := Update(store, UpdateRequest(2, Some("A"), map[]));
      && Valid(store)
      && s.outcome.Ok?
      && !TitlesUnique(s.store)
  {
    var store := map[1 := Course(1, "A", map[], []), 2 := Course(2, "B", map[], [])];
    var s := Update(store, UpdateRequest(2, Some("A"), map[]));
    assert s.store[1].title == s.store[2].title;
  }

  // ---- remove ----

  lemma RemovePreservesValid(store: Store, id: int)
    requires Valid(store)
    ensures Valid(Remove(store, id).store)
  {
  }

  /** Once removed, a course is not found. */
  lemma RemoveThenFindOne(store: Store, id: int)
    ensures FindOne(Remove(store, id).store, id) == NotFound
  {
  }

  // ---- removeFilesFromCourse ----

  /** The reported ids are an order-preserving selection from the request: exactly the
      requested ids (with their repetitions) that are not attached, and the message lists them. */
  lemma RemoveFilesReportsMissing(store: Store, r: FilesRequest)
    requires RemoveFiles(store, r).outcome.FilesMissing?
    ensures var missing := RemoveFiles(store, r).outcome.ids;
      var attached := store[r.courseId].files;
      && IsSubsequence(missing, r.fileIds)
      && SameCountsAsFilter(missing, r.fileIds, attached)
      && ToRpcError(RemoveFiles(store, r).outcome)
           == RpcError(NOT_FOUND, "Files with IDs " + IdText.JoinIds(missing) + " not found in the course")
      && MissingIdsOf(ToRpcError(RemoveFiles(store, r).outcome).message) == Some(missing)
  {
    WithoutIsOrderedFilter(r.fileIds, store[r.courseId].files);
    MissingFilesMessageRoundTrip(RemoveFiles(store, r).outcome.ids);
  }

  /** All or nothing: either the store is untouched, or every requested file was attached,
      none of them is attached now, and every other attachment stays, in its order. */
  lemma RemoveFilesAllOrNothing(store: Store, r: FilesRequest)
    ensures var s := RemoveFiles(store, r);
      || (!s.outcome.Ok? && s.store == store)
      || (&& s.outcome.Ok?
          && var before := store[r.courseId].files;
             var after := s.store[r.courseId].files;
             && (forall x :: x in r.fileIds ==> x in before)
             && (forall x :: x in r.fileIds ==> x !in after)
             && IsSubsequence(after, before)
             && SameCountsAsFilter(after, before, r.fileIds))
  {
    var s := RemoveFiles(store, r);
    if s.outcome.Ok? {
      var before := store[r.courseId].files;
      WithoutIsOrderedFilter(before, r.fileIds);
    }
  }

  /** Repeating a successful non-empty removal fails: all of its ids are now missing. */
  lemma RemoveFilesRepeat(store: Store, r: FilesRequest)
    requires RemoveFiles(store, r).outcome.Ok?
    requires |r.fileIds| > 0
    ensures var s := RemoveFiles(store, r);
      RemoveFiles(s.store, r) == Step(FilesMissing(r.fileIds), s.store)
  {
    var s := RemoveFiles(store, r);
    var after := s.store[r.courseId].files;
    forall x | x in r.fileIds
      ensures x !in after
    {
    }
    WithoutDisjoint(r.fileIds, after);
  }

  lemma RemoveFilesPreservesValid(store: Store, r: FilesRequest)
    requires Valid(store)
    ensures Valid(RemoveFiles(store, r).store)
  {
  }
}
