/**
 The course domain service: each operation is a transition from the store
 before the call to an outcome and the store after it.
 */
module CourseService {
  import opened IdLists
  import opened Courses
  import opened Outcomes

  /** What an operation returns, and the store it leaves behind. */
  datatype Step<+T> = Step(outcome: Outcome<T>, store: Store)

  /** Where, if anywhere, the store itself fails during `create`. */
  datatype Fault = NoFault | LookupFault | SaveFault

  /** How the body of a `try` block ends: with an outcome (an RpcException among them),
      or with an error of the store's own that is not an RpcException. */
  datatype Attempt<+T> = Completed(step: Step<T>) | StoreError

  /** The `catch` of `create`: an RpcException is rethrown as it is, anything else
      becomes INTERNAL. A store error happens before anything is written. */
  function CatchAsInternal<T>(store: Store, a: Attempt<T>): Step<T>
  {
    match a
    case Completed(s) => s
    case StoreError => Step(Internal, store)
  }

  /** The `try` block of `create`. `newId` is the id the database generates on insert;
      an id already in use violates the primary key, which is a store error. */
  function CreateAttempt(store: Store, req: CreateRequest, newId: int, fault: Fault): Attempt<Course>
  {
    if fault == LookupFault then StoreError
    else if HasTitle(store, req.title) then Completed(Step(AlreadyExists, store))
    else if fault == SaveFault || newId in store then StoreError
    else
      var c := Course(newId, req.title, req.attributes, []);
      Completed(Step(Ok(c), store[newId := c]))
  }

  /** `create`: refuse a title already held, otherwise insert a course with the request's fields. */
  function Create(store: Store, req: CreateRequest, newId: int, fault: Fault): (s: Step<Course>)
    ensures s.outcome.Ok? || s.outcome.AlreadyExists? || s.outcome.Internal?
    ensures !s.outcome.Ok? ==> s.store == store
    ensures s.outcome.AlreadyExists? <==> fault != LookupFault && HasTitle(store, req.title)
    ensures s.outcome.Ok? <==> fault == NoFault && !HasTitle(store, req.title) && newId !in store
    ensures s.outcome.Ok? ==>
      var c := s.outcome.value;
      && c.id == newId && c.title == req.title && c.attributes == req.attributes && c.files == []
      && s.store.Keys == store.Keys + {c.id}
      && s.store[c.id] == c
      && forall k :: k in store ==> s.store[k] == store[k]
  {
    CatchAsInternal(store, CreateAttempt(store, req, newId, fault))
  }

  /** `findOne`: the stored course with this id. */
  function FindOne(store: Store, id: int): (o: Outcome<Course>)
    ensures o.Ok? || o.NotFound?
    ensures o.Ok? <==> id in store
    ensures o.Ok? ==> o.value == store[id]
  {
    if id in store then Ok(store[id]) else NotFound
  }

  /** `findAll`: every stored course once, in an order the store chooses. */
  method FindAll(store: Store) returns (courses: seq<Course>)
    ensures |courses| == |store|
    ensures forall i :: 0 <= i < |courses| ==> courses[i] in store.Values
    ensures forall k :: k in store ==> store[k] in courses
    ensures IdsMatchKeys(store) ==>
      forall i, j :: 0 <= i < j < |courses| ==> courses[i].id != courses[j].id
  {
    var pending := store.Keys;
    courses := [];
    ghost var keys: seq<int> := [];
    while pending != {}
      invariant |keys| == |courses|
      invariant forall i :: 0 <= i < |keys| ==> keys[i] in store && courses[i] == store[keys[i]]
      invariant forall i, j :: 0 <= i < j < |keys| ==> keys[i] != keys[j]
      invariant forall k :: k in store ==> (k in pending <==> k !in keys)
      invariant pending <= store.Keys
      invariant |courses| + |pending| == |store|
      decreases |pending|
    {
      EmptyOrInhabited(pending);
      var k :| k in pending;
      pending := pending - {k};
      courses := courses + [store[k]];
      keys := keys + [k];
    }
    forall k | k in store
      ensures store[k] in courses
    {
      var i :| 0 <= i < |keys| && keys[i] == k;
      assert courses[i] == store[k];
    }
  }

  lemma EmptyOrInhabited(s: set<int>)
    ensures s == {} || exists x :: x in s
  {
    if forall x :: x !in s {
      assert s == {};
    }
  }

  /** `update`: merge the supplied fields into the stored course. No title check is made. */
  function Update(store: Store, u: UpdateRequest): (s: Step<Course>)
    ensures s.outcome.Ok? || s.outcome.NotFound?
    ensures s.outcome.NotFound? <==> u.id !in store
    ensures s.outcome.NotFound? ==> s.store == store
    ensures s.outcome.Ok? ==>
      && s.outcome.value == Merge(store[u.id], u)
      && s.store.Keys == store.Keys
      && s.store[u.id] == s.outcome.value
      && forall k :: k in store && k != u.id ==> s.store[k] == store[k]
  {
    if u.id !in store then Step(NotFound, store)
    else
      var c := Merge(store[u.id], u);
      Step(Ok(c), store[u.id := c])
  }

  /** `remove`: delete the course and hand back what it was. */
  function Remove(store: Store, id: int): (s: Step<Course>)
    ensures s.outcome.Ok? || s.outcome.NotFound?
    ensures s.outcome.NotFound? <==> id !in store
    ensures s.outcome.NotFound? ==> s.store == store
    ensures s.outcome.Ok? ==>
      && s.outcome.value == store[id]
      && s.store.Keys == store.Keys - {id}
      && forall k :: k in s.store ==> s.store[k] == store[k]
  {
    if id !in store then Step(NotFound, store)
    else Step(Ok(store[id]), store - {id})
  }

  /** `removeFilesFromCourse`: detach the requested files, but only if every one of them
      is attached; otherwise report the ones that are not, in request order. */
  function RemoveFiles(store: Store, r: FilesRequest): (s: Step<FilesResponse>)
    ensures s.outcome.Ok? || s.outcome.NotFound? || s.outcome.FilesMissing?
    ensures s.outcome.NotFound? <==> r.courseId !in store
    ensures !s.outcome.Ok? ==> s.store == store
    ensures r.courseId in store ==>
      (s.outcome.FilesMissing? <==> exists x :: x in r.fileIds && x !in store[r.courseId].files)
    ensures s.outcome.FilesMissing? ==>
      && r.courseId in store
      && |s.outcome.ids| > 0
      && s.outcome.ids == Without(r.fileIds, store[r.courseId].files)
    ensures s.outcome.Ok? ==>
      var before := store[r.courseId];
      var after := s.outcome.value.course;
      && after == before.(files := Without(before.files, r.fileIds))
      && s.outcome.value.files == after.files
      && s.store == store[r.courseId := after]
  {
    if r.courseId !in store then Step(NotFound, store)
    else
      var course := store[r.courseId];
      var missing := Without(r.fileIds, course.files);
      if |missing| > 0 then
        // a witness for `exists x :: x in r.fileIds && x !in course.files`
        var first := missing[0];
        assert first in missing;
        Step(FilesMissing(missing), store)
      else
        var updated := course.(files := Without(course.files, r.fileIds));
        Step(Ok(FilesResponse(updated, updated.files)), store[r.courseId := updated])
  }
}
