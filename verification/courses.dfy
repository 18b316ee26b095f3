/**
 The course entity, the store that persists courses, and the requests the
 service receives.
 */
module Courses {
  import opened Options

  /** A persisted course: a generated id, a title, its other descriptive fields
      (by name), and the ids of the files attached through its many-to-many relation. */
  datatype Course = Course(id: int, title: string, attributes: map<string, string>, files: seq<int>)

  /** The course table, keyed by course id. */
  type Store = map<int, Course>

  datatype CreateRequest = CreateRequest(title: string, attributes: map<string, string>)

  /** A partial update: `title` and each entry of `attributes` are the fields supplied. */
  datatype UpdateRequest = UpdateRequest(id: int, title: Option<string>, attributes: map<string, string>)

  /** The `{ courseId, fileIds }` request of the file-relation operations. */
  datatype FilesRequest = FilesRequest(courseId: int, fileIds: seq<int>)

  /** The `{ course, files }` response of the file-relation operations. */
  datatype FilesResponse = FilesResponse(course: Course, files: seq<int>)

  /** `findOneBy({ title })` finds a course: some stored course has exactly this title. */
  predicate HasTitle(store: Store, title: string)
  {
    exists k :: k in store && store[k].title == title
  }

  /** The ids of the courses holding `title`. */
  function CoursesTitled(store: Store, title: string): set<int>
  {
    set k | k in store && store[k].title == title
  }

  ghost predicate IdsMatchKeys(store: Store)
  {
    forall k :: k in store ==> store[k].id == k
  }

  ghost predicate TitlesUnique(store: Store)
  {
    forall a, b :: a in store && b in store && store[a].title == store[b].title ==> a == b
  }

  /** The state the service aims to keep: each course stored under its own id, titles distinct. */
  ghost predicate Valid(store: Store)
  {
    IdsMatchKeys(store) && TitlesUnique(store)
  }

  /** The repository's `merge(course, updateData)`: copy the supplied fields onto the course. */
  function Merge(c: Course, u: UpdateRequest): (r: Course)
    ensures r.id == c.id && r.files == c.files
    ensures u.title.Some? ==> r.title == u.title.value
    ensures u.title.None? ==> r.title == c.title
    ensures r.attributes.Keys == c.attributes.Keys + u.attributes.Keys
    ensures forall k :: k in u.attributes ==> r.attributes[k] == u.attributes[k]
    ensures forall k :: k in c.attributes && k !in u.attributes ==> r.attributes[k] == c.attributes[k]
  {
    var title := match u.title case Some(t) => t case None => c.title;
    c.(title := title, attributes := c.attributes + u.attributes)
  }

  /** An update that supplies no field leaves the course as it was. */
  lemma MergeNothing(c: Course, id: int)
    ensures Merge(c, UpdateRequest(id, None, map[])) == c
  {
  }

  /** Applying the same update twice is the same as applying it once. */
  lemma MergeIdempotent(c: Course, u: UpdateRequest)
    ensures Merge(Merge(c, u), u) == Merge(c, u)
  {
  }
}
