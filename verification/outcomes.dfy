/**
 The results the course service hands back over gRPC: a value, or one of the
 RpcException payloads it throws, each with its status code and fixed message.
 */
module Outcomes {
  import opened Options
  import IdText

  /** What a service operation ends with. Every failure is one of the four the service raises. */
  datatype Outcome<+T> =
    | Ok(value: T)
    | AlreadyExists
    | NotFound
    | FilesMissing(ids: seq<int>)
    | Internal

  /** The gRPC status codes the service uses (named as in `grpc.status`). */
  datatype Status = OK | NOT_FOUND | ALREADY_EXISTS | INTERNAL

  /** Numeric value of a status on the wire, as fixed by the gRPC status code list. */
  function Code(s: Status): nat
  {
    match s
    case OK => 0
    case NOT_FOUND => 5
    case ALREADY_EXISTS => 6
    case INTERNAL => 13
  }

  /** The `{ code, message }` object an RpcException carries. */
  datatype RpcError = RpcError(status: Status, message: string)

  const CourseExistsMessage: string := "Course already exists"
  const CourseNotFoundMessage: string := "Course not found"
  const InternalMessage: string := "Internal server error"
  const MissingPrefix: string := "Files with IDs "
  const MissingSuffix: string := " not found in the course"

  /** The message of a failed file removal: the missing ids, comma-joined, in request order. */
  function MissingFilesMessage(ids: seq<int>): string
  {
    MissingPrefix + IdText.JoinIds(ids) + MissingSuffix
  }

  /** The exception the service throws for a failure outcome. */
  function ToRpcError<T>(o: Outcome<T>): RpcError
    requires !o.Ok?
  {
    match o
    case AlreadyExists => RpcError(ALREADY_EXISTS, CourseExistsMessage)
    case NotFound => RpcError(NOT_FOUND, CourseNotFoundMessage)
    case FilesMissing(ids) => RpcError(NOT_FOUND, MissingFilesMessage(ids))
    case Internal => RpcError(INTERNAL, InternalMessage)
  }

  /** The id list named in a missing-files message, if `message` has that shape. */
  function MissingIdsOf(message: string): Option<seq<int>>
  {
    var p := |MissingPrefix|;
    var q := |message| - |MissingSuffix|;
    if p <= q && message[..p] == MissingPrefix && message[q..] == MissingSuffix then
      IdText.ParseIds(message[p..q])
    else None
  }

  /** What a client can tell from an RpcError: the outcome the service raised, if any. */
  function FromRpcError<T>(e: RpcError): Option<Outcome<T>>
  {
    match e.status
    case OK => None
    case ALREADY_EXISTS => if e.message == CourseExistsMessage then Some(AlreadyExists) else None
    case INTERNAL => if e.message == InternalMessage then Some(Internal) else None
    case NOT_FOUND =>
      if e.message == CourseNotFoundMessage then Some(NotFound)
      else match MissingIdsOf(e.message)
        case Some(ids) => Some(FilesMissing(ids))
        case None => None
  }

  /** The missing-files message names exactly the missing ids, in order. */
  lemma MissingFilesMessageRoundTrip(ids: seq<int>)
    ensures MissingIdsOf(MissingFilesMessage(ids)) == Some(ids)
  {
    var m := MissingFilesMessage(ids);
    var j := IdText.JoinIds(ids);
    var p := |MissingPrefix|;
    var q := |m| - |MissingSuffix|;
    assert m[..p] == MissingPrefix;
    assert m[q..] == MissingSuffix;
    assert m[p..q] == j;
    IdText.JoinIdsRoundTrip(ids);
  }

  /** No failure is lost on the wire: status and message together identify the outcome,
      so in particular the two NOT_FOUND failures are told apart by their messages. */
  lemma RpcErrorRoundTrip<T>(o: Outcome<T>)
    requires !o.Ok?
    ensures ToRpcError(o).status != OK
    ensures FromRpcError<T>(ToRpcError(o)) == Some(o)
  {
    if o.FilesMissing? {
      var m := MissingFilesMessage(o.ids);
      assert m[0] == 'F';
      assert CourseNotFoundMessage[0] == 'C';
      MissingFilesMessageRoundTrip(o.ids);
    }
  }

  /** Two different failures never produce the same RpcError. */
  lemma RpcErrorInjective<T>(a: Outcome<T>, b: Outcome<T>)
    requires !a.Ok? && !b.Ok?
    requires ToRpcError(a) == ToRpcError(b)
    ensures a == b
  {
    RpcErrorRoundTrip(a);
    RpcErrorRoundTrip(b);
  }
}
