/** Status and result values shared by the STL reader and writer. */
module Results {

  /** The messages the STL reader attaches to IO_ERROR; Unspecified is a status built without one. */
  datatype Message =
    | Unspecified
    | InvalidHeader
    | InvalidBinaryHeader
    | IncompleteFacet
    | InvalidFloat
    | InvalidFacet
    | AllVerticesNan

  /** The text of each message, as Status::error_msg() returns it. */
  function MessageText(m: Message): string {
    match m
    case Unspecified => ""
    case InvalidHeader => "STL file has invalid header."
    case InvalidBinaryHeader => "Binary STL file has invalid header."
    case IncompleteFacet => "Incomplete STL facet description."
    case InvalidFloat => "Invalid float in STL facet description."
    case InvalidFacet => "Invalid STL facet description."
    case AllVerticesNan => "Every vertex in a triangle is NaN."
  }

  /** Draco's Status, restricted to the two codes the STL code uses. */
  datatype Status = Ok | IoError(message: Message)

  datatype Option<+T> = None | Some(value: T)

  /** A computed value or the message of the IO_ERROR status that stopped it. */
  datatype Result<+T> = Success(value: T) | Failure(message: Message)

  /** The status a decoder reports for a result. */
  function StatusOf<T>(r: Result<T>): (s: Status)
    ensures s.Ok? <==> r.Success?
    ensures r.Failure? ==> s == IoError(r.message)
  {
    match r
    case Success(_) => Ok
    case Failure(m) => IoError(m)
  }
}
