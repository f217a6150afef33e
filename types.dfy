/** Values shared by both request handlers of lib/server.rb. */
module Types {

  /** One octet of file content. */
  newtype Byte = b: int | 0 <= b < 256

  type Bytes = seq<Byte>

  /** A file name relative to the storage root RDFS_PATH; "" names the root itself. */
  type Path = string

  /** A hex-encoded SHA-256 digest, as `hexdigest` returns it. */
  type Digest = string

  datatype Option<T> = None | Some(value: T)

  /** The exceptions a handler can raise; WEBrick answers each with status 500. */
  datatype Fault =
    | MissingParameter   // a nil query parameter used as a String (TypeError, NoMethodError)
    | FileExists         // Errno::EEXIST: mkdir_p meets a regular file where a directory belongs
    | NoSuchFile         // Errno::ENOENT
    | NotADirectory      // Errno::ENOTDIR
    | IsADirectory       // Errno::EISDIR
    | SameFile           // ArgumentError raised by FileUtils.cp when source and target coincide
    | UndefinedConstant  // NameError: a constant the program refers to is not defined
    | UndefinedMethod    // NoMethodError: the receiver has no such method

  /** What a handler step produces: a value, or the exception it raised. */
  datatype Outcome<T> = Done(value: T) | Raised(fault: Fault)

  /** The triple `[status, content_type, body]` an `api_handler` returns. */
  datatype Reply = Reply(status: int, contentType: string, body: string)

  /** The parts of a WEBrick request the handlers read. */
  datatype Request = Request(query: map<string, string>, remoteIp: string)

  /** `request.query[key]`, which is nil when the parameter is absent. */
  function Param(query: map<string, string>, key: string): Option<string>
  {
    if key in query then Some(query[key]) else None
  }
}
