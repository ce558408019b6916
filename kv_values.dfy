/** The uniform value model shared by both stores: the scalars, string-keyed maps
    and lists that every KVStore operation accepts and returns, and the errors
    the stores hand back to their callers. */
module KvValues {

  /** A Go value that may be nil: None stands for a nil map or a nil slice. */
  datatype Option<+T> = None | Some(value: T)

  /** A scalar as a store sees it: Go's `interface{}` holding nil or a primitive. */
  datatype Scalar = Nil | Text(s: string) | Int(i: int) | Bool(b: bool)

  /** A value stored under a key: a scalar, a string-keyed map of scalars, or an
      ordered list of scalars. */
  datatype Value =
    | Atom(scalar: Scalar)
    | MapV(entries: map<string, Scalar>)
    | ListV(items: seq<Scalar>)

  /** The errors a store can return. The stores never wrap or classify what a
      backend reports: each one reaches the caller as it is. */
  datatype Error =
    | ItemNotFound(key: string)  // the in-memory cache refused a Replace of a missing key
    | RedisNil                   // Redis answered a GET with a nil reply
    | WrongType                  // Redis WRONGTYPE: the key holds another kind of value
    | WrongArgCount              // Redis refused a command with too few arguments
    | Transport(code: nat)       // any other failure of a backend command
}
