/**
 * The values the tool passes around: Python's `None`/`str`/`bool` cells of a
 * user dictionary, the exceptions that end an operation, and the user and
 * group records of the remote directory.
 */
module Models {
  import opened Text

  datatype Option<T> = None | Some(value: T)

  /** The exceptions that reach the tool's code or leave it. */
  datatype Error =
    | KeyError(key: Key)               // `d[k]` on a missing key
    | ValueError(detail: string)       // `raise ValueError(...)`, `strptime` failure
    | IndexError                       // `row[0]` on an empty row
    | EOFError                         // `input()` with nothing left to read
    | SystemExit(message: string)      // `sys.exit(message)`
    | AttributeError(name: string)     // a missing method or attribute
    | TypeError(detail: string)        // an operator applied to a value of the wrong type
    | RemoteError(body: string)        // an error reported by the remote directory

  datatype Result<T> = Success(value: T) | Failure(error: Error)

  datatype Outcome = Pass | Fail(error: Error)

  /** A dictionary key: a field name, or `None` (which `zip_longest` produces). */
  datatype Key = Name(name: string) | NoneKey

  /** A dictionary value: a string, `None`, or a boolean. */
  datatype Value = Str(s: string) | Null | Flag(b: bool)

  /** A user record as a Python `dict`. */
  type UserDict = map<Key, Value>

  /** Python truthiness of a value. */
  predicate Truthy(v: Value)
    ensures Truthy(v) <==> v != Null && v != Str("") && v != Flag(false)
  {
    match v
    case Str(s) => s != ""
    case Null => false
    case Flag(b) => b
  }

  /** `str(v)` */
  function Show(v: Value): (r: string)
    ensures v.Str? ==> r == v.s
    ensures r == "None" <==> v == Null || v == Str("None")
  {
    match v
    case Str(s) => s
    case Null => "None"
    case Flag(b) => if b then "True" else "False"
  }

  /** `user.get(key)`: the value, or `None` when the key is absent. */
  function Get(d: UserDict, key: string): (r: Value)
    ensures r != Null ==> Name(key) in d && d[Name(key)] == r
    ensures r == Null <==> Name(key) !in d || d[Name(key)] == Null
  {
    if Name(key) in d then d[Name(key)] else Null
  }

  /**
   * A user of the remote directory (the `User` record), together with the
   * remote's `current_sign_in_at` timestamp, which the listing reads.
   */
  datatype User = User(
    id: nat,
    username: string,
    email: string,
    name: string,
    state: string,
    currentSignInAt: Option<string>)

  /** A group of the remote directory. */
  datatype Group = Group(id: nat, name: string, path: string)
}
