/**
 * The exceptions the utility module can raise, as values, and the Python argument
 * shapes it distinguishes with `type(x) == str` / `type(x) == list`.
 */
module Outcomes {

  datatype Error =
    | NoSuchDirectory(path: string)      // os.listdir on a path that is not a directory
    | IndexOutOfRange                    // `[0]` of an empty listing, `split[-2]` of one piece, `path[0]` of []
    | NoneNotIterable                    // iterating the None that find_variable returns
    | ConflictingModes                   // ValueError: both dmget and mirror requested
    | NoMatch                            // ValueError: no ppname satisfies the constraints
    | Ambiguous(candidates: seq<string>) // ValueError: several ppnames satisfy them
    | PathNotStrOrList                   // ValueError raised by mirror_path
    | Unbound(name: string)              // a local read before any branch assigned it

  datatype Result<T> = Ok(value: T) | Err(error: Error)
  {
    predicate IsFailure() { Err? }

    function PropagateFailure<U>(): Result<U>
      requires Err?
    {
      Err(error)
    }

    function Extract(): T
      requires Ok?
    {
      value
    }
  }

  /** Python's `None` or a value. */
  datatype Option<T> = None | Some(value: T)

  /** An argument the source accepts as a str or a list of str, or anything else. */
  datatype PathArg = Str(s: string) | List(items: seq<string>) | OtherType

  /** A value that is either one string or a list of them (require/ignore, and results). */
  datatype Strings = One(s: string) | Many(items: seq<string>)
  {
    /** Python's `if type(x) is str: x = [x]`. */
    function AsList(): seq<string>
    {
      match this
      case One(s) => [s]
      case Many(items) => items
    }
  }
}
