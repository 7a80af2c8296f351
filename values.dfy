/**
 * The dynamically typed values the bot stores in its configuration
 * dictionary, reads from its Lambda event and returns from its handler,
 * and the exceptions it raises.
 */
module Values {

  /** A JSON/Python scalar: `None`, a boolean, an integer or a string. */
  datatype Value = Null | Bool(b: bool) | Int(i: int) | Str(s: string)

  /** Python truthiness: `None`, `False`, `0` and `''` are false, everything else true. */
  predicate Truthy(v: Value)
  {
    match v
    case Null => false
    case Bool(b) => b
    case Int(i) => i != 0
    case Str(s) => s != ""
  }

  /** The exceptions the core raises (or lets escape). */
  datatype Error =
    | ConfigurationError(missing: seq<string>)  // ConfigurationException, listing environment variable names
    | InvalidInteger(text: string)              // ValueError from int(text)
    | NoTimeline                                // NoTimelineException
    | EmptyPool                                 // ValueError from random.sample on an empty population
    | TweetIdNotString                          // TypeError from concatenating a non-string tweet id
}
