/** Outcomes shared by every codec class: an optional value, the failures the
    classes raise, and a result that is either a value or one such failure. */
module Common {

  datatype Option<T> = None | Some(value: T)

  /** The exceptions the codec raises, one constructor per distinct cause. */
  datatype Error =
    | NotDistinct              // the alphabet repeats a character
    | DuplicateKey             // Dictionary.Add met a key that is already present
    | NotInAlphabet(c: char)   // the first message character outside the alphabet
    | NotADigit(c: char)       // the first code-stream character that is not a digit
    | InvalidBlockIndex        // a code group that is short, empty or unresolvable

  datatype Result<T> = Ok(value: T) | Err(error: Error)

  /** Prepends already produced output to the outcome of the rest of a run. */
  function Then(prefix: seq<char>, rest: Result<seq<char>>): Result<seq<char>>
  {
    match rest
    case Ok(s) => Ok(prefix + s)
    case Err(e) => Err(e)
  }

  /** Output produced in two pieces is the same as produced in one. */
  lemma ThenThen(a: seq<char>, b: seq<char>, rest: Result<seq<char>>)
    ensures Then(a, Then(b, rest)) == Then(a + b, rest)
  {
    if rest.Ok? {
      assert a + (b + rest.value) == (a + b) + rest.value;
    }
  }

  lemma ThenNothing(rest: Result<seq<char>>)
    ensures Then([], rest) == rest
  {
    if rest.Ok? {
      assert [] + rest.value == rest.value;
    }
  }
}
