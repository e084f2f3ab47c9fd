/** What `when.js` throws.  Its own errors are thrown as bare strings;
    the one `TypeError` in the model comes from the `%w` directive of
    `format`, which calls a method `When` does not have. */
module Errors {
  import opened Text

  datatype Error =
    | InvalidTimeUnit(unit: string)   // `add` met a unit it does not know
    | InvalidPadWidth(n: int)         // `pad0` was asked for a width of 1 or less
    | NotAFunction(name: string)      // a call to a method that does not exist

  /** The text of the thrown value.  For `NotAFunction` the wording of a
      `TypeError` is the engine's; the one below is a common choice. */
  function Message(e: Error): string
  {
    match e
    case InvalidTimeUnit(u) => "invalid time unit: " + u
    case InvalidPadWidth(n) => "invalid n=" + IntText(n)
    case NotAFunction(name) => "this." + name + " is not a function"
  }
}
