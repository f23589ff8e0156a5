/** The ways the prediction pipeline of MainActivity can fail.

    The app itself never reports these: each one is an exception that Kotlin
    raises at an indexing expression (`result[-1]`, `foodNames[maxIndex]`,
    `split(",")[1]`).  The model turns each into an explicit error value so that
    every input, including the failing ones, has a defined outcome.
 */
module Faults {

  datatype Fault =
    /** The output buffer was empty, so `maxByOrNull` gave null, the index fell
        back to -1 and `result[-1]` raised. */
    | EmptyOutput
    /** The selected class index has no entry in the label table of the given size. */
    | LabelIndexOutOfRange(index: nat, size: nat)
    /** Line `line` of the label resource (0 is the header) has no comma, so
        field `[1]` of its split does not exist. */
    | MalformedRow(line: nat)

  /** Either a value or the fault that stopped the computation. */
  datatype Result<+T> = Ok(value: T) | Err(error: Fault) {

    predicate IsFailure() {
      Err?
    }

    function PropagateFailure<U>(): Result<U>
      requires Err?
    {
      Err(error)
    }

    function Extract(): T
      requires Ok?
    {
      value
    }
  }
}
