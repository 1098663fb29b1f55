/** Shared result types and the error conditions the bikeshare tool can run into. */
module Base {

  datatype Option<+T> = None | Some(value: T)

  /** The ways a run can go wrong; each names the condition that raises in the program. */
  datatype Error =
    | EndOfInput          // input() reached the end of the responses
    | UnknownCity         // CITY_DATA has no entry for the city key
    | MissingFile         // the city's CSV file is not present
    | UnknownMonthName    // months.index(month) finds no such month
    | EmptyColumn         // mode()[0] of a column with no values
    | UnknownMonthNumber  // the month-name table of the time report has no such month

  datatype Result<+T> = Success(value: T) | Failure(error: Error) {
    predicate IsFailure() {
      Failure?
    }

    function PropagateFailure<U>(): Result<U>
      requires Failure?
    {
      Failure(error)
    }

    function Extract(): T
      requires Success?
    {
      value
    }
  }

  function Min(a: int, b: int): int {
    if a < b then a else b
  }
}
