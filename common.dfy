/** Shared vocabulary of the update engine: optional values, the exceptions the
    engine tells apart, results that may carry an exception, and date ranges.
    Dates are whole days counted from 1970-01-01 (epoch days). */
module Common {

  datatype Option<T> = None | Some(value: T)

  /** The exception classes the engine distinguishes: requests' ConnectionError,
      socket.gaierror, and every other exception (KeyError, TypeError,
      IndexError, RecursionError, storage and parsing errors). */
  datatype Exception = ConnectionError | Gaierror | Other

  /** The transient-network policy: the only exceptions a composite update swallows. */
  predicate IsTransient(e: Exception)
  {
    e.ConnectionError? || e.Gaierror?
  }

  /** A value, or the exception that was raised instead of producing it. */
  datatype Result<T> = Ok(value: T) | Raised(error: Exception)

  /** A (first, last) pair of dates as returned by range() and get_range();
      both components are None for "nothing stored / nothing written". */
  datatype DateRange = DateRange(first: Option<int>, last: Option<int>)

  const NoRange: DateRange := DateRange(None, None)

  function Min(a: int, b: int): int { if a <= b then a else b }

  function Max(a: int, b: int): int { if a <= b then b else a }
}
