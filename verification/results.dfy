/** Outcomes of the analysis operations. Python raises or hangs where the
    model returns an error value. */
module Results {

  /** A value that may be absent, as Python's `None`. */
  datatype Option<+T> = None | Some(value: T)

  /** The ways an analysis call fails instead of returning. */
  datatype Error =
    | ZeroDivision    // Python raises ZeroDivisionError (chunk count or block size of 0)
    | ReadSize        // `fh.read(n)` raises ValueError for n below -1
    | NonTermination  // the section block loop never reaches its exit condition

  datatype Result<+T> = Ok(value: T) | Err(error: Error)
}
