/** Error outcomes of the experiment scripts: the Python exceptions the
    modelled code can raise, carried as values instead of thrown. */
module Outcomes {

  /** `IndexError`: a list was indexed out of range.
      `ValueError`: numpy refused an empty array (as `argmax` does). */
  datatype Error = IndexError | ValueError

  datatype Result<+T> = Ok(value: T) | Err(error: Error)
}
