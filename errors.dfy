/** The Python exceptions the garage core can raise, and the result and
    option types the model uses in place of raising them. */
module Errors {

  /** The exceptions raised by the scraping and formatting code:
      an out-of-range index (a row with too few cells, or the first entry
      of an empty list), a failed `int()` parse, and a missing dictionary key. */
  datatype PyError = IndexError | ValueError | KeyError(key: string)

  datatype Result<+T> = Ok(value: T) | Err(error: PyError)

  datatype Option<+T> = None | Some(value: T)
}
