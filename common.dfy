/** Outcomes shared by every stage of the indexing pipeline. */
module Common {

  /** The errors the pipeline raises; each one aborts the run. */
  datatype Error =
    | UnsupportedFormat   // load_text: the file extension is not PDF or Word
    | InvalidStrategy     // split_text: the strategy name is not one of the three
    | CountMismatch       // save_chunks: chunks and embeddings differ in number

  /** A value or the error that was raised instead. */
  datatype Result<T> = Ok(value: T) | Err(error: Error)

  function Min(a: int, b: int): int { if a <= b then a else b }

  function Max(a: int, b: int): int { if a >= b then a else b }
}
