/** Optional values and outcomes shared by the rest of the model. */
module Results {

  /** A value that may be absent: a regular-expression search that found nothing is `None`. */
  datatype Option<+T> = None | Some(value: T)

  /** Either a value or the message of a Go `panic` that aborted the computation. */
  datatype Result<+T> = Ok(value: T) | Panic(message: string)
}
