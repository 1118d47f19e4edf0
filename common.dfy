/** Small value types shared by the whole model. */
module Common {

  /** A JavaScript value that may be `undefined`/`null`. */
  datatype Option<+T> = None | Some(value: T)

  /** The exceptions the modelled code can throw on its own. */
  datatype Error =
    | RangeError  // `Date.prototype.toISOString` on an invalid or out-of-range time value
    | TypeError   // `undefined.forEach`, when an archive has no `orderedItems`

  /** The outcome of code that either completes or throws. */
  datatype Result<+T> = Ok(value: T) | Err(error: Error)
}
