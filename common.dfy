/** Option and error-carrying result types shared by the whole model.
    `Err(message)` stands for a rejected observable (`throwError(() => new Error(message))`). */
module Common {

  datatype Option<+T> = None | Some(value: T)

  datatype Result<+T> = Ok(value: T) | Err(message: string)

  /** The unit value a successful `Observable<void>` carries. */
  datatype Unit = Unit
}
