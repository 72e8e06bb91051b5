/** Failure-carrying result types shared by the model's modules. */
module Results {

  /** An optional value: `None` stands for "nothing was produced". */
  datatype Option<+T> = None | Some(value: T)

  /** The outcome of an operation that can abort with an error of type `E`. */
  datatype Result<+T, +E> = Success(value: T) | Failure(error: E)
}
