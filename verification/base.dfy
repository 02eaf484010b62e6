/** Failure-carrying values shared by every module of the model.
    Go functions return `(T, error)`; here that pair becomes a `Result<T>` whose
    failure side carries the error's message text. */
module Base {

  datatype Option<+T> = None | Some(value: T)

  datatype Result<+T> = Ok(value: T) | Err(msg: string) {
    predicate IsFailure() { Err? }

    function PropagateFailure<U>(): Result<U>
      requires Err?
    {
      Err(msg)
    }

    function Extract(): T
      requires Ok?
    {
      value
    }
  }
}
