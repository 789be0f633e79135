/** The `Option` and `Result` types of the source. */
module Wrappers {

  datatype Option<T> = None | Some(value: T)

  datatype Result<T, E> = Ok(value: T) | Err(error: E)
  {
    /** `Result::ok`: the success value, if any. */
    function ToOption(): (r: Option<T>)
      ensures r.Some? <==> this.Ok?
      ensures r.Some? ==> r.value == this.value
    {
      match this
      case Ok(v) => Some(v)
      case Err(_) => None
    }
  }
}
