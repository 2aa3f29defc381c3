/** Option and error values shared by every page of the model. */
module Base {

  /** A value that may be absent: PHP's `null`, a missing array key, a `fetch()` that returned false. */
  datatype Option<T> = None | Some(value: T) {
    function GetOr(default: T): T {
      match this
      case Some(v) => v
      case None => default
    }
  }

  /**
   * What an exception or an error entry carries.
   * `Msg` is a message the page code writes literally; `Db(prefix)` stands for a
   * database driver failure whose text is `prefix` followed by PDO's own message,
   * which the model does not spell out.
   */
  datatype Error = Msg(text: string) | Db(prefix: string)

  /** The value of a call that either returns or throws. */
  datatype Result<T> = Ok(value: T) | Err(error: Error)
}
