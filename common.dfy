/** Option and the outcome of a call that may raise, shared by every module. */
module Common {

  datatype Option<+T> = None | Some(value: T)

  /** How a call that returns nothing ended: normally, or by raising the named Python exception. */
  datatype Status = Done | Raised(exception: string, message: string)

  /** The result of a database read that may raise. */
  datatype Fetch<+T> = Fetched(value: T) | FetchFailed
}
