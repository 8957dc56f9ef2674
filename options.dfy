/** Optional values, and the outcomes of Java calls that may throw or wait. */
module Options {
  /** A Java reference that may be null, a read that may fail. */
  datatype Option<T> = None | Some(value: T)

  /** A call that returns a value, or ends in an uncaught exception. */
  datatype Outcome<T> = Returned(value: T) | Threw

  /**
   * A call that gets through its wait() loops, or one that is still waiting
   * for another thread to change a flag; the state is then as it stands at
   * the wait.
   */
  datatype Wait<T> = Done(value: T) | Blocked
}
