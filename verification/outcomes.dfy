/** Failure-compatible wrappers shared by every module of the model.

- Option<T> stands for a Java/Kotlin reference that may be null.
- Failure names the exceptions the modelled code lets escape to its caller.
- Result<T> is either a value or one of those failures.
 */
module Outcomes {

  datatype Option<+T> = None | Some(value: T)

  /** The exceptions the modelled code can end in, and the one loop that never ends. */
  datatype Failure =
    | IllegalArgument   // IllegalArgumentException raised on purpose
    | IllegalState      // IllegalStateException raised on purpose
    | NullDereference   // a NullPointerException from dereferencing a missing row or a null name
    | IndexOutOfBounds  // a StringIndexOutOfBoundsException from `substring`
    | Unbounded         // a walk over a cyclic parent chain: a recursion that overflows the stack, or a loop that never ends

  datatype Result<+T> = Ok(value: T) | Err(failure: Failure)
}
