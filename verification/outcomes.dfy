/** Failure-compatible Option and Result types, and every way the builder can throw. */
module Outcomes {

  datatype Option<T> = None | Some(value: T)

  /** The exceptions toy-react can raise, one constructor per cause. */
  datatype Fault =
      /** `rs.match(...)` returned null for a style declaration and the destructuring threw */
    | StyleDeclMismatch(segment: string)
      /** `classList.add` refused an empty token or one holding ASCII whitespace */
    | InvalidClassToken(token: string)
      /** `style`, `classList` or `setAttribute` used on a text node, which has none of them */
    | NotAnElement
      /** `appendChild(child.root)` where `child.root` is not a host node */
    | NoHostRoot
      /** `appendChild` called on a text node */
    | NotAContainer
      /** a component's own `render()` threw */
    | RenderThrew(message: string)
      /** the bound on nested component renders ran out */
    | DepthExceeded

  datatype Result<T> = Ok(value: T) | Err(fault: Fault) {

    predicate IsFailure() {
      Err?
    }

    function PropagateFailure<U>(): Result<U>
      requires Err?
    {
      Err(fault)
    }

    function Extract(): T
      requires Ok?
    {
      value
    }
  }
}
