/** Small helpers shared by the whole model (utils/utils.ts). */
module Utils {

  /** An optional value: a missing option argument or an absent `undefined`. */
  datatype Option<T> = None | Some(value: T)

  /**
   * A user closure, reduced to an opaque identity. `Noop` is the empty
   * arrow function a Task gets when none is given.
   */
  datatype Action = Noop | Call(id: nat)

  /** `isFunction`: a callback argument counts only when one was given. */
  predicate IsFunction(callback: Option<Action>)
  {
    callback.Some?
  }

  /** The callbacks an optional callback argument contributes, in order. */
  function CallbackList(callback: Option<Action>): (cbs: seq<Action>)
    ensures |cbs| <= 1
    ensures IsFunction(callback) ==> cbs == [callback.value]
    ensures !IsFunction(callback) ==> cbs == []
  {
    if IsFunction(callback) then [callback.value] else []
  }
}
