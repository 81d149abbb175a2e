/** A pending unit of work (lib/task.ts). */
module Tasks {
  import opened Utils
  import opened Constants

  /**
   * A task: its key and priority never change; the action can be replaced,
   * callbacks are only ever appended, and the deadline (`timeout`) is an
   * absolute timestamp.
   */
  class Task {
    const key: Key
    var val: Action
    var callbackList: seq<Action>
    const priority: Priority
    var timeout: int

    /**
     * Keeps the callback only when one is given; priority defaults to IDLE
     * and the deadline to the IDLE offset.
     */
    constructor (key: Key, val: Action, callback: Option<Action>, priority: Option<Priority>, timeout: Option<int>)
      ensures this.key == key && this.val == val
      ensures callbackList == CallbackList(callback)
      ensures this.priority == (if priority.Some? then priority.value else Idle)
      ensures this.timeout == (if timeout.Some? then timeout.value else DEFAULT_PRIORITY_TIMEOUT.Get(Idle))
    {
      this.key := key;
      this.val := val;
      this.priority := match priority case Some(p) => p case None => Idle;
      this.timeout := match timeout case Some(t) => t case None => DEFAULT_PRIORITY_TIMEOUT.Get(Idle);
      callbackList := [];
      new;
      if IsFunction(callback) {
        AddCallback(callback.value);
      }
    }

    function GetTimeout(): int
      reads this
    {
      timeout
    }

    /** Sets the deadline and nothing else. */
    method SetTimeout(timeout: int)
      modifies this`timeout
      ensures this.timeout == timeout
      ensures GetTimeout() == timeout
    {
      this.timeout := timeout;
    }

    function GetKey(): Key
    {
      key
    }

    /** Replaces the action and nothing else. */
    method SetVal(val: Action)
      modifies this`val
      ensures this.val == val
    {
      this.val := val;
    }

    /** Appends a callback after the earlier ones, which stay as they were. */
    method AddCallback(callback: Action)
      modifies this`callbackList
      ensures callbackList == old(callbackList) + [callback]
    {
      callbackList := callbackList + [callback];
    }

    /**
     * Runs the task: the action first, then every callback in the order it
     * was added. The returned trace lists the closures in invocation order.
     */
    method Run() returns (trace: seq<Action>)
      ensures trace == [val] + callbackList
      ensures |trace| == 1 + |callbackList| && trace[0] == val
    {
      trace := [val];
      for i := 0 to |callbackList|
        invariant trace == [val] + callbackList[..i]
      {
        trace := trace + [callbackList[i]];
      }
    }
  }
}
