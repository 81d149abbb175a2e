/**
 * The immediate scheduler (src/immediateScheduler.ts): like the
 * animation-frame scheduler, but each slice is a macrotask whose start time
 * is read from the clock when it is requested.
 */
module ImmediateSchedulers {
  import opened Utils
  import opened Constants
  import Ordering
  import opened TaskLists
  import opened Drains
  import opened WorkLoops

  class ImmediateScheduler {
    const taskList: TaskList
    var isWorking: bool
    var frameDuration: int
    /** The start times bound into the macrotasks requested and not yet run. */
    ghost var armedAt: seq<int>
    ghost var Repr: set<object>

    /**
     * The scheduler owns its registry; it is working exactly while tasks are
     * pending, and then exactly one macrotask is outstanding.
     */
    ghost predicate Valid()
      reads this, Repr
    {
      && this in Repr && taskList in Repr && taskList.Repr <= Repr && this !in taskList.Repr
      && taskList.Valid()
      && (isWorking <==> taskList.Contents != [])
      && |armedAt| == (if isWorking then 1 else 0)
    }

    /** An idle scheduler over an empty registry with the default offsets and a 5 ms budget. */
    constructor ()
      ensures Valid() && fresh(Repr)
      ensures taskList.Contents == [] && taskList.priorityTimeout == DEFAULT_PRIORITY_TIMEOUT
      ensures !isWorking && armedAt == [] && frameDuration == 5
    {
      taskList := new TaskList();
      isWorking := false;
      frameDuration := 5;
      armedAt := [];
      new;
      Repr := {this} + taskList.Repr;
    }

    /**
     * Merges the offset overrides into the registry; the slice budget
     * changes only when a positive one is given.
     */
    method SetConfig(params: PriorityTimeoutParams, frameDuration: Option<int>)
      requires Valid()
      modifies this`frameDuration, taskList`priorityTimeout
      ensures Valid()
      ensures taskList.priorityTimeout == Override(old(taskList.priorityTimeout), params)
      ensures this.frameDuration == (if frameDuration.Some? && frameDuration.value > 0 then frameDuration.value else old(this.frameDuration))
    {
      taskList.SetPriorityTimeout(params);
      if frameDuration.Some? && frameDuration.value > 0 {
        this.frameDuration := frameDuration.value;
      }
    }

    /**
     * Puts the task into the registry (`now` is the clock reading `put`
     * makes), then, unless already working, starts working and requests a
     * macrotask bound to the start time `start`, a second clock reading.
     */
    method PushTask(val: Action, key: Option<Key>, priority: Option<Priority>, callback: Option<Action>, now: int, start: int, coins: seq<bool>)
      requires Valid() && |coins| == MAX_LEVEL - 1
      requires key.Some? && key.value.Default? ==> key.value.serial < taskList.nextSymbol
      modifies Repr
      ensures Valid() && fresh(Repr - old(Repr))
      ensures taskList.priorityTimeout == old(taskList.priorityTimeout)
      ensures taskList.nextSymbol == if key.None? then old(taskList.nextSymbol) + 1 else old(taskList.nextSymbol)
      ensures taskList.Contents == Ordering.Put(old(taskList.Contents), PutKey(key, old(taskList.nextSymbol)), val, callback,
        PutPriority(priority), now + old(taskList.priorityTimeout).Get(PutPriority(priority)))
      ensures isWorking && armedAt == (if old(isWorking) then old(armedAt) else [start])
      ensures frameDuration == old(frameDuration)
    {
      taskList.Put(val, key, priority, callback, now, coins);
      Ordering.PutKeyPresent(old(taskList.Contents), PutKey(key, old(taskList.nextSymbol)), val, callback,
        PutPriority(priority), now + old(taskList.priorityTimeout).Get(PutPriority(priority)));
      if !isWorking {
        isWorking := true;
        armedAt := [start];
      }
      Repr := Repr + taskList.Repr;
    }

    /**
     * The macrotask, run with the start time it was bound to; the clock
     * reads are `clock(c0)`, `clock(c0 + 1)`, ... It drains the registry as
     * the animation-frame scheduler does, then stops working when the
     * registry is empty, and otherwise reads the clock once more and
     * requests the next macrotask bound to that reading.
     */
    method WorkLoop(timestamp: int, clock: nat -> int, c0: nat) returns (trace: seq<Action>, c: nat)
      requires Valid() && isWorking && armedAt == [timestamp]
      modifies Repr
      ensures Valid() && Repr == old(Repr)
      ensures taskList.priorityTimeout == old(taskList.priorityTimeout) && taskList.nextSymbol == old(taskList.nextSymbol)
      ensures var s := FrameSlice(old(taskList.Contents), timestamp, old(frameDuration), clock, c0);
        && taskList.Contents == old(taskList.Contents)[s.popped..]
        && trace == Runs(old(taskList.Contents)[..s.popped])
        && (isWorking <==> taskList.Contents != [])
        && (isWorking ==> c == s.clockReads + 1 && armedAt == [clock(s.clockReads)])
        && (!isWorking ==> c == s.clockReads && armedAt == [])
      ensures frameDuration == old(frameDuration)
    {
      armedAt := [];
      trace, c := FrameDrain(taskList, timestamp, frameDuration, clock, c0);
      if taskList.IsEmpty() {
        isWorking := false;
      } else {
        armedAt := [clock(c)];
        c := c + 1;
      }
    }
  }
}
