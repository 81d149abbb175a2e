/**
 * The animation-frame scheduler (src/animationFrameScheduler.ts): on each
 * frame it drains the registry for up to `frameDuration` ms, and past that
 * budget only as long as the first task is already due.
 */
module AnimationFrameSchedulers {
  import opened Utils
  import opened Constants
  import Ordering
  import opened Tasks
  import opened TaskLists
  import opened Drains
  import opened WorkLoops

  class AnimationFrameScheduler {
    const taskList: TaskList
    var isWorking: bool
    var frameDuration: int
    /** Frame callbacks requested from the host and not yet delivered. */
    ghost var armed: nat
    ghost var Repr: set<object>

    /**
     * The scheduler owns its registry; it is working exactly while tasks are
     * pending, and then exactly one frame callback is outstanding.
     */
    ghost predicate Valid()
      reads this, Repr
    {
      && this in Repr && taskList in Repr && taskList.Repr <= Repr && this !in taskList.Repr
      && taskList.Valid()
      && (isWorking <==> taskList.Contents != [])
      && armed == (if isWorking then 1 else 0)
    }

    /** An idle scheduler over an empty registry with the default offsets and a 5 ms budget. */
    constructor ()
      ensures Valid() && fresh(Repr)
      ensures taskList.Contents == [] && taskList.priorityTimeout == DEFAULT_PRIORITY_TIMEOUT
      ensures !isWorking && armed == 0 && frameDuration == 5
    {
      taskList := new TaskList();
      isWorking := false;
      frameDuration := 5;
      armed := 0;
      new;
      Repr := {this} + taskList.Repr;
    }

    /**
     * Merges the offset overrides into the registry and sets the frame
     * budget, back to 5 ms when none is given.
     */
    method SetConfig(params: PriorityTimeoutParams, frameDuration: Option<int>)
      requires Valid()
      modifies this`frameDuration, taskList`priorityTimeout
      ensures Valid()
      ensures taskList.priorityTimeout == Override(old(taskList.priorityTimeout), params)
      ensures this.frameDuration == (if frameDuration.Some? then frameDuration.value else 5)
    {
      taskList.SetPriorityTimeout(params);
      this.frameDuration := if frameDuration.Some? then frameDuration.value else 5;
    }

    /**
     * Puts the task into the registry, then starts working and requests a
     * frame callback, unless already working.
     */
    method PushTask(val: Action, key: Option<Key>, priority: Option<Priority>, callback: Option<Action>, now: int, coins: seq<bool>)
      requires Valid() && |coins| == MAX_LEVEL - 1
      requires key.Some? && key.value.Default? ==> key.value.serial < taskList.nextSymbol
      modifies Repr
      ensures Valid() && fresh(Repr - old(Repr))
      ensures taskList.priorityTimeout == old(taskList.priorityTimeout)
      ensures taskList.nextSymbol == if key.None? then old(taskList.nextSymbol) + 1 else old(taskList.nextSymbol)
      ensures taskList.Contents == Ordering.Put(old(taskList.Contents), PutKey(key, old(taskList.nextSymbol)), val, callback,
        PutPriority(priority), now + old(taskList.priorityTimeout).Get(PutPriority(priority)))
      ensures isWorking && armed == old(armed) + (if old(isWorking) then 0 else 1)
      ensures frameDuration == old(frameDuration)
    {
      taskList.Put(val, key, priority, callback, now, coins);
      Ordering.PutKeyPresent(old(taskList.Contents), PutKey(key, old(taskList.nextSymbol)), val, callback,
        PutPriority(priority), now + old(taskList.priorityTimeout).Get(PutPriority(priority)));
      if !isWorking {
        isWorking := true;
        armed := armed + 1;
      }
      Repr := Repr + taskList.Repr;
    }

    /**
     * The frame callback, delivered with the frame's start `timestamp`; the
     * clock reads are `clock(c0)`, `clock(c0 + 1)`, ... It drains the
     * registry for up to `frameDuration` ms and past that while the first
     * task is overdue, then stops working when the registry is empty and
     * requests the next frame otherwise.
     */
    method WorkLoop(timestamp: int, clock: nat -> int, c0: nat) returns (trace: seq<Action>, c: nat)
      requires Valid() && isWorking
      modifies Repr
      ensures Valid() && Repr == old(Repr)
      ensures taskList.priorityTimeout == old(taskList.priorityTimeout) && taskList.nextSymbol == old(taskList.nextSymbol)
      ensures var s := FrameSlice(old(taskList.Contents), timestamp, old(frameDuration), clock, c0);
        && taskList.Contents == old(taskList.Contents)[s.popped..]
        && trace == Runs(old(taskList.Contents)[..s.popped])
        && c == s.clockReads
      ensures isWorking <==> taskList.Contents != []
      ensures frameDuration == old(frameDuration)
    {
      armed := armed - 1;
      trace, c := FrameDrain(taskList, timestamp, frameDuration, clock, c0);
      if taskList.IsEmpty() {
        isWorking := false;
      } else {
        armed := armed + 1;
      }
    }
  }
}
