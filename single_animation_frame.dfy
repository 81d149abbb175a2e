/**
 * The single-animation-frame scheduler
 * (src/singleAnimationFrameScheduler.ts): one task per frame, with no
 * budget and no deadline check.
 */
module SingleAnimationFrameSchedulers {
  import opened Utils
  import opened Constants
  import Ordering
  import opened TaskLists
  import opened Drains
  import opened WorkLoops

  class SingleAnimationFrameScheduler {
    const taskList: TaskList
    var isWorking: bool
    /** Frame callbacks requested from the host and not yet delivered. */
    ghost var armed: nat
    ghost var Repr: set<object>

    /**
     * The scheduler owns its registry; it is working exactly while tasks are
     * pending, and then exactly one frame callback is outstanding.
     */
    ghost predicate Valid()
      reads this, Repr
    {
      && this in Repr && taskList in Repr && taskList.Repr <= Repr && this !in taskList.Repr
      && taskList.Valid()
      && (isWorking <==> taskList.Contents != [])
      && armed == (if isWorking then 1 else 0)
    }

    /** An idle scheduler over an empty registry with the default offsets. */
    constructor ()
      ensures Valid() && fresh(Repr)
      ensures taskList.Contents == [] && taskList.priorityTimeout == DEFAULT_PRIORITY_TIMEOUT
      ensures !isWorking && armed == 0
    {
      taskList := new TaskList();
      isWorking := false;
      armed := 0;
      new;
      Repr := {this} + taskList.Repr;
    }

    /** Merges the offset overrides into the registry; nothing else changes. */
    method SetConfig(params: PriorityTimeoutParams)
      requires Valid()
      modifies taskList`priorityTimeout
      ensures Valid()
      ensures taskList.priorityTimeout == Override(old(taskList.priorityTimeout), params)
    {
      taskList.SetPriorityTimeout(params);
    }

    /**
     * Puts the task into the registry, then starts working and requests a
     * frame callback, unless already working.
     */
    method PushTask(val: Action, key: Option<Key>, priority: Option<Priority>, callback: Option<Action>, now: int, coins: seq<bool>)
      requires Valid() && |coins| == MAX_LEVEL - 1
      requires key.Some? && key.value.Default? ==> key.value.serial < taskList.nextSymbol
      modifies Repr
      ensures Valid() && fresh(Repr - old(Repr))
      ensures taskList.priorityTimeout == old(taskList.priorityTimeout)
      ensures taskList.nextSymbol == if key.None? then old(taskList.nextSymbol) + 1 else old(taskList.nextSymbol)
      ensures taskList.Contents == Ordering.Put(old(taskList.Contents), PutKey(key, old(taskList.nextSymbol)), val, callback,
        PutPriority(priority), now + old(taskList.priorityTimeout).Get(PutPriority(priority)))
      ensures isWorking && armed == old(armed) + (if old(isWorking) then 0 else 1)
    {
      taskList.Put(val, key, priority, callback, now, coins);
      Repr := Repr + taskList.Repr;
      Ordering.PutKeyPresent(old(taskList.Contents), PutKey(key, old(taskList.nextSymbol)), val, callback,
        PutPriority(priority), now + old(taskList.priorityTimeout).Get(PutPriority(priority)));
      if !isWorking {
        isWorking := true;
        armed := armed + 1;
      }
    }

    /**
     * The frame callback: shifts and runs the first task if there is one,
     * then stops working when the registry is empty and requests the next
     * frame otherwise. A callback only arrives while working, so there is
     * always a first task.
     */
    method WorkLoop() returns (trace: seq<Action>)
      requires Valid() && isWorking
      modifies Repr
      ensures Valid() && Repr == old(Repr)
      ensures taskList.priorityTimeout == old(taskList.priorityTimeout) && taskList.nextSymbol == old(taskList.nextSymbol)
      ensures old(taskList.Contents) != [] && trace == RunOf(old(taskList.Contents)[0])
      ensures taskList.Contents == old(taskList.Contents)[1..]
      ensures isWorking <==> taskList.Contents != []
    {
      armed := armed - 1;
      trace := [];
      if !taskList.IsEmpty() {
        trace := PopAndRun(taskList);
      }
      if taskList.IsEmpty() {
        isWorking := false;
      } else {
        armed := armed + 1;
      }
    }
  }
}
