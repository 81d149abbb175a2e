/**
 * The idle-frame scheduler (src/idleFrameScheduler.ts): it drains the
 * registry while the host reports idle time left in the frame, and past
 * that only as long as the first task is already due.
 */
module IdleFrameSchedulers {
  import opened Utils
  import opened Constants
  import Ordering
  import opened TaskLists
  import opened Drains
  import opened WorkLoops

  class IdleFrameScheduler {
    const taskList: TaskList
    var isWorking: bool
    /** Idle callbacks requested from the host and not yet delivered. */
    ghost var armed: nat
    ghost var Repr: set<object>

    /**
     * The scheduler owns its registry; it is working exactly while tasks are
     * pending, and then exactly one idle callback is outstanding.
     */
    ghost predicate Valid()
      reads this, Repr
    {
      && this in Repr && taskList in Repr && taskList.Repr <= Repr && this !in taskList.Repr
      && taskList.Valid()
      && (isWorking <==> taskList.Contents != [])
      && armed == (if isWorking then 1 else 0)
    }

    /** An idle scheduler over an empty registry with the default offsets. */
    constructor ()
      ensures Valid() && fresh(Repr)
      ensures taskList.Contents == [] && taskList.priorityTimeout == DEFAULT_PRIORITY_TIMEOUT
      ensures !isWorking && armed == 0
    {
      taskList := new TaskList();
      isWorking := false;
      armed := 0;
      new;
      Repr := {this} + taskList.Repr;
    }

    /** Merges the offset overrides into the registry; nothing else changes. */
    method SetConfig(params: PriorityTimeoutParams)
      requires Valid()
      modifies taskList`priorityTimeout
      ensures Valid()
      ensures taskList.priorityTimeout == Override(old(taskList.priorityTimeout), params)
    {
      taskList.SetPriorityTimeout(params);
    }

    /**
     * Puts the task into the registry, then starts working and requests an
     * idle callback, unless already working.
     */
    method PushTask(val: Action, key: Option<Key>, priority: Option<Priority>, callback: Option<Action>, now: int, coins: seq<bool>)
      requires Valid() && |coins| == MAX_LEVEL - 1
      requires key.Some? && key.value.Default? ==> key.value.serial < taskList.nextSymbol
      modifies Repr
      ensures Valid() && fresh(Repr - old(Repr))
      ensures taskList.priorityTimeout == old(taskList.priorityTimeout)
      ensures taskList.nextSymbol == if key.None? then old(taskList.nextSymbol) + 1 else old(taskList.nextSymbol)
      ensures taskList.Contents == Ordering.Put(old(taskList.Contents), PutKey(key, old(taskList.nextSymbol)), val, callback,
        PutPriority(priority), now + old(taskList.priorityTimeout).Get(PutPriority(priority)))
      ensures isWorking && armed == old(armed) + (if old(isWorking) then 0 else 1)
    {
      taskList.Put(val, key, priority, callback, now, coins);
      Repr := Repr + taskList.Repr;
      Ordering.PutKeyPresent(old(taskList.Contents), PutKey(key, old(taskList.nextSymbol)), val, callback,
        PutPriority(priority), now + old(taskList.priorityTimeout).Get(PutPriority(priority)));
      if !isWorking {
        isWorking := true;
        armed := armed + 1;
      }
    }

    /**
     * The idle callback; `remaining(r0)`, `remaining(r0 + 1)`, ... are the
     * answers of the deadline's `timeRemaining()` and `clock(c0)`, ... the
     * clock reads. It drains the registry as `IdleSlice` says, then stops
     * working when the registry is empty and requests another idle callback
     * otherwise.
     */
    method WorkLoop(remaining: nat -> int, clock: nat -> int, r0: nat, c0: nat) returns (trace: seq<Action>, r: nat, c: nat)
      requires Valid() && isWorking
      modifies Repr
      ensures Valid() && Repr == old(Repr)
      ensures taskList.priorityTimeout == old(taskList.priorityTimeout) && taskList.nextSymbol == old(taskList.nextSymbol)
      ensures var s := IdleSlice(old(taskList.Contents), remaining, clock, r0, c0);
        && taskList.Contents == old(taskList.Contents)[s.popped..]
        && trace == Runs(old(taskList.Contents)[..s.popped])
        && r == s.budgetReads && c == s.clockReads
      ensures isWorking <==> taskList.Contents != []
    {
      armed := armed - 1;
      trace, r, c := IdleDrain(taskList, remaining, clock, r0, c0);
      if taskList.IsEmpty() {
        isWorking := false;
      } else {
        armed := armed + 1;
      }
    }
  }
}
