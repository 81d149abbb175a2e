/**
 * The drain loops the schedulers run over their registry. The animation-
 * frame and immediate schedulers share the elapsed-time loop, the idle-frame
 * scheduler has its own; each is proved to do what `Drains` says.
 */
module WorkLoops {
  import opened Utils
  import Ordering
  import opened Tasks
  import opened TaskLists
  import opened Drains

  /** Shifts the first task out of a non-empty registry and runs it. */
  method PopAndRun(list: TaskList) returns (run: seq<Action>)
    requires list.Valid() && list.Contents != []
    modifies list.Repr
    ensures list.Valid() && list.Repr == old(list.Repr)
    ensures list.priorityTimeout == old(list.priorityTimeout) && list.nextSymbol == old(list.nextSymbol)
    ensures list.Contents == old(list.Contents)[1..] && run == RunOf(old(list.Contents)[0])
  {
    var task := list.Shift();
    run := task.value.Run();
  }

  /** Pops and runs task number `n` of the queue `q` a drain started from. */
  method PopAndRunNext(list: TaskList, trace: seq<Action>, ghost q: seq<Ordering.Entry>, ghost n: nat)
    returns (trace': seq<Action>)
    requires list.Valid() && n < |q| && list.Contents == q[n..] && trace == Runs(q[..n])
    modifies list.Repr
    ensures list.Valid() && list.Repr == old(list.Repr)
    ensures list.priorityTimeout == old(list.priorityTimeout) && list.nextSymbol == old(list.nextSymbol)
    ensures list.Contents == q[n + 1..] && trace' == Runs(q[..n + 1])
  {
    var run := PopAndRun(list);
    assert q[n..][1..] == q[n + 1..] && q[..n + 1][..n] == q[..n];
    trace' := trace + run;
  }

  // ---------------------------------------------------------------------
  // Elapsed-time budget

  /** Where an elapsed-time drain is: `n` tasks of `q` popped, and what is left of the slice `s`. */
  ghost predicate FrameProgress(q: seq<Ordering.Entry>, n: nat, s: Slice, stop: bool, timestamp: int, budget: int, clock: nat -> int, c: nat)
  {
    && n <= |q| && n <= s.popped
    && (stop ==> s == Slice(n, c))
    && (!stop ==> FrameSlice(q[n..], timestamp, budget, clock, c) == Slice(s.popped - n, s.clockReads))
  }

  /**
   * The elapsed-time drain loop of a slice that started at `timestamp`:
   * it pops and runs exactly the tasks `FrameSlice` says, in queue order,
   * and makes exactly the clock reads it says.
   */
  method FrameDrain(list: TaskList, timestamp: int, budget: int, clock: nat -> int, c0: nat) returns (trace: seq<Action>, c: nat)
    requires list.Valid()
    modifies list.Repr
    ensures list.Valid() && list.Repr == old(list.Repr)
    ensures list.priorityTimeout == old(list.priorityTimeout) && list.nextSymbol == old(list.nextSymbol)
    ensures var s := FrameSlice(old(list.Contents), timestamp, budget, clock, c0);
      && list.Contents == old(list.Contents)[s.popped..]
      && trace == Runs(old(list.Contents)[..s.popped])
      && c == s.clockReads
  {
    ghost var q := list.Contents;
    ghost var s := FrameSlice(q, timestamp, budget, clock, c0);
    ghost var n: nat := 0;
    trace, c := [], c0;
    var stop := false;
    while !stop
      invariant list.Valid() && list.Repr == old(list.Repr)
      invariant list.priorityTimeout == old(list.priorityTimeout) && list.nextSymbol == old(list.nextSymbol)
      invariant n <= |q| && list.Contents == q[n..] && trace == Runs(q[..n])
      invariant FrameProgress(q, n, s, stop, timestamp, budget, clock, c)
      decreases |q| - n, !stop
    {
      stop, trace, c, n := FrameStep(list, timestamp, budget, clock, c, trace, q, n, s);
    }
  }

  /**
   * One turn of the elapsed-time loop: stop when the registry is empty, or
   * when more than `budget` ms have elapsed and the first task is not yet
   * due; otherwise shift the first task and run it.
   */
  method FrameStep(list: TaskList, timestamp: int, budget: int, clock: nat -> int, c: nat, trace: seq<Action>,
                   ghost q: seq<Ordering.Entry>, ghost n: nat, ghost s: Slice)
    returns (stop: bool, trace': seq<Action>, c': nat, ghost n': nat)
    requires list.Valid() && n <= |q| && list.Contents == q[n..] && trace == Runs(q[..n])
    requires FrameProgress(q, n, s, false, timestamp, budget, clock, c)
    modifies list.Repr
    ensures list.Valid() && list.Repr == old(list.Repr)
    ensures list.priorityTimeout == old(list.priorityTimeout) && list.nextSymbol == old(list.nextSymbol)
    ensures n' <= |q| && list.Contents == q[n'..] && trace' == Runs(q[..n'])
    ensures FrameProgress(q, n', s, stop, timestamp, budget, clock, c')
    ensures stop || n' == n + 1
  {
    if list.IsEmpty() {
      return true, trace, c, n;
    }
    var late;
    late, c' := FrameOverrun(list, timestamp, budget, clock, c);
    FrameSliceNext(q[n..], timestamp, budget, clock, c, c');
    if late {
      return true, trace, c', n;
    }
    trace' := PopAndRunNext(list, trace, q, n);
    stop, n' := false, n + 1;
  }

  /**
   * The check before each task: read the clock, and once more than
   * `budget` ms have elapsed read it again and compare with the first
   * deadline.
   */
  method FrameOverrun(list: TaskList, timestamp: int, budget: int, clock: nat -> int, c: nat) returns (late: bool, c': nat)
    requires list.Valid() && list.Contents != []
    ensures c' == if clock(c) - timestamp > budget then c + 2 else c + 1
    ensures late <==> clock(c) - timestamp > budget && list.Contents[0].timeout > clock(c + 1)
  {
    var now := clock(c);
    c' := c + 1;
    late := false;
    if now - timestamp > budget {
      var first := list.GetFirstTimeOut();
      var later := clock(c');
      c' := c' + 1;
      late := first > later;
    }
  }

  // ---------------------------------------------------------------------
  // Idle-time budget

  /** Where an idle drain is: `n` tasks of `q` popped, and what is left of the slice `s`. */
  ghost predicate IdleProgress(q: seq<Ordering.Entry>, n: nat, s: IdleRun, stop: bool, remaining: nat -> int, clock: nat -> int, r: nat, c: nat)
  {
    && n <= |q| && n <= s.popped
    && (stop ==> s == IdleRun(n, r, c))
    && (!stop ==> IdleSlice(q[n..], remaining, clock, r, c) == IdleRun(s.popped - n, s.budgetReads, s.clockReads))
  }

  /**
   * The idle drain loop: it pops and runs exactly the tasks `IdleSlice`
   * says, in queue order, reading the remaining idle time and the clock
   * exactly as often as it says.
   */
  method IdleDrain(list: TaskList, remaining: nat -> int, clock: nat -> int, r0: nat, c0: nat) returns (trace: seq<Action>, r: nat, c: nat)
    requires list.Valid()
    modifies list.Repr
    ensures list.Valid() && list.Repr == old(list.Repr)
    ensures list.priorityTimeout == old(list.priorityTimeout) && list.nextSymbol == old(list.nextSymbol)
    ensures var s := IdleSlice(old(list.Contents), remaining, clock, r0, c0);
      && list.Contents == old(list.Contents)[s.popped..]
      && trace == Runs(old(list.Contents)[..s.popped])
      && r == s.budgetReads && c == s.clockReads
  {
    ghost var q := list.Contents;
    ghost var s := IdleSlice(q, remaining, clock, r0, c0);
    ghost var n: nat := 0;
    trace, r, c := [], r0, c0;
    var stop := false;
    while !stop
      invariant list.Valid() && list.Repr == old(list.Repr)
      invariant list.priorityTimeout == old(list.priorityTimeout) && list.nextSymbol == old(list.nextSymbol)
      invariant n <= |q| && list.Contents == q[n..] && trace == Runs(q[..n])
      invariant IdleProgress(q, n, s, stop, remaining, clock, r, c)
      decreases |q| - n, !stop
    {
      stop, trace, r, c, n := IdleStep(list, remaining, clock, r, c, trace, q, n, s);
    }
  }

  /**
   * One turn of the idle loop: stop when the registry is empty, or when no
   * idle time remains and the first task is not yet due; otherwise shift
   * the first task and run it.
   */
  method IdleStep(list: TaskList, remaining: nat -> int, clock: nat -> int, r: nat, c: nat, trace: seq<Action>,
                  ghost q: seq<Ordering.Entry>, ghost n: nat, ghost s: IdleRun)
    returns (stop: bool, trace': seq<Action>, r': nat, c': nat, ghost n': nat)
    requires list.Valid() && n <= |q| && list.Contents == q[n..] && trace == Runs(q[..n])
    requires IdleProgress(q, n, s, false, remaining, clock, r, c)
    modifies list.Repr
    ensures list.Valid() && list.Repr == old(list.Repr)
    ensures list.priorityTimeout == old(list.priorityTimeout) && list.nextSymbol == old(list.nextSymbol)
    ensures n' <= |q| && list.Contents == q[n'..] && trace' == Runs(q[..n'])
    ensures IdleProgress(q, n', s, stop, remaining, clock, r', c')
    ensures stop || n' == n + 1
  {
    if list.IsEmpty() {
      return true, trace, r, c, n;
    }
    var late;
    late, r', c' := IdleOverrun(list, remaining, clock, r, c);
    IdleSliceNext(q[n..], remaining, clock, r, c, c');
    if late {
      return true, trace, r', c', n;
    }
    trace' := PopAndRunNext(list, trace, q, n);
    stop, n' := false, n + 1;
  }

  /**
   * The check before each task: read the remaining idle time, and when
   * none is left read the clock and compare with the first deadline.
   */
  method IdleOverrun(list: TaskList, remaining: nat -> int, clock: nat -> int, r: nat, c: nat) returns (late: bool, r': nat, c': nat)
    requires list.Valid() && list.Contents != []
    ensures r' == r + 1 && c' == if remaining(r) <= 0 then c + 1 else c
    ensures late <==> remaining(r) <= 0 && list.Contents[0].timeout > clock(c)
  {
    var left := remaining(r);
    r', c' := r + 1, c;
    late := false;
    if left <= 0 {
      var first := list.GetFirstTimeOut();
      var now := clock(c);
      c' := c + 1;
      late := first > now;
    }
  }
}
