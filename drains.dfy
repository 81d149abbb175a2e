/**
 * What one work-loop slice does to the queue, as a function of the host's
 * readings. The host clock (`performance.now()`) and the idle budget
 * (`IdleDeadline.timeRemaining()`) are oracles indexed by how many times
 * they have been read so far; a slice takes tasks from the front of the
 * queue one at a time and runs each before looking again.
 */
module Drains {
  import opened Utils
  import opened Constants
  import opened Ordering

  /** The closures a task invokes when run: its action, then its callbacks in order. */
  function RunOf(e: Entry): (r: seq<Action>)
    ensures |r| == 1 + |e.callbacks| && r[0] == e.action && r[1..] == e.callbacks
  {
    [e.action] + e.callbacks
  }

  /** The closures invoked by running the tasks of `q` front to back. */
  function Runs(q: seq<Entry>): (r: seq<Action>)
    ensures |r| >= |q|
  {
    if q == [] then [] else Runs(q[..|q| - 1]) + RunOf(q[|q| - 1])
  }

  /** Running two batches one after the other invokes their closures one after the other. */
  lemma {:induction false} RunsAppend(a: seq<Entry>, b: seq<Entry>)
    ensures Runs(a + b) == Runs(a) + Runs(b)
    decreases |b|
  {
    if b == [] {
      assert a + b == a;
    } else {
      var ab := a + b;
      assert ab[..|ab| - 1] == a + b[..|b| - 1] && ab[|ab| - 1] == b[|b| - 1];
      assert Runs(ab) == Runs(a + b[..|b| - 1]) + RunOf(b[|b| - 1]);
      RunsAppend(a, b[..|b| - 1]);
      assert Runs(b) == Runs(b[..|b| - 1]) + RunOf(b[|b| - 1]);
      assert (Runs(a) + Runs(b[..|b| - 1])) + RunOf(b[|b| - 1]) == Runs(a) + (Runs(b[..|b| - 1]) + RunOf(b[|b| - 1]));
    }
  }

  /** The readings never go backwards from read number `c` on. */
  ghost predicate MonotoneFrom(clock: nat -> int, c: nat)
  {
    forall i, j :: c <= i <= j ==> clock(i) <= clock(j)
  }

  // ---------------------------------------------------------------------
  // Elapsed-time budget (animation-frame and immediate work loops)

  /** How a slice ended: the number of tasks popped and the number of clock reads made so far. */
  datatype Slice = Slice(popped: nat, clockReads: nat)

  /**
   * A slice that started at `start` and may run for `budget` ms, with `c`
   * clock reads already made. Before each task: stop when the queue is
   * empty; read the clock, and once more than `budget` ms have elapsed read
   * it again and stop if the first task is due later than that reading.
   * Otherwise the first task is popped and run.
   */
  function FrameSlice(q: seq<Entry>, start: int, budget: int, clock: nat -> int, c: nat): (s: Slice)
    ensures s.popped <= |q| && c <= s.clockReads
    decreases |q|
  {
    if q == [] then Slice(0, c)
    else if clock(c) - start > budget then
      if q[0].timeout > clock(c + 1) then Slice(0, c + 2)
      else var s := FrameSlice(q[1..], start, budget, clock, c + 2); Slice(s.popped + 1, s.clockReads)
    else
      var s := FrameSlice(q[1..], start, budget, clock, c + 1); Slice(s.popped + 1, s.clockReads)
  }

  /** One check of a slice over a non-empty queue: stop there, or pop the first task and go on. */
  lemma FrameSliceNext(q: seq<Entry>, start: int, budget: int, clock: nat -> int, c: nat, c': nat)
    requires q != [] && c' == if clock(c) - start > budget then c + 2 else c + 1
    ensures clock(c) - start > budget && q[0].timeout > clock(c + 1) ==> FrameSlice(q, start, budget, clock, c) == Slice(0, c')
    ensures !(clock(c) - start > budget && q[0].timeout > clock(c + 1)) ==>
      var s := FrameSlice(q[1..], start, budget, clock, c');
      FrameSlice(q, start, budget, clock, c) == Slice(s.popped + 1, s.clockReads)
  {
  }

  /**
   * A slice that leaves tasks behind stopped for the only reason it can:
   * the last two readings found the budget spent and the first remaining
   * task not yet due.
   */
  lemma {:induction false} FrameSliceStops(q: seq<Entry>, start: int, budget: int, clock: nat -> int, c: nat)
    ensures var s := FrameSlice(q, start, budget, clock, c);
      s.popped < |q| ==>
        && c + 2 <= s.clockReads
        && clock(s.clockReads - 2) - start > budget
        && q[s.popped].timeout > clock(s.clockReads - 1)
    decreases |q|
  {
    if q != [] {
      var c' := if clock(c) - start > budget then c + 2 else c + 1;
      FrameSliceStops(q[1..], start, budget, clock, c');
    }
  }

  /**
   * Overdue tasks bypass the budget: with a clock that does not go
   * backwards, every task already due at the first reading is popped.
   */
  lemma {:induction false} FrameSliceRunsOverdue(q: seq<Entry>, start: int, budget: int, clock: nat -> int, c: nat)
    requires MonotoneFrom(clock, c)
    ensures FrameSlice(q, start, budget, clock, c).popped >= LeadingLE(q, clock(c))
    decreases |q|
  {
    if q != [] && q[0].timeout <= clock(c) {
      var c' := if clock(c) - start > budget then c + 2 else c + 1;
      assert MonotoneFrom(clock, c') && clock(c) <= clock(c');
      FrameSliceRunsOverdue(q[1..], start, budget, clock, c');
      LeadingLEMonotone(q[1..], clock(c), clock(c'));
    }
  }

  /** Within the budget nothing stops a slice but an empty queue. */
  lemma {:induction false} FrameSliceWithinBudget(q: seq<Entry>, start: int, budget: int, clock: nat -> int, c: nat)
    requires forall i :: c <= i ==> clock(i) - start <= budget
    ensures FrameSlice(q, start, budget, clock, c).popped == |q|
    decreases |q|
  {
    if q != [] {
      FrameSliceWithinBudget(q[1..], start, budget, clock, c + 1);
    }
  }

  // ---------------------------------------------------------------------
  // Idle-time budget (idle-frame work loop)

  /** How an idle slice ended: tasks popped, budget reads and clock reads made so far. */
  datatype IdleRun = IdleRun(popped: nat, budgetReads: nat, clockReads: nat)

  /**
   * An idle slice with `r` budget reads and `c` clock reads already made.
   * Before each task: stop when the queue is empty; read the remaining
   * time, and when none is left read the clock and stop if the first task
   * is due later. Otherwise the first task is popped and run.
   */
  function IdleSlice(q: seq<Entry>, remaining: nat -> int, clock: nat -> int, r: nat, c: nat): (s: IdleRun)
    ensures s.popped <= |q| && r <= s.budgetReads && c <= s.clockReads
    decreases |q|
  {
    if q == [] then IdleRun(0, r, c)
    else if remaining(r) <= 0 then
      if q[0].timeout > clock(c) then IdleRun(0, r + 1, c + 1)
      else var s := IdleSlice(q[1..], remaining, clock, r + 1, c + 1); IdleRun(s.popped + 1, s.budgetReads, s.clockReads)
    else
      var s := IdleSlice(q[1..], remaining, clock, r + 1, c); IdleRun(s.popped + 1, s.budgetReads, s.clockReads)
  }

  /** One check of an idle slice over a non-empty queue: stop there, or pop the first task and go on. */
  lemma IdleSliceNext(q: seq<Entry>, remaining: nat -> int, clock: nat -> int, r: nat, c: nat, c': nat)
    requires q != [] && c' == if remaining(r) <= 0 then c + 1 else c
    ensures remaining(r) <= 0 && q[0].timeout > clock(c) ==> IdleSlice(q, remaining, clock, r, c) == IdleRun(0, r + 1, c')
    ensures !(remaining(r) <= 0 && q[0].timeout > clock(c)) ==>
      var s := IdleSlice(q[1..], remaining, clock, r + 1, c');
      IdleSlice(q, remaining, clock, r, c) == IdleRun(s.popped + 1, s.budgetReads, s.clockReads)
  {
  }

  /**
   * An idle slice that leaves tasks behind stopped because no idle time
   * was left and the first remaining task was not yet due.
   */
  lemma {:induction false} IdleSliceStops(q: seq<Entry>, remaining: nat -> int, clock: nat -> int, r: nat, c: nat)
    ensures var s := IdleSlice(q, remaining, clock, r, c);
      s.popped < |q| ==>
        && r < s.budgetReads && c < s.clockReads
        && remaining(s.budgetReads - 1) <= 0
        && q[s.popped].timeout > clock(s.clockReads - 1)
    decreases |q|
  {
    if q != [] {
      var c' := if remaining(r) <= 0 then c + 1 else c;
      IdleSliceStops(q[1..], remaining, clock, r + 1, c');
    }
  }

  /** Overdue tasks bypass the idle budget. */
  lemma {:induction false} IdleSliceRunsOverdue(q: seq<Entry>, remaining: nat -> int, clock: nat -> int, r: nat, c: nat)
    requires MonotoneFrom(clock, c)
    ensures IdleSlice(q, remaining, clock, r, c).popped >= LeadingLE(q, clock(c))
    decreases |q|
  {
    if q != [] && q[0].timeout <= clock(c) {
      var c' := if remaining(r) <= 0 then c + 1 else c;
      assert MonotoneFrom(clock, c') && clock(c) <= clock(c');
      IdleSliceRunsOverdue(q[1..], remaining, clock, r + 1, c');
      LeadingLEMonotone(q[1..], clock(c), clock(c'));
    }
  }

  /** While idle time remains, nothing stops a slice but an empty queue. */
  lemma {:induction false} IdleSliceWithinBudget(q: seq<Entry>, remaining: nat -> int, clock: nat -> int, r: nat, c: nat)
    requires forall i :: r <= i ==> remaining(i) > 0
    ensures IdleSlice(q, remaining, clock, r, c).popped == |q|
    decreases |q|
  {
    if q != [] {
      IdleSliceWithinBudget(q[1..], remaining, clock, r + 1, c);
    }
  }

  /** A later reading finds at least as many tasks due. */
  lemma {:induction false} LeadingLEMonotone(q: seq<Entry>, t: int, t': int)
    requires t <= t'
    ensures LeadingLE(q, t) <= LeadingLE(q, t')
    decreases |q|
  {
    if q != [] && q[0].timeout <= t {
      LeadingLEMonotone(q[1..], t, t');
    }
  }
}
