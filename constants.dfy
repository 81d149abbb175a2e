/** The constants and option types of the scheduler (utils/task.ts). */
module Constants {
  import opened Utils

  /** Number of levels of the skip list. */
  const MAX_LEVEL: nat := 16

  /** Offset of the IDLE priority: "practically never urgent". */
  const IDLE_TIMEOUT: int := 1073741823

  /**
   * A task key: a number, a string or a symbol. `Head` and `Tail` are the
   * two symbols reserved for the sentinels, `Sym` a symbol of the caller,
   * and `Default` the fresh symbol a task pushed without a key receives.
   */
  datatype Key = Head | Tail | Num(n: int) | Str(s: string) | Sym(id: nat) | Default(serial: nat)

  /** The five priority tags. */
  datatype Priority = Immediate | High | Normal | Low | Idle

  /** Per-priority offset (in milliseconds) added to "now" to get a deadline. */
  datatype TimeoutTable = TimeoutTable(immediate: int, high: int, normal: int, low: int, idle: int)
  {
    function Get(p: Priority): int
    {
      match p
      case Immediate => immediate
      case High => high
      case Normal => normal
      case Low => low
      case Idle => idle
    }
  }

  /** The default table: IMMEDIATE is already overdue, IDLE is never urgent. */
  const DEFAULT_PRIORITY_TIMEOUT: TimeoutTable := TimeoutTable(-1, 250, 1000, 5000, IDLE_TIMEOUT)

  /** The overridable part of the table: only HIGH, NORMAL and LOW. */
  datatype PriorityTimeoutParams = PriorityTimeoutParams(high: Option<int>, normal: Option<int>, low: Option<int>)

  /** No override at all (the `{}` default of the configuration methods). */
  const NO_OVERRIDES: PriorityTimeoutParams := PriorityTimeoutParams(None, None, None)

  /**
   * `{ ...table, ...params }`: every field present in `params` replaces the
   * table's value; IMMEDIATE and IDLE can never be replaced.
   */
  function Override(table: TimeoutTable, params: PriorityTimeoutParams): (r: TimeoutTable)
    ensures r.immediate == table.immediate && r.idle == table.idle
    ensures r.high == (if params.high.Some? then params.high.value else table.high)
    ensures r.normal == (if params.normal.Some? then params.normal.value else table.normal)
    ensures r.low == (if params.low.Some? then params.low.value else table.low)
  {
    TimeoutTable(
      table.immediate,
      match params.high case Some(v) => v case None => table.high,
      match params.normal case Some(v) => v case None => table.normal,
      match params.low case Some(v) => v case None => table.low,
      table.idle)
  }

  /** The table after a series of `setPriorityTimeout` calls, oldest first. */
  function OverrideAll(table: TimeoutTable, history: seq<PriorityTimeoutParams>): TimeoutTable
    decreases |history|
  {
    if history == [] then table else OverrideAll(Override(table, history[0]), history[1..])
  }

  /**
   * Whatever overrides were applied, an IMMEDIATE task is due one
   * millisecond before it is pushed and an IDLE task keeps the sentinel offset.
   */
  lemma {:induction false} ImmediateStaysOverdue(history: seq<PriorityTimeoutParams>, now: int)
    ensures now + OverrideAll(DEFAULT_PRIORITY_TIMEOUT, history).Get(Immediate) == now - 1
    ensures OverrideAll(DEFAULT_PRIORITY_TIMEOUT, history).Get(Idle) == IDLE_TIMEOUT
  {
    OverridesKeepFixed(DEFAULT_PRIORITY_TIMEOUT, history);
  }

  lemma {:induction false} OverridesKeepFixed(table: TimeoutTable, history: seq<PriorityTimeoutParams>)
    ensures OverrideAll(table, history).immediate == table.immediate
    ensures OverrideAll(table, history).idle == table.idle
    decreases |history|
  {
    if history != [] {
      OverridesKeepFixed(Override(table, history[0]), history[1..]);
    }
  }

  /** The default offsets grow strictly from IMMEDIATE to IDLE. */
  lemma DefaultsOrdered()
    ensures DEFAULT_PRIORITY_TIMEOUT.immediate < 0
    ensures DEFAULT_PRIORITY_TIMEOUT.high < DEFAULT_PRIORITY_TIMEOUT.normal < DEFAULT_PRIORITY_TIMEOUT.low < DEFAULT_PRIORITY_TIMEOUT.idle
    ensures MAX_LEVEL == 16 && Head != Tail
  {
  }
}
