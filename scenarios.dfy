/**
 * The behaviours the task-list tests (tests/taskList.test.ts) check, stated
 * for every clock reading and every outcome of the coin flips.
 */
module Scenarios {
  import opened Utils
  import opened Constants
  import Ordering
  import opened Tasks
  import opened TaskLists
  import opened SingleAnimationFrameSchedulers

  /**
   * A task put under a key is pending and retrievable under that key; once
   * shifted out it is returned and no longer pending.
   */
  method PutThenShift(now: int, coins: seq<bool>) returns (hadBefore: bool, found: bool, shifted: Option<Task>, hasAfter: bool)
    requires |coins| == MAX_LEVEL - 1
    ensures hadBefore && found && shifted.Some? && !hasAfter
    ensures shifted.Some? ==> shifted.value.key == Str("testKey")
  {
    var list := new TaskList();
    list.Put(Noop, Some(Str("testKey")), None, None, now, coins);
    assert Ordering.Keys([]) == {};
    assert list.Contents == [Ordering.Entry(Str("testKey"), now + 1000, Noop, [], Normal)];
    assert Ordering.Keys(list.Contents) == {Str("testKey")};
    hadBefore := list.Has(Str("testKey"));
    found := list.Get(Str("testKey")).Some?;
    shifted := list.Shift();
    assert list.Contents == [];
    hasAfter := list.Has(Str("testKey"));
  }

  /** The queue after a NORMAL push at `n1` on an empty registry: that one task, due 1000 ms later. */
  ghost function NormalOnly(n1: int): (q: seq<Ordering.Entry>)
    ensures q == [Ordering.Entry(Str("testKey1"), n1 + DEFAULT_PRIORITY_TIMEOUT.Get(Normal), Noop, [], Normal)]
  {
    assert Ordering.Keys([]) == {};
    Ordering.Put([], Str("testKey1"), Noop, None, Normal, n1 + DEFAULT_PRIORITY_TIMEOUT.Get(Normal))
  }

  /** The queue after a NORMAL push at `n1` and a HIGH push at `n2` on an empty registry. */
  ghost function NormalThenHigh(n1: int, n2: int): (q: seq<Ordering.Entry>)
    requires n1 <= n2 < n1 + DEFAULT_PRIORITY_TIMEOUT.Get(Normal) - DEFAULT_PRIORITY_TIMEOUT.Get(High)
    ensures |q| == 2 && q[0].key == Str("testKey2") && q[1].key == Str("testKey1")
    ensures q[0].timeout == n2 + DEFAULT_PRIORITY_TIMEOUT.Get(High) && q[1].timeout == n1 + DEFAULT_PRIORITY_TIMEOUT.Get(Normal)
  {
    Ordering.HighOvertakesNormal(Str("testKey1"), Noop, n1, Str("testKey2"), Noop, n2);
    Ordering.Put(NormalOnly(n1), Str("testKey2"), Noop, None, High, n2 + DEFAULT_PRIORITY_TIMEOUT.Get(High))
  }

  /** The first push of the priority test, on a fresh registry. */
  method PushNormal(n1: int, coins1: seq<bool>) returns (list: TaskList)
    requires |coins1| == MAX_LEVEL - 1
    ensures list.Valid() && fresh(list.Repr) && list.Contents == NormalOnly(n1)
    ensures list.priorityTimeout == DEFAULT_PRIORITY_TIMEOUT
  {
    list := new TaskList();
    list.Put(Noop, Some(Str("testKey1")), Some(Normal), None, n1, coins1);
  }

  /** The two pushes of the priority test, on a fresh registry. */
  method PushNormalThenHigh(n1: int, n2: int, coins1: seq<bool>, coins2: seq<bool>) returns (list: TaskList)
    requires |coins1| == MAX_LEVEL - 1 && |coins2| == MAX_LEVEL - 1
    requires n1 <= n2 < n1 + DEFAULT_PRIORITY_TIMEOUT.Get(Normal) - DEFAULT_PRIORITY_TIMEOUT.Get(High)
    ensures list.Valid() && fresh(list.Repr) && list.Contents == NormalThenHigh(n1, n2)
  {
    list := PushNormal(n1, coins1);
    list.Put(Noop, Some(Str("testKey2")), Some(High), None, n2, coins2);
  }

  /**
   * A NORMAL task and then a HIGH one, pushed less than 750 ms apart: the
   * HIGH task is due first, and once it is shifted out the next deadline is
   * strictly later.
   */
  method PriorityOrder(n1: int, n2: int, coins1: seq<bool>, coins2: seq<bool>) returns (first: int, second: int)
    requires |coins1| == MAX_LEVEL - 1 && |coins2| == MAX_LEVEL - 1
    requires n1 <= n2 < n1 + DEFAULT_PRIORITY_TIMEOUT.Get(Normal) - DEFAULT_PRIORITY_TIMEOUT.Get(High)
    ensures first == n2 + DEFAULT_PRIORITY_TIMEOUT.Get(High)
    ensures second == n1 + DEFAULT_PRIORITY_TIMEOUT.Get(Normal)
    ensures first < second
  {
    var list := PushNormalThenHigh(n1, n2, coins1, coins2);
    first := list.GetFirstTimeOut();
    var _ := list.Shift();
    second := list.GetFirstTimeOut();
  }

  /** The first push of the priority test, on a fresh single-animation-frame scheduler. */
  method PushNormalToSingleFrame(n1: int, coins1: seq<bool>) returns (s: SingleAnimationFrameScheduler)
    requires |coins1| == MAX_LEVEL - 1
    ensures s.Valid() && fresh(s.Repr) && s.isWorking && s.taskList.Contents == NormalOnly(n1)
    ensures s.taskList.priorityTimeout == DEFAULT_PRIORITY_TIMEOUT
  {
    s := new SingleAnimationFrameScheduler();
    s.PushTask(Noop, Some(Str("testKey1")), Some(Normal), None, n1, coins1);
  }

  /** The two pushes of the priority test, on a fresh single-animation-frame scheduler. */
  method PushToSingleFrame(n1: int, n2: int, coins1: seq<bool>, coins2: seq<bool>) returns (s: SingleAnimationFrameScheduler)
    requires |coins1| == MAX_LEVEL - 1 && |coins2| == MAX_LEVEL - 1
    requires n1 <= n2 < n1 + DEFAULT_PRIORITY_TIMEOUT.Get(Normal) - DEFAULT_PRIORITY_TIMEOUT.Get(High)
    ensures s.Valid() && fresh(s.Repr) && s.isWorking && s.taskList.Contents == NormalThenHigh(n1, n2)
  {
    ghost var q := NormalThenHigh(n1, n2);
    s := PushNormalToSingleFrame(n1, coins1);
    s.PushTask(Noop, Some(Str("testKey2")), Some(High), None, n2, coins2);
  }

  /**
   * The priority test through a scheduler: a NORMAL task and then a HIGH
   * one pushed less than 750 ms apart to a fresh single-animation-frame
   * scheduler. The first frame runs the HIGH task, the NORMAL one is still
   * pending, and the scheduler keeps working.
   */
  method SingleFramePriority(n1: int, n2: int, coins1: seq<bool>, coins2: seq<bool>)
    returns (highPending: bool, normalPending: bool, working: bool)
    requires |coins1| == MAX_LEVEL - 1 && |coins2| == MAX_LEVEL - 1
    requires n1 <= n2 < n1 + DEFAULT_PRIORITY_TIMEOUT.Get(Normal) - DEFAULT_PRIORITY_TIMEOUT.Get(High)
    ensures !highPending && normalPending && working
  {
    var s := PushToSingleFrame(n1, n2, coins1, coins2);
    ghost var q := s.taskList.Contents;
    var _ := s.WorkLoop();
    assert s.taskList.Contents == [q[1]];
    assert Ordering.Keys(s.taskList.Contents) == {Str("testKey1")};
    s.taskList.QueueShape();
    highPending := Str("testKey2") in s.taskList.index;
    normalPending := Str("testKey1") in s.taskList.index;
    working := s.isWorking;
  }
}
