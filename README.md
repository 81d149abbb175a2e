# web-scheduler task registry and schedulers, in Dafny

This project models the core of web-scheduler, a browser task scheduler.

**The task list** (`lib/taskList.ts`) is a registry of pending tasks:
- a key map over a doubly linked skip list of 16 levels, between a head and a tail sentinel;
- ordered by deadline, where the deadline is the push time plus the priority's offset.

`put` adds a task, or updates the pending task with the same key:
- it replaces the action and appends the callback;
- when the new deadline is earlier, it moves the task forward.

`shift` takes out the task due first.

**The four schedulers** (`src/*Scheduler.ts`) each own a task list. Each one:
- starts working on the first push;
- drains the list in host callbacks;
- stops when the list is empty.

They differ in how much each callback drains:
- animation-frame and immediate: a time budget, and past it only tasks already due;
- idle-frame: the host's idle time, and past it only tasks already due;
- single-animation-frame: one task per frame.

**How the model is organised.**
- The list stays a heap structure: `Node` and `Task` objects whose link slots are updated one at a time, as the source does.
- The `TaskList` class carries a ghost view `Contents`: the queue of `Ordering.Entry` values, in the order they will be popped.
- Every list operation is proved against pure functions on that queue (`Ordering.Put`, removal of the first entry).
- The properties are proved about those functions:
  - sorted by deadline;
  - one entry per key;
  - first-in first-out for equal deadlines;
  - promotion behaves as a fresh insertion;
  - a later deadline never moves a task.
- The host is modelled as follows:
  - the clock (`performance.now()`) and the idle budget (`timeRemaining()`) are oracles `nat -> int`, indexed by how many reads were made;
  - `Math.random` is a sequence of coin flips;
  - user closures are `Action` identities, and running a task yields the trace of closures it invokes.
- A work-loop slice is specified by the pure functions `Drains.FrameSlice` and `Drains.IdleSlice`.

Modules:
- `Constants`, `Utils`, `Tasks`, `Nodes`: data.
- `Ordering`: the queue specification.
- `Levels`: the levels of a skip list as filters of its bottom level.
- `SkipLists`: the link surgery, one level at a time.
- `TaskLists`: the registry class.
- `Drains` and `WorkLoops`: the slices.
- `Scenarios`: the behaviours the test file checks.
- One module per scheduler.

## Model

| member | source | states |
|---|---|---|
| Constants.Override | lib/taskList.ts:47-49 | the spread `{...table, ...params}`: HIGH, NORMAL and LOW are replaced exactly when given; IMMEDIATE and IDLE always stay |
| Constants.OverridesKeepFixed | utils/task.ts:30 | no series of overrides can change the IMMEDIATE or IDLE offset |
| Constants.ImmediateStaysOverdue | utils/task.ts:16-22 | whatever overrides were applied, an IMMEDIATE task is due 1 ms before its push and IDLE keeps offset 1073741823 |
| Constants.DefaultsOrdered | utils/task.ts:16-22 | the default offsets grow strictly from IMMEDIATE (negative) through HIGH, NORMAL and LOW to IDLE; 16 levels; the sentinel keys differ |
| Utils.CallbackList | lib/task.ts:30 | a callback argument contributes exactly itself when it is a function, and nothing otherwise |
| Tasks.Task.constructor | lib/task.ts:21-33 | the task keeps its key and action, holds the callback only when one is given, and defaults priority to IDLE and deadline to the IDLE offset |
| Tasks.Task.SetTimeout | lib/task.ts:54-56 | the deadline becomes the value given and the getter returns it |
| Tasks.Task.SetVal | lib/task.ts:69-71 | the action is replaced |
| Tasks.Task.AddCallback | lib/task.ts:77-79 | the callback is appended after the earlier ones, which are unchanged |
| Tasks.Task.Run | lib/task.ts:84-87 | running invokes the action first and then every callback in insertion order |
| Nodes.NoLinks | lib/node.ts:17-18 | a row of 16 empty link slots |
| Nodes.Node.constructor | lib/node.ts:16-19 | a new node wraps its task and is linked nowhere on any level |
| Nodes.Node.SetNext | lib/node.ts:49-51 | exactly one successor slot changes; all other slots, and every predecessor, stay |
| Nodes.Node.SetPre | lib/node.ts:66-68 | exactly one predecessor slot changes; all other slots, and every successor, stay |
| Ordering.LeadingLE | lib/taskList.ts:221 | the insertion point of a deadline: every entry before it is due no later, the entry at it is due later |
| Ordering.InsertPlacement | lib/taskList.ts:212-233 | insertion into a sorted queue places the entry after all entries due no later and before all entries due later, and the result is sorted |
| Ordering.EqualDeadlinesFifo | lib/taskList.ts:212 | two tasks inserted with the same deadline are popped in insertion order |
| Ordering.InsertInvariant | lib/taskList.ts:203-236 | inserting a new key keeps the queue sorted with unique keys and adds exactly that key |
| Ordering.KeysRemove | lib/taskList.ts:114-115 | removing an entry removes exactly its key and keeps keys unique |
| Ordering.KeysCount | lib/taskList.ts:12 | with unique keys the queue has as many keys as entries |
| Ordering.WithoutRemoveAt | lib/taskList.ts:166-175 | taking out the entry at a position equals removing its key, with the other entries in order |
| Ordering.PutInvariant | lib/taskList.ts:126-237 | `put` keeps the queue sorted and its keys unique; afterwards the keys are the old keys plus the key put |
| Ordering.PromoteInvariant | lib/taskList.ts:148-201 | re-inserting an entry under the same key keeps the queue sorted with the same keys |
| Ordering.PromoteIsFreshInsert | lib/taskList.ts:148-201 | a promotion gives exactly the queue without the key, with the merged entry inserted at the new deadline as a new task would be |
| Ordering.PutKeepsPlace | lib/taskList.ts:142-148 | a put on a pending key with a deadline no earlier changes only that entry's action and callbacks, in place, and keeps its deadline and priority |
| Ordering.HighOvertakesNormal | tests/taskList.test.ts:61-70 | with default offsets, a HIGH task pushed less than 750 ms after a NORMAL one is first, and the NORMAL one second |
| Ordering.Put | lib/taskList.ts:126-237 | a new key adds exactly one entry; a pending key is updated or moved, never duplicated, so the length stays |
| Ordering.PutKeyPresent | tests/taskList.test.ts:42-49 | after `put`, its key is pending, whatever was pending before |
| Levels.AboveInsert | lib/taskList.ts:214-233 | a node of height v inserted into the bottom level appears on exactly levels 0..v-1, at the same relative place |
| Levels.AboveEmpty | lib/taskList.ts:54-56 | a level is empty exactly when no node reaches it |
| SkipLists.LinkBetween | lib/taskList.ts:229-232 | the four slot writes link the node between its neighbours on one level; every other level stays linked |
| SkipLists.UnlinkBetween | lib/taskList.ts:173-174 | the two slot writes unlink a node on one level; every other level stays linked |
| SkipLists.WalkForward | lib/taskList.ts:221-227 | the forward walk stops exactly between the last node due no later than the deadline and the first due later |
| SkipLists.InsertLevel | lib/taskList.ts:214-233 | one level of the new-key insertion: it finds the neighbours and links the node in, extending the partly linked list by one level |
| SkipLists.InsertNode | lib/taskList.ts:213-233 | the insertion loop leaves the list wired as a skip list with the new node at its deadline's place, on exactly its levels |
| SkipLists.FindTop | lib/taskList.ts:153-164 | the walk down from `maxLevel` stops at the height of the node, with its top-level successor; the error branch is unreachable |
| SkipLists.RemoveLevels | lib/taskList.ts:166-175 | the unlink loop of a promotion removes the node from every level it is on; the error branch is unreachable |
| SkipLists.WalkBackward | lib/taskList.ts:184-195 | the backward walk stops exactly between the last node due no later than the new deadline and the first due later |
| SkipLists.RelinkLevels | lib/taskList.ts:177-201 | the relink loop links the node back on every level it had, walking back from its old top-level successor |
| SkipLists.PromoteNode | lib/taskList.ts:152-201 | a promotion moves the node from its position to its new deadline's place, on the same levels, and leaves the list wired |
| SkipLists.ShiftLevel | lib/taskList.ts:103-109 | one level of `shift`: a level where the first node has no links is skipped, otherwise the node is unlinked there |
| SkipLists.LevelEmptyIff | lib/taskList.ts:54-56 | on a linked level, head points at tail exactly when no node is on the level |
| SkipLists.EmptyWired | lib/taskList.ts:24-30 | sentinels linked to each other on every level form a wired empty list with no level in use |
| TaskLists.LinkSentinels | lib/taskList.ts:26-29 | the constructor loop links head to tail and tail to head on all 16 levels |
| TaskLists.TaskList.constructor | lib/taskList.ts:12-30 | a new registry is valid and empty, uses no level, and has the default offsets |
| TaskLists.TaskList.GenerateLevel | lib/taskList.ts:35-41 | the height is 1 plus the number of heads among the 15 coin flips, so it lies in 1..16 |
| TaskLists.LevelsReachable | lib/taskList.ts:35-41 | every height from 1 to 16 can come out of some coin flips |
| TaskLists.TaskList.SetPriorityTimeout | lib/taskList.ts:47-49 | the offset table becomes the override of the old one, and the registry stays valid |
| TaskLists.TaskList.LevelEmpty | lib/taskList.ts:54-56 | a level is empty exactly when no node is on it, which holds exactly from `maxLevel` up |
| TaskLists.TaskList.IsEmpty | lib/taskList.ts:61-63 | the registry reports empty exactly when no task is pending |
| TaskLists.TaskList.QueueShape | lib/taskList.ts:10-20 | the pending tasks are sorted by deadline with one per key, and the key map holds exactly those keys |
| TaskLists.TaskList.Get | lib/taskList.ts:69-71 | a node is returned exactly when the key is pending, and it holds the task of that key |
| TaskLists.TaskList.Has | lib/taskList.ts:77-79 | true exactly when a task with the key is pending |
| TaskLists.TaskList.GetFirstTimeOut | lib/taskList.ts:84-89 | the IDLE offset when empty, otherwise the first deadline, which is the earliest; the error branch is unreachable |
| TaskLists.TaskList.Shift | lib/taskList.ts:94-117 | nothing when empty (nothing changes); otherwise returns the first task, the queue loses exactly its first entry, and the key map loses exactly its key |
| TaskLists.TaskList.ShiftFirst | lib/taskList.ts:98-116 | on a non-empty registry, returns the first task and leaves the rest of the queue, valid |
| TaskLists.TaskList.UnlinkLevels | lib/taskList.ts:102-112 | the unlink loop takes the first node off every level it is on and lowers `maxLevel` once per level left empty |
| TaskLists.TaskList.Forget | lib/taskList.ts:114-115 | the shifted key leaves the map, and the registry is the rest of the list |
| TaskLists.TaskList.Put | lib/taskList.ts:126-237 | the queue becomes `Ordering.Put` of the old one, with the key given or a fresh symbol, NORMAL by default, and deadline now plus the offset; the registry stays valid |
| TaskLists.TaskList.KeyOf | lib/taskList.ts:126 | the key used is the one given or a fresh symbol never handed out before |
| TaskLists.TaskList.NewSymbol | lib/taskList.ts:126 | a fresh default symbol differs from every pending key |
| TaskLists.TaskList.PutNew | lib/taskList.ts:203-236 | a new key is inserted after every task due no later, and `maxLevel` rises to the node's height if that is larger |
| TaskLists.TaskList.Insert | lib/taskList.ts:209-235 | linking in a new node adds its entry at its deadline's place and its key to the map |
| TaskLists.TaskList.LinkNew | lib/taskList.ts:213-235 | the new node is wired in at its place on its levels, and `maxLevel` becomes the larger of the two |
| TaskLists.TaskList.PutExisting | lib/taskList.ts:133-202 | for a pending key the queue becomes `Ordering.Put`; the key map, the heights and `maxLevel` stay |
| TaskLists.TaskList.Merge | lib/taskList.ts:137-145 | the pending task's action is replaced and the callback appended; its deadline stays |
| TaskLists.TaskList.Promote | lib/taskList.ts:148-201 | with an earlier deadline the entry is taken out and re-inserted at the new deadline, and the key map, heights and `maxLevel` stay |
| TaskLists.TaskList.Retime | lib/taskList.ts:150 | only the task's deadline changes, and the other tasks split around the new deadline at the insertion point |
| TaskLists.PutKey | lib/taskList.ts:126 | the key defaults to a fresh symbol |
| TaskLists.PutPriority | lib/taskList.ts:126 | the priority defaults to NORMAL |
| TaskLists.IndexedKeys | lib/taskList.ts:12 | the map's keys are exactly the queue's keys, with no key twice |
| Drains.RunOf | lib/task.ts:84-87 | running a task invokes its action first and then its callbacks, in order, and nothing else |
| Drains.Runs | lib/task.ts:84-87 | running a batch invokes at least one closure per task |
| Drains.FrameSlice | src/animationFrameScheduler.ts:30-42 | a frame slice (also the immediate scheduler's, src/immediateScheduler.ts:30-42) pops at most the tasks present and never takes back a clock read |
| Drains.IdleSlice | src/idleFrameScheduler.ts:26-38 | an idle slice pops at most the tasks present and never takes back a budget or clock read |
| Drains.RunsAppend | lib/task.ts:84-87 | running two batches one after another invokes their closures one after another |
| Drains.FrameSliceStops | src/animationFrameScheduler.ts:30-42 | a slice that leaves tasks behind stopped because the budget was spent and the first remaining task was not due |
| Drains.FrameSliceRunsOverdue | src/animationFrameScheduler.ts:34-35 | with a clock that does not go backwards, every task due at the first reading is run, whatever the budget |
| Drains.FrameSliceWithinBudget | src/animationFrameScheduler.ts:30-42 | while within budget, only an empty list stops a slice |
| Drains.IdleSliceStops | src/idleFrameScheduler.ts:26-38 | an idle slice that leaves tasks behind stopped because no idle time was left and the first remaining task was not due |
| Drains.IdleSliceRunsOverdue | src/idleFrameScheduler.ts:30-31 | every task due at the first clock reading is run, whatever the idle time |
| Drains.IdleSliceWithinBudget | src/idleFrameScheduler.ts:26-38 | while idle time remains, only an empty list stops an idle slice |
| Drains.LeadingLEMonotone | src/animationFrameScheduler.ts:34-35 | a later clock reading finds at least as many tasks due |
| WorkLoops.PopAndRun | src/animationFrameScheduler.ts:39-41 | the first task is shifted and its action and callbacks run; the offset table and the symbol counter stay |
| WorkLoops.FrameOverrun | src/animationFrameScheduler.ts:34-35 | stop exactly when more than the budget has elapsed and the first deadline is after the second reading; one or two clock reads |
| WorkLoops.FrameDrain | src/animationFrameScheduler.ts:30-42 | the loop pops and runs exactly the tasks `FrameSlice` says, in queue order, with exactly its clock reads; the offset table and the symbol counter stay |
| WorkLoops.IdleOverrun | src/idleFrameScheduler.ts:30-31 | stop exactly when no idle time remains and the first deadline is after the clock reading |
| WorkLoops.IdleDrain | src/idleFrameScheduler.ts:26-38 | the loop pops and runs exactly the tasks `IdleSlice` says, with exactly its budget and clock reads; the offset table and the symbol counter stay |
| Scenarios.PutThenShift | tests/taskList.test.ts:42-59 | a put key is pending and retrievable; shifting returns its task, and the key is no longer pending |
| Scenarios.NormalThenHigh | tests/taskList.test.ts:61-64 | a NORMAL put then a HIGH put less than 750 ms later queue HIGH first, each with its deadline |
| Scenarios.NormalOnly | tests/taskList.test.ts:61-63 | a NORMAL put on an empty queue leaves exactly that task, due 1000 ms later |
| Scenarios.PushNormal | tests/taskList.test.ts:61-63 | the NORMAL put on a fresh registry leaves exactly the queue `NormalOnly`, with the default offsets |
| Scenarios.PushNormalThenHigh | tests/taskList.test.ts:61-64 | the two puts on a fresh registry leave exactly that queue, for every outcome of the coin flips |
| Scenarios.PriorityOrder | tests/taskList.test.ts:61-70 | the first deadline is the HIGH one; after a shift the next is the NORMAL one, which is strictly later |
| Scenarios.PushNormalToSingleFrame | src/singleAnimationFrameScheduler.ts:49-57 | a NORMAL push on a fresh single-animation-frame scheduler queues exactly that task and starts it working |
| Scenarios.PushToSingleFrame | tests/taskList.test.ts:61-64 | the two pushes of the priority test on a fresh scheduler queue the HIGH task first |
| Scenarios.SingleFramePriority | src/singleAnimationFrameScheduler.ts:25-40 | after those pushes, one frame serves the HIGH task: it is no longer pending, the NORMAL one still is, and the scheduler keeps working |
| AnimationFrameSchedulers.AnimationFrameScheduler.constructor | src/animationFrameScheduler.ts:10-13 | idle, empty registry, default offsets, 5 ms budget |
| AnimationFrameSchedulers.AnimationFrameScheduler.SetConfig | src/animationFrameScheduler.ts:20-23 | the offsets are overridden, and the budget becomes the one given, or 5 ms |
| AnimationFrameSchedulers.AnimationFrameScheduler.PushTask | src/animationFrameScheduler.ts:59-67 | the registry's queue becomes `Ordering.Put` of the old one; the offsets stay and the symbol counter advances only for a put without key; the scheduler is working, with a frame requested only when it was not working before |
| AnimationFrameSchedulers.AnimationFrameScheduler.WorkLoop | src/animationFrameScheduler.ts:29-50 | runs exactly the `FrameSlice` prefix; afterwards working exactly when tasks remain, with the next frame requested then; offsets and symbol counter stay |
| ImmediateSchedulers.ImmediateScheduler.constructor | src/immediateScheduler.ts:10-13 | idle, empty registry, default offsets, 5 ms budget |
| ImmediateSchedulers.ImmediateScheduler.SetConfig | src/immediateScheduler.ts:20-23 | the offsets are overridden, and the budget changes only for a positive one |
| ImmediateSchedulers.ImmediateScheduler.PushTask | src/immediateScheduler.ts:59-67 | as `put`, with the offsets kept and the symbol counter advanced only for a put without key; when not working, starts working with one macrotask bound to a fresh clock reading |
| ImmediateSchedulers.ImmediateScheduler.WorkLoop | src/immediateScheduler.ts:29-50 | runs exactly the `FrameSlice` prefix from its bound start time; when tasks remain, requests the next macrotask bound to one more clock reading; offsets and symbol counter stay |
| IdleFrameSchedulers.IdleFrameScheduler.constructor | src/idleFrameScheduler.ts:10-11 | idle, empty registry, default offsets |
| IdleFrameSchedulers.IdleFrameScheduler.SetConfig | src/idleFrameScheduler.ts:17-19 | only the offsets change |
| IdleFrameSchedulers.IdleFrameScheduler.PushTask | src/idleFrameScheduler.ts:55-63 | as `put`, with the offsets kept and the symbol counter advanced only for a put without key; an idle callback is requested only when the scheduler was not working |
| IdleFrameSchedulers.IdleFrameScheduler.WorkLoop | src/idleFrameScheduler.ts:25-46 | runs exactly the `IdleSlice` prefix; afterwards working exactly when tasks remain; offsets and symbol counter stay |
| SingleAnimationFrameSchedulers.SingleAnimationFrameScheduler.constructor | src/singleAnimationFrameScheduler.ts:10-11 | idle, empty registry, default offsets |
| SingleAnimationFrameSchedulers.SingleAnimationFrameScheduler.SetConfig | src/singleAnimationFrameScheduler.ts:17-19 | only the offsets change |
| SingleAnimationFrameSchedulers.SingleAnimationFrameScheduler.PushTask | src/singleAnimationFrameScheduler.ts:49-57 | as `put`, with the offsets kept and the symbol counter advanced only for a put without key; a frame is requested only when the scheduler was not working |
| SingleAnimationFrameSchedulers.SingleAnimationFrameScheduler.WorkLoop | src/singleAnimationFrameScheduler.ts:25-40 | runs exactly the first task; afterwards working exactly when tasks remain; offsets and symbol counter stay |

## Left out

- The browser host is not modelled as such:
  - `performance.now()` and `IdleDeadline.timeRemaining()` are oracle parameters indexed by read count.
  - `requestAnimationFrame`, `requestIdleCallback` and `setImmediatePolyfill` are modelled by ghost counters of outstanding callbacks. The immediate scheduler uses the bound start times instead.
  - Callbacks are delivered by the caller invoking `WorkLoop`.
- Deadlines and offsets are `int`, not floating point. Fractional timestamps and NaN/Infinity offsets are outside the model.
- An override passed explicitly as `undefined` (`utils/task.ts:30`, merged by the spread at `lib/taskList.ts:48`) is treated as absent. In the source it replaces the offset, and later deadlines of that priority become NaN. `PriorityTimeoutParams` holds an `Option` per priority, so the model cannot express it.
- `Math.random() > 0.5` becomes a coin-flip parameter `coins`. The distribution of heights is not modelled, only which heights can occur.
- Closures are `Action` identities. Running a task returns the trace of closures it invokes, not their effects. A closure that throws, or that pushes tasks re-entrantly during a drain, is not modelled.
- `Symbol('default')` becomes `Key.Default(serial)`, with serials handed out by a counter.
  - `TaskList.Put` requires that a `Default` key passed in explicitly was handed out before. A caller cannot forge a fresh symbol.
  - Symbols the caller creates itself are `Key.Sym`.
- `this.workLoop` is passed unbound in `src/animationFrameScheduler.ts:48` and `:65`. The model runs the loop on the scheduler, as the other three schedulers do through `bind`.
- `calculateAverageFrameDuration` and the initial `setConfig` it triggers (`src/immediateScheduler.ts:75-77`) are left out. `utils/scheduler.ts` and `setImmediatePolyfill` are not part of this model.
- `console.error` and the `throw` branches for a corrupt list are not modelled as behaviour. They are proved unreachable under the class invariant, as a literal `assert false`.
- A node's `next` and `pre` arrays are `seq` fields of fixed length 16, reassigned slot by slot. Array aliasing between nodes cannot occur in the source either.
- `map.set` happens before the links in `put`. The model updates the key map after linking. Nothing can observe the order, since the code between them is proved not to throw.
- SingleAnimationFrameSchedulers.SingleAnimationFrameScheduler.WorkLoop: the source's branch for a frame that finds an empty list is unreachable under the invariant (a frame is requested only while tasks are pending). The contract therefore states that a task is always run.
- Drains.Runs: its own contract gives only a length bound. What it runs is fixed by its definition through `RunOf`, and `RunsAppend` shows that batches compose in order.
- Tasks.Task.Run: the trace says which closures run and in what order, not what they do.
- AnimationFrameSchedulers.AnimationFrameScheduler.PushTask, and the other three `PushTask` methods: the host request is counted, not performed.
