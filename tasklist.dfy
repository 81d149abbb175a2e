/**
 * The task registry (lib/taskList.ts): a key index over a doubly linked skip
 * list ordered by deadline. The ghost view `Contents` is the queue of
 * module Ordering; every operation is proved against it.
 */
module TaskLists {
  import opened Utils
  import opened Constants
  import opened Tasks
  import opened Nodes
  import opened Levels
  import opened SkipLists
  import Ordering

  /** What the registry records of a task. */
  ghost function EntryOf(t: Task): Ordering.Entry
    reads t
  {
    Ordering.Entry(t.key, t.timeout, t.val, t.callbackList, t.priority)
  }

  /**
   * The key index holds exactly the nodes of the list, each under the key
   * of its task.
   */
  ghost predicate Indexed(index: map<Key, Node>, nodes: seq<Node>)
  {
    (forall k :: k in index ==> index[k] in nodes && index[k].task.key == k)
    && (forall n :: n in nodes ==> n.task.key in index && index[n.task.key] == n)
  }

  /** The queue `q` is what the tasks of `nodes` hold, in list order. */
  ghost predicate Abstracts(nodes: seq<Node>, q: seq<Ordering.Entry>)
    reads set n | n in nodes :: n.task
  {
    |q| == |nodes| && forall m :: 0 <= m < |nodes| ==> q[m] == EntryOf(nodes[m].task)
  }

  /**
   * An index over a duplicate-free list: the keys of the queue are the keys
   * of the index, no key occurs twice, and no two nodes share a task.
   */
  lemma IndexedKeys(index: map<Key, Node>, nodes: seq<Node>, q: seq<Ordering.Entry>)
    requires Indexed(index, nodes) && Abstracts(nodes, q) && Distinct(nodes)
    ensures Ordering.Keys(q) == index.Keys && Ordering.KeysDistinct(q)
    ensures forall i, j :: 0 <= i < j < |nodes| ==> nodes[i].task != nodes[j].task
  {
    forall k | k in Ordering.Keys(q)
      ensures k in index
    {
      var m :| 0 <= m < |q| && q[m].key == k;
      assert nodes[m] in nodes;
    }
    forall k | k in index
      ensures k in Ordering.Keys(q)
    {
      var m :| 0 <= m < |nodes| && nodes[m] == index[k];
      assert q[m] in q;
    }
    forall i, j | 0 <= i < j < |nodes|
      ensures nodes[i].task.key != nodes[j].task.key
    {
      assert nodes[i] in nodes && nodes[j] in nodes;
    }
  }

  /** An index over a duplicate-free list has one key per node. */
  lemma IndexSize(index: map<Key, Node>, nodes: seq<Node>, q: seq<Ordering.Entry>)
    requires Indexed(index, nodes) && Abstracts(nodes, q) && Distinct(nodes)
    ensures |index| == |q|
  {
    IndexedKeys(index, nodes, q);
    Ordering.KeysCount(q);
    assert |index| == |index.Keys|;
  }

  /** The node the index holds for `key` is the one at the place of `key` in the queue. */
  lemma IndexedAt(index: map<Key, Node>, nodes: seq<Node>, q: seq<Ordering.Entry>, key: Key)
    requires Indexed(index, nodes) && Abstracts(nodes, q) && Distinct(nodes) && key in index
    ensures key in Ordering.Keys(q) && nodes[Ordering.IndexOfKey(q, key)] == index[key]
  {
    IndexedKeys(index, nodes, q);
    var p := Ordering.IndexOfKey(q, key);
    assert nodes[p].task.key == key;
  }

  /** Links two fresh sentinels to each other on every level, from the bottom up. */
  method LinkSentinels(head: Node, tail: Node)
    requires head != tail
    modifies head, tail
    ensures forall l :: 0 <= l < MAX_LEVEL ==> head.next[l] == tail && tail.pre[l] == head
  {
    for i := 0 to MAX_LEVEL
      invariant forall l :: 0 <= l < i ==> head.next[l] == tail && tail.pre[l] == head
    {
      head.SetNext(i, tail);
      tail.SetPre(i, head);
    }
  }

  /** Number of coin flips that came up heads. */
  function Heads(coins: seq<bool>): (n: nat)
    ensures n <= |coins|
  {
    if coins == [] then 0 else Heads(coins[..|coins| - 1]) + (if coins[|coins| - 1] then 1 else 0)
  }

  /** `n` heads followed only by tails count `n`. */
  lemma {:induction false} HeadsPrefix(n: nat, len: nat)
    requires n <= len
    ensures Heads(seq(len, i => i < n)) == n
  {
    if len > 0 {
      var coins := seq(len, i => i < n);
      assert coins[..len - 1] == seq(len - 1, i => i < n);
      if n < len {
        HeadsPrefix(n, len - 1);
      } else {
        HeadsPrefix(n - 1, len - 1);
        assert seq(len - 1, i => i < n) == seq(len - 1, i => i < n - 1);
      }
    }
  }

  /** Every height from 1 to MAX_LEVEL can come out of the coin flips. */
  lemma LevelsReachable(level: nat)
    requires 1 <= level <= MAX_LEVEL
    ensures exists coins :: |coins| == MAX_LEVEL - 1 && 1 + Heads(coins) == level
  {
    var coins := seq(MAX_LEVEL - 1, i => i < level - 1);
    HeadsPrefix(level - 1, MAX_LEVEL - 1);
    assert |coins| == MAX_LEVEL - 1 && 1 + Heads(coins) == level;
  }

  /**
   * The registry. `index` is the key map, `head` and `tail` the sentinels,
   * `maxLevel` the number of non-empty levels. `nextSymbol` numbers the
   * fresh symbols handed out as default keys. The ghost `nodes` is the
   * bottom level, `height` the number of levels of every node.
   */
  class TaskList {
    var index: map<Key, Node>
    var maxLevel: nat
    const head: Node
    const tail: Node
    var priorityTimeout: TimeoutTable
    var nextSymbol: nat

    ghost var Contents: seq<Ordering.Entry>
    ghost var nodes: seq<Node>
    ghost var height: map<Node, nat>
    ghost var Repr: set<object>

    /** The registry owns its sentinels, its nodes and their tasks. */
    ghost predicate Owns()
      reads this`Repr, this`nodes
    {
      this in Repr && head in Repr && tail in Repr
      && forall n :: n in nodes ==> n in Repr && n.task in Repr
    }

    /**
     * The bookkeeping around the links: the nodes are distinct and apart from
     * the sentinels, the index holds exactly them, their tasks make up the
     * queue `Contents`, which is sorted, and every default key was handed out.
     */
    ghost predicate Registered()
      reads this`nodes, this`index, this`Contents, this`nextSymbol, set n | n in nodes :: n.task
    {
      && Apart(head, tail, nodes) && Distinct(nodes)
      && Indexed(index, nodes) && Abstracts(nodes, Contents) && Ordering.Sorted(Contents)
      && (forall k :: k in index && k.Default? ==> k.serial < nextSymbol)
    }

    /** The class invariant: a wired, counted, indexed skip list sorted by deadline. */
    ghost predicate Valid()
      reads this, Repr
    {
      Owns() && Registered() && Wired(head, tail, nodes, height) && LevelsOK(nodes, height, maxLevel)
    }

    /**
     * An empty registry: every level of `head` points at `tail` and back,
     * no level is in use, the index is empty and the default offsets apply.
     */
    constructor ()
      ensures Valid() && fresh(Repr)
      ensures Contents == [] && index == map[] && maxLevel == 0 && priorityTimeout == DEFAULT_PRIORITY_TIMEOUT
      ensures forall i :: 0 <= i < MAX_LEVEL ==> head.next[i] == tail && tail.pre[i] == head
    {
      index := map[];
      maxLevel := 0;
      var headTask := new Task(Head, Noop, None, None, None);
      var tailTask := new Task(Tail, Noop, None, None, None);
      var h := new Node(headTask);
      var t := new Node(tailTask);
      LinkSentinels(h, t);
      head, tail := h, t;
      priorityTimeout := DEFAULT_PRIORITY_TIMEOUT;
      nextSymbol := 0;
      Contents, nodes, height := [], [], map[];
      Repr := {h, t};
      new;
      Repr := Repr + {this};
      EmptyWired(head, tail);
    }

    /** The height of a new node: one, plus one for each of `MAX_LEVEL - 1` coin flips that comes up heads. */
    static method GenerateLevel(coins: seq<bool>) returns (level: nat)
      requires |coins| == MAX_LEVEL - 1
      ensures level == 1 + Heads(coins)
      ensures 1 <= level <= MAX_LEVEL
    {
      level := 1;
      for i := 1 to MAX_LEVEL
        invariant level == 1 + Heads(coins[..i - 1])
      {
        assert coins[..i][..i - 1] == coins[..i - 1];
        if coins[i - 1] {
          level := level + 1;
        }
      }
      assert coins[..MAX_LEVEL - 1] == coins;
    }

    /** Overrides the offsets given in `params`; the others, IMMEDIATE and IDLE among them, stay. */
    method SetPriorityTimeout(params: PriorityTimeoutParams)
      requires Valid()
      modifies this`priorityTimeout
      ensures Valid() && priorityTimeout == Override(old(priorityTimeout), params)
    {
      priorityTimeout := Override(priorityTimeout, params);
    }

    /** Whether `head` points straight at `tail` on `level`. */
    function IsLevelEmpty(level: int): bool
      reads this, head
    {
      head.GetNext(level) == tail
    }

    /** A level is empty exactly when no node is on it, that is, exactly from `maxLevel` up. */
    lemma LevelEmpty(l: nat)
      requires Valid() && l < MAX_LEVEL
      ensures IsLevelEmpty(l) <==> Above(nodes, height, l) == []
      ensures IsLevelEmpty(l) <==> maxLevel <= l
    {
      assert Linked(l, Chain(head, tail, nodes, height, l));
      LevelEmptyIff(head, tail, nodes, height, l);
    }

    /** The bottom level is `nodes`, and its first node follows `head`. */
    lemma Bottom()
      requires Valid()
      ensures Above(nodes, height, 0) == nodes
      ensures nodes != [] ==> head.GetNext(0) == nodes[0]
    {
      AboveAll(nodes, height, 0);
      assert Linked(0, Chain(head, tail, nodes, height, 0));
      if nodes != [] {
        assert Chain(head, tail, nodes, height, 0)[1] == nodes[0];
      }
    }

    /** The registry is empty when its bottom level is. */
    function IsEmpty(): (r: bool)
      requires Valid()
      reads this, Repr
      ensures r <==> Contents == []
    {
      LevelEmpty(0);
      Bottom();
      IsLevelEmpty(0)
    }

    /**
     * What the registry is, seen from outside: a queue sorted by deadline
     * with one entry per key, and the index holds exactly those keys.
     */
    lemma QueueShape()
      requires Valid()
      ensures Ordering.Sorted(Contents) && Ordering.KeysDistinct(Contents)
      ensures Ordering.Keys(Contents) == index.Keys && |index| == |Contents|
    {
      IndexedKeys(index, nodes, Contents);
      IndexSize(index, nodes, Contents);
    }

    /** The node of `key`, if one is pending. */
    function Get(key: Key): (r: Option<Node>)
      requires Valid()
      reads this, Repr
      ensures r.Some? <==> key in Ordering.Keys(Contents)
      ensures r.Some? ==> r.value in nodes && r.value.task.key == key
    {
      IndexedKeys(index, nodes, Contents);
      if key in index then Some(index[key]) else None
    }

    /** Whether a task with `key` is pending. */
    function Has(key: Key): (r: bool)
      requires Valid()
      reads this, Repr
      ensures r <==> key in Ordering.Keys(Contents)
    {
      IndexedKeys(index, nodes, Contents);
      key in index
    }

    /**
     * The deadline of the first task, which is the earliest; the IDLE offset
     * when there is none.
     */
    method GetFirstTimeOut() returns (t: int)
      requires Valid()
      ensures Contents == [] ==> t == DEFAULT_PRIORITY_TIMEOUT.Get(Idle)
      ensures Contents != [] ==> t == Contents[0].timeout
      ensures forall m :: 0 <= m < |Contents| ==> t <= Contents[m].timeout
    {
      if IsEmpty() {
        return DEFAULT_PRIORITY_TIMEOUT.Get(Idle);
      }
      Bottom();
      var first := head.GetNext(0);
      if first == null {
        assert false;
      }
      t := first.GetTask().GetTimeout();
      assert t == Contents[0].timeout;
    }

    /**
     * Removes and returns the first task, the one due earliest. Its node is
     * unlinked from every level it is on, and its key leaves the index. An
     * empty registry returns nothing and stays as it is.
     */
    method Shift() returns (r: Option<Task>)
      requires Valid()
      modifies Repr
      ensures Valid() && Repr == old(Repr)
      ensures old(Contents) == [] ==> r == None && unchanged(Repr)
      ensures old(Contents) != [] ==> r.Some? && EntryOf(r.value) == old(Contents)[0] && Contents == old(Contents)[1..]
      ensures old(Contents) != [] ==> index == old(index) - {old(Contents)[0].key}
      ensures priorityTimeout == old(priorityTimeout) && nextSymbol == old(nextSymbol)
    {
      if IsEmpty() {
        return None;
      }
      var currentTask := ShiftFirst();
      r := Some(currentTask);
    }

    /**
     * `shift` on a non-empty registry: unlinks the first node from every
     * level it is on, drops its key from the index, and returns its task.
     */
    method ShiftFirst() returns (currentTask: Task)
      requires Valid() && Contents != []
      modifies Repr
      ensures Valid() && Repr == old(Repr)
      ensures EntryOf(currentTask) == old(Contents)[0] && Contents == old(Contents)[1..]
      ensures index == old(index) - {old(Contents)[0].key}
      ensures priorityTimeout == old(priorityTimeout) && nextSymbol == old(nextSymbol)
    {
      Bottom();
      var currentNode := head.GetNext(0);
      if currentNode == null {
        assert false;
      }
      ghost var B := nodes[1..];
      UnlinkFirst(B, currentNode);
      currentTask := currentNode.GetTask();
      Forget(currentTask.GetKey(), B);
    }

    /**
     * Takes the first node `node` out of every level of the list: what is
     * left is the rest `B`, wired and counted.
     */
    method UnlinkFirst(ghost B: seq<Node>, node: Node)
      requires Apart(head, tail, nodes) && Distinct(nodes)
      requires Wired(head, tail, nodes, height) && LevelsOK(nodes, height, maxLevel)
      requires nodes != [] && node == nodes[0] && B == nodes[1..]
      modifies this`maxLevel, {head, tail} + set n | n in B
      ensures Wired(head, tail, B, height) && LevelsOK(B, height, maxLevel)
    {
      ShiftStart(head, tail, nodes, height, maxLevel);
      UnlinkLevels(B, node);
      ShiftEnd(head, tail, B, height, node, maxLevel);
    }

    /**
     * The unlink loop of `shift`: from `maxLevel - 1` down, skip the levels
     * the first node `node` is not on, unlink it from the others, and lower
     * `maxLevel` by one for each level this leaves empty.
     */
    method UnlinkLevels(ghost B: seq<Node>, node: Node)
      requires Split(head, tail, [], B, node) && LevelsOK([node] + B, height, maxLevel)
      requires Shifting(head, tail, B, height, node, maxLevel - 1, maxLevel)
      modifies this`maxLevel, {head, tail} + set n | n in B
      ensures Shifting(head, tail, B, height, node, -1, maxLevel)
    {
      ghost var h := height;
      var i: int := maxLevel - 1;
      while i >= 0
        invariant i < old(maxLevel) && Shifting(head, tail, B, h, node, i, maxLevel)
      {
        var below := i - 1;
        UnlinkFirstLevel(B, h, node, i, below, old(maxLevel));
        i := below;
      }
    }

    /**
     * One level `i` of the unlink loop of `shift`: unlink the first node
     * `node` there if it is on the level, and if that leaves the level
     * empty, lower `maxLevel` by one.
     */
    method UnlinkFirstLevel(ghost B: seq<Node>, ghost h: map<Node, nat>, node: Node, i: nat, ghost below: int, ghost m0: nat)
      requires Split(head, tail, [], B, node) && LevelsOK([node] + B, h, m0) && i < m0 && below == i - 1
      requires Shifting(head, tail, B, h, node, i, maxLevel)
      modifies this`maxLevel, {head, tail} + set n | n in B
      ensures Shifting(head, tail, B, h, node, below, maxLevel)
    {
      var linked := ShiftLevel(head, tail, B, h, node, i);
      ShiftCount(head, tail, B, h, node, i, maxLevel, m0, linked);
      if linked && IsLevelEmpty(i) {
        maxLevel := maxLevel - 1;
      }
    }

    /**
     * The last step of `shift`: the first node's key leaves the index, and
     * the rest `B`, already unlinked from it, is the list.
     */
    method Forget(key: Key, ghost B: seq<Node>)
      requires Owns() && Registered() && nodes != [] && B == nodes[1..] && key == nodes[0].task.key
      requires Wired(head, tail, B, height) && LevelsOK(B, height, maxLevel)
      modifies this`index, this`nodes, this`Contents
      ensures Valid() && index == old(index) - {key} && nodes == B && Contents == old(Contents)[1..]
    {
      ShiftKeep(index, nodes, Contents);
      index := index - {key};
      nodes := B;
      Contents := Contents[1..];
    }

    /**
     * Adds a task, or updates the pending task with the same key. The key
     * defaults to a fresh symbol, the priority to NORMAL; the deadline is
     * `now` plus the offset of the priority. For an existing key the action
     * is replaced, the callback appended, and the task moves forward when
     * the new deadline is earlier. `coins` are the coin flips that give a
     * new node its height.
     */
    method Put(val: Action, key: Option<Key>, priority: Option<Priority>, callback: Option<Action>, now: int, coins: seq<bool>)
      requires Valid() && |coins| == MAX_LEVEL - 1
      requires key.Some? && key.value.Default? ==> key.value.serial < nextSymbol
      modifies Repr
      ensures Valid() && fresh(Repr - old(Repr))
      ensures Contents == Ordering.Put(old(Contents), PutKey(key, old(nextSymbol)), val, callback, PutPriority(priority),
                                       now + old(priorityTimeout).Get(PutPriority(priority)))
      ensures nextSymbol == if key.None? then old(nextSymbol) + 1 else old(nextSymbol)
      ensures priorityTimeout == old(priorityTimeout)
    {
      var k := KeyOf(key);
      var p := PutPriority(priority);
      var timeout := now + priorityTimeout.Get(p);
      ghost var target := Ordering.Put(Contents, k, val, callback, p, timeout);
      assert target == Ordering.Put(old(Contents), PutKey(key, old(nextSymbol)), val, callback, PutPriority(priority),
                                    now + old(priorityTimeout).Get(PutPriority(priority)));
      if Has(k) {
        PutExisting(k, val, callback, p, timeout);
      } else {
        PutNew(k, val, callback, p, timeout, coins);
      }
      assert Contents == target;
    }

    /** The key `put` uses: the one given, or else a fresh symbol. */
    method KeyOf(key: Option<Key>) returns (k: Key)
      requires Valid() && (key.Some? && key.value.Default? ==> key.value.serial < nextSymbol)
      modifies this`nextSymbol
      ensures Valid() && k == PutKey(key, old(nextSymbol)) && (k.Default? ==> k.serial < nextSymbol)
      ensures nextSymbol == if key.None? then old(nextSymbol) + 1 else old(nextSymbol)
      ensures Contents == old(Contents) && priorityTimeout == old(priorityTimeout) && Repr == old(Repr)
    {
      if key.Some? {
        k := key.value;
      } else {
        k := NewSymbol();
      }
    }

    /** A fresh symbol, different from every key handed out before. */
    method NewSymbol() returns (k: Key)
      requires Valid()
      modifies this`nextSymbol
      ensures Valid() && k == Default(old(nextSymbol)) && nextSymbol == old(nextSymbol) + 1
      ensures k !in index
    {
      k := Default(nextSymbol);
      nextSymbol := nextSymbol + 1;
    }

    /**
     * `put` with a new key: a node of height `1 + Heads(coins)` is linked in
     * after every task due no later than `timeout`, its key enters the
     * index, and `maxLevel` rises to its height if that is larger.
     */
    method PutNew(key: Key, val: Action, callback: Option<Action>, priority: Priority, timeout: int, coins: seq<bool>)
      requires Valid() && |coins| == MAX_LEVEL - 1
      requires key !in index && (key.Default? ==> key.serial < nextSymbol)
      modifies Repr
      ensures Valid() && fresh(Repr - old(Repr))
      ensures Contents == Ordering.InsertEntry(old(Contents), Ordering.Entry(key, timeout, val, CallbackList(callback), priority))
      ensures Contents == Ordering.Put(old(Contents), key, val, callback, priority, timeout)
      ensures maxLevel == if 1 + Heads(coins) > old(maxLevel) then 1 + Heads(coins) else old(maxLevel)
      ensures priorityTimeout == old(priorityTimeout) && nextSymbol == old(nextSymbol)
    {
      assert key !in Ordering.Keys(Contents) by {
        IndexedKeys(index, nodes, Contents);
      }
      var level := GenerateLevel(coins);
      var task := new Task(key, val, callback, Some(priority), Some(timeout));
      var node := new Node(task);
      Insert(node, level);
    }

    /**
     * Inserts the new node `node`, of height `level`: it is linked in after
     * every task due no later than its own, and its key enters the index.
     */
    method Insert(node: Node, level: nat)
      requires Valid() && node !in Repr && node.task !in Repr && node.next == NoLinks() && node.pre == NoLinks()
      requires 1 <= level <= MAX_LEVEL && node.task.key !in index && (node.task.key.Default? ==> node.task.key.serial < nextSymbol)
      modifies Repr, node
      ensures Valid() && Repr == old(Repr) + {node, node.task}
      ensures Contents == Ordering.InsertEntry(old(Contents), EntryOf(node.task))
      ensures height == old(height)[node := level] && maxLevel == if level > old(maxLevel) then level else old(maxLevel)
      ensures priorityTimeout == old(priorityTimeout) && nextSymbol == old(nextSymbol)
    {
      ghost var k := Ordering.LeadingLE(Contents, node.task.timeout);
      ghost var s', q' := nodes[..k] + [node] + nodes[k..], Ordering.InsertEntry(Contents, EntryOf(node.task));
      RegisterKeep(nodes, Contents, node, k, s', q');
      IndexedInsert(index, nodes, node, s');
      InsertBounds(nodes, Contents, node.task.timeout);
      LinkNew(node, level, k);
      Register(node, index[node.task.key := node], s', height[node := level], q');
    }

    /**
     * Links `node` of height `level` in at position `k` on every level it
     * is on, and raises `maxLevel` to `level` if that is larger.
     */
    method LinkNew(node: Node, level: nat, ghost k: nat)
      requires Apart(head, tail, nodes) && Distinct(nodes) && Wired(head, tail, nodes, height) && LevelsOK(nodes, height, maxLevel)
      requires node != head && node != tail && node !in nodes && node.next == NoLinks() && node.pre == NoLinks()
      requires 1 <= level <= MAX_LEVEL && k <= |nodes|
      requires forall y :: y in nodes[..k] ==> y.task.timeout <= node.task.timeout
      requires forall y :: y in nodes[k..] ==> y.task.timeout > node.task.timeout
      modifies this`maxLevel, {head, tail, node} + set n | n in nodes
      ensures Wired(head, tail, nodes[..k] + [node] + nodes[k..], height[node := level])
      ensures LevelsOK(nodes[..k] + [node] + nodes[k..], height[node := level], maxLevel)
      ensures maxLevel == if level > old(maxLevel) then level else old(maxLevel)
      ensures priorityTimeout == old(priorityTimeout) && nextSymbol == old(nextSymbol)
    {
      InsertNode(head, tail, nodes, height, node, level, k);
      InsertCount(nodes, height, maxLevel, node, level, k);
      if level > maxLevel {
        maxLevel := level;
      }
    }

    /**
     * The bookkeeping after linking in a new node: the index becomes `idx`,
     * and the ghost list, heights, queue and footprint take the node in.
     */
    method Register(node: Node, idx: map<Key, Node>, ghost s': seq<Node>, ghost h': map<Node, nat>, ghost q': seq<Ordering.Entry>)
      requires Owns() && node !in Repr && node.task !in Repr && forall x :: x in s' ==> x in nodes || x == node
      requires Apart(head, tail, s') && Distinct(s') && Indexed(idx, s') && Abstracts(s', q') && Ordering.Sorted(q')
      requires forall k :: k in idx && k.Default? ==> k.serial < nextSymbol
      requires Wired(head, tail, s', h') && LevelsOK(s', h', maxLevel)
      modifies this`index, this`nodes, this`height, this`Contents, this`Repr
      ensures Valid() && Repr == old(Repr) + {node, node.task}
      ensures index == idx && Contents == q' && nodes == s' && height == h'
      ensures priorityTimeout == old(priorityTimeout) && nextSymbol == old(nextSymbol)
    {
      Adopt(node, s', h');
      index := idx;
      Contents := q';
    }

    /** Makes `s'` the bottom level, with heights `h'`, and takes ownership of the new node and its task. */
    method Adopt(node: Node, ghost s': seq<Node>, ghost h': map<Node, nat>)
      requires Owns() && node !in Repr && node.task !in Repr && forall x :: x in s' ==> x in nodes || x == node
      requires Wired(head, tail, s', h') && LevelsOK(s', h', maxLevel)
      modifies this`nodes, this`height, this`Repr
      ensures Owns() && Repr == old(Repr) + {node, node.task} && nodes == s' && height == h'
      ensures Wired(head, tail, nodes, height) && LevelsOK(nodes, height, maxLevel)
    {
      nodes := s';
      height := h';
      Repr := Repr + {node, node.task};
    }

    /**
     * `put` with a key that is pending: the task gets the new action and
     * the extra callback, and moves forward when `timeout` is earlier than
     * its deadline.
     */
    method PutExisting(key: Key, val: Action, callback: Option<Action>, ghost priority: Priority, timeout: int)
      requires Valid() && key in index
      modifies Repr
      ensures Valid() && Repr == old(Repr) && index == old(index)
      ensures Contents == Ordering.Put(old(Contents), key, val, callback, priority, timeout)
      ensures height == old(height) && maxLevel == old(maxLevel)
      ensures priorityTimeout == old(priorityTimeout) && nextSymbol == old(nextSymbol)
    {
      IndexedAt(index, nodes, Contents, key);
      var node := Get(key).value;
      ghost var p := Ordering.IndexOfKey(Contents, key);
      ghost var q := Contents;
      ghost var merged := q[p].(action := val, callbacks := q[p].callbacks + CallbackList(callback));
      Absorb(node, p, val, callback);
      var task := node.GetTask();
      if timeout < task.GetTimeout() {
        Promote(node, p, timeout);
        assert Ordering.RemoveAt(q[p := merged], p) == Ordering.RemoveAt(q, p);
      }
    }

    /** `Merge` on a valid registry keeps it valid; the deadline at `p` stays. */
    method Absorb(node: Node, ghost p: nat, val: Action, callback: Option<Action>)
      requires Valid() && p < |nodes| && nodes[p] == node
      modifies node.task`val, node.task`callbackList, this`Contents
      ensures Valid() && node.task.timeout == old(Contents)[p].timeout
      ensures index == old(index) && Repr == old(Repr) && height == old(height) && maxLevel == old(maxLevel)
      ensures priorityTimeout == old(priorityTimeout) && nextSymbol == old(nextSymbol)
      ensures Contents == old(Contents)[p := old(Contents)[p].(action := val, callbacks := old(Contents)[p].callbacks + CallbackList(callback))]
    {
      Merge(node, p, val, callback);
    }

    /** The action of the task at `p` is replaced and the callback appended; its deadline stays. */
    method Merge(node: Node, ghost p: nat, val: Action, callback: Option<Action>)
      requires Registered() && p < |nodes| && nodes[p] == node
      modifies node.task`val, node.task`callbackList, this`Contents
      ensures Registered()
      ensures Contents == old(Contents)[p := old(Contents)[p].(action := val, callbacks := old(Contents)[p].callbacks + CallbackList(callback))]
    {
      IndexedKeys(index, nodes, Contents);
      var task := node.GetTask();
      ghost var e := Contents[p];
      assert e == EntryOf(task);
      task.SetVal(val);
      if IsFunction(callback) {
        task.AddCallback(callback.value);
      }
      Contents := Contents[p := EntryOf(task)];
      forall m | 0 <= m < |nodes| && m != p
        ensures Contents[m] == EntryOf(nodes[m].task)
      {
        assert nodes[m].task != task;
      }
      assert Contents[p] == e.(action := val, callbacks := e.callbacks + CallbackList(callback));
    }

    /**
     * The task at `p` gets the earlier deadline `timeout`, and its node is
     * unlinked and linked in again after every task due no later.
     */
    method Promote(node: Node, ghost p: nat, timeout: int)
      requires Valid() && p < |nodes| && nodes[p] == node && timeout < Contents[p].timeout
      modifies Repr
      ensures Valid() && Repr == old(Repr) && index == old(index)
      ensures Contents == Ordering.InsertEntry(Ordering.RemoveAt(old(Contents), p), old(Contents)[p].(timeout := timeout))
      ensures height == old(height) && maxLevel == old(maxLevel)
      ensures priorityTimeout == old(priorityTimeout) && nextSymbol == old(nextSymbol)
    {
      ghost var R, RC := nodes[..p] + nodes[p + 1..], Ordering.RemoveAt(Contents, p);
      ghost var k := Ordering.LeadingLE(RC, timeout);
      ghost var e := Contents[p].(timeout := timeout);
      Retime(node, p, timeout, R, RC, k);
      Relink(node, p, k);
      Relocate(node, p, k, e);
    }

    /**
     * Gives the task at `p` the earlier deadline `timeout`. The others are
     * untouched: they still make up the queue without the entry at `p`, and
     * `k` of them are due no later than `timeout`.
     */
    method Retime(node: Node, ghost p: nat, timeout: int, ghost R: seq<Node>, ghost RC: seq<Ordering.Entry>, ghost k: nat)
      requires Registered() && p < |nodes| && nodes[p] == node && timeout < Contents[p].timeout
      requires R == nodes[..p] + nodes[p + 1..] && RC == Ordering.RemoveAt(Contents, p) && k == Ordering.LeadingLE(RC, timeout)
      modifies node.task`timeout
      ensures Abstracts(R, RC) && Ordering.Sorted(RC) && k <= p
      ensures EntryOf(node.task) == old(Contents[p]).(timeout := timeout)
      ensures forall y :: y in R[..k] ==> y.task.timeout <= node.task.timeout
      ensures forall y :: y in R[k..] ==> y.task.timeout > node.task.timeout
      ensures height == old(height) && maxLevel == old(maxLevel)
    {
      PromoteBounds(index, nodes, Contents, p, timeout);
      var task := node.GetTask();
      task.SetTimeout(timeout);
    }

    /**
     * Unlinks the node at `p` from every level it is on and links it in
     * again at `k` among the others; the registry's own fields stay.
     */
    method Relink(node: Node, ghost p: nat, ghost k: nat)
      requires Apart(head, tail, nodes) && Distinct(nodes) && Wired(head, tail, nodes, height) && LevelsOK(nodes, height, maxLevel)
      requires p < |nodes| && nodes[p] == node && k <= p
      requires forall y :: y in (nodes[..p] + nodes[p + 1..])[..k] ==> y.task.timeout <= node.task.timeout
      requires forall y :: y in (nodes[..p] + nodes[p + 1..])[k..] ==> y.task.timeout > node.task.timeout
      modifies {head, tail} + set n | n in nodes
      ensures Wired(head, tail, (nodes[..p] + nodes[p + 1..])[..k] + [node] + (nodes[..p] + nodes[p + 1..])[k..], height)
      ensures index == old(index) && Contents == old(Contents) && Repr == old(Repr)
      ensures height == old(height) && maxLevel == old(maxLevel)
      ensures priorityTimeout == old(priorityTimeout) && nextSymbol == old(nextSymbol)
    {
      PromoteNode(head, tail, nodes, height, node, p, k, maxLevel);
    }

    /** The bookkeeping after moving the node at `p` to `k` among the others. */
    method Relocate(node: Node, ghost p: nat, ghost k: nat, ghost e: Ordering.Entry)
      requires Owns() && Apart(head, tail, nodes) && Distinct(nodes) && Indexed(index, nodes)
      requires forall key :: key in index && key.Default? ==> key.serial < nextSymbol
      requires p < |nodes| == |Contents| && nodes[p] == node && LevelsOK(nodes, height, maxLevel)
      requires Abstracts(nodes[..p] + nodes[p + 1..], Ordering.RemoveAt(Contents, p))
      requires Ordering.Sorted(Ordering.RemoveAt(Contents, p))
      requires EntryOf(node.task) == e && k == Ordering.LeadingLE(Ordering.RemoveAt(Contents, p), e.timeout)
      requires Wired(head, tail, (nodes[..p] + nodes[p + 1..])[..k] + [node] + (nodes[..p] + nodes[p + 1..])[k..], height)
      modifies this`nodes, this`Contents
      ensures Valid() && Contents == Ordering.InsertEntry(Ordering.RemoveAt(old(Contents), p), e)
      ensures index == old(index) && Repr == old(Repr) && priorityTimeout == old(priorityTimeout) && nextSymbol == old(nextSymbol)
      ensures height == old(height) && maxLevel == old(maxLevel)
    {
      ghost var R := nodes[..p] + nodes[p + 1..];
      ghost var s' := R[..k] + [node] + R[k..];
      RelocateKeep(index, nodes, height, maxLevel, p, Ordering.RemoveAt(Contents, p), e, k, s');
      nodes := s';
      Contents := Ordering.InsertEntry(Ordering.RemoveAt(Contents, p), e);
    }
  }

  /** What `shift` keeps: the rest of the list, indexed without the first key, abstracted by the rest of the queue. */
  lemma ShiftKeep(idx: map<Key, Node>, s: seq<Node>, q: seq<Ordering.Entry>)
    requires s != [] && Distinct(s) && Indexed(idx, s) && Abstracts(s, q) && Ordering.Sorted(q)
    ensures Indexed(idx - {s[0].task.key}, s[1..]) && Abstracts(s[1..], q[1..]) && Ordering.Sorted(q[1..])
  {
    assert s == [s[0]] + s[1..];
    forall n | n in s[1..]
      ensures n.task.key != s[0].task.key
    {
      assert n in s;
    }
  }

  /** The key `put` uses: the one given, or the fresh symbol numbered `serial`. */
  function PutKey(key: Option<Key>, serial: nat): (k: Key)
    ensures key.Some? ==> k == key.value
    ensures key.None? ==> k.Default? && k.serial == serial
  {
    if key.Some? then key.value else Default(serial)
  }

  /** The priority `put` uses: the one given, NORMAL by default. */
  function PutPriority(priority: Option<Priority>): (p: Priority)
    ensures priority.Some? ==> p == priority.value
    ensures priority.None? ==> p == Normal
  {
    if priority.Some? then priority.value else Normal
  }

  /**
   * A task due at `t` goes after every node whose task is due no later and
   * before every node whose task is due later.
   */
  lemma InsertBounds(s: seq<Node>, q: seq<Ordering.Entry>, t: int)
    requires Abstracts(s, q) && Ordering.Sorted(q)
    ensures var k := Ordering.LeadingLE(q, t);
      && (forall y :: y in s[..k] ==> y.task.timeout <= t)
      && (forall y :: y in s[k..] ==> y.task.timeout > t)
  {
    var k := Ordering.LeadingLE(q, t);
    forall y | y in s[..k]
      ensures y.task.timeout <= t
    {
      var m :| 0 <= m < k && s[..k][m] == y;
      assert q[m] == EntryOf(s[m].task);
    }
    forall y | y in s[k..]
      ensures y.task.timeout > t
    {
      var m :| 0 <= m < |s| - k && s[k..][m] == y;
      assert q[k + m] == EntryOf(s[k + m].task);
      assert q[k].timeout <= q[k + m].timeout;
    }
  }

  /** A node whose task holds `e`, put at `k` of the list, matches `e` put at `k` of the queue. */
  lemma AbstractsInsert(s: seq<Node>, q: seq<Ordering.Entry>, k: nat, node: Node, e: Ordering.Entry)
    requires Abstracts(s, q) && k <= |s| && EntryOf(node.task) == e
    ensures Abstracts(s[..k] + [node] + s[k..], q[..k] + [e] + q[k..])
  {
    var s', q' := s[..k] + [node] + s[k..], q[..k] + [e] + q[k..];
    forall m | 0 <= m < |s'|
      ensures q'[m] == EntryOf(s'[m].task)
    {
      if m < k {
        assert s'[m] == s[m] && q'[m] == q[m];
      } else if k < m {
        assert s'[m] == s[m - 1] && q'[m] == q[m - 1];
      }
    }
  }

  /**
   * What registering a new node keeps: the list with the node at its place
   * is duplicate-free, abstracted by the queue with the new entry inserted,
   * and that queue is sorted.
   */
  lemma RegisterKeep(s: seq<Node>, q: seq<Ordering.Entry>, node: Node, k: nat, s': seq<Node>, q': seq<Ordering.Entry>)
    requires Distinct(s) && Abstracts(s, q) && Ordering.Sorted(q) && node !in s
    requires k == Ordering.LeadingLE(q, node.task.timeout) && s' == s[..k] + [node] + s[k..]
    requires q' == Ordering.InsertEntry(q, EntryOf(node.task))
    ensures Distinct(s') && Abstracts(s', q') && Ordering.Sorted(q')
    ensures forall x :: x in s' <==> x in s || x == node
  {
    var e := EntryOf(node.task);
    Ordering.InsertPlacement(q, e);
    AbstractsInsert(s, q, k, node, e);
    assert s == s[..k] + s[k..];
    DistinctInsert(s[..k], node, s[k..]);
  }

  /** An index that gains the key of a new node indexes the list that gains the node. */
  lemma IndexedInsert(idx: map<Key, Node>, s: seq<Node>, node: Node, s': seq<Node>)
    requires Indexed(idx, s) && node.task.key !in idx && forall x :: x in s' <==> x in s || x == node
    ensures Indexed(idx[node.task.key := node], s')
  {
    var idx' := idx[node.task.key := node];
    forall n | n in s'
      ensures n.task.key in idx' && idx'[n.task.key] == n
    {
      if n != node {
        assert n.task.key in idx;
      }
    }
  }

  /**
   * Taking the node at `p` out of a sorted list whose tasks are distinct:
   * the rest is abstracted by the rest of the queue, which is sorted, none
   * of its tasks is the one at `p`, and a deadline `t` earlier than the one
   * at `p` places the node no later than `p`.
   */
  lemma PromoteBounds(idx: map<Key, Node>, s: seq<Node>, q: seq<Ordering.Entry>, p: nat, t: int)
    requires Indexed(idx, s) && Distinct(s) && Abstracts(s, q) && Ordering.Sorted(q) && p < |s| && t < q[p].timeout
    ensures var R, RC := s[..p] + s[p + 1..], Ordering.RemoveAt(q, p); var k := Ordering.LeadingLE(RC, t);
      && Abstracts(R, RC) && Ordering.Sorted(RC) && k <= p
      && (forall y :: y in R ==> y.task != s[p].task)
      && (forall y :: y in R[..k] ==> y.task.timeout <= t)
      && (forall y :: y in R[k..] ==> y.task.timeout > t)
  {
    var R, RC := s[..p] + s[p + 1..], Ordering.RemoveAt(q, p);
    AbstractsRemove(s, q, p);
    OtherTasks(idx, s, q, p);
    Ordering.SortedRemove(q, p);
    InsertBounds(R, RC, t);
    if p < |RC| {
      assert RC[p] == q[p + 1];
    }
  }

  /** Taking the node at `p` out of the list matches taking the entry at `p` out of the queue. */
  lemma AbstractsRemove(s: seq<Node>, q: seq<Ordering.Entry>, p: nat)
    requires Abstracts(s, q) && p < |s|
    ensures Abstracts(s[..p] + s[p + 1..], Ordering.RemoveAt(q, p))
  {
    var R, RC := s[..p] + s[p + 1..], Ordering.RemoveAt(q, p);
    forall m | 0 <= m < |R|
      ensures RC[m] == EntryOf(R[m].task)
    {
      var i := if m < p then m else m + 1;
      assert R[m] == s[i] && RC[m] == q[i];
    }
  }

  /** In an indexed list, no other node shares the task of the node at `p`. */
  lemma OtherTasks(idx: map<Key, Node>, s: seq<Node>, q: seq<Ordering.Entry>, p: nat)
    requires Indexed(idx, s) && Distinct(s) && Abstracts(s, q) && p < |s|
    ensures forall y :: y in s[..p] + s[p + 1..] ==> y.task != s[p].task
  {
    IndexedKeys(idx, s, q);
    var R := s[..p] + s[p + 1..];
    forall y | y in R
      ensures y.task != s[p].task
    {
      var m :| 0 <= m < |R| && R[m] == y;
      var i := if m < p then m else m + 1;
      assert R[m] == s[i];
    }
  }

  /**
   * What moving the node at `p` to `k` among the others keeps: the same
   * nodes, duplicate-free, indexed and counted as before, abstracted by the
   * queue with its entry re-inserted, which is sorted.
   */
  lemma RelocateKeep(idx: map<Key, Node>, s: seq<Node>, h: map<Node, nat>, m: nat, p: nat, RC: seq<Ordering.Entry>, e: Ordering.Entry,
                     k: nat, s': seq<Node>)
    requires Distinct(s) && Indexed(idx, s) && LevelsOK(s, h, m) && p < |s|
    requires Abstracts(s[..p] + s[p + 1..], RC) && Ordering.Sorted(RC) && EntryOf(s[p].task) == e
    requires k == Ordering.LeadingLE(RC, e.timeout) && s' == (s[..p] + s[p + 1..])[..k] + [s[p]] + (s[..p] + s[p + 1..])[k..]
    ensures (forall x :: x in s' <==> x in s) && Distinct(s') && Indexed(idx, s') && LevelsOK(s', h, m)
    ensures Abstracts(s', Ordering.InsertEntry(RC, e)) && Ordering.Sorted(Ordering.InsertEntry(RC, e))
  {
    var R := s[..p] + s[p + 1..];
    Move(s, p, k);
    LevelsSame(s, s', h, m);
    Ordering.InsertPlacement(RC, e);
    AbstractsInsert(R, RC, k, s[p], e);
  }

  /** Moving the element at `p` to `k` among the others keeps the same elements, and keeps them distinct. */
  lemma Move<T>(s: seq<T>, p: nat, k: nat)
    requires p < |s| && k < |s|
    ensures var R := s[..p] + s[p + 1..]; var s' := R[..k] + [s[p]] + R[k..];
      && (forall x :: x in s' <==> x in s)
      && (Distinct(s) ==> Distinct(s'))
  {
    var R := s[..p] + s[p + 1..];
    var s' := R[..k] + [s[p]] + R[k..];
    assert s == s[..p] + [s[p]] + s[p + 1..];
    assert R == R[..k] + R[k..];
    assert forall x :: x in s <==> x in R || x == s[p];
    assert forall x :: x in s' <==> x in R || x == s[p];
    if Distinct(s) {
      DistinctRemove(s, p);
      DistinctInsert(R[..k], s[p], R[k..]);
    }
  }
}
