/**
 * The pointer structure of the task list (lib/taskList.ts): a doubly linked
 * skip list between two sentinels, described by its bottom level `s` and the
 * height of every node. The link surgery done by `shift` and `put` lives here,
 * one level at a time.
 */
module SkipLists {
  import opened Constants
  import opened Nodes
  import opened Levels

  /** Level `l` as a chain of nodes, sentinels included. */
  ghost function Chain(head: Node, tail: Node, s: seq<Node>, h: map<Node, nat>, l: nat): (c: seq<Node>)
    ensures |c| == |Above(s, h, l)| + 2 && c[0] == head && c[|c| - 1] == tail
    ensures forall x :: x in c ==> x == head || x == tail || x in s
  {
    [head] + Above(s, h, l) + [tail]
  }

  /** The sentinels are distinct and are not on the bottom level. */
  ghost predicate Apart(head: Node, tail: Node, s: seq<Node>)
  {
    head != tail && head !in s && tail !in s
  }

  /**
   * `s` with heights `h` is wired as a skip list: every node has a height in
   * 1..MAX_LEVEL, each level is doubly linked from `head` to `tail` through
   * exactly the nodes taller than it, and a node has no links above its height.
   */
  ghost predicate Wired(head: Node, tail: Node, s: seq<Node>, h: map<Node, nat>)
    reads {head, tail} + set n | n in s
  {
    (forall n :: n in s ==> n in h) && (forall n :: n in h ==> 1 <= h[n] <= MAX_LEVEL)
    && Links(head, tail, s, h) && Bare(s, h)
  }

  /** Every level is doubly linked from `head` to `tail` through the nodes taller than it. */
  ghost predicate Links(head: Node, tail: Node, s: seq<Node>, h: map<Node, nat>)
    reads {head, tail} + set n | n in s
  {
    forall l :: 0 <= l < MAX_LEVEL ==> Linked(l, Chain(head, tail, s, h, l))
  }

  /** No node of `s` has a link at or above its height. */
  ghost predicate Bare(s: seq<Node>, h: map<Node, nat>)
    reads set n | n in s
  {
    forall n, l :: n in s && n in h && h[n] <= l < MAX_LEVEL ==> n.next[l] == null && n.pre[l] == null
  }

  /** A node `x` of `s` sits on `level`, unless it is a sentinel (outside `s`). */
  ghost predicate OnLevel(x: Node, s: seq<Node>, h: map<Node, nat>, level: nat)
  {
    x in s ==> x in h && h[x] > level
  }

  /** `maxLevel` counts the non-empty levels: level `l` is empty exactly from `m` up. */
  ghost predicate LevelsOK(s: seq<Node>, h: map<Node, nat>, m: nat)
  {
    m <= MAX_LEVEL && forall l :: 0 <= l < MAX_LEVEL ==> (Above(s, h, l) == [] <==> m <= l)
  }

  /**
   * Links `node` between `preNode`, the last of `c1`, and `nextNode`, the
   * first of `c2`, on `level` (four slot writes); the chains `others` of other levels stay linked.
   */
  method LinkBetween(level: nat, preNode: Node, node: Node, nextNode: Node, ghost c1: seq<Node>, ghost c2: seq<Node>,
                     ghost others: seq<seq<Node>>, ghost s: seq<Node>, ghost h: map<Node, nat>)
    requires level < MAX_LEVEL
    requires c1 != [] && c2 != [] && preNode == c1[|c1| - 1] && nextNode == c2[0]
    requires Linked(level, c1 + c2) && Distinct(c1 + [node] + c2)
    modifies preNode`next, node`next, node`pre, nextNode`pre
    ensures Linked(level, c1 + [node] + c2)
    ensures node.next == old(node.next)[level := nextNode] && node.pre == old(node.pre)[level := preNode]
    ensures preNode.next == old(preNode.next)[level := node] && nextNode.pre == old(nextNode.pre)[level := node]
    ensures forall l :: 0 <= l < |others| && l != level && old(Linked(l, others[l])) ==> Linked(l, others[l])
    ensures old(Bare(s, h)) && OnLevel(preNode, s, h, level) && OnLevel(node, s, h, level) && OnLevel(nextNode, s, h, level) ==> Bare(s, h)
  {
    ghost var c := c1 + [node] + c2;
    assert c[|c1| - 1] == preNode && c[|c1|] == node && c[|c1| + 1] == nextNode;
    node.SetNext(level, nextNode);
    node.SetPre(level, preNode);
    nextNode.SetPre(level, node);
    preNode.SetNext(level, node);
    ghost var old_c := c1 + c2;
    forall m | 0 <= m < |c| - 1
      ensures c[m].GetNext(level) == c[m + 1] && c[m + 1].GetPre(level) == c[m]
    {
      if m < |c1| - 1 {
        assert c[m] == old_c[m] && c[m + 1] == old_c[m + 1];
        assert c[m] != preNode && c[m] != node && c[m + 1] != nextNode && c[m + 1] != node;
        assert old(old_c[m].GetNext(level)) == old_c[m + 1] && old(old_c[m + 1].GetPre(level)) == old_c[m];
      } else if m == |c1| - 1 {
        assert c[m] == preNode && c[m + 1] == node;
      } else if m == |c1| {
        assert c[m] == node && c[m + 1] == nextNode;
      } else {
        assert c[m] == old_c[m - 1] && c[m + 1] == old_c[m];
        assert c[m] != preNode && c[m] != node && c[m + 1] != nextNode && c[m + 1] != node;
        assert old(old_c[m - 1].GetNext(level)) == old_c[m] && old(old_c[m].GetPre(level)) == old_c[m - 1];
      }
    }
    forall l | 0 <= l < |others| && l != level && old(Linked(l, others[l]))
      ensures Linked(l, others[l])
    {
      var d := others[l];
      forall m | 0 <= m < |d| - 1
        ensures d[m].GetNext(l) == d[m + 1] && d[m + 1].GetPre(l) == d[m]
      {
        assert old(d[m].GetNext(l)) == d[m + 1] && old(d[m + 1].GetPre(l)) == d[m];
      }
    }
  }

  /**
   * Unlinks `node`, which sits between `preNode` (the last of `c1`) and
   * `nextNode` (the first of `c2`) on `level`; its own slots stay as they were,
   * and the chains `others` of other levels stay linked.
   */
  method UnlinkBetween(level: nat, preNode: Node, node: Node, nextNode: Node, ghost c1: seq<Node>, ghost c2: seq<Node>,
                       ghost others: seq<seq<Node>>, ghost s: seq<Node>, ghost h: map<Node, nat>)
    requires level < MAX_LEVEL
    requires c1 != [] && c2 != [] && preNode == c1[|c1| - 1] && nextNode == c2[0]
    requires Linked(level, c1 + [node] + c2) && Distinct(c1 + [node] + c2)
    modifies preNode`next, nextNode`pre
    ensures Linked(level, c1 + c2)
    ensures preNode.next == old(preNode.next)[level := nextNode] && nextNode.pre == old(nextNode.pre)[level := preNode]
    ensures forall l :: 0 <= l < |others| && l != level && old(Linked(l, others[l])) ==> Linked(l, others[l])
    ensures old(Bare(s, h)) && OnLevel(preNode, s, h, level) && OnLevel(nextNode, s, h, level) ==> Bare(s, h)
  {
    ghost var old_c := c1 + [node] + c2;
    assert old_c[|c1| - 1] == preNode && old_c[|c1|] == node && old_c[|c1| + 1] == nextNode;
    nextNode.SetPre(level, preNode);
    preNode.SetNext(level, nextNode);
    ghost var c := c1 + c2;
    forall m | 0 <= m < |c| - 1
      ensures c[m].GetNext(level) == c[m + 1] && c[m + 1].GetPre(level) == c[m]
    {
      if m < |c1| - 1 {
        assert c[m] == old_c[m] && c[m + 1] == old_c[m + 1];
        assert old(old_c[m].GetNext(level)) == old_c[m + 1] && old(old_c[m + 1].GetPre(level)) == old_c[m];
      } else if m >= |c1| {
        assert c[m] == old_c[m + 1] && c[m + 1] == old_c[m + 2];
        assert old(old_c[m + 1].GetNext(level)) == old_c[m + 2] && old(old_c[m + 2].GetPre(level)) == old_c[m + 1];
      }
    }
    forall l | 0 <= l < |others| && l != level && old(Linked(l, others[l]))
      ensures Linked(l, others[l])
    {
      var d := others[l];
      forall m | 0 <= m < |d| - 1
        ensures d[m].GetNext(l) == d[m + 1] && d[m + 1].GetPre(l) == d[m]
      {
        assert old(d[m].GetNext(l)) == d[m + 1] && old(d[m + 1].GetPre(l)) == d[m];
      }
    }
  }

  /** Inserting an element that is not there keeps a sequence duplicate-free. */
  lemma DistinctInsert<T>(a: seq<T>, x: T, b: seq<T>)
    requires Distinct(a + b) && x !in a && x !in b
    ensures Distinct(a + [x] + b)
  {
    var r := a + [x] + b;
    forall i, j | 0 <= i < j < |r|
      ensures r[i] != r[j]
    {
      if j < |a| {
        assert r[i] == (a + b)[i] && r[j] == (a + b)[j];
      } else if j == |a| {
        assert r[i] == a[i] && r[j] == x;
      } else if i < |a| {
        assert r[i] == (a + b)[i] && r[j] == (a + b)[j - 1];
      } else if i == |a| {
        assert r[i] == x && r[j] == b[j - |a| - 1];
      } else {
        assert r[i] == (a + b)[i - 1] && r[j] == (a + b)[j - 1];
      }
    }
  }

  /** Removing one element keeps a sequence duplicate-free, and the element is gone. */
  lemma DistinctRemove<T>(s: seq<T>, p: nat)
    requires Distinct(s) && p < |s|
    ensures Distinct(s[..p] + s[p + 1..]) && s[p] !in s[..p] + s[p + 1..]
  {
    var r := s[..p] + s[p + 1..];
    assert forall m :: 0 <= m < |r| ==> r[m] == s[if m < p then m else m + 1];
  }

  /** A level of a duplicate-free list, with its sentinels, is duplicate-free. */
  lemma ChainDistinct(head: Node, tail: Node, s: seq<Node>, h: map<Node, nat>, l: nat)
    requires Apart(head, tail, s) && Distinct(s)
    ensures Distinct(Chain(head, tail, s, h, l))
  {
    var a := Above(s, h, l);
    AboveDistinct(s, h, l);
    var c := Chain(head, tail, s, h, l);
    forall i, j | 0 <= i < j < |c|
      ensures c[i] != c[j]
    {
      if 0 < i && j < |c| - 1 {
        assert c[i] == a[i - 1] && c[j] == a[j - 1];
      } else if i == 0 {
        assert c[j] == tail || c[j] in a;
      } else {
        assert c[i] in a;
      }
    }
  }

  /** Level `i` of `A + B` is its part of `A` followed by its part of `B`. */
  lemma ChainSplit(head: Node, tail: Node, A: seq<Node>, B: seq<Node>, h: map<Node, nat>, i: nat)
    ensures Chain(head, tail, A + B, h, i) == ([head] + Above(A, h, i)) + (Above(B, h, i) + [tail])
  {
    AboveAppend(A, B, h, i);
  }

  /** On a level below its height, a `node` inserted between `A` and `B` sits between their parts of the level. */
  lemma ChainInsertBelow(head: Node, tail: Node, A: seq<Node>, B: seq<Node>, h: map<Node, nat>, node: Node, level: nat, i: nat)
    requires node !in A && node !in B && i < level
    ensures Chain(head, tail, A + [node] + B, h[node := level], i) == ([head] + Above(A, h, i)) + [node] + (Above(B, h, i) + [tail])
  {
    AboveInsert(A, node, B, h, level, i);
  }

  /** On a level at or above its height, inserting `node` changes nothing. */
  lemma ChainInsertAbove(head: Node, tail: Node, A: seq<Node>, B: seq<Node>, h: map<Node, nat>, node: Node, level: nat, i: nat)
    requires node !in A && node !in B && level <= i
    ensures Chain(head, tail, A + [node] + B, h[node := level], i) == Chain(head, tail, A + B, h, i)
  {
    AboveInsert(A, node, B, h, level, i);
    AboveAppend(A, B, h, i);
  }

  /** The chain of a level after an insertion is duplicate-free. */
  lemma ChainInsertDistinct(head: Node, tail: Node, A: seq<Node>, B: seq<Node>, h: map<Node, nat>, node: Node, level: nat, i: nat)
    requires Apart(head, tail, A + B) && Distinct(A + B) && node != head && node != tail && node !in A && node !in B
    ensures Distinct(Chain(head, tail, A + [node] + B, h[node := level], i))
  {
    DistinctInsert(A, node, B);
    ChainDistinct(head, tail, A + [node] + B, h[node := level], i);
  }

  /**
   * The forward walk of the new-key branch of `put` on level `i`
   * (lib/taskList.ts): from `preNode`, step past every node due no later
   * than `t`. The level is `head`, then `AA` (all due no later than `t`),
   * then `BB` (all due later), then `tail`; the walk stops between the two.
   */
  method WalkForward(i: nat, head: Node, tail: Node, ghost AA: seq<Node>, ghost BB: seq<Node>, t: int, preNode: Node,
                     ghost others: seq<seq<Node>>, ghost s: seq<Node>, ghost h: map<Node, nat>)
    returns (found: Node, nextNode: Node)
    requires tail !in AA && Linked(i, ([head] + AA) + (BB + [tail]))
    requires forall y :: y in AA ==> y.task.timeout <= t
    requires forall y :: y in BB ==> y.task.timeout > t
    requires preNode == head || preNode in AA
    ensures found == ([head] + AA)[|AA|] && nextNode == (BB + [tail])[0]
    ensures forall l :: 0 <= l < |others| && old(Linked(l, others[l])) ==> Linked(l, others[l])
    ensures old(Bare(s, h)) ==> Bare(s, h)
  {
    ghost var c := ([head] + AA) + (BB + [tail]);
    ghost var j: nat := 0;
    if preNode != head {
      ghost var m :| 0 <= m < |AA| && AA[m] == preNode;
      j := m + 1;
    }
    found := preNode;
    assert found == c[j] && c[j].GetNext(i) == c[j + 1];
    var next := found.GetNext(i);
    if next == null {
      assert false;
    }
    nextNode := next;
    while nextNode != tail && nextNode.GetTask().GetTimeout() <= t
      invariant j <= |AA| && found == c[j] && nextNode == c[j + 1]
      decreases |AA| - j
    {
      assert c[|AA| + 1] == (BB + [tail])[0];
      assert c[j].GetNext(i) == c[j + 1] && c[j + 1].GetNext(i) == c[j + 2];
      var preNext := found.GetNext(i);
      if preNext == null {
        assert false;
      }
      found := preNext;
      next := nextNode.GetNext(i);
      if next == null {
        assert false;
      }
      nextNode := next;
      j := j + 1;
    }
    assert forall m :: 0 <= m < |AA| ==> c[m + 1] == AA[m];
  }

  /**
   * The levels of `A + B` while `node` is being linked in from the top down:
   * levels `j` up to (not including) `level` already run through `node`, the
   * others are as before.
   */
  ghost predicate Partial(head: Node, tail: Node, A: seq<Node>, B: seq<Node>, h: map<Node, nat>, node: Node, level: nat, j: nat)
    reads {head, tail, node} + set n | n in A + B
  {
    forall l :: 0 <= l < MAX_LEVEL ==> Linked(l, Stage(head, tail, A, B, h, node, level, j, l))
  }

  /** Level `l` of `Partial`: through `node` from level `j` up to `level`, as before elsewhere. */
  ghost function Stage(head: Node, tail: Node, A: seq<Node>, B: seq<Node>, h: map<Node, nat>, node: Node, level: nat, j: nat, l: nat)
    : (c: seq<Node>)
    ensures forall x :: x in c ==> x == head || x == tail || x == node || x in A + B
  {
    if j <= l < level then Chain(head, tail, A + [node] + B, h[node := level], l) else Chain(head, tail, A + B, h, l)
  }

  /**
   * `node` is new to the list and its deadline falls between `A` (all due
   * no later) and `B` (all due later).
   */
  ghost predicate Fits(head: Node, tail: Node, A: seq<Node>, B: seq<Node>, node: Node)
    reads set y | y in A + [node] + B :: y.task
  {
    Split(head, tail, A, B, node)
    && (forall y :: y in A ==> y.task.timeout <= node.task.timeout)
    && (forall y :: y in B ==> y.task.timeout > node.task.timeout)
  }

  /** `node` is a real node, not in `A + B`, and `A + B` is a duplicate-free list between the sentinels. */
  ghost predicate Split(head: Node, tail: Node, A: seq<Node>, B: seq<Node>, node: Node)
  {
    Apart(head, tail, A + B) && Distinct(A + B) && node != head && node != tail && node !in A && node !in B
  }

  /** Moving the insertion front from `i + 1` down to `i` changes level `i` only. */
  lemma StageStep(head: Node, tail: Node, A: seq<Node>, B: seq<Node>, h: map<Node, nat>, node: Node, level: nat, i: nat, l: nat)
    requires l != i
    ensures Stage(head, tail, A, B, h, node, level, i + 1, l) == Stage(head, tail, A, B, h, node, level, i, l)
  {
  }

  /**
   * The search half of one level `i` of the new-key branch of `put`: walk
   * forward from the predecessor found on the level above to the last node
   * of `A` on the level (or `head`) and the first of `B` (or `tail`).
   */
  method WalkLevel(head: Node, tail: Node, ghost A: seq<Node>, ghost B: seq<Node>, ghost h: map<Node, nat>,
                   node: Node, level: nat, i: nat, preNode: Node, ghost others: seq<seq<Node>>, ghost s: seq<Node>, ghost h': map<Node, nat>)
    returns (found: Node, nextNode: Node)
    requires Fits(head, tail, A, B, node) && i < level
    requires Linked(i, Chain(head, tail, A + B, h, i))
    requires preNode == head || (preNode in A && preNode in h && h[preNode] > i)
    ensures Linked(i, Before(head, A, h, i) + After(B, tail, h, i))
    ensures Distinct(Before(head, A, h, i) + [node] + After(B, tail, h, i))
    ensures found == Last(Before(head, A, h, i)) && nextNode == After(B, tail, h, i)[0]
    ensures found == head || (found in A && found in h && h[found] > i)
    ensures nextNode == tail || (nextNode in B && nextNode in h && h[nextNode] > i)
    ensures forall l :: 0 <= l < |others| && old(Linked(l, others[l])) ==> Linked(l, others[l])
    ensures old(Bare(s, h')) ==> Bare(s, h')
  {
    ghost var AA, BB := Above(A, h, i), Above(B, h, i);
    assert Linked(i, ([head] + AA) + (BB + [tail])) && Distinct(([head] + AA) + [node] + (BB + [tail])) by {
      ChainSplit(head, tail, A, B, h, i);
      ChainInsertBelow(head, tail, A, B, h, node, level, i);
      ChainInsertDistinct(head, tail, A, B, h, node, level, i);
    }
    assert preNode == head || preNode in AA by {
      if preNode != head {
        AboveMember(A, h, i, preNode);
      }
    }
    found, nextNode := WalkForward(i, head, tail, AA, BB, node.GetTask().GetTimeout(), preNode, others, s, h');
    assert found == head || (found in A && found in h && h[found] > i) by {
      if AA != [] {
        AboveMember(A, h, i, found);
      }
    }
    assert nextNode == tail || (nextNode in B && nextNode in h && h[nextNode] > i) by {
      if BB != [] {
        AboveMember(B, h, i, nextNode);
      }
    }
  }

  /** `head` followed by the part of `A` on level `i`. */
  ghost function Before(head: Node, A: seq<Node>, h: map<Node, nat>, i: nat): (c: seq<Node>)
    ensures c != [] && c[0] == head
  {
    [head] + Above(A, h, i)
  }

  /** The part of `B` on level `i`, followed by `tail`. */
  ghost function After(B: seq<Node>, tail: Node, h: map<Node, nat>, i: nat): (c: seq<Node>)
    ensures c != [] && c[|c| - 1] == tail
  {
    Above(B, h, i) + [tail]
  }

  /** The last element of a non-empty sequence. */
  ghost function Last(c: seq<Node>): Node
    requires c != []
  {
    c[|c| - 1]
  }

  /**
   * One level `i` of the new-key branch of `put`: find the neighbours on the
   * level, then link `node` in between them.
   */
  method InsertLevel(head: Node, tail: Node, ghost A: seq<Node>, ghost B: seq<Node>, ghost h: map<Node, nat>,
                     node: Node, level: nat, i: nat, preNode: Node)
    returns (found: Node)
    requires Fits(head, tail, A, B, node)
    requires i < level <= MAX_LEVEL
    requires Partial(head, tail, A, B, h, node, level, i + 1) && Bare(A + [node] + B, h[node := level])
    requires preNode == head || (preNode in A && preNode in h && h[preNode] > i)
    modifies {head, tail, node} + set n | n in A + B
    ensures Partial(head, tail, A, B, h, node, level, i) && Bare(A + [node] + B, h[node := level])
    ensures found == head || (found in A && found in h && h[found] > i)
  {
    ghost var s', h' := A + [node] + B, h[node := level];
    ghost var others := seq(MAX_LEVEL, l requires 0 <= l => Stage(head, tail, A, B, h, node, level, i, l));
    assert Linked(i, Chain(head, tail, A + B, h, i)) && forall l :: 0 <= l < MAX_LEVEL && l != i ==> Linked(l, others[l]) by {
      assert Linked(i, Stage(head, tail, A, B, h, node, level, i + 1, i));
      forall l | 0 <= l < MAX_LEVEL && l != i
        ensures Linked(l, others[l])
      {
        assert Linked(l, Stage(head, tail, A, B, h, node, level, i + 1, l));
        StageStep(head, tail, A, B, h, node, level, i, l);
      }
    }
    var nextNode;
    found, nextNode := WalkLevel(head, tail, A, B, h, node, level, i, preNode, others, s', h');
    assert OnLevel(found, s', h', i) && OnLevel(node, s', h', i) && OnLevel(nextNode, s', h', i);
    LinkBetween(i, found, node, nextNode, Before(head, A, h, i), After(B, tail, h, i), others, s', h');
    forall l | 0 <= l < MAX_LEVEL
      ensures Linked(l, Stage(head, tail, A, B, h, node, level, i, l))
    {
      if l == i {
        ChainInsertBelow(head, tail, A, B, h, node, level, i);
      } else {
        assert Linked(l, others[l]);
      }
    }
  }

  /** The level loop of the new-key branch of `put`, from the top of `node` down. */
  method InsertLevels(head: Node, tail: Node, ghost A: seq<Node>, ghost B: seq<Node>, ghost h: map<Node, nat>, node: Node, level: nat)
    requires Fits(head, tail, A, B, node)
    requires 1 <= level <= MAX_LEVEL
    requires Partial(head, tail, A, B, h, node, level, level) && Bare(A + [node] + B, h[node := level])
    modifies {head, tail, node} + set n | n in A + B
    ensures Partial(head, tail, A, B, h, node, level, 0) && Bare(A + [node] + B, h[node := level])
  {
    var preNode := head;
    var j := level;
    while j > 0
      invariant j <= level
      invariant Partial(head, tail, A, B, h, node, level, j) && Bare(A + [node] + B, h[node := level])
      invariant preNode == head || (preNode in A && preNode in h && h[preNode] >= j)
    {
      var i := j - 1;
      preNode := InsertLevel(head, tail, A, B, h, node, level, i, preNode);
      j := i;
    }
  }

  /**
   * Inserting a fresh `node` of height `level` at position `k` of the bottom
   * level, which must be where its deadline belongs (lib/taskList.ts, the
   * new-key branch of `put`): level by level from the top of the node down,
   * walk forward from the predecessor found on the level above, then link
   * the node in.
   */
  method InsertNode(head: Node, tail: Node, ghost s: seq<Node>, ghost h: map<Node, nat>, node: Node, level: nat, ghost k: nat)
    requires Apart(head, tail, s) && Distinct(s) && Wired(head, tail, s, h)
    requires node != head && node != tail && node !in s
    requires node.next == NoLinks() && node.pre == NoLinks()
    requires 1 <= level <= MAX_LEVEL && k <= |s|
    requires forall y :: y in s[..k] ==> y.task.timeout <= node.task.timeout
    requires forall y :: y in s[k..] ==> y.task.timeout > node.task.timeout
    modifies {head, tail, node} + set n | n in s
    ensures Wired(head, tail, s[..k] + [node] + s[k..], h[node := level])
  {
    ghost var A, B := s[..k], s[k..];
    assert s == A + B;
    BareInsert(A, B, h, node, level);
    PartialStart(head, tail, A, B, h, node, level);
    InsertLevels(head, tail, A, B, h, node, level);
    PartialDone(head, tail, A, B, h, node, level);
  }

  /** A fresh node with no links keeps the insertion bare. */
  lemma BareInsert(A: seq<Node>, B: seq<Node>, h: map<Node, nat>, node: Node, level: nat)
    requires Bare(A + B, h) && node !in A && node !in B
    requires forall l :: 0 <= l < MAX_LEVEL ==> node.next[l] == null && node.pre[l] == null
    ensures Bare(A + [node] + B, h[node := level])
  {
    forall n, l | n in A + [node] + B && n in h[node := level] && h[node := level][n] <= l < MAX_LEVEL
      ensures n.next[l] == null && n.pre[l] == null
    {
      if n != node {
        assert n in A + B;
      }
    }
  }

  /** Before any level is touched, the partial insertion is the old list. */
  lemma PartialStart(head: Node, tail: Node, A: seq<Node>, B: seq<Node>, h: map<Node, nat>, node: Node, level: nat)
    requires Links(head, tail, A + B, h)
    ensures Partial(head, tail, A, B, h, node, level, level)
  {
    forall l | 0 <= l < MAX_LEVEL
      ensures Linked(l, Stage(head, tail, A, B, h, node, level, level, l))
    {
      assert Linked(l, Chain(head, tail, A + B, h, l));
    }
  }

  /** Once every level below `level` runs through `node`, the insertion is wired. */
  lemma PartialDone(head: Node, tail: Node, A: seq<Node>, B: seq<Node>, h: map<Node, nat>, node: Node, level: nat)
    requires Partial(head, tail, A, B, h, node, level, 0) && node !in A && node !in B
    ensures Links(head, tail, A + [node] + B, h[node := level])
  {
    var s', h' := A + [node] + B, h[node := level];
    forall l | 0 <= l < MAX_LEVEL
      ensures Linked(l, Chain(head, tail, s', h', l))
    {
      assert Linked(l, Stage(head, tail, A, B, h, node, level, 0, l));
      if level <= l {
        ChainInsertAbove(head, tail, A, B, h, node, level, l);
      }
    }
  }

  // ---------------------------------------------------------------------
  // Unlinking: `shift`, and the first half of a promotion in `put`

  /** Level `l` while `node` is unlinked from the top down: gone from level `j` up, still there below. */
  ghost function Unstage(head: Node, tail: Node, A: seq<Node>, B: seq<Node>, h: map<Node, nat>, node: Node, j: nat, l: nat)
    : (c: seq<Node>)
    ensures forall x :: x in c ==> x == head || x == tail || x == node || x in A + B
  {
    if j <= l then Chain(head, tail, A + B, h, l) else Chain(head, tail, A + [node] + B, h, l)
  }

  /** The levels of `A + [node] + B` while `node` is unlinked from the top down, level `j` being the last one done. */
  ghost predicate Removing(head: Node, tail: Node, A: seq<Node>, B: seq<Node>, h: map<Node, nat>, node: Node, j: nat)
    reads {head, tail, node} + set n | n in A + B
  {
    forall l :: 0 <= l < MAX_LEVEL ==> Linked(l, Unstage(head, tail, A, B, h, node, j, l))
  }

  /** Moving the unlinking front from `i + 1` down to `i` changes level `i` only. */
  lemma UnstageStep(head: Node, tail: Node, A: seq<Node>, B: seq<Node>, h: map<Node, nat>, node: Node, i: nat, l: nat)
    requires l != i
    ensures Unstage(head, tail, A, B, h, node, i + 1, l) == Unstage(head, tail, A, B, h, node, i, l)
  {
  }

  /** On a level below its height, `node` sits between the parts of `A` and of `B` on that level. */
  lemma ChainWith(head: Node, tail: Node, A: seq<Node>, B: seq<Node>, h: map<Node, nat>, node: Node, i: nat)
    requires node !in A && node !in B && node in h && i < h[node]
    ensures Chain(head, tail, A + [node] + B, h, i) == Before(head, A, h, i) + [node] + After(B, tail, h, i)
  {
    assert h[node := h[node]] == h;
    ChainInsertBelow(head, tail, A, B, h, node, h[node], i);
  }

  /** On a level at or above its height, `node` is not there. */
  lemma ChainWithout(head: Node, tail: Node, A: seq<Node>, B: seq<Node>, h: map<Node, nat>, node: Node, i: nat)
    requires node !in A && node !in B && node in h && h[node] <= i
    ensures Chain(head, tail, A + [node] + B, h, i) == Chain(head, tail, A + B, h, i)
  {
    assert h[node := h[node]] == h;
    ChainInsertAbove(head, tail, A, B, h, node, h[node], i);
  }

  /** A node on a level has a successor and a predecessor there. */
  lemma HasNeighbours(head: Node, tail: Node, s: seq<Node>, h: map<Node, nat>, node: Node, l: nat)
    requires Linked(l, Chain(head, tail, s, h, l)) && node in s && node in h && l < h[node]
    ensures node.GetNext(l) != null && node.GetPre(l) != null
  {
    AboveMember(s, h, l, node);
    var a := Above(s, h, l);
    var c := Chain(head, tail, s, h, l);
    var m :| 0 <= m < |a| && a[m] == node;
    assert c[m + 1] == node;
    assert c[m].GetNext(l) == c[m + 1] && c[m + 1].GetNext(l) == c[m + 2];
  }

  /**
   * Before `node` is unlinked from level `i`: the level runs through it
   * between the part of `A` and the part of `B` on the level, its slots on
   * the level name its two neighbours there, and the other levels are
   * already as they will be afterwards.
   */
  lemma UnlinkSetup(head: Node, tail: Node, A: seq<Node>, B: seq<Node>, h: map<Node, nat>, node: Node, i: nat)
    requires Split(head, tail, A, B, node) && node in h && i < h[node] <= MAX_LEVEL
    requires Removing(head, tail, A, B, h, node, i + 1)
    ensures var c1, c2 := Before(head, A, h, i), After(B, tail, h, i);
      && Linked(i, c1 + [node] + c2) && Distinct(c1 + [node] + c2)
      && node.GetPre(i) == Last(c1) && node.GetNext(i) == c2[0]
      && OnLevel(Last(c1), A + B, h, i) && OnLevel(c2[0], A + B, h, i)
    ensures forall l :: 0 <= l < MAX_LEVEL && l != i ==> Linked(l, Unstage(head, tail, A, B, h, node, i, l))
  {
    var c1, c2 := Before(head, A, h, i), After(B, tail, h, i);
    assert Linked(i, Unstage(head, tail, A, B, h, node, i + 1, i));
    ChainWith(head, tail, A, B, h, node, i);
    assert h[node := h[node]] == h;
    ChainInsertDistinct(head, tail, A, B, h, node, h[node], i);
    var c := c1 + [node] + c2;
    assert c[|c1| - 1].GetNext(i) == c[|c1|] && c[|c1|].GetNext(i) == c[|c1| + 1];
    if |c1| > 1 {
      assert Last(c1) == Above(A, h, i)[|c1| - 2];
      AboveMember(A, h, i, Last(c1));
    }
    if |c2| > 1 {
      assert c2[0] == Above(B, h, i)[0];
      AboveMember(B, h, i, c2[0]);
    }
    forall l | 0 <= l < MAX_LEVEL && l != i
      ensures Linked(l, Unstage(head, tail, A, B, h, node, i, l))
    {
      assert Linked(l, Unstage(head, tail, A, B, h, node, i + 1, l));
      UnstageStep(head, tail, A, B, h, node, i, l);
    }
  }

  /**
   * Unlinks `node` from level `i`, where its neighbours are `preNode` and
   * `nextNode`: the two neighbours are joined; `node`'s own slots stay.
   */
  method UnlinkLevel(head: Node, tail: Node, ghost A: seq<Node>, ghost B: seq<Node>, ghost h: map<Node, nat>,
                     node: Node, i: nat, preNode: Node, nextNode: Node)
    requires Split(head, tail, A, B, node) && node in h && i < h[node] <= MAX_LEVEL
    requires Removing(head, tail, A, B, h, node, i + 1) && Bare(A + B, h)
    requires preNode == node.GetPre(i) && nextNode == node.GetNext(i)
    modifies {head, tail} + set n | n in A + B
    ensures Removing(head, tail, A, B, h, node, i) && Bare(A + B, h)
  {
    UnlinkSetup(head, tail, A, B, h, node, i);
    ghost var c1, c2 := Before(head, A, h, i), After(B, tail, h, i);
    ghost var others := seq(MAX_LEVEL, l requires 0 <= l => Unstage(head, tail, A, B, h, node, i, l));
    assert forall l :: 0 <= l < MAX_LEVEL && l != i ==> Linked(l, others[l]);
    UnlinkBetween(i, preNode, node, nextNode, c1, c2, others, A + B, h);
    ChainSplit(head, tail, A, B, h, i);
    forall l | 0 <= l < MAX_LEVEL
      ensures Linked(l, Unstage(head, tail, A, B, h, node, i, l))
    {
      if l != i {
        assert Linked(l, others[l]);
      }
    }
  }

  /** One level `i` of the unlink loop of a promotion in `put`: `node` is on it, so both neighbours exist. */
  method RemoveLevel(head: Node, tail: Node, ghost A: seq<Node>, ghost B: seq<Node>, ghost h: map<Node, nat>, node: Node, i: nat)
    requires Split(head, tail, A, B, node) && node in h && i < h[node] <= MAX_LEVEL
    requires Removing(head, tail, A, B, h, node, i + 1) && Bare(A + B, h)
    modifies {head, tail} + set n | n in A + B
    ensures Removing(head, tail, A, B, h, node, i) && Bare(A + B, h)
  {
    assert Linked(i, Unstage(head, tail, A, B, h, node, i + 1, i));
    HasNeighbours(head, tail, A + [node] + B, h, node, i);
    var pre := node.GetPre(i);
    var next := node.GetNext(i);
    if pre == null || next == null {
      assert false;
    }
    UnlinkLevel(head, tail, A, B, h, node, i, pre, next);
  }

  /** The unlink loop of a promotion in `put`: every level below the height of `node`, from the top down. */
  method RemoveLevels(head: Node, tail: Node, ghost A: seq<Node>, ghost B: seq<Node>, ghost h: map<Node, nat>, node: Node, level: nat)
    requires Split(head, tail, A, B, node) && node in h && h[node] == level <= MAX_LEVEL
    requires Removing(head, tail, A, B, h, node, level) && Bare(A + B, h)
    modifies {head, tail} + set n | n in A + B
    ensures Removing(head, tail, A, B, h, node, 0) && Bare(A + B, h)
  {
    var j: nat := level;
    while j > 0
      invariant j <= level
      invariant Removing(head, tail, A, B, h, node, j) && Bare(A + B, h)
    {
      var i := j - 1;
      RemoveLevel(head, tail, A, B, h, node, i);
      j := i;
    }
  }

  /** Levels at or above the height of `node` need no unlinking: the list is where the unlinking starts. */
  lemma RemovingStart(head: Node, tail: Node, A: seq<Node>, B: seq<Node>, h: map<Node, nat>, node: Node, j: nat)
    requires Links(head, tail, A + [node] + B, h) && node !in A && node !in B && node in h && h[node] <= j
    ensures Removing(head, tail, A, B, h, node, j)
  {
    forall l | 0 <= l < MAX_LEVEL
      ensures Linked(l, Unstage(head, tail, A, B, h, node, j, l))
    {
      assert Linked(l, Chain(head, tail, A + [node] + B, h, l));
      if j <= l {
        ChainWithout(head, tail, A, B, h, node, l);
      }
    }
  }

  /** A level at or above the height of `node` is unlinked already. */
  lemma RemovingSkip(head: Node, tail: Node, A: seq<Node>, B: seq<Node>, h: map<Node, nat>, node: Node, i: nat)
    requires Removing(head, tail, A, B, h, node, i + 1) && node !in A && node !in B && node in h && h[node] <= i
    ensures Removing(head, tail, A, B, h, node, i)
  {
    forall l | 0 <= l < MAX_LEVEL
      ensures Linked(l, Unstage(head, tail, A, B, h, node, i, l))
    {
      assert Linked(l, Unstage(head, tail, A, B, h, node, i + 1, l));
      if l == i {
        ChainWithout(head, tail, A, B, h, node, l);
      }
    }
  }

  /** Once every level is done, `A + B` is linked without `node`. */
  lemma RemovingDone(head: Node, tail: Node, A: seq<Node>, B: seq<Node>, h: map<Node, nat>, node: Node)
    requires Removing(head, tail, A, B, h, node, 0)
    ensures Links(head, tail, A + B, h)
  {
    forall l | 0 <= l < MAX_LEVEL
      ensures Linked(l, Chain(head, tail, A + B, h, l))
    {
      assert Linked(l, Unstage(head, tail, A, B, h, node, 0, l));
    }
  }

  /**
   * One level `i` of `shift`, whose first node is `node`: a level where it
   * has no links either side is skipped, otherwise it is unlinked there.
   */
  method ShiftLevel(head: Node, tail: Node, ghost B: seq<Node>, ghost h: map<Node, nat>, node: Node, i: nat) returns (unlinked: bool)
    requires Split(head, tail, [], B, node) && node in h && 1 <= h[node] <= MAX_LEVEL && i < MAX_LEVEL
    requires Removing(head, tail, [], B, h, node, i + 1) && Bare(B, h)
    requires h[node] <= i ==> node.next[i] == null && node.pre[i] == null
    modifies {head, tail} + set n | n in B
    ensures unlinked <==> i < h[node]
    ensures Removing(head, tail, [], B, h, node, i) && Bare(B, h)
  {
    if i < h[node] {
      assert Linked(i, Unstage(head, tail, [], B, h, node, i + 1, i));
      HasNeighbours(head, tail, [] + [node] + B, h, node, i);
    }
    var preNode := node.GetPre(i);
    var nextNode := node.GetNext(i);
    if preNode == null && nextNode == null {
      RemovingSkip(head, tail, [], B, h, node, i);
      return false;
    }
    if preNode == null {
      assert false;
    }
    if nextNode == null {
      assert false;
    }
    assert [] + B == B;
    UnlinkLevel(head, tail, [], B, h, node, i, preNode, nextNode);
    unlinked := true;
  }

  // ---------------------------------------------------------------------
  // Promotion: the existing-key branch of `put` when the deadline moves earlier

  /**
   * The walk down of a promotion: from `maxLevel`, step down until `node`
   * has a successor. The level reached is the height of `node`, and that
   * successor is its neighbour on its top level.
   */
  method FindTop(head: Node, tail: Node, ghost s: seq<Node>, ghost h: map<Node, nat>, node: Node, maxLevel: nat)
    returns (level: nat, nextNode: Node)
    requires Wired(head, tail, s, h) && LevelsOK(s, h, maxLevel) && node in s
    ensures node in h && level == h[node] && nextNode == node.GetNext(level - 1)
  {
    assert h[node] <= maxLevel by {
      if maxLevel < MAX_LEVEL {
        AboveMember(s, h, maxLevel, node);
      }
    }
    forall l | 0 <= l < h[node]
      ensures node.GetNext(l) != null
    {
      assert Linked(l, Chain(head, tail, s, h, l));
      HasNeighbours(head, tail, s, h, node, l);
    }
    level := maxLevel;
    var next := node.GetNext(level - 1);
    while next == null
      invariant h[node] <= level <= maxLevel && next == node.GetNext(level - 1)
      decreases level
    {
      if level < 1 {
        assert false;
      }
      level := level - 1;
      next := node.GetNext(level - 1);
    }
    nextNode := next;
  }

  /**
   * The backward walk of a promotion on level `i`: from `nextNode`, step
   * back while the predecessor is a node due later than `t`. The level is
   * `head`, then `AA` (all due no later than `t`), then `BB` (all due
   * later), then `tail`; the walk stops between the two.
   */
  method WalkBackward(i: nat, head: Node, tail: Node, ghost AA: seq<Node>, ghost BB: seq<Node>, t: int, nextNode: Node,
                      ghost others: seq<seq<Node>>, ghost s: seq<Node>, ghost h: map<Node, nat>)
    returns (preNode: Node, found: Node)
    requires head !in BB && Linked(i, ([head] + AA) + (BB + [tail]))
    requires forall y :: y in AA ==> y.task.timeout <= t
    requires forall y :: y in BB ==> y.task.timeout > t
    requires nextNode in BB + [tail]
    ensures preNode == ([head] + AA)[|AA|] && found == (BB + [tail])[0]
    ensures forall l :: 0 <= l < |others| && old(Linked(l, others[l])) ==> Linked(l, others[l])
    ensures old(Bare(s, h)) ==> Bare(s, h)
  {
    ghost var c := ([head] + AA) + (BB + [tail]);
    ghost var q :| 0 <= q < |BB| + 1 && (BB + [tail])[q] == nextNode;
    ghost var j: nat := |AA| + q;
    assert c[j].GetNext(i) == c[j + 1];
    assert c[|AA|] == head || c[|AA|] in AA;
    found := nextNode;
    var pre := found.GetPre(i);
    if pre == null {
      assert false;
    }
    preNode := pre;
    while preNode != head && preNode.GetTask().GetTimeout() > t
      invariant |AA| <= j < |c| - 1 && preNode == c[j] && found == c[j + 1]
      decreases j
    {
      assert c[|AA|] == head || c[|AA|] in AA;
      assert c[j - 1].GetNext(i) == c[j] && c[j].GetNext(i) == c[j + 1];
      var back := found.GetPre(i);
      if back == null {
        assert false;
      }
      found := back;
      pre := preNode.GetPre(i);
      if pre == null {
        assert false;
      }
      preNode := pre;
      j := j - 1;
    }
    assert forall m :: |AA| < m < |c| - 1 ==> c[m] == BB[m - |AA| - 1];
  }

  /**
   * The search half of one level `i` of a promotion: walk back from the
   * successor found on the level above to the last node of `A` on the level
   * (or `head`) and the first of `B` (or `tail`).
   */
  method WalkBackLevel(head: Node, tail: Node, ghost A: seq<Node>, ghost B: seq<Node>, ghost h: map<Node, nat>,
                       node: Node, level: nat, i: nat, nextNode: Node, ghost others: seq<seq<Node>>, ghost s: seq<Node>, ghost h': map<Node, nat>)
    returns (found: Node, next: Node)
    requires Fits(head, tail, A, B, node) && i < level
    requires Linked(i, Chain(head, tail, A + B, h, i))
    requires nextNode == tail || (nextNode in B && nextNode in h && h[nextNode] > i)
    ensures Linked(i, Before(head, A, h, i) + After(B, tail, h, i))
    ensures Distinct(Before(head, A, h, i) + [node] + After(B, tail, h, i))
    ensures found == Last(Before(head, A, h, i)) && next == After(B, tail, h, i)[0]
    ensures found == head || (found in A && found in h && h[found] > i)
    ensures next == tail || (next in B && next in h && h[next] > i)
    ensures forall l :: 0 <= l < |others| && old(Linked(l, others[l])) ==> Linked(l, others[l])
    ensures old(Bare(s, h')) ==> Bare(s, h')
  {
    ghost var AA, BB := Above(A, h, i), Above(B, h, i);
    assert Linked(i, ([head] + AA) + (BB + [tail])) && Distinct(([head] + AA) + [node] + (BB + [tail])) by {
      ChainSplit(head, tail, A, B, h, i);
      ChainInsertBelow(head, tail, A, B, h, node, level, i);
      ChainInsertDistinct(head, tail, A, B, h, node, level, i);
    }
    assert nextNode in BB + [tail] by {
      if nextNode != tail {
        AboveMember(B, h, i, nextNode);
      }
    }
    assert head !in BB;
    found, next := WalkBackward(i, head, tail, AA, BB, node.GetTask().GetTimeout(), nextNode, others, s, h');
    assert found == head || (found in A && found in h && h[found] > i) by {
      if AA != [] {
        AboveMember(A, h, i, found);
      }
    }
    assert next == tail || (next in B && next in h && h[next] > i) by {
      if BB != [] {
        AboveMember(B, h, i, next);
      }
    }
  }

  /**
   * One level `i` of the relink loop of a promotion: find the neighbours on
   * the level walking back, then link `node` in between them. The successor
   * found is where the walk starts on the level below.
   */
  method RelinkLevel(head: Node, tail: Node, ghost A: seq<Node>, ghost B: seq<Node>, ghost h: map<Node, nat>,
                     node: Node, level: nat, i: nat, nextNode: Node)
    returns (found: Node)
    requires Fits(head, tail, A, B, node)
    requires i < level <= MAX_LEVEL
    requires Partial(head, tail, A, B, h, node, level, i + 1) && Bare(A + [node] + B, h[node := level])
    requires nextNode == tail || (nextNode in B && nextNode in h && h[nextNode] > i)
    modifies {head, tail, node} + set n | n in A + B
    ensures Partial(head, tail, A, B, h, node, level, i) && Bare(A + [node] + B, h[node := level])
    ensures found == tail || (found in B && found in h && h[found] > i)
  {
    ghost var s', h' := A + [node] + B, h[node := level];
    ghost var others := seq(MAX_LEVEL, l requires 0 <= l => Stage(head, tail, A, B, h, node, level, i, l));
    assert Linked(i, Chain(head, tail, A + B, h, i)) && forall l :: 0 <= l < MAX_LEVEL && l != i ==> Linked(l, others[l]) by {
      assert Linked(i, Stage(head, tail, A, B, h, node, level, i + 1, i));
      forall l | 0 <= l < MAX_LEVEL && l != i
        ensures Linked(l, others[l])
      {
        assert Linked(l, Stage(head, tail, A, B, h, node, level, i + 1, l));
        StageStep(head, tail, A, B, h, node, level, i, l);
      }
    }
    var preNode;
    preNode, found := WalkBackLevel(head, tail, A, B, h, node, level, i, nextNode, others, s', h');
    assert OnLevel(preNode, s', h', i) && OnLevel(node, s', h', i) && OnLevel(found, s', h', i);
    LinkBetween(i, preNode, node, found, Before(head, A, h, i), After(B, tail, h, i), others, s', h');
    forall l | 0 <= l < MAX_LEVEL
      ensures Linked(l, Stage(head, tail, A, B, h, node, level, i, l))
    {
      if l == i {
        ChainInsertBelow(head, tail, A, B, h, node, level, i);
      } else {
        assert Linked(l, others[l]);
      }
    }
  }

  /** The relink loop of a promotion, from the top of `node` down, starting from its old top successor. */
  method RelinkLevels(head: Node, tail: Node, ghost A: seq<Node>, ghost B: seq<Node>, ghost h: map<Node, nat>,
                      node: Node, level: nat, nextNode: Node)
    requires Fits(head, tail, A, B, node)
    requires 1 <= level <= MAX_LEVEL
    requires Partial(head, tail, A, B, h, node, level, level) && Bare(A + [node] + B, h[node := level])
    requires nextNode == tail || (nextNode in B && nextNode in h && h[nextNode] >= level)
    modifies {head, tail, node} + set n | n in A + B
    ensures Partial(head, tail, A, B, h, node, level, 0) && Bare(A + [node] + B, h[node := level])
  {
    var next := nextNode;
    var j: nat := level;
    while j > 0
      invariant j <= level
      invariant Partial(head, tail, A, B, h, node, level, j) && Bare(A + [node] + B, h[node := level])
      invariant next == tail || (next in B && next in h && h[next] >= j)
    {
      var i := j - 1;
      next := RelinkLevel(head, tail, A, B, h, node, level, i, next);
      j := i;
    }
  }

  /**
   * Where a promotion starts: `s` is `A + [node] + B`, no level needs
   * unlinking yet, and the old successor of `node` on its top level lies
   * in the part of the list that will follow it.
   */
  lemma PromoteStart(head: Node, tail: Node, s: seq<Node>, h: map<Node, nat>, node: Node, p: nat, k: nat, nextNode: Node)
    requires Apart(head, tail, s) && Distinct(s) && Wired(head, tail, s, h)
    requires p < |s| && s[p] == node && k <= p && node in h && nextNode == node.GetNext(h[node] - 1)
    ensures Split(head, tail, s[..p], s[p + 1..], node)
    ensures Removing(head, tail, s[..p], s[p + 1..], h, node, h[node]) && Bare(s[..p] + s[p + 1..], h)
    ensures forall l :: h[node] <= l < MAX_LEVEL ==> node.next[l] == null && node.pre[l] == null
    ensures nextNode == tail || (nextNode in (s[..p] + s[p + 1..])[k..] && nextNode in h && h[nextNode] >= h[node])
  {
    var i := h[node] - 1;
    assert Linked(i, Chain(head, tail, s, h, i));
    var A, B := s[..p], s[p + 1..];
    assert s == A + [node] + B;
    DistinctRemove(s, p);
    RemovingStart(head, tail, A, B, h, node, h[node]);
    ChainWith(head, tail, A, B, h, node, i);
    var c1, c2 := Before(head, A, h, i), After(B, tail, h, i);
    var c := c1 + [node] + c2;
    assert c[|c1|] == node && c[|c1|].GetNext(i) == c[|c1| + 1];
    if |c2| > 1 {
      assert nextNode == Above(B, h, i)[0];
      AboveMember(B, h, i, nextNode);
      assert (A + B)[k..] == A[k..] + B;
    }
  }

  /**
   * Halfway through a promotion: once `node` is off every level, the list
   * without it is wired, and relinking it at position `k` can start.
   */
  lemma PromoteMiddle(head: Node, tail: Node, A: seq<Node>, B: seq<Node>, h: map<Node, nat>, node: Node, k: nat)
    requires Split(head, tail, A, B, node) && node in h && 1 <= h[node] <= MAX_LEVEL && k <= |A + B|
    requires Removing(head, tail, A, B, h, node, 0) && Bare(A + B, h)
    requires forall l :: h[node] <= l < MAX_LEVEL ==> node.next[l] == null && node.pre[l] == null
    ensures Split(head, tail, (A + B)[..k], (A + B)[k..], node)
    ensures Partial(head, tail, (A + B)[..k], (A + B)[k..], h, node, h[node], h[node])
    ensures Bare((A + B)[..k] + [node] + (A + B)[k..], h[node := h[node]])
  {
    var A', B' := (A + B)[..k], (A + B)[k..];
    assert A + B == A' + B';
    RemovingDone(head, tail, A, B, h, node);
    PartialStart(head, tail, A', B', h, node, h[node]);
    assert h[node := h[node]] == h;
    forall n, l | n in A' + [node] + B' && n in h && h[n] <= l < MAX_LEVEL
      ensures n.next[l] == null && n.pre[l] == null
    {
      if n != node {
        assert n in A + B;
      }
    }
  }

  /**
   * A promotion (the existing-key branch of `put` when the deadline moves
   * earlier): `node`, at position `p` of the bottom level `s` and already
   * carrying its new deadline, moves to position `k` of the list without
   * it, on the same levels. Its height is found by walking down from
   * `maxLevel`; it is unlinked from every level it is on, then linked back,
   * walking back from its old successor on its top level.
   */
  method PromoteNode(head: Node, tail: Node, ghost s: seq<Node>, ghost h: map<Node, nat>, node: Node, ghost p: nat, ghost k: nat,
                     maxLevel: nat)
    requires Apart(head, tail, s) && Distinct(s) && Wired(head, tail, s, h) && LevelsOK(s, h, maxLevel)
    requires p < |s| && s[p] == node && k <= p
    requires forall y :: y in (s[..p] + s[p + 1..])[..k] ==> y.task.timeout <= node.task.timeout
    requires forall y :: y in (s[..p] + s[p + 1..])[k..] ==> y.task.timeout > node.task.timeout
    modifies {head, tail} + set n | n in s
    ensures Wired(head, tail, (s[..p] + s[p + 1..])[..k] + [node] + (s[..p] + s[p + 1..])[k..], h)
  {
    var level, nextNode := FindTop(head, tail, s, h, node, maxLevel);
    ghost var A, B := s[..p], s[p + 1..];
    PromoteStart(head, tail, s, h, node, p, k, nextNode);
    RemoveLevels(head, tail, A, B, h, node, level);
    PromoteMiddle(head, tail, A, B, h, node, k);
    ghost var A', B' := (A + B)[..k], (A + B)[k..];
    RelinkLevels(head, tail, A', B', h, node, level, nextNode);
    PromoteDone(head, tail, s, h, node, p, k);
  }

  /** Once `node` is linked back on every level below its height, the moved list is wired. */
  lemma PromoteDone(head: Node, tail: Node, s: seq<Node>, h: map<Node, nat>, node: Node, p: nat, k: nat)
    requires p < |s| && s[p] == node && k <= |s| - 1
    requires (forall n :: n in s ==> n in h) && (forall n :: n in h ==> 1 <= h[n] <= MAX_LEVEL)
    requires Split(head, tail, (s[..p] + s[p + 1..])[..k], (s[..p] + s[p + 1..])[k..], node)
    requires Partial(head, tail, (s[..p] + s[p + 1..])[..k], (s[..p] + s[p + 1..])[k..], h, node, h[node], 0)
    requires Bare((s[..p] + s[p + 1..])[..k] + [node] + (s[..p] + s[p + 1..])[k..], h[node := h[node]])
    ensures Wired(head, tail, (s[..p] + s[p + 1..])[..k] + [node] + (s[..p] + s[p + 1..])[k..], h)
  {
    var R := s[..p] + s[p + 1..];
    PartialDone(head, tail, R[..k], R[k..], h, node, h[node]);
    assert h[node := h[node]] == h;
    assert s == s[..p] + [node] + s[p + 1..];
    assert forall n :: n in R[..k] + [node] + R[k..] ==> n in s;
  }

  // ---------------------------------------------------------------------
  // Empty levels and `maxLevel`

  /** On a linked level, `head` points at `tail` exactly when no node is on the level. */
  lemma LevelEmptyIff(head: Node, tail: Node, s: seq<Node>, h: map<Node, nat>, l: nat)
    requires Apart(head, tail, s) && Linked(l, Chain(head, tail, s, h, l))
    ensures head.GetNext(l) == tail <==> Above(s, h, l) == []
  {
    var c := Chain(head, tail, s, h, l);
    assert c[0].GetNext(l) == c[1];
    if Above(s, h, l) != [] {
      assert c[1] == Above(s, h, l)[0] && c[1] in Above(s, h, l);
    }
  }

  /**
   * The count kept by the unlink loop of `shift` on `[node] + B`: every
   * level above `i` is empty exactly from `m` up.
   */
  ghost predicate Counted(B: seq<Node>, h: map<Node, nat>, i: int, m: nat)
  {
    forall l :: 0 <= l < MAX_LEVEL && i < l ==> (Above(B, h, l) == [] <==> m <= l)
  }

  /** Above the old `maxLevel` the list without its first node is empty already. */
  lemma CountStart(node: Node, B: seq<Node>, h: map<Node, nat>, m0: nat)
    requires LevelsOK([node] + B, h, m0)
    ensures Counted(B, h, m0 - 1, m0)
  {
    forall l | 0 <= l < MAX_LEVEL && m0 - 1 < l
      ensures Above(B, h, l) == [] <==> m0 <= l
    {
      AboveAppend([node], B, h, l);
    }
  }

  /**
   * One step of the count: level `i` of `B` is empty only if the first node
   * was on it and it was the top non-empty level, and then `maxLevel` drops
   * by one; otherwise the count stands.
   */
  lemma CountStep(node: Node, B: seq<Node>, h: map<Node, nat>, i: nat, m: nat, m0: nat)
    requires node in h && LevelsOK([node] + B, h, m0) && i < m0 && i + 1 <= m <= MAX_LEVEL && Counted(B, h, i, m)
    ensures Above(B, h, i) == [] ==> i < h[node] && m == i + 1 && Counted(B, h, i - 1, m - 1)
    ensures Above(B, h, i) != [] ==> Counted(B, h, i - 1, m)
  {
    AboveAppend([node], B, h, i);
    if Above(B, h, i) == [] && i + 1 < MAX_LEVEL {
      AboveNested(B, h, i);
    }
  }

  /** When the count reaches the bottom, it is the `maxLevel` of `B`. */
  lemma CountDone(B: seq<Node>, h: map<Node, nat>, m: nat)
    requires m <= MAX_LEVEL && Counted(B, h, -1, m)
    ensures LevelsOK(B, h, m)
  {
  }

  /** Sentinels pointing at each other on every level make an empty, wired list with no level in use. */
  lemma EmptyWired(head: Node, tail: Node)
    requires head != tail
    requires forall l :: 0 <= l < MAX_LEVEL ==> head.next[l] == tail && tail.pre[l] == head
    ensures Apart(head, tail, []) && Wired(head, tail, [], map[]) && LevelsOK([], map[], 0)
  {
    var s: seq<Node>, h: map<Node, nat> := [], map[];
    forall l | 0 <= l < MAX_LEVEL
      ensures Linked(l, Chain(head, tail, s, h, l))
    {
      assert Above(s, h, l) == [];
      var c := Chain(head, tail, s, h, l);
      assert c == [head, tail];
      assert head.GetNext(l) == tail && tail.GetPre(l) == head;
      assert c[0].GetNext(l) == c[1] && c[1].GetPre(l) == c[0];
    }
  }

  /**
   * Where `shift` starts on a non-empty list `s`: the first node is on at
   * least one level and on at most `m` of them, no level needs unlinking
   * at or above `m`, and the count of non-empty levels stands at `m`.
   */
  lemma ShiftStart(head: Node, tail: Node, s: seq<Node>, h: map<Node, nat>, m: nat)
    requires Apart(head, tail, s) && Distinct(s) && Wired(head, tail, s, h) && LevelsOK(s, h, m) && s != []
    ensures Split(head, tail, [], s[1..], s[0]) && s[0] in h && 1 <= h[s[0]] <= m
    ensures Shifting(head, tail, s[1..], h, s[0], m - 1, m) && LevelsOK([s[0]] + s[1..], h, m)
    ensures (forall n :: n in s[1..] ==> n in h) && (forall n :: n in h ==> 1 <= h[n] <= MAX_LEVEL)
  {
    var node, B := s[0], s[1..];
    assert s == [] + [node] + B && s == [node] + B;
    DistinctRemove(s, 0);
    assert h[node] <= m by {
      if m < MAX_LEVEL {
        AboveMember(s, h, m, node);
      }
    }
    RemovingStart(head, tail, [], B, h, node, m);
    CountStart(node, B, h, m);
  }

  /**
   * The state of the unlink loop of `shift` on `[node] + B` before level
   * `i`: the levels above `i` are done and counted by `m`.
   */
  ghost predicate Shifting(head: Node, tail: Node, B: seq<Node>, h: map<Node, nat>, node: Node, i: int, m: nat)
    reads {head, tail, node} + set n | n in B
  {
    && -1 <= i && i + 1 <= m <= MAX_LEVEL && node in h && 1 <= h[node] <= MAX_LEVEL
    && Counted(B, h, i, m) && Removing(head, tail, [], B, h, node, i + 1) && Bare(B, h)
    && (forall l :: h[node] <= l < MAX_LEVEL ==> node.next[l] == null && node.pre[l] == null)
  }

  /**
   * The count after level `i` of `shift`: `maxLevel` drops by one exactly
   * when the first node was unlinked from level `i` and `head` now points
   * at `tail` there.
   */
  lemma ShiftCount(head: Node, tail: Node, B: seq<Node>, h: map<Node, nat>, node: Node, i: nat, m: nat, m0: nat, linked: bool)
    requires Apart(head, tail, B) && node in h && LevelsOK([node] + B, h, m0) && i < m0
    requires i + 1 <= m <= MAX_LEVEL && Counted(B, h, i, m) && (linked <==> i < h[node])
    requires Linked(i, Unstage(head, tail, [], B, h, node, i, i))
    ensures linked && head.GetNext(i) == tail ==> 1 <= m && i <= m - 1 && Counted(B, h, i - 1, m - 1)
    ensures !(linked && head.GetNext(i) == tail) ==> i <= m && Counted(B, h, i - 1, m)
  {
    assert [] + B == B;
    LevelEmptyIff(head, tail, B, h, i);
    CountStep(node, B, h, i, m, m0);
  }

  /** After the unlink loop of `shift`, the rest `B` is a wired skip list counted by `m`. */
  lemma ShiftEnd(head: Node, tail: Node, B: seq<Node>, h: map<Node, nat>, node: Node, m: nat)
    requires (forall n :: n in B ==> n in h) && (forall n :: n in h ==> 1 <= h[n] <= MAX_LEVEL)
    requires Shifting(head, tail, B, h, node, -1, m)
    ensures Wired(head, tail, B, h) && LevelsOK(B, h, m)
  {
    RemovingDone(head, tail, [], B, h, node);
    assert [] + B == B;
    CountDone(B, h, m);
  }

  /**
   * Inserting a node of height `level` leaves exactly the levels below the
   * larger of `m` and `level` in use.
   */
  lemma InsertCount(s: seq<Node>, h: map<Node, nat>, m: nat, node: Node, level: nat, k: nat)
    requires LevelsOK(s, h, m) && node !in s && 1 <= level <= MAX_LEVEL && k <= |s|
    ensures LevelsOK(s[..k] + [node] + s[k..], h[node := level], if level > m then level else m)
  {
    assert s == s[..k] + s[k..];
    forall l | 0 <= l < MAX_LEVEL
      ensures Above(s[..k] + [node] + s[k..], h[node := level], l)
        == Above(s[..k], h, l) + (if level > l then [node] else []) + Above(s[k..], h, l)
      ensures Above(s, h, l) == Above(s[..k], h, l) + Above(s[k..], h, l)
    {
      AboveInsert(s[..k], node, s[k..], h, level, l);
      AboveAppend(s[..k], s[k..], h, l);
    }
    var s', h', m' := s[..k] + [node] + s[k..], h[node := level], if level > m then level else m;
    forall l | 0 <= l < MAX_LEVEL
      ensures Above(s', h', l) == [] <==> m' <= l
    {
      assert |Above(s', h', l)| == |Above(s, h, l)| + (if level > l then 1 else 0);
    }
  }

  /** The levels in use depend only on which nodes are listed, not on their order. */
  lemma LevelsSame(s: seq<Node>, t: seq<Node>, h: map<Node, nat>, m: nat)
    requires LevelsOK(s, h, m) && forall x :: x in s <==> x in t
    ensures LevelsOK(t, h, m)
  {
    forall l | 0 <= l < MAX_LEVEL
      ensures Above(s, h, l) == [] <==> Above(t, h, l) == []
    {
      AboveEmptySame(s, t, h, l);
    }
  }
}
