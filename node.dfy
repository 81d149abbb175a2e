/** A skip-list node: one task and its neighbours on every level (lib/node.ts). */
module Nodes {
  import opened Constants
  import opened Tasks

  /** One link slot per level: a node's row of successors or of predecessors. */
  type Row = r: seq<Node?> | |r| == MAX_LEVEL witness NoLinks()

  /** A row of MAX_LEVEL empty link slots. */
  function NoLinks(): (links: seq<Node?>)
    ensures |links| == MAX_LEVEL
    ensures forall l :: 0 <= l < MAX_LEVEL ==> links[l] == null
  {
    seq(MAX_LEVEL, _ => null)
  }

  /**
   * A node wraps one task for its whole life; `next[l]` and `pre[l]` are its
   * successor and predecessor on level `l`, or null where it is not linked.
   */
  class Node {
    const task: Task
    var next: Row
    var pre: Row

    /** A fresh node is linked nowhere: MAX_LEVEL null slots on each side. */
    constructor (task: Task)
      ensures this.task == task
      ensures next == NoLinks() && pre == NoLinks()
    {
      this.task := task;
      next := NoLinks();
      pre := NoLinks();
    }

    function GetTask(): Task
    {
      task
    }

    /** The successor on `level`; outside the slots there is none. */
    function GetNext(level: int): Node?
      reads this
    {
      if 0 <= level < |next| then next[level] else null
    }

    /** The predecessor on `level`; outside the slots there is none. */
    function GetPre(level: int): Node?
      reads this
    {
      if 0 <= level < |pre| then pre[level] else null
    }

    /** Sets one successor slot; every other slot and every predecessor stays. */
    method SetNext(level: nat, node: Node)
      requires level < MAX_LEVEL
      modifies this`next
      ensures next == old(next)[level := node]
      ensures GetNext(level) == node
      ensures forall l :: l != level ==> GetNext(l) == old(GetNext(l))
    {
      next := next[level := node];
    }

    /** Sets one predecessor slot; every other slot and every successor stays. */
    method SetPre(level: nat, node: Node)
      requires level < MAX_LEVEL
      modifies this`pre
      ensures pre == old(pre)[level := node]
      ensures GetPre(level) == node
      ensures forall l :: l != level ==> GetPre(l) == old(GetPre(l))
    {
      pre := pre[level := node];
    }
  }

  /**
   * The chain `c` is doubly linked on `level`: each node's successor is the
   * next one in `c`, and each node's predecessor the one before it.
   */
  ghost predicate Linked(level: nat, c: seq<Node>)
    reads c
  {
    forall m {:trigger c[m].GetNext(level)} :: 0 <= m < |c| - 1 ==> c[m].GetNext(level) == c[m + 1] && c[m + 1].GetPre(level) == c[m]
  }

  /** No node occurs twice. */
  ghost predicate Distinct<T>(c: seq<T>)
  {
    forall i, j :: 0 <= i < j < |c| ==> c[i] != c[j]
  }
}
