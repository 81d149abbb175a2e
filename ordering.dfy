/**
 * The registry seen from outside: the pending tasks in the order they will
 * be popped. This is the specification the skip list is proved against.
 */
module Ordering {
  import opened Utils
  import opened Constants

  /** What the registry records of one pending task. */
  datatype Entry = Entry(key: Key, timeout: int, action: Action, callbacks: seq<Action>, priority: Priority)

  /** Deadlines never decrease along the queue. */
  predicate Sorted(q: seq<Entry>)
  {
    forall i, j :: 0 <= i < j < |q| ==> q[i].timeout <= q[j].timeout
  }

  /** The keys present in the queue. */
  function Keys(q: seq<Entry>): set<Key>
  {
    set e | e in q :: e.key
  }

  /** No key occurs twice. */
  predicate KeysDistinct(q: seq<Entry>)
  {
    forall i, j :: 0 <= i < j < |q| ==> q[i].key != q[j].key
  }

  /**
   * The length of the longest prefix whose deadlines are at most `t`: the
   * place where a task due at `t` goes, after every task due no later.
   */
  function LeadingLE(q: seq<Entry>, t: int): (k: nat)
    ensures k <= |q|
    ensures forall m :: 0 <= m < k ==> q[m].timeout <= t
    ensures k < |q| ==> q[k].timeout > t
  {
    if q == [] || q[0].timeout > t then 0 else 1 + LeadingLE(q[1..], t)
  }

  /**
   * Inserting a task: walk forward past every task due no later than it,
   * so equal deadlines are served first-in, first-out.
   */
  function InsertEntry(q: seq<Entry>, e: Entry): (r: seq<Entry>)
    ensures |r| == |q| + 1
  {
    if q == [] then [e]
    else if q[0].timeout <= e.timeout then [q[0]] + InsertEntry(q[1..], e)
    else [e] + q
  }

  /** The queue with the entry at `p` taken out. */
  function RemoveAt(q: seq<Entry>, p: nat): (r: seq<Entry>)
    requires p < |q|
    ensures |r| == |q| - 1
  {
    q[..p] + q[p + 1..]
  }

  /** Where the entry for `key` is. */
  function IndexOfKey(q: seq<Entry>, key: Key): (p: nat)
    requires key in Keys(q)
    ensures p < |q| && q[p].key == key
  {
    if q[0].key == key then 0
    else
      assert key in Keys(q[1..]) by {
        var e :| e in q && e.key == key;
        assert e in q[1..];
      }
      1 + IndexOfKey(q[1..], key)
  }

  /** The queue without the entry of `key` (all other entries, in order). */
  function Without(q: seq<Entry>, key: Key): (r: seq<Entry>)
    ensures |r| <= |q|
  {
    if q == [] then []
    else (if q[0].key == key then [] else [q[0]]) + Without(q[1..], key)
  }

  /**
   * `put` as seen from outside. A new key is inserted with deadline `t`.
   * An existing key gets the new action and the extra callback; when `t` is
   * strictly earlier than its deadline, it moves exactly where a fresh
   * insertion at `t` would put it; otherwise it keeps its place.
   */
  function Put(q: seq<Entry>, key: Key, action: Action, callback: Option<Action>, priority: Priority, t: int): (r: seq<Entry>)
    ensures |r| == if key in Keys(q) then |q| else |q| + 1
  {
    if key in Keys(q) then
      var p := IndexOfKey(q, key);
      var merged := q[p].(action := action, callbacks := q[p].callbacks + CallbackList(callback));
      if t < q[p].timeout then InsertEntry(RemoveAt(q, p), merged.(timeout := t)) else q[p := merged]
    else
      InsertEntry(q, Entry(key, t, action, CallbackList(callback), priority))
  }

  // ---------------------------------------------------------------------
  // Insertion

  /** Insertion puts the new entry right after the prefix due no later than it. */
  lemma {:induction false} InsertSplit(q: seq<Entry>, e: Entry)
    ensures InsertEntry(q, e) == q[..LeadingLE(q, e.timeout)] + [e] + q[LeadingLE(q, e.timeout)..]
  {
    if q != [] && q[0].timeout <= e.timeout {
      InsertSplit(q[1..], e);
      assert q == [q[0]] + q[1..];
    }
  }

  /**
   * In a sorted queue, the inserted entry follows every entry due no later
   * (so equal deadlines keep their arrival order) and precedes every entry
   * due later, and the result is sorted.
   */
  lemma InsertPlacement(q: seq<Entry>, e: Entry)
    requires Sorted(q)
    ensures var r := InsertEntry(q, e); var k := LeadingLE(q, e.timeout);
      && r == q[..k] + [e] + q[k..]
      && (forall m :: 0 <= m < k ==> r[m].timeout <= e.timeout)
      && (forall m :: k < m < |r| ==> r[m].timeout > e.timeout)
      && Sorted(r)
  {
    var k := LeadingLE(q, e.timeout);
    InsertSplit(q, e);
    SortedInsertAt(q, k, e);
  }

  /** A sorted queue stays sorted when `e` goes between the entries due no later and those due later. */
  lemma SortedInsertAt(q: seq<Entry>, k: nat, e: Entry)
    requires Sorted(q) && k <= |q|
    requires forall m :: 0 <= m < k ==> q[m].timeout <= e.timeout
    requires k < |q| ==> q[k].timeout > e.timeout
    ensures var r := q[..k] + [e] + q[k..];
      && (forall m :: 0 <= m < k ==> r[m].timeout <= e.timeout)
      && (forall m :: k < m < |r| ==> r[m].timeout > e.timeout)
      && Sorted(r)
  {
    var r := q[..k] + [e] + q[k..];
    assert forall m :: 0 <= m < k ==> r[m] == q[m];
    assert forall m :: k < m < |r| ==> r[m] == q[m - 1];
    assert r[k] == e;
  }

  /** Two tasks pushed with the same deadline are served in push order. */
  lemma EqualDeadlinesFifo(q: seq<Entry>, e1: Entry, e2: Entry)
    requires Sorted(q) && e1.timeout == e2.timeout
    ensures var r := InsertEntry(InsertEntry(q, e1), e2);
      exists i, j :: 0 <= i < j < |r| && r[i] == e1 && r[j] == e2
  {
    var q1 := InsertEntry(q, e1);
    InsertPlacement(q, e1);
    var i := LeadingLE(q, e1.timeout);
    assert q1[i] == e1;
    InsertPlacement(q1, e2);
    var j := LeadingLE(q1, e2.timeout);
    assert i < j;
    var r := InsertEntry(q1, e2);
    assert r[i] == q1[i] && r[j] == e2;
  }

  // ---------------------------------------------------------------------
  // Keys

  lemma KeysAppend(a: seq<Entry>, b: seq<Entry>)
    ensures Keys(a + b) == Keys(a) + Keys(b)
  {
    forall k | k in Keys(a + b)
      ensures k in Keys(a) + Keys(b)
    {
      var e :| e in a + b && e.key == k;
    }
    forall k | k in Keys(a) + Keys(b)
      ensures k in Keys(a + b)
    {
      if k in Keys(a) {
        var e :| e in a && e.key == k;
        assert e in a + b;
      } else {
        var e :| e in b && e.key == k;
        assert e in a + b;
      }
    }
  }

  /** Putting an entry with a new key between two parts keeps keys unique. */
  lemma KeysInsert(a: seq<Entry>, e: Entry, b: seq<Entry>)
    requires KeysDistinct(a + b) && e.key !in Keys(a + b)
    ensures KeysDistinct(a + [e] + b) && Keys(a + [e] + b) == Keys(a + b) + {e.key}
  {
    var s, r := a + b, a + [e] + b;
    KeysAppend(a, b);
    KeysAppend(a, [e]);
    KeysAppend(a + [e], b);
    assert Keys([e]) == {e.key};
    forall i, j | 0 <= i < j < |r|
      ensures r[i].key != r[j].key
    {
      if j < |a| || i > |a| {
        var i', j' := if i < |a| then i else i - 1, if j < |a| then j else j - 1;
        assert r[i] == s[i'] && r[j] == s[j'];
      } else if i == |a| {
        assert r[j] == s[j - 1] && s[j - 1] in s;
      } else if j == |a| {
        assert r[i] == s[i] && s[i] in s;
      } else {
        assert r[i] == s[i] && r[j] == s[j - 1];
      }
    }
  }

  /** A queue with unique keys has as many keys as entries. */
  lemma {:induction false} KeysCount(q: seq<Entry>)
    requires KeysDistinct(q)
    ensures |Keys(q)| == |q|
  {
    if q != [] {
      HeadKeyFresh(q);
      KeysCount(q[1..]);
      assert q == [q[0]] + q[1..];
      KeysAppend([q[0]], q[1..]);
      assert Keys([q[0]]) == {q[0].key};
    }
  }

  /** With unique keys, the first key is not among the rest, whose keys are unique too. */
  lemma HeadKeyFresh(q: seq<Entry>)
    requires KeysDistinct(q) && q != []
    ensures q[0].key !in Keys(q[1..]) && KeysDistinct(q[1..])
  {
    var rest := q[1..];
    forall e | e in rest
      ensures e.key != q[0].key
    {
      var m :| 0 <= m < |rest| && rest[m] == e;
      assert rest[m] == q[m + 1];
    }
  }

  /** Taking an entry out removes exactly its key. */
  lemma KeysRemove(q: seq<Entry>, p: nat)
    requires p < |q| && KeysDistinct(q)
    ensures KeysDistinct(RemoveAt(q, p)) && Keys(RemoveAt(q, p)) == Keys(q) - {q[p].key}
  {
    var s := RemoveAt(q, p);
    assert q == q[..p] + [q[p]] + q[p + 1..];
    assert forall m :: 0 <= m < |s| ==> s[m] == q[if m < p then m else m + 1];
    forall k | k in Keys(s)
      ensures k in Keys(q) - {q[p].key}
    {
      var m :| 0 <= m < |s| && s[m].key == k;
      assert q[if m < p then m else m + 1] in q;
    }
    forall k | k in Keys(q) - {q[p].key}
      ensures k in Keys(s)
    {
      var m :| 0 <= m < |q| && q[m].key == k;
      assert s[if m < p then m else m - 1] in s;
    }
  }

  /** Removing the entry of a key leaves the other entries in their order. */
  lemma {:induction false} WithoutRemoveAt(q: seq<Entry>, p: nat)
    requires p < |q| && KeysDistinct(q)
    ensures Without(q, q[p].key) == RemoveAt(q, p)
  {
    if p == 0 {
      WithoutAbsent(q[1..], q[0].key);
      assert RemoveAt(q, 0) == q[1..];
    } else {
      WithoutRemoveAt(q[1..], p - 1);
      assert RemoveAt(q, p) == [q[0]] + RemoveAt(q[1..], p - 1);
    }
  }

  lemma {:induction false} WithoutAbsent(q: seq<Entry>, key: Key)
    requires forall m :: 0 <= m < |q| ==> q[m].key != key
    ensures Without(q, key) == q
  {
    if q != [] {
      WithoutAbsent(q[1..], key);
      assert q == [q[0]] + q[1..];
    }
  }

  lemma {:induction false} WithoutAppend(a: seq<Entry>, b: seq<Entry>, key: Key)
    ensures Without(a + b, key) == Without(a, key) + Without(b, key)
  {
    if a == [] {
      assert a + b == b;
    } else {
      assert (a + b)[1..] == a[1..] + b;
      WithoutAppend(a[1..], b, key);
    }
  }

  // ---------------------------------------------------------------------
  // put

  /**
   * `put` keeps the queue sorted and its keys unique, and afterwards the
   * queue holds exactly the old keys plus `key`.
   */
  lemma PutInvariant(q: seq<Entry>, key: Key, action: Action, callback: Option<Action>, priority: Priority, t: int)
    requires Sorted(q) && KeysDistinct(q)
    ensures var r := Put(q, key, action, callback, priority, t);
      Sorted(r) && KeysDistinct(r) && Keys(r) == Keys(q) + {key}
  {
    if key in Keys(q) {
      var p := IndexOfKey(q, key);
      var merged := q[p].(action := action, callbacks := q[p].callbacks + CallbackList(callback));
      if t < q[p].timeout {
        PromoteInvariant(q, p, merged.(timeout := t));
      } else {
        ReplaceInvariant(q, p, merged);
      }
    } else {
      InsertInvariant(q, Entry(key, t, action, CallbackList(callback), priority));
    }
  }

  /** Replacing an entry by one with the same key and deadline keeps the queue sorted with the same keys. */
  lemma ReplaceInvariant(q: seq<Entry>, p: nat, e: Entry)
    requires Sorted(q) && KeysDistinct(q) && p < |q| && e.key == q[p].key && e.timeout == q[p].timeout
    ensures var r := q[p := e]; Sorted(r) && KeysDistinct(r) && Keys(r) == Keys(q)
  {
    var r := q[p := e];
    assert forall m :: 0 <= m < |r| ==> r[m].timeout == q[m].timeout && r[m].key == q[m].key;
    forall k | k in Keys(r) ensures k in Keys(q) {
      var m :| 0 <= m < |r| && r[m].key == k;
      assert q[m] in q;
    }
    forall k | k in Keys(q) ensures k in Keys(r) {
      var m :| 0 <= m < |q| && q[m].key == k;
      assert r[m] in r;
    }
  }

  /** Inserting an entry with a new key keeps the queue sorted with unique keys, and adds its key. */
  lemma InsertInvariant(q: seq<Entry>, e: Entry)
    requires Sorted(q) && KeysDistinct(q) && e.key !in Keys(q)
    ensures var r := InsertEntry(q, e); Sorted(r) && KeysDistinct(r) && Keys(r) == Keys(q) + {e.key}
  {
    var k := LeadingLE(q, e.timeout);
    var a, b := q[..k], q[k..];
    assert q == a + b;
    KeysInsert(a, e, b);
    InsertPlacement(q, e);
    assert InsertEntry(q, e) == a + [e] + b;
  }

  /** Taking an entry out keeps a queue sorted. */
  lemma SortedRemove(q: seq<Entry>, p: nat)
    requires Sorted(q) && p < |q|
    ensures Sorted(RemoveAt(q, p))
  {
    var rest := RemoveAt(q, p);
    assert forall m :: 0 <= m < |rest| ==> rest[m] == q[if m < p then m else m + 1];
  }

  /** Re-inserting the entry at `p` with the same key keeps the queue sorted with unique keys. */
  lemma PromoteInvariant(q: seq<Entry>, p: nat, e: Entry)
    requires Sorted(q) && KeysDistinct(q) && p < |q| && e.key == q[p].key
    ensures var r := InsertEntry(RemoveAt(q, p), e);
      Sorted(r) && KeysDistinct(r) && Keys(r) == Keys(q)
  {
    var rest := RemoveAt(q, p);
    SortedRemove(q, p);
    KeysRemove(q, p);
    InsertPlacement(rest, e);
    var k := LeadingLE(rest, e.timeout);
    assert rest == rest[..k] + rest[k..];
    KeysInsert(rest[..k], e, rest[k..]);
  }

  /**
   * Promotion is a fresh insertion: when `put` brings an existing key
   * forward, the result is the queue without that key, with the merged entry
   * inserted at the new deadline exactly as a new task would be.
   */
  lemma PromoteIsFreshInsert(q: seq<Entry>, key: Key, action: Action, callback: Option<Action>, priority: Priority, t: int)
    requires KeysDistinct(q) && key in Keys(q) && t < q[IndexOfKey(q, key)].timeout
    ensures var e := q[IndexOfKey(q, key)];
      Put(q, key, action, callback, priority, t)
        == InsertEntry(Without(q, key), e.(action := action, callbacks := e.callbacks + CallbackList(callback), timeout := t))
  {
    WithoutRemoveAt(q, IndexOfKey(q, key));
  }

  /**
   * A later deadline never moves a task: `put` on an existing key with a
   * deadline no earlier than its own changes only that entry's action and
   * callbacks, in place.
   */
  lemma PutKeepsPlace(q: seq<Entry>, key: Key, action: Action, callback: Option<Action>, priority: Priority, t: int)
    requires key in Keys(q) && t >= q[IndexOfKey(q, key)].timeout
    ensures var r := Put(q, key, action, callback, priority, t); var p := IndexOfKey(q, key);
      && |r| == |q|
      && (forall m :: 0 <= m < |q| && m != p ==> r[m] == q[m])
      && r[p].key == key && r[p].timeout == q[p].timeout && r[p].priority == q[p].priority
      && r[p].action == action && r[p].callbacks == q[p].callbacks + CallbackList(callback)
  {
  }

  /**
   * Under the default table, a HIGH task pushed less than 750 ms after a
   * NORMAL one is due first and is served first.
   */
  lemma HighOvertakesNormal(k1: Key, a1: Action, n1: int, k2: Key, a2: Action, n2: int)
    requires k1 != k2
    requires n1 <= n2 < n1 + DEFAULT_PRIORITY_TIMEOUT.Get(Normal) - DEFAULT_PRIORITY_TIMEOUT.Get(High)
    ensures var q1 := Put([], k1, a1, None, Normal, n1 + DEFAULT_PRIORITY_TIMEOUT.Get(Normal));
      var q := Put(q1, k2, a2, None, High, n2 + DEFAULT_PRIORITY_TIMEOUT.Get(High));
      && |q| == 2 && q[0].key == k2 && q[1].key == k1
      && q[0].timeout < q[1].timeout
  {
    var q1 := Put([], k1, a1, None, Normal, n1 + DEFAULT_PRIORITY_TIMEOUT.Get(Normal));
    assert Keys([]) == {};
    assert q1 == [Entry(k1, n1 + 1000, a1, [], Normal)];
    assert Keys(q1) == {k1};
  }

  /** The inserted entry is in the result. */
  lemma {:induction false} InsertContains(q: seq<Entry>, e: Entry)
    ensures e in InsertEntry(q, e)
  {
    if q != [] && q[0].timeout <= e.timeout {
      InsertContains(q[1..], e);
    }
  }

  /** After `put`, a task with `key` is pending, whatever was pending before. */
  lemma PutKeyPresent(q: seq<Entry>, key: Key, action: Action, callback: Option<Action>, priority: Priority, t: int)
    ensures key in Keys(Put(q, key, action, callback, priority, t))
  {
    var r := Put(q, key, action, callback, priority, t);
    if key in Keys(q) {
      var p := IndexOfKey(q, key);
      var merged := q[p].(action := action, callbacks := q[p].callbacks + CallbackList(callback));
      if t < q[p].timeout {
        InsertContains(RemoveAt(q, p), merged.(timeout := t));
        assert merged.(timeout := t) in r;
      } else {
        assert r[p] == merged;
        assert merged in r;
      }
    } else {
      var e := Entry(key, t, action, CallbackList(callback), priority);
      InsertContains(q, e);
      assert e in r;
    }
  }
}
