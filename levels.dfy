/**
 * The levels of a skip list, derived from its bottom level: level `l` holds,
 * in bottom-level order, exactly the nodes whose height exceeds `l`.
 */
module Levels {

  /** The sub-chain of `s` on level `l`: the elements taller than `l`. */
  function Above<T(==)>(s: seq<T>, h: map<T, nat>, l: nat): (r: seq<T>)
    ensures |r| <= |s|
    ensures forall x :: x in r ==> x in s
  {
    if s == [] then []
    else (if s[0] in h && h[s[0]] > l then [s[0]] else []) + Above(s[1..], h, l)
  }

  /** The part of level `l` contributed by one element `x`. */
  function Keep<T(==)>(x: T, h: map<T, nat>, l: nat): (r: seq<T>)
    ensures r == [x] || r == []
  {
    if x in h && h[x] > l then [x] else []
  }

  /** Taking a level of a sequence with a first element. */
  lemma AboveCons<T>(x: T, t: seq<T>, h: map<T, nat>, l: nat)
    ensures Above([x] + t, h, l) == Keep(x, h, l) + Above(t, h, l)
  {
    assert ([x] + t)[0] == x && ([x] + t)[1..] == t;
  }

  /** Taking a level distributes over concatenation. */
  lemma {:induction false} AboveAppend<T>(a: seq<T>, b: seq<T>, h: map<T, nat>, l: nat)
    ensures Above(a + b, h, l) == Above(a, h, l) + Above(b, h, l)
  {
    if a == [] {
      assert a + b == b;
    } else {
      var x, t := a[0], a[1..];
      assert a == [x] + t;
      assert a + b == [x] + (t + b);
      AboveCons(x, t, h, l);
      AboveCons(x, t + b, h, l);
      AboveAppend(t, b, h, l);
      assert Keep(x, h, l) + (Above(t, h, l) + Above(b, h, l)) == (Keep(x, h, l) + Above(t, h, l)) + Above(b, h, l);
    }
  }

  /** An element is on level `l` exactly when it is in `s` and taller than `l`. */
  lemma {:induction false} AboveMember<T>(s: seq<T>, h: map<T, nat>, l: nat, x: T)
    ensures x in Above(s, h, l) <==> x in s && x in h && h[x] > l
  {
    if s != [] {
      AboveMember(s[1..], h, l, x);
      assert s == [s[0]] + s[1..];
    }
  }

  /** A level is empty exactly when no element of `s` reaches it. */
  lemma AboveEmpty<T>(s: seq<T>, h: map<T, nat>, l: nat)
    ensures Above(s, h, l) == [] <==> forall x :: x in s && x in h ==> h[x] <= l
  {
    if Above(s, h, l) == [] {
      forall x | x in s && x in h
        ensures h[x] <= l
      {
        AboveMember(s, h, l, x);
      }
    } else {
      var x := Above(s, h, l)[0];
      AboveMember(s, h, l, x);
    }
  }

  /** Heights of elements outside `s` do not matter. */
  lemma {:induction false} AboveIgnores<T>(s: seq<T>, h: map<T, nat>, x: T, v: nat, l: nat)
    requires x !in s
    ensures Above(s, h[x := v], l) == Above(s, h, l)
  {
    if s != [] {
      AboveIgnores(s[1..], h, x, v, l);
    }
  }

  /** Levels of a duplicate-free sequence are duplicate-free. */
  lemma {:induction false} AboveDistinct<T>(s: seq<T>, h: map<T, nat>, l: nat)
    requires forall i, j :: 0 <= i < j < |s| ==> s[i] != s[j]
    ensures forall i, j :: 0 <= i < j < |Above(s, h, l)| ==> Above(s, h, l)[i] != Above(s, h, l)[j]
  {
    if s != [] {
      AboveDistinct(s[1..], h, l);
      AboveMember(s[1..], h, l, s[0]);
      assert s[0] !in s[1..];
    }
  }

  /** Level `l + 1` is empty once level `l` is. */
  lemma AboveNested<T>(s: seq<T>, h: map<T, nat>, l: nat)
    ensures Above(s, h, l) == [] ==> Above(s, h, l + 1) == []
  {
    AboveEmpty(s, h, l);
    AboveEmpty(s, h, l + 1);
  }

  /**
   * Inserting `x` of height `v` between `a` and `b` adds `x` to exactly the
   * levels below `v`, at the same place, and changes nothing else.
   */
  lemma AboveInsert<T>(a: seq<T>, x: T, b: seq<T>, h: map<T, nat>, v: nat, l: nat)
    requires x !in a && x !in b
    ensures Above(a + [x] + b, h[x := v], l) == Above(a, h, l) + (if v > l then [x] else []) + Above(b, h, l)
  {
    AboveAppend(a + [x], b, h[x := v], l);
    AboveAppend(a, [x], h[x := v], l);
    AboveIgnores(a, h, x, v, l);
    AboveIgnores(b, h, x, v, l);
    assert [x][1..] == [];
  }

  /** A level that every element reaches is the whole sequence. */
  lemma {:induction false} AboveAll<T>(s: seq<T>, h: map<T, nat>, l: nat)
    requires forall x :: x in s ==> x in h && h[x] > l
    ensures Above(s, h, l) == s
  {
    if s != [] {
      AboveAll(s[1..], h, l);
      assert s == [s[0]] + s[1..];
    }
  }

  /** Whether a level is empty depends only on which elements there are. */
  lemma AboveEmptySame<T>(s: seq<T>, t: seq<T>, h: map<T, nat>, l: nat)
    requires forall x :: x in s <==> x in t
    ensures Above(s, h, l) == [] <==> Above(t, h, l) == []
  {
    AboveEmpty(s, h, l);
    AboveEmpty(t, h, l);
  }
}
