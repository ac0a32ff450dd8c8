/**
 * Insertion-ordered grouping, as d3's `group` and `rollup` do it: the records are
 * visited left to right, and a key is added to the result (an insertion-ordered map,
 * here an association list) the first time it is seen; later records with the same
 * key are appended to that key's group.
 */
module Grouping {

  /** No element occurs twice. */
  predicate NoDuplicates<X(==)>(xs: seq<X>)
  {
    forall i, j :: 0 <= i < j < |xs| ==> xs[i] != xs[j]
  }

  lemma NoDuplicatesTail<X>(xs: seq<X>)
    requires xs != [] && NoDuplicates(xs)
    ensures NoDuplicates(xs[1..]) && xs[0] !in xs[1..]
  {
    forall a, b | 0 <= a < b < |xs[1..]| ensures xs[1..][a] != xs[1..][b] {
      assert xs[1..][a] == xs[a + 1] && xs[1..][b] == xs[b + 1];
    }
    forall k | 0 <= k < |xs[1..]| ensures xs[1..][k] != xs[0] {
      assert xs[1..][k] == xs[k + 1];
    }
  }

  /** The keys of an association list, in order. */
  function Keys<K, V>(groups: seq<(K, V)>): seq<K>
  {
    seq(|groups|, i requires 0 <= i < |groups| => groups[i].0)
  }

  /** The key of every element, in order. */
  function Project<T, K>(s: seq<T>, key: T -> K): seq<K>
  {
    seq(|s|, i requires 0 <= i < |s| => key(s[i]))
  }

  lemma ProjectSnoc<T, K>(s: seq<T>, key: T -> K)
    requires s != []
    ensures Project(s, key) == Project(s[..|s| - 1], key) + [key(s[|s| - 1])]
  {
    var a, b := Project(s, key), Project(s[..|s| - 1], key) + [key(s[|s| - 1])];
    assert |a| == |b|;
    forall i | 0 <= i < |a| ensures a[i] == b[i] {
      if i < |s| - 1 {
        assert b[i] == Project(s[..|s| - 1], key)[i] == key(s[..|s| - 1][i]);
      }
    }
  }

  /** The elements of `xs` without repetition, each kept at its first occurrence. */
  function Distinct<X(==,!new)>(xs: seq<X>): (d: seq<X>)
    ensures NoDuplicates(d)
    ensures forall x :: x in d <==> x in xs
  {
    if xs == [] then []
    else
      var d := Distinct(xs[..|xs| - 1]);
      assert xs == xs[..|xs| - 1] + [xs[|xs| - 1]];
      if xs[|xs| - 1] in d then d else d + [xs[|xs| - 1]]
  }

  /** The position of the first occurrence of `x` in `xs`. */
  function FirstIndex<X(==)>(xs: seq<X>, x: X): (i: nat)
    requires x in xs
    ensures i < |xs| && xs[i] == x
    ensures forall j :: 0 <= j < i ==> xs[j] != x
  {
    if xs[0] == x then 0 else 1 + FirstIndex(xs[1..], x)
  }

  /** Appending an element does not move the first occurrence of anything already there. */
  lemma FirstIndexSnoc<X>(xs: seq<X>, y: X, x: X)
    requires x in xs
    ensures x in xs + [y] && FirstIndex(xs + [y], x) == FirstIndex(xs, x)
  {
    var i := FirstIndex(xs, x);
    assert (xs + [y])[i] == x;
    assert forall j :: 0 <= j < |xs| ==> (xs + [y])[j] == xs[j];
  }

  /** `Distinct` lists the elements in the order of their first occurrences in `xs`. */
  lemma {:induction false} DistinctOrder<X(!new)>(xs: seq<X>)
    ensures forall i, j :: 0 <= i < j < |Distinct(xs)| ==>
      FirstIndex(xs, Distinct(xs)[i]) < FirstIndex(xs, Distinct(xs)[j])
  {
    if xs != [] {
      var p, x := xs[..|xs| - 1], xs[|xs| - 1];
      assert xs == p + [x];
      var d, dx := Distinct(p), Distinct(xs);
      DistinctOrder(p);
      assert forall i :: 0 <= i < |d| ==> d[i] in p;
      forall y | y in p
        ensures FirstIndex(xs, y) == FirstIndex(p, y) < |p|
      {
        FirstIndexSnoc(p, x, y);
      }
      if x in d {
        assert dx == d;
      } else {
        assert dx == d + [x];
        assert FirstIndex(xs, x) == |p| by {
          forall j | 0 <= j < |p| ensures xs[j] != x {
            assert xs[j] == p[j];
          }
        }
      }
      forall i, j | 0 <= i < j < |dx| ensures FirstIndex(xs, dx[i]) < FirstIndex(xs, dx[j]) {
        assert dx[i] == d[i];
        if j < |d| {
          assert dx[j] == d[j];
          assert FirstIndex(p, d[i]) < FirstIndex(p, d[j]);
        }
      }
    }
  }

  /** The elements of `s` whose key is `k`, in order: JavaScript's `filter`. */
  function Matching<T(==), K(==)>(s: seq<T>, key: T -> K, k: K): (r: seq<T>)
    ensures |r| <= |s|
    ensures forall i :: 0 <= i < |r| ==> key(r[i]) == k
  {
    if s == [] then []
    else
      var p, x := s[..|s| - 1], s[|s| - 1];
      assert s == p + [x];
      Matching(p, key, k) + (if key(x) == k then [x] else [])
  }

  /** An element is kept exactly when it occurs and carries the key. */
  lemma {:induction false} MatchingMembers<T(!new), K>(s: seq<T>, key: T -> K, k: K)
    ensures forall x :: x in Matching(s, key, k) <==> x in s && key(x) == k
  {
    if s != [] {
      var p, x := s[..|s| - 1], s[|s| - 1];
      MatchingMembers(p, key, k);
      assert s == p + [x];
    }
  }

  /** Filtering distributes over concatenation, so relative order is kept. */
  lemma {:induction false} MatchingConcat<T(!new), K>(s: seq<T>, t: seq<T>, key: T -> K, k: K)
    ensures Matching(s + t, key, k) == Matching(s, key, k) + Matching(t, key, k)
  {
    if t == [] {
      assert s + t == s;
    } else {
      var t', x := t[..|t| - 1], t[|t| - 1];
      var u := s + t;
      MatchingConcat(s, t', key, k);
      assert u[..|u| - 1] == s + t' && u[|u| - 1] == x;
      var tail := if key(x) == k then [x] else [];
      assert Matching(u, key, k) == Matching(s + t', key, k) + tail;
      assert Matching(t, key, k) == Matching(t', key, k) + tail;
      assert (Matching(s, key, k) + Matching(t', key, k)) + tail ==
        Matching(s, key, k) + (Matching(t', key, k) + tail);
    }
  }

  /** Filtering keeps everything when every element carries the key. */
  lemma {:induction false} MatchingAll<T(!new), K>(s: seq<T>, key: T -> K, k: K)
    requires forall i :: 0 <= i < |s| ==> key(s[i]) == k
    ensures Matching(s, key, k) == s
  {
    if s != [] {
      var p, x := s[..|s| - 1], s[|s| - 1];
      assert forall i :: 0 <= i < |p| ==> p[i] == s[i];
      MatchingAll(p, key, k);
      assert key(x) == k;
      assert s == p + [x];
    }
  }

  /** Filtering a sequence of at most one element. */
  lemma MatchingSingle<T(!new), K>(s: seq<T>, key: T -> K, k: K)
    requires |s| <= 1
    ensures Matching(s, key, k) == if s != [] && key(s[0]) == k then s else []
  {
    if s != [] {
      assert s[..0] == [];
      assert Matching(s[..0], key, k) == [];
      assert s == [] + [s[0]];
    }
  }

  /** Nothing is kept exactly when no element carries the key. */
  lemma MatchingEmpty<T(!new), K>(s: seq<T>, key: T -> K, k: K)
    ensures Matching(s, key, k) == [] <==> k !in Project(s, key)
  {
    var r := Matching(s, key, k);
    MatchingMembers(s, key, k);
    if r != [] {
      assert r[0] in r;
      var i :| 0 <= i < |s| && s[i] == r[0];
      assert Project(s, key)[i] == k;
    }
    if k in Project(s, key) {
      var i :| 0 <= i < |s| && Project(s, key)[i] == k;
      assert s[i] in r;
    }
  }

  /** Adds `x` to the group of key `k`, creating that group at the end when it is new. */
  function AddTo<K(==), T>(groups: seq<(K, seq<T>)>, k: K, x: T): seq<(K, seq<T>)>
  {
    if groups == [] then [(k, [x])]
    else if groups[0].0 == k then [(k, groups[0].1 + [x])] + groups[1..]
    else [groups[0]] + AddTo(groups[1..], k, x)
  }

  /** Groups `s` by `key`, keys in first-occurrence order, members in input order. */
  function GroupBy<T, K(==)>(s: seq<T>, key: T -> K): seq<(K, seq<T>)>
  {
    if s == [] then []
    else AddTo(GroupBy(s[..|s| - 1], key), key(s[|s| - 1]), s[|s| - 1])
  }

  /** The number of members over all groups. */
  function TotalSize<K, T>(groups: seq<(K, seq<T>)>): nat
  {
    if groups == [] then 0 else |groups[0].1| + TotalSize(groups[1..])
  }

  lemma {:induction false} AddToKeys<K, T>(groups: seq<(K, seq<T>)>, k: K, x: T)
    requires NoDuplicates(Keys(groups))
    ensures Keys(AddTo(groups, k, x)) ==
      if k in Keys(groups) then Keys(groups) else Keys(groups) + [k]
  {
    if groups != [] {
      var r, rest := AddTo(groups, k, x), groups[1..];
      assert Keys(groups) == [groups[0].0] + Keys(rest);
      if groups[0].0 == k {
        assert r[1..] == rest;
        assert Keys(r) == [k] + Keys(rest);
      } else {
        NoDuplicatesTail(Keys(groups));
        assert Keys(rest) == Keys(groups)[1..];
        AddToKeys(rest, k, x);
        assert k in Keys(groups) <==> k in Keys(rest);
        assert r == [groups[0]] + AddTo(rest, k, x);
        assert Keys(r) == [groups[0].0] + Keys(AddTo(rest, k, x));
      }
    }
  }

  lemma {:induction false} AddToValues<K, T>(groups: seq<(K, seq<T>)>, k: K, x: T)
    requires NoDuplicates(Keys(groups))
    ensures |AddTo(groups, k, x)| == if k in Keys(groups) then |groups| else |groups| + 1
    ensures forall i :: 0 <= i < |AddTo(groups, k, x)| ==>
      AddTo(groups, k, x)[i].1 ==
        if i < |groups| then groups[i].1 + (if groups[i].0 == k then [x] else []) else [x]
  {
    AddToKeys(groups, k, x);
    if groups != [] {
      var r, rest := AddTo(groups, k, x), groups[1..];
      if groups[0].0 == k {
        assert r[1..] == rest;
        forall i | 0 < i < |groups| ensures groups[i].0 != k {
          assert Keys(groups)[0] != Keys(groups)[i];
        }
      } else {
        NoDuplicatesTail(Keys(groups));
        assert Keys(rest) == Keys(groups)[1..];
        AddToValues(rest, k, x);
        assert r[1..] == AddTo(rest, k, x);
      }
    }
  }

  lemma {:induction false} AddToSize<K, T>(groups: seq<(K, seq<T>)>, k: K, x: T)
    ensures TotalSize(AddTo(groups, k, x)) == TotalSize(groups) + 1
  {
    if groups != [] && groups[0].0 != k {
      AddToSize(groups[1..], k, x);
      assert AddTo(groups, k, x)[1..] == AddTo(groups[1..], k, x);
    } else if groups != [] {
      assert AddTo(groups, k, x)[1..] == groups[1..];
    }
  }

  /** Adding an element keeps the keys unique, extends one group and adds one member. */
  lemma AddToSpec<K, T>(groups: seq<(K, seq<T>)>, k: K, x: T)
    requires NoDuplicates(Keys(groups))
    ensures Keys(AddTo(groups, k, x)) ==
      if k in Keys(groups) then Keys(groups) else Keys(groups) + [k]
    ensures forall i :: 0 <= i < |AddTo(groups, k, x)| ==>
      AddTo(groups, k, x)[i].1 ==
        if i < |groups| then groups[i].1 + (if groups[i].0 == k then [x] else []) else [x]
    ensures TotalSize(AddTo(groups, k, x)) == TotalSize(groups) + 1
  {
    AddToKeys(groups, k, x);
    AddToValues(groups, k, x);
    AddToSize(groups, k, x);
  }

  /**
   * The keys of the grouping are the distinct keys of the input in first-occurrence
   * order, and every element lands in exactly one group.
   */
  lemma {:induction false} GroupByKeys<T, K(!new)>(s: seq<T>, key: T -> K)
    ensures Keys(GroupBy(s, key)) == Distinct(Project(s, key))
    ensures TotalSize(GroupBy(s, key)) == |s|
  {
    if s != [] {
      var p, x := s[..|s| - 1], s[|s| - 1];
      GroupByKeys(p, key);
      AddToSpec(GroupBy(p, key), key(x), x);
      assert Project(s, key)[..|s| - 1] == Project(p, key);
    }
  }

  /** The group of each key holds exactly the elements with that key, in input order. */
  lemma {:induction false} GroupByMembers<T(!new), K(!new)>(s: seq<T>, key: T -> K)
    ensures forall i :: 0 <= i < |GroupBy(s, key)| ==>
      GroupBy(s, key)[i].1 == Matching(s, key, GroupBy(s, key)[i].0)
  {
    if s != [] {
      var p, x := s[..|s| - 1], s[|s| - 1];
      var g := GroupBy(p, key);
      GroupByKeys(p, key);
      GroupByMembers(p, key);
      AddToSpec(g, key(x), x);
      var r := GroupBy(s, key);
      assert r == AddTo(g, key(x), x);
      forall i | 0 <= i < |r| ensures r[i].1 == Matching(s, key, r[i].0) {
        assert Matching(s, key, r[i].0) ==
          Matching(p, key, r[i].0) + (if key(x) == r[i].0 then [x] else []);
        if i < |g| {
          assert Keys(r)[i] == Keys(g)[i];
        } else {
          assert Keys(r)[i] == key(x);
          assert key(x) !in Project(p, key);
          MatchingEmpty(p, key, key(x));
        }
      }
    }
  }

  /** When no key repeats, every element forms a group of its own. */
  lemma {:induction false} GroupByUnique<T, K>(s: seq<T>, key: T -> K)
    requires NoDuplicates(Project(s, key))
    ensures GroupBy(s, key) == seq(|s|, i requires 0 <= i < |s| => (key(s[i]), [s[i]]))
  {
    if s != [] {
      var p, x := s[..|s| - 1], s[|s| - 1];
      assert Project(p, key) == Project(s, key)[..|s| - 1];
      GroupByUnique(p, key);
      var g := GroupBy(p, key);
      assert Keys(g) == Project(p, key);
      assert key(x) !in Keys(g) by {
        forall i | 0 <= i < |p| ensures Project(p, key)[i] != key(x) {
          assert Project(s, key)[i] != Project(s, key)[|s| - 1];
        }
      }
      AddToNew(g, key(x), x);
    }
  }

  lemma {:induction false} AddToNew<K, T>(groups: seq<(K, seq<T>)>, k: K, x: T)
    requires k !in Keys(groups)
    ensures AddTo(groups, k, x) == groups + [(k, [x])]
  {
    if groups != [] {
      assert Keys(groups)[0] == groups[0].0;
      assert Keys(groups[1..]) == Keys(groups)[1..];
      AddToNew(groups[1..], k, x);
    }
  }
}
