/**
 * Sequence operations shared by the resolver and the dashboard: pandas'
 * unique() (distinct values in order of first appearance), boolean-mask
 * selection, concatenation of lists, and a stable insertion sort used for
 * SQL's ORDER BY and Python's sorted().
 */
module Seqs {

  predicate NoDuplicates<T(==)>(s: seq<T>) {
    forall i, j :: 0 <= i < j < |s| ==> s[i] != s[j]
  }

  /** The position of the first occurrence of `x` in `s`. */
  function FirstIndex<T(==)>(s: seq<T>, x: T): (k: nat)
    requires x in s
    ensures k < |s| && s[k] == x && x !in s[..k]
  {
    if s[0] == x then 0 else 1 + FirstIndex(s[1..], x)
  }

  /** Appending at the end does not move a first occurrence. */
  lemma {:induction false} FirstIndexAppend<T>(s: seq<T>, y: T, x: T)
    requires x in s
    ensures FirstIndex(s + [y], x) == FirstIndex(s, x)
  {
    if s[0] != x {
      assert (s + [y])[1..] == s[1..] + [y];
      FirstIndexAppend(s[1..], y, x);
    }
  }

  /** A non-empty sequence is its prefix followed by its last element. */
  lemma InitLast<T>(s: seq<T>)
    requires |s| >= 1
    ensures s == s[..|s| - 1] + [s[|s| - 1]]
  {
  }

  /** Appending at the end of a sequence after a first element. */
  lemma ConsSnoc<T>(x: T, s: seq<T>, y: T)
    ensures [x] + (s + [y]) == ([x] + s) + [y]
  {
  }

  /** A one-element sequence has no duplicates to drop. */
  lemma DedupSingleton<T(!new)>(x: T)
    ensures Dedup([x]) == [x]
  {
    assert [x][..0] == [];
  }

  /**
   * pandas' Series.unique(): every value of `s` once, in the order in which
   * its first occurrence appears in `s`.
   */
  function Dedup<T(==,!new)>(s: seq<T>): (r: seq<T>)
    ensures NoDuplicates(r)
    ensures forall x :: x in r <==> x in s
    ensures forall i, j :: 0 <= i < j < |r| ==> FirstIndex(s, r[i]) < FirstIndex(s, r[j])
    decreases |s|
  {
    if s == [] then []
    else
      var init, last := s[..|s| - 1], s[|s| - 1];
      assert s == init + [last];
      var d := Dedup(init);
      if last in d then
        DedupKeep(init, last, d);
        d
      else
        DedupAdd(init, last, d);
        d + [last]
  }

  /** The facts Dedup states about its result `r` for the input `s`. */
  ghost predicate IsDedup<T(!new)>(s: seq<T>, r: seq<T>) {
    && NoDuplicates(r)
    && (forall x :: x in r <==> x in s)
    && (forall i, j :: 0 <= i < j < |r| ==> r[i] in s && r[j] in s && FirstIndex(s, r[i]) < FirstIndex(s, r[j]))
  }

  /** Appending at the end does not move the first occurrence of any earlier element. */
  lemma FirstIndexesAppend<T>(init: seq<T>, last: T)
    ensures forall x :: x in init ==> FirstIndex(init + [last], x) == FirstIndex(init, x)
  {
    forall x | x in init { FirstIndexAppend(init, last, x); }
  }

  /** An element already seen adds nothing. */
  lemma DedupKeep<T(!new)>(init: seq<T>, last: T, d: seq<T>)
    requires IsDedup(init, d) && last in d
    ensures IsDedup(init + [last], d)
  {
    FirstIndexesAppend(init, last);
  }

  /** An element not seen before goes at the end: its first occurrence is the last position. */
  lemma DedupAdd<T(!new)>(init: seq<T>, last: T, d: seq<T>)
    requires IsDedup(init, d) && last !in d
    ensures IsDedup(init + [last], d + [last])
  {
    var s := init + [last];
    FirstIndexesAppend(init, last);
    assert last !in init;
    assert FirstIndex(s, last) == |init|;
  }

  /** The elements `p` holds of, in their order in `s` (a boolean mask applied to a frame). */
  function Filter<T>(s: seq<T>, p: T -> bool): (r: seq<T>)
    ensures |r| <= |s|
    decreases |s|
  {
    if s == [] then []
    else Filter(s[..|s| - 1], p) + (if p(s[|s| - 1]) then [s[|s| - 1]] else [])
  }

  /** Selecting from one more element of `s` appends it when `p` holds of it. */
  lemma FilterPrefix<T>(s: seq<T>, i: nat, p: T -> bool)
    requires i < |s|
    ensures Filter(s[..i + 1], p) == Filter(s[..i], p) + (if p(s[i]) then [s[i]] else [])
  {
    assert s[..i + 1][..i] == s[..i];
  }

  /** `sub` is `s` with some elements left out and the rest in their order. */
  predicate IsSubsequence<T(==)>(sub: seq<T>, s: seq<T>)
    decreases |s|
  {
    if sub == [] then true
    else if s == [] then false
    else if sub[|sub| - 1] == s[|s| - 1] then IsSubsequence(sub[..|sub| - 1], s[..|s| - 1])
    else IsSubsequence(sub, s[..|s| - 1])
  }

  /** A selection keeps exactly the elements the predicate holds of. */
  lemma {:induction false} FilterMembers<T>(s: seq<T>, p: T -> bool)
    ensures forall x :: x in Filter(s, p) <==> x in s && p(x)
    decreases |s|
  {
    if s != [] {
      FilterMembers(s[..|s| - 1], p);
      assert s == s[..|s| - 1] + [s[|s| - 1]];
    }
  }

  /** A selection keeps the order of what it keeps. */
  lemma {:induction false} FilterIsSubsequence<T>(s: seq<T>, p: T -> bool)
    ensures IsSubsequence(Filter(s, p), s)
    decreases |s|
  {
    if s != [] {
      var init := s[..|s| - 1];
      FilterIsSubsequence(init, p);
      assert s == init + [s[|s| - 1]];
      if !p(s[|s| - 1]) {
        assert Filter(s, p) == Filter(init, p);
        SubsequenceOfInit(Filter(init, p), init, s[|s| - 1]);
      } else {
        var f := Filter(s, p);
        assert f == Filter(init, p) + [s[|s| - 1]];
        assert f[..|f| - 1] == Filter(init, p);
        assert s[..|s| - 1] == init;
      }
    }
  }

  /** A subsequence of a sequence is a subsequence of that sequence with one more element. */
  lemma {:induction false} SubsequenceOfInit<T>(sub: seq<T>, s: seq<T>, y: T)
    requires IsSubsequence(sub, s)
    ensures IsSubsequence(sub, s + [y])
    decreases |s|, 1
  {
    var t := s + [y];
    assert t[..|t| - 1] == s;
    if sub != [] && sub[|sub| - 1] == y {
      SubsequenceDropLast(sub, s);
    }
  }

  /** Dropping the last element of a subsequence leaves a subsequence. */
  lemma {:induction false} SubsequenceDropLast<T>(sub: seq<T>, s: seq<T>)
    requires sub != [] && IsSubsequence(sub, s)
    ensures IsSubsequence(sub[..|sub| - 1], s)
    decreases |s|, 0
  {
    var init := s[..|s| - 1];
    if sub[|sub| - 1] == s[|s| - 1] {
      SubsequenceOfInit(sub[..|sub| - 1], init, s[|s| - 1]);
      assert init + [s[|s| - 1]] == s;
    } else {
      SubsequenceDropLast(sub, init);
      SubsequenceOfInit(sub[..|sub| - 1], init, s[|s| - 1]);
      assert init + [s[|s| - 1]] == s;
    }
  }

  /** With a predicate that holds everywhere, a selection keeps everything. */
  lemma {:induction false} FilterAll<T>(s: seq<T>, p: T -> bool)
    requires forall x :: x in s ==> p(x)
    ensures Filter(s, p) == s
    decreases |s|
  {
    if s != [] {
      FilterAll(s[..|s| - 1], p);
      assert s == s[..|s| - 1] + [s[|s| - 1]];
    }
  }

  /** With a predicate that holds nowhere, a selection keeps nothing. */
  lemma {:induction false} FilterNone<T>(s: seq<T>, p: T -> bool)
    requires forall x :: x in s ==> !p(x)
    ensures Filter(s, p) == []
    decreases |s|
  {
    if s != [] {
      FilterNone(s[..|s| - 1], p);
      assert s[|s| - 1] in s;
    }
  }

  /** Two selections with predicates that never hold together keep at most every element once. */
  lemma {:induction false} FilterDisjoint<T>(s: seq<T>, p: T -> bool, q: T -> bool)
    requires forall x :: !(p(x) && q(x))
    ensures |Filter(s, p)| + |Filter(s, q)| <= |s|
    decreases |s|
  {
    if s != [] {
      FilterDisjoint(s[..|s| - 1], p, q);
    }
  }

  /** `f` applied to every element, in order. */
  function Map<A, B>(s: seq<A>, f: A -> B): (r: seq<B>)
    ensures |r| == |s| && forall k :: 0 <= k < |s| ==> r[k] == f(s[k])
  {
    seq(|s|, k requires 0 <= k < |s| => f(s[k]))
  }

  /** A one-element sequence mapped. */
  lemma MapSingleton<A, B>(x: A, f: A -> B)
    ensures Map([x], f) == [f(x)]
  {
  }

  /** Selections with predicates that agree on every element are the same. */
  lemma {:induction false} FilterSame<T>(s: seq<T>, p: T -> bool, q: T -> bool)
    requires forall x :: x in s ==> p(x) == q(x)
    ensures Filter(s, p) == Filter(s, q)
    decreases |s|
  {
    if s != [] {
      FilterSame(s[..|s| - 1], p, q);
      assert s[|s| - 1] in s;
    }
  }

  /** The number of elements a selection on one value of `f` keeps is how often `f` yields that value. */
  lemma {:induction false} FilterCount<A, B>(s: seq<A>, f: A -> B, v: B, p: A -> bool)
    requires forall x :: p(x) <==> f(x) == v
    ensures |Filter(s, p)| == multiset(Map(s, f))[v]
    decreases |s|
  {
    if s != [] {
      var init := s[..|s| - 1];
      FilterCount(init, f, v, p);
      assert Map(s, f) == Map(init, f) + [f(s[|s| - 1])];
    }
  }

  lemma MapMembers<A, B>(s: seq<A>, f: A -> B)
    ensures forall y :: y in Map(s, f) <==> exists x :: x in s && y == f(x)
  {
    forall y | y in Map(s, f) ensures exists x :: x in s && y == f(x) {
      var k :| 0 <= k < |s| && Map(s, f)[k] == y;
      assert s[k] in s;
    }
  }

  /** What a selection followed by a map yields: the images of the kept elements. */
  lemma MapFilterMembers<A, B>(s: seq<A>, keep: A -> bool, f: A -> B)
    ensures forall y :: y in Map(Filter(s, keep), f) <==> exists x :: x in s && keep(x) && y == f(x)
  {
    var kept := Filter(s, keep);
    var ys := Map(kept, f);
    FilterMembers(s, keep);
    forall y ensures y in ys <==> exists x :: x in s && keep(x) && y == f(x) {
      if y in ys {
        var k :| 0 <= k < |ys| && ys[k] == y;
        assert kept[k] in kept;
      }
      if x :| x in s && keep(x) && y == f(x) {
        var k :| 0 <= k < |kept| && kept[k] == x;
        assert ys[k] == y;
      }
    }
  }

  /** The lists of `ss` one after the other. */
  function Concat<T>(ss: seq<seq<T>>): seq<T>
    decreases |ss|
  {
    if ss == [] then [] else ss[0] + Concat(ss[1..])
  }

  /** The lists `f` gives for the elements of `s`, one after the other (pandas' explode). */
  function FlatMap<A, B>(s: seq<A>, f: A -> seq<B>): seq<B>
    decreases |s|
  {
    if s == [] then [] else f(s[0]) + FlatMap(s[1..], f)
  }

  lemma {:induction false} FlatMapMembers<A, B>(s: seq<A>, f: A -> seq<B>)
    ensures forall y :: y in FlatMap(s, f) <==> exists x :: x in s && y in f(x)
    decreases |s|
  {
    if s != [] {
      FlatMapMembers(s[1..], f);
      assert forall x :: x in s <==> x == s[0] || x in s[1..];
    }
  }

  /** `le` lets every pair be compared, and transitively. */
  ghost predicate TotalPreorder<T(!new)>(le: (T, T) -> bool) {
    && (forall a, b :: le(a, b) || le(b, a))
    && (forall a, b, c :: le(a, b) && le(b, c) ==> le(a, c))
  }

  predicate SortedBy<T>(s: seq<T>, le: (T, T) -> bool) {
    forall i, j :: 0 <= i < j < |s| ==> le(s[i], s[j])
  }

  /** Puts `x` before the first element it may precede. */
  function Insert<T(==)>(x: T, s: seq<T>, le: (T, T) -> bool): (r: seq<T>)
    ensures multiset(r) == multiset(s) + multiset{x}
    decreases |s|
  {
    if s == [] then [x]
    else if le(x, s[0]) then [x] + s
    else
      assert s == [s[0]] + s[1..];
      [s[0]] + Insert(x, s[1..], le)
  }

  /** Insertion sort: a permutation of `s`, in the order `le` gives. */
  function SortBy<T(==)>(s: seq<T>, le: (T, T) -> bool): (r: seq<T>)
    ensures multiset(r) == multiset(s)
    decreases |s|
  {
    if s == [] then []
    else
      assert s == [s[0]] + s[1..];
      Insert(s[0], SortBy(s[1..], le), le)
  }

  /** A one-element sequence is sorted as it is. */
  lemma SortSingleton<T>(x: T, le: (T, T) -> bool)
    ensures SortBy([x], le) == [x]
  {
    assert [x][1..] == [];
  }

  lemma {:induction false} InsertSorted<T(!new)>(x: T, s: seq<T>, le: (T, T) -> bool)
    requires TotalPreorder(le) && SortedBy(s, le)
    ensures SortedBy(Insert(x, s, le), le)
    decreases |s|
  {
    if s != [] && !le(x, s[0]) {
      var tail := s[1..];
      InsertSorted(x, tail, le);
      var r := Insert(x, tail, le);
      forall y | y in r ensures le(s[0], y) {
        assert y in multiset(r);
        assert y in multiset(tail) || y == x;
        if y != x {
          assert y in tail;
        }
      }
      var full := [s[0]] + r;
      forall i, j | 0 <= i < j < |full| ensures le(full[i], full[j]) {
        if i > 0 {
          assert full[i] == r[i - 1] && full[j] == r[j - 1];
        } else {
          assert full[j] in r;
        }
      }
    }
  }

  /** SortBy orders its result when `le` is a total preorder. */
  lemma {:induction false} SortBySorted<T(!new)>(s: seq<T>, le: (T, T) -> bool)
    requires TotalPreorder(le)
    ensures SortedBy(SortBy(s, le), le)
    decreases |s|
  {
    if s != [] {
      SortBySorted(s[1..], le);
      InsertSorted(s[0], SortBy(s[1..], le), le);
    }
  }

  /** A selection from a sequence without duplicates has none. */
  lemma {:induction false} FilterNoDuplicates<T>(s: seq<T>, p: T -> bool)
    requires NoDuplicates(s)
    ensures NoDuplicates(Filter(s, p))
    decreases |s|
  {
    if s != [] {
      var init, last := s[..|s| - 1], s[|s| - 1];
      assert forall k :: 0 <= k < |init| ==> init[k] == s[k];
      FilterNoDuplicates(init, p);
      FilterMembers(init, p);
      var f := Filter(init, p);
      if p(last) {
        forall i, j | 0 <= i < j < |f| + 1 ensures (f + [last])[i] != (f + [last])[j] {
          if j == |f| {
            assert f[i] in f;
          }
        }
      }
    }
  }

  /** A permutation of a sequence without duplicates has none either. */
  lemma PermutationNoDuplicates<T>(s: seq<T>, t: seq<T>)
    requires NoDuplicates(s) && multiset(s) == multiset(t)
    ensures NoDuplicates(t)
  {
    forall i, j | 0 <= i < j < |t| ensures t[i] != t[j] {
      if t[i] == t[j] {
        var x := t[i];
        assert t == t[..j] + [t[j]] + t[j + 1..];
        assert multiset(t)[x] >= 2;
        MultiplicityOne(s, x);
      }
    }
  }

  /** In a sequence without duplicates, every element occurs at most once. */
  lemma {:induction false} MultiplicityOne<T>(s: seq<T>, x: T)
    requires NoDuplicates(s)
    ensures multiset(s)[x] <= 1
    decreases |s|
  {
    if s != [] {
      assert s == [s[0]] + s[1..];
      MultiplicityOne(s[1..], x);
      if s[0] == x {
        assert x !in s[1..];
      }
    }
  }
}
