/**
 * Sequence helpers shared by the store, the game loop and the advice logic:
 * `Array.prototype.filter`, `indexOf` + `splice`, and "push unless present".
 * Folds are defined from the back so that a loop over a prefix extends them by one step.
 */
module Seqs {

  predicate NoDup<T(==,!new)>(s: seq<T>) {
    forall i, j :: 0 <= i < j < |s| ==> s[i] != s[j]
  }

  /** The elements of `s` that satisfy `p`, in their order in `s`. */
  function Filter<T(==,!new)>(p: T -> bool, s: seq<T>): (r: seq<T>)
    ensures |r| <= |s|
  {
    if s == [] then []
    else Filter(p, s[..|s| - 1]) + (if p(s[|s| - 1]) then [s[|s| - 1]] else [])
  }

  /** What `Filter` keeps: exactly the elements of `s` that satisfy `p`. */
  lemma {:induction false} FilterMembers<T(!new)>(p: T -> bool, s: seq<T>)
    ensures forall x :: x in Filter(p, s) <==> x in s && p(x)
  {
    if s != [] {
      var s' := s[..|s| - 1];
      FilterMembers(p, s');
      assert s == s' + [s[|s| - 1]];
    }
  }

  lemma {:induction false} FilterAppend<T(!new)>(p: T -> bool, a: seq<T>, b: seq<T>)
    ensures Filter(p, a + b) == Filter(p, a) + Filter(p, b)
    decreases |b|
  {
    if b == [] {
      assert a + b == a;
    } else {
      var b' := b[..|b| - 1];
      assert (a + b)[..|a + b| - 1] == a + b';
      FilterAppend(p, a, b');
    }
  }

  lemma FilterAt<T(!new)>(p: T -> bool, s: seq<T>, i: int)
    requires 0 <= i < |Filter(p, s)|
    ensures Filter(p, s)[i] in s && p(Filter(p, s)[i])
  {
    FilterMembers(p, s);
    assert Filter(p, s)[i] in Filter(p, s);
  }

  lemma FilterPrefixStep<T(!new)>(p: T -> bool, s: seq<T>, i: int)
    requires 0 <= i < |s|
    ensures Filter(p, s[..i + 1]) == Filter(p, s[..i]) + (if p(s[i]) then [s[i]] else [])
  {
    assert s[..i + 1][..i] == s[..i];
  }

  lemma FilterCons<T(!new)>(p: T -> bool, x: T, s: seq<T>)
    ensures Filter(p, [x] + s) == (if p(x) then [x] else []) + Filter(p, s)
  {
    FilterAppend(p, [x], s);
    FilterSingleton(p, x);
  }

  lemma FilterHead<T(!new)>(p: T -> bool, s: seq<T>)
    requires s != []
    ensures Filter(p, s) == (if p(s[0]) then [s[0]] else []) + Filter(p, s[1..])
  {
    FilterCons(p, s[0], s[1..]);
    assert [s[0]] + s[1..] == s;
  }

  lemma FilterSingleton<T(!new)>(p: T -> bool, x: T)
    ensures Filter(p, [x]) == if p(x) then [x] else []
  {
    assert [x][..0] == [];
  }

  /** Filtering by `p` and by its complement splits `s` into two parts whose sizes add up. */
  lemma {:induction false} FilterComplementLength<T(!new)>(p: T -> bool, q: T -> bool, s: seq<T>)
    requires forall x :: q(x) == !p(x)
    ensures |Filter(p, s)| + |Filter(q, s)| == |s|
  {
    if s != [] {
      FilterComplementLength(p, q, s[..|s| - 1]);
    }
  }

  /** Two filters in a row are one filter by the conjunction. */
  lemma {:induction false} FilterFilter<T(!new)>(p: T -> bool, q: T -> bool, r: T -> bool, s: seq<T>)
    requires forall x :: r(x) == (p(x) && q(x))
    ensures Filter(q, Filter(p, s)) == Filter(r, s)
  {
    if s != [] {
      var s' := s[..|s| - 1];
      var x := s[|s| - 1];
      FilterFilter(p, q, r, s');
      FilterAppend(q, Filter(p, s'), if p(x) then [x] else []);
      if p(x) {
        assert Filter(q, [x]) == Filter(q, [x][..0]) + (if q(x) then [x] else []);
      }
    }
  }

  /** Predicates that agree on the elements of `s` filter it alike. */
  lemma {:induction false} FilterExt<T(!new)>(p: T -> bool, q: T -> bool, s: seq<T>)
    requires forall i :: 0 <= i < |s| ==> p(s[i]) == q(s[i])
    ensures Filter(p, s) == Filter(q, s)
  {
    if s != [] {
      FilterExt(p, q, s[..|s| - 1]);
    }
  }

  lemma {:induction false} FilterKeepsAll<T(!new)>(p: T -> bool, s: seq<T>)
    requires forall i :: 0 <= i < |s| ==> p(s[i])
    ensures Filter(p, s) == s
  {
    if s != [] {
      FilterKeepsAll(p, s[..|s| - 1]);
    }
  }

  /** Filtering keeps the order of `s`: its result is a subsequence, so distinct entries stay distinct. */
  lemma {:induction false} FilterNoDup<T(!new)>(p: T -> bool, s: seq<T>)
    requires NoDup(s)
    ensures NoDup(Filter(p, s))
  {
    if s != [] {
      var s' := s[..|s| - 1];
      var x := s[|s| - 1];
      FilterNoDup(p, s');
      FilterMembers(p, s');
      assert x !in s';
    }
  }

  /** Position of the first occurrence of `x`, or -1 (`Array.prototype.indexOf`). */
  function IndexOf<T(==,!new)>(s: seq<T>, x: T): (i: int)
    ensures -1 <= i < |s|
    ensures i == -1 <==> x !in s
    ensures 0 <= i ==> s[i] == x && x !in s[..i]
  {
    if s == [] then -1
    else if s[0] == x then 0
    else
      var j := IndexOf(s[1..], x);
      if j == -1 then -1
      else
        assert s[..j + 1] == [s[0]] + s[1..][..j];
        j + 1
  }

  /** `s` without its first occurrence of `x` (unchanged when there is none). */
  function RemoveFirst<T(==,!new)>(s: seq<T>, x: T): (r: seq<T>)
    ensures x !in s ==> r == s
    ensures x in s ==> |r| == |s| - 1
  {
    if s == [] then []
    else if s[0] == x then s[1..]
    else [s[0]] + RemoveFirst(s[1..], x)
  }

  /** Splicing out the entry `indexOf` found is removing the first occurrence. */
  lemma {:induction false} SpliceAtIndexOf<T(!new)>(s: seq<T>, x: T)
    requires x in s
    ensures s[..IndexOf(s, x)] + s[IndexOf(s, x) + 1..] == RemoveFirst(s, x)
  {
    if s[0] != x {
      SpliceAtIndexOf(s[1..], x);
      var j := IndexOf(s[1..], x);
      assert s[..j + 1] == [s[0]] + s[1..][..j];
      assert s[j + 2..] == s[1..][j + 1..];
    }
  }

  /** `s` with its first `k` elements that satisfy `bad` removed, one `RemoveFirst` at a time. */
  function DropMarked<T(==,!new)>(s: seq<T>, bad: T -> bool, k: nat): seq<T> {
    if k == 0 || s == [] then s
    else if bad(s[0]) then DropMarked(s[1..], bad, k - 1)
    else [s[0]] + DropMarked(s[1..], bad, k)
  }

  /** Removing, in order, the next marked element advances `DropMarked` by one. */
  lemma {:induction false} DropMarkedStep<T(!new)>(s: seq<T>, bad: T -> bool, k: nat)
    requires k < |Filter(bad, s)|
    ensures RemoveFirst(DropMarked(s, bad, k), Filter(bad, s)[k]) == DropMarked(s, bad, k + 1)
    decreases |s|, 1
  {
    FilterHead(bad, s);
    if bad(s[0]) {
      DropMarkedStepMarked(s, bad, k);
    } else {
      DropMarkedStepUnmarked(s, bad, k);
    }
  }

  lemma {:induction false} DropMarkedStepMarked<T(!new)>(s: seq<T>, bad: T -> bool, k: nat)
    requires s != [] && bad(s[0]) && k < |Filter(bad, s)|
    requires Filter(bad, s) == [s[0]] + Filter(bad, s[1..])
    ensures RemoveFirst(DropMarked(s, bad, k), Filter(bad, s)[k]) == DropMarked(s, bad, k + 1)
    decreases |s|, 0
  {
    var t := s[1..];
    var m := Filter(bad, s)[k];
    if k == 0 {
      assert m == s[0];
      assert DropMarked(s, bad, 1) == DropMarked(t, bad, 0) == t;
      assert RemoveFirst(s, m) == t;
      assert RemoveFirst(DropMarked(s, bad, k), m) == DropMarked(s, bad, k + 1);
    } else {
      assert m == Filter(bad, t)[k - 1];
      DropMarkedStep(t, bad, k - 1);
      assert DropMarked(s, bad, k) == DropMarked(t, bad, k - 1);
      assert DropMarked(s, bad, k + 1) == DropMarked(t, bad, k);
      assert RemoveFirst(DropMarked(s, bad, k), m) == DropMarked(s, bad, k + 1);
    }
  }

  lemma {:induction false} DropMarkedStepUnmarked<T(!new)>(s: seq<T>, bad: T -> bool, k: nat)
    requires s != [] && !bad(s[0]) && k < |Filter(bad, s)|
    requires Filter(bad, s) == Filter(bad, s[1..])
    ensures RemoveFirst(DropMarked(s, bad, k), Filter(bad, s)[k]) == DropMarked(s, bad, k + 1)
    decreases |s|, 0
  {
    var t := s[1..];
    var m := Filter(bad, s)[k];
    DropMarkedStep(t, bad, k);
    FilterMembers(bad, s);
    assert m in Filter(bad, s);
    assert s[0] != m;
    RemoveFirstCons(s[0], DropMarked(t, bad, k), m);
    if k == 0 {
      assert DropMarked(s, bad, 0) == s == [s[0]] + DropMarked(t, bad, 0);
    } else {
      assert DropMarked(s, bad, k) == [s[0]] + DropMarked(t, bad, k);
    }
    assert DropMarked(s, bad, k + 1) == [s[0]] + DropMarked(t, bad, k + 1);
    assert RemoveFirst(DropMarked(s, bad, k), m) == DropMarked(s, bad, k + 1);
  }

  lemma RemoveFirstCons<T(!new)>(y: T, s: seq<T>, x: T)
    requires y != x
    ensures RemoveFirst([y] + s, x) == [y] + RemoveFirst(s, x)
  {
    assert ([y] + s)[1..] == s;
  }

  /** Once every marked element has been removed, what is left is the unmarked part of `s`. */
  lemma {:induction false} DropMarkedAll<T(!new)>(s: seq<T>, bad: T -> bool, keep: T -> bool)
    requires forall x :: keep(x) == !bad(x)
    ensures DropMarked(s, bad, |Filter(bad, s)|) == Filter(keep, s)
    decreases |s|
  {
    if s != [] {
      var a, t := s[0], s[1..];
      FilterHead(bad, s);
      FilterHead(keep, s);
      DropMarkedAll(t, bad, keep);
      var n := |Filter(bad, t)|;
      if bad(a) {
        assert !keep(a);
        assert |Filter(bad, s)| == n + 1;
        assert DropMarked(s, bad, n + 1) == DropMarked(t, bad, n);
        assert DropMarked(s, bad, |Filter(bad, s)|) == Filter(keep, s);
      } else if n == 0 {
        assert |Filter(bad, s)| == 0;
        FilterKeepsAllComplement(s, bad, keep);
        assert DropMarked(s, bad, |Filter(bad, s)|) == Filter(keep, s);
      } else {
        assert keep(a);
        assert |Filter(bad, s)| == n;
        assert DropMarked(s, bad, n) == [a] + DropMarked(t, bad, n);
        assert DropMarked(s, bad, |Filter(bad, s)|) == Filter(keep, s);
      }
    }
  }

  lemma FilterKeepsAllComplement<T(!new)>(s: seq<T>, bad: T -> bool, keep: T -> bool)
    requires forall x :: keep(x) == !bad(x)
    requires |Filter(bad, s)| == 0
    ensures Filter(keep, s) == s
  {
    FilterMembers(bad, s);
    forall i | 0 <= i < |s| ensures keep(s[i]) {
      assert s[i] in s;
    }
    FilterKeepsAll(keep, s);
  }

  /** `list.push(x)` unless `x` is already in the list. */
  function AddIfAbsent<T(==,!new)>(s: seq<T>, x: T): seq<T> {
    if x in s then s else s + [x]
  }

  /** The distinct elements of `s`, each once, in the order of their first appearance. */
  function Dedup<T(==,!new)>(s: seq<T>): (r: seq<T>)
    ensures NoDup(r)
    ensures forall x :: x in r <==> x in s
  {
    if s == [] then [] else AddIfAbsent(Dedup(s[..|s| - 1]), s[|s| - 1])
  }

  lemma IndexOfInPrefix<T(!new)>(a: seq<T>, b: seq<T>, x: T)
    requires x in a
    ensures IndexOf(a + b, x) == IndexOf(a, x)
  {
    var i := IndexOf(a, x);
    assert (a + b)[..i] == a[..i];
    assert (a + b)[i] == x;
  }

  /** `Dedup` lists elements in the order in which they first occur in `s`. */
  lemma {:induction false} DedupFirstAppearanceOrder<T(!new)>(s: seq<T>)
    ensures forall i, j :: 0 <= i < j < |Dedup(s)| ==> IndexOf(s, Dedup(s)[i]) < IndexOf(s, Dedup(s)[j])
  {
    if s != [] {
      var s' := s[..|s| - 1];
      var x := s[|s| - 1];
      assert s == s' + [x];
      DedupFirstAppearanceOrder(s');
      var d' := Dedup(s');
      forall y | y in s' ensures IndexOf(s, y) == IndexOf(s', y) {
        IndexOfInPrefix(s', [x], y);
      }
      if x !in s' {
        assert IndexOf(s, x) == |s'| by {
          assert s[..|s'|] == s';
        }
        forall i, j | 0 <= i < j < |Dedup(s)|
          ensures IndexOf(s, Dedup(s)[i]) < IndexOf(s, Dedup(s)[j])
        {
          assert Dedup(s)[i] == d'[i];
          assert d'[i] in s';
          if j < |d'| {
            assert Dedup(s)[j] == d'[j];
            assert d'[j] in s';
          }
        }
      } else {
        forall i, j | 0 <= i < j < |Dedup(s)|
          ensures IndexOf(s, Dedup(s)[i]) < IndexOf(s, Dedup(s)[j])
        {
          assert d'[i] in s' && d'[j] in s';
        }
      }
    }
  }
}
