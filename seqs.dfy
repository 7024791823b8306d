/**
 * Order-preserving selection and removal on sequences: the vocabulary in
 * which the scripts' list rewrites (remove a child, append a child, keep
 * the children that pass a test) are specified.
 */
module Seqs {

  /** The elements of `s` that satisfy `p`, in their order in `s`. */
  function Filter<T>(s: seq<T>, p: T -> bool): (r: seq<T>)
    ensures |r| <= |s|
  {
    if s == [] then []
    else (if p(s[0]) then [s[0]] else []) + Filter(s[1..], p)
  }

  /** What `Filter` keeps: exactly the elements of `s` that pass `p`. */
  lemma {:induction false} FilterMembers<T>(s: seq<T>, p: T -> bool)
    ensures forall x :: x in Filter(s, p) ==> x in s && p(x)
    ensures forall x :: x in s && p(x) ==> x in Filter(s, p)
  {
    if s != [] {
      FilterMembers(s[1..], p);
      assert forall x :: x in s <==> x == s[0] || x in s[1..];
    }
  }

  function Not<T>(p: T -> bool): T -> bool {
    x => !p(x)
  }

  function NotIn<T(==)>(excluded: set<T>): T -> bool {
    x => x !in excluded
  }

  function Elems<T>(s: seq<T>): set<T> {
    set x | x in s
  }

  /** No element occurs twice: a list of tree nodes, each an object of its own. */
  predicate Distinct<T(==)>(s: seq<T>) {
    forall i, j :: 0 <= i < j < |s| ==> s[i] != s[j]
  }

  /** `s` without the first occurrence of `x` (for a distinct `s`, without `x`). */
  function Remove<T(==)>(s: seq<T>, x: T): (r: seq<T>)
    ensures multiset(r) == multiset(s) - multiset{x}
  {
    if s == [] then []
    else if s[0] == x then
      assert s == [s[0]] + s[1..];
      s[1..]
    else
      assert s == [s[0]] + s[1..];
      [s[0]] + Remove(s[1..], x)
  }

  // ---------------------------------------------------------------------
  // Filter
  // ---------------------------------------------------------------------

  lemma {:induction false} FilterConcat<T>(a: seq<T>, b: seq<T>, p: T -> bool)
    ensures Filter(a + b, p) == Filter(a, p) + Filter(b, p)
  {
    if a == [] {
      assert a + b == b;
    } else {
      var head := if p(a[0]) then [a[0]] else [];
      assert (a + b)[0] == a[0] && (a + b)[1..] == a[1..] + b;
      FilterConcat(a[1..], b, p);
      assert Filter(a + b, p) == head + (Filter(a[1..], p) + Filter(b, p));
      assert Filter(a, p) == head + Filter(a[1..], p);
    }
  }

  lemma FilterConcat3<T>(a: seq<T>, b: seq<T>, c: seq<T>, p: T -> bool)
    ensures Filter(a + b + c, p) == Filter(a, p) + Filter(b, p) + Filter(c, p)
  {
    FilterConcat(a + b, c, p);
    FilterConcat(a, b, p);
  }

  /** Filtering three runs where the outer ones pass and the middle one fails. */
  lemma FilterKeepOuter<T>(a: seq<T>, b: seq<T>, c: seq<T>, p: T -> bool)
    requires forall x :: x in a ==> p(x)
    requires forall x :: x in b ==> !p(x)
    requires forall x :: x in c ==> p(x)
    ensures Filter(a + b + c, p) == a + c
  {
    calc {
      Filter(a + b + c, p);
      { FilterConcat3(a, b, c, p); }
      Filter(a, p) + Filter(b, p) + Filter(c, p);
      { FilterAll(a, p); FilterNone(b, p); FilterAll(c, p); }
      a + [] + c;
      a + c;
    }
  }

  /** Filtering three runs where only the middle one passes. */
  lemma FilterKeepMiddle<T>(a: seq<T>, b: seq<T>, c: seq<T>, p: T -> bool)
    requires forall x :: x in a ==> !p(x)
    requires forall x :: x in b ==> p(x)
    requires forall x :: x in c ==> !p(x)
    ensures Filter(a + b + c, p) == b
  {
    assert Filter(a, p) == [] by { FilterNone(a, p); }
    assert Filter(b, p) == b by { FilterAll(b, p); }
    assert Filter(c, p) == [] by { FilterNone(c, p); }
    assert [] + b + [] == b;
    FilterConcat3(a, b, c, p);
  }

  lemma FilterCons<T>(x: T, s: seq<T>, p: T -> bool)
    ensures Filter([x] + s, p) == (if p(x) then [x] else []) + Filter(s, p)
  {
    assert ([x] + s)[0] == x && ([x] + s)[1..] == s;
  }

  lemma FilterDropMiddle<T>(a: T, b: T, c: T, p: T -> bool)
    requires p(a) && !p(b) && p(c)
    ensures Filter([a, b, c], p) == [a, c]
  {
    FilterCons(c, [], p);
    assert [c] == [c] + [];
    FilterCons(b, [c], p);
    assert [b, c] == [b] + [c];
    FilterCons(a, [b, c], p);
    assert [a, b, c] == [a] + [b, c];
  }

  /** Keeping what passes a test the whole sequence passes changes nothing. */
  lemma {:induction false} FilterAll<T>(s: seq<T>, p: T -> bool)
    requires forall x :: x in s ==> p(x)
    ensures Filter(s, p) == s
  {
    if s != [] {
      FilterAll(s[1..], p);
    }
  }

  lemma {:induction false} FilterNone<T>(s: seq<T>, p: T -> bool)
    requires forall x :: x in s ==> !p(x)
    ensures Filter(s, p) == []
  {
    if s != [] {
      FilterNone(s[1..], p);
    }
  }

  /** Two tests that agree on the elements of `s` select the same subsequence. */
  lemma {:induction false} FilterCongruent<T>(s: seq<T>, p: T -> bool, q: T -> bool)
    requires forall x :: x in s ==> p(x) == q(x)
    ensures Filter(s, p) == Filter(s, q)
  {
    if s != [] {
      FilterCongruent(s[1..], p, q);
    }
  }

  /** Filtering by a narrower test after a wider one is filtering by the narrower. */
  lemma {:induction false} FilterNarrow<T>(s: seq<T>, p: T -> bool, q: T -> bool)
    requires forall x :: x in s && q(x) ==> p(x)
    ensures Filter(Filter(s, p), q) == Filter(s, q)
  {
    if s != [] {
      FilterNarrow(s[1..], p, q);
      FilterCons(s[0], s[1..], p);
      FilterCons(s[0], s[1..], q);
      assert s == [s[0]] + s[1..];
      assert s[0] in s && (q(s[0]) ==> p(s[0]));
      if p(s[0]) {
        FilterCons(s[0], Filter(s[1..], p), q);
      } else {
        assert Filter(s, p) == Filter(s[1..], p);
        assert Filter(s, q) == Filter(s[1..], q);
      }
    }
  }

  /** Filtering by `p` and then by `q` is filtering by `r`, when `r` is
      their conjunction on the elements of `s`. */
  lemma {:induction false} FilterThen<T>(s: seq<T>, p: T -> bool, q: T -> bool, r: T -> bool)
    requires forall x :: x in s ==> r(x) == (p(x) && q(x))
    ensures Filter(Filter(s, p), q) == Filter(s, r)
  {
    if s != [] {
      FilterThen(s[1..], p, q, r);
      FilterCons(s[0], s[1..], p);
      FilterCons(s[0], s[1..], r);
      assert s == [s[0]] + s[1..];
      assert s[0] in s;
      if p(s[0]) {
        FilterCons(s[0], Filter(s[1..], p), q);
      } else {
        assert Filter(s, p) == Filter(s[1..], p);
        assert Filter(s, r) == Filter(s[1..], r);
      }
    }
  }

  lemma FilterIdempotent<T>(s: seq<T>, p: T -> bool)
    ensures Filter(Filter(s, p), p) == Filter(s, p)
  {
    FilterMembers(s, p);
    FilterAll(Filter(s, p), p);
  }

  /** Splitting by a test and its negation neither loses nor adds an element. */
  lemma {:induction false} FilterPartition<T>(s: seq<T>, p: T -> bool)
    ensures multiset(Filter(s, p)) + multiset(Filter(s, Not(p))) == multiset(s)
  {
    if s != [] {
      var t := s[1..];
      FilterPartition(t, p);
      FilterCons(s[0], t, p);
      FilterCons(s[0], t, Not(p));
      assert s == [s[0]] + t;
      assert multiset(s) == multiset{s[0]} + multiset(t);
      if p(s[0]) {
        assert multiset(Filter(s, p)) == multiset{s[0]} + multiset(Filter(t, p));
        assert Filter(s, Not(p)) == Filter(t, Not(p));
      } else {
        assert Filter(s, p) == Filter(t, p);
        assert multiset(Filter(s, Not(p))) == multiset{s[0]} + multiset(Filter(t, Not(p)));
      }
    }
  }

  lemma {:induction false} FilterDistinct<T>(s: seq<T>, p: T -> bool)
    requires Distinct(s)
    ensures Distinct(Filter(s, p))
  {
    if s != [] {
      FilterDistinct(s[1..], p);
      var r := Filter(s, p);
      var t := Filter(s[1..], p);
      FilterMembers(s[1..], p);
      assert s[0] !in s[1..];
      assert s[0] !in t;
      if p(s[0]) {
        assert r == [s[0]] + t;
        forall i, j | 0 <= i < j < |r| ensures r[i] != r[j] {
          if i > 0 {
            assert r[i] == t[i - 1] && r[j] == t[j - 1];
          } else {
            assert r[j] in t;
          }
        }
      }
    }
  }

  // ---------------------------------------------------------------------
  // Remove
  // ---------------------------------------------------------------------

  lemma {:induction false} RemoveAbsent<T>(s: seq<T>, x: T)
    requires x !in s
    ensures Remove(s, x) == s
  {
    if s != [] {
      assert s[0] != x && x !in s[1..];
      RemoveAbsent(s[1..], x);
      assert Remove(s, x) == [s[0]] + s[1..];
      assert s == [s[0]] + s[1..];
    }
  }

  /** Taking the occurrence of `x` out of a distinct sequence leaves none. */
  lemma RemoveLeavesNone<T>(s: seq<T>, x: T)
    requires Distinct(s)
    ensures x !in Remove(s, x)
  {
    DistinctCount(s, x);
  }

  lemma {:induction false} RemoveConcat<T>(a: seq<T>, b: seq<T>, x: T)
    requires x in a
    ensures Remove(a + b, x) == Remove(a, x) + b
  {
    assert (a + b)[1..] == a[1..] + b;
    if a[0] != x {
      RemoveConcat(a[1..], b, x);
    }
  }

  lemma {:induction false} RemoveDistinct<T>(s: seq<T>, x: T)
    requires Distinct(s)
    ensures Distinct(Remove(s, x))
  {
    if s != [] && s[0] != x {
      RemoveDistinct(s[1..], x);
      var t := Remove(s[1..], x);
      assert multiset(t) <= multiset(s[1..]);
      assert s[0] !in s[1..];
      assert s[0] !in multiset(t);
      forall i, j | 0 <= i < j < |[s[0]] + t| ensures ([s[0]] + t)[i] != ([s[0]] + t)[j] {
        if i == 0 {
          assert ([s[0]] + t)[j] in t;
        }
      }
    }
  }

  /** Removing one more element from the part of a distinct sequence kept so
      far is keeping one element fewer. */
  lemma {:induction false} RemoveFromFilter<T>(s: seq<T>, removed: set<T>, x: T)
    requires Distinct(s)
    ensures Remove(Filter(s, NotIn(removed)), x) == Filter(s, NotIn(removed + {x}))
  {
    if s != [] {
      var rest := s[1..];
      var keep, keep' := NotIn(removed), NotIn(removed + {x});
      assert s[0] !in rest;
      if s[0] == x {
        RemoveFromFilterHead(s, removed);
      } else {
        RemoveFromFilter(rest, removed, x);
        if s[0] in removed {
          assert Filter(s, keep) == Filter(rest, keep);
          assert Filter(s, keep') == Filter(rest, keep');
        } else {
          assert Filter(s, keep) == [s[0]] + Filter(rest, keep);
          assert Filter(s, keep') == [s[0]] + Filter(rest, keep');
        }
      }
    }
  }

  /** `RemoveFromFilter` when the removed element heads the sequence. */
  lemma RemoveFromFilterHead<T>(s: seq<T>, removed: set<T>)
    requires s != [] && s[0] !in s[1..]
    ensures Remove(Filter(s, NotIn(removed)), s[0]) == Filter(s, NotIn(removed + {s[0]}))
  {
    var x, rest := s[0], s[1..];
    var keep, keep' := NotIn(removed), NotIn(removed + {x});
    FilterMembers(rest, keep);
    FilterCongruent(rest, keep, keep');
    RemoveAbsent(Filter(rest, keep), x);
    assert Filter(s, keep') == Filter(rest, keep');
    if x in removed {
      assert Filter(s, keep) == Filter(rest, keep);
    } else {
      assert Filter(s, keep) == [x] + Filter(rest, keep);
    }
  }

  // ---------------------------------------------------------------------
  // Distinct and permutations
  // ---------------------------------------------------------------------

  lemma {:induction false} DistinctCount<T>(s: seq<T>, x: T)
    requires Distinct(s)
    ensures multiset(s)[x] <= 1
  {
    if s != [] {
      DistinctCount(s[1..], x);
      assert s == [s[0]] + s[1..];
      assert s[0] !in s[1..];
    }
  }

  /** A permutation of a distinct sequence is distinct. */
  lemma DistinctPermutation<T>(a: seq<T>, b: seq<T>)
    requires Distinct(a) && multiset(a) == multiset(b)
    ensures Distinct(b)
  {
    forall i, j | 0 <= i < j < |b| ensures b[i] != b[j] {
      if b[i] == b[j] {
        assert b == b[..i] + [b[i]] + b[i + 1..j] + [b[j]] + b[j + 1..];
        assert multiset(b)[b[i]] >= 2;
        DistinctCount(a, b[i]);
      }
    }
  }

  // ---------------------------------------------------------------------
  // Steps of the in-place list rewrites
  // ---------------------------------------------------------------------

  lemma FilterSnoc<T>(s: seq<T>, x: T, p: T -> bool)
    ensures Filter(s + [x], p) == Filter(s, p) + (if p(x) then [x] else [])
  {
    FilterConcat(s, [x], p);
    FilterCons(x, [], p);
    assert [x] + [] == [x];
  }

  /** One step of "remove every listed element in turn": the next listed
      element is still present, and removing it drops it from the kept part. */
  lemma RemoveNext<T>(s: seq<T>, listed: seq<T>, i: nat)
    requires Distinct(s) && Distinct(listed) && i < |listed|
    requires forall x :: x in listed ==> x in s
    ensures listed[i] in Filter(s, NotIn(Elems(listed[..i])))
    ensures Remove(Filter(s, NotIn(Elems(listed[..i]))), listed[i])
         == Filter(s, NotIn(Elems(listed[..i + 1])))
  {
    var x := listed[i];
    FilterMembers(s, NotIn(Elems(listed[..i])));
    DistinctNotBefore(listed, i);
    TakeNext(listed, i);
    assert Elems(listed[..i + 1]) == Elems(listed[..i]) + {x};
    RemoveFromFilter(s, Elems(listed[..i]), x);
  }

  /** One step of "append every listed element in turn" behind elements
      that are not listed. */
  lemma AppendNext<T>(kept: seq<T>, listed: seq<T>, i: nat)
    requires Distinct(listed) && i < |listed|
    requires listed[i] !in kept
    ensures Remove(kept + listed[..i], listed[i]) + [listed[i]] == kept + listed[..i + 1]
  {
    var x, done := listed[i], listed[..i];
    TakeNext(listed, i);
    DistinctNotBefore(listed, i);
    assert x !in kept + done;
    RemoveAbsent(kept + done, x);
    assert kept + listed[..i + 1] == (kept + done) + [x];
  }

  lemma TakeNext<T>(s: seq<T>, i: nat)
    requires i < |s|
    ensures s[..i + 1] == s[..i] + [s[i]]
  {
  }

  /** In a distinct sequence an element does not occur before its position. */
  lemma DistinctNotBefore<T>(s: seq<T>, i: nat)
    requires Distinct(s) && i < |s|
    ensures s[i] !in s[..i]
  {
    forall k | 0 <= k < i ensures s[..i][k] != s[i] {
      assert s[..i][k] == s[k];
    }
  }

  /** One step of "remove the next listed element, then append it", where
      the listed elements moved so far are already at the end. */
  lemma MoveNext<T>(s: seq<T>, listed: seq<T>, j: nat)
    requires Distinct(s) && Distinct(listed) && j < |listed|
    requires forall x :: x in listed ==> x in s
    ensures listed[j] in Filter(s, NotIn(Elems(listed[..j]))) + listed[..j]
    ensures Remove(Filter(s, NotIn(Elems(listed[..j]))) + listed[..j], listed[j])
         == Filter(s, NotIn(Elems(listed[..j + 1]))) + listed[..j]
  {
    RemoveNext(s, listed, j);
    RemoveConcat(Filter(s, NotIn(Elems(listed[..j]))), listed[..j], listed[j]);
  }

  /** Taking out the elements of a rearrangement of `Filter(s, p)` leaves
      `Filter(s, Not(p))`. */
  lemma FilterOutPermutation<T>(s: seq<T>, p: T -> bool, t: seq<T>)
    requires multiset(t) == multiset(Filter(s, p))
    ensures forall x :: x in t ==> x in s && p(x)
    ensures Filter(s, NotIn(Elems(t))) == Filter(s, Not(p))
  {
    FilterMembers(s, p);
    forall x | x in t ensures x in s && p(x) {
      assert x in multiset(Filter(s, p));
    }
    forall x | x in s ensures NotIn(Elems(t))(x) == Not(p)(x) {
      if p(x) {
        assert x in multiset(t);
      }
    }
    FilterCongruent(s, NotIn(Elems(t)), Not(p));
  }
}
