/**
 * Sorting by a string key in code-point order, stably: the behaviour that
 * Python's `list.sort(key=...)` promises (and the model of Ruby's
 * `sort { casecmp }`, which promises only order and permutation).
 * Defined as an insertion sort in which an element goes before every
 * element of equal key that came after it in the input.
 */
module StableSort {
  import opened Strings
  import opened Seqs

  /** Keys never decrease along `s`. */
  predicate SortedBy<T>(s: seq<T>, key: T -> string) {
    forall i, j :: 0 <= i < j < |s| ==> LexLe(key(s[i]), key(s[j]))
  }

  function HasKey<T>(key: T -> string, k: string): T -> bool {
    x => key(x) == k
  }

  /** Inserts `x` in front of the first element whose key is not below its own. */
  function Insert<T>(x: T, s: seq<T>, key: T -> string): (r: seq<T>)
    ensures multiset(r) == multiset(s) + multiset{x}
  {
    if s == [] then [x]
    else if LexLe(key(x), key(s[0])) then [x] + s
    else
      assert s == [s[0]] + s[1..];
      [s[0]] + Insert(x, s[1..], key)
  }

  function SortBy<T>(s: seq<T>, key: T -> string): (r: seq<T>)
    ensures multiset(r) == multiset(s)
    ensures SortedBy(r, key)
  {
    if s == [] then []
    else
      assert s == [s[0]] + s[1..];
      var rest := SortBy(s[1..], key);
      InsertSorted(s[0], rest, key);
      Insert(s[0], rest, key)
  }

  lemma {:induction false} InsertSorted<T>(x: T, s: seq<T>, key: T -> string)
    requires SortedBy(s, key)
    ensures SortedBy(Insert(x, s, key), key)
  {
    if s != [] {
      if LexLe(key(x), key(s[0])) {
        forall j | 0 < j < |s| ensures LexLe(key(x), key(s[j])) {
          LexLeTransitive(key(x), key(s[0]), key(s[j]));
        }
        ConsSorted(x, s, key);
      } else {
        LexNotLe(key(x), key(s[0]));
        var t := Insert(x, s[1..], key);
        InsertSorted(x, s[1..], key);
        forall j | 0 <= j < |t| ensures LexLe(key(s[0]), key(t[j])) {
          assert t[j] in multiset(t);
          if t[j] != x {
            assert t[j] in s[1..];
            var m :| 0 <= m < |s[1..]| && s[1..][m] == t[j];
            assert s[m + 1] == t[j];
          }
        }
        ConsSorted(s[0], t, key);
      }
    }
  }

  /** An element whose key is not above any key of a sorted list can go in front. */
  lemma ConsSorted<T>(y: T, t: seq<T>, key: T -> string)
    requires SortedBy(t, key)
    requires forall j :: 0 <= j < |t| ==> LexLe(key(y), key(t[j]))
    ensures SortedBy([y] + t, key)
  {
    var r := [y] + t;
    forall i, j | 0 <= i < j < |r| ensures LexLe(key(r[i]), key(r[j])) {
      assert r[j] == t[j - 1];
      if i > 0 {
        assert r[i] == t[i - 1];
      }
    }
  }

  /** Inserting `x` puts it in front of every element with the same key and
      leaves the order among the others alone. */
  lemma {:induction false} InsertWithKey<T>(x: T, s: seq<T>, key: T -> string, k: string)
    ensures Filter(Insert(x, s, key), HasKey(key, k))
         == (if key(x) == k then [x] else []) + Filter(s, HasKey(key, k))
  {
    var p := HasKey(key, k);
    if s == [] {
      FilterSingle([x], p);
    } else if LexLe(key(x), key(s[0])) {
      FilterSingle([x], p);
      FilterConcat([x], s, p);
    } else {
      InsertWithKey(x, s[1..], key, k);
      LexLeReflexive(key(x));
      InsertWithKeyStep(x, s, Insert(x, s[1..], key), key, k);
    }
  }

  lemma InsertWithKeyStep<T>(x: T, s: seq<T>, t: seq<T>, key: T -> string, k: string)
    requires s != [] && key(s[0]) != key(x)
    requires Filter(t, HasKey(key, k))
          == (if key(x) == k then [x] else []) + Filter(s[1..], HasKey(key, k))
    ensures Filter([s[0]] + t, HasKey(key, k))
         == (if key(x) == k then [x] else []) + Filter(s, HasKey(key, k))
  {
    var p := HasKey(key, k);
    FilterCons(s[0], t, p);
    FilterCons(s[0], s[1..], p);
    assert s == [s[0]] + s[1..];
  }

  lemma FilterSingle<T>(s: seq<T>, p: T -> bool)
    requires |s| == 1
    ensures Filter(s, p) == if p(s[0]) then s else []
  {
    assert s[1..] == [];
  }

  /** Stability: among the elements of any one key, sorting keeps input order. */
  lemma {:induction false} SortByStable<T>(s: seq<T>, key: T -> string, k: string)
    ensures Filter(SortBy(s, key), HasKey(key, k)) == Filter(s, HasKey(key, k))
  {
    if s != [] {
      SortByStable(s[1..], key, k);
      InsertWithKey(s[0], SortBy(s[1..], key), key, k);
    }
  }

  /** Sorting what is already sorted changes nothing. */
  lemma {:induction false} SortBySorted<T>(s: seq<T>, key: T -> string)
    requires SortedBy(s, key)
    ensures SortBy(s, key) == s
  {
    if s != [] {
      assert SortedBy(s[1..], key);
      SortBySorted(s[1..], key);
      if |s| > 1 {
        assert LexLe(key(s[0]), key(s[1]));
      }
      assert s == [s[0]] + s[1..];
    }
  }

  /** Three elements whose middle key is the least. */
  lemma SortThree<T>(x: T, y: T, z: T, key: T -> string)
    requires !LexLe(key(x), key(y)) && LexLe(key(x), key(z)) && LexLe(key(y), key(z))
    ensures SortBy([x, y, z], key) == [y, x, z]
  {
    SortPair(y, z, key);
    InsertSecond(x, y, z, key);
    assert [x, y, z][1..] == [y, z];
  }

  lemma SortPair<T>(y: T, z: T, key: T -> string)
    requires LexLe(key(y), key(z))
    ensures SortBy([y, z], key) == [y, z]
  {
    assert [z][1..] == [];
    assert SortBy([z], key) == [z];
    assert [y, z][1..] == [z];
  }

  lemma InsertSecond<T>(x: T, y: T, z: T, key: T -> string)
    requires !LexLe(key(x), key(y)) && LexLe(key(x), key(z))
    ensures Insert(x, [y, z], key) == [y, x, z]
  {
    assert [y, z][1..] == [z];
    assert Insert(x, [z], key) == [x, z];
  }
}
