/** Python's `sorted(xs, key=lambda x: x.order)`: a stable sort on an integer
    key, used by `edit_survey` on a survey's questions and on each question's
    options before comparing them with the submitted form. */
module Ordering {

  predicate SortedBy<T>(s: seq<T>, key: T -> int)
  {
    forall i, j :: 0 <= i < j < |s| ==> key(s[i]) <= key(s[j])
  }

  /** Puts `x` after every element whose key is at most `x`'s, so that equal
      keys keep their relative order. */
  function Insert<T>(x: T, s: seq<T>, key: T -> int): (r: seq<T>)
    ensures |r| == |s| + 1
    ensures s == [] || key(s[|s| - 1]) <= key(x) ==> r == s + [x]
    decreases |s|
  {
    if s == [] then [x]
    else if key(s[|s| - 1]) <= key(x) then s + [x]
    else Insert(x, s[..|s| - 1], key) + [s[|s| - 1]]
  }

  /** Insertion sort: stable, so equal keys stay in input order. */
  function SortBy<T>(s: seq<T>, key: T -> int): (r: seq<T>)
    ensures |r| == |s|
    decreases |s|
  {
    if s == [] then [] else Insert(s[|s| - 1], SortBy(s[..|s| - 1], key), key)
  }

  /** Inserting adds exactly `x`. */
  lemma {:induction false} InsertPermutes<T>(x: T, s: seq<T>, key: T -> int)
    ensures multiset(Insert(x, s, key)) == multiset(s) + multiset{x}
    decreases |s|
  {
    if s != [] && key(s[|s| - 1]) > key(x) {
      var front := s[..|s| - 1];
      InsertPermutes(x, front, key);
      assert s == front + [s[|s| - 1]];
    }
  }

  /** Inserting keeps every key below a common bound. */
  lemma {:induction false} InsertBelow<T>(x: T, s: seq<T>, key: T -> int, bound: int)
    requires key(x) <= bound && forall i :: 0 <= i < |s| ==> key(s[i]) <= bound
    ensures forall i :: 0 <= i < |Insert(x, s, key)| ==> key(Insert(x, s, key)[i]) <= bound
    decreases |s|
  {
    if s != [] && key(s[|s| - 1]) > key(x) {
      var front := s[..|s| - 1];
      InsertBelow(x, front, key, bound);
      var r := Insert(x, s, key);
      assert r == Insert(x, front, key) + [s[|s| - 1]];
      forall i | 0 <= i < |r| ensures key(r[i]) <= bound {
        if i < |r| - 1 {
          assert r[i] == Insert(x, front, key)[i];
        }
      }
    }
  }

  /** Inserting into a sorted sequence keeps it sorted. */
  lemma {:induction false} InsertSorted<T>(x: T, s: seq<T>, key: T -> int)
    requires SortedBy(s, key)
    ensures SortedBy(Insert(x, s, key), key)
    decreases |s|
  {
    if s != [] && key(s[|s| - 1]) > key(x) {
      var last := s[|s| - 1];
      var front := s[..|s| - 1];
      assert SortedBy(front, key) by {
        forall i, j | 0 <= i < j < |front| ensures key(front[i]) <= key(front[j]) {
          assert front[i] == s[i] && front[j] == s[j];
        }
      }
      InsertSorted(x, front, key);
      forall i | 0 <= i < |front| ensures key(front[i]) <= key(last) {
        assert front[i] == s[i];
      }
      InsertBelow(x, front, key, key(last));
      var p := Insert(x, front, key);
      var r := Insert(x, s, key);
      assert r == p + [last];
      forall i, j | 0 <= i < j < |r| ensures key(r[i]) <= key(r[j]) {
        assert r[i] == p[i];
        if j < |p| {
          assert r[j] == p[j];
        }
      }
    }
  }

  /** The result is in key order. */
  lemma {:induction false} SortBySorted<T>(s: seq<T>, key: T -> int)
    ensures SortedBy(SortBy(s, key), key)
    decreases |s|
  {
    if s != [] {
      SortBySorted(s[..|s| - 1], key);
      InsertSorted(s[|s| - 1], SortBy(s[..|s| - 1], key), key);
    }
  }

  /** The result is a permutation of the input. */
  lemma {:induction false} SortByPermutes<T>(s: seq<T>, key: T -> int)
    ensures multiset(SortBy(s, key)) == multiset(s)
    decreases |s|
  {
    if s != [] {
      var front := s[..|s| - 1];
      SortByPermutes(front, key);
      InsertPermutes(s[|s| - 1], SortBy(front, key), key);
      assert s == front + [s[|s| - 1]];
    }
  }

  /** The elements whose key is `v`, in the order `s` has them. */
  function KeyFilter<T>(s: seq<T>, key: T -> int, v: int): seq<T>
    decreases |s|
  {
    if s == [] then []
    else KeyFilter(s[..|s| - 1], key, v) + (if key(s[|s| - 1]) == v then [s[|s| - 1]] else [])
  }

  lemma KeyFilterSnoc<T>(s: seq<T>, y: T, key: T -> int, v: int)
    ensures KeyFilter(s + [y], key, v) == KeyFilter(s, key, v) + (if key(y) == v then [y] else [])
  {
    assert (s + [y])[..|s|] == s;
  }

  /** Inserting `x` puts it after every element of its own key. */
  lemma {:induction false} InsertStable<T>(x: T, s: seq<T>, key: T -> int, v: int)
    ensures KeyFilter(Insert(x, s, key), key, v) == KeyFilter(s, key, v) + (if key(x) == v then [x] else [])
    decreases |s|
  {
    if s == [] {
      KeyFilterSnoc(s, x, key, v);
    } else if key(s[|s| - 1]) <= key(x) {
      KeyFilterSnoc(s, x, key, v);
    } else {
      var front, last := s[..|s| - 1], s[|s| - 1];
      InsertStable(x, front, key, v);
      KeyFilterSnoc(Insert(x, front, key), last, key, v);
      // `last`'s key is above `x`'s, so at most one of them has key `v`.
      assert key(x) != v || key(last) != v;
    }
  }

  /** Stability: for every key, the elements with that key come out in the
      order they went in. */
  lemma {:induction false} SortByStable<T>(s: seq<T>, key: T -> int, v: int)
    ensures KeyFilter(SortBy(s, key), key, v) == KeyFilter(s, key, v)
    decreases |s|
  {
    if s != [] {
      var front := s[..|s| - 1];
      SortByStable(front, key, v);
      InsertStable(s[|s| - 1], SortBy(front, key), key, v);
    }
  }

  /** Sorting what is already in key order changes nothing. */
  lemma {:induction false} SortByIdentity<T>(s: seq<T>, key: T -> int)
    requires SortedBy(s, key)
    ensures SortBy(s, key) == s
    decreases |s|
  {
    if s != [] {
      var front, last := s[..|s| - 1], s[|s| - 1];
      assert SortedBy(front, key) by {
        forall i, j | 0 <= i < j < |front| ensures key(front[i]) <= key(front[j]) {
          assert front[i] == s[i] && front[j] == s[j];
        }
      }
      SortByIdentity(front, key);
      assert SortBy(s, key) == Insert(last, SortBy(front, key), key);
      if front != [] {
        assert key(front[|front| - 1]) <= key(last) by {
          assert front[|front| - 1] == s[|s| - 2];
        }
      }
      assert Insert(last, front, key) == front + [last];
      assert s == front + [last];
    }
  }
}
