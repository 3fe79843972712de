/** Stable sorting by a lexicographic integer key: the model of
    `Array.prototype.sort` with a comparator that is consistent with such a key
    (the result ordering of `reduce`, the priority order of a node's child keys). */
module Ordering {

  /** Lexicographic order on integer keys; a proper prefix comes first. */
  predicate Le(a: seq<int>, b: seq<int>)
    decreases |a|
  {
    a == [] || (b != [] && (a[0] < b[0] || (a[0] == b[0] && Le(a[1..], b[1..]))))
  }

  lemma {:induction false} LeTotal(a: seq<int>, b: seq<int>)
    ensures Le(a, b) || Le(b, a)
    decreases |a|
  {
    if a != [] && b != [] && a[0] == b[0] {
      LeTotal(a[1..], b[1..]);
    }
  }

  lemma {:induction false} LeTrans(a: seq<int>, b: seq<int>, c: seq<int>)
    requires Le(a, b) && Le(b, c)
    ensures Le(a, c)
    decreases |a|
  {
    if a != [] && b != [] && c != [] && a[0] == b[0] && b[0] == c[0] {
      LeTrans(a[1..], b[1..], c[1..]);
    }
  }

  predicate Sorted<T>(s: seq<T>, key: T -> seq<int>)
  {
    forall i, j :: 0 <= i < j < |s| ==> Le(key(s[i]), key(s[j]))
  }

  /** The elements of s whose key is c, in their order in s. */
  function Filter<T>(s: seq<T>, key: T -> seq<int>, c: seq<int>): (r: seq<T>)
    ensures |r| <= |s|
  {
    if s == [] then [] else (if key(s[0]) == c then [s[0]] else []) + Filter(s[1..], key, c)
  }

  /** Insert x after every element whose key is not greater than its own. */
  function Insert<T>(s: seq<T>, x: T, key: T -> seq<int>): (r: seq<T>)
  {
    if s == [] then [x]
    else if !Le(key(s[0]), key(x)) then [x] + s
    else [s[0]] + Insert(s[1..], x, key)
  }

  /** Insertion sort, taking the elements left to right. */
  function Sort<T>(s: seq<T>, key: T -> seq<int>): (r: seq<T>)
  {
    if s == [] then [] else Insert(Sort(s[..|s| - 1], key), s[|s| - 1], key)
  }

  lemma {:induction false} InsertPerm<T>(s: seq<T>, x: T, key: T -> seq<int>)
    ensures multiset(Insert(s, x, key)) == multiset(s) + multiset{x}
  {
    if s != [] && Le(key(s[0]), key(x)) {
      InsertPerm(s[1..], x, key);
      assert s == [s[0]] + s[1..];
    }
  }

  lemma {:induction false} InsertSorted<T>(s: seq<T>, x: T, key: T -> seq<int>)
    requires Sorted(s, key)
    ensures Sorted(Insert(s, x, key), key)
    ensures forall y :: y in Insert(s, x, key) ==> y in s || y == x
  {
    var r := Insert(s, x, key);
    if s == [] {
    } else if !Le(key(s[0]), key(x)) {
      assert r == [x] + s;
      LeTotal(key(s[0]), key(x));
      forall i, j | 0 <= i < j < |r| ensures Le(key(r[i]), key(r[j])) {
        if i == 0 {
          assert r[j] == s[j - 1];
          if j > 1 {
            LeTrans(key(x), key(s[0]), key(s[j - 1]));
          }
        } else {
          assert r[i] == s[i - 1] && r[j] == s[j - 1];
        }
      }
    } else {
      var t := Insert(s[1..], x, key);
      assert r == [s[0]] + t;
      SortedTail(s, key);
      InsertSorted(s[1..], x, key);
      forall i, j | 0 <= i < j < |r| ensures Le(key(r[i]), key(r[j])) {
        assert r[j] == t[j - 1] && t[j - 1] in t;
        if i == 0 {
          if r[j] != x {
            var k :| 0 <= k < |s[1..]| && s[1..][k] == r[j];
            assert s[1..][k] == s[k + 1];
          }
        } else {
          assert r[i] == t[i - 1];
        }
      }
      forall y | y in r ensures y in s || y == x {
        if y != s[0] {
          assert y in t;
        }
      }
    }
  }

  lemma SortedTail<T>(s: seq<T>, key: T -> seq<int>)
    requires Sorted(s, key) && s != []
    ensures Sorted(s[1..], key)
  {
    forall i, j | 0 <= i < j < |s| - 1 ensures Le(key(s[1..][i]), key(s[1..][j])) {
      assert s[1..][i] == s[i + 1] && s[1..][j] == s[j + 1];
    }
  }

  /** Among the elements of one key, x lands after the old ones: the insertion is stable. */
  lemma {:induction false} InsertStable<T>(s: seq<T>, x: T, key: T -> seq<int>, c: seq<int>)
    requires Sorted(s, key)
    ensures Filter(Insert(s, x, key), key, c) == Filter(s, key, c) + (if key(x) == c then [x] else [])
  {
    var hx := if key(x) == c then [x] else [];
    if s == [] {
      assert Filter([x], key, c) == hx + Filter([], key, c);
    } else {
      var h0 := if key(s[0]) == c then [s[0]] else [];
      assert Filter(s, key, c) == h0 + Filter(s[1..], key, c);
      if !Le(key(s[0]), key(x)) {
        var r := [x] + s;
        assert r[0] == x && r[1..] == s;
        assert Filter(r, key, c) == hx + Filter(s, key, c);
        if key(x) == c {
          FilterNone(s, key, c);
        }
      } else {
        var t := Insert(s[1..], x, key);
        var r := [s[0]] + t;
        assert r[0] == s[0] && r[1..] == t;
        assert Filter(r, key, c) == h0 + Filter(t, key, c);
        SortedTail(s, key);
        InsertStable(s[1..], x, key, c);
      }
    }
  }

  /** Nothing in a sorted sequence whose first key is greater than c has key c. */
  lemma {:induction false} FilterNone<T>(s: seq<T>, key: T -> seq<int>, c: seq<int>)
    requires Sorted(s, key) && s != [] && !Le(key(s[0]), c)
    ensures Filter(s, key, c) == []
    decreases |s|
  {
    LeTotal(c, c);
    if |s| > 1 {
      if Le(key(s[1]), c) {
        LeTrans(key(s[0]), key(s[1]), c);
        assert false;
      }
      FilterNone(s[1..], key, c);
    }
  }

  /** The sort returns a sorted permutation of its input. */
  lemma {:induction false} SortSpec<T>(s: seq<T>, key: T -> seq<int>)
    ensures Sorted(Sort(s, key), key)
    ensures multiset(Sort(s, key)) == multiset(s)
    decreases |s|
  {
    if s != [] {
      var n := |s| - 1;
      SortSpec(s[..n], key);
      InsertSorted(Sort(s[..n], key), s[n], key);
      InsertPerm(Sort(s[..n], key), s[n], key);
      assert s == s[..n] + [s[n]];
    }
  }

  lemma {:induction false} FilterAppend<T>(a: seq<T>, b: seq<T>, key: T -> seq<int>, c: seq<int>)
    ensures Filter(a + b, key, c) == Filter(a, key, c) + Filter(b, key, c)
  {
    if a == [] {
      assert a + b == b;
    } else {
      var ab := a + b;
      assert ab[0] == a[0] && ab[1..] == a[1..] + b;
      FilterAppend(a[1..], b, key, c);
      var h := if key(a[0]) == c then [a[0]] else [];
      assert Filter(ab, key, c) == h + Filter(a[1..] + b, key, c);
      assert Filter(a, key, c) == h + Filter(a[1..], key, c);
    }
  }

  /** The sort is stable: the elements sharing a key keep their input order. */
  lemma {:induction false} SortStable<T>(s: seq<T>, key: T -> seq<int>, c: seq<int>)
    ensures Filter(Sort(s, key), key, c) == Filter(s, key, c)
    decreases |s|
  {
    if s != [] {
      var n := |s| - 1;
      SortStable(s[..n], key, c);
      SortSpec(s[..n], key);
      InsertStable(Sort(s[..n], key), s[n], key, c);
      assert s == s[..n] + [s[n]];
      FilterAppend(s[..n], [s[n]], key, c);
      assert Filter([s[n]], key, c) == (if key(s[n]) == c then [s[n]] else []) + Filter([], key, c);
    }
  }
}
