/** `Array.prototype.sort` with a comparator `(a, b) => key(b) - key(a)`:
    since ES2019 the sort is stable, so the result is fixed by the input. It is
    written here as a stable insertion sort over values, and its three
    promises are proved: the output is non-increasing in the key, it is a
    permutation of the input, and elements with equal keys keep their order. */
module Sorting {

  /** Places x, which came before every element of t in the input, in front of
      the first element of t whose key does not exceed x's. */
  function Insert<T>(x: T, t: seq<T>, key: T -> real): (r: seq<T>)
    ensures |r| == |t| + 1
  {
    if t == [] || key(x) >= key(t[0]) then [x] + t
    else [t[0]] + Insert(x, t[1..], key)
  }

  /** The sorted copy has as many elements as its input; that it is ordered,
      a permutation and stable is proved below. */
  function SortDesc<T>(s: seq<T>, key: T -> real): (r: seq<T>)
    ensures |r| == |s|
  {
    if s == [] then [] else Insert(s[0], SortDesc(s[1..], key), key)
  }

  predicate NonIncreasing<T>(s: seq<T>, key: T -> real) {
    forall i, j :: 0 <= i < j < |s| ==> key(s[i]) >= key(s[j])
  }

  /** The subsequence of s whose key is k. */
  function WithKey<T>(s: seq<T>, key: T -> real, k: real): seq<T> {
    if s == [] then []
    else (if key(s[0]) == k then [s[0]] else []) + WithKey(s[1..], key, k)
  }

  lemma {:induction false} InsertPermutes<T>(x: T, t: seq<T>, key: T -> real)
    ensures multiset(Insert(x, t, key)) == multiset([x] + t)
  {
    if t != [] && key(x) < key(t[0]) {
      InsertPermutes(x, t[1..], key);
      assert t == [t[0]] + t[1..];
    }
  }

  /** A bound on x and on every element of t bounds every element of the insertion. */
  lemma {:induction false} InsertBounded<T>(x: T, t: seq<T>, key: T -> real, b: real)
    requires b >= key(x)
    requires forall i :: 0 <= i < |t| ==> b >= key(t[i])
    ensures forall i :: 0 <= i < |Insert(x, t, key)| ==> b >= key(Insert(x, t, key)[i])
  {
    var r := Insert(x, t, key);
    if t != [] && key(x) < key(t[0]) {
      var rest := Insert(x, t[1..], key);
      forall i | 0 <= i < |t[1..]| ensures b >= key(t[1..][i]) {
        assert t[1..][i] == t[i + 1];
      }
      InsertBounded(x, t[1..], key, b);
      assert r == [t[0]] + rest;
      forall i | 0 <= i < |r| ensures b >= key(r[i]) {
        if i > 0 {
          assert r[i] == rest[i - 1];
        }
      }
    } else {
      assert r == [x] + t;
      forall i | 0 <= i < |r| ensures b >= key(r[i]) {
        if i > 0 {
          assert r[i] == t[i - 1];
        }
      }
    }
  }

  lemma {:induction false} InsertSorted<T>(x: T, t: seq<T>, key: T -> real)
    requires NonIncreasing(t, key)
    ensures NonIncreasing(Insert(x, t, key), key)
  {
    if t != [] && key(x) < key(t[0]) {
      var rest := Insert(x, t[1..], key);
      forall i | 0 <= i < |t[1..]| ensures key(t[0]) >= key(t[1..][i]) {
        assert t[1..][i] == t[i + 1];
      }
      InsertSorted(x, t[1..], key);
      InsertBounded(x, t[1..], key, key(t[0]));
      var r := [t[0]] + rest;
      forall i, j | 0 <= i < j < |r| ensures key(r[i]) >= key(r[j]) {
        assert r[j] == rest[j - 1];
        if i > 0 {
          assert r[i] == rest[i - 1];
        }
      }
    }
  }

  lemma WithKeyCons<T>(y: T, s: seq<T>, key: T -> real, k: real)
    ensures WithKey([y] + s, key, k) == (if key(y) == k then [y] else []) + WithKey(s, key, k)
  {
    assert ([y] + s)[1..] == s;
  }

  lemma {:induction false} InsertWithKey<T>(x: T, t: seq<T>, key: T -> real, k: real)
    ensures WithKey(Insert(x, t, key), key, k)
            == (if key(x) == k then [x] else []) + WithKey(t, key, k)
  {
    if t == [] || key(x) >= key(t[0]) {
      WithKeyCons(x, t, key, k);
    } else {
      var rest := Insert(x, t[1..], key);
      var hx := if key(x) == k then [x] else [];
      var h0 := if key(t[0]) == k then [t[0]] else [];
      var w := WithKey(t[1..], key, k);
      assert Insert(x, t, key) == [t[0]] + rest;
      InsertWithKey(x, t[1..], key, k);
      WithKeyCons(t[0], rest, key, k);
      WithKeyCons(t[0], t[1..], key, k);
      assert t == [t[0]] + t[1..];
      // x's key is below t[0]'s, so at most one of them carries k.
      if hx == [] {
        assert h0 + (hx + w) == hx + (h0 + w);
      } else {
        assert h0 == [];
        assert h0 + (hx + w) == hx + (h0 + w);
      }
    }
  }

  lemma {:induction false} SortDescPermutes<T>(s: seq<T>, key: T -> real)
    ensures multiset(SortDesc(s, key)) == multiset(s)
  {
    if s != [] {
      SortDescPermutes(s[1..], key);
      InsertPermutes(s[0], SortDesc(s[1..], key), key);
      assert s == [s[0]] + s[1..];
    }
  }

  lemma {:induction false} SortDescSorted<T>(s: seq<T>, key: T -> real)
    ensures NonIncreasing(SortDesc(s, key), key)
  {
    if s != [] {
      SortDescSorted(s[1..], key);
      InsertSorted(s[0], SortDesc(s[1..], key), key);
    }
  }

  /** Stability: for every key, the elements carrying it appear in the output
      in the order they had in the input. */
  lemma {:induction false} SortDescStable<T>(s: seq<T>, key: T -> real, k: real)
    ensures WithKey(SortDesc(s, key), key, k) == WithKey(s, key, k)
  {
    if s != [] {
      SortDescStable(s[1..], key, k);
      InsertWithKey(s[0], SortDesc(s[1..], key), key, k);
    }
  }

  /** Sorting keeps a field that was unique per element unique. */
  lemma {:induction false} SortDescKeepsDistinct<T, U>(s: seq<T>, key: T -> real, f: T -> U)
    requires forall i, j :: 0 <= i < j < |s| ==> f(s[i]) != f(s[j])
    ensures forall i, j :: 0 <= i < j < |SortDesc(s, key)| ==> f(SortDesc(s, key)[i]) != f(SortDesc(s, key)[j])
  {
    if s != [] {
      var t := SortDesc(s[1..], key);
      SortDescKeepsDistinct(s[1..], key, f);
      SortDescPermutes(s[1..], key);
      forall i | 0 <= i < |t| ensures f(t[i]) != f(s[0]) {
        assert t[i] in multiset(s[1..]);
        var j :| 0 <= j < |s[1..]| && s[1..][j] == t[i];
        assert s[j + 1] == t[i];
      }
      InsertKeepsDistinct(s[0], t, key, f);
    }
  }

  /** A value that neither x nor any element of t carries is carried by no
      element of the insertion. */
  lemma {:induction false} InsertAvoids<T, U>(x: T, t: seq<T>, key: T -> real, f: T -> U, v: U)
    requires f(x) != v
    requires forall i :: 0 <= i < |t| ==> f(t[i]) != v
    ensures forall i :: 0 <= i < |Insert(x, t, key)| ==> f(Insert(x, t, key)[i]) != v
  {
    var r := Insert(x, t, key);
    if t != [] && key(x) < key(t[0]) {
      var rest := Insert(x, t[1..], key);
      forall i | 0 <= i < |t[1..]| ensures f(t[1..][i]) != v {
        assert t[1..][i] == t[i + 1];
      }
      InsertAvoids(x, t[1..], key, f, v);
      assert r == [t[0]] + rest;
      forall i | 0 <= i < |r| ensures f(r[i]) != v {
        if i > 0 {
          assert r[i] == rest[i - 1];
        }
      }
    } else {
      assert r == [x] + t;
      forall i | 0 <= i < |r| ensures f(r[i]) != v {
        if i > 0 {
          assert r[i] == t[i - 1];
        }
      }
    }
  }

  lemma {:induction false} InsertKeepsDistinct<T, U>(x: T, t: seq<T>, key: T -> real, f: T -> U)
    requires forall i, j :: 0 <= i < j < |t| ==> f(t[i]) != f(t[j])
    requires forall i :: 0 <= i < |t| ==> f(t[i]) != f(x)
    ensures forall i, j :: 0 <= i < j < |Insert(x, t, key)| ==> f(Insert(x, t, key)[i]) != f(Insert(x, t, key)[j])
  {
    var r := Insert(x, t, key);
    if t == [] || key(x) >= key(t[0]) {
      assert r == [x] + t;
      forall i, j | 0 <= i < j < |r| ensures f(r[i]) != f(r[j]) {
        assert r[j] == t[j - 1];
        if i > 0 {
          assert r[i] == t[i - 1];
        }
      }
    } else {
      var tail := t[1..];
      var rest := Insert(x, tail, key);
      forall i | 0 <= i < |tail| ensures f(tail[i]) != f(x) && f(tail[i]) != f(t[0]) {
        assert tail[i] == t[i + 1];
      }
      forall i, j | 0 <= i < j < |tail| ensures f(tail[i]) != f(tail[j]) {
        assert tail[i] == t[i + 1] && tail[j] == t[j + 1];
      }
      InsertKeepsDistinct(x, tail, key, f);
      InsertAvoids(x, tail, key, f, f(t[0]));
      assert r == [t[0]] + rest;
      forall i, j | 0 <= i < j < |r| ensures f(r[i]) != f(r[j]) {
        assert r[j] == rest[j - 1];
        if i > 0 {
          assert r[i] == rest[i - 1];
        }
      }
    }
  }
}
