/**
 Ordering of strings and a stable sort by a string key, as used for
 `sorted(regulations, key=lambda x: x['code'])` and for sorting directory
 listings before a sidebar is built.
 */
module Sorting {

  /** Python's `a <= b` on `str`: lexicographic by code point, a proper prefix first. */
  predicate LexLe(a: string, b: string)
    decreases |a|
  {
    |a| == 0 || (|b| > 0 && (a[0] < b[0] || (a[0] == b[0] && LexLe(a[1..], b[1..]))))
  }

  lemma {:induction false} LexLeTotal(a: string, b: string)
    ensures LexLe(a, b) || LexLe(b, a)
    decreases |a|
  {
    if |a| > 0 && |b| > 0 && a[0] == b[0] {
      LexLeTotal(a[1..], b[1..]);
    }
  }

  lemma {:induction false} LexLeTrans(a: string, b: string, c: string)
    requires LexLe(a, b) && LexLe(b, c)
    ensures LexLe(a, c)
    decreases |a|
  {
    if |a| > 0 && a[0] == b[0] && b[0] == c[0] {
      LexLeTrans(a[1..], b[1..], c[1..]);
    }
  }

  lemma {:induction false} LexLeAntisymmetric(a: string, b: string)
    requires LexLe(a, b) && LexLe(b, a)
    ensures a == b
    decreases |a|
  {
    if |a| > 0 {
      LexLeAntisymmetric(a[1..], b[1..]);
      assert a == [a[0]] + a[1..];
      assert b == [b[0]] + b[1..];
    }
  }

  predicate SortedBy<T>(xs: seq<T>, key: T -> string) {
    forall i, j | 0 <= i < j < |xs| :: LexLe(key(xs[i]), key(xs[j]))
  }

  /** Puts `x` in front of the first element whose key is not smaller, so that
      among equal keys `x` comes first. */
  function Insert<T>(x: T, xs: seq<T>, key: T -> string): (r: seq<T>)
    requires SortedBy(xs, key)
    ensures SortedBy(r, key)
    ensures multiset(r) == multiset(xs) + multiset{x}
    ensures |r| == |xs| + 1
  {
    if |xs| == 0 then [x]
    else if LexLe(key(x), key(xs[0])) then
      InsertFront(x, xs, key);
      [x] + xs
    else
      LexLeTotal(key(x), key(xs[0]));
      var rest := Insert(x, xs[1..], key);
      InsertBehind(xs[0], x, xs[1..], rest, key);
      assert xs == [xs[0]] + xs[1..];
      [xs[0]] + rest
  }

  lemma {:induction false} InsertFront<T>(x: T, xs: seq<T>, key: T -> string)
    requires SortedBy(xs, key)
    requires |xs| > 0 && LexLe(key(x), key(xs[0]))
    ensures SortedBy([x] + xs, key)
  {
    var r := [x] + xs;
    forall i, j | 0 <= i < j < |r| ensures LexLe(key(r[i]), key(r[j])) {
      if i == 0 && j > 1 {
        LexLeTrans(key(x), key(xs[0]), key(xs[j - 1]));
      }
    }
  }

  lemma {:induction false} InsertBehind<T>(y: T, x: T, ys: seq<T>, rest: seq<T>, key: T -> string)
    requires SortedBy([y] + ys, key)
    requires LexLe(key(y), key(x))
    requires SortedBy(rest, key)
    requires multiset(rest) == multiset(ys) + multiset{x}
    ensures SortedBy([y] + rest, key)
  {
    var r := [y] + rest;
    forall i, j | 0 <= i < j < |r| ensures LexLe(key(r[i]), key(r[j])) {
      if i == 0 {
        var z := rest[j - 1];
        assert r[j] == z && r[0] == y;
        assert z in multiset(rest);
        if z != x {
          assert z in multiset(ys);
          assert z in ys;
          var t :| 0 <= t < |ys| && ys[t] == z;
          assert ([y] + ys)[t + 1] == z && ([y] + ys)[0] == y;
        }
      } else {
        assert r[i] == rest[i - 1] && r[j] == rest[j - 1];
      }
    }
  }

  /** Two sorted arrangements of the same elements are the same sequence when
      no two different elements share a key: the sorted order of a listing
      with unique names does not depend on the order it was listed in. */
  lemma {:induction false} SortedUnique<T>(a: seq<T>, b: seq<T>, key: T -> string)
    requires SortedBy(a, key) && SortedBy(b, key)
    requires multiset(a) == multiset(b)
    requires forall x, y | x in a && y in a && key(x) == key(y) :: x == y
    ensures a == b
    decreases |a|
  {
    assert |a| == |multiset(a)| == |multiset(b)| == |b|;
    if |a| > 0 {
      SortedHeads(a, b, key);
      TailsPermuted(a, b);
      SortedTail(a, key);
      SortedTail(b, key);
      assert forall x | x in a[1..] :: x in a;
      SortedUnique(a[1..], b[1..], key);
      assert a == [a[0]] + a[1..] && b == [b[0]] + b[1..];
    }
  }

  /** The smallest keys agree, so the first elements do. */
  lemma {:induction false} SortedHeads<T>(a: seq<T>, b: seq<T>, key: T -> string)
    requires |a| > 0 && |b| > 0
    requires SortedBy(a, key) && SortedBy(b, key)
    requires multiset(a) == multiset(b)
    requires forall x, y | x in a && y in a && key(x) == key(y) :: x == y
    ensures a[0] == b[0]
  {
    var x, y := a[0], b[0];
    assert x in multiset(b) && y in multiset(a);
    var j :| 0 <= j < |b| && b[j] == x;
    var i :| 0 <= i < |a| && a[i] == y;
    assert LexLe(key(y), key(x)) by {
      if j > 0 { assert LexLe(key(b[0]), key(b[j])); } else { LexLeRefl(key(x)); }
    }
    assert LexLe(key(x), key(y)) by {
      if i > 0 { assert LexLe(key(a[0]), key(a[i])); } else { LexLeRefl(key(x)); }
    }
    LexLeAntisymmetric(key(x), key(y));
  }

  lemma {:induction false} TailsPermuted<T>(a: seq<T>, b: seq<T>)
    requires |a| > 0 && |b| > 0 && a[0] == b[0]
    requires multiset(a) == multiset(b)
    ensures multiset(a[1..]) == multiset(b[1..])
  {
    assert a == [a[0]] + a[1..] && b == [b[0]] + b[1..];
    assert multiset(a) == multiset{a[0]} + multiset(a[1..]);
    assert multiset(b) == multiset{a[0]} + multiset(b[1..]);
    assert multiset(a[1..]) == multiset(a) - multiset{a[0]};
    assert multiset(b[1..]) == multiset(b) - multiset{a[0]};
  }

  lemma {:induction false} LexLeRefl(a: string)
    ensures LexLe(a, a)
    decreases |a|
  {
    if |a| > 0 {
      LexLeRefl(a[1..]);
    }
  }

  lemma {:induction false} SortedTail<T>(a: seq<T>, key: T -> string)
    requires |a| > 0 && SortedBy(a, key)
    ensures SortedBy(a[1..], key)
  {
    forall i, j | 0 <= i < j < |a[1..]| ensures LexLe(key(a[1..][i]), key(a[1..][j])) {
      assert a[1..][i] == a[i + 1] && a[1..][j] == a[j + 1];
    }
  }

  /** A stable insertion sort by `key`. */
  function SortBy<T>(xs: seq<T>, key: T -> string): (r: seq<T>)
    ensures SortedBy(r, key)
    ensures multiset(r) == multiset(xs)
    ensures |r| == |xs|
  {
    if |xs| == 0 then []
    else
      assert xs == [xs[0]] + xs[1..];
      Insert(xs[0], SortBy(xs[1..], key), key)
  }

  // ---------------------------------------------------------------------------
  // Stability

  /** The elements whose key is `k`, in their order in `xs`. */
  function WithKey<T>(xs: seq<T>, key: T -> string, k: string): seq<T> {
    if |xs| == 0 then []
    else (if key(xs[0]) == k then [xs[0]] else []) + WithKey(xs[1..], key, k)
  }

  lemma {:induction false} WithKeyCons<T>(y: T, ys: seq<T>, key: T -> string, k: string)
    ensures WithKey([y] + ys, key, k) == (if key(y) == k then [y] else []) + WithKey(ys, key, k)
  {
    assert ([y] + ys)[0] == y && ([y] + ys)[1..] == ys;
  }

  /** Two one-element choices that are not both taken commute. */
  lemma {:induction false} SwapChoices<T>(a: seq<T>, b: seq<T>, w: seq<T>)
    requires |a| == 0 || |b| == 0
    ensures a + (b + w) == b + (a + w)
  {
    if |a| == 0 {
      assert a + (b + w) == b + w && a + w == w;
    } else {
      assert b + (a + w) == a + w && b + w == w;
    }
  }

  /** Inserting `x` puts it before every element of equal key. */
  lemma {:induction false} WithKeyInsert<T>(x: T, ys: seq<T>, key: T -> string, k: string)
    requires SortedBy(ys, key)
    ensures WithKey(Insert(x, ys, key), key, k) == (if key(x) == k then [x] else []) + WithKey(ys, key, k)
  {
    if |ys| == 0 {
      WithKeyCons(x, ys, key, k);
    } else if LexLe(key(x), key(ys[0])) {
      WithKeyCons(x, ys, key, k);
    } else {
      SortedTail(ys, key);
      WithKeyInsert(x, ys[1..], key, k);
      WithKeyBehind(x, ys, key, k);
    }
  }

  lemma {:induction false} WithKeyBehind<T>(x: T, ys: seq<T>, key: T -> string, k: string)
    requires |ys| > 0 && SortedBy(ys, key) && SortedBy(ys[1..], key)
    requires !LexLe(key(x), key(ys[0]))
    requires WithKey(Insert(x, ys[1..], key), key, k) == (if key(x) == k then [x] else []) + WithKey(ys[1..], key, k)
    ensures WithKey(Insert(x, ys, key), key, k) == (if key(x) == k then [x] else []) + WithKey(ys, key, k)
  {
    var rest := Insert(x, ys[1..], key);
    WithKeyCons(ys[0], rest, key, k);
    LexLeRefl(key(x));
    SwapChoices(if key(ys[0]) == k then [ys[0]] else [], if key(x) == k then [x] else [], WithKey(ys[1..], key, k));
  }

  /** `SortBy` is stable: elements of equal key keep their input order. */
  lemma {:induction false} SortByStable<T>(xs: seq<T>, key: T -> string, k: string)
    ensures WithKey(SortBy(xs, key), key, k) == WithKey(xs, key, k)
  {
    if |xs| > 0 {
      SortByStable(xs[1..], key, k);
      WithKeyInsert(xs[0], SortBy(xs[1..], key), key, k);
    }
  }
}
