/** Python's `sorted(xs, key=..., reverse=...)` on string keys, as the
    `/attendance` and `/students` listings use it: a stable sort, also when
    reversed. */
module Listing {
  import opened Seqs

  /** Python's `a <= b` on strings: lexicographic order by code point. */
  predicate StrLe(a: string, b: string)
    decreases |a|
  {
    a == [] || (b != [] && (a[0] < b[0] || (a[0] == b[0] && StrLe(a[1..], b[1..]))))
  }

  lemma {:induction false} StrLeTotal(a: string, b: string)
    ensures StrLe(a, b) || StrLe(b, a)
    decreases |a|
  {
    if a != [] && b != [] && a[0] == b[0] {
      StrLeTotal(a[1..], b[1..]);
    }
  }

  lemma {:induction false} StrLeTransitive(a: string, b: string, c: string)
    requires StrLe(a, b) && StrLe(b, c)
    ensures StrLe(a, c)
    decreases |a|
  {
    if a != [] && a[0] == b[0] && b[0] == c[0] {
      StrLeTransitive(a[1..], b[1..], c[1..]);
    }
  }

  lemma {:induction false} StrLeReflexive(a: string)
    ensures StrLe(a, a)
    decreases |a|
  {
    if a != [] {
      StrLeReflexive(a[1..]);
    }
  }

  /** Whether an element with key `x` may come before one with key `y`. */
  predicate InOrder(x: string, y: string, descending: bool) {
    if descending then StrLe(y, x) else StrLe(x, y)
  }

  lemma InOrderTotal(x: string, y: string, descending: bool)
    ensures InOrder(x, y, descending) || InOrder(y, x, descending)
  {
    StrLeTotal(x, y);
  }

  lemma InOrderTransitive(x: string, y: string, z: string, descending: bool)
    requires InOrder(x, y, descending) && InOrder(y, z, descending)
    ensures InOrder(x, z, descending)
  {
    if descending { StrLeTransitive(z, y, x); } else { StrLeTransitive(x, y, z); }
  }

  ghost predicate SortedBy<T>(s: seq<T>, key: T -> string, descending: bool) {
    forall i, j :: 0 <= i < j < |s| ==> InOrder(key(s[i]), key(s[j]), descending)
  }

  /** Puts `x` before the first element it may precede. */
  function Insert<T>(x: T, s: seq<T>, key: T -> string, descending: bool): (r: seq<T>)
    ensures multiset(r) == multiset(s) + multiset{x}
    decreases |s|
  {
    if s == [] then [x]
    else if InOrder(key(x), key(s[0]), descending) then [x] + s
    else
      assert s == [s[0]] + s[1..];
      [s[0]] + Insert(x, s[1..], key, descending)
  }

  /** `sorted(s, key=key, reverse=descending)`: a permutation of `s` ordered
      by key, ascending or descending. */
  function Sort<T>(s: seq<T>, key: T -> string, descending: bool): (r: seq<T>)
    ensures multiset(r) == multiset(s)
    ensures SortedBy(r, key, descending)
    decreases |s|
  {
    if s == [] then []
    else
      assert s == [s[0]] + s[1..];
      var rest := Sort(s[1..], key, descending);
      InsertSorted(s[0], rest, key, descending);
      Insert(s[0], rest, key, descending)
  }

  lemma {:induction false} InsertSorted<T>(x: T, s: seq<T>, key: T -> string, descending: bool)
    requires SortedBy(s, key, descending)
    ensures SortedBy(Insert(x, s, key, descending), key, descending)
    decreases |s|
  {
    if s != [] {
      var r := Insert(x, s, key, descending);
      if InOrder(key(x), key(s[0]), descending) {
        forall j | 0 < j < |r| ensures InOrder(key(x), key(r[j]), descending) {
          if j > 1 { InOrderTransitive(key(x), key(s[0]), key(r[j]), descending); }
        }
      } else {
        InOrderTotal(key(x), key(s[0]), descending);
        var tail := Insert(x, s[1..], key, descending);
        InsertSorted(x, s[1..], key, descending);
        forall j | 0 <= j < |tail| ensures InOrder(key(s[0]), key(tail[j]), descending) {
          assert tail[j] in multiset(s[1..]) + multiset{x};
          if tail[j] != x {
            var i :| 0 <= i < |s[1..]| && s[1..][i] == tail[j];
            assert s[i + 1] == tail[j];
          }
        }
        assert r == [s[0]] + tail;
      }
    }
  }

  /** The elements with key `k`, in order. */
  function WithKey<T(==,!new)>(s: seq<T>, key: T -> string, k: string): seq<T> {
    Filter(s, x => key(x) == k)
  }

  lemma ConsWithKey<T(!new)>(x: T, s: seq<T>, key: T -> string, k: string)
    ensures WithKey([x] + s, key, k) == (if key(x) == k then [x] else []) + WithKey(s, key, k)
  {
    assert ([x] + s)[1..] == s;
  }

  /** Moving `x` past an element with a different key does not change the
      order of the elements of any one key. */
  lemma PassOver<T(!new)>(x: T, y: T, rest: seq<T>, tail: seq<T>, key: T -> string, k: string)
    requires key(y) != key(x)
    requires WithKey(tail, key, k) == WithKey([x] + rest, key, k)
    ensures WithKey([y] + tail, key, k) == WithKey([x] + ([y] + rest), key, k)
  {
    ConsWithKey(y, tail, key, k);
    ConsWithKey(x, rest, key, k);
    ConsWithKey(x, [y] + rest, key, k);
    ConsWithKey(y, rest, key, k);
  }

  lemma {:induction false} InsertStable<T(!new)>(x: T, s: seq<T>, key: T -> string, descending: bool, k: string)
    ensures WithKey(Insert(x, s, key, descending), key, k) == WithKey([x] + s, key, k)
    decreases |s|
  {
    if s != [] && !InOrder(key(x), key(s[0]), descending) {
      StrLeReflexive(key(x));
      var tail := Insert(x, s[1..], key, descending);
      assert Insert(x, s, key, descending) == [s[0]] + tail;
      InsertStable(x, s[1..], key, descending, k);
      PassOver(x, s[0], s[1..], tail, key, k);
      assert [s[0]] + s[1..] == s;
    } else if s == [] {
      assert [x] + s == [x];
    }
  }

  /** The sort is stable: for every key, the elements with that key keep the
      order they had in the input. With `descending` this is what Python's
      `reverse=True` guarantees. */
  lemma {:induction false} SortIsStable<T(!new)>(s: seq<T>, key: T -> string, descending: bool, k: string)
    ensures WithKey(Sort(s, key, descending), key, k) == WithKey(s, key, k)
    decreases |s|
  {
    if s != [] {
      var rest := Sort(s[1..], key, descending);
      InsertStable(s[0], rest, key, descending, k);
      SortIsStable(s[1..], key, descending, k);
      ConsWithKey(s[0], rest, key, k);
      ConsWithKey(s[0], s[1..], key, k);
      assert [s[0]] + s[1..] == s;
    }
  }
}
