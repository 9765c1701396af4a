/**
 * The stable sort of JavaScript's `Array.prototype.sort` with a comparator of
 * the form `(a, b) => key(a) - key(b)`. It is modelled by insertion sort, and
 * `StableSortIsUnique` shows that every stable sort by the same key returns
 * the same sequence, so the choice of algorithm does not matter.
 */
module Sorting {

  ghost predicate Sorted<T>(s: seq<T>, key: T -> int) {
    forall i, j :: 0 <= i < j < |s| ==> key(s[i]) <= key(s[j])
  }

  ghost predicate StrictlySorted<T>(s: seq<T>, key: T -> int) {
    forall i, j :: 0 <= i < j < |s| ==> key(s[i]) < key(s[j])
  }

  /** The elements of `s` whose key is `v`, in their order in `s`. */
  function WithKey<T>(s: seq<T>, key: T -> int, v: int): seq<T> {
    if s == [] then [] else (if key(s[0]) == v then [s[0]] else []) + WithKey(s[1..], key, v)
  }

  /** Puts `x` before the first element whose key is not smaller than its own. */
  function Insert<T>(x: T, s: seq<T>, key: T -> int): (r: seq<T>)
    ensures |r| == |s| + 1
    ensures multiset(r) == multiset(s) + multiset{x}
  {
    if s == [] then [x]
    else if key(x) <= key(s[0]) then [x] + s
    else
      assert s == [s[0]] + s[1..];
      [s[0]] + Insert(x, s[1..], key)
  }

  function StableSort<T>(s: seq<T>, key: T -> int): (r: seq<T>)
    ensures multiset(r) == multiset(s)
    ensures Sorted(r, key)
    ensures forall v :: WithKey(r, key, v) == WithKey(s, key, v)
  {
    if s == [] then []
    else
      var rest := StableSort(s[1..], key);
      assert s == [s[0]] + s[1..];
      InsertSorted(s[0], rest, key);
      InsertWithKeyAll(s[0], rest, key);
      Insert(s[0], rest, key)
  }

  lemma {:induction false} InsertSorted<T>(x: T, s: seq<T>, key: T -> int)
    requires Sorted(s, key)
    ensures Sorted(Insert(x, s, key), key)
    ensures Insert(x, s, key)[0] == if s == [] || key(x) <= key(s[0]) then x else s[0]
  {
    if s == [] || key(x) <= key(s[0]) {
      PrependSorted(x, s, key);
    } else {
      InsertSorted(x, s[1..], key);
      PrependSorted(s[0], Insert(x, s[1..], key), key);
    }
  }

  lemma PrependSorted<T>(x: T, s: seq<T>, key: T -> int)
    requires Sorted(s, key)
    requires s == [] || key(x) <= key(s[0])
    ensures Sorted([x] + s, key)
  {
    var r := [x] + s;
    forall i, j | 0 <= i < j < |r| ensures key(r[i]) <= key(r[j]) {
      assert r[j] == s[j - 1];
      if i == 0 {
        assert key(s[0]) <= key(s[j - 1]) by { if j > 1 { assert key(s[0]) <= key(s[j - 1]); } }
      } else {
        assert r[i] == s[i - 1];
      }
    }
  }

  /** Inserting `x` puts it ahead of every element with the same key. */
  lemma {:induction false} InsertWithKey<T>(x: T, s: seq<T>, key: T -> int, v: int)
    ensures WithKey(Insert(x, s, key), key, v) == (if key(x) == v then [x] else []) + WithKey(s, key, v)
  {
    if s == [] {
      WithKeyCons(x, [], key, v);
      assert [x] + [] == [x];
    } else if key(x) <= key(s[0]) {
      WithKeyCons(x, s, key, v);
    } else {
      var tail := Insert(x, s[1..], key);
      InsertWithKey(x, s[1..], key, v);
      WithKeyCons(s[0], tail, key, v);
      WithKeySwap(if key(s[0]) == v then [s[0]] else [], if key(x) == v then [x] else [], WithKey(s[1..], key, v));
    }
  }

  lemma WithKeyCons<T>(y: T, t: seq<T>, key: T -> int, v: int)
    ensures WithKey([y] + t, key, v) == (if key(y) == v then [y] else []) + WithKey(t, key, v)
  {
    assert ([y] + t)[0] == y && ([y] + t)[1..] == t;
  }

  lemma WithKeySwap<T>(a: seq<T>, b: seq<T>, w: seq<T>)
    requires a == [] || b == []
    ensures a + (b + w) == b + (a + w)
  {
    if a == [] {
      assert [] + (b + w) == b + w == b + ([] + w);
    } else {
      assert a + ([] + w) == a + w == [] + (a + w);
    }
  }

  lemma InsertWithKeyAll<T>(x: T, s: seq<T>, key: T -> int)
    ensures forall v :: WithKey(Insert(x, s, key), key, v) == (if key(x) == v then [x] else []) + WithKey(s, key, v)
  {
    forall v {
      InsertWithKey(x, s, key, v);
    }
  }

  lemma {:induction false} WithKeyMember<T>(s: seq<T>, key: T -> int, v: int, x: T)
    requires x in WithKey(s, key, v)
    ensures x in s && key(x) == v
  {
    if s != [] && x !in (if key(s[0]) == v then [s[0]] else []) {
      WithKeyMember(s[1..], key, v, x);
    }
  }

  /** Two sorted sequences that agree on the elements of every key are equal. */
  lemma {:induction false} SortedUnique<T>(r: seq<T>, q: seq<T>, key: T -> int)
    requires Sorted(r, key) && Sorted(q, key)
    requires forall v :: WithKey(r, key, v) == WithKey(q, key, v)
    ensures r == q
    decreases |r| + |q|
  {
    if r == [] && q == [] {
    } else if r == [] || q == [] {
      WithKeyHead(r, key);
      WithKeyHead(q, key);
      assert false;
    } else {
      var m, n := key(r[0]), key(q[0]);
      assert q[0] in WithKey(q, key, n);
      WithKeyMember(r, key, n, q[0]);
      assert r[0] in WithKey(r, key, m);
      WithKeyMember(q, key, m, r[0]);
      assert m == n;
      assert r[0] == WithKey(r, key, m)[0] == WithKey(q, key, m)[0] == q[0];
      forall v ensures WithKey(r[1..], key, v) == WithKey(q[1..], key, v) {
        if v == m {
          var a, b := WithKey(r[1..], key, v), WithKey(q[1..], key, v);
          assert WithKey(r, key, v) == [r[0]] + a;
          assert WithKey(q, key, v) == [q[0]] + b;
          assert a == ([r[0]] + a)[1..] && b == ([q[0]] + b)[1..];
        } else {
          assert WithKey(r, key, v) == WithKey(r[1..], key, v);
          assert WithKey(q, key, v) == WithKey(q[1..], key, v);
        }
      }
      SortedUnique(r[1..], q[1..], key);
      assert r == [r[0]] + r[1..] && q == [q[0]] + q[1..];
    }
  }

  /**
   * Any sequence that is sorted and keeps, for each key, the input's elements in
   * their input order is the result of `StableSort`.
   */
  lemma StableSortIsUnique<T>(s: seq<T>, r: seq<T>, key: T -> int)
    requires Sorted(r, key)
    requires forall v :: WithKey(r, key, v) == WithKey(s, key, v)
    ensures r == StableSort(s, key)
  {
    SortedUnique(r, StableSort(s, key), key);
  }

  lemma WithKeyHead<T>(s: seq<T>, key: T -> int)
    ensures s != [] ==> WithKey(s, key, key(s[0])) == [s[0]] + WithKey(s[1..], key, key(s[0]))
  {
  }

  /** In a strictly increasing sequence the head has the least key, and no other element shares it. */
  lemma StrictHead<T>(x: seq<T>, z: T, key: T -> int)
    requires StrictlySorted(x, key)
    requires z in x
    ensures key(x[0]) <= key(z)
    ensures z in x[1..] <==> z != x[0]
  {
    var k :| 0 <= k < |x| && x[k] == z;
    if k > 0 {
      assert key(x[0]) < key(x[k]);
      assert x[k] in x[1..];
    }
    if z in x[1..] {
      var l :| 1 <= l < |x| && x[l] == z;
      assert key(x[0]) < key(x[l]);
    }
  }

  lemma HeadIn<T>(s: seq<T>)
    ensures s != [] ==> s[0] in s
  {
  }

  /** Two strictly increasing sequences with the same elements are equal. */
  lemma {:induction false} StrictlySortedUnique<T>(x: seq<T>, y: seq<T>, key: T -> int)
    requires StrictlySorted(x, key) && StrictlySorted(y, key)
    requires forall z :: z in x <==> z in y
    ensures x == y
    decreases |x|
  {
    if x == [] && y == [] {
    } else if x == [] || y == [] {
      HeadIn(x);
      HeadIn(y);
      assert false;
    } else {
      HeadIn(x);
      HeadIn(y);
      StrictHead(x, y[0], key);
      StrictHead(y, x[0], key);
      assert x[0] == y[0];
      forall z ensures z in x[1..] <==> z in y[1..] {
        if z in x[1..] {
          StrictHead(x, z, key);
          StrictHead(y, z, key);
        }
        if z in y[1..] {
          StrictHead(y, z, key);
          StrictHead(x, z, key);
        }
      }
      StrictlySortedUnique(x[1..], y[1..], key);
      assert x == [x[0]] + x[1..] && y == [y[0]] + y[1..];
    }
  }

  ghost predicate Distinct<T>(s: seq<T>) {
    forall i, j :: 0 <= i < j < |s| ==> s[i] != s[j]
  }

  lemma {:induction false} DistinctCount<T>(s: seq<T>, x: T)
    requires Distinct(s)
    ensures multiset(s)[x] <= 1
  {
    if s != [] {
      assert s == [s[0]] + s[1..];
      DistinctCount(s[1..], x);
      if s[0] == x {
        assert x !in s[1..];
      }
    }
  }

  lemma RepeatCount<T>(s: seq<T>, i: nat, j: nat)
    requires i < j < |s| && s[i] == s[j]
    ensures multiset(s)[s[i]] >= 2
  {
    assert s == s[..i] + [s[i]] + s[i + 1..j] + [s[j]] + s[j + 1..];
  }

  /** A rearrangement of a sequence without repetitions has none either. */
  lemma MultisetDistinct<T>(a: seq<T>, b: seq<T>)
    requires multiset(a) == multiset(b) && Distinct(a)
    ensures Distinct(b)
  {
    forall i, j | 0 <= i < j < |b| ensures b[i] != b[j] {
      if b[i] == b[j] {
        RepeatCount(b, i, j);
        DistinctCount(a, b[i]);
        assert false;
      }
    }
  }

  /** Sorted without repetitions, with a key that tells the elements apart, is strictly sorted. */
  lemma SortedDistinctStrict<T>(s: seq<T>, key: T -> int)
    requires Sorted(s, key) && Distinct(s)
    requires forall i, j :: 0 <= i < |s| && 0 <= j < |s| && key(s[i]) == key(s[j]) ==> s[i] == s[j]
    ensures StrictlySorted(s, key)
  {
  }

  lemma StrictlySortedDistinct<T>(s: seq<T>, key: T -> int)
    requires StrictlySorted(s, key)
    ensures Distinct(s)
  {
    forall i, j | 0 <= i < j < |s| ensures s[i] != s[j] {
      assert key(s[i]) < key(s[j]);
    }
  }
}
