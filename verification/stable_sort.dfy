/** `[...xs].sort((a, b) => key(a) - key(b))`: a stable sort by a numeric
    key (ECMAScript 2019 requires `Array.prototype.sort` to be stable),
    applied to a copy, so the input sequence is left as it was. */
module StableSort {

  /** Keys never decrease along `s`. */
  predicate SortedBy<T>(s: seq<T>, key: T -> real) {
    forall i, j :: 0 <= i < j < |s| ==> key(s[i]) <= key(s[j])
  }

  /** The elements of `s` whose key is `k`, in their order in `s`. */
  function WithKey<T>(s: seq<T>, key: T -> real, k: real): seq<T>
    decreases |s|
  {
    if |s| == 0 then []
    else WithKey(s[..|s| - 1], key, k) + (if key(s[|s| - 1]) == k then [s[|s| - 1]] else [])
  }

  /** Equal keys keep their relative order from `s` to `r`. */
  ghost predicate Stable<T>(s: seq<T>, r: seq<T>, key: T -> real) {
    forall k :: WithKey(r, key, k) == WithKey(s, key, k)
  }

  /** Selecting a key that every element has keeps the whole sequence. */
  lemma {:induction false} WithKeyAll<T>(s: seq<T>, key: T -> real, k: real)
    requires forall x :: x in s ==> key(x) == k
    ensures WithKey(s, key, k) == s
    decreases |s|
  {
    if |s| > 0 {
      WithKeyAll(s[..|s| - 1], key, k);
      assert s[..|s| - 1] + [s[|s| - 1]] == s;
    }
  }

  /** When all elements share one key, a stable rearrangement is no
      rearrangement at all. */
  lemma StableSameKey<T>(s: seq<T>, r: seq<T>, key: T -> real, k: real)
    requires forall x :: x in s ==> key(x) == k
    requires forall x :: x in r ==> key(x) == k
    requires Stable(s, r, key)
    ensures r == s
  {
    WithKeyAll(s, key, k);
    WithKeyAll(r, key, k);
  }

  lemma {:induction false} WithKeyAppend<T>(a: seq<T>, b: seq<T>, key: T -> real, k: real)
    ensures WithKey(a + b, key, k) == WithKey(a, key, k) + WithKey(b, key, k)
    decreases |b|
  {
    if |b| == 0 {
      assert a + b == a;
    } else {
      var b' := b[..|b| - 1];
      assert (a + b)[..|a + b| - 1] == a + b';
      assert (a + b)[|a + b| - 1] == b[|b| - 1];
      WithKeyAppend(a, b', key, k);
    }
  }

  /** Inserts `x` into sorted `t` after every element whose key is at most
      `key(x)`: the step of a stable insertion sort. */
  function Insert<T>(t: seq<T>, x: T, key: T -> real): (r: seq<T>)
    requires SortedBy(t, key)
    ensures SortedBy(r, key)
    ensures multiset(r) == multiset(t) + multiset{x}
    ensures forall k :: WithKey(r, key, k) == WithKey(t, key, k) + WithKey([x], key, k)
    decreases |t|
  {
    if |t| == 0 then
      assert [x] == [] + [x];
      [x]
    else if key(t[|t| - 1]) <= key(x) then
      InsertAtEnd(t, x, key);
      t + [x]
    else
      var y := t[|t| - 1];
      var t' := t[..|t| - 1];
      assert t == t' + [y];
      var r := Insert(t', x, key) + [y];
      InsertBeforeLast(t', y, x, key, Insert(t', x, key));
      r
  }

  lemma InsertAtEnd<T>(t: seq<T>, x: T, key: T -> real)
    requires SortedBy(t, key)
    requires |t| > 0 && key(t[|t| - 1]) <= key(x)
    ensures SortedBy(t + [x], key)
    ensures forall k :: WithKey(t + [x], key, k) == WithKey(t, key, k) + WithKey([x], key, k)
  {
    forall k ensures WithKey(t + [x], key, k) == WithKey(t, key, k) + WithKey([x], key, k) {
      WithKeyAppend(t, [x], key, k);
    }
  }

  /** The recursive case of `Insert`: `x` goes before the last element `y`,
      whose key is larger, so appending `y` keeps both facts. */
  lemma InsertBeforeLast<T>(t': seq<T>, y: T, x: T, key: T -> real, ins: seq<T>)
    requires SortedBy(t' + [y], key)
    requires key(x) < key(y)
    requires SortedBy(ins, key)
    requires multiset(ins) == multiset(t') + multiset{x}
    requires forall k :: WithKey(ins, key, k) == WithKey(t', key, k) + WithKey([x], key, k)
    ensures SortedBy(ins + [y], key)
    ensures forall k :: WithKey(ins + [y], key, k) == WithKey(t' + [y], key, k) + WithKey([x], key, k)
  {
    AppendLargest(t', y, x, key, ins);
    forall k ensures WithKey(ins + [y], key, k) == WithKey(t' + [y], key, k) + WithKey([x], key, k) {
      WithKeyAppend(ins, [y], key, k);
      WithKeyAppend(t', [y], key, k);
      WithKeySwap(t', x, y, key, k);
    }
  }

  /** Every element of `ins` has a key at most `key(y)`. */
  lemma AppendLargest<T>(t': seq<T>, y: T, x: T, key: T -> real, ins: seq<T>)
    requires SortedBy(t' + [y], key)
    requires key(x) < key(y)
    requires SortedBy(ins, key)
    requires multiset(ins) == multiset(t') + multiset{x}
    ensures SortedBy(ins + [y], key)
  {
    forall i | 0 <= i < |ins|
      ensures key(ins[i]) <= key(y)
    {
      assert ins[i] in multiset(ins);
      if ins[i] != x {
        assert ins[i] in multiset(t');
        var j :| 0 <= j < |t'| && t'[j] == ins[i];
        assert (t' + [y])[j] == t'[j];
        assert (t' + [y])[|t'|] == y;
      }
    }
  }

  /** Two elements with different keys commute under `WithKey`. */
  lemma WithKeySwap<T>(t': seq<T>, x: T, y: T, key: T -> real, k: real)
    requires key(x) < key(y)
    ensures WithKey(t', key, k) + WithKey([x], key, k) + WithKey([y], key, k)
            == WithKey(t', key, k) + WithKey([y], key, k) + WithKey([x], key, k)
  {
    assert [x][..0] == [] && [y][..0] == [];
  }

  /** Stable insertion sort of `s` by `key`. */
  function SortBy<T>(s: seq<T>, key: T -> real): (r: seq<T>)
    ensures SortedBy(r, key)
    ensures multiset(r) == multiset(s)
    ensures |r| == |s|
    ensures Stable(s, r, key)
    decreases |s|
  {
    if |s| == 0 then []
    else
      var prefix := s[..|s| - 1];
      var x := s[|s| - 1];
      assert s == prefix + [x];
      var r := Insert(SortBy(prefix, key), x, key);
      assert |r| == |multiset(r)| == |s|;
      forall k ensures WithKey(r, key, k) == WithKey(s, key, k) {
        WithKeyAppend(prefix, [x], key, k);
      }
      r
  }

  /** A sorted input is returned unchanged. */
  lemma {:induction false} SortSortedIsIdentity<T>(s: seq<T>, key: T -> real)
    requires SortedBy(s, key)
    ensures SortBy(s, key) == s
    decreases |s|
  {
    if |s| > 0 {
      var prefix := s[..|s| - 1];
      var x := s[|s| - 1];
      assert SortedBy(prefix, key);
      SortSortedIsIdentity(prefix, key);
      assert SortBy(s, key) == Insert(prefix, x, key);
      if |prefix| == 0 {
        assert Insert(prefix, x, key) == [x];
      } else {
        assert key(prefix[|prefix| - 1]) <= key(x);
        assert Insert(prefix, x, key) == prefix + [x];
      }
      assert s == prefix + [x];
    }
  }

  /** Sorting twice is sorting once. */
  lemma SortIdempotent<T>(s: seq<T>, key: T -> real)
    ensures SortBy(SortBy(s, key), key) == SortBy(s, key)
  {
    SortSortedIsIdentity(SortBy(s, key), key);
  }
}
