/** Sequence helpers shared by the model: `Array.prototype.filter` and the
    subsequence relation that every read-side projection is stated with. */
module Seqs {

  /** `s.filter(p)`: the elements of `s` that satisfy `p`, in order. */
  function Filter<T>(s: seq<T>, p: T -> bool): (r: seq<T>)
    ensures |r| <= |s|
    ensures forall i :: 0 <= i < |r| ==> p(r[i])
  {
    if s == [] then []
    else Filter(s[..|s| - 1], p) + (if p(s[|s| - 1]) then [s[|s| - 1]] else [])
  }

  /** `a` can be obtained from `b` by deleting elements (matched greedily from the end). */
  predicate IsSubseq<T(==)>(a: seq<T>, b: seq<T>)
    decreases |b|
  {
    if a == [] then true
    else if b == [] then false
    else if a[|a| - 1] == b[|b| - 1] then IsSubseq(a[..|a| - 1], b[..|b| - 1])
    else IsSubseq(a, b[..|b| - 1])
  }

  lemma {:induction false} SubseqExtend<T>(a: seq<T>, b: seq<T>, x: T)
    requires IsSubseq(a, b)
    ensures IsSubseq(a, b + [x])
    decreases |b|, 1
  {
    var b' := b + [x];
    assert b'[..|b'| - 1] == b;
    if a != [] && a[|a| - 1] == x {
      SubseqDropLast(a, b);
    }
  }

  lemma {:induction false} SubseqDropLast<T>(a: seq<T>, b: seq<T>)
    requires a != [] && IsSubseq(a, b)
    ensures IsSubseq(a[..|a| - 1], b)
    decreases |b|, 0
  {
    var a', b' := a[..|a| - 1], b[..|b| - 1];
    if a[|a| - 1] == b[|b| - 1] {
      SubseqExtend(a', b', b[|b| - 1]);
    } else {
      SubseqDropLast(a, b');
      SubseqExtend(a', b', b[|b| - 1]);
    }
    assert b' + [b[|b| - 1]] == b;
  }

  /** Appending the same element to both sides keeps the relation. */
  lemma SubseqAppendBoth<T>(a: seq<T>, b: seq<T>, x: T)
    requires IsSubseq(a, b)
    ensures IsSubseq(a + [x], b + [x])
  {
    assert (a + [x])[..|a|] == a;
    assert (b + [x])[..|b|] == b;
  }

  /** A subsequence is no longer than the sequence and uses only its elements. */
  lemma {:induction false} SubseqProperties<T>(a: seq<T>, b: seq<T>)
    requires IsSubseq(a, b)
    ensures |a| <= |b|
    ensures forall x :: x in a ==> x in b
    decreases |b|
  {
    if a != [] {
      var a', b' := a[..|a| - 1], b[..|b| - 1];
      assert a == a' + [a[|a| - 1]] && b == b' + [b[|b| - 1]];
      if a[|a| - 1] == b[|b| - 1] {
        SubseqProperties(a', b');
      } else {
        SubseqProperties(a, b');
      }
    }
  }

  /** The filtered sequence is an order-preserving subsequence of the input. */
  lemma {:induction false} FilterIsSubseq<T>(s: seq<T>, p: T -> bool)
    ensures IsSubseq(Filter(s, p), s)
  {
    if s != [] {
      var s', x := s[..|s| - 1], s[|s| - 1];
      FilterIsSubseq(s', p);
      assert s == s' + [x];
      if p(x) {
        SubseqAppendBoth(Filter(s', p), s', x);
      } else {
        assert Filter(s, p) == Filter(s', p);
        SubseqExtend(Filter(s', p), s', x);
      }
    }
  }

  /** An element survives the filter exactly when it is in the input and satisfies `p`. */
  lemma {:induction false} FilterMembership<T>(s: seq<T>, p: T -> bool, x: T)
    ensures x in Filter(s, p) <==> x in s && p(x)
  {
    if s != [] {
      var s' := s[..|s| - 1];
      FilterMembership(s', p, x);
      assert s == s' + [s[|s| - 1]];
    }
  }

  /** The filter keeps every occurrence of an element that satisfies `p` and
      none of one that does not, so it fixes the result's multiplicities. */
  lemma {:induction false} FilterCount<T>(s: seq<T>, p: T -> bool, x: T)
    ensures multiset(Filter(s, p))[x] == if p(x) then multiset(s)[x] else 0
  {
    if s != [] {
      var s', y := s[..|s| - 1], s[|s| - 1];
      FilterCount(s', p, x);
      assert s == s' + [y];
      assert multiset(s) == multiset(s') + multiset{y};
      var kept := if p(y) then [y] else [];
      assert Filter(s, p) == Filter(s', p) + kept;
      assert multiset(Filter(s, p)) == multiset(Filter(s', p)) + multiset(kept);
    }
  }

  /** Filtering distributes over concatenation. */
  lemma {:induction false} FilterConcat<T>(s: seq<T>, t: seq<T>, p: T -> bool)
    ensures Filter(s + t, p) == Filter(s, p) + Filter(t, p)
    decreases |t|
  {
    if t == [] {
      assert s + t == s;
    } else {
      var t', x := t[..|t| - 1], t[|t| - 1];
      FilterConcat(s, t', p);
      var st := s + t;
      assert st[..|st| - 1] == s + t' && st[|st| - 1] == x;
      assert Filter(st, p) == Filter(s + t', p) + (if p(x) then [x] else []);
      assert Filter(t, p) == Filter(t', p) + (if p(x) then [x] else []);
    }
  }

  /** When every element satisfies `p`, the filter returns the input unchanged. */
  lemma {:induction false} FilterKeepsAll<T>(s: seq<T>, p: T -> bool)
    requires forall i :: 0 <= i < |s| ==> p(s[i])
    ensures Filter(s, p) == s
  {
    if s != [] {
      FilterKeepsAll(s[..|s| - 1], p);
    }
  }

  /** When no element satisfies `p`, the filter is empty. */
  lemma {:induction false} FilterKeepsNone<T>(s: seq<T>, p: T -> bool)
    requires forall i :: 0 <= i < |s| ==> !p(s[i])
    ensures Filter(s, p) == []
  {
    if s != [] {
      FilterKeepsNone(s[..|s| - 1], p);
    }
  }

  /** `s.map(f)`. */
  function Map<T, U>(s: seq<T>, f: T -> U): (r: seq<U>)
    ensures |r| == |s|
    ensures forall i :: 0 <= i < |s| ==> r[i] == f(s[i])
  {
    seq(|s|, i requires 0 <= i < |s| => f(s[i]))
  }

  /** Position `i` holds the first element of `s` with its key. */
  ghost predicate IsFirstWithKey<T, K>(s: seq<T>, key: T -> K, i: int) {
    0 <= i < |s| && forall i' :: 0 <= i' < i ==> key(s[i']) != key(s[i])
  }

  /** The elements of `s` whose key has not been seen before, in order: what
      a `Map` filled with `if (!map.has(key)) map.set(key, x)` holds, read
      back in insertion order. */
  function UniqueBy<T, K(==)>(s: seq<T>, key: T -> K): seq<T> {
    if s == [] then []
    else
      var u := UniqueBy(s[..|s| - 1], key);
      if key(s[|s| - 1]) in Map(u, key) then u else u + [s[|s| - 1]]
  }

  /** One more element is kept exactly when its key is new. */
  lemma UniqueByStep<T, K>(p: seq<T>, x: T, key: T -> K)
    ensures UniqueBy(p + [x], key) ==
              if key(x) in Map(UniqueBy(p, key), key) then UniqueBy(p, key) else UniqueBy(p, key) + [x]
    ensures Map(UniqueBy(p + [x], key), key) ==
              if key(x) in Map(UniqueBy(p, key), key) then Map(UniqueBy(p, key), key)
              else Map(UniqueBy(p, key), key) + [key(x)]
  {
    assert (p + [x])[..|p|] == p;
  }

  /** The dedup keeps an order-preserving subsequence. */
  lemma {:induction false} UniqueBySubseq<T, K>(s: seq<T>, key: T -> K)
    ensures IsSubseq(UniqueBy(s, key), s)
  {
    if s != [] {
      var p, x := s[..|s| - 1], s[|s| - 1];
      assert s == p + [x];
      UniqueBySubseq(p, key);
      UniqueByStep(p, x, key);
      if key(x) in Map(UniqueBy(p, key), key) {
        SubseqExtend(UniqueBy(p, key), p, x);
      } else {
        SubseqAppendBoth(UniqueBy(p, key), p, x);
      }
    }
  }

  /** Every key of `s` is the key of some kept element. */
  lemma {:induction false} UniqueByCovers<T, K>(s: seq<T>, key: T -> K)
    ensures forall i :: 0 <= i < |s| ==> key(s[i]) in Map(UniqueBy(s, key), key)
  {
    if s != [] {
      var p, x := s[..|s| - 1], s[|s| - 1];
      assert s == p + [x];
      UniqueByCovers(p, key);
      UniqueByStep(p, x, key);
      forall i | 0 <= i < |s| ensures key(s[i]) in Map(UniqueBy(s, key), key) {
        if i < |p| {
          assert s[i] == p[i];
        }
      }
    }
  }

  /** The kept elements have pairwise distinct keys. */
  lemma {:induction false} UniqueByDistinct<T, K>(s: seq<T>, key: T -> K)
    ensures forall i, j :: 0 <= i < j < |UniqueBy(s, key)| ==>
              key(UniqueBy(s, key)[i]) != key(UniqueBy(s, key)[j])
  {
    if s != [] {
      var p, x := s[..|s| - 1], s[|s| - 1];
      assert s == p + [x];
      UniqueByDistinct(p, key);
      UniqueByStep(p, x, key);
      var u, r := UniqueBy(p, key), UniqueBy(s, key);
      forall i, j | 0 <= i < j < |r| ensures key(r[i]) != key(r[j]) {
        if j == |u| {
          assert Map(u, key)[i] == key(r[i]);
        }
      }
    }
  }

  /** `idx` lists, in increasing order, the positions of `s` holding the first
      element of each key, and the dedup of `s` holds the elements there. */
  ghost predicate FirstIndices<T, K>(s: seq<T>, key: T -> K, idx: seq<nat>) {
    |idx| == |UniqueBy(s, key)|
    && (forall j :: 0 <= j < |idx| ==> IsFirstWithKey(s, key, idx[j]) && UniqueBy(s, key)[j] == s[idx[j]])
    && (forall j, j' :: 0 <= j < j' < |idx| ==> idx[j] < idx[j'])
    && (forall i :: IsFirstWithKey(s, key, i) ==> i in idx)
  }

  /** The kept elements are exactly the first elements of their keys, in
      their order in `s`: `idx` lists the positions they come from. */
  lemma {:induction false} UniqueByIndices<T, K>(s: seq<T>, key: T -> K) returns (idx: seq<nat>)
    ensures |idx| == |UniqueBy(s, key)|
    ensures forall j :: 0 <= j < |idx| ==> IsFirstWithKey(s, key, idx[j]) && UniqueBy(s, key)[j] == s[idx[j]]
    ensures forall j, j' :: 0 <= j < j' < |idx| ==> idx[j] < idx[j']
    ensures forall i :: IsFirstWithKey(s, key, i) ==> i in idx
  {
    if s == [] {
      idx := [];
    } else {
      var p, x := s[..|s| - 1], s[|s| - 1];
      assert s == p + [x];
      var prev := UniqueByIndices(p, key);
      assert FirstIndices(p, key, prev);
      if key(x) in Map(UniqueBy(p, key), key) {
        idx := prev;
        KnownKeyIndices(p, x, key, prev);
      } else {
        idx := prev + [|p|];
        NewKeyIndices(p, x, key, prev);
      }
      assert FirstIndices(s, key, idx);
    }
  }

  /** An element whose key was seen is not a first one: the positions stay. */
  lemma KnownKeyIndices<T, K>(p: seq<T>, x: T, key: T -> K, prev: seq<nat>)
    requires FirstIndices(p, key, prev)
    requires key(x) in Map(UniqueBy(p, key), key)
    ensures FirstIndices(p + [x], key, prev)
  {
    var s, u := p + [x], UniqueBy(p, key);
    assert UniqueBy(s, key) == u by {
      UniqueByStep(p, x, key);
    }
    assert !IsFirstWithKey(s, key, |p|) by {
      var j :| 0 <= j < |u| && Map(u, key)[j] == key(x);
      assert key(s[prev[j]]) == key(x) && prev[j] < |p|;
    }
    forall j | 0 <= j < |prev| ensures IsFirstWithKey(s, key, prev[j]) && UniqueBy(s, key)[j] == s[prev[j]] {
      FirstWithKeyPrefix(p, x, key, prev[j]);
    }
    forall i | IsFirstWithKey(s, key, i) ensures i in prev {
      FirstWithKeyPrefix(p, x, key, i);
    }
  }

  /** An element with a new key is a first one: its position is added last. */
  lemma NewKeyIndices<T, K>(p: seq<T>, x: T, key: T -> K, prev: seq<nat>)
    requires FirstIndices(p, key, prev)
    requires key(x) !in Map(UniqueBy(p, key), key)
    ensures FirstIndices(p + [x], key, prev + [|p|])
  {
    var s, idx, u := p + [x], prev + [|p|], UniqueBy(p, key);
    assert UniqueBy(s, key) == u + [x] by {
      UniqueByStep(p, x, key);
    }
    assert IsFirstWithKey(s, key, |p|) by {
      NewKeyIsFirst(p, key, prev, x);
    }
    forall j | 0 <= j < |prev| ensures IsFirstWithKey(s, key, idx[j]) && UniqueBy(s, key)[j] == s[idx[j]] {
      FirstWithKeyPrefix(p, x, key, prev[j]);
    }
    forall j, j' | 0 <= j < j' < |idx| ensures idx[j] < idx[j'] {
      if j' == |prev| {
        assert prev[j] < |p|;
      }
    }
    forall i | IsFirstWithKey(s, key, i) ensures i in idx {
      if i < |p| {
        FirstWithKeyPrefix(p, x, key, i);
      }
    }
  }

  /** Below the last position, being first with one's key does not depend on
      what comes after. */
  lemma FirstWithKeyPrefix<T, K>(p: seq<T>, x: T, key: T -> K, i: int)
    requires 0 <= i < |p|
    ensures IsFirstWithKey(p + [x], key, i) <==> IsFirstWithKey(p, key, i)
    ensures (p + [x])[i] == p[i]
  {
    assert forall i' :: 0 <= i' <= i ==> (p + [x])[i'] == p[i'];
  }

  /** A key the dedup of `p` has not kept occurs nowhere in `p`, so an element
      with that key appended to `p` is the first with it. */
  lemma NewKeyIsFirst<T, K>(p: seq<T>, key: T -> K, prev: seq<nat>, x: T)
    requires |prev| == |UniqueBy(p, key)|
    requires forall j :: 0 <= j < |prev| ==> IsFirstWithKey(p, key, prev[j]) && UniqueBy(p, key)[j] == p[prev[j]]
    requires forall i :: IsFirstWithKey(p, key, i) ==> i in prev
    requires key(x) !in Map(UniqueBy(p, key), key)
    ensures IsFirstWithKey(p + [x], key, |p|)
  {
    var u := UniqueBy(p, key);
    forall i' | 0 <= i' < |p| ensures key((p + [x])[i']) != key(x) {
      var f := FirstWithKeyBefore(p, key, i');
      var j :| 0 <= j < |prev| && prev[j] == f;
      assert Map(u, key)[j] == key(p[i']);
      assert (p + [x])[i'] == p[i'];
    }
  }

  /** Some position at or before `i` holds the first element with `s[i]`'s key. */
  lemma {:induction false} FirstWithKeyBefore<T, K>(s: seq<T>, key: T -> K, i: nat) returns (f: nat)
    requires i < |s|
    ensures f <= i && IsFirstWithKey(s, key, f) && key(s[f]) == key(s[i])
    decreases i
  {
    if IsFirstWithKey(s, key, i) {
      f := i;
    } else {
      var i' :| 0 <= i' < i && key(s[i']) == key(s[i]);
      f := FirstWithKeyBefore(s, key, i');
    }
  }

  /** The dedup keeps an order-preserving subsequence whose keys are pairwise
      distinct, holding for every key of `s` the first element with that key. */
  lemma UniqueBySpec<T, K>(s: seq<T>, key: T -> K)
    ensures IsSubseq(UniqueBy(s, key), s)
    ensures forall i, j :: 0 <= i < j < |UniqueBy(s, key)| ==>
              key(UniqueBy(s, key)[i]) != key(UniqueBy(s, key)[j])
    ensures forall i :: 0 <= i < |s| ==> key(s[i]) in Map(UniqueBy(s, key), key)
  {
    UniqueBySubseq(s, key);
    UniqueByDistinct(s, key);
    UniqueByCovers(s, key);
  }

  /** A sequence whose keys are already pairwise distinct is left as it is. */
  lemma {:induction false} UniqueByKeepsDistinct<T, K>(s: seq<T>, key: T -> K)
    requires forall i, j :: 0 <= i < j < |s| ==> key(s[i]) != key(s[j])
    ensures UniqueBy(s, key) == s
  {
    if s != [] {
      var p, x := s[..|s| - 1], s[|s| - 1];
      assert s == p + [x];
      UniqueByKeepsDistinct(p, key);
      UniqueByStep(p, x, key);
      forall j | 0 <= j < |p| ensures Map(p, key)[j] != key(x) {
        assert s[j] == p[j];
      }
    }
  }

  /** Deduplicating twice is deduplicating once. */
  lemma UniqueByIdempotent<T, K>(s: seq<T>, key: T -> K)
    ensures UniqueBy(UniqueBy(s, key), key) == UniqueBy(s, key)
  {
    UniqueByDistinct(s, key);
    UniqueByKeepsDistinct(UniqueBy(s, key), key);
  }

  /** A `Map` read back in insertion order: `order` lists its keys in the
      order they were first set, and `vals` what `map.values()` yields. */
  ghost predicate ReadsBack<K, V>(order: seq<K>, m: map<K, V>, vals: seq<V>) {
    |order| == |vals|
    && m.Keys == (set k | k in order)
    && forall j :: 0 <= j < |order| ==> order[j] in m && m[order[j]] == vals[j]
  }

  /** Setting a new key appends it, and its value, at the end. */
  lemma ReadsBackInsert<K, V>(order: seq<K>, m: map<K, V>, vals: seq<V>, k: K, v: V)
    requires ReadsBack(order, m, vals) && k !in m
    ensures ReadsBack(order + [k], m[k := v], vals + [v])
  {
    var order', m', vals' := order + [k], m[k := v], vals + [v];
    forall j | 0 <= j < |order'| ensures order'[j] in m' && m'[order'[j]] == vals'[j] {
      if j < |order| {
        assert order'[j] == order[j] && order[j] in m;
      }
    }
  }
}
