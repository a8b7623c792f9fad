/** The list operations that the discovery and filtering steps are built
    from: an order-preserving selection (a list comprehension with a
    condition) and Python's stable `list.sort(key=...)`. */
module Seqs {

  // ---------------------------------------------------------------------
  // Selection

  /** `[x for x in s if p(x)]`. */
  function Filter<T>(s: seq<T>, p: T -> bool): (r: seq<T>)
    ensures |r| <= |s|
  {
    if |s| == 0 then []
    else Filter(s[..|s| - 1], p) + (if p(s[|s| - 1]) then [s[|s| - 1]] else [])
  }

  /** Selecting from a list grown by one element. */
  lemma FilterSnoc<T>(s: seq<T>, x: T, p: T -> bool)
    ensures Filter(s + [x], p) == Filter(s, p) + (if p(x) then [x] else [])
  {
    assert (s + [x])[..|s|] == s;
  }

  /** Selecting from a prefix grown by the next element. */
  lemma FilterPrefixStep<T>(s: seq<T>, i: nat, p: T -> bool)
    requires i < |s|
    ensures Filter(s[..i + 1], p) == Filter(s[..i], p) + (if p(s[i]) then [s[i]] else [])
  {
    assert s[..i + 1] == s[..i] + [s[i]];
    FilterSnoc(s[..i], s[i], p);
  }

  /** An element is selected iff it is in the list and satisfies `p`. */
  lemma {:induction false} FilterMembers<T>(s: seq<T>, p: T -> bool, x: T)
    ensures x in Filter(s, p) <==> x in s && p(x)
    decreases |s|
  {
    if s != [] {
      var init := s[..|s| - 1];
      FilterMembers(init, p, x);
      assert s == init + [s[|s| - 1]];
    }
  }

  /** Selection distributes over concatenation: the order is kept. */
  lemma {:induction false} FilterAppend<T>(a: seq<T>, b: seq<T>, p: T -> bool)
    ensures Filter(a + b, p) == Filter(a, p) + Filter(b, p)
    decreases |b|
  {
    if b == [] {
      assert a + b == a;
    } else {
      var init := b[..|b| - 1];
      var x := b[|b| - 1];
      assert b == init + [x];
      assert a + b == (a + init) + [x];
      FilterAppend(a, init, p);
      FilterSnoc(a + init, x, p);
      FilterSnoc(init, x, p);
    }
  }

  /** Selecting from a list with one more element in front. */
  lemma FilterCons<T>(x: T, r: seq<T>, p: T -> bool)
    ensures Filter([x] + r, p) == (if p(x) then [x] else []) + Filter(r, p)
  {
    FilterAppend([x], r, p);
    FilterSnoc([], x, p);
    assert [] + [x] == [x];
  }

  /** Selecting with two conditions that agree on the list gives the same list. */
  lemma {:induction false} FilterSame<T>(s: seq<T>, p: T -> bool, q: T -> bool)
    requires forall i | 0 <= i < |s| :: p(s[i]) == q(s[i])
    ensures Filter(s, p) == Filter(s, q)
    decreases |s|
  {
    if s != [] {
      var init := s[..|s| - 1];
      assert forall i | 0 <= i < |init| :: init[i] == s[i];
      FilterSame(init, p, q);
    }
  }

  /** Selecting with a condition every element satisfies keeps the list. */
  lemma {:induction false} FilterAll<T>(s: seq<T>, p: T -> bool)
    requires forall i | 0 <= i < |s| :: p(s[i])
    ensures Filter(s, p) == s
    decreases |s|
  {
    if s != [] {
      var init := s[..|s| - 1];
      assert forall i | 0 <= i < |init| :: init[i] == s[i];
      FilterAll(init, p);
      assert s == init + [s[|s| - 1]];
    }
  }

  /** Selecting with a condition and with its negation splits the list:
      the two parts together are as long as the list. */
  lemma {:induction false} FilterPartition<T>(s: seq<T>, p: T -> bool, q: T -> bool)
    requires forall i | 0 <= i < |s| :: q(s[i]) == !p(s[i])
    ensures |Filter(s, p)| + |Filter(s, q)| == |s|
    decreases |s|
  {
    if s != [] {
      var init, x := s[..|s| - 1], s[|s| - 1];
      assert forall i | 0 <= i < |init| :: init[i] == s[i];
      FilterPartition(init, p, q);
      assert q(x) == !p(x);
    }
  }

  /** `idx` lists, in increasing order, positions of `b` holding the
      elements of `a`. */
  ghost predicate Embeds<T>(a: seq<T>, b: seq<T>, idx: seq<nat>) {
    && |idx| == |a|
    && (forall k | 0 <= k < |idx| :: idx[k] < |b| && a[k] == b[idx[k]])
    && (forall k, l | 0 <= k < l < |idx| :: idx[k] < idx[l])
  }

  /** `a` is `b` with some elements left out and the rest in order. */
  ghost predicate Subsequence<T>(a: seq<T>, b: seq<T>) {
    exists idx: seq<nat> :: Embeds(a, b, idx)
  }

  /** A selection is a subsequence of what it selects from. */
  lemma {:induction false} FilterSubsequence<T>(s: seq<T>, p: T -> bool)
    ensures Subsequence(Filter(s, p), s)
    decreases |s|
  {
    if s == [] {
      assert Embeds(Filter(s, p), s, []);
    } else {
      var init, x := s[..|s| - 1], s[|s| - 1];
      var f := Filter(init, p);
      assert s == init + [x];
      FilterSnoc(init, x, p);
      FilterSubsequence(init, p);
      var idx: seq<nat> :| Embeds(f, init, idx);
      EmbedsSnoc(f, init, idx, x, p(x));
    }
  }

  /** An embedding into `b` is one into `b + [x]`, and extends by `x` at the end. */
  lemma EmbedsSnoc<T>(a: seq<T>, b: seq<T>, idx: seq<nat>, x: T, keep: bool)
    requires Embeds(a, b, idx)
    ensures Subsequence(a + (if keep then [x] else []), b + [x])
  {
    var b' := b + [x];
    assert forall k | 0 <= k < |idx| :: b'[idx[k]] == b[idx[k]];
    if keep {
      var idx' := idx + [|b|];
      assert forall k | 0 <= k < |idx| :: idx'[k] == idx[k];
      assert Embeds(a + [x], b', idx');
    } else {
      assert a + [] == a;
      assert Embeds(a, b', idx);
    }
  }

  // ---------------------------------------------------------------------
  // Stable sorting

  /** `r` is in ascending order of `key`. */
  predicate SortedBy<T>(r: seq<T>, key: T -> int) {
    forall i, j | 0 <= i < j < |r| :: key(r[i]) <= key(r[j])
  }

  /** The elements whose key is `k`. */
  function KeyIs<T>(key: T -> int, k: int): T -> bool {
    x => key(x) == k
  }

  /** Puts `x` in front of the first element whose key is not smaller. */
  function InsertByKey<T>(x: T, r: seq<T>, key: T -> int): (t: seq<T>)
    ensures multiset(t) == multiset(r) + multiset{x}
    ensures |t| == |r| + 1
  {
    if |r| == 0 || key(x) <= key(r[0]) then [x] + r
    else
      assert r == [r[0]] + r[1..];
      [r[0]] + InsertByKey(x, r[1..], key)
  }

  /** Python's `s.sort(key=key)`: an insertion sort that keeps elements
      with equal keys in their original order. */
  function SortByKey<T>(s: seq<T>, key: T -> int): (r: seq<T>)
    ensures |r| == |s|
  {
    if |s| == 0 then [] else InsertByKey(s[0], SortByKey(s[1..], key), key)
  }

  lemma {:induction false} InsertSorted<T>(x: T, r: seq<T>, key: T -> int)
    requires SortedBy(r, key)
    ensures SortedBy(InsertByKey(x, r, key), key)
    decreases |r|
  {
    if r != [] && key(x) > key(r[0]) {
      var t := InsertByKey(x, r[1..], key);
      InsertSorted(x, r[1..], key);
      forall y | y in multiset(t) ensures key(r[0]) <= key(y) {
        assert y in multiset(r[1..]) + multiset{x};
        if y in r[1..] {
          var j :| 0 <= j < |r[1..]| && r[1..][j] == y;
          assert r[j + 1] == y;
        }
      }
      forall j | 0 <= j < |t| ensures key(r[0]) <= key(t[j]) {
        assert t[j] in multiset(t);
      }
    }
  }

  /** Only the inserted element joins its key's group, and in front. */
  lemma {:induction false} InsertKeyGroup<T>(x: T, r: seq<T>, key: T -> int, k: int)
    ensures Filter(InsertByKey(x, r, key), KeyIs(key, k))
            == (if key(x) == k then [x] else []) + Filter(r, KeyIs(key, k))
    decreases |r|
  {
    var p := KeyIs(key, k);
    if |r| == 0 || key(x) <= key(r[0]) {
      assert p(x) == (key(x) == k);
      FilterCons(x, r, p);
    } else {
      InsertKeyGroup(x, r[1..], key, k);
      assert p(x) == (key(x) == k) && p(r[0]) == (key(r[0]) == k);
      InsertPastGroup(if key(x) == k then [x] else [], r[0], r[1..], InsertByKey(x, r[1..], key), p);
      assert [r[0]] + r[1..] == r;
    }
  }

  /** The inductive step of `InsertKeyGroup`: the group part `e` of the
      inserted element goes past `y`, which is never in that group. */
  lemma InsertPastGroup<T>(e: seq<T>, y: T, rest: seq<T>, t: seq<T>, p: T -> bool)
    requires e == [] || !p(y)
    requires Filter(t, p) == e + Filter(rest, p)
    ensures Filter([y] + t, p) == e + Filter([y] + rest, p)
  {
    FilterCons(y, t, p);
    FilterCons(y, rest, p);
    SwapEmpty(if p(y) then [y] else [], e, Filter(rest, p));
  }

  /** Two sequences one of which is empty can be exchanged in front of a third. */
  lemma SwapEmpty<T>(a: seq<T>, b: seq<T>, c: seq<T>)
    requires a == [] || b == []
    ensures a + (b + c) == b + (a + c)
  {
    if a == [] {
      assert a + (b + c) == b + c == b + (a + c);
    } else {
      assert a + (b + c) == a + c == b + (a + c);
    }
  }

  /** The sort puts the keys in ascending order. */
  lemma {:induction false} SortSorted<T>(s: seq<T>, key: T -> int)
    ensures SortedBy(SortByKey(s, key), key)
    decreases |s|
  {
    if s != [] {
      SortSorted(s[1..], key);
      InsertSorted(s[0], SortByKey(s[1..], key), key);
    }
  }

  /** The sort only reorders. */
  lemma {:induction false} SortPermutes<T>(s: seq<T>, key: T -> int)
    ensures multiset(SortByKey(s, key)) == multiset(s)
    decreases |s|
  {
    if s != [] {
      SortPermutes(s[1..], key);
      assert s == [s[0]] + s[1..];
    }
  }

  /** The sort is stable: the elements sharing any one key keep their
      relative order. */
  lemma {:induction false} SortStable<T>(s: seq<T>, key: T -> int, k: int)
    ensures Filter(SortByKey(s, key), KeyIs(key, k)) == Filter(s, KeyIs(key, k))
    decreases |s|
  {
    if |s| != 0 {
      SortStable(s[1..], key, k);
      InsertKeyGroup(s[0], SortByKey(s[1..], key), key, k);
      FilterCons(s[0], s[1..], KeyIs(key, k));
      assert [s[0]] + s[1..] == s;
      assert KeyIs(key, k)(s[0]) == (key(s[0]) == k);
    }
  }
}
