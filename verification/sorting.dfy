/** Ordering by a key under a comparison `leq`, as FindNode does with
    `sort.Slice` and `lessThanEqual` on XOR distances. */
module Sorting {
  import opened Types

  /** `leq` relates any two keys one way or the other, and chains. */
  ghost predicate TotalPreorder<K(!new)>(leq: (K, K) -> bool)
  {
    && (forall a, b :: leq(a, b) || leq(b, a))
    && (forall a, b, c :: leq(a, b) && leq(b, c) ==> leq(a, c))
  }

  /** Every element is `leq` every later element, compared by key. */
  ghost predicate SortedBy<T, K>(s: seq<T>, key: T -> K, leq: (K, K) -> bool)
  {
    forall i, j :: 0 <= i < j < |s| ==> leq(key(s[i]), key(s[j]))
  }

  /** Inserts `x` before the first element whose key it is `leq`. */
  function InsertBy<T, K>(x: T, s: seq<T>, key: T -> K, leq: (K, K) -> bool): (r: seq<T>)
    ensures multiset(r) == multiset(s) + multiset{x}
    decreases |s|
  {
    if |s| == 0 then [x]
    else if leq(key(x), key(s[0])) then [x] + s
    else
      assert s == [s[0]] + s[1..];
      [s[0]] + InsertBy(x, s[1..], key, leq)
  }

  /** Inserting into a sorted sequence keeps it sorted. */
  lemma {:induction false} InsertBySorted<T, K(!new)>(x: T, s: seq<T>, key: T -> K, leq: (K, K) -> bool)
    requires TotalPreorder(leq) && SortedBy(s, key, leq)
    ensures SortedBy(InsertBy(x, s, key, leq), key, leq)
    decreases |s|
  {
    if |s| > 0 && !leq(key(x), key(s[0])) {
      var t := InsertBy(x, s[1..], key, leq);
      InsertBySorted(x, s[1..], key, leq);
      assert s == [s[0]] + s[1..];
      forall i | 0 <= i < |t|
        ensures leq(key(s[0]), key(t[i]))
      {
        assert t[i] in multiset(s[1..]) + multiset{x};
        if t[i] != x {
          assert t[i] in s[1..];
        }
      }
    }
  }

  /** Insertion sort by key: a permutation of `s`. */
  function SortBy<T, K>(s: seq<T>, key: T -> K, leq: (K, K) -> bool): (r: seq<T>)
    ensures multiset(r) == multiset(s)
    decreases |s|
  {
    if |s| == 0 then []
    else
      assert s == [s[0]] + s[1..];
      InsertBy(s[0], SortBy(s[1..], key, leq), key, leq)
  }

  /** When `leq` is a total preorder the sorted copy is in `leq` order. */
  lemma {:induction false} SortBySorted<T, K(!new)>(s: seq<T>, key: T -> K, leq: (K, K) -> bool)
    requires TotalPreorder(leq)
    ensures SortedBy(SortBy(s, key, leq), key, leq)
    decreases |s|
  {
    if |s| > 0 {
      SortBySorted(s[1..], key, leq);
      InsertBySorted(s[0], SortBy(s[1..], key, leq), key, leq);
    }
  }

  /** In a sorted sequence every element of the first `n` is `leq` every
      element that is left out, counted with multiplicity against `s`. */
  lemma PrefixOfSorted<T, K>(s: seq<T>, t: seq<T>, n: nat, key: T -> K, leq: (K, K) -> bool)
    requires multiset(t) == multiset(s) && SortedBy(t, key, leq) && n <= |t|
    ensures multiset(t[..n]) <= multiset(s)
    ensures forall x, y :: x in t[..n] && y in multiset(s) - multiset(t[..n]) ==> leq(key(x), key(y))
  {
    assert t == t[..n] + t[n..];
    forall x, y | x in t[..n] && y in multiset(s) - multiset(t[..n])
      ensures leq(key(x), key(y))
    {
      assert y in multiset(t[n..]);
      var i :| 0 <= i < n && t[i] == x;
      var j :| 0 <= j < |t| - n && t[n..][j] == y;
      assert t[n + j] == y;
    }
  }

  /** The first `n` of the sorted copy: drawn from `s`, and, for a total
      preorder, sorted and no farther than anything left out. */
  lemma SortByPrefix<T, K(!new)>(s: seq<T>, n: nat, key: T -> K, leq: (K, K) -> bool)
    requires n <= |s|
    ensures |SortBy(s, key, leq)| == |s|
    ensures multiset(SortBy(s, key, leq)[..n]) <= multiset(s)
    ensures TotalPreorder(leq) ==> SortedBy(SortBy(s, key, leq)[..n], key, leq)
    ensures TotalPreorder(leq) ==>
      forall x, y :: x in SortBy(s, key, leq)[..n] && y in multiset(s) - multiset(SortBy(s, key, leq)[..n]) ==>
        leq(key(x), key(y))
  {
    var t := SortBy(s, key, leq);
    assert |t| == |multiset(t)| == |s|;
    assert t == t[..n] + t[n..];
    if TotalPreorder(leq) {
      SortBySorted(s, key, leq);
      PrefixOfSorted(s, t, n, key, leq);
    }
  }

  /** Lexicographic `<=` on equal-length byte strings, most significant
      byte first: the order of XOR distances. */
  predicate LexLeq(a: seq<int>, b: seq<int>)
    requires |a| == |b|
  {
    |a| == 0 || a[0] < b[0] || (a[0] == b[0] && LexLeq(a[1..], b[1..]))
  }

  lemma {:induction false} LexLeqTotal(a: seq<int>, b: seq<int>)
    requires |a| == |b|
    ensures LexLeq(a, b) || LexLeq(b, a)
  {
    if |a| > 0 && a[0] == b[0] {
      LexLeqTotal(a[1..], b[1..]);
    }
  }

  lemma {:induction false} LexLeqTransitive(a: seq<int>, b: seq<int>, c: seq<int>)
    requires |a| == |b| == |c|
    requires LexLeq(a, b) && LexLeq(b, c)
    ensures LexLeq(a, c)
  {
    if |a| > 0 && a[0] == b[0] == c[0] {
      LexLeqTransitive(a[1..], b[1..], c[1..]);
    }
  }

  /** Byte-wise lexicographic order on twenty-byte strings meets the
      assumption FindNode's ordering guarantee rests on, so that assumption
      can be met by the order XOR distances are compared in. */
  lemma LexLeqIsTotalPreorder()
    ensures TotalPreorder((a: Addr, b: Addr) => LexLeq(a, b))
  {
    forall a: Addr, b: Addr {
      LexLeqTotal(a, b);
    }
    forall a: Addr, b: Addr, c: Addr | LexLeq(a, b) && LexLeq(b, c) {
      LexLeqTransitive(a, b, c);
    }
  }
}
