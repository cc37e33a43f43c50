/** One routing bucket (`routingBucket.bucket`): a sequence of contacts,
    least recently seen first, holding at most `BucketSize` of them. */
module Buckets {
  import opened Types

  type Bucket = seq<Contact>

  /** The addresses in a bucket are pairwise distinct. */
  ghost predicate UniqueAddrs(b: Bucket)
  {
    forall i, j :: 0 <= i < j < |b| ==> b[i].addr != b[j].addr
  }

  /** Contacts run from least to most recently seen. */
  ghost predicate OldestFirst(b: Bucket)
  {
    forall i, j :: 0 <= i < j < |b| ==> b[i].accessedAt <= b[j].accessedAt
  }

  /** Some contact of the bucket has address `a`. */
  predicate HasAddr(b: Bucket, a: Addr)
  {
    exists i :: 0 <= i < |b| && b[i].addr == a
  }

  /** Position of the first contact with address `a`, as the `range` loop in
      `updateRoutingTable` finds it. */
  function IndexOf(b: Bucket, a: Addr): (r: int)
    ensures -1 <= r < |b|
    ensures r >= 0 ==> b[r].addr == a && forall k :: 0 <= k < r ==> b[k].addr != a
    ensures r < 0 <==> !HasAddr(b, a)
  {
    if |b| == 0 then -1
    else if b[0].addr == a then 0
    else
      var r := IndexOf(b[1..], a);
      assert forall k :: 0 < k < |b| ==> b[k] == b[1..][k - 1];
      if r < 0 then -1 else r + 1
  }

  /** `popAndAppend(idx, ni)`: drop the contact at `idx`, keep the others in
      order, and put `ni` at the tail. */
  function PopAndAppend(b: Bucket, idx: int, ni: Contact): (r: Bucket)
    requires 0 <= idx < |b|
    ensures |r| == |b|
    ensures r[|r| - 1] == ni
    ensures forall k :: 0 <= k < |b| - 1 ==> r[k] == (if k < idx then b[k] else b[k + 1])
  {
    b[..idx] + b[idx + 1..] + [ni]
  }

  /** The array rebuild loop of `popAndAppend`, slot by slot. */
  method PopAndAppendLoop(prev: Bucket, idx: int, ni: Contact) returns (r: Bucket)
    requires 0 <= idx < |prev|
    ensures r == PopAndAppend(prev, idx, ni)
  {
    var l := |prev|;
    r := [];
    var i := 0;
    while i < l
      invariant 0 <= i <= l
      invariant |r| == i
      invariant forall k :: 0 <= k < i && k == l - 1 ==> r[k] == ni
      invariant forall k :: 0 <= k < i && k != l - 1 && k < idx ==> r[k] == prev[k]
      invariant forall k :: 0 <= k < i && k != l - 1 && k >= idx ==> r[k] == prev[k + 1]
    {
      var x := if i == l - 1 then ni else if i < idx then prev[i] else prev[i + 1];
      r := r + [x];
      i := i + 1;
    }
    var s := PopAndAppend(prev, idx, ni);
    assert forall k :: 0 <= k < l ==> r[k] == s[k];
  }

  /** Popping and appending swaps one occurrence of `b[idx]` for `ni`. */
  lemma PopAndAppendMultiset(b: Bucket, idx: int, ni: Contact)
    requires 0 <= idx < |b|
    ensures multiset(PopAndAppend(b, idx, ni)) == multiset(b) - multiset{b[idx]} + multiset{ni}
  {
    assert b == b[..idx] + [b[idx]] + b[idx + 1..];
  }

  /** The bucket after `updateRoutingTable` has seen a contact with address
      `a` and network address `nAddr` at time `now`. A known address is
      moved to the tail with its timestamp refreshed (its network address
      is kept); a new one is appended while there is room; otherwise the
      head is evicted and the new contact goes at the tail. */
  function Touch(b: Bucket, a: Addr, nAddr: Bytes, now: Timestamp): (r: Bucket)
    ensures |b| <= BucketSize ==> |r| <= BucketSize
    ensures HasAddr(r, a) && r[|r| - 1].addr == a && r[|r| - 1].accessedAt == now
  {
    var i := IndexOf(b, a);
    var r :=
      if i >= 0 then PopAndAppend(b, i, b[i].(accessedAt := now))
      else if |b| < BucketSize then b + [Contact(a, nAddr, now)]
      else PopAndAppend(b, 0, Contact(a, nAddr, now));
    assert r[|r| - 1].addr == a;
    r
  }

  /** A known contact moves to the tail: the length is unchanged, the other
      contacts keep their relative order, and only the timestamp of the moved
      contact changes. `i` is the first position holding `a`. */
  lemma TouchKnown(b: Bucket, a: Addr, nAddr: Bytes, now: Timestamp, i: int)
    requires 0 <= i < |b| && b[i].addr == a
    requires forall k :: 0 <= k < i ==> b[k].addr != a
    ensures |Touch(b, a, nAddr, now)| == |b|
    ensures Touch(b, a, nAddr, now) == b[..i] + b[i + 1..] + [b[i].(accessedAt := now)]
  {
    assert IndexOf(b, a) == i;
  }

  /** A new contact is appended while the bucket has room. */
  lemma TouchNewRoom(b: Bucket, a: Addr, nAddr: Bytes, now: Timestamp)
    requires !HasAddr(b, a) && |b| < BucketSize
    ensures Touch(b, a, nAddr, now) == b + [Contact(a, nAddr, now)]
    ensures |Touch(b, a, nAddr, now)| == |b| + 1
  {
  }

  /** A new contact evicts the head of a full bucket. */
  lemma TouchNewFull(b: Bucket, a: Addr, nAddr: Bytes, now: Timestamp)
    requires !HasAddr(b, a) && |b| == BucketSize
    ensures Touch(b, a, nAddr, now) == b[1..] + [Contact(a, nAddr, now)]
    ensures |Touch(b, a, nAddr, now)| == BucketSize
  {
  }

  /** Updating a bucket keeps its addresses pairwise distinct. */
  lemma {:induction false} TouchUnique(b: Bucket, a: Addr, nAddr: Bytes, now: Timestamp)
    requires UniqueAddrs(b)
    ensures UniqueAddrs(Touch(b, a, nAddr, now))
  {
    var r := Touch(b, a, nAddr, now);
    var i := IndexOf(b, a);
    var idx := if i >= 0 then i else 0;
    if i < 0 && |b| < BucketSize {
      assert forall k :: 0 <= k < |b| ==> r[k] == b[k];
    } else {
      forall p, q | 0 <= p < q < |r|
        ensures r[p].addr != r[q].addr
      {
        var bp := if p < idx then p else p + 1;
        assert r[p] == b[bp];
        if q < |r| - 1 {
          var bq := if q < idx then q else q + 1;
          assert r[q] == b[bq];
          assert bp < bq;
        } else if i >= 0 {
          assert bp != i;
        } else {
          assert !HasAddr(b, a);
        }
      }
    }
  }

  /** The addresses of the updated bucket: `a`, plus every address the
      bucket had except possibly the evicted head. */
  lemma TouchAddrs(b: Bucket, a: Addr, nAddr: Bytes, now: Timestamp, x: Addr)
    requires x != a
    ensures HasAddr(Touch(b, a, nAddr, now), x) ==> HasAddr(b, x)
    ensures HasAddr(b, x) && (HasAddr(b, a) || |b| < BucketSize || b[0].addr != x) ==>
      HasAddr(Touch(b, a, nAddr, now), x)
  {
    var r := Touch(b, a, nAddr, now);
    var i := IndexOf(b, a);
    var idx := if i >= 0 then i else 0;
    if HasAddr(r, x) {
      var k :| 0 <= k < |r| && r[k].addr == x;
      if !(i < 0 && |b| < BucketSize) {
        assert k < |r| - 1;
        assert r[k] == b[if k < idx then k else k + 1];
      } else {
        assert k < |b| && r[k] == b[k];
      }
    }
    if HasAddr(b, x) && (HasAddr(b, a) || |b| < BucketSize || b[0].addr != x) {
      var k :| 0 <= k < |b| && b[k].addr == x;
      if i < 0 && |b| < BucketSize {
        assert r[k] == b[k];
      } else {
        assert k != idx;
        if k < idx {
          assert r[k] == b[k];
        } else {
          assert r[k - 1] == b[k];
        }
      }
    }
  }

  /** Touching at a time no earlier than any contact's keeps the bucket
      ordered from least to most recently seen, so the head a full bucket
      evicts is its least recently seen contact. */
  lemma {:induction false} TouchRecency(b: Bucket, a: Addr, nAddr: Bytes, now: Timestamp)
    requires OldestFirst(b)
    requires forall k :: 0 <= k < |b| ==> b[k].accessedAt <= now
    ensures OldestFirst(Touch(b, a, nAddr, now))
  {
    var r := Touch(b, a, nAddr, now);
    var i := IndexOf(b, a);
    var idx := if i >= 0 then i else 0;
    if i < 0 && |b| < BucketSize {
      assert forall k :: 0 <= k < |b| ==> r[k] == b[k];
    } else {
      forall p, q | 0 <= p < q < |r|
        ensures r[p].accessedAt <= r[q].accessedAt
      {
        var bp := if p < idx then p else p + 1;
        assert r[p] == b[bp];
        if q < |r| - 1 {
          var bq := if q < idx then q else q + 1;
          assert r[q] == b[bq];
        }
      }
    }
  }
}
