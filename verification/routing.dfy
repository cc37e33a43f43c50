/** The routing table (`Node.routingTable`): one bucket per distance bit
    index 0..159. */
module Routing {
  import opened Types
  import opened Buckets

  type Table = map<int, Bucket>

  /** Every bit index 0..159 has a bucket, so a non-negative bucket index
      never reaches the "routing table not exist" panic. */
  ghost predicate Complete(t: Table)
  {
    forall i :: 0 <= i < AddressBits ==> i in t
  }

  /** No bucket holds more than `BucketSize` contacts. */
  ghost predicate Bounded(t: Table)
  {
    forall i :: i in t ==> |t[i]| <= BucketSize
  }

  /** Within each bucket a peer appears at most once. */
  ghost predicate Distinct(t: Table)
  {
    forall i :: i in t ==> UniqueAddrs(t[i])
  }

  /** Each contact sits in the bucket of its distance from `self`. */
  ghost predicate Placed(t: Table, self: Addr, crypto: Crypto)
  {
    forall i, k :: i in t && 0 <= k < |t[i]| ==> crypto.bucketIndex(self, t[i][k].addr) == i
  }

  ghost predicate Valid(t: Table, self: Addr, crypto: Crypto)
  {
    Complete(t) && Bounded(t) && Distinct(t) && Placed(t, self, crypto)
  }

  /** The initialisation loop of `NewNode`: an empty bucket for every bit
      index below `AddressBits`. */
  method NewTable() returns (t: Table)
    ensures forall i :: i in t <==> 0 <= i < AddressBits
    ensures forall i :: i in t ==> t[i] == []
  {
    t := map[];
    var i := 0;
    while i < AddressBits
      invariant 0 <= i <= AddressBits
      invariant forall j :: j in t <==> 0 <= j < i
      invariant forall j :: j in t ==> t[j] == []
    {
      t := t[i := []];
      i := i + 1;
    }
  }

  /** A freshly built table satisfies every table invariant, whatever the
      node's address. */
  lemma NewTableValid(t: Table, self: Addr, crypto: Crypto)
    requires forall i :: i in t <==> 0 <= i < AddressBits
    requires forall i :: i in t ==> t[i] == []
    ensures Valid(t, self, crypto)
  {
  }

  /** `updateRoutingTable`: on a collision (negative bucket index) the table
      is unchanged; otherwise only the bucket of the contact's distance is
      touched. */
  function Update(t: Table, self: Addr, a: Addr, nAddr: Bytes, now: Timestamp, crypto: Crypto): (r: Table)
    requires Complete(t)
    ensures r.Keys == t.Keys
    ensures crypto.bucketIndex(self, a) < 0 ==> r == t
    ensures forall j :: j in t && j != crypto.bucketIndex(self, a) ==> r[j] == t[j]
    ensures crypto.bucketIndex(self, a) >= 0 ==> HasAddr(r[crypto.bucketIndex(self, a)], a)
    ensures Bounded(t) ==> Bounded(r)
  {
    var idx := crypto.bucketIndex(self, a);
    if idx < 0 then t
    else t[idx := Touch(t[idx], a, nAddr, now)]
  }

  /** The updated bucket is the one `Touch` describes (move-to-tail,
      append, or evict-head). */
  lemma UpdateBucket(t: Table, self: Addr, a: Addr, nAddr: Bytes, now: Timestamp, crypto: Crypto)
    requires Complete(t) && crypto.bucketIndex(self, a) >= 0
    ensures Update(t, self, a, nAddr, now, crypto)[crypto.bucketIndex(self, a)]
         == Touch(t[crypto.bucketIndex(self, a)], a, nAddr, now)
  {
  }

  /** Updating keeps every table invariant. */
  lemma UpdateValid(t: Table, self: Addr, a: Addr, nAddr: Bytes, now: Timestamp, crypto: Crypto)
    requires Valid(t, self, crypto)
    ensures Valid(Update(t, self, a, nAddr, now, crypto), self, crypto)
  {
    var idx := crypto.bucketIndex(self, a);
    if idx >= 0 {
      var r: Table := Update(t, self, a, nAddr, now, crypto);
      var b: Bucket := t[idx];
      TouchUnique(b, a, nAddr, now);
      forall k | 0 <= k < |r[idx]|
        ensures crypto.bucketIndex(self, r[idx][k].addr) == idx
      {
        var x := r[idx][k].addr;
        if x != a {
          TouchAddrs(b, a, nAddr, now, x);
          var k' :| 0 <= k' < |b| && b[k'].addr == x;
        }
      }
    }
  }
}
