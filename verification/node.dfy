/** The in-memory state of a doogle node and the RPC handlers that change
    it, each handler taken as one atomic step. */
module Nodes {
  import opened Types
  import opened Buckets
  import opened Routing
  import opened Sorting

  /** A node: its own address, its admission difficulty, the routing table,
      the index (`dht`, index key to item addresses) and the item store. */
  datatype Node = Node(
    self: Addr,
    difficulty: int,
    table: Table,
    dht: map<Addr, seq<Addr>>,
    items: map<Addr, Item>)

  /** What a handler leaves behind: the node's next state and its reply. */
  datatype Reply<T> = Reply(node: Node, result: T)

  datatype StoreRequest = StoreRequest(
    certificate: Certificate,
    url: Bytes,
    index: Bytes,
    title: Bytes,
    description: Bytes,
    edges: seq<Bytes>)

  ghost predicate NoDup<T>(s: seq<T>)
  {
    forall i, j :: 0 <= i < j < |s| ==> s[i] != s[j]
  }

  /** The state invariant: a valid routing table, index entries without
      duplicates that point only at stored items, and items keyed by their
      own address. */
  ghost predicate Valid(n: Node, crypto: Crypto)
  {
    && Routing.Valid(n.table, n.self, crypto)
    && (forall k :: k in n.dht ==> NoDup(n.dht[k]))
    && (forall k, j :: k in n.dht && 0 <= j < |n.dht[k]| ==> n.dht[k][j] in n.items)
    && (forall a :: a in n.items ==> n.items[a].addr == a)
  }

  /** The state part of `NewNode`: the given address (found by the puzzle),
      the given difficulty, a bucket for every bit index, and empty stores. */
  method NewNode(self: Addr, difficulty: int, crypto: Crypto) returns (n: Node)
    ensures n.self == self && n.difficulty == difficulty
    ensures forall i :: i in n.table <==> 0 <= i < AddressBits
    ensures forall i :: i in n.table ==> n.table[i] == []
    ensures n.dht == map[] && n.items == map[]
    ensures Valid(n, crypto)
  {
    var t := NewTable();
    NewTableValid(t, self, crypto);
    n := Node(self, difficulty, t, map[], map[]);
  }

  /** The certificate checks of `isValidSender`, separated from the routing
      refresh they trigger. */
  predicate Admits(n: Node, ct: Certificate, crypto: Crypto)
  {
    && |ct.addr| >= AddressLength
    && ct.difficulty >= n.difficulty
    && crypto.verifyAddress(CopyAddr(ct.addr), ct.nAddr, ct.publicKey, ct.nonce, ct.difficulty)
  }

  /** `isValidSender`: a certificate with a short address, a difficulty
      below the node's own, or a failing proof of work is refused and
      nothing changes; an accepted one refreshes the routing table with the
      sender's address and network address. */
  function IsValidSender(n: Node, ct: Certificate, now: Timestamp, crypto: Crypto): (r: Reply<bool>)
    requires Complete(n.table)
    ensures |ct.addr| < AddressLength ==> r == Reply(n, false)
    ensures ct.difficulty < n.difficulty ==> r == Reply(n, false)
    ensures |ct.addr| >= AddressLength
         && !crypto.verifyAddress(CopyAddr(ct.addr), ct.nAddr, ct.publicKey, ct.nonce, ct.difficulty)
         ==> r == Reply(n, false)
    ensures r.result <==> Admits(n, ct, crypto)
    ensures r.result ==>
      r.node == n.(table := Update(n.table, n.self, CopyAddr(ct.addr), ct.nAddr, now, crypto))
    ensures r.node.table.Keys == n.table.Keys
  {
    if |ct.addr| < AddressLength || ct.difficulty < n.difficulty then Reply(n, false)
    else
      var da := CopyAddr(ct.addr);
      if crypto.verifyAddress(da, ct.nAddr, ct.publicKey, ct.nonce, ct.difficulty) then
        Reply(n.(table := Update(n.table, n.self, da, ct.nAddr, now, crypto)), true)
      else Reply(n, false)
  }

  /** An accepted sender is in the routing table afterwards, unless its
      address collides with the node's own. */
  lemma SenderRecorded(n: Node, ct: Certificate, now: Timestamp, crypto: Crypto)
    requires Complete(n.table) && Admits(n, ct, crypto)
    ensures var idx := crypto.bucketIndex(n.self, CopyAddr(ct.addr));
      idx >= 0 ==> HasAddr(IsValidSender(n, ct, now, crypto).node.table[idx], CopyAddr(ct.addr))
  {
  }

  /** Admission keeps the state invariant. */
  lemma IsValidSenderValid(n: Node, ct: Certificate, now: Timestamp, crypto: Crypto)
    requires Valid(n, crypto)
    ensures Valid(IsValidSender(n, ct, now, crypto).node, crypto)
  {
    if Admits(n, ct, crypto) {
      UpdateValid(n.table, n.self, CopyAddr(ct.addr), ct.nAddr, now, crypto);
    }
  }

  /** The index entry for `key`, empty when the key has never been stored. */
  function Entry(dht: map<Addr, seq<Addr>>, key: Addr): seq<Addr>
  {
    if key in dht then dht[key] else []
  }

  /** Set insertion into an index entry: append unless already present. */
  function AddAddress(entry: seq<Addr>, a: Addr): (r: seq<Addr>)
    ensures a in r
    ensures forall x :: x in r <==> x in entry || x == a
    ensures a in entry ==> r == entry
    ensures a !in entry ==> |r| == |entry| + 1 && r[..|entry|] == entry
    ensures multiset(r)[a] == if a in entry then multiset(entry)[a] else 1
    ensures NoDup(entry) ==> NoDup(r)
  {
    if a in entry then entry else entry + [a]
  }

  /** The addresses of the outgoing links: `sha1.Sum` of each raw edge. */
  function HashEdges(edges: seq<Bytes>, crypto: Crypto): seq<Addr>
  {
    var s := seq(|edges|, i requires 0 <= i < |edges| => crypto.hash(edges[i]));
    assert forall i :: 0 <= i < |s| ==> s[i] == crypto.hash(edges[i]);
    s
  }

  /** `StoreItem`: refused with InvalidArgument (and no change) for a
      certificate `isValidSender` rejects; otherwise the item address
      `hash(url)` is added to the entry of `hash(index)` if absent, and the
      item is upserted carrying any previous rank forward. */
  function StoreItem(n: Node, req: StoreRequest, now: Timestamp, crypto: Crypto): (r: Reply<Result<()>>)
    requires Complete(n.table)
    ensures !Admits(n, req.certificate, crypto) ==> r == Reply(n, Err(InvalidArgument))
    ensures Admits(n, req.certificate, crypto) ==>
      var ia := crypto.hash(req.url);
      var key := crypto.hash(req.index);
      && r.result == Ok(())
      && r.node.table == IsValidSender(n, req.certificate, now, crypto).node.table
      && r.node.self == n.self && r.node.difficulty == n.difficulty
      // the index: only the entry of `key` changes, and it gains `ia` once
      && r.node.dht.Keys == n.dht.Keys + {key}
      && (forall k :: k in n.dht && k != key ==> r.node.dht[k] == n.dht[k])
      && ia in r.node.dht[key]
      && (forall x :: x in r.node.dht[key] <==> x in Entry(n.dht, key) || x == ia)
      && (ia in Entry(n.dht, key) ==> r.node.dht[key] == Entry(n.dht, key))
      && |r.node.dht[key]| <= |Entry(n.dht, key)| + 1
      // the items: only `ia` changes; the request's fields, the old rank
      && r.node.items.Keys == n.items.Keys + {ia}
      && (forall a :: a in n.items && a != ia ==> r.node.items[a] == n.items[a])
      && r.node.items[ia].addr == ia
      && r.node.items[ia].url == req.url
      && r.node.items[ia].title == req.title
      && r.node.items[ia].description == req.description
      && r.node.items[ia].edges == HashEdges(req.edges, crypto)
      && r.node.items[ia].localRank == (if ia in n.items then n.items[ia].localRank else 0.0)
  {
    var s := IsValidSender(n, req.certificate, now, crypto);
    if !s.result then Reply(s.node, Err(InvalidArgument))
    else
      var itemAddr := crypto.hash(req.url);
      var idxAddr := crypto.hash(req.index);
      var entry := AddAddress(Entry(n.dht, idxAddr), itemAddr);
      var rank := if itemAddr in n.items then n.items[itemAddr].localRank else 0.0;
      var it := Item(itemAddr, req.url, req.title, req.description, HashEdges(req.edges, crypto), rank);
      Reply(s.node.(dht := n.dht[idxAddr := entry], items := n.items[itemAddr := it]), Ok(()))
  }

  /** Storing keeps the state invariant. */
  lemma StoreItemValid(n: Node, req: StoreRequest, now: Timestamp, crypto: Crypto)
    requires Valid(n, crypto)
    ensures Valid(StoreItem(n, req, now, crypto).node, crypto)
  {
    IsValidSenderValid(n, req.certificate, now, crypto);
    var r := StoreItem(n, req, now, crypto).node;
    if Admits(n, req.certificate, crypto) {
      var key := crypto.hash(req.index);
      var ia := crypto.hash(req.url);
      var old_entry := Entry(n.dht, key);
      assert NoDup(old_entry);
      forall k, j | k in r.dht && 0 <= j < |r.dht[k]|
        ensures r.dht[k][j] in r.items
      {
        if k == key {
          assert r.dht[k][j] in old_entry || r.dht[k][j] == ia;
        }
      }
    }
  }

  /** On a valid node an accepted store leaves the item address exactly once
      in the index entry. */
  lemma StoreItemOnce(n: Node, req: StoreRequest, now: Timestamp, crypto: Crypto)
    requires Valid(n, crypto) && Admits(n, req.certificate, crypto)
    ensures multiset(StoreItem(n, req, now, crypto).node.dht[crypto.hash(req.index)])[crypto.hash(req.url)] == 1
  {
    var key := crypto.hash(req.index);
    var ia := crypto.hash(req.url);
    var e := Entry(n.dht, key);
    assert NoDup(e);
    if ia in e {
      var i :| 0 <= i < |e| && e[i] == ia;
      assert e == e[..i] + [ia] + e[i + 1..];
      assert ia !in e[..i] && ia !in e[i + 1..] by {
        forall j | 0 <= j < |e| && j != i ensures e[j] != ia { }
      }
    }
  }

  /** Repeating an accepted store of the same url under the same index does
      not change the index again, and the item keeps the rank it had after
      the first store even when title or description change. */
  lemma StoreItemIdempotent(n: Node, req: StoreRequest, req': StoreRequest, now: Timestamp, now': Timestamp, crypto: Crypto)
    requires Complete(n.table) && Admits(n, req.certificate, crypto)
    requires req'.url == req.url && req'.index == req.index
    ensures var r := StoreItem(n, req, now, crypto).node;
      var r' := StoreItem(r, req', now', crypto).node;
      && r'.dht == r.dht
      && r'.items[crypto.hash(req.url)].localRank == r.items[crypto.hash(req.url)].localRank
  {
  }

  /** The sort key of FindNode: the XOR distance of a contact to `target`. */
  function DistanceTo(crypto: Crypto, target: Addr): Contact -> Addr
  {
    (c: Contact) => crypto.xor(c.addr, target)
  }

  /** The `alpha` contacts of a bucket closest to `target`: the first
      `Alpha` of a sorted copy. They come from the bucket, are in ascending
      distance, and none is farther than a contact left out, when
      `lessThanEqual` is a total preorder. */
  function Closest(b: Bucket, target: Addr, crypto: Crypto): (r: seq<Contact>)
    requires |b| >= Alpha
    ensures |r| == Alpha
    ensures multiset(r) <= multiset(b)
    ensures TotalPreorder(crypto.lessThanEqual) ==> SortedBy(r, DistanceTo(crypto, target), crypto.lessThanEqual)
    ensures TotalPreorder(crypto.lessThanEqual) ==>
      forall x, y :: x in r && y in multiset(b) - multiset(r) ==>
        crypto.lessThanEqual(DistanceTo(crypto, target)(x), DistanceTo(crypto, target)(y))
  {
    var sorted := SortBy(b, DistanceTo(crypto, target), crypto.lessThanEqual);
    SortByPrefix(b, Alpha, DistanceTo(crypto, target), crypto.lessThanEqual);
    sorted[..Alpha]
  }

  /** `FindNode`: after admitting the sender, the bucket of the target's
      distance is read; a bucket with fewer than `Alpha` contacts is
      returned whole and in order, a larger one yields its `Alpha` closest
      contacts. The bucket itself is never reordered. */
  function FindNode(n: Node, ct: Certificate, target: Bytes, now: Timestamp, crypto: Crypto)
    : (r: Reply<Result<seq<PeerInfo>>>)
    requires Complete(n.table)
    ensures !Admits(n, ct, crypto) ==> r == Reply(n, Err(InvalidArgument))
    ensures Admits(n, ct, crypto) ==> r.node == IsValidSender(n, ct, now, crypto).node
    ensures Admits(n, ct, crypto) && crypto.bucketIndex(n.self, CopyAddr(target)) < 0 ==>
      r.result == Err(Internal)
    ensures Admits(n, ct, crypto) && crypto.bucketIndex(n.self, CopyAddr(target)) >= 0 ==>
      var b := r.node.table[crypto.bucketIndex(n.self, CopyAddr(target))];
      && r.result.Ok?
      && (|b| < Alpha ==> r.result.value == Infos(b))
      && (|b| >= Alpha ==>
            |r.result.value| == Alpha && r.result.value == Infos(Closest(b, CopyAddr(target), crypto)))
  {
    var s := IsValidSender(n, ct, now, crypto);
    if !s.result then Reply(s.node, Err(InvalidArgument))
    else
      var targetAddr := CopyAddr(target);
      var idx := crypto.bucketIndex(n.self, targetAddr);
      if idx < 0 then Reply(s.node, Err(Internal))
      else
        var b := s.node.table[idx];
        if |b| < Alpha then Reply(s.node, Ok(Infos(b)))
        else Reply(s.node, Ok(Infos(Closest(b, targetAddr, crypto))))
  }

  /** Every peer a FindNode reply names is a contact of the bucket read. */
  lemma FindNodeFromBucket(n: Node, ct: Certificate, target: Bytes, now: Timestamp, crypto: Crypto)
    requires Complete(n.table) && Admits(n, ct, crypto)
    requires crypto.bucketIndex(n.self, CopyAddr(target)) >= 0
    ensures var r := FindNode(n, ct, target, now, crypto);
      var b := r.node.table[crypto.bucketIndex(n.self, CopyAddr(target))];
      forall p :: p in r.result.value ==> p in Infos(b)
  {
    var r := FindNode(n, ct, target, now, crypto);
    var b := r.node.table[crypto.bucketIndex(n.self, CopyAddr(target))];
    if |b| >= Alpha {
      var c := Closest(b, CopyAddr(target), crypto);
      forall p | p in r.result.value
        ensures p in Infos(b)
      {
        var i :| 0 <= i < |c| && p == Info(c[i]);
        assert c[i] in multiset(b);
        var j :| 0 <= j < |b| && b[j] == c[i];
        assert Infos(b)[j] == p;
      }
    }
  }

  /** FindNode keeps the state invariant. */
  lemma FindNodeValid(n: Node, ct: Certificate, target: Bytes, now: Timestamp, crypto: Crypto)
    requires Valid(n, crypto)
    ensures Valid(FindNode(n, ct, target, now, crypto).node, crypto)
  {
    IsValidSenderValid(n, ct, now, crypto);
  }
}
