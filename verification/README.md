# doogle node core in Dafny

A model of the in-memory state logic of a doogle node, the Kademlia-style
peer of a distributed web index (`node/node.go`). The node keeps a routing
table of 160 buckets (one per XOR-distance bit index), each bucket holding
up to 20 peer contacts ordered from least to most recently seen; an index
(`dht`) from an index key to the set of item addresses stored under it; and
an item store keyed by the hash of each page's URL.

Every RPC handler is modelled as one atomic step: a pure function from the
node's state and the request to the next state and the reply.

- `types.dfy` (`Types`): addresses (twenty bytes), contacts, certificates,
  items, status codes, the constants `alpha` = 3, `bucketSize` = 20,
  `addressLength` = 20 and `addressBits` = 160. It also holds `Crypto`, the
  collaborators whose code lives in files outside this model: `sha1.Sum`,
  `verifyAddress`, the bucket index `getMostSignificantBit(a.xor(b))`, `xor`
  and `lessThanEqual`. They are passed to every operation as total functions
  and are otherwise unconstrained.
- `bucket.dfy` (`Buckets`): `popAndAppend` and the per-bucket part of
  `updateRoutingTable`: move a known contact to the tail, append a new one
  while there is room, otherwise evict the head.
- `routing.dfy` (`Routing`): the routing-table initialisation loop of
  `NewNode`, `updateRoutingTable` over the whole table, and the table
  invariants it keeps.
- `sorting.dfy` (`Sorting`): the sorted copy that `FindNode` takes with
  `sort.Slice`, and the byte-wise lexicographic order of XOR distances.
- `node.dfy` (`Nodes`): the node state, `isValidSender`, `StoreItem` and
  `FindNode`, and the state invariant they preserve.

Modelling choices:

- The bucket index is a function into `BitIndex` (any integer below 160).
  A negative value means the address collides with the node's own. Every
  other value names a bucket, because the table built by `NewNode` has all
  of 0..159. So the "routing table not exist" panics in `updateRoutingTable`
  (node/node.go:141-144) and in `FindNode` (node/node.go:251-254) cannot be
  reached from a node built by `NewNode`.
- A contact that is already known keeps its old network address when it is
  refreshed. Only its timestamp changes (node/node.go:150-157).
- The collision error in `updateRoutingTable` is created and then discarded
  (node/node.go:137). The model therefore returns the unchanged table and no
  error.
- `FindNode` copies the requested address into a twenty-byte array. A longer
  address is truncated and a shorter one is padded with zero bytes
  (`Types.CopyAddr`).
- A bucket of exactly three contacts is sorted before it is returned
  (node/node.go:259).
- Go strings and byte slices are both `Bytes`. The clock (`time.Now`) is the
  `now` parameter.

## Model

| member | source | states |
|---|---|---|
| `Buckets.IndexOf` | node/node.go:150-151 | finds the first contact with the given address, or −1 exactly when no contact has it |
| `Buckets.PopAndAppend` | node/node.go:87-101 | the length is unchanged, `ni` is last, and every other slot holds the old contact before `idx` or the old contact one place later from `idx` on |
| `Buckets.PopAndAppendLoop` | node/node.go:88-101 | the slot-by-slot array rebuild produces exactly the pop-and-append result |
| `Buckets.PopAndAppendMultiset` | node/node.go:88-101 | the result holds the old contents with one copy of `b[idx]` swapped for `ni` |
| `Buckets.Touch` | node/node.go:150-171 | a bucket of at most 20 contacts stays within 20, and the touched address is at the tail with timestamp `now` |
| `Buckets.TouchKnown` | node/node.go:150-158 | a known address keeps the length the same; that contact is moved to the tail with a refreshed timestamp; the others keep their relative order |
| `Buckets.TouchNewRoom` | node/node.go:161-168 | a new address in a bucket with room is appended, so the length grows by one |
| `Buckets.TouchNewFull` | node/node.go:161-171 | a new address in a full bucket evicts the head and goes at the tail, and the length stays at 20 |
| `Buckets.TouchRecency` | node/node.go:150-171 | a bucket ordered from least to most recently seen stays so ordered when touched at a time no earlier than its contacts', so a full bucket evicts its least recently seen contact |
| `Buckets.TouchUnique` | node/node.go:150-171 | if addresses in a bucket are distinct before the update, they are still distinct after it |
| `Buckets.TouchAddrs` | node/node.go:150-171 | no address other than the touched one appears; every old address survives unless it was the head evicted from a full bucket |
| `Routing.NewTable` | node/node.go:431-436 | the initialised table has a bucket for exactly the bit indices 0..159, and every bucket is empty |
| `Routing.NewTableValid` | node/node.go:431-436 | a freshly initialised table satisfies every table invariant |
| `Routing.Update` | node/node.go:134-172 | on a collision the table is unchanged; otherwise only the bucket at the contact's index changes, and it then holds the contact; the 20-contact bound is kept |
| `Routing.UpdateBucket` | node/node.go:141-171 | the changed bucket is the move-to-tail / append / evict-head result |
| `Routing.UpdateValid` | node/node.go:134-172 | the update keeps the table complete and bounded, keeps addresses distinct within a bucket, and keeps each contact in the bucket of its own distance |
| `Sorting.InsertBy` | node/node.go:275-277 | inserting adds exactly one element to the multiset |
| `Sorting.InsertBySorted` | node/node.go:275-277 | under a total preorder, inserting into a sorted sequence keeps it sorted |
| `Sorting.SortBy` | node/node.go:272-277 | the sorted copy is a permutation of the bucket |
| `Sorting.SortBySorted` | node/node.go:275-277 | under a total preorder, the sorted copy is in ascending order by distance |
| `Sorting.PrefixOfSorted` | node/node.go:279-285 | the first `n` elements of a sorted permutation come from the input, and none of them is farther than any element left out |
| `Sorting.SortByPrefix` | node/node.go:272-285 | the first `n` of the sorted copy come from the bucket; under a total preorder they are sorted and none is farther than any contact left out |
| `Sorting.LexLeqIsTotalPreorder` | node/node.go:276 | byte-wise lexicographic order on twenty-byte distances is total and transitive, so the ordering assumption can be met |
| `Types.CopyAddr` | node/node.go:243-244 | copying into a twenty-byte address keeps the leading bytes and pads a short input with zeros |
| `Nodes.NewNode` | node/node.go:431-446 | a new node has its own address and difficulty, empty buckets for 0..159, empty stores, and satisfies the state invariant |
| `Nodes.IsValidSender` | node/node.go:108-131 | a short address, a difficulty below the node's own, or a failing `verifyAddress` gives false with the state unchanged; true happens exactly when all three checks pass, and then only the routing table is updated, with the certificate's address and network address |
| `Nodes.SenderRecorded` | node/node.go:118-128 | after an accepted certificate the sender's address is in the bucket of its distance, unless it collides |
| `Nodes.IsValidSenderValid` | node/node.go:108-131 | sender admission keeps the state invariant |
| `Nodes.AddAddress` | node/node.go:214-223 | the entry gains the address if it lacks it and is otherwise unchanged; the address then occurs once, and duplicate-freedom is kept |
| `Nodes.StoreItem` | node/node.go:174-232 | a rejected certificate gives InvalidArgument and changes nothing. Otherwise only the entry of `hash(index)` changes: it gains `hash(url)` when absent and grows by at most one. Only the item at `hash(url)` changes: it gets the request's url, title, description and hashed edges, and keeps the previous rank (0 for a new item) |
| `Nodes.StoreItemValid` | node/node.go:174-232 | storing keeps the state invariant |
| `Nodes.StoreItemOnce` | node/node.go:211-223 | on a valid node, `hash(url)` occurs exactly once in the index entry after an accepted store |
| `Nodes.StoreItemIdempotent` | node/node.go:200-229 | repeating an accepted store of the same url under the same index leaves the index unchanged, and the item's rank is unchanged |
| `Nodes.Closest` | node/node.go:272-287 | picks exactly `alpha` contacts from the bucket (as a sub-multiset); under a total preorder they are in ascending distance and none is farther from the target than any contact left out |
| `Nodes.FindNode` | node/node.go:238-288 | a rejected certificate gives InvalidArgument with no change; a collision gives Internal. A bucket of fewer than 3 contacts is returned whole and in order; otherwise exactly 3 closest contacts are returned. The only state change is the sender's routing refresh, so the bucket is not reordered |
| `Nodes.FindNodeFromBucket` | node/node.go:259-287 | every peer in a FindNode reply is a contact of the bucket that was read |
| `Nodes.FindNodeValid` | node/node.go:238-288 | FindNode keeps the state invariant |

## Left out

- `PostUrl`, `PingTo`, `Ping`, `PingWithCertificate` (node/node.go:341-423): these are crawler calls, gRPC dialing and goroutine fan-out. They are network and concurrency plumbing with no state logic of their own beyond `isValidSender`.
- `findNode` (node/node.go:290-335): the local iterative lookup is unfinished. It indexes its `alpha`-long result slice with the outer round counter, which overruns after three rounds (node/node.go:312), and it always returns `nil, nil` (node/node.go:334).
- `FindIndex` and `GetIndex` (node/node.go:234-236, node/node.go:337-339): these are stubs with no behaviour.
- Key generation and the proof-of-work puzzle in `NewNode` (node/node.go:426-429, node/node.go:448-460): the puzzle solver `newNodeAddress` is not part of this model. The node's address is a parameter of `Nodes.NewNode`.
- A request with no certificate is not modelled. A certificate is a nested protobuf message, so it is nil when the field is unset. `isValidSender` then dereferences it at node/node.go:111 and the handler panics instead of returning InvalidArgument. This affects `StoreItem` (node/node.go:175) and `FindNode` (node/node.go:239). The model's requests always carry a certificate.
- The type-assertion failure in `StoreItem` (node/node.go:206-209) cannot occur: the index only ever holds `dhtValue`s. It is not modelled.
- Concurrency: each bucket and each index entry has its own `sync.Mutex`, and the index and item store use `sync.Map` get-or-create. Each handler is modelled as one atomic step.
- `sha1.Sum`, `verifyAddress`, `xor`, `getMostSignificantBit` and `lessThanEqual` are defined in files that are not part of this model. They are the unconstrained fields of `Crypto`. The only exception is the bucket index, whose type (below 160) is the sole assumption made about it.
- `localRank` is a `float64` that the core only copies. It is modelled as a `real`, and a new item gets 0.
- `Nodes.Closest`: its ordering guarantees hold only when `lessThanEqual` is a total preorder. `Sorting.LexLeqIsTotalPreorder` shows that the byte-wise order described for XOR distances is one. `sort.Slice` is not stable, so among contacts at equal distance it may pick differently from the insertion sort used here. The contract states only what holds for any such choice: `alpha` contacts from the bucket, none farther than one left out.
- Logging, `main.go` (flags, listener, signals) and `node/node_test.go` are not modelled. The tests no longer match the code: they call `isValidSender` with five arguments and expect "Pong", whereas the code returns "pong".
