/** Basic types of a doogle node: addresses, peer contacts, certificates,
    stored items, RPC status codes, and the cryptographic collaborators the
    node consumes but does not define. */
module Types {

  /** Length in bytes of a doogle address (a SHA-1 digest). */
  const AddressLength: nat := 20

  /** Number of bits of a doogle address, and number of routing buckets. */
  const AddressBits: nat := 160

  /** Capacity of one routing bucket. */
  const BucketSize: nat := 20

  /** Number of contacts a FindNode reply selects from a large bucket. */
  const Alpha: nat := 3

  type byte = b: int | 0 <= b < 256

  /** A Go `[]byte` or `string`: an immutable sequence of bytes. */
  type Bytes = seq<byte>

  /** A `doogleAddress`: exactly twenty bytes. */
  type Addr = s: Bytes | |s| == AddressLength witness seq(AddressLength, _ => 0)

  /** Result of "most significant set bit of an XOR distance": a negative
      value signals an address collision, any other value is below
      `AddressBits` and so names a bucket of a fully initialised table. */
  type BitIndex = i: int | i < AddressBits

  /** The wire certificate field `Difficulty` is an `int32`. */
  type Int32 = x: int | -0x8000_0000 <= x < 0x8000_0000

  /** Unix time in seconds, as returned by `time.Now().UTC().Unix()`. */
  type Timestamp = int

  /** The page-rank value kept with an item. The node only copies it. */
  type Rank = real

  /** A routing-table entry (`nodeInfo`). */
  datatype Contact = Contact(addr: Addr, nAddr: Bytes, accessedAt: Timestamp)

  /** A peer as reported in a FindNode reply: address and network address. */
  datatype PeerInfo = PeerInfo(addr: Bytes, nAddr: Bytes)

  /** A `NodeCertificate` as it arrives over the wire; the address field may
      have any length. */
  datatype Certificate = Certificate(
    nAddr: Bytes,
    addr: Bytes,
    publicKey: Bytes,
    nonce: Bytes,
    difficulty: Int32)

  /** A stored crawled page (`item`). */
  datatype Item = Item(
    addr: Addr,
    url: Bytes,
    title: Bytes,
    description: Bytes,
    edges: seq<Addr>,
    localRank: Rank)

  /** The gRPC status codes the core can return. */
  datatype Code = InvalidArgument | Internal

  datatype Result<+T> = Ok(value: T) | Err(code: Code)

  /** The collaborators defined outside the modelled file, as total
      functions: `sha1.Sum`, `verifyAddress`, the bucket index
      `getMostSignificantBit(a.xor(b))`, `xor` itself, and
      `lessThanEqual` on XOR distances. */
  datatype Crypto = Crypto(
    hash: Bytes -> Addr,
    verifyAddress: (Addr, Bytes, Bytes, Bytes, int) -> bool,
    bucketIndex: (Addr, Addr) -> BitIndex,
    xor: (Addr, Addr) -> Addr,
    lessThanEqual: (Addr, Addr) -> bool)

  /** `copy(a[:], b)` into a `[20]byte`: the first twenty bytes of `b`,
      padded with zero bytes when `b` is shorter. */
  function CopyAddr(b: Bytes): (a: Addr)
    ensures forall i :: 0 <= i < AddressLength && i < |b| ==> a[i] == b[i]
    ensures forall i :: |b| <= i < AddressLength ==> a[i] == 0
  {
    if |b| >= AddressLength then b[..AddressLength]
    else b + seq(AddressLength - |b|, _ => 0)
  }

  /** Forgets the timestamp of a contact, as a FindNode reply does. */
  function Info(c: Contact): PeerInfo
  {
    PeerInfo(c.addr, c.nAddr)
  }

  function Infos(cs: seq<Contact>): seq<PeerInfo>
  {
    seq(|cs|, i requires 0 <= i < |cs| => Info(cs[i]))
  }
}
