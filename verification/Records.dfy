/** The records of the core protocol (serialize/cp) as values, shared by every other module. */
module Records {

  type uint8 = x: int | 0 <= x < 0x100
  type uint16 = x: int | 0 <= x < 0x1_0000
  type uint32 = x: int | 0 <= x < 0x1_0000_0000
  type uint64 = x: int | 0 <= x < TWO_64
  type int64 = x: int | -0x8000_0000_0000_0000 <= x < 0x8000_0000_0000_0000

  type byte = uint8
  type Bytes = seq<byte>

  const TWO_32: nat := 0x1_0000_0000
  const TWO_63: nat := 0x8000_0000_0000_0000
  const TWO_64: nat := 0x1_0000_0000_0000_0000

  const HASH_LENGTH: nat := 32
  const PUB_KEY_LENGTH: nat := 33
  const CORE_PROTOCOL_V1: uint8 := 1

  /** The root of a block without evidence, the bytes of "EMPTY". */
  const EMPTY_EVIDENCE_ROOT: Bytes := [0x45, 0x4D, 0x50, 0x54, 0x59]

  datatype Option<+T> = None | Some(value: T)
  {
    predicate IsFailure() { None? }
    function PropagateFailure<U>(): Option<U> { None }
    function Extract(): T
      requires Some?
    {
      value
    }
  }

  datatype Evidence = Evidence(
    version: uint8, nonce: uint32, hash: Bytes, description: Bytes, pubKey: Bytes, sig: Bytes)

  datatype Header = Header(
    version: uint8, time: int64, nonce: uint32, target: uint32,
    lastHash: Bytes, miner: Bytes, root: Bytes)

  /** A block as the chain holds it: the header, its evidence and the hash of the
      marshalled header, which is computed once when the block is wrapped. */
  datatype Block = Block(hash: Bytes, header: Header, evds: seq<Evidence>)
  {
    predicate HasEmptyRoot() {
      header.root == EMPTY_EVIDENCE_ROOT
    }
  }

  /** The lengths the structural checks enforce: 32-byte hashes and 33-byte keys. */
  ghost predicate Sized(b: Block) {
    && |b.hash| == HASH_LENGTH
    && |b.header.miner| == PUB_KEY_LENGTH
    && (forall e | e in b.evds :: |e.hash| == HASH_LENGTH && |e.pubKey| == PUB_KEY_LENGTH)
  }

  /** Unsigned 64-bit subtraction, which wraps. */
  function Sub64(a: int, b: int): (r: uint64)
    ensures 0 <= b <= a < TWO_64 ==> r == a - b
    ensures 0 <= a < b < TWO_64 ==> r == a - b + TWO_64
  {
    (a - b) % TWO_64
  }

  /** Holds of everything. Predicates that are closed names mention it as a trigger, so that their
      definitions come into play only next to another mention of it. */
  ghost predicate Opened(key: int) {
    key == key
  }
}
