/** Proof-of-work values and the cache that patches the nonce in place
    (serialize/cp/pow_cache.go, block_header.go, evidence.go). */
module Pow {
  import opened Records
  import opened BigEndian
  import opened Codec

  const HEADER_NONCE_INDEX: nat := 9
  const EVIDENCE_NONCE_INDEX: nat := 1

  /** The hash of the bytes read as a number. */
  function Value(H: Bytes -> Bytes, marshalled: Bytes): nat {
    Get(H(marshalled))
  }

  function HeaderPow(H: Bytes -> Bytes, h: Header): nat {
    Value(H, MarshalHeader(h))
  }

  function EvidencePow(H: Bytes -> Bytes, e: Evidence): nat {
    Value(H, MarshalEvidence(e))
  }

  ghost function Patched(m: Bytes, index: nat, nonce: uint32): Bytes
    requires index + 4 <= |m|
  {
    m[..index] + Put(nonce, 4) + m[index + 4..]
  }

  lemma {:induction false} PatchMiddle(a: Bytes, m: Bytes, c: Bytes, nonce: uint32)
    requires |m| == 4
    ensures Patched(a + m + c, |a|, nonce) == a + Put(nonce, 4) + c
  {
    hide Put;
    assert (a + m + c)[..|a|] == a && (a + m + c)[|a| + 4..] == c;
  }

  lemma {:induction false} HeaderNonceAt(h: Header, nonce: uint32)
    ensures |MarshalHeader(h)| >= HEADER_NONCE_INDEX + 4
    ensures Patched(MarshalHeader(h), HEADER_NONCE_INDEX, nonce) == MarshalHeader(h.(nonce := nonce))
  {
    hide Put, PutBytes;
    var front := Put(h.version, 1) + PutTime(h.time);
    var t, l, m, r := Put(h.target, 4), PutBytes(h.lastHash, 1), PutBytes(h.miner, 1), PutBytes(h.root, 1);
    var back := t + (l + (m + r));
    forall n: uint32 ensures MarshalHeader(h.(nonce := n)) == front + Put(n, 4) + back {
      assert front + Put(n, 4) + t + l + m + r == front + Put(n, 4) + back;
    }
    assert h.(nonce := h.nonce) == h;
    PatchMiddle(front, Put(h.nonce, 4), back, nonce);
  }

  lemma {:induction false} EvidenceNonceAt(e: Evidence, nonce: uint32)
    ensures |MarshalEvidence(e)| >= EVIDENCE_NONCE_INDEX + 4
    ensures Patched(MarshalEvidence(e), EVIDENCE_NONCE_INDEX, nonce) == MarshalEvidence(e.(nonce := nonce))
  {
    hide Put, PutBytes;
    var v, h, d, k, s := Put(e.version, 1), PutBytes(e.hash, 1), PutBytes(e.description, 2), PutBytes(e.pubKey, 1),
        PutBytes(e.sig, 2);
    var back := h + (d + (k + s));
    forall n: uint32 ensures MarshalEvidence(e.(nonce := n)) == v + Put(n, 4) + back {
      assert v + Put(n, 4) + h + d + k + s == v + Put(n, 4) + back;
    }
    assert e.(nonce := e.nonce) == e;
    PatchMiddle(v, Put(e.nonce, 4), back, nonce);
  }

  /** The bytes of the last marshalling and their value. */
  class PowCache {
    var bytes: array<byte>
    var value: nat
    var cached: bool

    constructor ()
      ensures !cached && fresh(bytes)
    {
      bytes := new byte[0];
      value, cached := 0, false;
    }

    method SetCache(marshalled: Bytes, value: nat)
      modifies this
      ensures cached && fresh(bytes) && bytes[..] == marshalled && this.value == value
    {
      bytes := new byte[|marshalled|](i requires 0 <= i < |marshalled| => marshalled[i]);
      this.value, cached := value, true;
    }

    /** Overwrites the four bytes of the nonce and hashes again. */
    method Update(H: Bytes -> Bytes, nonce: uint32, index: nat) returns (pow: nat)
      requires index + 4 <= bytes.Length
      modifies this`value, bytes
      ensures bytes[..] == Patched(old(bytes[..]), index, nonce)
      ensures pow == value == Value(H, bytes[..])
    {
      var digits := Put(nonce, 4);
      for k := 0 to 4
        invariant bytes[..] == old(bytes[..index]) + digits[..k] + old(bytes[index + k..])
      {
        bytes[index + k] := digits[k];
      }
      assert digits[..4] == digits;
      value := Value(H, bytes[..]);
      pow := value;
    }
  }

  /** A header while it is mined. */
  class MinedHeader {
    var header: Header
    const cache: PowCache

    /** The cache is the header as it is now. */
    ghost predicate Fresh()
      reads this, cache, cache.bytes
    {
      cache.cached ==> cache.bytes[..] == MarshalHeader(header)
    }

    /** A copy of a header starts with an empty cache. */
    constructor (h: Header)
      ensures header == h && Fresh() && fresh(cache) && fresh(cache.bytes) && !cache.cached
    {
      header := h;
      cache := new PowCache();
    }

    /** The first call gives the value of the header itself, every later one that of the next
        nonce, as if it were marshalled and hashed from scratch. */
    method NextNonce(H: Bytes -> Bytes) returns (pow: nat)
      requires Fresh()
      modifies this, cache, cache.bytes
      ensures Fresh() && cache.cached && (cache.bytes == old(cache.bytes) || fresh(cache.bytes))
      ensures header ==
        if old(cache.cached) then old(header).(nonce := (old(header.nonce) + 1) % TWO_32) else old(header)
      ensures pow == HeaderPow(H, header)
    {
      hide MarshalHeader, Put, Get;
      if !cache.cached {
        pow := HeaderPow(H, header);
        cache.SetCache(MarshalHeader(header), pow);
        return;
      }
      ghost var h := header;
      header := header.(nonce := (header.nonce + 1) % TWO_32);
      HeaderNonceAt(h, header.nonce);
      pow := cache.Update(H, header.nonce, HEADER_NONCE_INDEX);
    }

    /** Setting another field leaves the cache behind: it stays right exactly if nothing was
        cached or nothing changed. */
    method SetTarget(target: uint32)
      requires Fresh()
      modifies this
      ensures header == old(header).(target := target)
      ensures Fresh() <==> !cache.cached || target == old(header.target)
    {
      hide MarshalHeader;
      TargetIsSeen(header, target);
      assert header.(target := header.target) == header;
      header := header.(target := target);
    }
  }

  lemma {:induction false} TargetIsSeen(h: Header, target: uint32)
    ensures MarshalHeader(h.(target := target)) == MarshalHeader(h) ==> target == h.target
  {
    hide Put, PutBytes, Get, PutTime;
    TargetAt(h);
    TargetAt(h.(target := target));
    Widths();
    GetPut(h.target, 4);
    GetPut(target, 4);
  }

  lemma {:induction false} TargetAt(h: Header)
    ensures |MarshalHeader(h)| >= 17 && MarshalHeader(h)[13..17] == Put(h.target, 4)
  {
    hide Put, PutBytes;
    var front := Put(h.version, 1) + PutTime(h.time) + Put(h.nonce, 4);
    var back := PutBytes(h.lastHash, 1) + PutBytes(h.miner, 1) + PutBytes(h.root, 1);
    assert MarshalHeader(h) == front + Put(h.target, 4) + back;
  }
}
