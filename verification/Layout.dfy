/** Where each field of a header, a piece of evidence, a block, a response and a packet is on the
    wire (serialize/cp, p2p/transport). */
module Layout {
  import opened Records
  import opened BigEndian
  import opened Codec
  import TcpStream

  /** The bytes f are in m from `at` on. */
  ghost predicate Holds(m: Bytes, at: nat, f: Bytes) {
    at + |f| <= |m| && m[at..at + |f|] == f
  }

  /** A new field goes to the end and leaves the others where they are. */
  lemma {:induction false} Added(m: Bytes, f: Bytes)
    ensures Holds(m + f, |m|, f)
    ensures forall at: nat, g: Bytes | Holds(m, at, g) :: Holds(m + f, at, g)
  {
    forall at: nat, g: Bytes | Holds(m, at, g) ensures Holds(m + f, at, g) {
      assert (m + f)[at..at + |g|] == m[at..at + |g|];
    }
  }

  /** The length of some bytes as it is written, in one or two bytes. */
  ghost function LengthOf(b: Bytes, width: nat): Bytes {
    Put(|b| % (if width == 1 then 0x100 else 0x1_0000), width)
  }

  /** The length and then the bytes are there. */
  ghost predicate HoldsBytes(m: Bytes, at: nat, b: Bytes, width: nat) {
    Holds(m, at, LengthOf(b, width)) && Holds(m, at + width, b)
  }

  lemma {:induction false} AddedBytes(m: Bytes, b: Bytes, width: nat)
    requires 1 <= width <= 2
    ensures var w := m + PutBytes(b, width);
      && |w| == |m| + width + |b| && HoldsBytes(w, |m|, b, width)
      && (forall at: nat, g: Bytes | Holds(m, at, g) :: Holds(w, at, g))
      && (forall at: nat, c: Bytes, k: nat | HoldsBytes(m, at, c, k) :: HoldsBytes(w, at, c, k))
  {
    Widths();
    hide Put, Holds;
    assert m + PutBytes(b, width) == m + LengthOf(b, width) + b;
    Added(m, LengthOf(b, width));
    Added(m + LengthOf(b, width), b);
  }

  /** A header is version, time, nonce and target, and then the parent's hash, the miner and the root,
      each after its length in one byte. */
  lemma {:induction false} HeaderLayout(h: Header)
    ensures var m, l, k := MarshalHeader(h), |h.lastHash|, |h.miner|;
      && |m| == 20 + l + k + |h.root|
      && Holds(m, 0, Put(h.version, 1)) && Holds(m, 1, PutTime(h.time))
      && Holds(m, 9, Put(h.nonce, 4)) && Holds(m, 13, Put(h.target, 4))
      && HoldsBytes(m, 17, h.lastHash, 1) && HoldsBytes(m, 18 + l, h.miner, 1) && HoldsBytes(m, 19 + l + k, h.root, 1)
  {
    hide Put, PutTime, PutBytes, Holds, HoldsBytes;
    var m1, m2 := Put(h.version, 1), Put(h.version, 1) + PutTime(h.time);
    var m3, m4 := m2 + Put(h.nonce, 4), m2 + Put(h.nonce, 4) + Put(h.target, 4);
    var m5 := m4 + PutBytes(h.lastHash, 1);
    TimeLength(h.time);
    First(m1);
    Added(m1, PutTime(h.time));
    Added(m2, Put(h.nonce, 4));
    Added(m3, Put(h.target, 4));
    AddedBytes(m4, h.lastHash, 1);
    AddedBytes(m5, h.miner, 1);
    AddedBytes(m5 + PutBytes(h.miner, 1), h.root, 1);
  }

  lemma {:induction false} First(m: Bytes)
    ensures Holds(m, 0, m)
  {
  }

  lemma {:induction false} TimeLength(time: int64)
    ensures |PutTime(time)| == 8
  {
  }

  /** Evidence is version and nonce, and then the hash, the description, the key and the signature,
      each after its length; those of description and signature take two bytes. */
  lemma {:induction false} EvidenceLayout(e: Evidence)
    ensures var m, l, d, k := MarshalEvidence(e), |e.hash|, |e.description|, |e.pubKey|;
      && |m| == 11 + l + d + k + |e.sig|
      && Holds(m, 0, Put(e.version, 1)) && Holds(m, 1, Put(e.nonce, 4))
      && HoldsBytes(m, 5, e.hash, 1) && HoldsBytes(m, 6 + l, e.description, 2)
      && HoldsBytes(m, 8 + l + d, e.pubKey, 1) && HoldsBytes(m, 9 + l + d + k, e.sig, 2)
  {
    hide Put, PutBytes, Holds, HoldsBytes;
    var m1, m2 := Put(e.version, 1), Put(e.version, 1) + Put(e.nonce, 4);
    var m3 := m2 + PutBytes(e.hash, 1);
    var m4 := m3 + PutBytes(e.description, 2);
    First(m1);
    Added(m1, Put(e.nonce, 4));
    AddedBytes(m2, e.hash, 1);
    AddedBytes(m3, e.description, 2);
    AddedBytes(m4, e.pubKey, 1);
    AddedBytes(m4 + PutBytes(e.pubKey, 1), e.sig, 2);
  }

  /** A block is its header, the number of its evidence in two bytes and then the evidence in order. */
  lemma {:induction false} BlockLayout(b: WireBlock, i: nat)
    ensures var m, l := MarshalBlock(b), |MarshalHeader(b.header)|;
      && Holds(m, 0, MarshalHeader(b.header)) && Holds(m, l, Put(|b.evds| % 0x1_0000, 2))
      && (i < |b.evds| ==> Holds(m, l + 2 + |MarshalEvidences(b.evds[..i])|, MarshalEvidence(b.evds[i])))
  {
    hide Put, MarshalHeader, MarshalEvidence, Holds, MarshalEvidences;
    var h, n := MarshalHeader(b.header), Put(|b.evds| % 0x1_0000, 2);
    First(h);
    Added(h, n);
    Added(h + n, MarshalEvidences(b.evds));
    if i < |b.evds| { EvidencesLayout(h + n, b.evds, i); }
  }

  lemma {:induction false} EvidencesLayout(m: Bytes, es: seq<Evidence>, i: nat)
    requires i < |es|
    ensures Holds(m + MarshalEvidences(es), |m| + |MarshalEvidences(es[..i])|, MarshalEvidence(es[i]))
    decreases i
  {
    hide MarshalEvidence, Holds;
    var first, rest := MarshalEvidence(es[0]), MarshalEvidences(es[1..]);
    assert m + MarshalEvidences(es) == m + first + rest;
    if i == 0 {
      Added(m, first);
      Added(m + first, rest);
    } else {
      EvidencesLayout(m + first, es[1..], i - 1);
      assert es[..i][1..] == es[1..][..i - 1];
    }
  }

  /** A response is version, kind and reserved bytes, the number of its blocks and the blocks in order. */
  lemma {:induction false} ResponseLayout(r: BlockResponse, i: nat)
    ensures var m := MarshalResponse(r);
      && Holds(m, 0, Put(r.head.version, 1)) && Holds(m, 1, Put(r.head.kind, 1)) && Holds(m, 2, Put(r.head.reserved, 2))
      && Holds(m, 4, Put(|r.blocks| % 0x1_0000, 2))
      && (i < |r.blocks| ==> Holds(m, 6 + |MarshalBlocks(r.blocks[..i])|, MarshalBlock(r.blocks[i])))
  {
    hide Put, MarshalBlocks, MarshalBlock, Holds;
    var m1, m2 := Put(r.head.version, 1), Put(r.head.version, 1) + Put(r.head.kind, 1);
    var m3, n := m2 + Put(r.head.reserved, 2), Put(|r.blocks| % 0x1_0000, 2);
    First(m1);
    Added(m1, Put(r.head.kind, 1));
    Added(m2, Put(r.head.reserved, 2));
    Added(m3, n);
    Added(m3 + n, MarshalBlocks(r.blocks));
    if i < |r.blocks| { BlocksLayout(m3 + n, r.blocks, i); }
  }

  lemma {:induction false} BlocksLayout(m: Bytes, bs: seq<WireBlock>, i: nat)
    requires i < |bs|
    ensures Holds(m + MarshalBlocks(bs), |m| + |MarshalBlocks(bs[..i])|, MarshalBlock(bs[i]))
    decreases i
  {
    hide MarshalBlock, Holds;
    var first, rest := MarshalBlock(bs[0]), MarshalBlocks(bs[1..]);
    assert m + MarshalBlocks(bs) == m + first + rest;
    if i == 0 {
      Added(m, first);
      Added(m + first, rest);
    } else {
      BlocksLayout(m + first, bs[1..], i - 1);
      assert bs[..i][1..] == bs[1..][..i - 1];
    }
  }

  /** A packet is the length of its payload, the checksum, the protocol and the payload. */
  lemma {:induction false} PacketLayout(crc: Bytes -> uint32, payload: Bytes, protocol: uint8)
    ensures var m := TcpStream.Build(crc, payload, protocol);
      && |m| == 9 + |payload|
      && Holds(m, 0, Put(|payload| % TWO_32, 4)) && Holds(m, 4, Put(crc(payload), 4))
      && Holds(m, 8, Put(protocol, 1)) && Holds(m, 9, payload)
  {
    hide Put, Holds;
    var m1, m2 := Put(|payload| % TWO_32, 4), Put(|payload| % TWO_32, 4) + Put(crc(payload), 4);
    First(m1);
    Added(m1, Put(crc(payload), 4));
    Added(m2, Put(protocol, 1));
    Added(m2 + Put(protocol, 1), payload);
  }
}
