/** The wire format of evidence, headers, blocks and block responses (serialize/cp). */
module Codec {
  import opened Records
  import opened BigEndian

  /** A block on the wire; its hash is not sent. */
  datatype WireBlock = WireBlock(header: Header, evds: seq<Evidence>)

  datatype MessageHead = MessageHead(version: uint8, kind: uint8, reserved: uint16)

  datatype BlockResponse = BlockResponse(head: MessageHead, blocks: seq<WireBlock>)

  // ---- fields ----

  function GetUint(data: Bytes, width: nat): (r: Option<(nat, Bytes)>)
    ensures r.Some? ==> r.value.0 < Span(width)
  {
    if |data| < width then None
    else
      PutGet(data[..width]);
      Some((Get(data[..width]), data[width..]))
  }

  /** Bytes after their length; the length is cut to the width of its field. */
  function PutBytes(b: Bytes, width: nat): Bytes {
    Put(|b| % Span(width), width) + b
  }

  function GetBytes(data: Bytes, width: nat): Option<(Bytes, Bytes)> {
    var (n, rest) :- GetUint(data, width);
    if |rest| < n then None else Some((rest[..n], rest[n..]))
  }

  lemma {:induction false} UintExactly(data: Bytes, width: nat, n: nat, rest: Bytes)
    ensures GetUint(data, width) == Some((n, rest)) <==> n < Span(width) && data == Put(n, width) + rest
  {
    if |data| >= width {
      PutGet(data[..width]);
      assert data == data[..width] + data[width..];
    }
    if n < Span(width) && data == Put(n, width) + rest {
      GetPut(n, width);
      assert data[..width] == Put(n, width) && data[width..] == rest;
    }
  }

  lemma {:induction false} ShortLength(b: Bytes, width: nat, rest: Bytes)
    requires |b| < Span(width)
    ensures PutBytes(b, width) + rest == Put(|b|, width) + (b + rest)
  {
    hide Put, Span;
    assert |b| % Span(width) == |b|;
    assert Put(|b|, width) + b + rest == Put(|b|, width) + (b + rest);
  }

  lemma {:induction false} BytesRead(width: nat, b: Bytes, rest: Bytes)
    requires |b| < Span(width)
    ensures GetBytes(PutBytes(b, width) + rest, width) == Some((b, rest))
  {
    hide Put, Get, Span, PutBytes, GetUint;
    ShortLength(b, width, rest);
    UintExactly(PutBytes(b, width) + rest, width, |b|, b + rest);
    assert (b + rest)[..|b|] == b && (b + rest)[|b|..] == rest;
  }

  lemma {:induction false} BytesExactly(data: Bytes, width: nat, b: Bytes, rest: Bytes)
    ensures GetBytes(data, width) == Some((b, rest)) <==> |b| < Span(width) && data == PutBytes(b, width) + rest
  {
    hide Put, Get, Span, PutBytes, GetUint;
    if |b| < Span(width) { BytesRead(width, b, rest); }
    if GetBytes(data, width) == Some((b, rest)) {
      var (n, more) := GetUint(data, width).value;
      UintExactly(data, width, n, more);
      assert more == b + rest;
      ShortLength(b, width, rest);
    }
  }

  lemma {:induction false} Regroup(a: Bytes, b: Bytes, c: Bytes, d: Bytes, e: Bytes, f: Bytes, g: Bytes)
    ensures a + b + c + d + e + f + g == a + (b + (c + (d + (e + (f + g)))))
  {
    assert a + b + c + d + e + f + g == a + b + c + d + e + (f + g);
    assert a + b + c + d + e + (f + g) == a + b + c + d + (e + (f + g));
    assert a + b + c + d + (e + (f + g)) == a + b + c + (d + (e + (f + g)));
    assert a + b + c + (d + (e + (f + g))) == a + b + (c + (d + (e + (f + g))));
    assert a + b + (c + (d + (e + (f + g)))) == a + (b + (c + (d + (e + (f + g)))));
  }

  // ---- evidence ----

  function MarshalEvidence(e: Evidence): Bytes {
    Put(e.version, 1) + Put(e.nonce, 4) + PutBytes(e.hash, 1) + PutBytes(e.description, 2)
    + PutBytes(e.pubKey, 1) + PutBytes(e.sig, 2)
  }

  function ParseEvidence(data: Bytes): Option<(Evidence, Bytes)> {
    Widths();
    var (version, d1) :- GetUint(data, 1);
    var (nonce, d2) :- GetUint(d1, 4);
    var (hash, d3) :- GetBytes(d2, 1);
    var (description, d4) :- GetBytes(d3, 2);
    var (pubKey, d5) :- GetBytes(d4, 1);
    var (sig, rest) :- GetBytes(d5, 2);
    Some((Evidence(version, nonce, hash, description, pubKey, sig), rest))
  }

  /** The variable-length fields are within their length prefixes. */
  ghost predicate EvidenceFits(e: Evidence) {
    |e.hash| < 0x100 && |e.description| < 0x1_0000 && |e.pubKey| < 0x100 && |e.sig| < 0x1_0000
  }

  /** Reading back what was written gives the evidence and leaves the rest. */
  lemma {:induction false} EvidenceRead(e: Evidence, rest: Bytes)
    requires EvidenceFits(e)
    ensures ParseEvidence(MarshalEvidence(e) + rest) == Some((e, rest))
  {
    hide Put, Get, Span, PutBytes, GetUint, GetBytes;
    Widths();
    var v, n := Put(e.version, 1), Put(e.nonce, 4);
    var h, d, k, s := PutBytes(e.hash, 1), PutBytes(e.description, 2), PutBytes(e.pubKey, 1), PutBytes(e.sig, 2);
    Regroup(v, n, h, d, k, s, rest);
    UintExactly(MarshalEvidence(e) + rest, 1, e.version, n + (h + (d + (k + (s + rest)))));
    UintExactly(n + (h + (d + (k + (s + rest)))), 4, e.nonce, h + (d + (k + (s + rest))));
    BytesRead(1, e.hash, d + (k + (s + rest)));
    BytesRead(2, e.description, k + (s + rest));
    BytesRead(1, e.pubKey, s + rest);
    BytesRead(2, e.sig, rest);
  }

  /** Whatever can be read is a marshalled evidence followed by the rest. */
  lemma {:induction false} EvidenceExactly(data: Bytes, e: Evidence, rest: Bytes)
    ensures ParseEvidence(data) == Some((e, rest)) <==> EvidenceFits(e) && data == MarshalEvidence(e) + rest
  {
    hide Put, Get, Span, PutBytes, GetUint, GetBytes;
    if EvidenceFits(e) { EvidenceRead(e, rest); }
    if ParseEvidence(data) == Some((e, rest)) {
      Widths();
      var d1 := GetUint(data, 1).value.1;
      var d2 := GetUint(d1, 4).value.1;
      var d3 := GetBytes(d2, 1).value.1;
      var d4 := GetBytes(d3, 2).value.1;
      var d5 := GetBytes(d4, 1).value.1;
      assert GetBytes(d5, 2).value.1 == rest;
      assert GetBytes(d5, 2).value.0 == e.sig;
      UintExactly(data, 1, e.version, d1);
      UintExactly(d1, 4, e.nonce, d2);
      BytesExactly(d2, 1, e.hash, d3);
      BytesExactly(d3, 2, e.description, d4);
      BytesExactly(d4, 1, e.pubKey, d5);
      BytesExactly(d5, 2, e.sig, rest);
      Regroup(Put(e.version, 1), Put(e.nonce, 4), PutBytes(e.hash, 1), PutBytes(e.description, 2),
              PutBytes(e.pubKey, 1), PutBytes(e.sig, 2), rest);
    }
  }

  const EVIDENCE_BASIC_LEN: nat := 11

  function Size(e: Evidence): nat {
    EVIDENCE_BASIC_LEN + |e.hash| + |e.pubKey| + |e.description| + |e.sig|
  }

  /** Size is the length on the wire. */
  lemma {:induction false} SizeIsLength(e: Evidence)
    ensures Size(e) == |MarshalEvidence(e)|
  {
  }

  // ---- headers ----

  /** Two's complement in 64 bits. */
  function PutTime(time: int64): Bytes {
    Put(if time < 0 then time + TWO_64 else time, 8)
  }

  function GetTime(data: Bytes): Option<(int64, Bytes)> {
    Widths();
    var (n, rest) :- GetUint(data, 8);
    Some((if n < TWO_63 then n else n - TWO_64, rest))
  }

  lemma {:induction false} TimeExactly(data: Bytes, time: int64, rest: Bytes)
    ensures GetTime(data) == Some((time, rest)) <==> data == PutTime(time) + rest
  {
    hide Put, GetUint, Span;
    Widths();
    var n: nat := if time < 0 then time + TWO_64 else time;
    UintExactly(data, 8, n, rest);
  }

  function MarshalHeader(h: Header): Bytes {
    Put(h.version, 1) + PutTime(h.time) + Put(h.nonce, 4) + Put(h.target, 4)
    + PutBytes(h.lastHash, 1) + PutBytes(h.miner, 1) + PutBytes(h.root, 1)
  }

  function ParseHeader(data: Bytes): Option<(Header, Bytes)> {
    Widths();
    var (version, d1) :- GetUint(data, 1);
    var (time, d2) :- GetTime(d1);
    var (nonce, d3) :- GetUint(d2, 4);
    var (target, d4) :- GetUint(d3, 4);
    var (lastHash, d5) :- GetBytes(d4, 1);
    var (miner, d6) :- GetBytes(d5, 1);
    var (root, rest) :- GetBytes(d6, 1);
    Some((Header(version, time, nonce, target, lastHash, miner, root), rest))
  }

  ghost predicate HeaderFits(h: Header) {
    |h.lastHash| < 0x100 && |h.miner| < 0x100 && |h.root| < 0x100
  }

  lemma {:induction false} HeaderRead(h: Header, rest: Bytes)
    requires HeaderFits(h)
    ensures ParseHeader(MarshalHeader(h) + rest) == Some((h, rest))
  {
    hide Put, Get, Span, PutBytes, GetUint, GetBytes, PutTime, GetTime;
    Widths();
    var v, t, n, g := Put(h.version, 1), PutTime(h.time), Put(h.nonce, 4), Put(h.target, 4);
    var l, m, r := PutBytes(h.lastHash, 1), PutBytes(h.miner, 1), PutBytes(h.root, 1);
    var d4 := l + (m + (r + rest));
    Regroup(v + t, n, g, l, m, r, rest);
    assert (v + t) + (n + (g + d4)) == v + (t + (n + (g + d4)));
    UintExactly(MarshalHeader(h) + rest, 1, h.version, t + (n + (g + d4)));
    TimeExactly(t + (n + (g + d4)), h.time, n + (g + d4));
    UintExactly(n + (g + d4), 4, h.nonce, g + d4);
    UintExactly(g + d4, 4, h.target, d4);
    BytesRead(1, h.lastHash, m + (r + rest));
    BytesRead(1, h.miner, r + rest);
    BytesRead(1, h.root, rest);
  }

  lemma {:induction false} HeaderExactly(data: Bytes, h: Header, rest: Bytes)
    ensures ParseHeader(data) == Some((h, rest)) <==> HeaderFits(h) && data == MarshalHeader(h) + rest
  {
    hide Put, Get, Span, PutBytes, GetUint, GetBytes, PutTime, GetTime;
    if HeaderFits(h) { HeaderRead(h, rest); }
    if ParseHeader(data) == Some((h, rest)) {
      Widths();
      var d1 := GetUint(data, 1).value.1;
      var d2 := GetTime(d1).value.1;
      var d3 := GetUint(d2, 4).value.1;
      var d4 := GetUint(d3, 4).value.1;
      var d5 := GetBytes(d4, 1).value.1;
      var d6 := GetBytes(d5, 1).value.1;
      assert GetBytes(d6, 1).value.1 == rest;
      assert GetBytes(d6, 1).value.0 == h.root;
      UintExactly(data, 1, h.version, d1);
      TimeExactly(d1, h.time, d2);
      UintExactly(d2, 4, h.nonce, d3);
      UintExactly(d3, 4, h.target, d4);
      BytesExactly(d4, 1, h.lastHash, d5);
      BytesExactly(d5, 1, h.miner, d6);
      BytesExactly(d6, 1, h.root, rest);
      var v, t := Put(h.version, 1), PutTime(h.time);
      Regroup(v + t, Put(h.nonce, 4), Put(h.target, 4), PutBytes(h.lastHash, 1), PutBytes(h.miner, 1),
          PutBytes(h.root, 1), rest);
      assert (v + t) + d2 == v + (t + d2);
    }
  }

  // ---- lists of evidence and blocks ----

  function MarshalEvidences(es: seq<Evidence>): Bytes {
    if es == [] then [] else MarshalEvidence(es[0]) + MarshalEvidences(es[1..])
  }

  function ParseEvidences(data: Bytes, n: nat): Option<(seq<Evidence>, Bytes)>
    decreases n
  {
    if n == 0 then Some(([], data))
    else
      var (e, d) :- ParseEvidence(data);
      var (es, rest) :- ParseEvidences(d, n - 1);
      Some(([e] + es, rest))
  }

  ghost predicate EvidencesFit(es: seq<Evidence>) {
    forall e | e in es :: EvidenceFits(e)
  }

  lemma {:induction false} EvidencesExactly(data: Bytes, n: nat, es: seq<Evidence>, rest: Bytes)
    ensures ParseEvidences(data, n) == Some((es, rest)) <==>
      |es| == n && EvidencesFit(es) && data == MarshalEvidences(es) + rest
    decreases n
  {
    hide MarshalEvidence, ParseEvidence, EvidenceFits;
    if n == 0 {
      assert [] + rest == rest;
    } else {
      if |es| == n && EvidencesFit(es) && data == MarshalEvidences(es) + rest {
        var d := MarshalEvidences(es[1..]) + rest;
        assert data == MarshalEvidence(es[0]) + d;
        EvidenceExactly(data, es[0], d);
        EvidencesExactly(d, n - 1, es[1..], rest);
        assert es == [es[0]] + es[1..];
      }
      if ParseEvidences(data, n) == Some((es, rest)) {
        var (e, d) := ParseEvidence(data).value;
        var (tail, more) := ParseEvidences(d, n - 1).value;
        assert more == rest;
        assert es == [e] + tail && es[1..] == tail;
        EvidenceExactly(data, e, d);
        EvidencesExactly(d, n - 1, tail, rest);
        assert MarshalEvidence(e) + (MarshalEvidences(tail) + rest)
          == MarshalEvidence(e) + MarshalEvidences(tail) + rest;
      }
    }
  }

  function MarshalBlock(b: WireBlock): Bytes {
    MarshalHeader(b.header) + Put(|b.evds| % 0x1_0000, 2) + MarshalEvidences(b.evds)
  }

  function ParseBlock(data: Bytes): Option<(WireBlock, Bytes)> {
    var (h, d1) :- ParseHeader(data);
    var (n, d2) :- GetUint(d1, 2);
    var (es, rest) :- ParseEvidences(d2, n);
    Some((WireBlock(h, es), rest))
  }

  ghost predicate BlockFits(b: WireBlock) {
    HeaderFits(b.header) && |b.evds| < 0x1_0000 && EvidencesFit(b.evds)
  }

  lemma {:induction false} BlockExactly(data: Bytes, b: WireBlock, rest: Bytes)
    ensures ParseBlock(data) == Some((b, rest)) <==> BlockFits(b) && data == MarshalBlock(b) + rest
  {
    hide MarshalHeader, ParseHeader, HeaderFits, MarshalEvidences, ParseEvidences, EvidencesFit, Put, GetUint, Span;
    Widths();
    var h, n, es := MarshalHeader(b.header), Put(|b.evds| % 0x1_0000, 2), MarshalEvidences(b.evds);
    assert h + n + es + rest == h + (n + (es + rest));
    if BlockFits(b) && data == MarshalBlock(b) + rest {
      HeaderExactly(data, b.header, n + (es + rest));
      UintExactly(n + (es + rest), 2, |b.evds|, es + rest);
      EvidencesExactly(es + rest, |b.evds|, b.evds, rest);
    }
    if ParseBlock(data) == Some((b, rest)) {
      var d1 := ParseHeader(data).value.1;
      var (k, d2) := GetUint(d1, 2).value;
      HeaderExactly(data, b.header, d1);
      UintExactly(d1, 2, k, d2);
      assert ParseEvidences(d2, k).value.1 == rest;
      assert ParseEvidences(d2, k).value.0 == b.evds;
      EvidencesExactly(d2, k, b.evds, rest);
    }
  }

  function MarshalBlocks(bs: seq<WireBlock>): Bytes {
    if bs == [] then [] else MarshalBlock(bs[0]) + MarshalBlocks(bs[1..])
  }

  function ParseBlocks(data: Bytes, n: nat): Option<(seq<WireBlock>, Bytes)>
    decreases n
  {
    if n == 0 then Some(([], data))
    else
      var (b, d) :- ParseBlock(data);
      var (bs, rest) :- ParseBlocks(d, n - 1);
      Some(([b] + bs, rest))
  }

  ghost predicate BlocksFit(bs: seq<WireBlock>) {
    forall b | b in bs :: BlockFits(b)
  }

  lemma {:induction false} BlocksExactly(data: Bytes, n: nat, bs: seq<WireBlock>, rest: Bytes)
    ensures ParseBlocks(data, n) == Some((bs, rest)) <==> |bs| == n && BlocksFit(bs) && data == MarshalBlocks(bs) + rest
    decreases n
  {
    hide MarshalBlock, ParseBlock, BlockFits;
    if n == 0 {
      assert [] + rest == rest;
    } else {
      if |bs| == n && BlocksFit(bs) && data == MarshalBlocks(bs) + rest {
        var d := MarshalBlocks(bs[1..]) + rest;
        assert data == MarshalBlock(bs[0]) + d;
        BlockExactly(data, bs[0], d);
        BlocksExactly(d, n - 1, bs[1..], rest);
        assert bs == [bs[0]] + bs[1..];
      }
      if ParseBlocks(data, n) == Some((bs, rest)) {
        var (b, d) := ParseBlock(data).value;
        var (tail, more) := ParseBlocks(d, n - 1).value;
        assert more == rest;
        assert bs == [b] + tail && bs[1..] == tail;
        BlockExactly(data, b, d);
        BlocksExactly(d, n - 1, tail, rest);
        assert MarshalBlock(b) + (MarshalBlocks(tail) + rest) == MarshalBlock(b) + MarshalBlocks(tail) + rest;
      }
    }
  }

  // ---- block responses ----

  function MarshalHead(h: MessageHead): Bytes {
    Put(h.version, 1) + Put(h.kind, 1) + Put(h.reserved, 2)
  }

  function ParseHead(data: Bytes): Option<(MessageHead, Bytes)> {
    Widths();
    var (version, d1) :- GetUint(data, 1);
    var (kind, d2) :- GetUint(d1, 1);
    var (reserved, rest) :- GetUint(d2, 2);
    Some((MessageHead(version, kind, reserved), rest))
  }

  lemma {:induction false} HeadExactly(data: Bytes, h: MessageHead, rest: Bytes)
    ensures ParseHead(data) == Some((h, rest)) <==> data == MarshalHead(h) + rest
  {
    hide Put, GetUint, Span;
    Widths();
    var v, k, r := Put(h.version, 1), Put(h.kind, 1), Put(h.reserved, 2);
    assert v + k + r + rest == v + (k + (r + rest));
    if data == MarshalHead(h) + rest {
      UintExactly(data, 1, h.version, k + (r + rest));
      UintExactly(k + (r + rest), 1, h.kind, r + rest);
      UintExactly(r + rest, 2, h.reserved, rest);
    }
    if ParseHead(data) == Some((h, rest)) {
      var d1 := GetUint(data, 1).value.1;
      var d2 := GetUint(d1, 1).value.1;
      assert GetUint(d2, 2).value.1 == rest;
      assert GetUint(d2, 2).value.0 == h.reserved;
      UintExactly(data, 1, h.version, d1);
      UintExactly(d1, 1, h.kind, d2);
      UintExactly(d2, 2, h.reserved, rest);
    }
  }

  function MarshalResponse(r: BlockResponse): Bytes {
    MarshalHead(r.head) + Put(|r.blocks| % 0x1_0000, 2) + MarshalBlocks(r.blocks)
  }

  function ParseResponse(data: Bytes): Option<(BlockResponse, Bytes)> {
    var (h, d1) :- ParseHead(data);
    var (n, d2) :- GetUint(d1, 2);
    var (bs, rest) :- ParseBlocks(d2, n);
    Some((BlockResponse(h, bs), rest))
  }

  ghost predicate ResponseFits(r: BlockResponse) {
    |r.blocks| < 0x1_0000 && BlocksFit(r.blocks)
  }

  /** A response is read exactly from its own bytes, whatever follows them. */
  lemma {:induction false} ResponseExactly(data: Bytes, r: BlockResponse, rest: Bytes)
    ensures ParseResponse(data) == Some((r, rest)) <==> ResponseFits(r) && data == MarshalResponse(r) + rest
  {
    hide MarshalHead, ParseHead, MarshalBlocks, ParseBlocks, BlocksFit, Put, GetUint, Span;
    Widths();
    var h, n, bs := MarshalHead(r.head), Put(|r.blocks| % 0x1_0000, 2), MarshalBlocks(r.blocks);
    assert h + n + bs + rest == h + (n + (bs + rest));
    if ResponseFits(r) && data == MarshalResponse(r) + rest {
      HeadExactly(data, r.head, n + (bs + rest));
      UintExactly(n + (bs + rest), 2, |r.blocks|, bs + rest);
      BlocksExactly(bs + rest, |r.blocks|, r.blocks, rest);
    }
    if ParseResponse(data) == Some((r, rest)) {
      var d1 := ParseHead(data).value.1;
      var (k, d2) := GetUint(d1, 2).value;
      HeadExactly(data, r.head, d1);
      UintExactly(d1, 2, k, d2);
      assert ParseBlocks(d2, k).value.1 == rest;
      assert ParseBlocks(d2, k).value.0 == r.blocks;
      BlocksExactly(d2, k, r.blocks, rest);
    }
  }

  // ---- readers and buffers ----

  /** x is what the parse gives and data is what it leaves. */
  ghost predicate Reads<T>(parse: Option<(T, Bytes)>, x: Option<T>, data: Bytes) {
    parse == if x.None? then None else Some((x.value, data))
  }

  /** A stream of bytes that is consumed from the front; after a failed read nobody uses it. */
  class Reader {
    var data: Bytes

    constructor (data: Bytes)
      ensures this.data == data
    {
      this.data := data;
    }

    method ReadUint(width: nat) returns (n: Option<nat>)
      modifies this
      ensures Reads(GetUint(old(data), width), n, data)
    {
      if |data| < width { return None; }
      n := Some(Get(data[..width]));
      data := data[width..];
    }

    method ReadBytes(width: nat) returns (b: Option<Bytes>)
      modifies this
      ensures Reads(GetBytes(old(data), width), b, data)
    {
      var n :- ReadUint(width);
      if |data| < n { return None; }
      b := Some(data[..n]);
      data := data[n..];
    }
  }

  method UnmarshalEvidence(r: Reader) returns (e: Option<Evidence>)
    modifies r
    ensures Reads(ParseEvidence(old(r.data)), e, r.data)
  {
    hide GetUint, GetBytes, Span;
    Widths();
    var version :- r.ReadUint(1);
    var nonce :- r.ReadUint(4);
    var hash :- r.ReadBytes(1);
    var description :- r.ReadBytes(2);
    var pubKey :- r.ReadBytes(1);
    var sig :- r.ReadBytes(2);
    return Some(Evidence(version, nonce, hash, description, pubKey, sig));
  }

  method UnmarshalHeader(r: Reader) returns (h: Option<Header>)
    modifies r
    ensures Reads(ParseHeader(old(r.data)), h, r.data)
  {
    hide GetUint, GetBytes, Span;
    Widths();
    var version :- r.ReadUint(1);
    var time :- r.ReadUint(8);
    var nonce :- r.ReadUint(4);
    var target :- r.ReadUint(4);
    var lastHash :- r.ReadBytes(1);
    var miner :- r.ReadBytes(1);
    var root :- r.ReadBytes(1);
    return Some(Header(version, if time < TWO_63 then time else time - TWO_64, nonce, target, lastHash, miner, root));
  }

  /** A parse of a list whose first elements are known. */
  ghost function After<T>(front: seq<T>, parse: Option<(seq<T>, Bytes)>): Option<(seq<T>, Bytes)> {
    if parse.None? then None else Some((front + parse.value.0, parse.value.1))
  }

  lemma {:induction false} AfterMore<T>(front: seq<T>, x: T, parse: Option<(seq<T>, Bytes)>)
    ensures After(front + [x], parse) == After(front, After([x], parse))
  {
    if parse.Some? { assert front + [x] + parse.value.0 == front + ([x] + parse.value.0); }
  }

  lemma {:induction false} AfterNothing<T>(parse: Option<(seq<T>, Bytes)>)
    ensures After([], parse) == parse
  {
    if parse.Some? { assert [] + parse.value.0 == parse.value.0; }
  }

  /** Reading a list reads its first element and then the others. */
  lemma {:induction false} NextEvidence(data: Bytes, n: nat)
    ensures n == 0 ==> ParseEvidences(data, n) == Some(([], data))
    ensures n > 0 && ParseEvidence(data).None? ==> ParseEvidences(data, n).None?
    ensures n > 0 && ParseEvidence(data).Some? ==>
      ParseEvidences(data, n) == After([ParseEvidence(data).value.0],
          ParseEvidences(ParseEvidence(data).value.1, n - 1))
  {
    hide ParseEvidence;
  }

  lemma {:induction false} NextBlock(data: Bytes, n: nat)
    ensures n == 0 ==> ParseBlocks(data, n) == Some(([], data))
    ensures n > 0 && ParseBlock(data).None? ==> ParseBlocks(data, n).None?
    ensures n > 0 && ParseBlock(data).Some? ==>
      ParseBlocks(data, n) == After([ParseBlock(data).value.0], ParseBlocks(ParseBlock(data).value.1, n - 1))
  {
    hide ParseBlock;
  }

  method UnmarshalBlock(r: Reader) returns (b: Option<WireBlock>)
    modifies r
    ensures Reads(ParseBlock(old(r.data)), b, r.data)
  {
    hide ParseEvidence, ParseEvidences, ParseHeader, GetUint, Span;
    var header :- UnmarshalHeader(r);
    var n :- r.ReadUint(2);
    ghost var parse := ParseEvidences(r.data, n);
    var evds: seq<Evidence> := [];
    AfterNothing(parse);
    for i := 0 to n
      invariant parse == After(evds, ParseEvidences(r.data, n - i))
    {
      NextEvidence(r.data, n - i);
      var e :- UnmarshalEvidence(r);
      AfterMore(evds, e, ParseEvidences(r.data, n - i - 1));
      evds := evds + [e];
    }
    NextEvidence(r.data, 0);
    assert evds + [] == evds;
    return Some(WireBlock(header, evds));
  }

  method UnmarshalResponse(r: Reader) returns (b: Option<BlockResponse>)
    modifies r
    ensures Reads(ParseResponse(old(r.data)), b, r.data)
  {
    hide ParseBlock, ParseBlocks, GetUint, Span;
    Widths();
    var version :- r.ReadUint(1);
    var kind :- r.ReadUint(1);
    var reserved :- r.ReadUint(2);
    var n :- r.ReadUint(2);
    ghost var parse := ParseBlocks(r.data, n);
    var blocks: seq<WireBlock> := [];
    AfterNothing(parse);
    for i := 0 to n
      invariant parse == After(blocks, ParseBlocks(r.data, n - i))
    {
      NextBlock(r.data, n - i);
      var block :- UnmarshalBlock(r);
      AfterMore(blocks, block, ParseBlocks(r.data, n - i - 1));
      blocks := blocks + [block];
    }
    NextBlock(r.data, 0);
    assert blocks + [] == blocks;
    return Some(BlockResponse(MessageHead(version, kind, reserved), blocks));
  }

  lemma {:induction false} MarshalMore(es: seq<Evidence>, e: Evidence)
    ensures MarshalEvidences(es + [e]) == MarshalEvidences(es) + MarshalEvidence(e)
  {
    hide MarshalEvidence;
    if es == [] {
      assert [e][1..] == [] && MarshalEvidence(e) + [] == [] + MarshalEvidence(e);
    } else {
      MarshalMore(es[1..], e);
      assert (es + [e])[1..] == es[1..] + [e];
    }
  }

  method WriteBlock(b: WireBlock) returns (buf: Bytes)
    ensures buf == MarshalBlock(b)
  {
    hide MarshalEvidence, MarshalHeader, Put;
    var front := MarshalHeader(b.header) + Put(|b.evds| % 0x1_0000, 2);
    buf := front;
    for i := 0 to |b.evds|
      invariant buf == front + MarshalEvidences(b.evds[..i])
    {
      assert b.evds[..i + 1] == b.evds[..i] + [b.evds[i]];
      MarshalMore(b.evds[..i], b.evds[i]);
      buf := buf + MarshalEvidence(b.evds[i]);
    }
    assert b.evds[..|b.evds|] == b.evds;
  }

  lemma {:induction false} MarshalMoreBlocks(bs: seq<WireBlock>, b: WireBlock)
    ensures MarshalBlocks(bs + [b]) == MarshalBlocks(bs) + MarshalBlock(b)
  {
    hide MarshalBlock;
    if bs == [] {
      assert [b][1..] == [] && MarshalBlock(b) + [] == [] + MarshalBlock(b);
    } else {
      MarshalMoreBlocks(bs[1..], b);
      assert (bs + [b])[1..] == bs[1..] + [b];
    }
  }

  method WriteResponse(r: BlockResponse) returns (buf: Bytes)
    ensures buf == MarshalResponse(r)
  {
    hide MarshalBlock, MarshalHead, Put;
    var front := MarshalHead(r.head) + Put(|r.blocks| % 0x1_0000, 2);
    buf := front;
    for i := 0 to |r.blocks|
      invariant buf == front + MarshalBlocks(r.blocks[..i])
    {
      assert r.blocks[..i + 1] == r.blocks[..i] + [r.blocks[i]];
      MarshalMoreBlocks(r.blocks[..i], r.blocks[i]);
      var block := WriteBlock(r.blocks[i]);
      buf := buf + block;
    }
    assert r.blocks[..|r.blocks|] == r.blocks;
  }
}
