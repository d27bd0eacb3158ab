/** The block database as an index over the stored chain (db/badger.go, db/schema.go). */
module Database {
  import opened Records
  import opened ChainModel
  import BigEndian
  import Codec

  // ---- keys (db/schema.go) ----

  function HByte(height: uint64): (r: Bytes)
    ensures |r| == 8 && ByteH(r) == height
  {
    BigEndian.Widths();
    BigEndian.GetPut(height, 8);
    BigEndian.Put(height, 8)
  }

  function ByteH(bs: Bytes): nat {
    BigEndian.Get(bs)
  }

  const HEADER: byte := 0x68          // 'h'
  const HEADER_HEIGHT: byte := 0x48   // 'H'
  const BLOCK: byte := 0x62           // 'b'
  const EVIDENCE: byte := 0x65        // 'e'
  const EVIDENCE_HEIGHT: byte := 0x45 // 'E'
  const HASH_SUFFIX: byte := 0x6E     // 'n'
  const SCORE_SUFFIX: Bytes := [0x53, 0x63, 0x6F, 0x72, 0x65]
  const LATEST_HEIGHT_KEY: Bytes := [0x6D, 0x4C, 0x61, 0x74, 0x65, 0x73, 0x74, 0x48, 0x65, 0x69, 0x67, 0x68]
  const GENESIS_KEY: Bytes := [0x6D, 0x47, 0x65, 0x6E, 0x65, 0x73, 0x69, 0x73]

  /** The family of a key, which its length and first byte decide. */
  datatype Family =
    | Headers | Hashes | HeaderHeights | Blocks | Evidences | EvidenceHeights
    | Scores | AccountEvidence | LatestHeight | GenesisMark | Other

  function FamilyOf(k: Bytes): Family {
    if |k| == 41 then
      if k[0] == HEADER then Headers else if k[0] == BLOCK then Blocks
      else if k[0] == EVIDENCE then Evidences else Other
    else if |k| == 33 then
      if k[0] == HEADER_HEIGHT then HeaderHeights
      else if k[0] == EVIDENCE_HEIGHT then EvidenceHeights else Other
    else if |k| == 10 then Hashes
    else if |k| == 38 then Scores
    else if |k| == 66 then AccountEvidence
    else if |k| == 12 then LatestHeight
    else if |k| == 8 then GenesisMark
    else Other
  }

  /** A tag, a height and a hash (or the hash suffix). */
  function HeightKey(tag: byte, height: Bytes, rest: Bytes): (r: Bytes)
    requires |height| == 8
    ensures |r| == 9 + |rest| && r[0] == tag && r[1..9] == height && r[9..] == rest
  {
    [tag] + height + rest
  }

  function TaggedKey(tag: byte, hash: Bytes): (r: Bytes)
    ensures |r| == 1 + |hash| && r[0] == tag && r[1..] == hash
  {
    [tag] + hash
  }

  function HeaderKey(height: uint64, hash: Bytes): (r: Bytes)
    ensures |hash| == HASH_LENGTH ==> FamilyOf(r) == Headers
  {
    HeightKey(HEADER, HByte(height), hash)
  }

  function HashKey(height: uint64): (r: Bytes)
    ensures FamilyOf(r) == Hashes
  {
    HeightKey(HEADER, HByte(height), [HASH_SUFFIX])
  }

  function HeaderHeightKey(hash: Bytes): (r: Bytes)
    ensures |hash| == HASH_LENGTH ==> FamilyOf(r) == HeaderHeights
  {
    TaggedKey(HEADER_HEIGHT, hash)
  }

  function BlockKey(height: uint64, hash: Bytes): (r: Bytes)
    ensures |hash| == HASH_LENGTH ==> FamilyOf(r) == Blocks
  {
    HeightKey(BLOCK, HByte(height), hash)
  }

  function EvidenceKey(height: uint64, hash: Bytes): (r: Bytes)
    ensures |hash| == HASH_LENGTH ==> FamilyOf(r) == Evidences
  {
    HeightKey(EVIDENCE, HByte(height), hash)
  }

  function EvidenceHeightKey(hash: Bytes): (r: Bytes)
    ensures |hash| == HASH_LENGTH ==> FamilyOf(r) == EvidenceHeights
  {
    TaggedKey(EVIDENCE_HEIGHT, hash)
  }

  function ScoreKey(key: Bytes): (r: Bytes)
    ensures |r| == |key| + 5 && r[..|key|] == key
    ensures |key| == PUB_KEY_LENGTH ==> FamilyOf(r) == Scores
  {
    key + SCORE_SUFFIX
  }

  function AccountPrefix(key: Bytes): (r: Bytes)
    ensures |r| == |key| + 1 && r[..|key|] == key && r[|key|] == EVIDENCE
  {
    key + [EVIDENCE]
  }

  function AccountKey(key: Bytes, hash: Bytes): (r: Bytes)
    ensures |r| == |key| + 1 + |hash| && r[..|key|] == key && r[|key| + 1..] == hash
    ensures |key| == PUB_KEY_LENGTH && |hash| == HASH_LENGTH ==> FamilyOf(r) == AccountEvidence
  {
    AccountPrefix(key) + hash
  }

  lemma {:induction false} AccountKeyPrefix(key: Bytes, hash: Bytes)
    ensures AccountPrefix(key) <= AccountKey(key, hash)
  {
  }

  /** Two keys of the same family and arguments of the right length are equal only if built
      from the same arguments; keys of different families are never equal. */
  lemma {:induction false} KeysAreInjective(h1: uint64, h2: uint64, a: Bytes, b: Bytes, k1: Bytes, k2: Bytes)
    requires |a| == |b| == HASH_LENGTH && |k1| == |k2| == PUB_KEY_LENGTH
    ensures HeaderKey(h1, a) == HeaderKey(h2, b) ==> h1 == h2 && a == b
    ensures HashKey(h1) == HashKey(h2) ==> h1 == h2
    ensures HeaderHeightKey(a) == HeaderHeightKey(b) ==> a == b
    ensures BlockKey(h1, a) == BlockKey(h2, b) ==> h1 == h2 && a == b
    ensures EvidenceKey(h1, a) == EvidenceKey(h2, b) ==> h1 == h2 && a == b
    ensures EvidenceHeightKey(a) == EvidenceHeightKey(b) ==> a == b
    ensures ScoreKey(k1) == ScoreKey(k2) ==> k1 == k2
    ensures AccountKey(k1, a) == AccountKey(k2, b) ==> k1 == k2 && a == b
  {
  }

  // ---- contents ----

  datatype Value =
    | Raw(bytes: Bytes)
    | HeaderRecord(header: Header, height: uint64)
    | EvidenceRecord(evidence: Evidence)
    | HashList(hashes: seq<Bytes>)

  type Store = map<Bytes, Value>

  /** A value as it is written. */
  function Written(v: Value): Bytes {
    match v
    case Raw(bytes) => bytes
    case HeaderRecord(header, height) => Codec.MarshalHeader(header) + HByte(height)
    case EvidenceRecord(e) => Codec.MarshalEvidence(e)
    case HashList(hashes) => BigEndian.Put(|hashes| % 0x1_0000, 2) + WrittenHashes(hashes)
  }

  function WrittenHashes(hashes: seq<Bytes>): Bytes {
    if hashes == [] then [] else Codec.PutBytes(hashes[0], 1) + WrittenHashes(hashes[1..])
  }

  /** A value read as a height: its first eight bytes, or zero if there are fewer. */
  function ReadHeight(v: Value): (h: uint64)
    ensures v.Raw? && |v.bytes| == 8 ==> h == ByteH(v.bytes)
  {
    var b := Written(v);
    BigEndian.Widths();
    if |b| < 8 then 0
    else
      BigEndian.PutGet(b[..8]);
      assert |b| == 8 ==> b[..8] == b;
      ByteH(b[..8])
  }

  function Lookup(kv: Store, k: Bytes): Option<Value> {
    if k in kv then Some(kv[k]) else None
  }

  function Height(n: nat): Option<Value>
    requires n < TWO_64
  {
    if n == 0 then None else Some(Raw(HByte(n)))
  }

  // ---- writing (putBlockTX, putEvidenceTX, updateScoreTX) ----

  function EvidenceHashes(evds: seq<Evidence>): seq<Bytes> {
    seq(|evds|, i requires 0 <= i < |evds| => evds[i].hash)
  }

  function PutOneEvidence(kv: Store, e: Evidence, height: uint64): Store {
    kv[EvidenceKey(height, e.hash) := EvidenceRecord(e)]
      [EvidenceHeightKey(e.hash) := Raw(HByte(height))]
      [AccountKey(e.pubKey, e.hash) := Raw(HByte(height))]
  }

  function PutEvidences(kv: Store, evds: seq<Evidence>, height: uint64): Store {
    if evds == [] then kv
    else PutOneEvidence(PutEvidences(kv, evds[..|evds| - 1], height), evds[|evds| - 1], height)
  }

  function PutEvidenceTx(kv: Store, b: Block, height: uint64): Store {
    if b.HasEmptyRoot() then kv
    else PutEvidences(kv, b.evds, height)[BlockKey(height, b.hash) := HashList(EvidenceHashes(b.evds))]
  }

  /** The score wraps like any 64-bit counter. */
  function NextScore(kv: Store, miner: Bytes): uint64 {
    var score := if ScoreKey(miner) in kv && kv[ScoreKey(miner)].Raw? then ByteH(kv[ScoreKey(miner)].bytes) else 0;
    (score + 1) % TWO_64
  }

  function PutBlockTx(kv: Store, b: Block, height: uint64): Store {
    var kv1 := PutEvidenceTx(kv, b, height)
      [HeaderKey(height, b.hash) := HeaderRecord(b.header, height)]
      [HashKey(height) := Raw(b.hash)]
      [HeaderHeightKey(b.hash) := Raw(HByte(height))];
    kv1[ScoreKey(b.header.miner) := Raw(HByte(NextScore(kv1, b.header.miner)))]
       [LATEST_HEIGHT_KEY := Raw(HByte(height))]
  }

  // ---- reading a plain list of blocks ----

  /** Height of the newest block with this hash, or 0. */
  function HeightOfHash(bs: History, hash: Bytes): (h: nat)
    ensures h <= |bs|
    ensures h > 0 ==> bs[h - 1].hash == hash
    ensures forall p | h <= p < |bs| :: bs[p].hash != hash
  {
    if bs == [] then 0
    else if bs[|bs| - 1].hash == hash then |bs| else HeightOfHash(bs[..|bs| - 1], hash)
  }

  predicate Carries(b: Block, hash: Bytes) {
    !b.HasEmptyRoot() && hash in EvidenceOf(b)
  }

  /** Height of the newest block that carries this evidence, or 0. */
  function HeightOfEvidence(bs: History, hash: Bytes): (h: nat)
    ensures h <= |bs|
    ensures h > 0 ==> Carries(bs[h - 1], hash)
    ensures forall p | h <= p < |bs| :: !Carries(bs[p], hash)
  {
    if bs == [] then 0
    else if Carries(bs[|bs| - 1], hash) then |bs| else HeightOfEvidence(bs[..|bs| - 1], hash)
  }

  predicate CarriesFrom(b: Block, key: Bytes, hash: Bytes) {
    !b.HasEmptyRoot() && exists e | e in b.evds :: e.pubKey == key && e.hash == hash
  }

  /** Height of the newest block that carries this evidence of this account, or 0. */
  function HeightOfAccount(bs: History, key: Bytes, hash: Bytes): (h: nat)
    ensures h <= |bs|
    ensures h > 0 ==> CarriesFrom(bs[h - 1], key, hash)
    ensures forall p | h <= p < |bs| :: !CarriesFrom(bs[p], key, hash)
  {
    if bs == [] then 0
    else if CarriesFrom(bs[|bs| - 1], key, hash) then |bs| else HeightOfAccount(bs[..|bs| - 1], key, hash)
  }

  /** The last evidence of the list with this hash. */
  function LastWith(evds: seq<Evidence>, hash: Bytes): (e: Evidence)
    requires exists x | x in evds :: x.hash == hash
    ensures e in evds && e.hash == hash
  {
    var n := |evds| - 1;
    if evds[n].hash == hash then evds[n]
    else
      assert forall x | x in evds :: x in evds[..n] || x == evds[n];
      LastWith(evds[..n], hash)
  }

  /** Number of blocks mined by this key. */
  function Score(bs: History, miner: Bytes): (n: nat)
    ensures n <= |bs|
  {
    if bs == [] then 0
    else Score(bs[..|bs| - 1], miner) + if bs[|bs| - 1].header.miner == miner then 1 else 0
  }

  function HashAt(bs: History, height: nat): Option<Value> {
    if 1 <= height <= |bs| then Some(Raw(bs[height - 1].hash)) else None
  }

  function HeaderAt(bs: History, height: uint64, hash: Bytes): Option<Value> {
    if 1 <= height <= |bs| && bs[height - 1].hash == hash
    then Some(HeaderRecord(bs[height - 1].header, height)) else None
  }

  function HashesAt(bs: History, height: nat, hash: Bytes): Option<Value> {
    if 1 <= height <= |bs| && bs[height - 1].hash == hash && !bs[height - 1].HasEmptyRoot()
    then Some(HashList(EvidenceHashes(bs[height - 1].evds))) else None
  }

  function EvidenceAt(bs: History, height: nat, hash: Bytes): Option<Value> {
    if 1 <= height <= |bs| && Carries(bs[height - 1], hash)
    then Some(EvidenceRecord(LastWith(bs[height - 1].evds, hash))) else None
  }

  // ---- the store agrees with the list, family by family ----

  ghost predicate AgreeOnBlocks(kv: Store, bs: History) {
    && (forall h: uint64 :: Lookup(kv, HashKey(h)) == HashAt(bs, h))
    && (forall h: uint64, a: Bytes | |a| == HASH_LENGTH :: Lookup(kv, HeaderKey(h, a)) == HeaderAt(bs, h, a))
    && (forall h: uint64, a: Bytes | |a| == HASH_LENGTH :: Lookup(kv, BlockKey(h, a)) == HashesAt(bs, h, a))
  }

  ghost predicate AgreeOnHeights(kv: Store, bs: History)
    requires |bs| < TWO_64
  {
    && (forall a: Bytes | |a| == HASH_LENGTH :: Lookup(kv, HeaderHeightKey(a)) == Height(HeightOfHash(bs, a)))
    && Lookup(kv, LATEST_HEIGHT_KEY) == Height(|bs|)
  }

  ghost predicate AgreeOnEvidence(kv: Store, bs: History)
    requires |bs| < TWO_64
  {
    && (forall h: uint64, a: Bytes | |a| == HASH_LENGTH :: Lookup(kv, EvidenceKey(h, a)) == EvidenceAt(bs, h, a))
    && (forall a: Bytes | |a| == HASH_LENGTH ::
         Lookup(kv, EvidenceHeightKey(a)) == Height(HeightOfEvidence(bs, a)))
  }

  ghost predicate AgreeOnAccounts(kv: Store, bs: History)
    requires |bs| < TWO_64
  {
    && (forall k: Bytes | |k| == PUB_KEY_LENGTH :: Lookup(kv, ScoreKey(k)) == Height(Score(bs, k)))
    && (forall k: Bytes, a: Bytes | |k| == PUB_KEY_LENGTH && |a| == HASH_LENGTH ::
         Lookup(kv, AccountKey(k, a)) == Height(HeightOfAccount(bs, k, a)))
  }

  ghost predicate Agrees(kv: Store, bs: History) {
    && |bs| < TWO_64
    && AgreeOnBlocks(kv, bs)
    && AgreeOnHeights(kv, bs)
    && AgreeOnEvidence(kv, bs)
    && AgreeOnAccounts(kv, bs)
  }

  ghost predicate SizedEvidence(evds: seq<Evidence>) {
    forall e | e in evds :: |e.hash| == HASH_LENGTH && |e.pubKey| == PUB_KEY_LENGTH
  }

  /** Writing evidence touches three families only. */
  lemma {:induction false} EvidenceElsewhere(kv: Store, evds: seq<Evidence>, height: uint64, k: Bytes)
    requires SizedEvidence(evds)
    requires FamilyOf(k) !in {Evidences, EvidenceHeights, AccountEvidence}
    ensures Lookup(PutEvidences(kv, evds, height), k) == Lookup(kv, k)
  {
    hide FamilyOf, EvidenceKey, EvidenceHeightKey, AccountKey;
    if evds != [] { EvidenceElsewhere(kv, evds[..|evds| - 1], height, k); }
  }

  predicate HasHash(evds: seq<Evidence>, a: Bytes) {
    exists e | e in evds :: e.hash == a
  }

  predicate HasAccount(evds: seq<Evidence>, k: Bytes, a: Bytes) {
    exists e | e in evds :: e.pubKey == k && e.hash == a
  }

  lemma {:induction false} OneEvidenceWritten(kv: Store, e: Evidence, height: uint64, h: uint64, k: Bytes, a: Bytes)
    requires |e.hash| == |a| == HASH_LENGTH && |e.pubKey| == |k| == PUB_KEY_LENGTH
    ensures var kv' := PutOneEvidence(kv, e, height);
      && Lookup(kv', EvidenceKey(h, a))
           == (if h == height && e.hash == a then Some(EvidenceRecord(e)) else Lookup(kv, EvidenceKey(h, a)))
      && Lookup(kv', EvidenceHeightKey(a))
           == (if e.hash == a then Some(Raw(HByte(height))) else Lookup(kv, EvidenceHeightKey(a)))
      && Lookup(kv', AccountKey(k, a))
           == (if e.pubKey == k && e.hash == a then Some(Raw(HByte(height))) else Lookup(kv, AccountKey(k, a)))
  {
    hide FamilyOf, EvidenceKey, EvidenceHeightKey, AccountKey, HByte;
    KeysAreInjective(height, h, e.hash, a, e.pubKey, k);
  }

  lemma {:induction false} LastSplit(evds: seq<Evidence>, k: Bytes, a: Bytes)
    requires evds != []
    ensures var n := |evds| - 1;
      && (HasHash(evds, a) <==> HasHash(evds[..n], a) || evds[n].hash == a)
      && (HasAccount(evds, k, a) <==> HasAccount(evds[..n], k, a) || (evds[n].pubKey == k && evds[n].hash == a))
      && (HasHash(evds, a) ==>
           LastWith(evds, a) == if evds[n].hash == a then evds[n] else LastWith(evds[..n], a))
  {
    var n := |evds| - 1;
    assert forall e | e in evds :: e in evds[..n] || e == evds[n];
  }

  /** What the three evidence families hold after a list of evidence was written. */
  lemma {:induction false} EvidenceWritten(kv: Store, evds: seq<Evidence>, height: uint64, h: uint64, k: Bytes,
      a: Bytes)
    requires SizedEvidence(evds) && |a| == HASH_LENGTH && |k| == PUB_KEY_LENGTH
    ensures var kv' := PutEvidences(kv, evds, height);
      && Lookup(kv', EvidenceKey(h, a))
           == (if h == height && HasHash(evds, a) then Some(EvidenceRecord(LastWith(evds, a)))
               else Lookup(kv, EvidenceKey(h, a)))
      && Lookup(kv', EvidenceHeightKey(a))
           == (if HasHash(evds, a) then Some(Raw(HByte(height))) else Lookup(kv, EvidenceHeightKey(a)))
      && Lookup(kv', AccountKey(k, a))
           == (if HasAccount(evds, k, a) then Some(Raw(HByte(height))) else Lookup(kv, AccountKey(k, a)))
  {
    if evds != [] {
      hide PutOneEvidence, EvidenceKey, EvidenceHeightKey, AccountKey, HByte, HasHash, HasAccount, LastWith, Lookup;
      var n := |evds| - 1;
      EvidenceWritten(kv, evds[..n], height, h, k, a);
      OneEvidenceWritten(PutEvidences(kv, evds[..n], height), evds[n], height, h, k, a);
      LastSplit(evds, k, a);
    }
  }

  lemma {:induction false} MetaFamilies()
    ensures FamilyOf(LATEST_HEIGHT_KEY) == LatestHeight && FamilyOf(GENESIS_KEY) == GenesisMark
  {
  }

  /** What a block put leaves alone: the evidence families come from the evidence step. */
  lemma {:induction false} PutElsewhere(kv: Store, b: Block, height: uint64, k: Bytes)
    requires Sized(b)
    ensures FamilyOf(k) in {Evidences, EvidenceHeights, AccountEvidence} ==>
      Lookup(PutBlockTx(kv, b, height), k)
        == if b.HasEmptyRoot() then Lookup(kv, k) else Lookup(PutEvidences(kv, b.evds, height), k)
  {
    hide FamilyOf, HeaderKey, HashKey, HeaderHeightKey, BlockKey, ScoreKey, HByte, PutEvidences, NextScore;
    MetaFamilies();
  }

  lemma {:induction false} PutAgreesOnEvidence(kv: Store, bs: History, b: Block)
    requires |bs| + 1 < TWO_64 && Sized(b) && AgreeOnEvidence(kv, bs)
    ensures AgreeOnEvidence(PutBlockTx(kv, b, |bs| + 1), bs + [b])
  {
    hide PutBlockTx, Lookup, EvidenceKey, EvidenceHeightKey, EvidenceAt, HeightOfEvidence, Height, Sized;
    forall h: uint64, a: Bytes | |a| == HASH_LENGTH
      ensures Lookup(PutBlockTx(kv, b, |bs| + 1), EvidenceKey(h, a)) == EvidenceAt(bs + [b], h, a)
    {
      PutAgreesOnOneEvidence(kv, bs, b, h, a);
    }
    forall a: Bytes | |a| == HASH_LENGTH
      ensures Lookup(PutBlockTx(kv, b, |bs| + 1), EvidenceHeightKey(a)) == Height(HeightOfEvidence(bs + [b], a))
    {
      PutAgreesOnOneEvidence(kv, bs, b, 0, a);
    }
  }

  lemma {:induction false} PutAgreesOnOneEvidence(kv: Store, bs: History, b: Block, h: uint64, a: Bytes)
    requires |bs| + 1 < TWO_64 && Sized(b) && AgreeOnEvidence(kv, bs) && |a| == HASH_LENGTH
    ensures Lookup(PutBlockTx(kv, b, |bs| + 1), EvidenceKey(h, a)) == EvidenceAt(bs + [b], h, a)
    ensures Lookup(PutBlockTx(kv, b, |bs| + 1), EvidenceHeightKey(a)) == Height(HeightOfEvidence(bs + [b], a))
  {
    hide FamilyOf, PutBlockTx, PutEvidences, EvidenceKey, EvidenceHeightKey, HByte, Lookup, LastWith;
    var cs, height := bs + [b], |bs| + 1;
    assert cs[..|bs|] == bs;
    PutElsewhere(kv, b, height, EvidenceKey(h, a));
    PutElsewhere(kv, b, height, EvidenceHeightKey(a));
    EvidenceWritten(kv, b.evds, height, h, b.header.miner, a);
    assert Carries(b, a) <==> !b.HasEmptyRoot() && HasHash(b.evds, a);
  }

  /** What the block families hold after a block was put. */
  lemma {:induction false} BlockWritten(kv: Store, b: Block, height: uint64, h: uint64, a: Bytes)
    requires Sized(b) && |a| == HASH_LENGTH
    ensures var kv' := PutBlockTx(kv, b, height);
      && Lookup(kv', HashKey(h)) == (if h == height then Some(Raw(b.hash)) else Lookup(kv, HashKey(h)))
      && Lookup(kv', HeaderKey(h, a))
           == (if h == height && a == b.hash then Some(HeaderRecord(b.header, height)) else Lookup(kv, HeaderKey(h, a)))
      && Lookup(kv', HeaderHeightKey(a))
           == (if a == b.hash then Some(Raw(HByte(height))) else Lookup(kv, HeaderHeightKey(a)))
      && Lookup(kv', BlockKey(h, a))
           == (if h == height && a == b.hash && !b.HasEmptyRoot() then Some(HashList(EvidenceHashes(b.evds)))
               else Lookup(kv, BlockKey(h, a)))
  {
    hide FamilyOf, HeaderKey, HashKey, HeaderHeightKey, BlockKey, ScoreKey, HByte, PutEvidenceTx, NextScore,
         EvidenceHashes;
    MetaFamilies();
    KeysAreInjective(height, h, b.hash, a, b.header.miner, b.header.miner);
    EvidenceTxElsewhere(kv, b, height, HashKey(h));
    EvidenceTxElsewhere(kv, b, height, HeaderKey(h, a));
    EvidenceTxElsewhere(kv, b, height, HeaderHeightKey(a));
    EvidenceTxBlocks(kv, b, height, h, a);
  }

  /** What the scores and the latest height hold after a block was put. */
  lemma {:induction false} ScoreWritten(kv: Store, b: Block, height: uint64, k: Bytes)
    requires Sized(b) && |k| == PUB_KEY_LENGTH
    ensures var kv' := PutBlockTx(kv, b, height);
      && Lookup(kv', ScoreKey(k))
           == (if k == b.header.miner then Some(Raw(HByte(NextScore(kv, k)))) else Lookup(kv, ScoreKey(k)))
      && Lookup(kv', LATEST_HEIGHT_KEY) == Some(Raw(HByte(height)))
  {
    hide FamilyOf, HeaderKey, HashKey, HeaderHeightKey, BlockKey, ScoreKey, HByte, ByteH, PutEvidenceTx;
    MetaFamilies();
    KeysAreInjective(height, height, b.hash, b.hash, b.header.miner, k);
    EvidenceTxElsewhere(kv, b, height, ScoreKey(k));
  }

  lemma {:induction false} EvidenceTxElsewhere(kv: Store, b: Block, height: uint64, k: Bytes)
    requires Sized(b)
    requires FamilyOf(k) !in {Evidences, EvidenceHeights, AccountEvidence, Blocks}
    ensures Lookup(PutEvidenceTx(kv, b, height), k) == Lookup(kv, k)
  {
    hide FamilyOf, BlockKey, PutEvidences;
    EvidenceElsewhere(kv, b.evds, height, k);
  }

  lemma {:induction false} EvidenceTxBlocks(kv: Store, b: Block, height: uint64, h: uint64, a: Bytes)
    requires Sized(b) && |a| == HASH_LENGTH
    ensures Lookup(PutEvidenceTx(kv, b, height), BlockKey(h, a))
         == if h == height && a == b.hash && !b.HasEmptyRoot() then Some(HashList(EvidenceHashes(b.evds)))
            else Lookup(kv, BlockKey(h, a))
  {
    hide FamilyOf, BlockKey, PutEvidences;
    KeysAreInjective(height, h, b.hash, a, b.header.miner, b.header.miner);
    EvidenceElsewhere(kv, b.evds, height, BlockKey(h, a));
  }

  lemma {:induction false} PutAgreesOnBlocks(kv: Store, bs: History, b: Block)
    requires |bs| + 1 < TWO_64 && Sized(b) && AgreeOnBlocks(kv, bs)
    ensures AgreeOnBlocks(PutBlockTx(kv, b, |bs| + 1), bs + [b])
  {
    hide PutBlockTx, Lookup, HashKey, HeaderKey, BlockKey, HByte, EvidenceHashes;
    forall h: uint64, a: Bytes | |a| == HASH_LENGTH
      ensures Lookup(PutBlockTx(kv, b, |bs| + 1), HeaderKey(h, a)) == HeaderAt(bs + [b], h, a)
      ensures Lookup(PutBlockTx(kv, b, |bs| + 1), BlockKey(h, a)) == HashesAt(bs + [b], h, a)
    {
      BlockWritten(kv, b, |bs| + 1, h, a);
    }
    forall h: uint64 ensures Lookup(PutBlockTx(kv, b, |bs| + 1), HashKey(h)) == HashAt(bs + [b], h) {
      BlockWritten(kv, b, |bs| + 1, h, b.hash);
    }
  }

  lemma {:induction false} PutAgreesOnHeights(kv: Store, bs: History, b: Block)
    requires |bs| + 1 < TWO_64 && Sized(b) && AgreeOnHeights(kv, bs)
    ensures AgreeOnHeights(PutBlockTx(kv, b, |bs| + 1), bs + [b])
  {
    hide PutBlockTx, Lookup, HeaderHeightKey, HByte;
    assert (bs + [b])[..|bs|] == bs;
    forall a: Bytes | |a| == HASH_LENGTH
      ensures Lookup(PutBlockTx(kv, b, |bs| + 1), HeaderHeightKey(a)) == Height(HeightOfHash(bs + [b], a))
    {
      BlockWritten(kv, b, |bs| + 1, 0, a);
    }
    ScoreWritten(kv, b, |bs| + 1, b.header.miner);
  }

  lemma {:induction false} PutAgreesOnScore(kv: Store, bs: History, b: Block, k: Bytes)
    requires |bs| + 1 < TWO_64 && Sized(b) && |k| == PUB_KEY_LENGTH
    requires Lookup(kv, ScoreKey(k)) == Height(Score(bs, k))
    ensures Lookup(PutBlockTx(kv, b, |bs| + 1), ScoreKey(k)) == Height(Score(bs + [b], k))
  {
    hide PutBlockTx, ScoreKey, HByte, ByteH;
    assert (bs + [b])[..|bs|] == bs;
    ScoreWritten(kv, b, |bs| + 1, k);
  }

  lemma {:induction false} PutAgreesOnAccount(kv: Store, bs: History, b: Block, k: Bytes, a: Bytes)
    requires |bs| + 1 < TWO_64 && Sized(b) && |k| == PUB_KEY_LENGTH && |a| == HASH_LENGTH
    requires Lookup(kv, AccountKey(k, a)) == Height(HeightOfAccount(bs, k, a))
    ensures Lookup(PutBlockTx(kv, b, |bs| + 1), AccountKey(k, a)) == Height(HeightOfAccount(bs + [b], k, a))
  {
    hide PutBlockTx, PutEvidences, AccountKey, FamilyOf, HByte, Lookup;
    assert (bs + [b])[..|bs|] == bs;
    PutElsewhere(kv, b, |bs| + 1, AccountKey(k, a));
    EvidenceWritten(kv, b.evds, |bs| + 1, 0, k, a);
    assert CarriesFrom(b, k, a) <==> !b.HasEmptyRoot() && HasAccount(b.evds, k, a);
  }

  lemma {:induction false} PutAgreesOnAccounts(kv: Store, bs: History, b: Block)
    requires |bs| + 1 < TWO_64 && Sized(b) && AgreeOnAccounts(kv, bs)
    ensures AgreeOnAccounts(PutBlockTx(kv, b, |bs| + 1), bs + [b])
  {
    hide PutBlockTx, Lookup, ScoreKey, AccountKey, Height, Score, HeightOfAccount, Sized;
    forall k: Bytes | |k| == PUB_KEY_LENGTH
      ensures Lookup(PutBlockTx(kv, b, |bs| + 1), ScoreKey(k)) == Height(Score(bs + [b], k))
    {
      PutAgreesOnScore(kv, bs, b, k);
    }
    forall k: Bytes, a: Bytes | |k| == PUB_KEY_LENGTH && |a| == HASH_LENGTH
      ensures Lookup(PutBlockTx(kv, b, |bs| + 1), AccountKey(k, a)) == Height(HeightOfAccount(bs + [b], k, a))
    {
      PutAgreesOnAccount(kv, bs, b, k, a);
    }
  }

  /** Putting the next block keeps store and list in agreement, in every key family. */
  lemma {:induction false} PutAgrees(kv: Store, bs: History, b: Block)
    requires |bs| + 1 < TWO_64 && Sized(b) && Agrees(kv, bs)
    ensures Agrees(PutBlockTx(kv, b, |bs| + 1), bs + [b])
  {
    hide PutBlockTx, AgreeOnBlocks, AgreeOnHeights, AgreeOnEvidence, AgreeOnAccounts, Sized;
    PutAgreesOnBlocks(kv, bs, b);
    PutAgreesOnHeights(kv, bs, b);
    PutAgreesOnEvidence(kv, bs, b);
    PutAgreesOnAccounts(kv, bs, b);
  }

  // ---- what the index promises about a chain ----

  /** The block read back for a stored one: the header, and for every evidence hash of the
      block the last evidence that was stored under it. */
  function ReadBack(b: Block): Block {
    if b.HasEmptyRoot() then b.(evds := [])
    else b.(evds := seq(|b.evds|, i requires 0 <= i < |b.evds| => LastWith(b.evds, b.evds[i].hash)))
  }

  /** No two different pieces share a hash. */
  ghost predicate OneEach(evds: seq<Evidence>) {
    forall i, j | 0 <= i < |evds| && 0 <= j < |evds| :: evds[i].hash == evds[j].hash ==> evds[i] == evds[j]
  }

  /** A block is read back as it was exactly when evidence comes with a root and no two
      different pieces of its evidence share a hash. */
  lemma {:induction false} ReadBackExactly(b: Block)
    ensures ReadBack(b) == b <==>
      && (b.HasEmptyRoot() ==> b.evds == [])
      && (!b.HasEmptyRoot() ==> OneEach(b.evds))
  {
    if !b.HasEmptyRoot() && ReadBack(b).evds == b.evds {
      forall i, j | 0 <= i < |b.evds| && 0 <= j < |b.evds| && b.evds[i].hash == b.evds[j].hash
        ensures b.evds[i] == b.evds[j]
      {
        assert b.evds[i] == ReadBack(b).evds[i] == LastWith(b.evds, b.evds[j].hash) == ReadBack(b).evds[j];
      }
    }
  }

  ghost function TotalScore(bs: History, keys: set<Bytes>): nat {
    if keys == {} then 0
    else
      var k :| k in keys;
      Score(bs, k) + TotalScore(bs, keys - {k})
  }

  lemma {:induction false} TotalScoreSplit(bs: History, keys: set<Bytes>, k: Bytes)
    requires k in keys
    ensures TotalScore(bs, keys) == Score(bs, k) + TotalScore(bs, keys - {k})
    decreases keys
  {
    var j :| j in keys && TotalScore(bs, keys) == Score(bs, j) + TotalScore(bs, keys - {j});
    if j != k {
      TotalScoreSplit(bs, keys - {j}, k);
      TotalScoreSplit(bs, keys - {k}, j);
      assert keys - {j} - {k} == keys - {k} - {j};
    }
  }

  lemma {:induction false} TotalScoreGrows(bs: History, b: Block, keys: set<Bytes>)
    ensures TotalScore(bs + [b], keys) == TotalScore(bs, keys) + if b.header.miner in keys then 1 else 0
    decreases keys
  {
    assert (bs + [b])[..|bs|] == bs;
    if keys != {} {
      var k :| k in keys;
      TotalScoreSplit(bs, keys, k);
      TotalScoreSplit(bs + [b], keys, k);
      TotalScoreGrows(bs, b, keys - {k});
    }
  }

  /** All scores together count every stored block exactly once. */
  lemma {:induction false} ScoresSumToHeight(bs: History, keys: set<Bytes>)
    requires forall p | 0 <= p < |bs| :: bs[p].header.miner in keys
    ensures TotalScore(bs, keys) == |bs|
  {
    if bs == [] {
      NoBlocksNoScore(keys);
    } else {
      var n := |bs| - 1;
      ScoresSumToHeight(bs[..n], keys);
      TotalScoreGrows(bs[..n], bs[n], keys);
      assert bs[..n] + [bs[n]] == bs;
    }
  }

  lemma {:induction false} NoBlocksNoScore(keys: set<Bytes>)
    ensures TotalScore([], keys) == 0
    decreases keys
  {
    if keys != {} {
      var k :| k in keys;
      TotalScoreSplit([], keys, k);
      NoBlocksNoScore(keys - {k});
    }
  }

  /** With distinct hashes, looking a block up by its hash finds its height. */
  lemma {:induction false} HashFindsHeight(bs: History, p: nat)
    requires p < |bs| && forall q | 0 <= q < |bs| && q != p :: bs[q].hash != bs[p].hash
    ensures HeightOfHash(bs, bs[p].hash) == p + 1
  {
    assert bs[HeightOfHash(bs, bs[p].hash) - 1].hash == bs[p].hash;
  }

  /** The store knows exactly the evidence hashes of the stored blocks. */
  lemma {:induction false} KnownEvidence(bs: History, hash: Bytes)
    ensures HeightOfEvidence(bs, hash) > 0 <==> hash in StoredEvidence(bs)
  {
  }

  /** Every key was made by one of the key builders. */
  ghost predicate Built(kv: Store) {
    forall k | k in kv :: MadeKey(k)
  }

  /** The shape the key builders give their keys. */
  predicate MadeKey(k: Bytes) {
    match FamilyOf(k)
    case Other => false
    case Hashes => k[0] == HEADER
    case Scores => k[PUB_KEY_LENGTH..] == SCORE_SUFFIX
    case AccountEvidence => k[PUB_KEY_LENGTH] == EVIDENCE
    case LatestHeight => k == LATEST_HEIGHT_KEY
    case GenesisMark => k == GENESIS_KEY
    case _ => true
  }

  lemma {:induction false} KeysAreMade(height: uint64, hash: Bytes, key: Bytes)
    requires |hash| == HASH_LENGTH && |key| == PUB_KEY_LENGTH
    ensures MadeKey(HeaderKey(height, hash)) && MadeKey(HashKey(height)) && MadeKey(HeaderHeightKey(hash))
    ensures MadeKey(BlockKey(height, hash)) && MadeKey(EvidenceKey(height, hash)) && MadeKey(EvidenceHeightKey(hash))
    ensures MadeKey(ScoreKey(key)) && MadeKey(AccountKey(key, hash))
    ensures MadeKey(LATEST_HEIGHT_KEY) && MadeKey(GENESIS_KEY)
  {
    hide HByte;
  }

  lemma {:induction false} PutOneEvidenceBuilt(kv: Store, e: Evidence, height: uint64)
    requires |e.hash| == HASH_LENGTH && |e.pubKey| == PUB_KEY_LENGTH && Built(kv)
    ensures Built(PutOneEvidence(kv, e, height))
    ensures GENESIS_KEY in PutOneEvidence(kv, e, height) <==> GENESIS_KEY in kv
  {
    hide FamilyOf, EvidenceKey, EvidenceHeightKey, AccountKey, HByte, MadeKey;
    MetaFamilies();
    KeysAreMade(height, e.hash, e.pubKey);
  }

  lemma {:induction false} PutEvidencesBuilt(kv: Store, evds: seq<Evidence>, height: uint64)
    requires SizedEvidence(evds) && Built(kv)
    ensures Built(PutEvidences(kv, evds, height))
    ensures GENESIS_KEY in PutEvidences(kv, evds, height) <==> GENESIS_KEY in kv
  {
    if evds != [] {
      hide Built, PutOneEvidence;
      var n := |evds| - 1;
      PutEvidencesBuilt(kv, evds[..n], height);
      PutOneEvidenceBuilt(PutEvidences(kv, evds[..n], height), evds[n], height);
    }
  }

  lemma {:induction false} PutBuilt(kv: Store, b: Block, height: uint64)
    requires Sized(b) && Built(kv)
    ensures Built(PutBlockTx(kv, b, height))
    ensures GENESIS_KEY in PutBlockTx(kv, b, height) <==> GENESIS_KEY in kv
  {
    hide FamilyOf, HeaderKey, HashKey, HeaderHeightKey, BlockKey, ScoreKey, HByte, PutEvidences, NextScore,
         EvidenceHashes, MadeKey;
    MetaFamilies();
    KeysAreMade(height, b.hash, b.header.miner);
    PutEvidencesBuilt(kv, b.evds, height);
  }

  lemma {:induction false} MarkElsewhere(kv: Store, v: Value, k: Bytes)
    requires FamilyOf(k) != GenesisMark
    ensures Lookup(kv[GENESIS_KEY := v], k) == Lookup(kv, k)
  {
    hide FamilyOf;
    MetaFamilies();
  }

  /** The genesis mark is in no other family's way. */
  lemma {:induction false} GenesisMarkIsApart(kv: Store, bs: History, v: Value)
    requires Agrees(kv, bs) && Built(kv)
    ensures Agrees(kv[GENESIS_KEY := v], bs) && Built(kv[GENESIS_KEY := v])
  {
    hide FamilyOf, HeaderKey, HashKey, HeaderHeightKey, BlockKey, ScoreKey, HByte, EvidenceKey, EvidenceHeightKey,
         AccountKey;
    hide HashAt, HeaderAt, HashesAt, EvidenceAt, HeightOfHash, HeightOfEvidence, HeightOfAccount, Score, Height,
         Lookup, MadeKey;
    MetaFamilies();
    assert MadeKey(GENESIS_KEY) by { KeysAreMade(0, seq(HASH_LENGTH, _ => 0), seq(PUB_KEY_LENGTH, _ => 0)); }
    var kv' := kv[GENESIS_KEY := v];
    forall k | FamilyOf(k) != GenesisMark ensures Lookup(kv', k) == Lookup(kv, k) { MarkElsewhere(kv, v, k); }
    assert AgreeOnBlocks(kv', bs);
    assert AgreeOnHeights(kv', bs);
    assert AgreeOnEvidence(kv', bs);
    assert AgreeOnAccounts(kv', bs);
  }

  /** A key under an account's prefix is one of that account's evidence keys. */
  lemma {:induction false} StoredHeader(kv: Store, bs: History, height: uint64, hash: Bytes)
    requires AgreeOnBlocks(kv, bs) && |hash| == HASH_LENGTH
    ensures HeaderKey(height, hash) in kv <==> 1 <= height <= |bs| && bs[height - 1].hash == hash
    ensures HeaderKey(height, hash) in kv ==>
      kv[HeaderKey(height, hash)] == HeaderRecord(bs[height - 1].header, height)
  {
    assert Lookup(kv, HeaderKey(height, hash)) == HeaderAt(bs, height, hash);
  }

  lemma {:induction false} StoredHashes(kv: Store, bs: History, height: uint64)
    requires AgreeOnBlocks(kv, bs) && 1 <= height <= |bs| && |bs[height - 1].hash| == HASH_LENGTH
    requires !bs[height - 1].HasEmptyRoot()
    ensures var k := BlockKey(height, bs[height - 1].hash);
      k in kv && kv[k] == HashList(EvidenceHashes(bs[height - 1].evds))
  {
    assert Lookup(kv, BlockKey(height, bs[height - 1].hash)) == HashesAt(bs, height, bs[height - 1].hash);
  }

  lemma {:induction false} StoredRecord(kv: Store, bs: History, height: uint64, i: nat)
    requires |bs| < TWO_64 && AgreeOnEvidence(kv, bs) && 1 <= height <= |bs| && Sized(bs[height - 1])
    requires !bs[height - 1].HasEmptyRoot() && i < |bs[height - 1].evds|
    ensures var evds := bs[height - 1].evds;
      var k := EvidenceKey(height, evds[i].hash);
      k in kv && kv[k] == EvidenceRecord(LastWith(evds, evds[i].hash))
  {
    var e := bs[height - 1].evds[i];
    assert e in bs[height - 1].evds && e.hash in EvidenceOf(bs[height - 1]);
    assert Lookup(kv, EvidenceKey(height, e.hash)) == EvidenceAt(bs, height, e.hash);
  }

  lemma {:induction false} StoredAccount(kv: Store, bs: History, key: Bytes, a: Bytes)
    requires |bs| < TWO_64 && AgreeOnAccounts(kv, bs) && |key| == PUB_KEY_LENGTH && |a| == HASH_LENGTH
    ensures AccountKey(key, a) in kv <==> HeightOfAccount(bs, key, a) > 0
    ensures AccountKey(key, a) in kv ==>
      && kv[AccountKey(key, a)].Raw? && |kv[AccountKey(key, a)].bytes| == 8
      && ByteH(kv[AccountKey(key, a)].bytes) == HeightOfAccount(bs, key, a)
  {
    assert Lookup(kv, AccountKey(key, a)) == Height(HeightOfAccount(bs, key, a));
  }

  // ---- arguments of any length ----

  /** What the store has under a tag followed by any bytes: a longer argument can spell the key of
      a score or of an account's evidence whose public key starts with the tag. */
  function Under(bs: History, tag: byte, hash: Bytes): (n: nat)
    ensures n <= |bs|
  {
    if |hash| == HASH_LENGTH then (if tag == HEADER_HEIGHT then HeightOfHash(bs, hash) else HeightOfEvidence(bs, hash))
    else if |hash| == 37 && hash[32..] == SCORE_SUFFIX then Score(bs, [tag] + hash[..32])
    else if |hash| == 65 && hash[32] == EVIDENCE then HeightOfAccount(bs, [tag] + hash[..32], hash[33..])
    else 0
  }

  lemma {:induction false} UnderAnyTag(kv: Store, bs: History, tag: byte, hash: Bytes)
    requires Agrees(kv, bs) && Built(kv) && (tag == HEADER_HEIGHT || tag == EVIDENCE_HEIGHT)
    ensures Lookup(kv, TaggedKey(tag, hash)) == Height(Under(bs, tag, hash))
  {
    hide HeightOfHash, HeightOfEvidence, HeightOfAccount, Score, AgreeOnBlocks, HByte, Height;
    var k := TaggedKey(tag, hash);
    if |hash| == HASH_LENGTH {
      assert k == if tag == HEADER_HEIGHT then HeaderHeightKey(hash) else EvidenceHeightKey(hash);
    } else if |hash| == 37 && hash[32..] == SCORE_SUFFIX {
      assert k == ScoreKey([tag] + hash[..32]);
    } else if |hash| == 65 && hash[32] == EVIDENCE {
      assert k == AccountKey([tag] + hash[..32], hash[33..]);
    } else {
      NotMade(tag, hash);
      NoHeight();
    }
  }

  lemma {:induction false} NoHeight()
    ensures Height(0) == None
  {
  }

  lemma {:induction false} NotMade(tag: byte, hash: Bytes)
    requires (tag == HEADER_HEIGHT || tag == EVIDENCE_HEIGHT) && |hash| != HASH_LENGTH
    requires !(|hash| == 37 && hash[32..] == SCORE_SUFFIX) && !(|hash| == 65 && hash[32] == EVIDENCE)
    ensures !MadeKey(TaggedKey(tag, hash))
  {
    var k := TaggedKey(tag, hash);
    if |hash| == 37 { assert k[PUB_KEY_LENGTH..] == hash[32..]; }
  }

  /** No header is stored under a hash of these lengths. */
  lemma {:induction false} NoSuchHeader(kv: Store, height: uint64, hash: Bytes)
    requires Built(kv) && |hash| !in {1, 29, HASH_LENGTH, 57}
    ensures HeaderKey(height, hash) !in kv
  {
    hide HByte;
    assert !MadeKey(HeaderKey(height, hash));
  }

  lemma {:induction false} FoundEvidence(kv: Store, bs: History, hash: Bytes)
    requires |bs| < TWO_64 && AgreeOnEvidence(kv, bs) && |hash| == HASH_LENGTH && HeightOfEvidence(bs, hash) > 0
    ensures var h := HeightOfEvidence(bs, hash);
      && Carries(bs[h - 1], hash)
      && EvidenceKey(h, hash) in kv && kv[EvidenceKey(h, hash)] == EvidenceRecord(LastWith(bs[h - 1].evds, hash))
  {
    hide EvidenceKey, EvidenceHeightKey, LastWith, Height;
    var h := HeightOfEvidence(bs, hash);
    assert Carries(bs[h - 1], hash);
    hide HeightOfEvidence;
    assert Lookup(kv, EvidenceKey(h, hash)) == EvidenceAt(bs, h, hash);
  }

  // ---- scanning an account's keys ----

  /** What the store has under a key of another family that begins with an account's prefix: a
      public key may spell the tag, the height and the first bytes of the hash. */
  function Stray(bs: History, key: Bytes, a: Bytes): Option<Value>
    requires |key| == PUB_KEY_LENGTH
  {
    if |a| != 7 then None
    else
      var k := AccountPrefix(key) + a;
      var height := ByteH(k[1..9]);
      BigEndian.Widths();
      BigEndian.PutGet(k[1..9]);
      if k[0] == HEADER then HeaderAt(bs, height, k[9..])
      else if k[0] == BLOCK then HashesAt(bs, height, k[9..])
      else if k[0] == EVIDENCE then EvidenceAt(bs, height, k[9..])
      else None
  }

  /** What a scan of an account's prefix finds: its evidence and the stray entries. */
  ghost predicate InScan(bs: History, key: Bytes, a: Bytes)
    requires |key| == PUB_KEY_LENGTH
  {
    (|a| == HASH_LENGTH && HeightOfAccount(bs, key, a) > 0) || Stray(bs, key, a).Some?
  }

  function ScannedHeight(bs: History, key: Bytes, a: Bytes): nat
    requires |key| == PUB_KEY_LENGTH
  {
    if Stray(bs, key, a).Some? then ReadHeight(Stray(bs, key, a).value) else HeightOfAccount(bs, key, a)
  }

  /** A key of 41 bytes is one of a tag, a height and a hash. */
  lemma {:induction false} LongKey(k: Bytes)
    requires |k| == 41
    ensures ByteH(k[1..9]) < TWO_64 && HeightKey(k[0], HByte(ByteH(k[1..9])), k[9..]) == k
  {
    BigEndian.Widths();
    BigEndian.PutGet(k[1..9]);
  }

  lemma {:induction false} StrayLookup(kv: Store, bs: History, key: Bytes, a: Bytes)
    requires Agrees(kv, bs) && Built(kv) && |key| == PUB_KEY_LENGTH && |a| == 7
    ensures Lookup(kv, AccountPrefix(key) + a) == Stray(bs, key, a)
  {
    hide HeaderAt, HashesAt, EvidenceAt, AgreeOnHeights, AgreeOnAccounts, HByte, ByteH, HeightKey;
    var k := AccountPrefix(key) + a;
    LongKey(k);
    if k[0] == HEADER {
      assert k == HeaderKey(ByteH(k[1..9]), k[9..]);
    } else if k[0] == BLOCK {
      assert k == BlockKey(ByteH(k[1..9]), k[9..]);
    } else if k[0] == EVIDENCE {
      assert k == EvidenceKey(ByteH(k[1..9]), k[9..]);
    } else {
      assert !MadeKey(k);
    }
  }

  /** The entries under an account's prefix, whatever the account's key. */
  lemma {:induction false} ScanFinds(kv: Store, bs: History, key: Bytes, a: Bytes)
    requires Agrees(kv, bs) && Built(kv) && |key| == PUB_KEY_LENGTH
    ensures AccountPrefix(key) + a in kv <==> InScan(bs, key, a)
    ensures InScan(bs, key, a) ==> ReadHeight(kv[AccountPrefix(key) + a]) == ScannedHeight(bs, key, a)
  {
    hide AgreeOnBlocks, AgreeOnHeights, AgreeOnEvidence, AgreeOnAccounts, Built, HeightOfAccount, HeaderAt, HashesAt,
         EvidenceAt, Written, ByteH, HByte;
    var k := AccountPrefix(key) + a;
    if |a| == 7 {
      StrayLookup(kv, bs, key, a);
    } else if |a| == HASH_LENGTH {
      StoredAccount(kv, bs, key, a);
    } else {
      assert !MadeKey(k) by { NoAccountKey(key, a); }
      BuiltKey(kv, k);
    }
  }

  lemma {:induction false} BuiltKey(kv: Store, k: Bytes)
    requires Built(kv) && !MadeKey(k)
    ensures k !in kv
  {
  }

  lemma {:induction false} NoAccountKey(key: Bytes, a: Bytes)
    requires |key| == PUB_KEY_LENGTH && |a| != 7 && |a| != HASH_LENGTH
    ensures !MadeKey(AccountPrefix(key) + a)
  {
    var k := AccountPrefix(key) + a;
    if |a| == 4 { assert k[PUB_KEY_LENGTH..][0] == EVIDENCE; }
  }

  /** The keys under a prefix are still to do or found. */
  ghost predicate Scanning(kv: Store, prefix: Bytes, todo: set<Bytes>, r: map<Bytes, uint64>)
    requires |prefix| == 34
  {
    && (forall k | k in todo :: k in kv && prefix <= k)
    && (forall a | a in r :: prefix + a in kv && r[a] == ReadHeight(kv[prefix + a]))
    && (forall k | k in kv && prefix <= k && k !in todo :: k[34..] in r)
  }

  lemma {:induction false} ScanStart(kv: Store, prefix: Bytes, todo: set<Bytes>)
    requires |prefix| == 34 && todo == set k | k in kv && prefix <= k
    ensures Scanning(kv, prefix, todo, map[])
  {
  }

  lemma {:induction false} ScanOne(kv: Store, prefix: Bytes, todo: set<Bytes>, r: map<Bytes, uint64>, k: Bytes)
    requires |prefix| == 34 && Scanning(kv, prefix, todo, r) && k in todo
    ensures k in kv && |k| >= 34 && Scanning(kv, prefix, todo - {k}, r[k[34..] := ReadHeight(kv[k])])
  {
    hide ReadHeight;
    assert k == prefix + k[34..];
  }

  lemma {:induction false} ScanDone(kv: Store, bs: History, key: Bytes, r: map<Bytes, uint64>)
    requires Agrees(kv, bs) && Built(kv) && |key| == PUB_KEY_LENGTH && Scanning(kv, AccountPrefix(key), {}, r)
    ensures forall a: Bytes :: a in r <==> InScan(bs, key, a)
    ensures forall a | a in r :: r[a] == ScannedHeight(bs, key, a)
    ensures (forall a: Bytes :: a in r <==> |a| == HASH_LENGTH && HeightOfAccount(bs, key, a) > 0) <==>
      forall a: Bytes :: Stray(bs, key, a) == None
  {
    hide Agrees, Built, HeightOfAccount, AccountPrefix, ReadHeight, Stray, ScannedHeight;
    var prefix := AccountPrefix(key);
    forall a: Bytes ensures a in r <==> InScan(bs, key, a)
      ensures a in r ==> r[a] == ScannedHeight(bs, key, a)
    {
      ScanFinds(kv, bs, key, a);
      assert (prefix + a)[34..] == a && prefix <= prefix + a;
    }
    StraysAreShort(bs, key);
  }

  lemma {:induction false} StraysAreShort(bs: History, key: Bytes)
    requires |key| == PUB_KEY_LENGTH
    ensures forall a: Bytes | Stray(bs, key, a).Some? :: |a| == 7
  {
    hide HeaderAt, HashesAt, EvidenceAt, ByteH;
  }

  /** Every public key that spells the beginning of a stored evidence key meets it. */
  lemma {:induction false} StrayEvidence(bs: History, height: uint64, hash: Bytes)
    requires 1 <= height <= |bs| && Carries(bs[height - 1], hash) && |hash| == HASH_LENGTH && hash[24] == EVIDENCE
    ensures var key := [EVIDENCE] + HByte(height) + hash[..24];
      |key| == PUB_KEY_LENGTH && Stray(bs, key, hash[25..]) == Some(EvidenceRecord(LastWith(bs[height - 1].evds, hash)))
  {
    hide ByteH, HByte, LastWith, Carries;
    var key := [EVIDENCE] + HByte(height) + hash[..24];
    var k := AccountPrefix(key) + hash[25..];
    assert k[1..9] == HByte(height) && k[9..] == hash;
  }

  lemma {:induction false} OnlyFullHashes(bs: History, hash: Bytes)
    requires forall p | 0 <= p < |bs| :: Sized(bs[p])
    ensures |hash| != HASH_LENGTH ==> HeightOfHash(bs, hash) == 0
  {
    var h := HeightOfHash(bs, hash);
    if h > 0 { SizedHash(bs[h - 1]); }
  }

  lemma {:induction false} OnlyFullEvidence(bs: History, hash: Bytes)
    requires forall p | 0 <= p < |bs| :: Sized(bs[p])
    ensures |hash| != HASH_LENGTH ==> HeightOfEvidence(bs, hash) == 0
    ensures |hash| == HASH_LENGTH ==> Under(bs, EVIDENCE_HEIGHT, hash) == HeightOfEvidence(bs, hash)
    ensures |hash| != HASH_LENGTH && Under(bs, EVIDENCE_HEIGHT, hash) > 0 ==> |hash| in {37, 65}
  {
    var h := HeightOfEvidence(bs, hash);
    if h > 0 { assert Sized(bs[h - 1]); }
  }

  lemma {:induction false} NoSuchEvidence(kv: Store, height: uint64, hash: Bytes)
    requires Built(kv) && |hash| in {37, 65}
    ensures EvidenceKey(height, hash) !in kv
  {
    hide HByte;
    assert !MadeKey(EvidenceKey(height, hash));
  }

  lemma {:induction false} SizedHash(b: Block)
    requires Sized(b)
    ensures |b.hash| == HASH_LENGTH
  {
  }

  // ---- the store itself ----

  /** The key-value store; a transaction collects its writes and commits them at once. */
  class BlockStore {
    var kv: Store
    ghost var blocks: History

    ghost predicate Indexed()
      reads this
    {
      && |blocks| < TWO_63
      && Agrees(kv, blocks)
      && Built(kv)
      && (forall p | 0 <= p < |blocks| :: Sized(blocks[p]))
      && (blocks != [] <==> GENESIS_KEY in kv)
    }

    /** The store indexes the chain of its blocks. The definition comes into play only next
        to a mention of `Opened`, so users of the store reason with the name alone. */
    ghost predicate Valid()
      reads this
    {
      forall key {:trigger Opened(key)} :: Opened(key) ==> Indexed()
    }

    constructor ()
      ensures Valid() && blocks == []
    {
      kv := map[];
      blocks := [];
    }

    /** One evidence of a transaction. */
    method PutEvidence(tx: Store, e: Evidence, height: uint64) returns (out: Store)
      ensures out == PutOneEvidence(tx, e, height)
    {
      out := tx[EvidenceKey(height, e.hash) := EvidenceRecord(e)];
      out := out[EvidenceHeightKey(e.hash) := Raw(HByte(height))];
      out := out[AccountKey(e.pubKey, e.hash) := Raw(HByte(height))];
    }

    /** The transaction's writes for one block, evidence by evidence. */
    method PutTx(tx: Store, b: Block, height: uint64) returns (out: Store)
      ensures out == PutBlockTx(tx, b, height)
    {
      hide PutOneEvidence, EvidenceKey, EvidenceHeightKey, AccountKey, HeaderKey, HashKey, HeaderHeightKey, BlockKey,
           ScoreKey, HByte, FamilyOf;
      out := tx;
      if !b.HasEmptyRoot() {
        var hashes: seq<Bytes> := [];
        for i := 0 to |b.evds|
          invariant out == PutEvidences(tx, b.evds[..i], height)
          invariant |hashes| == i && forall j | 0 <= j < i :: hashes[j] == b.evds[j].hash
        {
          out := PutEvidence(out, b.evds[i], height);
          hashes := hashes + [b.evds[i].hash];
          assert b.evds[..i + 1][..i] == b.evds[..i];
        }
        assert b.evds[..|b.evds|] == b.evds;
        assert hashes == EvidenceHashes(b.evds);
        out := out[BlockKey(height, b.hash) := HashList(hashes)];
      }
      out := out[HeaderKey(height, b.hash) := HeaderRecord(b.header, height)];
      out := out[HashKey(height) := Raw(b.hash)];
      out := out[HeaderHeightKey(b.hash) := Raw(HByte(height))];
      out := out[ScoreKey(b.header.miner) := Raw(HByte(NextScore(out, b.header.miner)))];
      out := out[LATEST_HEIGHT_KEY := Raw(HByte(height))];
    }

    method PutGenesis(b: Block)
      requires Valid() && blocks == [] && Sized(b)
      modifies this
      ensures Valid() && blocks == [b]
    {
      hide Agrees, Built, PutBlockTx, Sized;
      assert Opened(0);
      PutAgrees(kv, blocks, b);
      PutBuilt(kv, b, 1);
      kv := PutTx(kv, b, 1);
      GenesisMarkIsApart(kv, [] + [b], Raw([0x30]));
      kv := kv[GENESIS_KEY := Raw([0x30])];
      blocks := blocks + [b];
    }

    method GetLatestHeight() returns (r: Option<uint64>)
      requires Valid()
      ensures r == if blocks == [] then None else Some(|blocks|)
    {
      hide AgreeOnBlocks, AgreeOnEvidence, AgreeOnAccounts, Built, HeightOfHash;
      assert Opened(0);
      if LATEST_HEIGHT_KEY !in kv { return None; }
      return Some(ByteH(kv[LATEST_HEIGHT_KEY].bytes));
    }

    /** Stores the block next after the newest one, and refuses any other height. */
    method PutBlock(b: Block, height: uint64) returns (ok: bool)
      requires Valid() && Sized(b) && |blocks| + 1 < TWO_63
      modifies this
      ensures Valid()
      ensures ok <==> old(blocks) != [] && height == |old(blocks)| + 1
      ensures blocks == if ok then old(blocks) + [b] else old(blocks)
    {
      hide Agrees, Built, PutBlockTx, Sized;
      assert Opened(0);
      var latest := GetLatestHeight();
      if latest.None? || height != latest.value + 1 { return false; }
      PutAgrees(kv, blocks, b);
      PutBuilt(kv, b, height);
      kv := PutTx(kv, b, height);
      blocks := blocks + [b];
      ok := true;
    }

    method GetHash(height: uint64) returns (r: Option<Bytes>)
      requires Valid()
      ensures r == if 1 <= height <= |blocks| then Some(blocks[height - 1].hash) else None
    {
      hide AgreeOnHeights, AgreeOnEvidence, AgreeOnAccounts, Built, HashKey;
      assert Opened(0);
      assert Lookup(kv, HashKey(height)) == HashAt(blocks, height);
      if HashKey(height) !in kv { return None; }
      return Some(kv[HashKey(height)].bytes);
    }

    /** Height under which a hash is indexed; bytes of another length can meet another entry. */
    method GetHeaderHeight(hash: Bytes) returns (r: Option<uint64>)
      requires Valid()
      ensures var h := Under(blocks, HEADER_HEIGHT, hash); r == if h == 0 then None else Some(h)
    {
      hide Agrees, Built, Under, TaggedKey, ByteH;
      assert Opened(0);
      UnderAnyTag(kv, blocks, HEADER_HEIGHT, hash);
      if HeaderHeightKey(hash) !in kv { return None; }
      return Some(ByteH(kv[HeaderHeightKey(hash)].bytes));
    }

    /** Header and height of a hash; only 32-byte hashes of stored blocks have them. */
    method GetHeaderViaHash(hash: Bytes) returns (r: Option<(Header, uint64)>)
      requires Valid()
      ensures var h := HeightOfHash(blocks, hash); r == if h == 0 then None else Some((blocks[h - 1].header, h))
    {
      hide AgreeOnBlocks, AgreeOnHeights, AgreeOnAccounts, AgreeOnEvidence, Built, HeaderKey, Sized, HeightOfHash,
           Score, HeightOfAccount, HeightOfEvidence;
      assert Opened(0);
      var height := GetHeaderHeight(hash);
      OnlyFullHashes(blocks, hash);
      if height.None? { return None; }
      if |hash| == HASH_LENGTH {
        StoredHeader(kv, blocks, height.value, hash);
      } else {
        NoSuchHeader(kv, height.value, hash);
      }
      if HeaderKey(height.value, hash) !in kv { return None; }
      return Some((kv[HeaderKey(height.value, hash)].header, height.value));
    }

    /** Whether a stored block carries this evidence; bytes of another length can meet another entry. */
    method HasEvidence(hash: Bytes) returns (r: bool)
      requires Valid()
      ensures r <==> Under(blocks, EVIDENCE_HEIGHT, hash) > 0
      ensures |hash| == HASH_LENGTH ==> (r <==> hash in StoredEvidence(blocks))
    {
      hide Agrees, Built, TaggedKey, HeightOfEvidence, StoredEvidence, Score, HeightOfAccount;
      assert Opened(0);
      UnderAnyTag(kv, blocks, EVIDENCE_HEIGHT, hash);
      KnownEvidence(blocks, hash);
      r := EvidenceHeightKey(hash) in kv;
    }

    method GetScoreViaKey(key: Bytes) returns (r: nat)
      requires Valid() && |key| == PUB_KEY_LENGTH
      ensures r == Score(blocks, key)
    {
      hide AgreeOnBlocks, AgreeOnHeights, AgreeOnEvidence, Built, ScoreKey, Score;
      assert Opened(0);
      assert Lookup(kv, ScoreKey(key)) == Height(Score(blocks, key));
      if ScoreKey(key) !in kv { return 0; }
      return ByteH(kv[ScoreKey(key)].bytes);
    }

    /** Header and evidence under a height and a hash that belong together. */
    method GetBlock(height: uint64, hash: Bytes) returns (r: Option<Block>)
      requires Valid() && |hash| !in {1, 29, 57}
      ensures r == if 1 <= height <= |blocks| && blocks[height - 1].hash == hash
                   then Some(ReadBack(blocks[height - 1])) else None
    {
      hide AgreeOnBlocks, AgreeOnHeights, AgreeOnAccounts, AgreeOnEvidence, Built, HeaderKey, BlockKey, EvidenceKey,
           LastWith, Sized;
      assert Opened(0);
      if |hash| == HASH_LENGTH { StoredHeader(kv, blocks, height, hash); } else { NoSuchHeader(kv, height, hash); }
      if 1 <= height <= |blocks| { SizedHash(blocks[height - 1]); }
      if HeaderKey(height, hash) !in kv { return None; }
      var header := kv[HeaderKey(height, hash)].header;
      var evds: seq<Evidence> := [];
      if header.root != EMPTY_EVIDENCE_ROOT {
        StoredHashes(kv, blocks, height);
        var hashes := kv[BlockKey(height, hash)].hashes;
        ghost var b := blocks[height - 1];
        for i := 0 to |hashes|
          invariant |evds| == i && forall j | 0 <= j < i :: evds[j] == LastWith(b.evds, b.evds[j].hash)
        {
          StoredRecord(kv, blocks, height, i);
          evds := evds + [kv[EvidenceKey(height, hashes[i])].evidence];
        }
        assert evds == ReadBack(b).evds;
      }
      return Some(Block(hash, header, evds));
    }

    method GetBlockViaHeight(height: uint64) returns (r: Option<Block>)
      requires Valid()
      ensures r == if 1 <= height <= |blocks| then Some(ReadBack(blocks[height - 1])) else None
    {
      hide Agrees, Built, ReadBack;
      assert Opened(0);
      var hash := GetHash(height);
      if hash.None? { return None; }
      r := GetBlock(height, hash.value);
    }

    method GetBlockViaHash(hash: Bytes) returns (r: Option<(Block, uint64)>)
      requires Valid()
      ensures var h := HeightOfHash(blocks, hash);
        r == if h == 0 then None else Some((ReadBack(blocks[h - 1]), h))
    {
      hide Agrees, Built, ReadBack, HeightOfHash, Score, HeightOfAccount, HeightOfEvidence, Sized;
      assert Opened(0);
      var height := GetHeaderHeight(hash);
      OnlyFullHashes(blocks, hash);
      if height.None? { return None; }
      if |hash| != HASH_LENGTH && 1 <= height.value <= |blocks| { SizedHash(blocks[height.value - 1]); }
      var b := GetBlock(height.value, hash);
      if b.None? { return None; }
      return Some((b.value, height.value));
    }

    /** The header and hash at a height. */
    method GetHeaderViaHeight(height: uint64) returns (r: Option<(Header, Bytes)>)
      requires Valid()
      ensures r == if 1 <= height <= |blocks| then Some((blocks[height - 1].header, blocks[height - 1].hash)) else None
    {
      hide AgreeOnBlocks, AgreeOnHeights, AgreeOnAccounts, AgreeOnEvidence, Built, HeaderKey, Sized;
      assert Opened(0);
      var hash := GetHash(height);
      if hash.None? { return None; }
      assert Sized(blocks[height - 1]);
      SizedHash(blocks[height - 1]);
      StoredHeader(kv, blocks, height, hash.value);
      return Some((kv[HeaderKey(height, hash.value)].header, hash.value));
    }

    /** A piece of evidence with this hash from the newest block that has one, and its height. */
    method GetEvidenceViaHash(hash: Bytes) returns (r: Option<(Evidence, uint64)>)
      requires Valid()
      ensures var h := HeightOfEvidence(blocks, hash);
        if h == 0 then r == None
        else Carries(blocks[h - 1], hash) && r == Some((LastWith(blocks[h - 1].evds, hash), h))
    {
      hide AgreeOnBlocks, AgreeOnHeights, AgreeOnEvidence, AgreeOnAccounts, Built, EvidenceKey, TaggedKey,
           HeightOfEvidence, LastWith, Sized, Carries, ByteH, Under;
      assert Opened(0);
      UnderAnyTag(kv, blocks, EVIDENCE_HEIGHT, hash);
      OnlyFullEvidence(blocks, hash);
      if EvidenceHeightKey(hash) !in kv { return None; }
      var height := ByteH(kv[EvidenceHeightKey(hash)].bytes);
      if |hash| == HASH_LENGTH { FoundEvidence(kv, blocks, hash); } else { NoSuchEvidence(kv, height, hash); }
      if EvidenceKey(height, hash) !in kv { return None; }
      return Some((kv[EvidenceKey(height, hash)].evidence, height));
    }

    /** The entries under an account's prefix: the account's evidence with its heights, and whatever
        other entries the key spells. They are the account's evidence alone exactly if no stored
        header, hash list or evidence has a key that begins with the prefix. */
    method GetEvidenceViaKey(key: Bytes) returns (r: map<Bytes, uint64>)
      requires Valid() && |key| == PUB_KEY_LENGTH
      ensures forall a: Bytes :: a in r <==> InScan(blocks, key, a)
      ensures forall a | a in r :: r[a] == ScannedHeight(blocks, key, a)
      ensures (forall a: Bytes :: a in r <==> |a| == HASH_LENGTH && HeightOfAccount(blocks, key, a) > 0) <==>
        forall a: Bytes :: Stray(blocks, key, a) == None
    {
      hide Agrees, Built, AccountPrefix, ReadHeight, Sized, Scanning, InScan, ScannedHeight;
      assert Opened(0);
      var prefix := AccountPrefix(key);
      var todo := set k | k in kv && prefix <= k;
      r := map[];
      ScanStart(kv, prefix, todo);
      while todo != {}
        invariant todo <= kv.Keys && Scanning(kv, prefix, todo, r)
      {
        var k :| k in todo;
        ScanOne(kv, prefix, todo, r, k);
        r := r[k[34..] := ReadHeight(kv[k])];
        todo := todo - {k};
      }
      ScanDone(kv, blocks, key, r);
    }
  }
}
