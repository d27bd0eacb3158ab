/** How a node builds the blocks it mines (core/scheduler.go), against the rules by which any
    node accepts blocks (core/blockchain/branch.go, serialize/cp). */
module Producer {
  import opened Records
  import opened Difficulty
  import opened Codec
  import opened Pow
  import opened Merkle
  import opened ChainModel
  import opened ChainInvariants
  import opened Mining
  import opened Database

  const BLOCK_SIZE: nat := 1024 * 1024
  const SMALLEST_EVIDENCE: nat := EVIDENCE_BASIC_LEN + HASH_LENGTH + PUB_KEY_LENGTH

  /** What stays foreign: the hash, the signature and description checks, the limits and the
      retarget scale. */
  datatype Params = Params(
    H: Bytes -> Bytes, signed: Evidence -> bool, evidenceLimit: nat, limit: uint32, scale: (int, int) -> real)

  // ---- the rules, spelled out ----

  predicate EvidenceValid(p: Params, e: Evidence) {
    e.version == CORE_PROTOCOL_V1 && |e.hash| == HASH_LENGTH && |e.pubKey| == PUB_KEY_LENGTH && p.signed(e)
  }

  predicate HeaderValid(h: Header) {
    && h.version == CORE_PROTOCOL_V1 && |h.lastHash| == HASH_LENGTH && |h.miner| == PUB_KEY_LENGTH
    && (h.root == EMPTY_EVIDENCE_ROOT || |h.root| == HASH_LENGTH)
  }

  /** A block goes by the hash of its header; it carries evidence exactly if its root is not empty. */
  predicate BlockValid(p: Params, b: Block) {
    && b.hash == p.H(MarshalHeader(b.header)) && HeaderValid(b.header)
    && (b.HasEmptyRoot() <==> b.evds == [])
    && (forall e | e in b.evds :: EvidenceValid(p, e))
  }

  function LeafHashes(p: Params, evds: seq<Evidence>): (r: seq<Bytes>)
    ensures |r| == |evds| && forall k | 0 <= k < |evds| :: r[k] == p.H(MarshalEvidence(evds[k]))
  {
    seq(|evds|, k requires 0 <= k < |evds| => p.H(MarshalEvidence(evds[k])))
  }

  function EvidenceRoot(p: Params, evds: seq<Evidence>): Bytes {
    if evds == [] then [] else Root(p.H, LeafHashes(p, evds))
  }

  function RulesOf(p: Params): Rules {
    Rules(
      (b: Block) => BlockValid(p, b),
      (e: Evidence) => EvidenceValid(p, e) && EvidencePow(p.H, e) < p.evidenceLimit,
      (b: Block) => HeaderPow(p.H, b.header),
      (evds: seq<Evidence>) => EvidenceRoot(p, evds),
      p.limit, p.scale)
  }

  ghost predicate HashLength(p: Params) {
    forall m: Bytes :: |p.H(m)| == HASH_LENGTH
  }

  /** The structural checks are as strict as the chain relies on. */
  lemma {:induction false} RulesCheckBlocks(p: Params)
    requires HashLength(p)
    ensures ChecksBlocks(RulesOf(p))
  {
    hide MarshalHeader, MarshalEvidence, EvidencePow, HeaderPow, EvidenceRoot;
  }

  // ---- collecting evidence ----

  /** The size of the evidence the chain accepts. */
  function AcceptedSize(evds: seq<Evidence>, accepted: Evidence -> bool): nat {
    if evds == [] then 0
    else
      var n := |evds| - 1;
      AcceptedSize(evds[..n], accepted) + if accepted(evds[n]) then Size(evds[n]) else 0
  }

  lemma {:induction false} SizeGrows(evds: seq<Evidence>, e: Evidence, accepted: Evidence -> bool)
    ensures AcceptedSize(evds + [e], accepted) == AcceptedSize(evds, accepted) + if accepted(e) then Size(e) else 0
  {
    assert (evds + [e])[..|evds|] == evds;
  }

  lemma {:induction false} SizeOfNone(accepted: Evidence -> bool)
    ensures AcceptedSize([], accepted) == 0
  {
  }

  /** Takes evidence from the pool until a block is full; what the chain refuses is dropped, and
      of several with one hash the last is kept. */
  method GetEvidence(pool: seq<Evidence>, accepted: Evidence -> bool) returns (evds: seq<Evidence>, taken: nat)
    requires forall e | accepted(e) :: |e.hash| == HASH_LENGTH && |e.pubKey| == PUB_KEY_LENGTH
    ensures taken <= |pool| && forall e | e in evds :: LastOf(e, pool[..taken], accepted)
    ensures forall i, j | 0 <= i < j < |evds| :: evds[i].hash != evds[j].hash
    ensures forall e | e in pool[..taken] && accepted(e) :: Listed(evds, e.hash)
    ensures taken == |pool| || AcceptedSize(pool[..taken], accepted) >= 1048576
    ensures taken > 0 ==> AcceptedSize(pool[..taken - 1], accepted) < 1048576
    ensures |evds| <= 13798
  {
    hide Listed, AcceptedSize, Collected, LastOf;
    SizeOfNone(accepted);
    var found: map<Bytes, Evidence> := map[];
    var size := 0;
    taken := 0;
    NothingCollected(pool, accepted);
    while size < BLOCK_SIZE && taken < |pool|
      invariant taken <= |pool| && Collected(found, pool[..taken], accepted)
      invariant SMALLEST_EVIDENCE * |found| <= size && |found| <= 13798
      invariant size == AcceptedSize(pool[..taken], accepted)
      invariant taken > 0 ==> AcceptedSize(pool[..taken - 1], accepted) < BLOCK_SIZE
    {
      var e := pool[taken];
      CollectOne(found, pool, taken, accepted);
      FewPieces(|found|);
      SizeGrows(pool[..taken], e, accepted);
      taken := taken + 1;
      if accepted(e) {
        found := found[e.hash := e];
        size := size + Size(e);
      }
    }
    CollectedMap(found, pool[..taken], accepted);
    evds := Values(found);
  }

  /** So many pieces of the smallest size do not fill a block. */
  lemma {:induction false} FewPieces(n: nat)
    requires SMALLEST_EVIDENCE * n < BLOCK_SIZE
    ensures n < 13798
  {
    assert SMALLEST_EVIDENCE == 76 && BLOCK_SIZE == 1048576;
  }

  /** The last accepted evidence with its hash among some. */
  ghost predicate LastOf(e: Evidence, some: seq<Evidence>, accepted: Evidence -> bool) {
    accepted(e) && exists k | 0 <= k < |some| ::
      some[k] == e && forall j | k < j < |some| && accepted(some[j]) :: some[j].hash != e.hash
  }

  lemma {:induction false} LastAmongMore(e: Evidence, some: seq<Evidence>, more: Evidence, accepted: Evidence -> bool)
    ensures LastOf(e, some, accepted) && (accepted(more) ==> more.hash != e.hash) ==> LastOf(e, some + [more], accepted)
    ensures accepted(more) ==> LastOf(more, some + [more], accepted)
  {
    var all := some + [more];
    assert all[|some|] == more;
    if LastOf(e, some, accepted) && (accepted(more) ==> more.hash != e.hash) {
      var k :| 0 <= k < |some| && some[k] == e
          && forall j | k < j < |some| && accepted(some[j]) :: some[j].hash != e.hash;
      assert all[k] == e;
      assert forall j | k < j < |all| && accepted(all[j]) :: all[j].hash != e.hash;
    }
  }

  /** The accepted evidence among some, the last of each hash. */
  ghost predicate Collected(found: map<Bytes, Evidence>, some: seq<Evidence>, accepted: Evidence -> bool) {
    && (forall h | h in found :: found[h].hash == h && LastOf(found[h], some, accepted))
    && (forall e | e in some && accepted(e) :: e.hash in found)
  }

  lemma {:induction false} NothingCollected(pool: seq<Evidence>, accepted: Evidence -> bool)
    ensures Collected(map[], pool[..0], accepted)
  {
  }

  lemma {:induction false} CollectedMap(found: map<Bytes, Evidence>, some: seq<Evidence>, accepted: Evidence -> bool)
    requires Collected(found, some, accepted)
    ensures forall h | h in found :: found[h].hash == h && LastOf(found[h], some, accepted)
    ensures forall e | e in some && accepted(e) :: e.hash in found
  {
  }

  lemma {:induction false} CollectOne(found: map<Bytes, Evidence>, pool: seq<Evidence>, n: nat,
      accepted: Evidence -> bool)
    requires n < |pool| && Collected(found, pool[..n], accepted)
    ensures var e := pool[n];
      && pool[..n + 1] == pool[..n] + [e]
      && Collected(if accepted(e) then found[e.hash := e] else found, pool[..n + 1], accepted)
      && |found[e.hash := e]| <= |found| + 1
  {
    hide LastOf;
    assert pool[..n + 1] == pool[..n] + [pool[n]];
    LastAmongMore(pool[n], pool[..n], pool[n], accepted);
    forall h | h in found ensures LastOf(found[h], pool[..n], accepted) {
    }
    forall h | h in found && (accepted(pool[n]) ==> h != pool[n].hash)
      ensures LastOf(found[h], pool[..n + 1], accepted)
    {
      LastAmongMore(found[h], pool[..n], pool[n], accepted);
    }
  }

  /** The values of a map in any order. */
  method Values(m: map<Bytes, Evidence>) returns (vs: seq<Evidence>)
    requires forall h | h in m :: m[h].hash == h
    ensures |vs| == |m| && forall v | v in vs :: v.hash in m && m[v.hash] == v
    ensures forall i, j | 0 <= i < j < |vs| :: vs[i].hash != vs[j].hash
    ensures forall h | h in m :: Listed(vs, h)
  {
    vs := [];
    var todo := m.Keys;
    while todo != {}
      invariant todo <= m.Keys && |vs| + |todo| == |m|
      invariant forall v | v in vs :: v.hash in m && v.hash !in todo && m[v.hash] == v
      invariant forall i, j | 0 <= i < j < |vs| :: vs[i].hash != vs[j].hash
      invariant forall h | h in m && h !in todo :: Listed(vs, h)
    {
      hide Listed;
      var h :| h in todo;
      forall g ensures Listed(vs + [m[h]], g) <==> Listed(vs, g) || h == g { ListedMore(vs, m[h], g); }
      vs := vs + [m[h]];
      todo := todo - {h};
    }
  }

  ghost predicate Listed(vs: seq<Evidence>, h: Bytes) {
    exists k | 0 <= k < |vs| :: vs[k].hash == h
  }

  lemma {:induction false} ListedMore(vs: seq<Evidence>, v: Evidence, h: Bytes)
    ensures Listed(vs + [v], h) <==> Listed(vs, h) || v.hash == h
  {
    var more := vs + [v];
    assert more[|vs|] == v;
    if Listed(vs, h) {
      var k :| 0 <= k < |vs| && vs[k].hash == h;
      assert more[k].hash == h;
    }
  }

  // ---- building the block ----

  function GenHeader(p: Params, evds: seq<Evidence>, lastHash: Bytes, miner: Bytes, time: int64, target: uint32,
      nonce: uint32): Header {
    Header(CORE_PROTOCOL_V1, time, nonce, target, lastHash, miner,
        if evds == [] then EMPTY_EVIDENCE_ROOT else EvidenceRoot(p, evds))
  }

  /** The block over the evidence, with its target and nonce set. */
  function GenBlock(p: Params, evds: seq<Evidence>, lastHash: Bytes, miner: Bytes, time: int64, target: uint32,
      nonce: uint32): Block {
    var h := GenHeader(p, evds, lastHash, miner, time, target, nonce);
    Block(p.H(MarshalHeader(h)), h, evds)
  }

  lemma {:induction false} RootIsAHash(p: Params, evds: seq<Evidence>)
    requires HashLength(p) && evds != []
    ensures |EvidenceRoot(p, evds)| == HASH_LENGTH
  {
    hide MarshalEvidence, Root;
    RootLength(p.H, LeafHashes(p, evds));
  }

  /** A block built over accepted evidence for the head of a branch, with the target for its time
      and a good nonce, is accepted on that branch exactly if its time is neither before the
      head's nor more than three seconds ahead. */
  lemma {:induction false} ProducedIsAccepted(p: Params, s: State, c: History, evds: seq<Evidence>, miner: Bytes,
      time: int64, nonce: uint32, now: real)
    requires HashLength(p) && |c| > 0 && s.cut <= |c| && |Head(c).hash| == HASH_LENGTH && |miner| == PUB_KEY_LENGTH
    requires forall e | e in evds :: EvidenceAccepted(RulesOf(p), s, c, e)
    requires var target := NextTarget(RulesOf(p), c, time);
      HeaderPow(p.H, GenHeader(p, evds, Head(c).hash, miner, time, target, nonce)) < TargetToDiff(target)
    ensures var b := GenBlock(p, evds, Head(c).hash, miner, time, NextTarget(RulesOf(p), c, time), nonce);
      Accepts(RulesOf(p), s, c, b, now) <==> time >= Head(c).header.time && time as real - now <= 3.0
  {
    hide MarshalHeader, MarshalEvidence, EvidencePow, HeaderPow, EvidenceRoot, NextTarget, TargetToDiff, EvidenceIn,
         StoredEvidence;
    if evds != [] { RootIsAHash(p, evds); }
  }

  lemma {:induction false} SameHead(c: History, d: History)
    requires SameTree(c, d) && |c| > 0 && |d| > 0
    ensures Head(c).hash == Head(d).hash ==> c == d
  {
    if Head(c).hash == Head(d).hash {
      assert c[|c| - 1].hash == d[|d| - 1].hash;
      assert c[..|c|] == c && d[..|d|] == d;
    }
  }

  /** The head of the longest branch is no other branch's head. */
  lemma {:induction false} HeadIsFound(chains: seq<History>, i: nat)
    requires NonEmpty(chains) && Tree(chains) && Leaves(chains) && i < |chains|
    ensures HeadIndex(chains, Head(chains[i]).hash, 0) == i
  {
    var c := chains[i];
    forall j | 0 <= j < |chains| && j != i ensures Head(chains[j]).hash != Head(c).hash {
      SameHead(c, chains[j]);
      assert !(c <= chains[j]);
    }
  }

  /** From evidence and a mining job to the chain: a nonce that any run of the job delivers gives a
      block which the node's own chain, if its longest branch is as it was, puts on top of it. */
  lemma {:induction false} MinedIsAdded(p: Params, g: Block, u: set<Block>, s: State, evds: seq<Evidence>,
      miner: Bytes, time: int64, now: real, coins: nat -> bool, parallel: nat, jobs: seq<Job>,
      steps: seq<Mining.Step>, k: nat, nonce: nat)
    requires HashLength(p) && Sound(g, u, p.limit, s) && Leaves(s.chains) && s.longest < |s.chains|
    requires InMemory(s.chains, s.cut) && |miner| == PUB_KEY_LENGTH
    requires var c := s.chains[s.longest];
      && (forall e | e in evds :: EvidenceAccepted(RulesOf(p), s, c, e))
      && time >= Head(c).header.time && time as real - now <= 3.0
    requires var c := s.chains[s.longest];
      var target := NextTarget(RulesOf(p), c, time);
      var h := GenHeader(p, evds, Head(c).hash, miner, time, target, 0);
      parallel > 0 && IsRun(SetupFor(p.H, TargetToDiff(target), h, parallel), jobs, steps)
    requires k < |jobs| && Nonce(nonce) in jobs[k].delivered
    ensures nonce < TWO_32
    ensures var c := s.chains[s.longest];
      var b := GenBlock(p, evds, Head(c).hash, miner, time, NextTarget(RulesOf(p), c, time), nonce);
      && AddBlocks(RulesOf(p), s, [b], true, now, coins) == Append(s, s.longest, b)
      && forall m :: Score(c + [b], m) == Score(c, m) + if m == miner then 1 else 0
  {
    hide RulesOf, HeaderPow, NextTarget, TargetToDiff, IsRun, SetupFor, Accepts, EvidenceAccepted, HashLength,
         Window, Marks, MarshalHeader;
    var c := s.chains[s.longest];
    var target := NextTarget(RulesOf(p), c, time);
    var h := GenHeader(p, evds, Head(c).hash, miner, time, target, 0);
    DeliveredNonce(p.H, TargetToDiff(target), h, parallel, jobs, steps, k, Nonce(nonce));
    assert GenHeader(p, evds, Head(c).hash, miner, time, target, nonce) == h.(nonce := nonce);
    assert GoodHistory(g, u, p.limit, c) && WellFormed(c[|c| - 1]);
    ProducedIsAccepted(p, s, c, evds, miner, time, nonce, now);
    HeadIsFound(s.chains, s.longest);
    var b := GenBlock(p, evds, Head(c).hash, miner, time, target, nonce);
    AddOne(RulesOf(p), s, b, now, coins);
    CreditsMiner(c, b);
  }

  /** A block raises the score of its miner by one and no other score. */
  lemma {:induction false} CreditsMiner(c: History, b: Block)
    ensures forall m :: Score(c + [b], m) == Score(c, m) + if m == b.header.miner then 1 else 0
  {
    assert (c + [b])[..|c|] == c;
  }

  lemma {:induction false} AddOne(r: Rules, s: State, b: Block, now: real, coins: nat -> bool)
    requires InMemory(s.chains, s.cut) && s.longest < |s.chains|
    requires HeadIndex(s.chains, b.header.lastHash, 0) == s.longest
    requires Accepts(r, s, s.chains[s.longest], b, now)
    ensures AddBlocks(r, s, [b], true, now, coins) == Append(s, s.longest, b)
  {
    hide Accepts, HeadIndex, ForkPoint;
    var t := Append(s, s.longest, b);
    assert [b][1..] == [];
    assert Extend(r, t, s.longest, [], now) == (t, true);
    assert Extend(r, s, s.longest, [b], now) == Extend(r, t, s.longest, [b][1..], now);
  }
}
