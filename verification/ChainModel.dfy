/** The block chain as a plain list of histories (the reference model of core/blockchain).

    Every listed branch is the whole list of its blocks from genesis on, whether or not the
    older ones are still in memory. The linked blocks, child maps and caches of the program
    are modelled in module BlockTree and proved to behave as the functions here. */
module ChainModel {
  import opened Records
  import opened Difficulty

  const ALPHA: nat := 8
  const SYNC_MAX_BLOCKS: nat := 128
  const REFERENCE_BLOCKS: nat := 20

  type History = seq<Block>

  /** What block validity depends on besides the chain: structural checks, signatures,
      proof of work, Merkle roots and the retarget scale, all left arbitrary. */
  datatype Rules = Rules(
    blockOk: Block -> bool,
    evidenceOk: Evidence -> bool,
    pow: Block -> nat,
    rootOf: seq<Evidence> -> Bytes,
    limit: uint32,
    scale: (int, int) -> real)

  /** `cut` blocks at the start of every history are out of memory; `db` is the stored chain and
      `stored` the hashes of the listed blocks that are marked as stored.
      `mark` and `kept` record, for the proofs only, the longest height and the number of
      branches at the end of the last pruning. */
  datatype State = State(
    chains: seq<History>, longest: nat, lastHeight: nat,
    cut: nat, db: History, stored: set<Bytes>, mark: nat, kept: nat)

  function Genesis(g: Block): State {
    State([[g]], 0, 1, 0, [g], {g.hash}, 1, 1)
  }

  // ---- lookups ----

  function EvidenceOf(b: Block): set<Bytes> {
    set e | e in b.evds :: e.hash
  }

  /** Evidence hashes carried by a stretch of blocks. */
  function EvidenceIn(bs: seq<Block>): set<Bytes> {
    set p, h | 0 <= p < |bs| && h in EvidenceOf(bs[p]) :: h
  }

  /** Evidence hashes the database knows; a block with an empty root stores none. */
  function StoredEvidence(db: History): set<Bytes> {
    set p, h | 0 <= p < |db| && !db[p].HasEmptyRoot() && h in EvidenceOf(db[p]) :: h
  }

  /** Position of the first block with this hash at or after `from`, or |c|. */
  function Find(c: History, from: nat, hash: Bytes): (p: nat)
    requires from <= |c|
    ensures from <= p <= |c|
    ensures p < |c| ==> c[p].hash == hash
    ensures forall q :: from <= q < p ==> c[q].hash != hash
    decreases |c| - from
  {
    if from == |c| || c[from].hash == hash then from else Find(c, from + 1, hash)
  }

  /** The block at position p, at or after `from`, has this hash. */
  ghost predicate At(c: History, from: nat, hash: Bytes, p: nat) {
    from <= p < |c| && c[p].hash == hash
  }

  ghost predicate Has(c: History, from: nat, hash: Bytes) {
    exists p :: At(c, from, hash, p)
  }

  ghost predicate NonEmpty(chains: seq<History>) {
    forall i :: 0 <= i < |chains| ==> |chains[i]| > 0
  }

  ghost predicate InMemory(chains: seq<History>, cut: nat) {
    forall i :: 0 <= i < |chains| ==> |chains[i]| > cut
  }

  function Head(c: History): Block
    requires |c| > 0
  {
    c[|c| - 1]
  }

  /** First branch from `i` on whose head has this hash, or |chains|. */
  function HeadIndex(chains: seq<History>, hash: Bytes, i: nat): (r: nat)
    requires i <= |chains| && NonEmpty(chains)
    ensures i <= r <= |chains|
    ensures r < |chains| ==> Head(chains[r]).hash == hash
    ensures forall j :: i <= j < r ==> Head(chains[j]).hash != hash
    decreases |chains| - i
  {
    if i == |chains| || Head(chains[i]).hash == hash then i else HeadIndex(chains, hash, i + 1)
  }

  /** First branch from `i` on that has a block with this hash in memory, or |chains|. */
  function HolderIndex(chains: seq<History>, cut: nat, hash: Bytes, i: nat): (r: nat)
    requires i <= |chains| && InMemory(chains, cut)
    ensures i <= r <= |chains|
    ensures r < |chains| ==> Find(chains[r], cut, hash) < |chains[r]|
    ensures forall j :: i <= j < r ==> Find(chains[j], cut, hash) == |chains[j]|
    decreases |chains| - i
  {
    if i == |chains| || Find(chains[i], cut, hash) < |chains[i]| then i
    else HolderIndex(chains, cut, hash, i + 1)
  }

  /** Hashes of the blocks that directly follow `p` on some branch. */
  function Children(chains: seq<History>, p: History): set<Bytes> {
    set i | 0 <= i < |chains| && p < chains[i] :: chains[i][|p|].hash
  }

  // ---- validity ----

  /** The target the next block must carry; it looks twenty blocks behind the head. */
  function NextTarget(r: Rules, c: History, time: int): uint32
    requires |c| > 0
  {
    if |c| <= REFERENCE_BLOCKS + 1 then r.limit
    else
      var head, tail := Head(c), c[|c| - 1 - REFERENCE_BLOCKS];
      CalculateTarget(r.limit, head.header.target,
                      r.scale(time - head.header.time, head.header.time - tail.header.time))
  }

  ghost predicate EvidenceAccepted(r: Rules, s: State, c: History, e: Evidence)
    requires s.cut <= |c|
  {
    && r.evidenceOk(e)
    && e.hash !in EvidenceIn(c[s.cut..])
    && e.hash !in StoredEvidence(s.db)
  }

  ghost predicate Accepts(r: Rules, s: State, c: History, b: Block, now: real)
    requires |c| > 0 && s.cut <= |c|
  {
    && r.blockOk(b)
    && b.header.time as real - now <= 3.0
    && b.header.time >= Head(c).header.time
    && b.header.target == NextTarget(r, c, b.header.time)
    && b.header.lastHash == Head(c).hash
    && r.pow(b) < TargetToDiff(b.header.target)
    && (b.HasEmptyRoot() ||
        ((forall e | e in b.evds :: EvidenceAccepted(r, s, c, e)) && r.rootOf(b.evds) == b.header.root))
  }

  // ---- adding blocks ----

  function Append(s: State, i: nat, b: Block): State
    requires i < |s.chains|
  {
    s.(chains := s.chains[i := s.chains[i] + [b]])
  }

  /** Blocks go onto branch `i` one by one until one is refused. */
  ghost function Extend(r: Rules, s: State, i: nat, blocks: seq<Block>, now: real): (State, bool)
    requires i < |s.chains| && InMemory(s.chains, s.cut)
    decreases |blocks|
  {
    if blocks == [] then (s, true)
    else if !Accepts(r, s, s.chains[i], blocks[0], now) then (s, false)
    else Extend(r, Append(s, i, blocks[0]), i, blocks[1..], now)
  }

  /** The history a new branch starts from, when the block may fork off there. */
  function ForkPoint(s: State, b: Block): Option<History>
    requires InMemory(s.chains, s.cut)
  {
    var i := HolderIndex(s.chains, s.cut, b.header.lastHash, 0);
    if i == |s.chains| then None
    else
      var p := Find(s.chains[i], s.cut, b.header.lastHash);
      var stem := s.chains[i][..p + 1];
      if Sub64(|s.chains[i]|, p + 1) > ALPHA then None
      else if b.hash in Children(s.chains, stem) then None
      else Some(stem)
  }

  /** The state and branch that receive a batch: an existing head or a new fork. */
  function Receiver(s: State, first: Block): Option<(State, nat)>
    requires InMemory(s.chains, s.cut)
  {
    var i := HeadIndex(s.chains, first.header.lastHash, 0);
    if i < |s.chains| then Some((s, i))
    else match ForkPoint(s, first)
      case None => None
      case Some(stem) => Some((s.(chains := s.chains + [stem]), |s.chains|))
  }

  /** Index of a tallest branch among the first n; ties go by the coins. */
  function Tallest(chains: seq<History>, coins: nat -> bool, n: nat): (r: nat)
    requires 1 <= n <= |chains|
    ensures r < n
    ensures forall i :: 0 <= i < n ==> |chains[i]| <= |chains[r]|
  {
    if n == 1 then 0
    else
      var best := Tallest(chains, coins, n - 1);
      if |chains[n - 1]| > |chains[best]| || (|chains[n - 1]| == |chains[best]| && coins(n - 1))
      then n - 1 else best
  }

  function Notify(s: State, coins: nat -> bool): State
    requires |s.chains| > 0
  {
    var i := Tallest(s.chains, coins, |s.chains|);
    if |s.chains[i]| > s.lastHeight then s.(longest := i, lastHeight := |s.chains[i]|) else s
  }

  /** A batch on its branch; the longest pointer is looked at only if every block went in. */
  ghost function Batch(r: Rules, s: State, i: nat, blocks: seq<Block>, local: bool, now: real,
      coins: nat -> bool): State
    requires i < |s.chains| && InMemory(s.chains, s.cut)
  {
    var (t, ok) := Extend(r, s, i, blocks, now);
    ExtendShape(r, s, i, blocks, now);
    if ok && !local then Notify(t, coins) else t
  }

  ghost function AddBlocks(r: Rules, s: State, blocks: seq<Block>, local: bool, now: real, coins: nat -> bool): State
    requires InMemory(s.chains, s.cut)
  {
    if blocks == [] then s
    else match Receiver(s, blocks[0])
      case None => s
      case Some((s0, i)) => Batch(r, s0, i, blocks, local, now, coins)
  }

  lemma {:induction false} ExtendShape(r: Rules, s: State, i: nat, blocks: seq<Block>, now: real)
    requires i < |s.chains| && InMemory(s.chains, s.cut)
    ensures var s1 := Extend(r, s, i, blocks, now).0;
      && s1 == s.(chains := s1.chains)
      && |s1.chains| == |s.chains|
      && InMemory(s1.chains, s1.cut)
      && s.chains[i] <= s1.chains[i]
      && (forall j :: 0 <= j < |s.chains| && j != i ==> s1.chains[j] == s.chains[j])
    decreases |blocks|
  {
    if blocks != [] && Accepts(r, s, s.chains[i], blocks[0], now) {
      ExtendShape(r, Append(s, i, blocks[0]), i, blocks[1..], now);
    }
  }

  // ---- pruning, flushing and cutting ----

  /** The unsigned difference also exceeds alpha when the branch is taller than the longest. */
  predicate Keeps(top: nat, c: History) {
    Sub64(top, |c|) <= ALPHA
  }

  function Prune(chains: seq<History>, top: nat): seq<History> {
    if chains == [] then []
    else
      var rest, c := Prune(chains[..|chains| - 1], top), chains[|chains| - 1];
      if Keeps(top, c) then rest + [c] else rest
  }

  function HashesOf(chains: seq<History>): set<Bytes> {
    set i, p | 0 <= i < |chains| && 0 <= p < |chains[i]| :: chains[i][p].hash
  }

  /** The branches that survive, with the marks on their blocks. */
  function Pruned(s: State): State
    requires s.longest < |s.chains|
  {
    var top := |s.chains[s.longest]|;
    var chains := Prune(s.chains, top);
    s.(chains := chains, longest := |Prune(s.chains[..s.longest], top)|,
       stored := s.stored * HashesOf(chains), mark := top, kept := |chains|)
  }

  datatype Outcome = Running(state: State) | Crashed

  /** Walks up from height h while nothing forks off and the longest is alpha ahead,
      storing what is not stored and cutting what is 128 behind. */
  function Flush(s: State, h: nat): Outcome
    requires s.longest < |s.chains| && 0 < h <= |s.chains[s.longest]|
    decreases |s.chains[s.longest]| - h
  {
    var main := s.chains[s.longest];
    if |Children(s.chains, main[..h])| != 1 || |main| - h <= ALPHA then Running(s)
    else
      var cut := if |main| - (h + 1) > SYNC_MAX_BLOCKS then h else s.cut;
      if main[h - 1].hash in s.stored then Flush(s.(cut := cut), h + 1)
      else if h == |s.db| + 1 then
        Flush(s.(db := s.db + [main[h - 1]], stored := s.stored + {main[h - 1].hash}, cut := cut), h + 1)
      else Crashed
  }

  function Maintain(s: State): Outcome
    requires s.longest < |s.chains| && s.cut < |s.chains[s.longest]|
  {
    PruneKeeps(s.chains, |s.chains[s.longest]|, s.longest);
    Flush(Pruned(s), s.cut + 1)
  }

  /** The longest branch survives pruning at the index the model gives it. */
  lemma {:induction false} PruneKeeps(chains: seq<History>, top: nat, i: nat)
    requires i < |chains| && Keeps(top, chains[i])
    ensures var k := |Prune(chains[..i], top)|;
      k < |Prune(chains, top)| && Prune(chains, top)[k] == chains[i]
  {
    var n := |chains| - 1;
    if i < n {
      assert chains[..n][..i] == chains[..i];
      PruneKeeps(chains[..n], top, i);
    }
  }
}
