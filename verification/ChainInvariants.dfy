/** What every step of the chain keeps (properties of module ChainModel). */
module ChainInvariants {
  import opened Records
  import opened Difficulty
  import opened ChainModel

  // ---- hypotheses about a run ----

  /** No two blocks of the run share a hash unless they share a header, and none of them
      hashes to the (made up) parent of the genesis block. */
  ghost predicate HashIdentity(g: Block, u: set<Block>) {
    && g in u
    && (forall a, b | a in u && b in u :: a.hash == b.hash ==> a.header == b.header)
    && (forall a | a in u :: a.hash != g.header.lastHash)
  }

  /** Evidence comes with a root, and hashes and keys have their lengths. */
  ghost predicate WellFormed(b: Block) {
    (b.HasEmptyRoot() ==> b.evds == []) && Sized(b)
  }

  /** The structural checks refuse all other blocks and evidence (Block.Verify, Evidence.Verify). */
  ghost predicate ChecksBlocks(r: Rules) {
    && (forall b | r.blockOk(b) :: WellFormed(b))
    && (forall e | r.evidenceOk(e) :: |e.hash| == HASH_LENGTH)
  }

  // ---- what holds of a single history ----

  ghost predicate Linked(c: History) {
    forall p | 0 < p < |c| :: c[p].header.lastHash == c[p - 1].hash
  }

  /** No evidence hash occurs in two different blocks. */
  ghost predicate EvidenceOnce(c: History) {
    forall p, q | 0 <= p < q < |c| :: EvidenceOf(c[p]) !! EvidenceOf(c[q])
  }

  ghost predicate AllWellFormed(c: History) {
    forall p | 0 <= p < |c| :: WellFormed(c[p])
  }

  function DiffOf(b: Block): nat {
    TargetToDiff(b.header.target)
  }

  /** After genesis no difficulty exceeds the limit; inside the reference window the target
      is the limit and beyond it a block loses at most half of its parent's difficulty. */
  ghost predicate DifficultyWindow(limit: uint32, c: History) {
    forall p | 0 < p < |c| ::
      && DiffOf(c[p]) <= TargetToDiff(limit)
      && (p <= REFERENCE_BLOCKS + 1 ==> c[p].header.target == limit)
      && (p > REFERENCE_BLOCKS + 1 ==> DiffOf(c[p - 1]) / 2 <= DiffOf(c[p]))
  }

  ghost predicate GoodHistory(g: Block, u: set<Block>, limit: uint32, c: History) {
    && |c| > 0 && c[0] == g
    && (forall p | 0 <= p < |c| :: c[p] in u)
    && Linked(c)
    && EvidenceOnce(c)
    && AllWellFormed(c)
    && DifficultyWindow(limit, c)
  }

  lemma {:induction false} PrefixIsGood(g: Block, u: set<Block>, limit: uint32, c: History, n: nat)
    requires GoodHistory(g, u, limit, c) && 0 < n <= |c|
    ensures GoodHistory(g, u, limit, c[..n])
  {
  }

  /** An accepted block carries no evidence of any earlier block, in memory or stored. */
  lemma {:induction false} AcceptedEvidenceIsFresh(r: Rules, s: State, c: History, b: Block, now: real, p: nat)
    requires ChecksBlocks(r) && AllWellFormed(c)
    requires |c| > 0 && s.cut <= |c| && s.cut <= |s.db| && c[..s.cut] == s.db[..s.cut]
    requires Accepts(r, s, c, b, now) && p < |c|
    ensures EvidenceOf(c[p]) !! EvidenceOf(b)
  {
    if !b.HasEmptyRoot() {
      forall e | e in b.evds ensures e.hash !in EvidenceOf(c[p]) {
        assert EvidenceAccepted(r, s, c, e);
        if p >= s.cut {
          assert c[s.cut..][p - s.cut] == c[p];
        } else {
          assert c[..s.cut][p] == s.db[..s.cut][p];
        }
      }
    }
  }

  /** An accepted block respects the difficulty window. */
  lemma {:induction false} AcceptedDifficulty(r: Rules, s: State, c: History, b: Block, now: real)
    requires |c| > 0 && s.cut <= |c| && DifficultyWindow(r.limit, c)
    requires Accepts(r, s, c, b, now)
    ensures DifficultyWindow(r.limit, c + [b])
  {
    var d := c + [b];
    assert d[|c| - 1] == c[|c| - 1];
    if |c| > REFERENCE_BLOCKS + 1 {
      var head, tail := Head(c), c[|c| - 1 - REFERENCE_BLOCKS];
      RetargetBounds(r.limit, head.header.target,
                     r.scale(b.header.time - head.header.time, head.header.time - tail.header.time));
    }
    forall p | 0 < p < |d|
      ensures DiffOf(d[p]) <= TargetToDiff(r.limit)
      ensures p <= REFERENCE_BLOCKS + 1 ==> d[p].header.target == r.limit
      ensures p > REFERENCE_BLOCKS + 1 ==> DiffOf(d[p - 1]) / 2 <= DiffOf(d[p])
    {
      if p < |c| { assert d[p] == c[p] && d[p - 1] == c[p - 1]; }
    }
  }

  lemma {:induction false} AcceptedKeepsGood(g: Block, u: set<Block>, r: Rules, s: State, c: History, b: Block,
      now: real)
    requires ChecksBlocks(r) && GoodHistory(g, u, r.limit, c) && b in u
    requires s.cut <= |c| && s.cut <= |s.db| && c[..s.cut] == s.db[..s.cut]
    requires Accepts(r, s, c, b, now)
    ensures GoodHistory(g, u, r.limit, c + [b])
  {
    hide EvidenceAccepted, DifficultyWindow, NextTarget;
    AcceptedDifficulty(r, s, c, b, now);
    forall p | 0 <= p < |c| ensures EvidenceOf(c[p]) !! EvidenceOf(b) {
      AcceptedEvidenceIsFresh(r, s, c, b, now, p);
    }
  }

  // ---- the tree of histories ----

  /** A shared hash means a shared past: the two histories agree up to that block. */
  ghost predicate SameTree(c: History, d: History) {
    forall p, q {:trigger c[p].hash, d[q].hash} |
      0 <= p < |c| && 0 <= q < |d| && c[p].hash == d[q].hash ::
      p == q && c[..p + 1] == d[..q + 1]
  }

  ghost predicate Tree(chains: seq<History>) {
    forall i, j | 0 <= i < |chains| && 0 <= j < |chains| :: SameTree(chains[i], chains[j])
  }

  /** No branch ends inside another one: the heads are distinct leaves of the tree. */
  ghost predicate Leaves(chains: seq<History>) {
    forall i, j | 0 <= i < |chains| && 0 <= j < |chains| && i != j :: !(chains[i] <= chains[j])
  }

  lemma {:induction false} SameTreeSymmetric(c: History, d: History)
    requires SameTree(c, d)
    ensures SameTree(d, c)
  {
  }

  lemma {:induction false} SameTreePrefix(c: History, d: History, n: nat)
    requires SameTree(c, d) && n <= |c|
    ensures SameTree(c[..n], d)
  {
    forall p, q | 0 <= p < n && 0 <= q < |d| && c[..n][p].hash == d[q].hash
      ensures p == q && c[..n][..p + 1] == d[..q + 1]
    {
      assert c[p].hash == d[q].hash;
      assert c[..n][..p + 1] == c[..p + 1];
    }
  }

  /** A new block that is not yet a child of its parent has a hash of its own. */
  lemma {:induction false} NewBlockIsNew(g: Block, u: set<Block>, limit: uint32, c: History, d: History, b: Block,
      q: nat)
    requires HashIdentity(g, u) && GoodHistory(g, u, limit, c) && GoodHistory(g, u, limit, d)
    requires SameTree(c, d) && b in u && b.header.lastHash == Head(c).hash
    requires c < d ==> d[|c|].hash != b.hash
    requires q < |d|
    ensures d[q].hash != b.hash
  {
    assert Head(c) in u;
    if q > 0 && d[q - 1].hash == Head(c).hash {
      assert c[..|c|] == d[..q];
    } else {
      assert d[q].header.lastHash != b.header.lastHash;
    }
  }

  lemma {:induction false} AppendSameTree(c: History, d: History, b: Block)
    requires SameTree(c, d) && forall q | 0 <= q < |d| :: d[q].hash != b.hash
    ensures SameTree(c + [b], d)
  {
    var e := c + [b];
    forall p, q | 0 <= p < |e| && 0 <= q < |d| && e[p].hash == d[q].hash
      ensures p == q && e[..p + 1] == d[..q + 1]
    {
      if p < |c| {
        assert e[p] == c[p] && e[..p + 1] == c[..p + 1];
      }
    }
  }

  lemma {:induction false} AppendSameTreeSelf(c: History, b: Block)
    requires SameTree(c, c) && forall q | 0 <= q < |c| :: c[q].hash != b.hash
    ensures SameTree(c + [b], c + [b])
  {
    AppendSameTree(c, c, b);
    SameTreeSymmetric(c + [b], c);
    var e := c + [b];
    forall p, q | 0 <= p < |e| && 0 <= q < |e| && e[p].hash == e[q].hash
      ensures p == q && e[..p + 1] == e[..q + 1]
    {
      if q < |c| { assert e[q] == c[q] && c[..q + 1] == e[..q + 1]; }
      if p < |c| { assert e[p] == c[p] && c[..p + 1] == e[..p + 1]; }
    }
  }

  // ---- what holds of the whole state ----

  ghost predicate AllGood(g: Block, u: set<Block>, limit: uint32, chains: seq<History>) {
    forall i | 0 <= i < |chains| :: GoodHistory(g, u, limit, chains[i])
  }

  /** What left memory is in the database, and all branches start from one oldest block. */
  ghost predicate CutIsStored(s: State) {
    && s.cut <= |s.db|
    && InMemory(s.chains, s.cut)
    && (forall i | 0 <= i < |s.chains| ::
         s.chains[i][..s.cut] == s.db[..s.cut] && s.chains[i][s.cut] == s.chains[0][s.cut])
  }

  /** Only listed blocks are marked, and a marked block is in the database with all before it. */
  ghost predicate Marks(s: State) {
    && s.stored <= HashesOf(s.chains)
    && (forall i | 0 <= i < |s.chains| :: MarkedIsStored(s, s.chains[i]))
  }

  ghost predicate MarkedIsStored(s: State, c: History) {
    forall p {:trigger c[p].hash} | 0 <= p < |c| && c[p].hash in s.stored :: c[..p + 1] <= s.db
  }

  ghost predicate Pointer(s: State) {
    && s.longest < |s.chains|
    && s.lastHeight <= |s.chains[s.longest]|
  }

  /** The stretch lies on a branch that was there after the last pruning. */
  ghost predicate OnKept(s: State, p: History)
    requires s.kept <= |s.chains|
  {
    exists j | 0 <= j < s.kept :: p <= s.chains[j]
  }

  /** A branch forked off since the last pruning left the older ones at most 2 alpha below the mark. */
  ghost predicate YoungBranch(s: State, c: History)
    requires s.kept <= |s.chains|
  {
    && |c| + 2 * ALPHA >= s.mark
    && (forall n {:trigger OnKept(s, c[..n])} |
         0 < n <= |c| && n + 2 * ALPHA <= s.mark :: OnKept(s, c[..n]))
  }

  /** Heads stay near the mark and cuts stay far below it. */
  ghost predicate Window(s: State) {
    && s.kept <= |s.chains|
    && s.longest < |s.chains| && s.mark <= |s.chains[s.longest]|
    && (forall i | 0 <= i < s.kept :: |s.chains[i]| + ALPHA >= s.mark)
    && (forall i | s.kept <= i < |s.chains| :: YoungBranch(s, s.chains[i]))
    && (s.cut == 0 || s.cut + SYNC_MAX_BLOCKS + 2 <= s.mark)
    && (|s.db| == 1 || |s.db| + ALPHA + 1 <= s.mark)
  }

  ghost predicate Sound(g: Block, u: set<Block>, limit: uint32, s: State) {
    && AllGood(g, u, limit, s.chains)
    && GoodHistory(g, u, limit, s.db)
    && Tree(s.chains)
    && CutIsStored(s)
    && Marks(s)
    && Pointer(s)
    && Window(s)
  }

  /** Heights are far from wrapping around. */
  ghost predicate Fits(s: State) {
    forall i | 0 <= i < |s.chains| :: |s.chains[i]| < TWO_63
  }

  lemma {:induction false} GenesisSound(g: Block, u: set<Block>, limit: uint32)
    requires g in u && WellFormed(g)
    ensures Sound(g, u, limit, Genesis(g)) && Leaves(Genesis(g).chains) && Fits(Genesis(g))
  {
  }

  /** The backward walk of a retarget never leaves memory. */
  lemma {:induction false} WalkStaysInMemory(s: State, i: nat)
    requires Window(s) && i < |s.chains| && |s.chains[i]| > REFERENCE_BLOCKS + 1
    ensures |s.chains[i]| - 1 - REFERENCE_BLOCKS >= s.cut
  {
  }

  // ---- appending ----

  /** Nothing but branch i itself may end at or below its head, and b is no child of the head. */
  ghost predicate MayGrow(chains: seq<History>, i: nat, b: Block) {
    && i < |chains|
    && (forall j, k | 0 <= j < |chains| && 0 <= k < |chains| && j != k && j != i :: !(chains[j] <= chains[k]))
    && b.hash !in Children(chains, chains[i])
  }

  lemma {:induction false} LeavesMayGrow(chains: seq<History>, i: nat, b: Block)
    requires Leaves(chains) && i < |chains|
    ensures MayGrow(chains, i, b)
  {
  }

  lemma {:induction false} HashIsNew(g: Block, u: set<Block>, limit: uint32, chains: seq<History>, i: nat, b: Block)
    requires HashIdentity(g, u) && AllGood(g, u, limit, chains) && Tree(chains)
    requires i < |chains| && b in u && b.header.lastHash == Head(chains[i]).hash
    requires b.hash !in Children(chains, chains[i])
    ensures b.hash !in HashesOf(chains)
  {
    hide HashIdentity, GoodHistory, SameTree, Linked;
    var c := chains[i];
    forall j, q | 0 <= j < |chains| && 0 <= q < |chains[j]| ensures chains[j][q].hash != b.hash {
      assert c < chains[j] ==> chains[j][|c|].hash in Children(chains, c);
      NewBlockIsNew(g, u, limit, c, chains[j], b, q);
    }
  }

  lemma {:induction false} AppendTree(g: Block, u: set<Block>, limit: uint32, chains: seq<History>, i: nat, b: Block)
    requires HashIdentity(g, u) && AllGood(g, u, limit, chains) && Tree(chains)
    requires i < |chains| && b in u && b.header.lastHash == Head(chains[i]).hash
    requires b.hash !in Children(chains, chains[i])
    ensures Tree(chains[i := chains[i] + [b]])
  {
    var c, after := chains[i], chains[i := chains[i] + [b]];
    HashIsNew(g, u, limit, chains, i, b);
    forall j, q | 0 <= j < |chains| && 0 <= q < |chains[j]| ensures chains[j][q].hash != b.hash {
      assert chains[j][q].hash in HashesOf(chains);
    }
    forall j | 0 <= j < |chains| ensures SameTree(c + [b], chains[j]) && SameTree(chains[j], c + [b]) {
      AppendSameTree(c, chains[j], b);
      SameTreeSymmetric(c + [b], chains[j]);
    }
    AppendSameTreeSelf(c, b);
    forall j, k | 0 <= j < |after| && 0 <= k < |after| ensures SameTree(after[j], after[k]) {
    }
  }

  lemma {:induction false} AppendLeaves(chains: seq<History>, i: nat, b: Block)
    requires MayGrow(chains, i, b)
    ensures Leaves(chains[i := chains[i] + [b]])
  {
    var c, after := chains[i], chains[i := chains[i] + [b]];
    forall j, k | 0 <= j < |after| && 0 <= k < |after| && j != k ensures !(after[j] <= after[k]) {
      if j == i {
        assert c < chains[k] ==> chains[k][|c|].hash in Children(chains, c);
      } else if k == i {
        assert !(chains[j] <= c);
        assert chains[j] <= c + [b] ==> chains[j] == c + [b] && c < chains[j] && chains[j][|c|] == b;
        assert c < chains[j] ==> chains[j][|c|].hash in Children(chains, c);
      }
    }
  }

  lemma {:induction false} AppendWindow(s: State, i: nat, b: Block)
    requires Window(s) && i < |s.chains|
    ensures Window(Append(s, i, b))
  {
    var t := Append(s, i, b);
    forall k | s.kept <= k < |s.chains| ensures YoungBranch(t, t.chains[k]) {
      assert YoungBranch(s, s.chains[k]);
      forall n | 0 < n <= |t.chains[k]| && n + 2 * ALPHA <= s.mark ensures OnKept(t, t.chains[k][..n]) {
        assert t.chains[k][..n] == s.chains[k][..n];
        assert OnKept(s, s.chains[k][..n]);
        var j :| 0 <= j < s.kept && s.chains[k][..n] <= s.chains[j];
        assert s.chains[k][..n] <= t.chains[j];
      }
    }
  }

  lemma {:induction false} AppendCut(s: State, i: nat, b: Block)
    requires CutIsStored(s) && i < |s.chains|
    ensures CutIsStored(Append(s, i, b))
  {
    assert (s.chains[i] + [b])[..s.cut] == s.chains[i][..s.cut];
  }

  lemma {:induction false} AppendMarks(s: State, i: nat, b: Block)
    requires Marks(s) && i < |s.chains| && b.hash !in HashesOf(s.chains)
    ensures Marks(Append(s, i, b))
  {
    var c, t := s.chains[i], Append(s, i, b);
    forall h | h in s.stored ensures h in HashesOf(t.chains) {
      var k, p :| 0 <= k < |s.chains| && 0 <= p < |s.chains[k]| && s.chains[k][p].hash == h;
      assert t.chains[k][p].hash == h;
    }
    forall p | 0 <= p < |c + [b]| && (c + [b])[p].hash in s.stored ensures (c + [b])[..p + 1] <= s.db {
      assert p < |c|;
      assert c[p].hash in s.stored && (c + [b])[..p + 1] == c[..p + 1];
    }
    assert MarkedIsStored(t, c + [b]);
    assert forall k | 0 <= k < |s.chains| :: MarkedIsStored(s, s.chains[k]) ==> MarkedIsStored(t, s.chains[k]);
  }

  lemma {:induction false} AppendSound(g: Block, u: set<Block>, r: Rules, s: State, i: nat, b: Block, now: real)
    requires HashIdentity(g, u) && ChecksBlocks(r) && Sound(g, u, r.limit, s)
    requires i < |s.chains| && b in u && Accepts(r, s, s.chains[i], b, now)
    requires MayGrow(s.chains, i, b)
    ensures Sound(g, u, r.limit, Append(s, i, b)) && Leaves(Append(s, i, b).chains)
  {
    hide Tree, Leaves, Window, EvidenceOnce, DifficultyWindow, Linked, EvidenceAccepted, HashIdentity, Children;
    AcceptedKeepsGood(g, u, r, s, s.chains[i], b, now);
    AppendTree(g, u, r.limit, s.chains, i, b);
    AppendLeaves(s.chains, i, b);
    AppendWindow(s, i, b);
    AppendCut(s, i, b);
    HashIsNew(g, u, r.limit, s.chains, i, b);
    AppendMarks(s, i, b);
  }

  // ---- forking ----

  /** What the first holder has in memory at this hash is on no earlier branch. */
  lemma {:induction false} NotOnKept(s: State, hash: Bytes, i: nat, p: nat)
    requires InMemory(s.chains, s.cut) && s.kept <= |s.chains|
    requires i == HolderIndex(s.chains, s.cut, hash, 0) && s.kept <= i < |s.chains|
    requires s.cut <= p < |s.chains[i]| && s.chains[i][p].hash == hash
    ensures !OnKept(s, s.chains[i][..p + 1])
  {
    var stem := s.chains[i][..p + 1];
    forall j | 0 <= j < s.kept ensures !(stem <= s.chains[j]) {
      assert Find(s.chains[j], s.cut, hash) == |s.chains[j]|;
      assert stem[p].hash == hash;
    }
  }

  lemma {:induction false} ForkHeight(s: State, hash: Bytes, i: nat, p: nat)
    requires Window(s) && InMemory(s.chains, s.cut)
    requires i == HolderIndex(s.chains, s.cut, hash, 0) < |s.chains|
    requires s.cut <= p < |s.chains[i]| && s.chains[i][p].hash == hash
    requires |s.chains[i]| - (p + 1) <= ALPHA
    ensures p + 1 + 2 * ALPHA >= s.mark
  {
    if i >= s.kept {
      hide HolderIndex;
      assert YoungBranch(s, s.chains[i]);
      NotOnKept(s, hash, i, p);
    }
  }

  lemma {:induction false} StemIsYoung(s: State, i: nat, n: nat)
    requires Window(s) && i < |s.chains| && 0 < n <= |s.chains[i]| && n + 2 * ALPHA >= s.mark
    ensures YoungBranch(s, s.chains[i][..n])
  {
    var c, stem := s.chains[i], s.chains[i][..n];
    forall m | 0 < m <= n && m + 2 * ALPHA <= s.mark ensures OnKept(s, stem[..m]) {
      assert stem[..m] == c[..m];
      if i < s.kept { assert c[..m] <= s.chains[i]; } else { assert YoungBranch(s, c); }
    }
  }

  /** A fork leaves its branch at most alpha below that branch's head, hence at most 2 alpha
      below the mark: either the branch is old, or the fork point lies on no old branch. */
  lemma {:induction false} ForkIsYoung(s: State, b: Block)
    requires Window(s) && InMemory(s.chains, s.cut) && Fits(s) && ForkPoint(s, b).Some? && s.kept <= |s.chains|
    ensures YoungBranch(s, ForkPoint(s, b).value)
  {
    hide Window, YoungBranch, Children;
    var i := HolderIndex(s.chains, s.cut, b.header.lastHash, 0);
    var p := Find(s.chains[i], s.cut, b.header.lastHash);
    ForkHeight(s, b.header.lastHash, i, p);
    StemIsYoung(s, i, p + 1);
  }

  ghost function Forked(s: State, stem: History): State {
    s.(chains := s.chains + [stem])
  }

  lemma {:induction false} ForkWindow(s: State, stem: History)
    requires Window(s) && YoungBranch(s, stem)
    ensures Window(Forked(s, stem))
  {
    var t := Forked(s, stem);
    forall k | s.kept <= k < |t.chains| ensures YoungBranch(t, t.chains[k]) {
      assert YoungBranch(s, t.chains[k]);
      forall n | 0 < n <= |t.chains[k]| && n + 2 * ALPHA <= s.mark ensures OnKept(t, t.chains[k][..n]) {
        assert OnKept(s, t.chains[k][..n]);
        var j :| 0 <= j < s.kept && t.chains[k][..n] <= s.chains[j];
        assert t.chains[k][..n] <= t.chains[j];
      }
    }
  }

  lemma {:induction false} ForkTree(chains: seq<History>, i: nat, n: nat)
    requires Tree(chains) && i < |chains| && n <= |chains[i]|
    ensures Tree(chains + [chains[i][..n]])
  {
    var c, stem := chains[i], chains[i][..n];
    var after := chains + [stem];
    forall j | 0 <= j < |chains| ensures SameTree(stem, chains[j]) && SameTree(chains[j], stem) {
      SameTreePrefix(c, chains[j], n);
      SameTreeSymmetric(stem, chains[j]);
    }
    SameTreePrefix(c, stem, n) by { assert SameTree(c, stem); }
    forall j, k | 0 <= j < |after| && 0 <= k < |after| ensures SameTree(after[j], after[k]) {
    }
  }

  lemma {:induction false} ForkMarks(s: State, i: nat, n: nat)
    requires Marks(s) && i < |s.chains| && n <= |s.chains[i]|
    ensures Marks(Forked(s, s.chains[i][..n]))
  {
    var c, t := s.chains[i], Forked(s, s.chains[i][..n]);
    forall h | h in s.stored ensures h in HashesOf(t.chains) {
      var k, p :| 0 <= k < |s.chains| && 0 <= p < |s.chains[k]| && s.chains[k][p].hash == h;
      assert t.chains[k][p].hash == h;
    }
    forall p | 0 <= p < n && c[..n][p].hash in s.stored ensures c[..n][..p + 1] <= s.db {
      assert c[p].hash in s.stored && c[..n][..p + 1] == c[..p + 1];
    }
    assert MarkedIsStored(t, c[..n]);
    assert forall k | 0 <= k < |s.chains| :: MarkedIsStored(s, s.chains[k]) ==> MarkedIsStored(t, s.chains[k]);
  }

  lemma {:induction false} StemSound(g: Block, u: set<Block>, limit: uint32, s: State, i: nat, n: nat)
    requires Sound(g, u, limit, s) && i < |s.chains| && s.cut < n <= |s.chains[i]|
    requires YoungBranch(s, s.chains[i][..n])
    ensures Sound(g, u, limit, Forked(s, s.chains[i][..n]))
  {
    hide GoodHistory, Tree, Window, YoungBranch;
    var stem := s.chains[i][..n];
    PrefixIsGood(g, u, limit, s.chains[i], n);
    ForkTree(s.chains, i, n);
    ForkWindow(s, stem);
    ForkMarks(s, i, n);
    assert stem[..s.cut] == s.chains[i][..s.cut] && stem[s.cut] == s.chains[i][s.cut];
  }

  /** A fork point is a stretch of a listed branch that ends in memory. */
  lemma {:induction false} ForkShape(s: State, b: Block) returns (i: nat, n: nat)
    requires InMemory(s.chains, s.cut) && ForkPoint(s, b).Some?
    ensures i < |s.chains| && s.cut < n <= |s.chains[i]|
    ensures ForkPoint(s, b).value == s.chains[i][..n]
  {
    i := HolderIndex(s.chains, s.cut, b.header.lastHash, 0);
    n := Find(s.chains[i], s.cut, b.header.lastHash) + 1;
  }

  lemma {:induction false} ForkSound(g: Block, u: set<Block>, limit: uint32, s: State, b: Block)
    requires Sound(g, u, limit, s) && Fits(s) && InMemory(s.chains, s.cut) && ForkPoint(s, b).Some?
    ensures Sound(g, u, limit, Forked(s, ForkPoint(s, b).value))
  {
    ForkIsYoung(s, b);
    var i, n := ForkShape(s, b);
    StemSound(g, u, limit, s, i, n);
  }

  lemma {:induction false} NotPrefixBelow(a: History, b: History, c: History)
    requires b <= c && !(a <= c)
    ensures !(a <= b)
  {
  }

  lemma {:induction false} ForkMayGrow(s: State, b: Block)
    requires Leaves(s.chains) && InMemory(s.chains, s.cut) && ForkPoint(s, b).Some?
    requires HeadIndex(s.chains, b.header.lastHash, 0) == |s.chains|
    ensures MayGrow(Forked(s, ForkPoint(s, b).value).chains, |s.chains|, b)
  {
    hide Sub64;
    var i := HolderIndex(s.chains, s.cut, b.header.lastHash, 0);
    var stem := ForkPoint(s, b).value;
    var after := Forked(s, stem).chains;
    assert stem <= s.chains[i];
    forall j | 0 <= j < |s.chains| ensures !(s.chains[j] <= stem) {
      if j == i {
        assert Head(stem).hash == b.header.lastHash != Head(s.chains[i]).hash;
        assert |stem| < |s.chains[i]|;
      } else {
        NotPrefixBelow(s.chains[j], stem, s.chains[i]);
      }
    }
    forall k | 0 <= k < |after| && stem < after[k] ensures after[k][|stem|].hash != b.hash {
      assert after[k] == s.chains[k];
      assert s.chains[k][|stem|].hash in Children(s.chains, stem);
    }
  }

  // ---- a whole batch ----

  lemma {:induction false} ExtendSound(g: Block, u: set<Block>, r: Rules, s: State, i: nat, blocks: seq<Block>,
      now: real)
    requires HashIdentity(g, u) && ChecksBlocks(r) && Sound(g, u, r.limit, s)
    requires i < |s.chains| && blocks != [] && forall b | b in blocks :: b in u
    requires MayGrow(s.chains, i, blocks[0])
    ensures var (t, ok) := Extend(r, s, i, blocks, now);
      && Sound(g, u, r.limit, t)
      && (Leaves(s.chains) || Accepts(r, s, s.chains[i], blocks[0], now) ==> Leaves(t.chains))
    decreases |blocks|
  {
    var b := blocks[0];
    if Accepts(r, s, s.chains[i], b, now) {
      AppendSound(g, u, r, s, i, b, now);
      if |blocks| > 1 {
        LeavesMayGrow(Append(s, i, b).chains, i, blocks[1]);
        ExtendSound(g, u, r, Append(s, i, b), i, blocks[1..], now);
      }
    }
  }

  lemma {:induction false} NotifySound(g: Block, u: set<Block>, limit: uint32, s: State, coins: nat -> bool)
    requires Sound(g, u, limit, s)
    ensures var t := Notify(s, coins);
      && Sound(g, u, limit, t)
      && t.chains == s.chains
      && (forall i | 0 <= i < |t.chains| :: |t.chains[i]| <= |t.chains[t.longest]|)
      && |s.chains[s.longest]| <= |t.chains[t.longest]|
  {
    hide GoodHistory, Tree, HashesOf;
    var t := Notify(s, coins);
    assert s.mark <= |t.chains[t.longest]|;
    forall k | s.kept <= k < |t.chains| ensures YoungBranch(t, t.chains[k]) {
      assert YoungBranch(s, s.chains[k]);
      forall n | 0 < n <= |t.chains[k]| && n + 2 * ALPHA <= s.mark ensures OnKept(t, t.chains[k][..n]) {
        assert OnKept(s, s.chains[k][..n]);
      }
    }
  }

  /** The batch opens a branch and then has its first block refused: the branch stays listed. */
  ghost predicate ForkRefused(r: Rules, s: State, blocks: seq<Block>, now: real)
    requires InMemory(s.chains, s.cut)
  {
    && blocks != []
    && HeadIndex(s.chains, blocks[0].header.lastHash, 0) == |s.chains|
    && ForkPoint(s, blocks[0]).Some?
    && !Accepts(r, s, ForkPoint(s, blocks[0]).value, blocks[0], now)
  }

  /** The batch opens a branch that leaves the others below the newest stored block. */
  ghost predicate DeepFork(s: State, blocks: seq<Block>)
    requires InMemory(s.chains, s.cut)
  {
    && blocks != []
    && HeadIndex(s.chains, blocks[0].header.lastHash, 0) == |s.chains|
    && ForkPoint(s, blocks[0]).Some?
    && |ForkPoint(s, blocks[0]).value| < |s.db|
  }

  /** The database is a common prefix of all branches, and all of it is marked. */
  ghost predicate StoredByAll(s: State) {
    && (forall i | 0 <= i < |s.chains| :: s.db <= s.chains[i])
    && (forall p | 0 <= p < |s.db| :: s.db[p].hash in s.stored)
  }

  /** Branches only grow, by index, and a fork is a prefix of an older one. */
  ghost predicate Grown(s: State, t: State) {
    && |s.chains| <= |t.chains|
    && (forall i | 0 <= i < |s.chains| :: s.chains[i] <= t.chains[i])
    && t.db == s.db && t.stored == s.stored && t.cut == s.cut && t.mark == s.mark && t.kept == s.kept
  }

  lemma {:induction false} BatchGrows(r: Rules, s: State, i: nat, blocks: seq<Block>, local: bool, now: real,
      coins: nat -> bool)
    requires i < |s.chains| && InMemory(s.chains, s.cut) && s.longest < |s.chains|
    ensures var t := Batch(r, s, i, blocks, local, now, coins);
      && Grown(s, t) && |t.chains| == |s.chains|
      && t.longest < |t.chains| && |s.chains[s.longest]| <= |t.chains[t.longest]|
  {
    ExtendShape(r, s, i, blocks, now);
  }

  lemma {:induction false} BatchSound(g: Block, u: set<Block>, r: Rules, s: State, i: nat, blocks: seq<Block>,
      local: bool, now: real, coins: nat -> bool)
    requires HashIdentity(g, u) && ChecksBlocks(r) && Sound(g, u, r.limit, s) && InMemory(s.chains, s.cut)
    requires i < |s.chains| && blocks != [] && forall b | b in blocks :: b in u
    requires MayGrow(s.chains, i, blocks[0])
    ensures var t := Batch(r, s, i, blocks, local, now, coins);
      && Sound(g, u, r.limit, t)
      && (Leaves(s.chains) || Accepts(r, s, s.chains[i], blocks[0], now) ==> Leaves(t.chains))
  {
    ExtendSound(g, u, r, s, i, blocks, now);
    NotifySound(g, u, r.limit, Extend(r, s, i, blocks, now).0, coins);
  }

  lemma {:induction false} RefusedBatch(r: Rules, s: State, i: nat, blocks: seq<Block>, local: bool, now: real,
      coins: nat -> bool)
    requires i < |s.chains| && InMemory(s.chains, s.cut)
    requires blocks != [] && !Accepts(r, s, s.chains[i], blocks[0], now)
    ensures Batch(r, s, i, blocks, local, now, coins) == s
  {
  }

  /** A batch that opens a branch at `stem`. */
  lemma {:induction false} ForkBatchSound(g: Block, u: set<Block>, r: Rules, s: State, blocks: seq<Block>,
      stem: History, local: bool, now: real, coins: nat -> bool)
    requires HashIdentity(g, u) && ChecksBlocks(r) && blocks != [] && forall b | b in blocks :: b in u
    requires Sound(g, u, r.limit, Forked(s, stem)) && InMemory(Forked(s, stem).chains, s.cut)
    requires MayGrow(Forked(s, stem).chains, |s.chains|, blocks[0])
    ensures Sound(g, u, r.limit, Batch(r, Forked(s, stem), |s.chains|, blocks, local, now, coins))
    ensures Accepts(r, s, stem, blocks[0], now) ==>
      Leaves(Batch(r, Forked(s, stem), |s.chains|, blocks, local, now, coins).chains)
  {
    BatchSound(g, u, r, Forked(s, stem), |s.chains|, blocks, local, now, coins);
    SameAcceptance(r, s, Forked(s, stem), stem, blocks[0], now);
  }

  /** Acceptance depends on nothing but the history, the cut and the database. */
  lemma {:induction false} SameAcceptance(r: Rules, s: State, t: State, c: History, b: Block, now: real)
    requires s.cut == t.cut <= |c| && s.db == t.db && |c| > 0
    ensures Accepts(r, s, c, b, now) <==> Accepts(r, t, c, b, now)
  {
    assert forall e :: EvidenceAccepted(r, s, c, e) <==> EvidenceAccepted(r, t, c, e);
  }

  /** A refused first block leaves the new branch listed inside an older one. */
  lemma {:induction false} ForkBatchRefused(r: Rules, s: State, blocks: seq<Block>, k: nat, n: nat, local: bool,
      now: real, coins: nat -> bool)
    requires InMemory(s.chains, s.cut) && k < |s.chains| && s.cut < n <= |s.chains[k]| && blocks != []
    requires !Accepts(r, s, s.chains[k][..n], blocks[0], now)
    ensures InMemory(Forked(s, s.chains[k][..n]).chains, s.cut)
    ensures !Leaves(Batch(r, Forked(s, s.chains[k][..n]), |s.chains|, blocks, local, now, coins).chains)
  {
    var s0 := Forked(s, s.chains[k][..n]);
    SameAcceptance(r, s, s0, s.chains[k][..n], blocks[0], now);
    RefusedBatch(r, s0, |s.chains|, blocks, local, now, coins);
    assert s0.chains[|s.chains|] <= s0.chains[k];
  }

  /** A batch keeps all invariants, except that the heads stay distinct leaves exactly when
      the first block of a newly opened branch is accepted. */
  lemma {:induction false} AddBlocksSound(g: Block, u: set<Block>, r: Rules, s: State, blocks: seq<Block>,
      local: bool, now: real, coins: nat -> bool)
    requires HashIdentity(g, u) && ChecksBlocks(r) && Sound(g, u, r.limit, s) && InMemory(s.chains, s.cut)
    requires Leaves(s.chains) && Fits(s) && forall b | b in blocks :: b in u
    ensures Sound(g, u, r.limit, AddBlocks(r, s, blocks, local, now, coins))
    ensures Leaves(AddBlocks(r, s, blocks, local, now, coins).chains) <==> !ForkRefused(r, s, blocks, now)
  {
    hide Sound, GoodHistory, Accepts, MayGrow;
    if blocks != [] {
      var i := HeadIndex(s.chains, blocks[0].header.lastHash, 0);
      if i < |s.chains| {
        LeavesMayGrow(s.chains, i, blocks[0]);
        BatchSound(g, u, r, s, i, blocks, local, now, coins);
      } else if ForkPoint(s, blocks[0]).Some? {
        var k, n := ForkShape(s, blocks[0]);
        ForkSound(g, u, r.limit, s, blocks[0]);
        ForkMayGrow(s, blocks[0]);
        ForkBatchSound(g, u, r, s, blocks, s.chains[k][..n], local, now, coins);
        if !Accepts(r, s, s.chains[k][..n], blocks[0], now) {
          ForkBatchRefused(r, s, blocks, k, n, local, now, coins);
        }
      }
    }
  }

  lemma {:induction false} AddBlocksGrows(r: Rules, s: State, blocks: seq<Block>, local: bool, now: real,
      coins: nat -> bool)
    requires InMemory(s.chains, s.cut) && s.longest < |s.chains|
    ensures var t := AddBlocks(r, s, blocks, local, now, coins);
      && Grown(s, t)
      && t.longest < |t.chains| && |s.chains[s.longest]| <= |t.chains[t.longest]|
  {
    hide Batch, ForkPoint;
    if blocks != [] && Receiver(s, blocks[0]).Some? {
      var (s0, i) := Receiver(s, blocks[0]).value;
      if ForkPoint(s, blocks[0]).Some? { var k, n := ForkShape(s, blocks[0]); }
      BatchGrows(r, s0, i, blocks, local, now, coins);
    }
  }
}
