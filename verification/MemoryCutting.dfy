/** Marking a block as stored and cutting the oldest block keep memory in step. */
module MemoryCutting {
  import opened Records
  import opened ChainModel
  import opened ChainInvariants
  import opened ChainMaintenance
  import opened ChainMemory
  import opened BlockTree

  // ---- marking a block as stored ----

  twostate predicate OnlyMarked(m: Mem, new n: Node)
    reads m.nodes, m.bs
  {
    && n in m.nodes && n.stored && n.forward == old(n.forward) && n.backward == old(n.backward)
    && (forall x | x in m.nodes && x != n :: unchanged(x))
    && (forall j | 0 <= j < |m.bs| :: unchanged(m.bs[j]))
  }

  twostate lemma LinksMark(m: Mem, new n: Node)
    requires old(Links(m.nodes)) && OnlyMarked(m, n)
    ensures Links(m.nodes)
  {
    assert forall x | x in m.nodes :: x.forward == old(x.forward) && x.backward == old(x.backward);
  }

  twostate lemma WalksMark(m: Mem, new n: Node)
    requires old(Walks(m.bs, m.nodes, m.oldest)) && OnlyMarked(m, n)
    ensures Walks(m.bs, m.nodes, m.oldest)
  {
    forall j | 0 <= j < |m.bs| ensures Walk(m.bs[j].path, m.nodes, m.oldest) {
      assert old(Walk(m.bs[j].path, m.nodes, m.oldest));
    }
  }

  twostate lemma BranchesMark(m: Mem, new n: Node)
    requires old(Live(m.bs, m.nodes) && Caches(m.bs)) && OnlyMarked(m, n)
    ensures Live(m.bs, m.nodes) && Caches(m.bs)
  {
    hide Branch.Cached;
    forall x | x in m.nodes ensures OnSome(m.bs, x) { assert old(OnSome(m.bs, x)); }
    forall j | 0 <= j < |m.bs| ensures m.bs[j].Cached() { assert old(m.bs[j].Cached()); }
  }

  twostate lemma ShapeMarks(m: Mem, new s: State, new n: Node)
    requires old(InStep(m, s)) && OnlyMarked(m, n)
    ensures Shape(m)
  {
    hide Marked, Mirror, Links, Walks, Live, Caches, OnlyMarked;
    assert Opened(0);
    LinksMark(m, n);
    WalksMark(m, n);
    BranchesMark(m, n);
  }

  twostate lemma MemoryMarks(m: Mem, new s: State, new t: State, new n: Node)
    requires old(InStep(m, s)) && OnlyMarked(m, n)
    requires t.chains == s.chains && t.cut == s.cut && t.stored == s.stored + {n.blk.hash}
    ensures InStep(m, t)
  {
    hide Links, Walks, Live, Caches, Mirrors;
    ShapeMarks(m, s, n);
    assert Opened(0);
    hide InStep;
    CloseStep(m, t);
  }

  // ---- cutting the oldest block ----

  /** What cutting the oldest block, whose only child is `next`, changes. */
  twostate predicate OldestCut(m: Mem, new next: Node)
    reads m.nodes, m.bs
  {
    && m.oldest in m.nodes && next in m.nodes && next != m.oldest && next.backward == null
    && old(m.oldest.forward.Keys) == {next.blk.hash} && old(m.oldest.forward)[next.blk.hash] == next
    && (forall x | x in m.nodes :: x.stored == old(x.stored))
    && (forall x | x in m.nodes && x != m.oldest :: x.forward == old(x.forward))
    && (forall x | x in m.nodes && x != next :: x.backward == old(x.backward))
    && (forall j | 0 <= j < |m.bs| ::
         old(|m.bs[j].path|) > 1 && m.bs[j].path == old(m.bs[j].path)[1..] && m.bs[j].Cached())
  }

  twostate lemma LinksCut(m: Mem, new next: Node)
    requires old(Links(m.nodes)) && UniqueHashes(m.nodes) && OldestCut(m, next) && old(m.oldest.backward) == null
    ensures Links(m.nodes - {m.oldest})
  {
    hide CachesBlocks, EvidenceIn, BlocksOf;
    forall n | n in m.nodes - {m.oldest} && n != next ensures n.backward != m.oldest {
      assert n.blk.hash !in old(m.oldest.forward);
    }
  }

  twostate lemma WalksCut(m: Mem, new next: Node)
    requires old(Links(m.nodes)) && old(Walks(m.bs, m.nodes, m.oldest)) && OldestCut(m, next)
    requires forall j, y | 0 <= j < |m.bs| && 0 < y < |old(m.bs[j].path)| :: old(m.bs[j].path[y]) != m.oldest
    ensures Walks(m.bs, m.nodes - {m.oldest}, next)
  {
    hide CachesBlocks, EvidenceIn, BlocksOf;
    forall j | 0 <= j < |m.bs| ensures Walk(m.bs[j].path, m.nodes - {m.oldest}, next) {
      var p := old(m.bs[j].path);
      assert old(Walk(m.bs[j].path, m.nodes, m.oldest));
      assert p[1] in m.nodes && old(p[1].backward) == p[0];
      assert p[1] == next;
    }
  }

  twostate lemma LiveCut(m: Mem, new next: Node)
    requires old(Live(m.bs, m.nodes) && Walks(m.bs, m.nodes, m.oldest)) && OldestCut(m, next)
    ensures Live(m.bs, m.nodes - {m.oldest})
  {
    hide Branch.Cached;
    forall x | x in m.nodes - {m.oldest} ensures OnSome(m.bs, x) {
      assert old(OnSome(m.bs, x));
      var j :| 0 <= j < |m.bs| && x in old(m.bs[j].path);
      assert old(Walk(m.bs[j].path, m.nodes, m.oldest));
      InTail(old(m.bs[j].path), x);
    }
  }

  lemma {:induction false} InTail(p: seq<Node>, x: Node)
    requires x in p && x != p[0]
    ensures x in p[1..]
  {
  }

  lemma {:induction false} MirrorShrinks(p: seq<Node>, c: History, cut: nat)
    requires Mirrors(p, c, cut) && |p| > 1
    ensures Mirrors(p[1..], c, cut + 1)
  {
  }

  twostate lemma MirrorCut(m: Mem, new s: State, new next: Node)
    requires old(Mirror(m.bs, s.chains, s.cut)) && OldestCut(m, next)
    ensures Mirror(m.bs, s.chains, s.cut + 1)
  {
    hide CachesBlocks, EvidenceIn, BlocksOf, Mirrors;
    forall j | 0 <= j < |m.bs| ensures Mirrors(m.bs[j].path, s.chains[j], s.cut + 1) {
      MirrorShrinks(old(m.bs[j].path), s.chains[j], s.cut);
    }
  }

  twostate lemma MemoryCuts(m: Mem, new s: State, new t: State, new next: Node)
    requires old(InStep(m, s)) && OldestCut(m, next) && old(m.oldest.backward) == null
    requires forall j, y | 0 <= j < |m.bs| && 0 < y < |old(m.bs[j].path)| :: old(m.bs[j].path[y]) != m.oldest
    requires t.chains == s.chains && t.cut == s.cut + 1 && t.stored == s.stored
    ensures InStep(Mem(m.bs, m.nodes - {m.oldest}, next), t)
  {
    hide Links, Live, Walks, Mirror, CachesBlocks, EvidenceIn, BlocksOf;
    assert Opened(0);
    LinksCut(m, next);
    WalksCut(m, next);
    LiveCut(m, next);
    MirrorCut(m, s, next);
    hide InStep;
    CloseStep(Mem(m.bs, m.nodes - {m.oldest}, next), t);
  }

  /** A branch that can lose its oldest block. */
  ghost predicate Cuttable(bc: Branch, oldest: Node)
    reads bc
  {
    && bc.Cached() && |bc.path| > 1 && bc.path[0] == oldest && DistinctHashes(bc.path)
    && (forall y | 0 < y < |bc.path| :: bc.path[y] != oldest)
    && (forall y | 0 < y < |bc.path| :: EvidenceOf(oldest.blk) !! EvidenceOf(bc.path[y].blk))
  }

  lemma {:induction false} CutReady(m: Mem, s: State, j: nat)
    requires InStep(m, s) && j < |m.bs| && j < |s.chains| && |s.chains[j]| > s.cut + 1 && EvidenceOnce(s.chains[j])
    ensures Cuttable(m.bs[j], m.oldest) && m.oldest in m.nodes && m.oldest.backward == null
    ensures m.oldest.height == s.cut + 1 && m.oldest.blk == s.chains[j][s.cut]
  {
    hide InStep, CachesBlocks, EvidenceIn, BlocksOf, EvidenceOf;
    var p := m.bs[j].path;
    PathIsLive(m, s, j);
    PathFacts(m, s, j, |p|);
    assert p[..|p|] == p;
    OpenMirror(m, s, j);
    assert Walk(p, m.nodes, m.oldest) by { OpenWalk(m, s, j); }
    forall y | 0 < y < |p| ensures EvidenceOf(m.oldest.blk) !! EvidenceOf(p[y].blk) {
      assert p[0].blk == s.chains[j][s.cut] && p[y].blk == s.chains[j][s.cut + y];
    }
  }

  lemma {:induction false} OpenWalk(m: Mem, s: State, j: nat)
    requires InStep(m, s) && j < |m.bs|
    ensures Walk(m.bs[j].path, m.nodes, m.oldest) && DistinctBranches(m.bs)
  {
    hide InStep, Links, Live, UniqueHashes, Caches, Marked, Mirror, Walk;
    OpenStep(m, s);
  }

  // ---- one turn of the flush loop ----

  /** What the invariants give a turn at height h that goes on. */
  ghost predicate Flushable(s: State, h: nat) {
    && s.longest < |s.chains| && s.cut < h && Stem(s, h + 1)
    && Tree(s.chains) && (forall j | 0 <= j < |s.chains| :: EvidenceOnce(s.chains[j]))
    && |s.chains[s.longest]| < TWO_63
    && (s.cut == h - 1 || |s.chains[s.longest]| - h <= SYNC_MAX_BLOCKS)
    && Sized(s.chains[s.longest][h - 1]) && 0 < |s.db| && |s.db| + 1 < TWO_63
  }

  lemma {:induction false} FlushableNow(g: Block, u: set<Block>, limit: uint32, s: State, h: nat)
    requires Sound(g, u, limit, s) && Fits(s) && AtTurn(s, h) && Stem(s, h + 1)
    requires s.cut == h - 1 || |s.chains[s.longest]| - h <= SYNC_MAX_BLOCKS
    ensures Flushable(s, h)
  {
    hide Tree, Sized, Marks, EvidenceOnce, DifficultyWindow, Linked;
    var main := s.chains[s.longest];
    assert forall j | 0 <= j < |s.chains| :: GoodHistory(g, u, limit, s.chains[j]);
    assert WellFormed(main[h - 1]) && |main| < TWO_63;
  }

  lemma {:induction false} TurnLaws(g: Block, u: set<Block>, r: Rules, s: State, h: nat)
    requires Laws(g, u, r, s) && Leaves(s.chains) && Fits(s) && AtTurn(s, h) && GoesOn(s, h)
    requires s.cut == h - 1 || |s.chains[s.longest]| - h <= SYNC_MAX_BLOCKS
    ensures Flushable(s, h)
    ensures MayStore(s, h) ==>
      var t := Turn(s, h);
      && Laws(g, u, r, t) && AtTurn(t, h + 1) && InMemory(t.chains, t.cut)
      && t == s.(cut := t.cut, db := t.db, stored := t.stored)
      && (t.cut == h || |t.chains[t.longest]| - (h + 1) <= SYNC_MAX_BLOCKS)
  {
    hide Laws, Leaves, Tree, HashIdentity, ChecksBlocks, Children, AllGood, GoodHistory, Marks, Window, Flushable,
         Fits;
    OpenLaws(g, u, r, s);
    StemGrows(s, h);
    FlushableNow(g, u, r.limit, s, h);
    if MayStore(s, h) {
      TurnSound(g, u, r.limit, s, h);
      CloseLaws(g, u, r, Turn(s, h));
    }
  }

  lemma {:induction false} StemLength(s: State, h: nat)
    requires Stem(s, h + 1)
    ensures forall j | 0 <= j < |s.chains| :: |s.chains[j]| > h
  {
  }

  /** What the loop sees at height h: the block there, its children, and the next block. */
  lemma {:induction false} StemBlock(m: Mem, s: State, h: nat, n: Node)
    requires InStep(m, s) && |s.chains| == |m.bs| && Tree(s.chains) && s.longest < |m.bs|
    requires 0 < h <= |s.chains[s.longest]| && IsAt(n, m.bs[s.longest].path, s.cut, h - 1)
    ensures n in m.nodes && n.blk == s.chains[s.longest][h - 1] && n.height == h
    ensures m.bs[s.longest].head.height == |s.chains[s.longest]|
    ensures n.forward.Keys == Children(s.chains, s.chains[s.longest][..h])
  {
    hide InStep, Tree, Children, Branch.Cached;
    PathIsLive(m, s, s.longest);
    OpenMirror(m, s, s.longest);
    ChildrenAgree(m, s, s.longest, h - 1, n);
  }

  /** An only child is the next block of the longest branch. */
  lemma {:induction false} StemNext(m: Mem, s: State, h: nat, n: Node, hash: Bytes)
    requires InStep(m, s) && |s.chains| == |m.bs| && s.longest < |m.bs| && n in m.nodes
    requires 0 < h < |s.chains[s.longest]| && IsAt(n, m.bs[s.longest].path, s.cut, h - 1)
    requires |n.forward.Keys| == 1 && hash in n.forward
    ensures IsAt(n.forward[hash], m.bs[s.longest].path, s.cut, h) && n.forward[hash] in m.nodes
    ensures n.forward.Keys == {hash} && n.forward[hash].blk.hash == hash && n.forward[hash] != n
  {
    hide InStep, Live, UniqueHashes, Caches, Marked;
    OpenStep(m, s);
    var p := m.bs[s.longest].path;
    assert Mirrors(p, s.chains[s.longest], s.cut) && Walk(p, m.nodes, m.oldest);
    hide Mirror, Walks;
    SingletonSet(n.forward.Keys, hash);
    var k := h - s.cut;
    assert p[k].backward == p[k - 1] && p[k - 1] == n;
    assert p[k].blk.hash in n.forward;
  }

  /** The tests of the flush loop at height h say whether the reference model goes on. */
  lemma {:induction false} LoopTests(g: Block, u: set<Block>, r: Rules, m: Mem, s: State, h: nat, n: Node)
    requires InStep(m, s) && Laws(g, u, r, s) && Fits(s) && |s.chains| == |m.bs| && s.longest < |m.bs|
    requires 0 < h <= |s.chains[s.longest]| && IsAt(n, m.bs[s.longest].path, s.cut, h - 1)
    ensures GoesOn(s, h) ==> h < |s.chains[s.longest]|
    ensures GoesOn(s, h) <==> n.ForwardNum() == 1 && Sub64(m.bs[s.longest].head.height, n.height) > ALPHA
  {
    hide InStep, Laws, Lawful, Tree, Window, ChecksBlocks, Children, Branch.Cached, HashesOf;
    OpenLaws(g, u, r, s);
    LawfulTree(g, u, r, s);
    StemBlock(m, s, h, n);
    assert n.ForwardNum() == |n.forward.Keys|;
  }

  lemma {:induction false} OldestIsFirst(m: Mem, s: State, j: nat)
    requires InStep(m, s) && j < |m.bs|
    ensures IsAt(m.oldest, m.bs[j].path, s.cut, s.cut)
  {
    hide InStep;
    OpenMirror(m, s, j);
    OpenWalk(m, s, j);
  }
}
