/** The chain over linked blocks (core/blockchain/chain.go), proved to do what ChainModel says. */
module Chain {
  import opened Records
  import opened Difficulty
  import opened ChainModel
  import opened ChainInvariants
  import opened ChainMaintenance
  import opened ChainMemory
  import opened MemoryPruning
  import opened MemoryCutting
  import opened BlockTree
  import opened Database
  import opened Sync

  /** Links a new block with a new hash above the head of branch i. */
  method LinkBlock(bc: Branch, b: Block, ghost m: Mem, ghost s: State, ghost i: nat) returns (n: Node)
    requires InStep(m, s) && i < |m.bs| && i < |s.chains| && m.bs[i] == bc && b.hash !in HashesOf(s.chains)
    modifies bc, bc.head`forward
    ensures fresh(n) && n.blk == b && n.height == |s.chains[i]| + 1 && LinkedAbove(m, i, n)
    ensures b.hash !in old(bc.head.forward) && forall x | x in m.nodes :: x.blk.hash != b.hash
  {
    hide Links, Live, Walks, Caches, Mirror, HashesOf, CachesBlocks, EvidenceIn, BlocksOf, InStep;
    OpenStep(m, s);
    PathIsLive(m, s, i);
    forall x | x in m.nodes ensures x.blk.hash != b.hash { NodeHash(m.bs, m.nodes, s.chains, s.cut, x); }
    NoSuchChild(m.nodes, bc.head, b.hash);
    n := new Node(b, bc.head.height + 1, false);
    bc.Add(n);
  }

  /** The target above a branch's head, by walking twenty blocks down from it. */
  method NextBlockTarget(r: Rules, bc: Branch, time: int, ghost m: Mem, ghost s: State, ghost i: nat)
    returns (t: uint32)
    requires InStep(m, s) && Window(s) && i < |m.bs| && m.bs[i] == bc && i < |s.chains| && |s.chains[i]| > 0
    ensures t == NextTarget(r, s.chains[i], time)
  {
    hide InStep, Window, Branch.Cached, CalculateTarget, BlocksOf;
    PathIsLive(m, s, i);
    PathOfBranch(m, s, i);
    if bc.head.height <= REFERENCE_BLOCKS + 1 { return r.limit; }
    WalkStaysInMemory(s, i);
    var pre := bc.head;
    ghost var top := |bc.path| - 1;
    for j := 0 to REFERENCE_BLOCKS
      invariant pre == bc.path[top - j]
    {
      pre := pre.backward;
    }
    assert pre.blk == s.chains[i][s.cut..][top - REFERENCE_BLOCKS];
    var head := bc.head.blk.header;
    t := CalculateTarget(r.limit, head.target, r.scale(time - head.time, head.time - pre.blk.header.time));
  }

  method VerifyEvidence(r: Rules, db: BlockStore, bc: Branch, e: Evidence, ghost m: Mem, ghost s: State, ghost i: nat)
    returns (ok: bool)
    requires InStep(m, s) && i < |m.bs| && m.bs[i] == bc && i < |s.chains| && s.cut < |s.chains[i]|
    requires db.Valid() && db.blocks == s.db && ChecksBlocks(r)
    ensures ok <==> EvidenceAccepted(r, s, s.chains[i], e)
  {
    hide InStep, Branch.Cached, BlocksOf, EvidenceIn, StoredEvidence, BlockStore.Valid;
    PathIsLive(m, s, i);
    PathOfBranch(m, s, i);
    if !r.evidenceOk(e) { return false; }
    var cached := bc.HasEvidence(e.hash);
    if cached { return false; }
    var stored := db.HasEvidence(e.hash);
    return !stored;
  }

  /** All checks of a block on top of a branch, in the program's order. */
  method VerifyBlock(r: Rules, db: BlockStore, bc: Branch, b: Block, now: real, ghost m: Mem, ghost s: State,
      ghost i: nat) returns (ok: bool)
    requires InStep(m, s) && Window(s) && i < |m.bs| && m.bs[i] == bc && i < |s.chains| && s.cut < |s.chains[i]|
    requires db.Valid() && db.blocks == s.db && ChecksBlocks(r)
    ensures ok <==> Accepts(r, s, s.chains[i], b, now)
  {
    hide InStep, Window, Branch.Cached, EvidenceAccepted, BlockStore.Valid, ChecksBlocks, NextTarget;
    PathIsLive(m, s, i);
    if !r.blockOk(b) { return false; }
    if b.header.time as real - now > 3.0 { return false; }
    if b.header.time < bc.head.blk.header.time { return false; }
    var expected := NextBlockTarget(r, bc, b.header.time, m, s, i);
    if b.header.target != expected { return false; }
    if b.header.lastHash != bc.head.blk.hash { return false; }
    if r.pow(b) >= TargetToDiff(expected) { return false; }
    if b.HasEmptyRoot() { return true; }
    for k := 0 to |b.evds|
      invariant forall e | e in b.evds[..k] :: EvidenceAccepted(r, s, s.chains[i], e)
    {
      var fine := VerifyEvidence(r, db, bc, b.evds[k], m, s, i);
      if !fine { return false; }
      assert b.evds[..k + 1] == b.evds[..k] + [b.evds[k]];
    }
    assert b.evds[..|b.evds|] == b.evds;
    return r.rootOf(b.evds) == b.header.root;
  }

  // ---- lookups ----

  method FindHead(bs: seq<Branch>, hash: Bytes, ghost m: Mem, ghost s: State) returns (k: nat)
    requires InStep(m, s) && m.bs == bs && |s.chains| == |bs| && NonEmpty(s.chains)
    ensures k == HeadIndex(s.chains, hash, 0)
  {
    hide InStep, Branch.Cached;
    k := 0;
    while k < |bs|
      invariant 0 <= k <= |bs| && HeadIndex(s.chains, hash, 0) == HeadIndex(s.chains, hash, k)
    {
      PathIsLive(m, s, k);
      if bs[k].head.blk.hash == hash { return; }
      k := k + 1;
    }
  }

  method FindHolder(bs: seq<Branch>, hash: Bytes, ghost m: Mem, ghost s: State) returns (k: nat, n: Node?)
    requires InStep(m, s) && m.bs == bs && |s.chains| == |bs| && InMemory(s.chains, s.cut) && Tree(s.chains)
    ensures k == HolderIndex(s.chains, s.cut, hash, 0)
    ensures k < |bs| ==> n != null && IsAt(n, bs[k].path, s.cut, Find(s.chains[k], s.cut, hash))
  {
    hide InStep, Shape, Marked, Branch.Cached, Find, SameTree, Mirrors, IsAt;
    OpenStep(m, s);
    k := 0;
    n := null;
    while k < |bs|
      invariant 0 <= k <= |bs| && HolderIndex(s.chains, s.cut, hash, 0) == HolderIndex(s.chains, s.cut, hash, k)
    {
      PathIsLive(m, s, k);
      n := bs[k].GetBlock(hash);
      LookupAgrees(bs[k].path, s.chains[k], s.cut, hash, n);
      if n != null { return; }
      k := k + 1;
    }
  }

  // ---- answers to peers ----

  lemma {:induction false} OnlyAt(c: History, p: nat, hash: Bytes)
    requires SameTree(c, c) && p < |c| && c[p].hash == hash
    ensures forall q | 0 <= q < |c| && q != p :: c[q].hash != hash
  {
  }

  /** Counts the steps down from the head to the block at position p, in 32 bits. The walk
      meets that block before it could run out of memory. */
  method StepsDown(bc: Branch, base: Bytes, ghost m: Mem, ghost s: State, ghost i: nat, ghost p: nat)
    returns (diff: uint32)
    requires InStep(m, s) && i < |m.bs| && i < |s.chains| && m.bs[i] == bc && SameTree(s.chains[i], s.chains[i])
    requires s.cut <= p < |s.chains[i]| && s.chains[i][p].hash == base
    ensures diff == (|s.chains[i]| - 1 - p) % TWO_32
  {
    hide InStep, SameTree;
    assert bc.head == bc.path[|bc.path| - 1] by { PathIsLive(m, s, i); }
    PathSteps(m, s, i);
    OnlyAt(s.chains[i], p, base);
    ghost var k := |bc.path| - 1;
    var b := bc.head;
    diff := 0;
    while b.blk.hash != base
      invariant p - s.cut <= k < |bc.path| && b == bc.path[k] && diff == (|bc.path| - 1 - k) % TWO_32
      decreases k
    {
      diff := (diff + 1) % TWO_32;
      b, k := b.backward, k - 1;
    }
  }

  method SyncHashOf(db: BlockStore, bc: Branch, base: Bytes, ghost m: Mem, ghost s: State) returns (r: HashAnswer)
    requires InStep(m, s) && |m.bs| == |s.chains| && s.longest < |m.bs| && m.bs[s.longest] == bc
        && s.cut < |s.chains[s.longest]|
    requires SameTree(s.chains[s.longest], s.chains[s.longest])
    requires db.Valid() && db.blocks == s.db && 0 < |s.db| < TWO_63
    ensures r == SyncHash(s, base)
  {
    hide InStep, Branch.Cached, SameTree, BlocksOf, BlockStore.Valid, Find, HeightOfHash;
    ghost var main := s.chains[s.longest];
    PathIsLive(m, s, s.longest);
    OpenMirror(m, s, s.longest);
    var n := bc.GetBlock(base);
    LookupAgrees(bc.path, main, s.cut, base, n);
    ghost var p := Find(main, s.cut, base);
    if n != null {
      if bc.head.blk.hash == base {
        OnlyAt(main, |main| - 1, base);
        return UpToDate;
      }
      var diff := StepsDown(bc, base, m, s, s.longest, p);
      return Ahead(bc.head.blk.hash, diff);
    }
    var found := db.GetHeaderViaHash(base);
    if found.None? { return Unknown; }
    var height := found.value.1;
    var latest := db.GetLatestHeight();
    if Sub64(latest.value, height) >= SYNC_MAX_BLOCKS {
      var end := db.GetHash(height + SYNC_MAX_BLOCKS);
      return Ahead(end.value, SYNC_MAX_BLOCKS);
    }
    var end := db.GetHash(latest.value);
    return Ahead(end.value, Sub64(latest.value, height));
  }

  lemma {:induction false} SlicesGrow(c: History, p: nat, q: nat)
    requires p < q <= |c|
    ensures c[p..q] == [c[p]] + c[p + 1..q] && c[p..q] == c[p..q - 1] + [c[q - 1]]
  {
  }

  /** Going down a path in memory goes down the history. */
  lemma {:induction false} PathSteps(m: Mem, s: State, i: nat)
    requires InStep(m, s) && i < |m.bs| && i < |s.chains|
    ensures var p := m.bs[i].path;
      && |s.chains[i]| == s.cut + |p|
      && (forall k | 0 <= k < |p| :: p[k].blk == s.chains[i][s.cut + k] && p[k].height == s.cut + k + 1)
      && (forall k | 0 < k < |p| :: p[k].backward == p[k - 1])
  {
    hide InStep, BlocksOf;
    PathOfBranch(m, s, i);
    OpenMirror(m, s, i);
  }

  /** Copies the blocks above position p up to position q, walking down from the latter. */
  method CopyDown(endBlock: Node, baseHeight: nat, onlyHeader: bool, ghost m: Mem, ghost s: State, ghost i: nat,
      ghost p: nat, ghost q: nat) returns (r: seq<Block>)
    requires InStep(m, s) && i < |m.bs| && i < |s.chains| && s.cut <= p < q < |s.chains[i]|
    requires IsAt(endBlock, m.bs[i].path, s.cut, q) && baseHeight == p + 1
    ensures r == Copies(s.chains[i][p + 1..q + 1], onlyHeader)
  {
    hide InStep, Copies, ShallowCopy;
    PathSteps(m, s, i);
    ghost var c, path, k := s.chains[i], m.bs[i].path, q;
    var iter := endBlock;
    r := [];
    assert r == Copies(c[q + 1..q + 1], onlyHeader);
    while iter.height != baseHeight
      invariant p <= k <= q && iter == path[k - s.cut] && r == Copies(c[k + 1..q + 1], onlyHeader)
      decreases k
    {
      SlicesGrow(c, k, q + 1);
      CopiesGrow(c[k], c[k + 1..q + 1], onlyHeader);
      r := [ShallowCopy(iter.blk, onlyHeader)] + r;
      iter, k := iter.backward, k - 1;
    }
  }

  method CopyStored(db: BlockStore, from: uint64, to: uint64, onlyHeader: bool) returns (r: seq<Block>)
    requires db.Valid() && from <= to <= |db.blocks| < TWO_63
    ensures r == Copies(ReadBacks(db.blocks[from..to]), onlyHeader)
  {
    hide BlockStore.Valid, Copies, ReadBacks, ReadBack;
    r := [];
    for i := from to to
      invariant r == Copies(ReadBacks(db.blocks[from..i]), onlyHeader)
    {
      var b := db.GetBlockViaHeight(i + 1);
      SlicesGrow(db.blocks, from, i + 1);
      CopiesGrow(db.blocks[i], db.blocks[from..i], onlyHeader);
      CopiesGrow(b.value, ReadBacks(db.blocks[from..i]), onlyHeader);
      r := r + [ShallowCopy(b.value, onlyHeader)];
    }
  }

  method SyncBlocksOf(db: BlockStore, bc: Branch, base: Bytes, end: Bytes, onlyHeader: bool, ghost m: Mem,
      ghost s: State)
    returns (r: BlocksAnswer)
    requires InStep(m, s) && |m.bs| == |s.chains| && s.longest < |m.bs| && m.bs[s.longest] == bc
        && s.cut < |s.chains[s.longest]|
    requires SameTree(s.chains[s.longest], s.chains[s.longest])
    requires db.Valid() && db.blocks == s.db && |s.db| < TWO_63
    ensures r == SyncBlocks(s, base, end, onlyHeader)
  {
    hide InStep, SameTree, BlockStore.Valid, Find, HeightOfHash, Copies, ReadBacks, ReadBack;
    ghost var main := s.chains[s.longest];
    var baseBlock := LookUp(bc, base, m, s);
    var endBlock := LookUp(bc, end, m, s);
    if baseBlock != null && endBlock != null {
      if baseBlock.height >= endBlock.height { return BadRange; }
      var bs := CopyDown(endBlock, baseBlock.height, onlyHeader, m, s, s.longest, Find(main, s.cut, base),
          Find(main, s.cut, end));
      return Found(bs);
    }
    r := StoredRange(db, base, end, onlyHeader, endBlock != null);
  }

  /** The longest branch's block with a hash, if it is in memory. */
  method LookUp(bc: Branch, hash: Bytes, ghost m: Mem, ghost s: State) returns (n: Node?)
    requires InStep(m, s) && |m.bs| == |s.chains| && s.longest < |m.bs| && m.bs[s.longest] == bc
    requires s.cut < |s.chains[s.longest]| && SameTree(s.chains[s.longest], s.chains[s.longest])
    ensures var p := Find(s.chains[s.longest], s.cut, hash);
      (n == null <==> p == |s.chains[s.longest]|) && (n != null ==> IsAt(n, bc.path, s.cut, p))
  {
    hide InStep, Branch.Cached, SameTree, Find;
    PathIsLive(m, s, s.longest);
    OpenMirror(m, s, s.longest);
    n := bc.GetBlock(hash);
    LookupAgrees(bc.path, s.chains[s.longest], s.cut, hash, n);
  }

  /** The stored blocks after one hash up to another. */
  method StoredRange(db: BlockStore, base: Bytes, end: Bytes, onlyHeader: bool, endInMemory: bool)
    returns (r: BlocksAnswer)
    requires db.Valid() && |db.blocks| < TWO_63
    ensures var h, k := HeightOfHash(db.blocks, base), HeightOfHash(db.blocks, end);
      r == if 0 < h < k then Found(Copies(ReadBacks(db.blocks[h..k]), onlyHeader))
           else if h > 0 && endInMemory then Flushing
           else NotFound
  {
    hide BlockStore.Valid, HeightOfHash, Copies, ReadBacks, ReadBack;
    var storedBase := db.GetBlockViaHash(base);
    var storedEnd := db.GetBlockViaHash(end);
    if storedBase.Some? && storedEnd.Some? && storedBase.value.1 < storedEnd.value.1 {
      var bs := CopyStored(db, storedBase.value.1, storedEnd.value.1, onlyHeader);
      return Found(bs);
    }
    if storedBase.Some? && endInMemory { return Flushing; }
    return NotFound;
  }

  /** The blocks of a branch from the head down to the first that is marked as stored, with
      their heights. */
  method UnstoredOf(bc: Branch, ghost m: Mem, ghost s: State, ghost i: nat)
    returns (blocks: seq<Block>, heights: seq<nat>)
    requires InStep(m, s) && i < |m.bs| && i < |s.chains| && m.bs[i] == bc && s.cut < |s.chains[i]|
    ensures |blocks| == |heights| == |s.chains[i]| - StoredTop(s.chains[i], s.stored, s.cut)
    ensures forall k | 0 <= k < |blocks| ::
      blocks[k] == s.chains[i][|s.chains[i]| - 1 - k] && heights[k] == |s.chains[i]| - k
  {
    hide InStep, Branch.Cached, Marked, StoredTop;
    PathIsLive(m, s, i);
    PathSteps(m, s, i);
    PathBottom(m, s, i);
    ghost var c, path, f := s.chains[i], bc.path, |s.chains[i]|;
    blocks, heights := [], [];
    var iter: Node? := bc.head;
    while iter != null && !iter.stored
      invariant s.cut <= f <= |c| && iter == (if f == s.cut then null else path[f - 1 - s.cut])
      invariant forall q | f <= q < |c| :: c[q].hash !in s.stored
      invariant |blocks| == |heights| == |c| - f
      invariant forall k | 0 <= k < |blocks| :: blocks[k] == c[|c| - 1 - k] && heights[k] == |c| - k
      decreases f
    {
      blocks, heights := blocks + [iter.blk], heights + [iter.height];
      iter, f := iter.backward, f - 1;
    }
    StoredTopIs(c, s.stored, s.cut, f);
  }

  // ---- pruning ----

  /** With another child at f and none at the head, the walk stops below the head. */
  lemma {:induction false} StopsAbove(p: seq<Node>, kids: seq<map<Bytes, Node>>, f: nat, other: Bytes, fell: bool,
      k: nat)
    requires f < |p| - 1 && |p| == |kids| && other in kids[f] && other != p[f + 1].blk.hash && kids[|p| - 1].Keys == {}
    requires fell <==> AllBare(p, kids)
    requires !fell ==> k < |p| && p[k].ForwardNum() != 0 && Unlinked(p, kids, k)
    ensures !fell && k < |p| - 1
  {
    assert other in kids[f].Keys && other !in {p[f + 1].blk.hash};
    assert !AllBare(p, kids);
    KidlessHead(p, kids, k);
  }

  lemma {:induction false} KidlessHead(p: seq<Node>, kids: seq<map<Bytes, Node>>, k: nat)
    requires k < |p| == |kids| && kids[|p| - 1].Keys == {} && Unlinked(p, kids, k)
    ensures k == |p| - 1 ==> p[k].ForwardNum() == 0
  {
    assert |kids[|p| - 1]| == |kids[|p| - 1].Keys|;
  }

  /** Takes branch i out of memory; branch l shows where its walk down stops at the latest. */
  method DropBranch(bc: Branch, ghost m: Mem, ghost s: State, ghost i: nat, ghost l: nat)
    returns (ghost nodes: set<Node>)
    requires InStep(m, s) && |s.chains| == |m.bs| && Tree(s.chains) && Leaves(s.chains)
    requires i < |m.bs| && l < |m.bs| && i != l && m.bs[i] == bc
    requires s.cut < |s.chains[i]| && s.cut < |s.chains[l]| && s.chains[i][..s.cut + 1] == s.chains[l][..s.cut + 1]
    modifies m.nodes`forward, m.nodes`backward
    ensures nodes <= m.nodes && InStep(Mem(Drop(m.bs, i), nodes, m.oldest), Dropped(s, i))
  {
    hide InStep, Tree, Leaves, Distinct, KidsAgree, Chained, WasPath, Unlinked, Above, Drop, Dropped, ChildrenAlong,
         Branch.Cached, PathsIn, UniqueHashes, Live, Mirror, AllBare;
    OpenPaths(m, s);
    ghost var f, other := ReadyToDrop(m, s, i, l);
    ghost var kids := ChildrenAlong(bc.path);
    assert other in kids[f] && kids[|kids| - 1].Keys == {};
    var fell;
    ghost var k;
    fell, k := RemoveBranch(bc.head, bc.path);
    StopsAbove(bc.path, kids, f, other, fell, k);
    UnlinkingDrops(m, s, i, kids, k);
    nodes := m.nodes - Above(bc.path, k);
  }

  /** Takes the next branch out, when the first k have been looked at. */
  method DropNext(bc: Branch, ghost m: Mem, ghost s: State, ghost k: nat) returns (ghost nodes: set<Node>)
    requires s.longest < |s.chains| && k < |s.chains| && Tree(s.chains) && Leaves(s.chains) && CutIsStored(s)
    requires !Keeps(|s.chains[s.longest]|, s.chains[k]) && InStep(m, Thinned(s, k))
    requires var i := |Prune(s.chains[..k], |s.chains[s.longest]|)|; |m.bs| == i + |s.chains| - k && m.bs[i] == bc
    modifies m.nodes`forward, m.nodes`backward
    ensures nodes <= m.nodes
    ensures var i := |Prune(s.chains[..k], |s.chains[s.longest]|)|;
      InStep(Mem(Drop(m.bs, i), nodes, m.oldest), Thinned(s, k + 1))
  {
    hide InStep, Leaves, Tree, CutIsStored, Prune, Thinned, Dropped, Drop;
    ghost var i := |Prune(s.chains[..k], |s.chains[s.longest]|)|;
    ThinningStep(s, k);
    ghost var l := ThinningFacts(s, k, i);
    nodes := DropBranch(bc, m, Thinned(s, k), i, l);
  }

  /** Looks at one more branch: keeps it, or takes it out of memory. */
  method ThinOne(bs: seq<Branch>, longest: Branch, kept: seq<Branch>, k: nat, ghost live: set<Node>,
      ghost oldest: Node, ghost s: State)
    returns (more: seq<Branch>, ghost nodes: set<Node>)
    requires s.longest < |s.chains| == |bs| && k < |bs| && Tree(s.chains) && Leaves(s.chains) && CutIsStored(s)
    requires |kept| == |Prune(s.chains[..k], |s.chains[s.longest]|)|
    requires InStep(Mem(kept + bs[k..], live, oldest), Thinned(s, k))
    requires longest.head.height == |s.chains[s.longest]| && bs[k].head.height == |s.chains[k]|
    modifies live`forward, live`backward
    ensures nodes <= live && InStep(Mem(more + bs[k + 1..], nodes, oldest), Thinned(s, k + 1))
    ensures more == if Keeps(|s.chains[s.longest]|, s.chains[k]) then kept + [bs[k]] else kept
  {
    hide InStep, Leaves, Tree, CutIsStored, Prune, Thinned, Drop;
    ThinningStep(s, k);
    DropMiddle(kept, bs, k);
    more, nodes := kept, live;
    if Sub64(longest.head.height, bs[k].head.height) > ALPHA {
      nodes := DropNext(bs[k], Mem(kept + bs[k..], live, oldest), s, k);
    } else {
      more := kept + [bs[k]];
    }
  }

  /** The kept branches so far: survivors, in order, with the longest one where it belongs. */
  ghost predicate KeptSoFar(bs: seq<Branch>, longest: Branch, kept: seq<Branch>, s: State, k: nat)
    requires s.longest < |s.chains| && k <= |s.chains|
  {
    var top := |s.chains[s.longest]|;
    var at := |Prune(s.chains[..s.longest], top)|;
    && |kept| == |Prune(s.chains[..k], top)| && SomeOf(kept, bs)
    && (k > s.longest ==> at < |kept| && kept[at] == longest)
  }

  lemma {:induction false} KeptStep(bs: seq<Branch>, longest: Branch, kept: seq<Branch>, s: State, k: nat)
    requires s.longest < |s.chains| == |bs| && k < |bs| && longest == bs[s.longest]
    requires KeptSoFar(bs, longest, kept, s, k)
    ensures KeptSoFar(bs, longest, if Keeps(|s.chains[s.longest]|, s.chains[k]) then kept + [bs[k]] else kept, s, k + 1)
  {
    hide Prune, SomeOf;
    PruneOneMore(s.chains, |s.chains[s.longest]|, k);
    OneMoreOf(kept, bs, k);
  }

  lemma {:induction false} KeptEnds(bs: seq<Branch>, longest: Branch, kept: seq<Branch>, s: State)
    requires s.longest < |s.chains| == |bs| && s.stored <= HashesOf(s.chains)
    ensures KeptSoFar(bs, longest, [], s, 0)
    ensures KeptSoFar(bs, longest, kept, s, |bs|) ==>
      && SomeOf(kept, bs) && |kept| == |Pruned(s).chains|
      && Pruned(s).longest < |kept| && kept[Pruned(s).longest] == longest
  {
    hide Prune, HashesOf, Thinned;
    ThinningEnds(s);
    ListEnds([], s.chains);
  }

  /** Keeps the branches within alpha of the longest one and takes the others out of memory. */
  method Thin(bs: seq<Branch>, longest: Branch, ghost m: Mem, ghost s: State)
    returns (kept: seq<Branch>, ghost nodes: set<Node>)
    requires s.longest < |s.chains| == |bs| && Tree(s.chains) && Leaves(s.chains) && CutIsStored(s)
    requires s.stored <= HashesOf(s.chains) && InStep(m, s) && m.bs == bs && longest == bs[s.longest]
    modifies m.nodes`forward, m.nodes`backward
    ensures nodes <= m.nodes && InStep(Mem(kept, nodes, m.oldest), Pruned(s))
    ensures SomeOf(kept, bs) && |kept| == |Pruned(s).chains|
    ensures Pruned(s).longest < |kept| && kept[Pruned(s).longest] == longest
  {
    hide InStep, Leaves, Branch.Cached, Tree, CutIsStored, Prune, HashesOf, Thinned, Pruned, KeptSoFar, SomeOf,
         Keeps;
    ThinningEnds(s);
    forall j | 0 <= j < |bs| ensures bs[j].head.height == |s.chains[j]| { PathIsLive(m, s, j); }
    kept, nodes := [], m.nodes;
    ListEnds(kept, bs);
    KeptEnds(bs, longest, kept, s);
    for k := 0 to |bs|
      invariant nodes <= m.nodes && InStep(Mem(kept + bs[k..], nodes, m.oldest), Thinned(s, k))
      invariant KeptSoFar(bs, longest, kept, s, k)
    {
      KeptStep(bs, longest, kept, s, k);
      assert |kept| == |Prune(s.chains[..k], |s.chains[s.longest]|)| by { KeptLength(bs, longest, kept, s, k); }
      kept, nodes := ThinOne(bs, longest, kept, k, nodes, m.oldest, s);
    }
    ListEnds(kept, bs);
    KeptEnds(bs, longest, kept, s);
    StepIgnoresPointers(Mem(kept, nodes, m.oldest), Thinned(s, |bs|), Pruned(s));
  }

  lemma {:induction false} KeptLength(bs: seq<Branch>, longest: Branch, kept: seq<Branch>, s: State, k: nat)
    requires s.longest < |s.chains| && k <= |s.chains| && KeptSoFar(bs, longest, kept, s, k)
    ensures |kept| == |Prune(s.chains[..k], |s.chains[s.longest]|)|
  {
    hide Prune, SomeOf;
  }

  // ---- storing and cutting ----

  /** Stores a block that is not marked as stored yet and marks it. */
  method StoreBlock(db: BlockStore, n: Node, ghost m: Mem, ghost s: State, ghost t: State) returns (ok: bool)
    requires InStep(m, s) && n in m.nodes && db.Valid() && db.blocks == s.db
    requires Sized(n.blk) && 0 < |s.db| && |s.db| + 1 < TWO_63 && n.height < TWO_63
    requires t.chains == s.chains && t.cut == s.cut && t.stored == s.stored + {n.blk.hash}
    requires t.db == if n.blk.hash in s.stored then s.db else s.db + [n.blk]
    modifies db, n`stored
    ensures db.Valid()
    ensures ok <==> n.blk.hash in s.stored || n.height == |s.db| + 1
    ensures ok ==> db.blocks == t.db && InStep(m, t)
  {
    hide InStep, Shape, Mirror, Sized, BlockStore.Valid, Branch.Cached;
    assert n.stored <==> n.blk.hash in s.stored by { OpenStep(m, s); }
    ok := true;
    if !n.stored {
      ok := db.PutBlock(n.blk, n.height);
      if !ok { return; }
      n.stored := true;
    }
    MemoryMarks(m, s, t, n);
  }

  /** Cuts the oldest block off its only child and out of every branch's caches. */
  method CutOldest(bs: seq<Branch>, removing: Node, next: Node, ghost m: Mem, ghost s: State, ghost t: State)
    requires InStep(m, s) && m.bs == bs && m.oldest == removing && DistinctBranches(bs)
    requires forall j | 0 <= j < |bs| :: Cuttable(bs[j], removing)
    requires removing in m.nodes && removing.backward == null && next in m.nodes && next != removing
    requires removing.forward.Keys == {next.blk.hash} && removing.forward[next.blk.hash] == next
    requires t.chains == s.chains && t.cut == s.cut + 1 && t.stored == s.stored
    modifies bs, removing`forward, next`backward
    ensures InStep(Mem(bs, m.nodes - {removing}, next), t)
    ensures forall j | 0 <= j < |bs| :: |old(bs[j].path)| > 1 && bs[j].path == old(bs[j].path)[1..]
  {
    hide InStep, Branch.Cached, DistinctHashes, EvidenceOf;
    removing.RemoveForward(next);
    next.backward := null;
    for k := 0 to |bs|
      invariant forall j | 0 <= j < k :: bs[j].Cached() && bs[j].path == old(bs[j].path)[1..]
      invariant next.backward == null && forall j | k <= j < |bs| :: unchanged(bs[j])
    {
      bs[k].RemoveFromCache(removing);
    }
    forall j | 0 <= j < |bs|
      ensures old(|bs[j].path|) > 1 && forall y | 0 < y < |old(bs[j].path)| :: old(bs[j].path[y]) != removing
    {
      assert old(Cuttable(bs[j], removing));
    }
    MemoryCuts(m, s, t, next);
  }

  /** Cuts the oldest block, when every branch goes on above it through the one child. */
  method CutStem(bs: seq<Branch>, removing: Node, next: Node, ghost m: Mem, ghost s: State, ghost t: State)
    requires InStep(m, s) && m.bs == bs && |s.chains| == |bs| && s.longest < |bs|
    requires forall j | 0 <= j < |bs| :: |s.chains[j]| > s.cut + 1 && EvidenceOnce(s.chains[j])
    requires IsAt(removing, bs[s.longest].path, s.cut, s.cut) && next in m.nodes && next != removing
    requires removing.forward.Keys == {next.blk.hash} && removing.forward[next.blk.hash] == next
    requires IsAt(next, bs[s.longest].path, s.cut, s.cut + 1)
    requires t.chains == s.chains && t.cut == s.cut + 1 && t.stored == s.stored
    modifies bs, m.nodes
    ensures InStep(Mem(bs, m.nodes - {removing}, next), t) && IsAt(next, bs[s.longest].path, t.cut, t.cut)
  {
    hide InStep, Branch.Cached, EvidenceOnce, DistinctBranches, DistinctHashes, EvidenceOf;
    forall j | 0 <= j < |bs| ensures Cuttable(bs[j], m.oldest) { CutReady(m, s, j); }
    CutReady(m, s, s.longest);
    OpenWalk(m, s, s.longest);
    CutOldest(bs, removing, next, m, s, t);
  }

  /** One turn of the flush loop: stores the block, goes on to its child, and cuts the block
      off when the child is more than 128 below the longest height. */
  method FlushTurn(db: BlockStore, bs: seq<Branch>, longest: Branch, oldest: Node, iter: Node, ghost m: Mem,
      ghost s: State, ghost h: nat)
    returns (ok: bool, next: Node, first: Node, ghost nodes: set<Node>)
    requires InStep(m, s) && m.bs == bs && m.oldest == oldest && |s.chains| == |bs| && Flushable(s, h)
    requires longest == bs[s.longest] && IsAt(iter, longest.path, s.cut, h - 1) && |iter.forward.Keys| == 1
    requires db.Valid() && db.blocks == s.db
    modifies db, bs, m.nodes
    ensures db.Valid() && (ok <==> MayStore(s, h)) && nodes <= m.nodes
    ensures ok ==> db.blocks == Turn(s, h).db && InStep(Mem(bs, nodes, first), Turn(s, h))
    ensures ok ==> IsAt(next, longest.path, Turn(s, h).cut, h)
  {
    hide InStep, Stem, Tree, Sized, BlockStore.Valid, Branch.Cached, EvidenceOnce, Cuttable, DistinctBranches;
    StemLength(s, h);
    ghost var t := Turn(s, h).(cut := s.cut);
    StemBlock(m, s, h, iter);
    next, first, nodes := iter, oldest, m.nodes;
    ok := StoreBlock(db, iter, m, s, t);
    if !ok { return; }
    var hash :| hash in iter.forward;
    StemNext(m, t, h, iter, hash);
    next := iter.forward[hash];
    if Sub64(longest.head.height, next.height) > SYNC_MAX_BLOCKS {
      CutStem(bs, iter, next, m, t, Turn(s, h));
      first, nodes := next, nodes - {iter};
    }
  }

  /** The flush loop from the oldest block on. A height the database refuses is fatal. */
  method FlushLoop(db: BlockStore, bs: seq<Branch>, longest: Branch, oldest: Node, ghost run: Run, ghost m: Mem,
      ghost s: State)
    returns (fatal: bool, first: Node, ghost nodes: set<Node>, ghost t: State)
    requires InStep(m, s) && m.bs == bs && m.oldest == oldest && |s.chains| == |bs|
    requires Laws(run.g, run.u, run.r, s) && Leaves(s.chains) && Fits(s) && AtTurn(s, s.cut + 1)
    requires InMemory(s.chains, s.cut) && s.longest < |bs| && longest == bs[s.longest] && db.Valid()
        && db.blocks == s.db
    modifies db, bs, m.nodes
    ensures nodes <= m.nodes && Flush(s, s.cut + 1) == if fatal then Crashed else Running(t)
    ensures !fatal ==>
      && InStep(Mem(bs, nodes, first), t) && Laws(run.g, run.u, run.r, t) && InMemory(t.chains, t.cut)
      && t == s.(cut := t.cut, db := t.db, stored := t.stored) && db.Valid() && db.blocks == t.db
  {
    hide InStep, Laws, Leaves, Fits, Branch.Cached, BlockStore.Valid, Flush, AtTurn, Turn, Flushable, GoesOn,
         MayStore;
    t, first, nodes := s, oldest, m.nodes;
    ghost var h := s.cut + 1;
    var iter := oldest;
    OldestIsFirst(m, s, s.longest);
    while true
      invariant nodes <= m.nodes && InStep(Mem(bs, nodes, first), t) && Laws(run.g, run.u, run.r, t)
          && InMemory(t.chains, t.cut)
      invariant t == s.(cut := t.cut, db := t.db, stored := t.stored) && db.Valid() && db.blocks == t.db
      invariant AtTurn(t, h) && 0 < h <= |s.chains[s.longest]| && IsAt(iter, longest.path, t.cut, h - 1)
      invariant t.cut == h - 1 || |s.chains[s.longest]| - h <= SYNC_MAX_BLOCKS
      invariant Flush(s, s.cut + 1) == Flush(t, h)
      decreases |s.chains[s.longest]| - h
    {
      FlushUnfolds(t, h);
      FitsChains(s, t);
      LoopTests(run.g, run.u, run.r, Mem(bs, nodes, first), t, h, iter);
      if iter.ForwardNum() != 1 { break; }
      if Sub64(longest.head.height, iter.height) <= ALPHA { break; }
      TurnLaws(run.g, run.u, run.r, t, h);
      var ok, next;
      ok, next, first, nodes := FlushTurn(db, bs, longest, first, iter, Mem(bs, nodes, first), t, h);
      if !ok { return true, first, nodes, t; }
      iter, t, h := next, Turn(t, h), h + 1;
    }
    fatal := false;
  }

  class BlockChain {
    const rules: Rules
    const db: BlockStore
    ghost const genesis: Block
    ghost const universe: set<Block>

    var oldest: Node
    var branches: seq<Branch>
    var longest: Branch
    var lastHeight: nat

    /** The blocks in memory, and the state of the reference model. */
    ghost var nodes: set<Node>
    ghost var abs: State

    ghost predicate Pointers()
      reads this
    {
      && |abs.chains| == |branches| && InMemory(abs.chains, abs.cut)
      && abs.longest < |branches| && longest == branches[abs.longest] && lastHeight == abs.lastHeight
    }

    ghost predicate Coupled()
      reads this, branches, nodes
    {
      && InStep(Mem(branches, nodes, oldest), abs)
      && Pointers()
      && Laws(genesis, universe, rules, abs)
    }

    ghost predicate Backed()
      reads this, db
    {
      db.Valid() && db.blocks == abs.db
    }

    ghost predicate Valid()
      reads this, db, branches, nodes
    {
      Coupled() && Backed() && Leaves(abs.chains)
    }

    /** A chain over an empty database starts from the genesis block at height 1. */
    constructor (r: Rules, store: BlockStore, g: Block, ghost u: set<Block>)
      requires store.Valid() && store.blocks == []
      requires WellFormed(g) && HashIdentity(g, u) && ChecksBlocks(r)
      modifies store
      ensures Valid() && abs == Genesis(g) && fresh(nodes) && db == store && rules == r
      ensures genesis == g && universe == u
    {
      hide InStep, Laws, Memory, Lawful, Leaves, BlockStore.Valid, WellFormed, HashIdentity, ChecksBlocks;
      rules, db, genesis, universe := r, store, g, u;
      FirstLaws(g, u, r);
      store.PutGenesis(g);
      var n := new Node(g, 1, true);
      var bc := new Branch(n, [n]);
      oldest, branches, longest, lastHeight := n, [bc], bc, n.height;
      nodes, abs := {n}, Genesis(g);
      new;
      FirstMemory(bc, n);
      CloseStep(Mem(branches, nodes, oldest), abs);
    }

    /** Puts an accepted block on top of a branch. */
    method Grow(bc: Branch, ghost i: nat, b: Block, ghost now: real)
      requires Coupled() && i < |branches| && branches[i] == bc
      requires b in universe && MayGrow(abs.chains, i, b) && Accepts(rules, abs, abs.chains[i], b, now)
      modifies this`nodes, this`abs, bc, bc.head`forward
      ensures Coupled() && abs == Append(old(abs), i, b) && Leaves(abs.chains)
      ensures nodes > old(nodes) && fresh(nodes - old(nodes))
    {
      hide InStep, Laws, Memory, Lawful, Leaves, Accepts, MayGrow, HashesOf, LinkedAbove;
      ghost var m := Mem(branches, nodes, oldest);
      OpenStep(m, abs);
      OpenLaws(genesis, universe, rules, abs);
      GrowLaws(genesis, universe, rules, abs, i, b, now);
      var n := LinkBlock(bc, b, m, abs, i);
      MemoryGrows(m, abs, i, n);
      nodes := nodes + {n};
      abs := Append(abs, i, b);
      CloseStep(Mem(branches, nodes, oldest), abs);
      CloseLaws(genesis, universe, rules, abs);
    }

    /** Opens a branch below the first listed branch that knows the parent, unless the parent
        is too old there or the block is one of its children already. */
    method CreateBranch(b: Block) returns (bc: Branch?)
      requires Coupled() && Fits(abs)
      modifies this`branches, this`abs
      ensures Coupled()
      ensures bc == null <==> ForkPoint(old(abs), b).None?
      ensures bc == null ==> branches == old(branches) && abs == old(abs)
      ensures bc != null ==>
        && fresh(bc) && branches == old(branches) + [bc]
        && abs == Forked(old(abs), ForkPoint(old(abs), b).value)
    {
      hide InStep, Laws, Lawful, Find, HolderIndex, Children, Branch.Cached, IsAt;
      ghost var m, s := Mem(branches, nodes, oldest), abs;
      OpenLaws(genesis, universe, rules, s);
      LawfulTree(genesis, universe, rules, s);
      var k, n := FindHolder(branches, b.header.lastHash, m, s);
      if k == |branches| { return null; }
      ghost var p := Find(s.chains[k], s.cut, b.header.lastHash);
      HolderFacts(m, s, k, p, n);
      if Sub64(branches[k].head.height, n.height) > ALPHA { return null; }
      if n.IsBackwardOf(b) { return null; }
      bc := new Branch(n, branches[k].path[..p + 1 - s.cut]);
      MemoryForks(m, s, k, p + 1 - s.cut, bc);
      ForkLaws(genesis, universe, rules, s, b);
      branches := branches + [bc];
      abs := Forked(s, s.chains[k][..p + 1]);
    }

    /** Makes a tallest branch the longest one if it is taller than at the last change. */
    method NotifyCheck(coins: nat -> bool)
      requires Coupled()
      modifies this`longest, this`lastHeight, this`abs
      ensures Coupled() && abs == Notify(old(abs), coins)
    {
      hide InStep, Laws, Lawful, Branch.Cached;
      ghost var m, s := Mem(branches, nodes, oldest), abs;
      PathIsLive(m, s, 0);
      var best := 0;
      for k := 1 to |branches|
        invariant best == Tallest(s.chains, coins, k)
        invariant m == Mem(branches, nodes, oldest) && s == abs && Coupled()
      {
        PathIsLive(m, s, k);
        PathIsLive(m, s, best);
        var h, top := branches[k].head.height, branches[best].head.height;
        if h > top || (h == top && coins(k)) { best := k; }
      }
      PathIsLive(m, s, best);
      var height := branches[best].head.height;
      if height > lastHeight {
        longest, lastHeight := branches[best], height;
        NotifyLaws(genesis, universe, rules, s, coins);
        abs := s.(longest := best, lastHeight := height);
        StepIgnoresPointers(m, s, abs);
      }
    }

    /** Puts blocks on a branch one by one and stops at the first that is refused. */
    method ExtendBranch(bc: Branch, ghost i: nat, blocks: seq<Block>, now: real) returns (ok: bool)
      requires Coupled() && Backed() && i < |branches| && branches[i] == bc
      requires forall b | b in blocks :: b in universe
      requires blocks != [] ==> MayGrow(abs.chains, i, blocks[0])
      modifies this`nodes, this`abs, bc, nodes
      ensures Coupled() && Backed() && fresh(nodes - old(nodes))
      ensures (abs, ok) == Extend(rules, old(abs), i, blocks, now)
    {
      hide InStep, Laws, Lawful, Leaves, Accepts, MayGrow, BlockStore.Valid, Branch.Cached, Extend, Window,
           ChecksBlocks;
      ghost var s := abs;
      assert blocks[0..] == blocks;
      for k := 0 to |blocks|
        invariant Coupled() && Backed() && fresh(nodes - old(nodes))
        invariant Extend(rules, s, i, blocks, now) == Extend(rules, abs, i, blocks[k..], now)
        invariant k < |blocks| ==> MayGrow(abs.chains, i, blocks[k])
      {
        OpenLaws(genesis, universe, rules, abs);
        LawfulTree(genesis, universe, rules, abs);
        PathIsLive(Mem(branches, nodes, oldest), abs, i);
        ExtendUnfolds(rules, abs, i, blocks[k..], now);
        assert blocks[k..][0] == blocks[k] && blocks[k..][1..] == blocks[k + 1..];
        var fine := VerifyBlock(rules, db, bc, blocks[k], now, Mem(branches, nodes, oldest), abs, i);
        if !fine { return false; }
        Grow(bc, i, blocks[k], now);
        if k + 1 < |blocks| { LeavesMayGrow(abs.chains, i, blocks[k + 1]); }
      }
      ExtendUnfolds(rules, abs, i, blocks[|blocks|..], now);
      return true;
    }

    /** The branch that ends in a block's parent, or a new one; i is its index. */
    method ReceivingBranch(first: Block) returns (bc: Branch?, ghost i: nat)
      requires Valid() && Fits(abs)
      modifies this`branches, this`abs
      ensures Coupled() && Backed()
      ensures forall j | 0 <= j < |branches| :: branches[j] in old(branches) || fresh(branches[j])
      ensures bc == null <==> Receiver(old(abs), first).None?
      ensures bc == null ==> abs == old(abs) && branches == old(branches)
      ensures bc != null ==>
        && Receiver(old(abs), first) == Some((abs, i))
        && i < |branches| && branches[i] == bc && MayGrow(abs.chains, i, first)
    {
      hide InStep, Laws, Lawful, Leaves, MayGrow, BlockStore.Valid, Branch.Cached, Fits, ForkPoint;
      var k := FindHead(branches, first.header.lastHash, Mem(branches, nodes, oldest), abs);
      i := k;
      if k < |branches| {
        bc := branches[k];
        LeavesMayGrow(abs.chains, k, first);
      } else {
        ghost var s := abs;
        bc := CreateBranch(first);
        if bc != null { ForkMayGrow(s, first); }
      }
    }

    /** Adds a batch to the branch that ends in its parent, or to a new one. The heads stay
        distinct leaves exactly when a new branch accepts its first block. */
    method AddBlocks(blocks: seq<Block>, local: bool, now: real, coins: nat -> bool)
      requires Valid() && Fits(abs) && forall b | b in blocks :: b in universe
      modifies this`branches, this`longest, this`lastHeight, this`nodes, this`abs, branches, nodes
      ensures Coupled() && Backed() && fresh(nodes - old(nodes))
      ensures forall j | 0 <= j < |branches| :: branches[j] in old(branches) || fresh(branches[j])
      ensures abs == ChainModel.AddBlocks(rules, old(abs), blocks, local, now, coins)
      ensures Leaves(abs.chains) <==> !ForkRefused(rules, old(abs), blocks, now)
    {
      hide InStep, Laws, Lawful, Leaves, MayGrow, BlockStore.Valid, Branch.Cached, Fits, Receiver, Extend,
           ForkRefused;
      AddBlocksLaws(genesis, universe, rules, abs, blocks, local, now, coins);
      if blocks == [] { return; }
      var bc: Branch?;
      ghost var i;
      bc, i := ReceivingBranch(blocks[0]);
      if bc == null { return; }
      ExtendShape(rules, abs, i, blocks, now);
      var ok := ExtendBranch(bc, i, blocks, now);
      if ok && !local { NotifyCheck(coins); }
    }

    /** Takes the branches that are more than alpha away from the longest one out of memory. */
    method PruneBranches()
      requires Valid() && Fits(abs)
      modifies this`branches, this`nodes, this`abs, nodes`forward, nodes`backward
      ensures Valid() && Fits(abs) && AtTurn(abs, abs.cut + 1) && abs == Pruned(old(abs))
      ensures nodes <= old(nodes) && forall j | 0 <= j < |branches| :: branches[j] in old(branches)
    {
      hide InStep, Laws, Leaves, Tree, CutIsStored, Pruned, HashesOf, AtTurn;
      PruneLaws(genesis, universe, rules, abs);
      var kept: seq<Branch>;
      ghost var live;
      kept, live := Thin(branches, longest, Mem(branches, nodes, oldest), abs);
      PrunedFields(abs);
      branches, nodes, abs := kept, live, Pruned(abs);
    }

    /** Walks up from the oldest block, stores what no branch can leave any more and cuts what is
        far below the longest height. A height the database refuses is fatal. */
    method FlushStem() returns (fatal: bool)
      requires Valid() && Fits(abs) && AtTurn(abs, abs.cut + 1)
      modifies this`oldest, this`nodes, this`abs, db, branches, nodes
      ensures !fatal ==> Valid()
      ensures nodes <= old(nodes)
      ensures Flush(old(abs), old(abs.cut) + 1) == if fatal then Crashed else Running(abs)
    {
      hide InStep, Laws, Leaves, Fits, BlockStore.Valid, Flush, AtTurn;
      var first;
      ghost var live, t;
      ghost var run := Run(genesis, universe, rules);
      fatal, first, live, t := FlushLoop(db, branches, longest, oldest, run, Mem(branches, nodes, oldest), abs);
      if !fatal { oldest, nodes, abs := first, live, t; }
    }

    /** One maintenance: prune, then flush. */
    method Maintain() returns (fatal: bool)
      requires Valid() && Fits(abs)
      modifies this`oldest, this`branches, this`nodes, this`abs, db, branches, nodes
      ensures !fatal ==> Valid()
      ensures nodes <= old(nodes) && forall j | 0 <= j < |branches| :: branches[j] in old(branches)
      ensures ChainModel.Maintain(old(abs)) == if fatal then Crashed else Running(abs)
    {
      hide InStep, Laws, Leaves, Fits, BlockStore.Valid, Flush, AtTurn, Pruned;
      PrunedFields(abs);
      PruneBranches();
      fatal := FlushStem();
    }

    /** How far a peer that ends in `base` is behind. */
    method GetSyncHash(base: Bytes) returns (r: HashAnswer)
      requires Valid()
      ensures r == SyncHash(abs, base)
    {
      hide InStep, Laws, Lawful, Leaves, SyncHash, BlockStore.Valid;
      ReadLaws(genesis, universe, rules, abs);
      StoreFits();
      r := SyncHashOf(db, longest, base, Mem(branches, nodes, oldest), abs);
    }

    method GetSyncBlocks(base: Bytes, end: Bytes, onlyHeader: bool) returns (r: BlocksAnswer)
      requires Valid()
      ensures r == SyncBlocks(abs, base, end, onlyHeader)
    {
      hide InStep, Laws, Lawful, Leaves, SyncBlocks, BlockStore.Valid;
      ReadLaws(genesis, universe, rules, abs);
      StoreFits();
      r := SyncBlocksOf(db, longest, base, end, onlyHeader, Mem(branches, nodes, oldest), abs);
    }

    lemma StoreFits()
      requires Backed()
      ensures |abs.db| < TWO_63
    {
      assert Opened(0);
    }

    /** The blocks of the longest branch that are not stored yet, newest first. */
    method GetUnstoredBlocks() returns (blocks: seq<Block>, heights: seq<nat>)
      requires Valid()
      ensures var main := abs.chains[abs.longest];
        && |blocks| == |heights| == |main| - StoredTop(main, abs.stored, abs.cut)
        && (forall k | 0 <= k < |blocks| :: blocks[k] == main[|main| - 1 - k] && heights[k] == |main| - k)
    {
      hide InStep, Laws, Leaves, BlockStore.Valid, StoredTop;
      blocks, heights := UnstoredOf(longest, Mem(branches, nodes, oldest), abs, abs.longest);
    }
  }
}
