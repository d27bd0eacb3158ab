/** Linked blocks and branches with their caches (core/blockchain/block.go, branch.go). */
module BlockTree {
  import opened Records
  import opened ChainModel

  /** A block in memory. The parent is one link, the children are kept by hash. */
  class Node {
    const blk: Block
    const height: nat
    var stored: bool
    var backward: Node?
    var forward: map<Bytes, Node>

    constructor (b: Block, height: nat, stored: bool)
      ensures blk == b && this.height == height && this.stored == stored
      ensures backward == null && forward == map[]
    {
      this.blk, this.height, this.stored := b, height, stored;
      backward, forward := null, map[];
    }

    method AddForward(n: Node)
      modifies this`forward
      ensures forward == old(forward)[n.blk.hash := n]
    {
      forward := forward[n.blk.hash := n];
    }

    method RemoveForward(n: Node)
      modifies this`forward
      ensures forward == old(forward) - {n.blk.hash}
    {
      forward := forward - {n.blk.hash};
    }

    predicate IsBackwardOf(b: Block)
      reads this
    {
      b.hash in forward
    }

    function ForwardNum(): nat
      reads this
    {
      |forward|
    }

    /** Unlinks a block without children from its parent and returns the parent; a block
        with children stays as it is. A childless block must have a parent. */
    method Remove() returns (parent: Node?)
      requires ForwardNum() == 0 ==> backward != null && backward != this
      modifies this`backward, (if backward == null then {} else {backward})`forward
      ensures old(ForwardNum()) != 0 ==> parent == null && backward == old(backward)
      ensures old(ForwardNum()) != 0 && backward != null ==> backward.forward == old(backward.forward)
      ensures old(ForwardNum()) == 0 ==>
        && parent == old(backward) && backward == null
        && parent.forward == old(backward.forward) - {blk.hash}
    {
      if ForwardNum() != 0 { return null; }
      parent := backward;
      parent.RemoveForward(this);
      backward := null;
    }
  }

  function BlocksOf(path: seq<Node>): (r: seq<Block>)
    ensures |r| == |path| && forall k | 0 <= k < |path| :: r[k] == path[k].blk
  {
    seq(|path|, k requires 0 <= k < |path| => path[k].blk)
  }

  /** Parent links lead from the end of the path down to a block without a parent. */
  ghost predicate Chained(path: seq<Node>)
    reads path
  {
    && |path| > 0 && path[0].backward == null
    && (forall k | 0 < k < |path| :: path[k].backward == path[k - 1])
  }

  ghost predicate DistinctHashes(path: seq<Node>) {
    forall j, k | 0 <= j < k < |path| :: path[j].blk.hash != path[k].blk.hash
  }

  /** The cache finds exactly the blocks of the path, each under its hash. */
  ghost predicate CachesBlocks(cache: map<Bytes, Node>, path: seq<Node>) {
    && (forall k | 0 <= k < |path| :: path[k].blk.hash in cache && cache[path[k].blk.hash] == path[k])
    && (forall h | h in cache :: cache[h] in path && cache[h].blk.hash == h)
  }

  /** A competing chain: its head and lookups over all blocks from the head down. The path
      is the sequence a plain walk from the head would give, oldest block first. */
  class Branch {
    var head: Node
    var blockCache: map<Bytes, Node>
    var evidenceCache: map<Bytes, Evidence>
    ghost var path: seq<Node>

    ghost predicate Cached()
      reads this
    {
      && |path| > 0 && head == path[|path| - 1]
      && CachesBlocks(blockCache, path)
      && evidenceCache.Keys == EvidenceIn(BlocksOf(path))
    }

    /** Walks down from `begin`, whose path is `p`, and fills both caches. */
    constructor (begin: Node, ghost p: seq<Node>)
      requires Chained(p) && DistinctHashes(p) && begin == p[|p| - 1]
      ensures Cached() && path == p && head == begin
    {
      hide EvidenceIn, BlocksOf, CachesBlocks, DistinctHashes;
      head := begin;
      path := p;
      var blocks: map<Bytes, Node> := map[];
      var evds: map<Bytes, Evidence> := map[];
      var iter: Node? := begin;
      ghost var k := |p|;
      EmptyPath(p[k..]);
      while iter != null
        invariant 0 <= k <= |p| && iter == (if k == 0 then null else p[k - 1])
        invariant CachesBlocks(blocks, p[k..])
        invariant evds.Keys == EvidenceIn(BlocksOf(p[k..]))
        decreases k
      {
        CacheGrowsDown(blocks, p, k - 1);
        blocks := blocks[iter.blk.hash := iter];
        evds := CacheEvidence(evds, iter.blk.evds);
        PathGrowsDown(p, k - 1);
        iter := iter.backward;
        k := k - 1;
      }
      assert p[0..] == p;
      blockCache := blocks;
      evidenceCache := evds;
    }

    /** The lookup by hash agrees with a plain walk. */
    method GetBlock(hash: Bytes) returns (n: Node?)
      requires Cached()
      ensures n == null <==> forall k | 0 <= k < |path| :: path[k].blk.hash != hash
      ensures n != null ==> n in path && n.blk.hash == hash
    {
      if hash in blockCache { return blockCache[hash]; }
      return null;
    }

    method HasEvidence(hash: Bytes) returns (r: bool)
      requires Cached()
      ensures r <==> hash in EvidenceIn(BlocksOf(path))
    {
      r := hash in evidenceCache;
    }

    /** Links a new block above the head. */
    method Add(n: Node)
      requires Cached() && n != head && n !in path
      requires forall k | 0 <= k < |path| :: path[k].blk.hash != n.blk.hash
      modifies this, head`forward, n`backward
      ensures Cached() && path == old(path) + [n] && head == n
      ensures old(head).forward == old(head.forward)[n.blk.hash := n]
      ensures n.backward == old(head)
    {
      hide EvidenceIn, CachesBlocks;
      head.AddForward(n);
      n.backward := head;
      CacheGrowsUp(blockCache, path, n);
      head := n;
      blockCache := blockCache[n.blk.hash := n];
      evidenceCache := CacheEvidence(evidenceCache, n.blk.evds);
      path := path + [n];
    }

    /** Forgets the oldest block and its evidence. */
    method RemoveFromCache(n: Node)
      requires Cached() && |path| > 1 && n == path[0] && DistinctHashes(path)
      requires forall k | 0 < k < |path| :: EvidenceOf(path[0].blk) !! EvidenceOf(path[k].blk)
      modifies this
      ensures Cached() && path == old(path)[1..] && head == old(head)
    {
      hide EvidenceIn, CachesBlocks;
      CacheShrinks(blockCache, path);
      EvidenceShrinks(path);
      blockCache := blockCache - {n.blk.hash};
      evidenceCache := evidenceCache - set e | e in n.blk.evds :: e.hash;
      path := path[1..];
    }
  }

  /** The child maps along a path. */
  ghost function ChildrenAlong(p: seq<Node>): (r: seq<map<Bytes, Node>>)
    reads p
    ensures |r| == |p| && forall j | 0 <= j < |p| :: r[j] == p[j].forward
  {
    seq(|p|, j requires 0 <= j < |p| reads p => p[j].forward)
  }

  /** What unlinking the blocks of a path from its end down to index k leaves behind, when
      their child maps were `kids`: those above k had no other child and have no parent now,
      the one at k keeps its other children, and nothing below k changes. */
  ghost predicate Unlinked(p: seq<Node>, kids: seq<map<Bytes, Node>>, k: nat)
    requires k < |p| == |kids|
    reads p
  {
    && (forall j | 0 <= j < k :: p[j].forward == kids[j])
    && p[k].forward == (if k == |p| - 1 then kids[k] else kids[k] - {p[k + 1].blk.hash})
    && p[0].backward == null && (forall j | 0 < j <= k :: p[j].backward == p[j - 1])
    && (forall j | k < j < |p| :: p[j].backward == null)
    && (forall j | k < j < |p| - 1 :: kids[j].Keys <= {p[j + 1].blk.hash})
  }

  ghost predicate Distinct(p: seq<Node>) {
    forall j, k | 0 <= j < k < |p| :: p[j] != p[k]
  }

  lemma {:induction false} OnlyChild(m: map<Bytes, Node>, h: Bytes)
    requires |m - {h}| == 0
    ensures m.Keys <= {h}
  {
    forall k | k in m ensures k == h { assert k != h ==> k in m - {h}; }
  }

  /** One step down: the childless block above index k is unlinked from its parent at k. */
  method RemoveOne(iter: Node, ghost p: seq<Node>, ghost kids: seq<map<Bytes, Node>>, ghost k: nat)
    returns (parent: Node)
    requires k + 1 < |p| == |kids| && Distinct(p) && Unlinked(p, kids, k + 1)
    requires iter == p[k + 1] && iter.ForwardNum() == 0
    modifies {p[k + 1]}`backward, {p[k]}`forward
    ensures parent == p[k] && Unlinked(p, kids, k)
  {
    if k + 2 < |p| { OnlyChild(kids[k + 1], p[k + 2].blk.hash); }
    assert p[k] != p[k + 1];
    parent := iter.Remove();
    assert p[k].forward == kids[k] - {p[k + 1].blk.hash};
    assert forall j | k + 1 < j < |p| :: p[j].backward == null;
  }

  lemma {:induction false} NothingUnlinked(p: seq<Node>)
    requires Chained(p)
    ensures Unlinked(p, ChildrenAlong(p), |p| - 1)
  {
  }

  /** No block of the path has a child but the next one. */
  ghost predicate AllBare(p: seq<Node>, kids: seq<map<Bytes, Node>>)
    requires |p| == |kids| > 0
  {
    && kids[|p| - 1].Keys == {}
    && (forall j | 0 <= j < |p| - 1 :: kids[j].Keys <= {p[j + 1].blk.hash})
  }

  /** A block without children, down to which everything was unlinked, had no other child. */
  lemma {:induction false} BareSoFar(p: seq<Node>, kids: seq<map<Bytes, Node>>, k: nat)
    requires k < |p| == |kids| && Unlinked(p, kids, k) && p[k].ForwardNum() == 0
    requires k < |p| - 1 ==> kids[|p| - 1].Keys == {}
    ensures kids[|p| - 1].Keys == {} && forall j | k <= j < |p| - 1 :: kids[j].Keys <= {p[j + 1].blk.hash}
  {
    if k < |p| - 1 { OnlyChild(kids[k], p[k + 1].blk.hash); }
  }

  lemma {:induction false} NotBare(p: seq<Node>, kids: seq<map<Bytes, Node>>, k: nat)
    requires k < |p| == |kids| && Unlinked(p, kids, k) && p[k].ForwardNum() != 0
    ensures !AllBare(p, kids)
  {
    var h :| h in p[k].forward;
    assert h in kids[k];
  }

  /** Unlinks the blocks of a branch from the head down to the first that has another child. If none
      has, the walk falls off the oldest block, which has no parent to unlink it from. */
  method RemoveBranch(head: Node, ghost p: seq<Node>) returns (fell: bool, ghost k: nat)
    requires |p| > 0 && Chained(p) && Distinct(p) && head == p[|p| - 1]
    modifies p`forward, p`backward
    ensures fell <==> AllBare(p, old(ChildrenAlong(p)))
    ensures !fell ==> k < |p| && p[k].ForwardNum() != 0 && Unlinked(p, old(ChildrenAlong(p)), k)
  {
    hide Unlinked, Chained, Distinct, AllBare;
    var iter := head;
    k := |p| - 1;
    ghost var kids := ChildrenAlong(p);
    NothingUnlinked(p);
    while iter.ForwardNum() == 0
      invariant 0 <= k < |p| && iter == p[k] && Unlinked(p, kids, k)
      invariant k < |p| - 1 ==> kids[|p| - 1].Keys == {}
      decreases k
    {
      BareSoFar(p, kids, k);
      ParentOf(p, kids, k);
      if iter.backward == null {
        AllBareAtOldest(p, kids);
        return true, k;
      }
      k := k - 1;
      iter := RemoveOne(iter, p, kids, k);
    }
    NotBare(p, kids, k);
    fell := false;
  }

  lemma {:induction false} ParentOf(p: seq<Node>, kids: seq<map<Bytes, Node>>, k: nat)
    requires k < |p| == |kids| && Unlinked(p, kids, k)
    ensures p[k].backward == null <==> k == 0
  {
    if k > 0 { assert p[k].backward == p[k - 1]; }
  }

  lemma {:induction false} AllBareAtOldest(p: seq<Node>, kids: seq<map<Bytes, Node>>)
    requires |p| == |kids| > 0
    requires kids[|p| - 1].Keys == {} && forall j | 0 <= j < |p| - 1 :: kids[j].Keys <= {p[j + 1].blk.hash}
    ensures AllBare(p, kids)
  {
  }

  lemma {:induction false} EmptyPath(p: seq<Node>)
    requires p == []
    ensures CachesBlocks(map[], p) && EvidenceIn(BlocksOf(p)) == {}
  {
  }

  lemma {:induction false} CacheGrowsDown(cache: map<Bytes, Node>, p: seq<Node>, k: nat)
    requires k < |p| && DistinctHashes(p) && CachesBlocks(cache, p[k + 1..])
    ensures CachesBlocks(cache[p[k].blk.hash := p[k]], p[k..])
  {
    var q := p[k + 1..];
    assert p[k..] == [p[k]] + q;
    forall j | 0 <= j < |q| ensures q[j].blk.hash != p[k].blk.hash { assert q[j] == p[k + 1 + j]; }
  }

  lemma {:induction false} CacheGrowsUp(cache: map<Bytes, Node>, p: seq<Node>, n: Node)
    requires CachesBlocks(cache, p) && forall k | 0 <= k < |p| :: p[k].blk.hash != n.blk.hash
    ensures CachesBlocks(cache[n.blk.hash := n], p + [n])
    ensures EvidenceIn(BlocksOf(p + [n])) == EvidenceIn(BlocksOf(p)) + EvidenceOf(n.blk)
  {
    hide EvidenceIn, EvidenceOf;
    assert BlocksOf(p + [n]) == BlocksOf(p) + [n.blk];
    EvidenceSplit(n.blk, BlocksOf(p));
    assert n == (p + [n])[|p|];
    forall h | h in cache ensures cache[h] in p + [n] { assert cache[h] in p; }
  }

  lemma {:induction false} CacheShrinks(cache: map<Bytes, Node>, p: seq<Node>)
    requires |p| > 0 && DistinctHashes(p) && CachesBlocks(cache, p)
    ensures CachesBlocks(cache - {p[0].blk.hash}, p[1..])
  {
    assert p == [p[0]] + p[1..];
    forall h | h in cache && h != p[0].blk.hash ensures cache[h] in p[1..] {
      assert cache[h] in p && cache[h] != p[0];
    }
  }

  lemma {:induction false} EvidenceShrinks(p: seq<Node>)
    requires |p| > 0 && forall k | 0 < k < |p| :: EvidenceOf(p[0].blk) !! EvidenceOf(p[k].blk)
    ensures EvidenceIn(BlocksOf(p)) - EvidenceOf(p[0].blk) == EvidenceIn(BlocksOf(p[1..]))
  {
    PathGrowsDown(p, 0);
    assert p[0..] == p;
    forall h | h in EvidenceIn(BlocksOf(p[1..])) ensures h !in EvidenceOf(p[0].blk) {
      var k :| 0 <= k < |p[1..]| && h in EvidenceOf(BlocksOf(p[1..])[k]);
      assert BlocksOf(p[1..])[k] == p[k + 1].blk;
    }
  }

  /** Stores every evidence of a block under its hash. */
  method CacheEvidence(cache: map<Bytes, Evidence>, evds: seq<Evidence>) returns (r: map<Bytes, Evidence>)
    ensures r.Keys == cache.Keys + set e | e in evds :: e.hash
  {
    r := cache;
    for i := 0 to |evds|
      invariant r.Keys == cache.Keys + set e | e in evds[..i] :: e.hash
    {
      r := r[evds[i].hash := evds[i]];
      assert evds[..i + 1] == evds[..i] + [evds[i]];
    }
    assert evds[..|evds|] == evds;
  }

  lemma {:induction false} EvidenceSplit(b: Block, bs: seq<Block>)
    ensures EvidenceIn([b] + bs) == EvidenceOf(b) + EvidenceIn(bs)
    ensures EvidenceIn(bs + [b]) == EvidenceIn(bs) + EvidenceOf(b)
  {
    var front, back := [b] + bs, bs + [b];
    forall h | h in EvidenceOf(b) + EvidenceIn(bs) ensures h in EvidenceIn(front) && h in EvidenceIn(back) {
      if h in EvidenceOf(b) {
        assert front[0] == b && back[|bs|] == b;
      } else {
        var p :| 0 <= p < |bs| && h in EvidenceOf(bs[p]);
        assert front[p + 1] == bs[p] && back[p] == bs[p];
      }
    }
    forall h | h in EvidenceIn(front) ensures h in EvidenceOf(b) + EvidenceIn(bs) {
      var p :| 0 <= p < |front| && h in EvidenceOf(front[p]);
      if p > 0 { assert front[p] == bs[p - 1]; }
    }
    forall h | h in EvidenceIn(back) ensures h in EvidenceOf(b) + EvidenceIn(bs) {
      var p :| 0 <= p < |back| && h in EvidenceOf(back[p]);
      if p < |bs| { assert back[p] == bs[p]; }
    }
  }

  lemma {:induction false} PathGrowsDown(p: seq<Node>, k: nat)
    requires k < |p|
    ensures p[k..] == [p[k]] + p[k + 1..]
    ensures EvidenceIn(BlocksOf(p[k..])) == EvidenceOf(p[k].blk) + EvidenceIn(BlocksOf(p[k + 1..]))
  {
    assert BlocksOf(p[k..]) == [p[k].blk] + BlocksOf(p[k + 1..]);
    EvidenceSplit(p[k].blk, BlocksOf(p[k + 1..]));
  }
}
