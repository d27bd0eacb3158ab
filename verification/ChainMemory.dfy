/** Linked blocks, branches and caches in step with the reference model. */
module ChainMemory {
  import opened Records
  import opened ChainModel
  import opened ChainInvariants
  import opened BlockTree

  // ---- the shape of memory ----

  /** Parent and child links are mutual and stay among the live blocks. */
  ghost predicate Links(nodes: set<Node>)
    reads nodes
  {
    && (forall n, h | n in nodes && h in n.forward ::
         n.forward[h] in nodes && n.forward[h].blk.hash == h && n.forward[h].backward == n)
    && (forall n | n in nodes && n.backward != null ::
         n.backward in nodes && n.blk.hash in n.backward.forward && n.backward.forward[n.blk.hash] == n)
  }

  ghost predicate UniqueHashes(nodes: set<Node>) {
    forall n, m | n in nodes && m in nodes && n.blk.hash == m.blk.hash :: n == m
  }

  /** A walk down from the end of the path goes through live blocks to the oldest one. */
  ghost predicate Walk(p: seq<Node>, nodes: set<Node>, oldest: Node)
    reads nodes
  {
    && |p| > 0 && p[0] == oldest
    && (forall k | 0 <= k < |p| :: p[k] in nodes)
    && oldest.backward == null
    && (forall k | 0 < k < |p| :: p[k].backward == p[k - 1])
  }

  ghost predicate Walks(bs: seq<Branch>, nodes: set<Node>, oldest: Node)
    reads bs, nodes
  {
    forall i | 0 <= i < |bs| :: Walk(bs[i].path, nodes, oldest)
  }

  ghost predicate OnSome(bs: seq<Branch>, n: Node)
    reads bs
  {
    exists i | 0 <= i < |bs| :: n in bs[i].path
  }

  /** Every block in memory is on the walk of a listed branch. */
  ghost predicate Live(bs: seq<Branch>, nodes: set<Node>)
    reads bs
  {
    forall n | n in nodes :: OnSome(bs, n)
  }

  ghost predicate Caches(bs: seq<Branch>)
    reads bs
  {
    forall i | 0 <= i < |bs| :: bs[i].Cached()
  }

  ghost predicate DistinctBranches(bs: seq<Branch>) {
    forall i, j | 0 <= i < j < |bs| :: bs[i] != bs[j]
  }

  ghost predicate Marked(nodes: set<Node>, stored: set<Bytes>)
    reads nodes
  {
    forall n | n in nodes :: n.stored <==> n.blk.hash in stored
  }

  /** A path holds the part of a history that is in memory. */
  ghost predicate Mirrors(p: seq<Node>, c: History, cut: nat) {
    && |c| == cut + |p|
    && (forall k | 0 <= k < |p| :: p[k].blk == c[cut + k] && p[k].height == cut + k + 1)
  }

  ghost predicate Mirror(bs: seq<Branch>, chains: seq<History>, cut: nat)
    reads bs
  {
    && |bs| == |chains|
    && (forall i | 0 <= i < |bs| :: Mirrors(bs[i].path, chains[i], cut))
  }

  /** The listed branches, the live blocks and the oldest of them. */
  datatype Mem = Mem(bs: seq<Branch>, nodes: set<Node>, oldest: Node)

  ghost predicate Shape(m: Mem)
    reads m.bs, m.nodes
  {
    && DistinctBranches(m.bs)
    && UniqueHashes(m.nodes)
    && Links(m.nodes)
    && Walks(m.bs, m.nodes, m.oldest)
    && Live(m.bs, m.nodes)
    && Caches(m.bs)
  }

  /** Memory says what the reference state says. */
  ghost predicate Memory(m: Mem, s: State)
    reads m.bs, m.nodes
  {
    Shape(m) && Mirror(m.bs, s.chains, s.cut) && Marked(m.nodes, s.stored)
  }

  // ---- growing ----

  /** What linking the block n above the head of branch i changes, and nothing else. */
  twostate predicate LinkedAbove(m: Mem, new i: nat, new n: Node)
    requires i < |m.bs|
    reads m.bs, m.nodes, n
  {
    var head := old(m.bs[i].head);
    && n !in m.nodes && n.backward == head && n.forward == map[] && !n.stored
    && head in m.nodes && head.forward == old(head.forward)[n.blk.hash := n]
    && (forall x | x in m.nodes :: x.backward == old(x.backward) && x.stored == old(x.stored))
    && (forall x | x in m.nodes && x != head :: x.forward == old(x.forward))
    && (forall j | 0 <= j < |m.bs| && j != i :: unchanged(m.bs[j]))
    && m.bs[i].path == old(m.bs[i].path) + [n] && m.bs[i].Cached()
  }

  twostate lemma LinksGrow(m: Mem, new i: nat, new n: Node)
    requires i < |m.bs| && old(Links(m.nodes)) && LinkedAbove(m, i, n)
    requires n.blk.hash !in old(m.bs[i].head.forward)
    ensures Links(m.nodes + {n})
  {
    hide CachesBlocks, EvidenceIn, BlocksOf;
  }

  twostate lemma WalksGrow(m: Mem, new i: nat, new n: Node)
    requires i < |m.bs| && DistinctBranches(m.bs) && old(Walks(m.bs, m.nodes, m.oldest) && Caches(m.bs))
        && LinkedAbove(m, i, n)
    ensures Walks(m.bs, m.nodes + {n}, m.oldest)
  {
    hide CachesBlocks, EvidenceIn, BlocksOf;
    assert old(m.bs[i].Cached());
    forall j | 0 <= j < |m.bs| ensures Walk(m.bs[j].path, m.nodes + {n}, m.oldest) {
      assert old(Walk(m.bs[j].path, m.nodes, m.oldest));
    }
  }

  twostate lemma LiveGrows(m: Mem, new i: nat, new n: Node)
    requires i < |m.bs| && old(Live(m.bs, m.nodes)) && LinkedAbove(m, i, n)
    ensures Live(m.bs, m.nodes + {n})
  {
    hide CachesBlocks, EvidenceIn, BlocksOf;
    forall x | x in m.nodes + {n} ensures OnSome(m.bs, x) {
      if x in m.nodes {
        assert old(OnSome(m.bs, x));
        var j :| 0 <= j < |m.bs| && x in old(m.bs[j].path);
        assert x in m.bs[j].path;
      } else {
        assert n in m.bs[i].path;
      }
    }
  }

  twostate lemma CachesGrow(m: Mem, new i: nat, new n: Node)
    requires i < |m.bs| && old(Caches(m.bs)) && LinkedAbove(m, i, n)
    ensures Caches(m.bs)
  {
    hide CachesBlocks, EvidenceIn, BlocksOf;
    forall j | 0 <= j < |m.bs| ensures m.bs[j].Cached() {
      if j != i { assert old(m.bs[j].Cached()); }
    }
  }

  twostate lemma MirrorsGrow(m: Mem, new s: State, new i: nat, new n: Node)
    requires i < |m.bs| && old(Mirror(m.bs, s.chains, s.cut)) && LinkedAbove(m, i, n) && n.height == |s.chains[i]| + 1
    ensures Mirror(m.bs, Append(s, i, n.blk).chains, s.cut)
  {
    hide Mirrors, CachesBlocks, EvidenceIn, BlocksOf;
    MirrorGrows(old(m.bs[i].path), s.chains[i], s.cut, n);
  }

  twostate lemma ShapeGrows(m: Mem, new i: nat, new n: Node)
    requires i < |m.bs| && old(Shape(m)) && LinkedAbove(m, i, n)
    requires n.blk.hash !in old(m.bs[i].head.forward) && forall x | x in m.nodes :: x.blk.hash != n.blk.hash
    ensures Shape(m.(nodes := m.nodes + {n}))
  {
    hide Links, Live, Walks, Caches, LinkedAbove;
    LinksGrow(m, i, n);
    WalksGrow(m, i, n);
    LiveGrows(m, i, n);
    CachesGrow(m, i, n);
  }

  /** Memory stays in step with the reference state when the new block is linked. */
  twostate lemma MemoryGrows(m: Mem, new s: State, new i: nat, new n: Node)
    requires i < |m.bs| && old(Memory(m, s)) && LinkedAbove(m, i, n)
    requires n.blk.hash !in old(m.bs[i].head.forward) && forall x | x in m.nodes :: x.blk.hash != n.blk.hash
    requires n.blk.hash !in s.stored && n.height == |s.chains[i]| + 1
    ensures Memory(m.(nodes := m.nodes + {n}), Append(s, i, n.blk))
  {
    hide Shape, Mirror, Caches, CachesBlocks, EvidenceIn, BlocksOf;
    ShapeGrows(m, i, n);
    MirrorsGrow(m, s, i, n);
  }

  lemma {:induction false} MirrorGrows(p: seq<Node>, c: History, cut: nat, n: Node)
    requires Mirrors(p, c, cut) && n.height == |c| + 1
    ensures Mirrors(p + [n], c + [n.blk], cut)
  {
  }

  /** A block in memory has a hash of the abstract chains. */
  lemma {:induction false} NodeHash(bs: seq<Branch>, nodes: set<Node>, chains: seq<History>, cut: nat, n: Node)
    requires Live(bs, nodes) && Mirror(bs, chains, cut) && n in nodes
    ensures n.blk.hash in HashesOf(chains)
  {
    assert OnSome(bs, n);
    var i :| 0 <= i < |bs| && n in bs[i].path;
    var k :| 0 <= k < |bs[i].path| && bs[i].path[k] == n;
    assert Mirrors(bs[i].path, chains[i], cut);
    assert chains[i][cut + k].hash == n.blk.hash;
  }

  /** The reference state satisfies the invariants, under the hypotheses about the run. */
  ghost predicate Lawful(g: Block, u: set<Block>, r: Rules, s: State) {
    HashIdentity(g, u) && ChecksBlocks(r) && Sound(g, u, r.limit, s)
  }

  /** What a run of the chain takes as given: the genesis block, all blocks ever submitted
      and the rules. */
  datatype Run = Run(g: Block, u: set<Block>, r: Rules)

  lemma {:induction false} FitsChains(s: State, t: State)
    requires Fits(s) && t.chains == s.chains
    ensures Fits(t)
  {
  }

  /** Memory in step with the reference state, as a closed name: `OpenStep` and `CloseStep`
      go between it and its meaning. */
  ghost predicate InStep(m: Mem, s: State)
    reads m.bs, m.nodes
  {
    forall key {:trigger Opened(key)} :: Opened(key) ==> Memory(m, s)
  }

  lemma {:induction false} OpenStep(m: Mem, s: State)
    requires InStep(m, s)
    ensures Memory(m, s)
  {
    hide Memory;
    assert Opened(0);
  }

  lemma {:induction false} CloseStep(m: Mem, s: State)
    requires Memory(m, s)
    ensures InStep(m, s)
  {
    hide Memory;
  }

  /** The laws of the reference state, as a closed name. */
  ghost predicate Laws(g: Block, u: set<Block>, r: Rules, s: State) {
    forall key {:trigger Opened(key)} :: Opened(key) ==> Lawful(g, u, r, s)
  }

  lemma {:induction false} OpenLaws(g: Block, u: set<Block>, r: Rules, s: State)
    requires Laws(g, u, r, s)
    ensures Lawful(g, u, r, s)
  {
    hide Lawful;
    assert Opened(0);
  }

  lemma {:induction false} CloseLaws(g: Block, u: set<Block>, r: Rules, s: State)
    requires Lawful(g, u, r, s)
    ensures Laws(g, u, r, s)
  {
    hide Lawful;
  }

  lemma {:induction false} PathIsLive(m: Mem, s: State, i: nat)
    requires InStep(m, s) && i < |m.bs| && i < |s.chains|
    ensures var bc := m.bs[i];
      && |bc.path| > 0 && bc.head == bc.path[|bc.path| - 1]
      && bc.Cached() && bc.head in m.nodes && (forall k | 0 <= k < |bc.path| :: bc.path[k] in m.nodes)
      && bc.head.height == |s.chains[i]| > 0 && bc.head.blk == Head(s.chains[i])
  {
    hide Links, Live, UniqueHashes, Marked, InStep;
    OpenStep(m, s);
    assert Walk(m.bs[i].path, m.nodes, m.oldest) && m.bs[i].Cached();
    assert Mirrors(m.bs[i].path, s.chains[i], s.cut);
  }

  lemma {:induction false} NoSuchChild(nodes: set<Node>, n: Node, hash: Bytes)
    requires Links(nodes) && n in nodes && forall m | m in nodes :: m.blk.hash != hash
    ensures hash !in n.forward
  {
    forall h | h in n.forward ensures h != hash {
      assert n.forward[h] in nodes && n.forward[h].blk.hash == h;
    }
  }

  lemma {:induction false} FirstLaws(g: Block, u: set<Block>, r: Rules)
    requires WellFormed(g) && HashIdentity(g, u) && ChecksBlocks(r)
    ensures Laws(g, u, r, Genesis(g)) && Leaves(Genesis(g).chains) && Sized(g)
  {
    GenesisSound(g, u, r.limit);
    CloseLaws(g, u, r, Genesis(g));
  }

  lemma {:induction false} FirstMemory(bc: Branch, n: Node)
    requires bc.Cached() && bc.path == [n]
    requires n.height == 1 && n.stored && n.backward == null && n.forward == map[]
    ensures Memory(Mem([bc], {n}, n), Genesis(n.blk))
  {
    assert n in [bc][0].path;
  }

  /** Taking the first block off a batch is one step of extending. */
  lemma {:induction false} ExtendUnfolds(r: Rules, s: State, i: nat, blocks: seq<Block>, now: real)
    requires i < |s.chains| && InMemory(s.chains, s.cut)
    ensures blocks == [] ==> Extend(r, s, i, blocks, now) == (s, true)
    ensures blocks != [] && !Accepts(r, s, s.chains[i], blocks[0], now) ==> Extend(r, s, i, blocks, now) == (s, false)
    ensures blocks != [] && Accepts(r, s, s.chains[i], blocks[0], now) ==>
      Extend(r, s, i, blocks, now) == Extend(r, Append(s, i, blocks[0]), i, blocks[1..], now)
  {
    hide Accepts;
  }

  lemma {:induction false} NotifyLaws(g: Block, u: set<Block>, r: Rules, s: State, coins: nat -> bool)
    requires Laws(g, u, r, s) && |s.chains| > 0
    ensures Laws(g, u, r, Notify(s, coins))
  {
    hide Laws, Sound, HashIdentity, ChecksBlocks, Notify;
    OpenLaws(g, u, r, s);
    NotifySound(g, u, r.limit, s, coins);
    CloseLaws(g, u, r, Notify(s, coins));
  }

  lemma {:induction false} StepIgnoresPointers(m: Mem, s: State, t: State)
    requires InStep(m, s) && t.chains == s.chains && t.cut == s.cut && t.stored == s.stored
    ensures InStep(m, t)
  {
    hide InStep, Shape, Mirror, Marked;
    OpenStep(m, s);
    CloseStep(m, t);
  }

  lemma {:induction false} AddBlocksLaws(g: Block, u: set<Block>, r: Rules, s: State, blocks: seq<Block>,
      local: bool, now: real, coins: nat -> bool)
    requires Laws(g, u, r, s) && Leaves(s.chains) && Fits(s) && InMemory(s.chains, s.cut)
    requires forall b | b in blocks :: b in u
    ensures Leaves(ChainModel.AddBlocks(r, s, blocks, local, now, coins).chains) <==> !ForkRefused(r, s, blocks, now)
  {
    hide Laws, Sound, HashIdentity, ChecksBlocks, Leaves, Fits, ForkRefused, ChainModel.AddBlocks;
    OpenLaws(g, u, r, s);
    AddBlocksSound(g, u, r, s, blocks, local, now, coins);
  }

  lemma {:induction false} LawfulTree(g: Block, u: set<Block>, r: Rules, s: State)
    requires Lawful(g, u, r, s)
    ensures Tree(s.chains) && Window(s) && ChecksBlocks(r) && s.stored <= HashesOf(s.chains)
  {
    hide GoodHistory, Tree, Window, CutIsStored, HashIdentity, ChecksBlocks;
  }

  lemma {:induction false} ForkLaws(g: Block, u: set<Block>, r: Rules, s: State, b: Block)
    requires Lawful(g, u, r, s) && Fits(s) && InMemory(s.chains, s.cut) && ForkPoint(s, b).Some?
    ensures Laws(g, u, r, Forked(s, ForkPoint(s, b).value))
  {
    hide Sound, Fits, HashIdentity, ChecksBlocks;
    ForkSound(g, u, r.limit, s, b);
    hide ForkPoint, Laws;
    CloseLaws(g, u, r, Forked(s, ForkPoint(s, b).value));
  }

  /** What the checks on a fork point read off memory. */
  lemma {:induction false} HolderFacts(m: Mem, s: State, k: nat, p: nat, n: Node)
    requires InStep(m, s) && |s.chains| == |m.bs| && Tree(s.chains) && k < |m.bs|
    requires IsAt(n, m.bs[k].path, s.cut, p)
    ensures n in m.nodes && p < |s.chains[k]| == m.bs[k].head.height && s.cut <= p && n.height == p + 1
    ensures 0 < p + 1 - s.cut <= |m.bs[k].path| && n == m.bs[k].path[..p + 1 - s.cut][p - s.cut]
    ensures n.forward.Keys == Children(s.chains, s.chains[k][..p + 1])
    ensures Chained(m.bs[k].path[..p + 1 - s.cut]) && DistinctHashes(m.bs[k].path[..p + 1 - s.cut])
  {
    hide InStep, Tree, Branch.Cached, Chained, DistinctHashes, Children, BlocksOf;
    PathIsLive(m, s, k);
    PathOfBranch(m, s, k);
    PathFacts(m, s, k, p + 1 - s.cut);
    ChildrenAgree(m, s, k, p, n);
  }

  /** The path of a branch, read off the reference state. */
  lemma {:induction false} PathOfBranch(m: Mem, s: State, i: nat)
    requires InStep(m, s) && i < |m.bs| && i < |s.chains|
    ensures var p := m.bs[i].path;
      && |s.chains[i]| == s.cut + |p| && BlocksOf(p) == s.chains[i][s.cut..]
      && (forall k | 0 < k < |p| :: p[k].backward == p[k - 1])
  {
    hide Links, Live, UniqueHashes, Marked, Caches, CachesBlocks, EvidenceIn, InStep;
    OpenStep(m, s);
    assert Walk(m.bs[i].path, m.nodes, m.oldest);
    assert Mirrors(m.bs[i].path, s.chains[i], s.cut);
    assert BlocksOf(m.bs[i].path) == s.chains[i][s.cut..];
  }

  /** n is the block at position p of a history whose part in memory is the path. */
  ghost predicate IsAt(n: Node?, path: seq<Node>, cut: nat, p: nat) {
    n != null && cut <= p < cut + |path| && n == path[p - cut] && n.height == p + 1
  }

  /** The cache of a branch finds what a search of its history in memory finds. */
  lemma {:induction false} LookupAgrees(path: seq<Node>, c: History, cut: nat, hash: Bytes, n: Node?)
    requires Mirrors(path, c, cut) && SameTree(c, c)
    requires n == null <==> forall k | 0 <= k < |path| :: path[k].blk.hash != hash
    requires n != null ==> n in path && n.blk.hash == hash
    ensures n == null <==> Find(c, cut, hash) == |c|
    ensures n != null ==> IsAt(n, path, cut, Find(c, cut, hash))
  {
    var p := Find(c, cut, hash);
    if n != null {
      var k :| 0 <= k < |path| && path[k] == n;
      assert c[cut + k].hash == hash;
      assert c[p].hash == c[cut + k].hash;
    } else {
      forall q | cut <= q < |c| ensures c[q].hash != hash { assert c[q] == path[q - cut].blk; }
    }
  }

  // ---- forking ----

  lemma {:induction false} PathFacts(m: Mem, s: State, k: nat, n: nat)
    requires InStep(m, s) && k < |m.bs| && 0 < n <= |m.bs[k].path|
    ensures Chained(m.bs[k].path[..n]) && DistinctHashes(m.bs[k].path[..n])
    ensures forall x | x in m.bs[k].path[..n] :: x in m.nodes
  {
    hide InStep, Links, Live, Caches, Marked, Mirror;
    OpenStep(m, s);
    var p := m.bs[k].path[..n];
    assert Walk(m.bs[k].path, m.nodes, m.oldest);
    assert Mirrored(m, s, k) by { OpenMirror(m, s, k); }
    forall i, j | 0 <= i < j < n ensures p[i].blk.hash != p[j].blk.hash {
      assert p[i] in m.nodes && p[j] in m.nodes;
      assert p[i].height < p[j].height;
    }
  }

  ghost predicate Mirrored(m: Mem, s: State, k: nat)
    requires k < |m.bs|
    reads m.bs
  {
    k < |s.chains| && Mirrors(m.bs[k].path, s.chains[k], s.cut)
  }

  lemma {:induction false} OpenMirror(m: Mem, s: State, k: nat)
    requires InStep(m, s) && k < |m.bs|
    ensures Mirrored(m, s, k)
  {
    hide InStep, Shape, Marked, Mirrors;
    OpenStep(m, s);
  }

  /** Listing a new branch over the first n blocks of branch k's path keeps memory in step. */
  lemma {:induction false} MemoryForks(m: Mem, s: State, k: nat, n: nat, bc: Branch)
    requires InStep(m, s) && k < |m.bs| == |s.chains| && 0 < n <= |m.bs[k].path|
    requires bc !in m.bs && bc.Cached() && bc.path == m.bs[k].path[..n]
    requires s.cut + n <= |s.chains[k]|
    ensures InStep(m.(bs := m.bs + [bc]), Forked(s, s.chains[k][..s.cut + n]))
  {
    hide InStep, Links, UniqueHashes, Walk, Branch.Cached, OnSome;
    OpenStep(m, s);
    OpenMirror(m, s, k);
    var f := m.(bs := m.bs + [bc]);
    assert Mirrors(bc.path, s.chains[k][..s.cut + n], s.cut);
    assert Walk(bc.path, m.nodes, m.oldest) by { WalkPrefix(m.bs[k].path, m.nodes, m.oldest, n); }
    hide Mirrors;
    forall x | x in m.nodes ensures OnSome(f.bs, x) { OnSomeMore(m.bs, bc, x); }
    CloseStep(f, Forked(s, s.chains[k][..s.cut + n]));
  }

  lemma {:induction false} OnSomeMore(bs: seq<Branch>, bc: Branch, x: Node)
    requires OnSome(bs, x)
    ensures OnSome(bs + [bc], x)
  {
    var i :| 0 <= i < |bs| && x in bs[i].path;
    assert (bs + [bc])[i] == bs[i];
  }

  lemma {:induction false} WalkPrefix(p: seq<Node>, nodes: set<Node>, oldest: Node, n: nat)
    requires Walk(p, nodes, oldest) && 0 < n <= |p|
    ensures Walk(p[..n], nodes, oldest)
  {
  }

  // ---- children ----

  /** Position of a live block on a branch, and the branch's history below it. */
  lemma {:induction false} NodeOnPath(m: Mem, s: State, n: Node) returns (j: nat, l: nat)
    requires InStep(m, s) && n in m.nodes
    ensures j < |m.bs| == |s.chains| && l < |m.bs[j].path| && m.bs[j].path[l] == n
    ensures Mirrors(m.bs[j].path, s.chains[j], s.cut) && Walk(m.bs[j].path, m.nodes, m.oldest)
  {
    hide Links, Caches, Marked, UniqueHashes, Mirrors, Walk, InStep;
    OpenStep(m, s);
    assert OnSome(m.bs, n);
    j :| 0 <= j < |m.bs| && n in m.bs[j].path;
    l :| 0 <= l < |m.bs[j].path| && m.bs[j].path[l] == n;
  }

  /** A child in memory follows its parent on some branch. */
  lemma {:induction false} ChildOnPath(m: Mem, s: State, n: Node, h: Bytes) returns (j: nat, l: nat)
    requires InStep(m, s) && n in m.nodes && h in n.forward
    ensures j < |m.bs| == |s.chains| && 0 < l < |m.bs[j].path|
    ensures m.bs[j].path[l - 1] == n && m.bs[j].path[l].blk.hash == h && Mirrors(m.bs[j].path, s.chains[j], s.cut)
  {
    hide Caches, Live, Marked, UniqueHashes, Walks, Mirrors, InStep;
    OpenStep(m, s);
    assert n.forward[h] in m.nodes && n.forward[h].backward == n;
    j, l := NodeOnPath(m, s, n.forward[h]);
  }

  lemma {:induction false} SharedPrefix(c: History, d: History, p: nat)
    requires SameTree(c, d) && p < |c| && p < |d| && c[p] == d[p]
    ensures c[..p + 1] == d[..p + 1]
  {
    assert c[p].hash == d[p].hash;
  }

  lemma {:induction false} ChildIsNext(m: Mem, s: State, k: nat, p: nat, n: Node, h: Bytes)
    requires InStep(m, s) && |s.chains| == |m.bs| && Tree(s.chains) && k < |m.bs| && n in m.nodes
    requires IsAt(n, m.bs[k].path, s.cut, p) && p < |s.chains[k]| && h in n.forward
    ensures h in Children(s.chains, s.chains[k][..p + 1])
  {
    hide InStep, Shape, Marked, SameTree;
    OpenStep(m, s);
    var j, l := ChildOnPath(m, s, n, h);
    assert Mirrors(m.bs[k].path, s.chains[k], s.cut);
    assert l - 1 + s.cut == p;
    SharedPrefix(s.chains[j], s.chains[k], p);
    assert s.chains[j][p + 1] == m.bs[j].path[l].blk;
    assert s.chains[k][..p + 1] < s.chains[j];
  }

  /** The next block of a branch through n is a child of n in memory. */
  lemma {:induction false} NextIsChild(m: Mem, s: State, k: nat, p: nat, n: Node, j: nat)
    requires InStep(m, s) && |s.chains| == |m.bs| && k < |m.bs| && n in m.nodes && j < |m.bs|
    requires IsAt(n, m.bs[k].path, s.cut, p) && p < |s.chains[k]| && s.chains[k][..p + 1] < s.chains[j]
    ensures s.chains[j][p + 1].hash in n.forward
  {
    hide InStep, Caches, Live, Marked;
    OpenStep(m, s);
    assert Mirrors(m.bs[k].path, s.chains[k], s.cut) && Mirrors(m.bs[j].path, s.chains[j], s.cut);
    hide Mirror;
    assert Walk(m.bs[j].path, m.nodes, m.oldest);
    hide Walks;
    var q := m.bs[j].path;
    assert s.chains[k][..p + 1][p] == s.chains[j][p];
    var parent, child := q[p - s.cut], q[p + 1 - s.cut];
    assert parent.blk == n.blk && parent in m.nodes && child in m.nodes;
    assert parent == n && child.backward == parent;
  }

  /** The children of a block in memory are the next blocks of the branches through it. */
  lemma {:induction false} ChildrenAgree(m: Mem, s: State, k: nat, p: nat, n: Node)
    requires InStep(m, s) && |s.chains| == |m.bs| && Tree(s.chains) && k < |m.bs| && n in m.nodes
    requires IsAt(n, m.bs[k].path, s.cut, p) && p < |s.chains[k]|
    ensures n.forward.Keys == Children(s.chains, s.chains[k][..p + 1])
  {
    hide InStep, Tree;
    var stem := s.chains[k][..p + 1];
    forall h | h in n.forward ensures h in Children(s.chains, stem) { ChildIsNext(m, s, k, p, n, h); }
    forall j | 0 <= j < |s.chains| && stem < s.chains[j] ensures s.chains[j][p + 1].hash in n.forward {
      NextIsChild(m, s, k, p, n, j);
    }
  }

  /** The reference state after an accepted block, and why the block's hash is new. */
  lemma {:induction false} GrowLaws(g: Block, u: set<Block>, r: Rules, s: State, i: nat, b: Block, now: real)
    requires Lawful(g, u, r, s) && i < |s.chains| && b in u
    requires MayGrow(s.chains, i, b) && Accepts(r, s, s.chains[i], b, now)
    ensures Lawful(g, u, r, Append(s, i, b)) && Leaves(Append(s, i, b).chains)
    ensures b.hash !in HashesOf(s.chains) && b.hash !in s.stored
  {
    hide GoodHistory, Tree, Window, CutIsStored, EvidenceAccepted, Leaves, HashIdentity, ChecksBlocks;
    HashIsNew(g, u, r.limit, s.chains, i, b);
    AppendSound(g, u, r, s, i, b, now);
  }

  // ---- reading ----

  /** How many blocks a branch has up to the newest one in memory that is marked as stored. */
  function StoredTop(c: History, stored: set<Bytes>, cut: nat): (f: nat)
    requires cut <= |c|
    ensures cut <= f <= |c|
    ensures forall q | f <= q < |c| :: c[q].hash !in stored
    ensures f > cut ==> c[f - 1].hash in stored
  {
    if |c| == cut || c[|c| - 1].hash in stored then |c| else StoredTop(c[..|c| - 1], stored, cut)
  }

  lemma {:induction false} StoredTopIs(c: History, stored: set<Bytes>, cut: nat, f: nat)
    requires cut <= f <= |c| && (forall q | f <= q < |c| :: c[q].hash !in stored)
        && (f > cut ==> c[f - 1].hash in stored)
    ensures StoredTop(c, stored, cut) == f
  {
    var t := StoredTop(c, stored, cut);
    assert t > cut ==> t - 1 < f;
    assert f > cut ==> f - 1 < t;
  }

  /** The path of a branch ends in the oldest block, and marks are what the state says. */
  lemma {:induction false} PathBottom(m: Mem, s: State, i: nat)
    requires InStep(m, s) && i < |m.bs| && i < |s.chains|
    ensures var p := m.bs[i].path;
      && |p| > 0 && p[0].backward == null
      && (forall k | 0 <= k < |p| :: p[k].stored <==> p[k].blk.hash in s.stored)
  {
    hide InStep, Links, Live, UniqueHashes, Caches, Mirror;
    OpenStep(m, s);
    assert Walk(m.bs[i].path, m.nodes, m.oldest);
  }

  lemma {:induction false} ReadLaws(g: Block, u: set<Block>, r: Rules, s: State)
    requires Laws(g, u, r, s) && s.longest < |s.chains|
    ensures SameTree(s.chains[s.longest], s.chains[s.longest]) && |s.db| > 0
    ensures HashIdentity(g, u) && Sound(g, u, r.limit, s)
  {
    hide Laws, SameTree, CutIsStored, Marks, Window, Pointer, AllGood, HashIdentity, ChecksBlocks;
    OpenLaws(g, u, r, s);
  }
}
