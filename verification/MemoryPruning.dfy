/** Unlinking pruned branches and cutting the oldest block keep memory in step. */
module MemoryPruning {
  import opened Records
  import opened ChainModel
  import opened ChainInvariants
  import opened ChainMaintenance
  import opened ChainMemory
  import opened BlockTree

  // ---- unlinking part of the tree ----

  /** What unlinking the blocks of `gone` changes: `top` leaves its parent's children, nothing
      else changes for the blocks that stay, and none of those had a parent that goes. */
  twostate predicate Unhooked(m: Mem, new gone: set<Node>, new top: Node)
    reads m.nodes
  {
    && gone <= m.nodes && top in gone
    && (forall x | x in m.nodes :: x.stored == old(x.stored))
    && (forall x | x in m.nodes && x !in gone :: x.backward == old(x.backward) && x.backward !in gone)
    && (forall x | x in m.nodes && x !in gone ::
         x.forward == if old(top.backward) == x then old(x.forward) - {top.blk.hash} else old(x.forward))
    && (forall x | x in gone && x != top :: old(x.backward) in gone)
  }

  twostate lemma LinksShrink(m: Mem, new gone: set<Node>, new top: Node)
    requires old(Links(m.nodes)) && UniqueHashes(m.nodes) && Unhooked(m, gone, top)
    ensures Links(m.nodes - gone)
  {
    forall n, h | n in m.nodes - gone && h in n.forward
      ensures n.forward[h] in m.nodes - gone && n.forward[h].blk.hash == h && n.forward[h].backward == n
    {
      assert h in old(n.forward) && n.forward[h] == old(n.forward[h]);
      assert old(n.forward[h].backward) == n;
    }
    forall n | n in m.nodes - gone && n.backward != null
      ensures n.backward in m.nodes - gone && n.blk.hash in n.backward.forward && n.backward.forward[n.blk.hash] == n
    {
      assert old(n.backward) == n.backward;
    }
  }

  /** The blocks of a path above index k. */
  ghost function Above(p: seq<Node>, k: nat): set<Node> {
    set j | k < j < |p| :: p[j]
  }

  /** Links change along the path only. */
  twostate predicate OnlyAlong(m: Mem, new p: seq<Node>, new kids: seq<map<Bytes, Node>>)
    reads m.nodes
  {
    && |kids| == |p| && (forall j | 0 <= j < |p| :: p[j] in m.nodes && kids[j] == old(p[j].forward))
    && (forall x | x in m.nodes :: x.stored == old(x.stored))
    && (forall x | x in m.nodes && x !in p :: x.forward == old(x.forward) && x.backward == old(x.backward))
  }

  /** A path in memory before the change, with its child maps. */
  twostate predicate WasPath(m: Mem, new p: seq<Node>, new kids: seq<map<Bytes, Node>>)
    reads m.nodes
  {
    && OnlyAlong(m, p, kids) && Distinct(p) && |p| > 0 && kids[|p| - 1].Keys == {}
    && old(p[0].backward) == null && (forall j | 0 < j < |p| :: old(p[j].backward) == p[j - 1])
  }

  /** A block whose parent goes would be the next block of the path, and goes too. */
  lemma {:induction false} HashIsNoKid(nodes: set<Node>, p: seq<Node>, kids: seq<map<Bytes, Node>>, k: nat, x: Node,
      j: nat)
    requires UniqueHashes(nodes) && |p| == |kids| && k < j < |p| && x in nodes && x !in Above(p, k)
    requires (forall y | 0 <= y < |p| :: p[y] in nodes) && kids[|p| - 1].Keys == {}
    requires j < |p| - 1 ==> kids[j].Keys <= {p[j + 1].blk.hash}
    ensures x.blk.hash !in kids[j]
  {
    hide UniqueHashes;
    if j < |p| - 1 {
      assert p[j + 1] in Above(p, k) && p[j + 1] in nodes;
      hide Above;
      OtherHash(nodes, x, p[j + 1]);
    }
  }

  lemma {:induction false} OtherHash(nodes: set<Node>, x: Node, y: Node)
    requires UniqueHashes(nodes) && x in nodes && y in nodes && x != y
    ensures x.blk.hash != y.blk.hash
  {
  }

  twostate lemma NotAChild(m: Mem, new y: Node, new x: Node)
    requires old(Links(m.nodes)) && y in m.nodes && x in m.nodes && x.blk.hash !in old(y.forward)
    ensures old(x.backward) != y
  {
  }

  twostate lemma LinksStay(m: Mem, new p: seq<Node>, new kids: seq<map<Bytes, Node>>, new k: nat, new x: Node)
    requires WasPath(m, p, kids) && k + 1 < |p| && Unlinked(p, kids, k) && x in m.nodes && x !in Above(p, k)
    ensures x.backward == old(x.backward)
    ensures x.forward == if x == p[k] then old(x.forward) - {p[k + 1].blk.hash} else old(x.forward)
  {
    if x in p {
      var j :| 0 <= j < |p| && p[j] == x;
      assert j <= k;
    }
  }

  twostate lemma ParentsStay(m: Mem, new p: seq<Node>, new kids: seq<map<Bytes, Node>>, new k: nat, new x: Node)
    requires old(Links(m.nodes)) && UniqueHashes(m.nodes) && WasPath(m, p, kids)
    requires k + 1 < |p| && Unlinked(p, kids, k) && x in m.nodes && x !in Above(p, k)
    ensures old(x.backward) !in Above(p, k)
  {
    hide Links, UniqueHashes, Distinct;
    forall j | k < j < |p| ensures old(x.backward) != p[j] {
      HashIsNoKid(m.nodes, p, kids, k, x, j);
      assert kids[j] == old(p[j].forward);
      NotAChild(m, p[j], x);
    }
  }

  /** Unlinking a branch down to index k takes the blocks above k out of the tree. */
  twostate lemma BranchUnhooks(m: Mem, new p: seq<Node>, new kids: seq<map<Bytes, Node>>, new k: nat)
    requires old(Links(m.nodes)) && UniqueHashes(m.nodes) && WasPath(m, p, kids)
    requires k + 1 < |p| && Unlinked(p, kids, k)
    ensures Unhooked(m, Above(p, k), p[k + 1])
  {
    hide Links, UniqueHashes, Unlinked, Distinct;
    assert old(p[k + 1].backward) == p[k];
    forall x | x in m.nodes && x !in Above(p, k)
      ensures x.backward == old(x.backward) && x.backward !in Above(p, k)
      ensures x.forward == if x == p[k] then old(x.forward) - {p[k + 1].blk.hash} else old(x.forward)
    {
      LinksStay(m, p, kids, k, x);
      ParentsStay(m, p, kids, k, x);
    }
  }

  // ---- what the histories say about a pruned branch ----

  ghost function Drop<T>(xs: seq<T>, i: nat): (r: seq<T>)
    requires i < |xs|
    ensures |r| == |xs| - 1
    ensures forall j | 0 <= j < |r| :: r[j] == xs[if j < i then j else j + 1]
  {
    xs[..i] + xs[i + 1..]
  }

  lemma {:induction false} DropMiddle<T>(front: seq<T>, xs: seq<T>, k: nat)
    requires k < |xs|
    ensures Drop(front + xs[k..], |front|) == front + xs[k + 1..]
    ensures front + xs[k..] == (front + [xs[k]]) + xs[k + 1..] && (front + xs[k..])[|front|] == xs[k]
  {
  }

  ghost predicate SomeOf<T>(xs: seq<T>, ys: seq<T>) {
    forall j | 0 <= j < |xs| :: xs[j] in ys
  }

  lemma {:induction false} OneMoreOf<T>(xs: seq<T>, ys: seq<T>, k: nat)
    requires k < |ys|
    ensures SomeOf(xs, ys) ==> SomeOf(xs + [ys[k]], ys)
  {
  }

  lemma {:induction false} ListEnds<T>(front: seq<T>, xs: seq<T>)
    ensures [] + xs[0..] == xs && front + xs[|xs|..] == front && xs[..|xs|] == xs
  {
  }

  /** The reference state without branch i. */
  ghost function Dropped(s: State, i: nat): State
    requires i < |s.chains|
  {
    var chains := Drop(s.chains, i);
    s.(chains := chains, stored := s.stored * HashesOf(chains))
  }

  /** Two histories that start alike and are no prefix of each other part at some block. */
  lemma {:induction false} PartingPoint(c: History, d: History, n: nat) returns (f: nat)
    requires SameTree(c, d) && !(c <= d) && !(d <= c) && 0 < n && n <= |c| && n <= |d| && c[..n] == d[..n]
    ensures n <= f < |c| && f < |d| && c[..f] == d[..f] && c[f].hash != d[f].hash
    decreases |c| - n
  {
    assert n < |c| && n < |d|;
    if c[n].hash == d[n].hash {
      f := PartingPoint(c, d, n + 1);
    } else {
      f := n;
    }
  }

  /** Where nothing else leaves the path of branch i, no other branch gets there. */
  lemma {:induction false} OnlyHere(chains: seq<History>, i: nat, j: nat, n: nat)
    requires Tree(chains) && Leaves(chains) && i < |chains| && j < |chains| && i != j && n <= |chains[i]|
    requires forall y | n <= y < |chains[i]| :: Children(chains, chains[i][..y]) <= {chains[i][y].hash}
    ensures !(chains[i][..n] <= chains[j])
    decreases |chains[i]| - n
  {
    var c, d := chains[i], chains[j];
    assert !(c <= d) && !(d <= c) && SameTree(c, d);
    if n == |c| {
      assert c[..n] == c;
    } else {
      hide Tree, Leaves, SameTree;
      if c[..n] < d {
        assert d[n].hash in Children(chains, c[..n]);
        assert d[n].hash == c[n].hash;
      }
      hide Children;
      StepAlong(c, d, n);
      OnlyHere(chains, i, j, n + 1);
    }
  }

  lemma {:induction false} StepAlong(c: History, d: History, n: nat)
    requires SameTree(c, d) && !(d <= c) && n < |c| && (c[..n] < d ==> d[n].hash == c[n].hash)
    ensures c[..n] <= d ==> c[..n + 1] <= d
  {
    if c[..n] <= d {
      assert c[..n] <= c;
      assert c[n].hash == d[n].hash;
    }
  }

  /** The child maps of a path name the next blocks of the branches. */
  ghost predicate KidsAgree(s: State, i: nat, kids: seq<map<Bytes, Node>>)
    requires i < |s.chains|
  {
    && |s.chains[i]| == s.cut + |kids|
    && (forall y | 0 <= y < |kids| :: kids[y].Keys == Children(s.chains, s.chains[i][..s.cut + y + 1]))
  }

  lemma {:induction false} KidsOfPath(m: Mem, s: State, i: nat)
    requires InStep(m, s) && |s.chains| == |m.bs| && Tree(s.chains) && i < |m.bs|
    ensures KidsAgree(s, i, ChildrenAlong(m.bs[i].path))
  {
    hide InStep, Tree, Branch.Cached, Children;
    PathIsLive(m, s, i);
    OpenMirror(m, s, i);
    var p := m.bs[i].path;
    forall y | 0 <= y < |p| ensures p[y].forward.Keys == Children(s.chains, s.chains[i][..s.cut + y + 1]) {
      ChildrenAgree(m, s, i, s.cut + y, p[y]);
    }
  }

  /** Above index k the path has no child but its own next block. */
  ghost predicate Bare(p: seq<Node>, kids: seq<map<Bytes, Node>>, k: nat)
    requires |kids| == |p|
  {
    forall y | k < y < |p| - 1 :: kids[y].Keys <= {p[y + 1].blk.hash}
  }

  /** No other branch runs through a block that goes. */
  lemma {:induction false} OthersStay(bs: seq<Branch>, s: State, i: nat, j: nat, kids: seq<map<Bytes, Node>>, k: nat)
    requires Mirror(bs, s.chains, s.cut) && Tree(s.chains) && Leaves(s.chains)
    requires i < |bs| && j < |bs| && i != j && k + 1 < |bs[i].path| == |kids|
    requires KidsAgree(s, i, kids) && Bare(bs[i].path, kids, k)
    ensures forall x | x in bs[j].path :: x !in Above(bs[i].path, k)
  {
    var p, q, c, d := bs[i].path, bs[j].path, s.chains[i], s.chains[j];
    assert Mirrors(p, c, s.cut) && Mirrors(q, d, s.cut);
    hide Mirror, Leaves, Tree, KidsAgree, Bare;
    forall x, y | 0 <= x < |q| && k < y < |p| ensures q[x] != p[y] {
      if x == y { BranchesApart(p, s, i, j, kids, k, y); }
    }
  }

  lemma {:induction false} BranchesApart(p: seq<Node>, s: State, i: nat, j: nat, kids: seq<map<Bytes, Node>>, k: nat,
      y: nat)
    requires Tree(s.chains) && Leaves(s.chains) && i < |s.chains| && j < |s.chains| && i != j
    requires Mirrors(p, s.chains[i], s.cut) && |p| == |kids| && KidsAgree(s, i, kids) && Bare(p, kids, k)
    requires k < y < |p| && s.cut + y < |s.chains[j]|
    ensures s.chains[i][s.cut + y] != s.chains[j][s.cut + y]
  {
    var c, n := s.chains[i], s.cut + y + 1;
    assert SameTree(c, s.chains[j]);
    hide Leaves, Tree, SameTree, Children;
    forall z | n <= z < |c| ensures Children(s.chains, c[..z]) <= {c[z].hash} {
      assert kids[z - s.cut - 1].Keys <= {p[z - s.cut].blk.hash};
    }
    OnlyHere(s.chains, i, j, n);
    BlocksDiffer(c, s.chains[j], n - 1);
  }

  lemma {:induction false} BlocksDiffer(c: History, d: History, p: nat)
    requires SameTree(c, d) && p < |c| && p < |d| && !(c[..p + 1] <= d)
    ensures c[p] != d[p]
  {
    assert d[..p + 1] <= d;
  }

  ghost predicate PathsIn(bs: seq<Branch>, nodes: set<Node>)
    reads bs
  {
    forall i, y | 0 <= i < |bs| && 0 <= y < |bs[i].path| :: bs[i].path[y] in nodes
  }

  /** The block where unlinking stops keeps another branch, which has all blocks below it. */
  lemma {:induction false} SharedBelow(bs: seq<Branch>, nodes: set<Node>, s: State, i: nat,
      kids: seq<map<Bytes, Node>>, k: nat, h: Bytes) returns (j: nat)
    requires Mirror(bs, s.chains, s.cut) && PathsIn(bs, nodes) && UniqueHashes(nodes)
    requires i < |bs| && k + 1 < |bs[i].path| == |kids| && KidsAgree(s, i, kids)
    requires h in kids[k] && h != bs[i].path[k + 1].blk.hash
    ensures j < |bs| && j != i && forall y | 0 <= y <= k :: bs[i].path[y] in bs[j].path
  {
    var n := s.cut + k + 1;
    var p, c := bs[i].path, s.chains[i];
    assert h in Children(s.chains, c[..n]);
    j :| 0 <= j < |s.chains| && c[..n] < s.chains[j] && s.chains[j][n].hash == h;
    var q, d := bs[j].path, s.chains[j];
    assert Mirrors(p, c, s.cut) && Mirrors(q, d, s.cut);
    hide Mirror, Children, KidsAgree;
    forall y | 0 <= y <= k ensures p[y] in q {
      assert c[..n][s.cut + y] == d[s.cut + y];
      assert q[y].blk == p[y].blk;
      assert q[y] in nodes && p[y] in nodes;
    }
  }

  lemma {:induction false} LiveAfterDrop(bs: seq<Branch>, nodes: set<Node>, i: nat, j: nat, k: nat)
    requires Live(bs, nodes) && i < |bs| && j < |bs| && i != j && k < |bs[i].path|
    requires forall y | 0 <= y <= k :: bs[i].path[y] in bs[j].path
    ensures Live(Drop(bs, i), nodes - Above(bs[i].path, k))
  {
    var rest := Drop(bs, i);
    forall n | n in nodes - Above(bs[i].path, k) ensures OnSome(rest, n) {
      assert OnSome(bs, n);
      var l :| 0 <= l < |bs| && n in bs[l].path;
      if l == i {
        var y :| 0 <= y < |bs[i].path| && bs[i].path[y] == n;
        l := j;
      }
      assert rest[if l < i then l else l - 1] == bs[l];
    }
  }

  // ---- memory after unlinking ----

  twostate lemma WalksShrink(m: Mem, new i: nat, new gone: set<Node>, new top: Node)
    requires old(Walks(m.bs, m.nodes, m.oldest)) && Unhooked(m, gone, top) && i < |m.bs|
    requires forall j | 0 <= j < |m.bs| :: unchanged(m.bs[j])
    requires forall j, x | 0 <= j < |m.bs| && j != i && x in m.bs[j].path :: x !in gone
    ensures Walks(Drop(m.bs, i), m.nodes - gone, m.oldest)
  {
    var rest := Drop(m.bs, i);
    forall j | 0 <= j < |rest| ensures Walk(rest[j].path, m.nodes - gone, m.oldest) {
      var l := if j < i then j else j + 1;
      assert old(Walk(m.bs[l].path, m.nodes, m.oldest));
    }
  }

  twostate lemma ShapeDrops(m: Mem, new s: State, new i: nat, new gone: set<Node>, new top: Node)
    requires old(InStep(m, s)) && Unhooked(m, gone, top) && i < |m.bs|
    requires forall j | 0 <= j < |m.bs| :: unchanged(m.bs[j])
    requires forall j, x | 0 <= j < |m.bs| && j != i && x in m.bs[j].path :: x !in gone
    requires Live(Drop(m.bs, i), m.nodes - gone)
    ensures Shape(Mem(Drop(m.bs, i), m.nodes - gone, m.oldest))
  {
    hide Links, Walks, Live, Unhooked, CachesBlocks, EvidenceIn, BlocksOf, Marked, Mirrors;
    assert Opened(0);
    LinksShrink(m, gone, top);
    WalksShrink(m, i, gone, top);
  }

  twostate lemma MarksShrink(m: Mem, new s: State, new i: nat, new gone: set<Node>, new top: Node)
    requires old(Marked(m.nodes, s.stored)) && Unhooked(m, gone, top) && i < |m.bs| == |s.chains|
    requires Live(Drop(m.bs, i), m.nodes - gone) && Mirror(Drop(m.bs, i), Drop(s.chains, i), s.cut)
    ensures Marked(m.nodes - gone, Dropped(s, i).stored)
  {
    forall n | n in m.nodes - gone ensures n.stored <==> n.blk.hash in Dropped(s, i).stored {
      NodeHash(Drop(m.bs, i), m.nodes - gone, Drop(s.chains, i), s.cut, n);
    }
  }

  /** Without the unlinked blocks, memory is in step with the state without branch i. */
  twostate lemma MemoryDrops(m: Mem, new s: State, new i: nat, new gone: set<Node>, new top: Node)
    requires old(InStep(m, s)) && Unhooked(m, gone, top) && i < |m.bs| == |s.chains|
    requires forall j | 0 <= j < |m.bs| :: unchanged(m.bs[j])
    requires forall j, x | 0 <= j < |m.bs| && j != i && x in m.bs[j].path :: x !in gone
    requires Live(Drop(m.bs, i), m.nodes - gone)
    ensures InStep(Mem(Drop(m.bs, i), m.nodes - gone, m.oldest), Dropped(s, i))
  {
    hide Shape, Live, Unhooked, Mirrors, HashesOf, Marked;
    assert Opened(0);
    ShapeDrops(m, s, i, gone, top);
    MarksShrink(m, s, i, gone, top);
    hide InStep;
    CloseStep(Mem(Drop(m.bs, i), m.nodes - gone, m.oldest), Dropped(s, i));
  }

  // ---- dropping a branch ----

  lemma {:induction false} HeadIsBare(chains: seq<History>, i: nat)
    requires Leaves(chains) && i < |chains|
    ensures Children(chains, chains[i]) == {}
  {
    forall j | 0 <= j < |chains| ensures !(chains[i] < chains[j]) {
      assert i != j ==> !(chains[i] <= chains[j]);
    }
  }

  /** Somewhere in memory the branch parts from another one; unlinking stops there at the latest. */
  lemma {:induction false} StopsInMemory(s: State, i: nat, l: nat, kids: seq<map<Bytes, Node>>, p: seq<Node>)
    returns (f: nat, other: Bytes)
    requires Tree(s.chains) && Leaves(s.chains) && i < |s.chains| && l < |s.chains| && i != l
    requires s.cut < |s.chains[i]| && s.cut < |s.chains[l]| && s.chains[i][..s.cut + 1] == s.chains[l][..s.cut + 1]
    requires Mirrors(p, s.chains[i], s.cut) && |p| == |kids| > 0 && KidsAgree(s, i, kids)
    ensures kids[|p| - 1].Keys == {}
    ensures f < |p| - 1 && other in kids[f] && other != p[f + 1].blk.hash
  {
    hide Tree, Leaves, SameTree, Children, KidsAgree;
    var c, d := s.chains[i], s.chains[l];
    LeavesPart(s.chains, i, l);
    HeadHasNoKids(s, i, kids);
    KidsAt(s, i, kids, 0);
    var n := PartingPoint(c, d, s.cut + 1);
    NextIsNamed(s.chains, l, c[..n]);
    f, other := n - 1 - s.cut, d[n].hash;
    KidsAt(s, i, kids, f);
  }

  lemma {:induction false} LeavesPart(chains: seq<History>, i: nat, l: nat)
    requires Tree(chains) && Leaves(chains) && i < |chains| && l < |chains| && i != l
    ensures SameTree(chains[i], chains[l]) && !(chains[i] <= chains[l]) && !(chains[l] <= chains[i])
  {
    hide SameTree;
  }

  lemma {:induction false} KidsAt(s: State, i: nat, kids: seq<map<Bytes, Node>>, f: nat)
    requires i < |s.chains| && KidsAgree(s, i, kids) && f < |kids|
    ensures |s.chains[i]| == s.cut + |kids| && kids[f].Keys == Children(s.chains, s.chains[i][..s.cut + f + 1])
  {
    hide Children;
  }

  lemma {:induction false} NextIsNamed(chains: seq<History>, l: nat, stem: History)
    requires l < |chains| && |stem| < |chains[l]| && stem == chains[l][..|stem|]
    ensures chains[l][|stem|].hash in Children(chains, stem)
  {
    assert stem < chains[l];
  }

  lemma {:induction false} HeadHasNoKids(s: State, i: nat, kids: seq<map<Bytes, Node>>)
    requires Leaves(s.chains) && i < |s.chains| && |kids| > 0 && KidsAgree(s, i, kids)
    ensures kids[|kids| - 1].Keys == {}
  {
    hide Leaves, Children;
    HeadIsBare(s.chains, i);
    assert s.chains[i][..s.cut + |kids|] == s.chains[i];
  }

  lemma {:induction false} PathIsDistinct(p: seq<Node>)
    requires DistinctHashes(p)
    ensures Distinct(p)
  {
  }

  /** What may be unlinked: the facts about branch i before it goes. */
  lemma {:induction false} ReadyToDrop(m: Mem, s: State, i: nat, l: nat) returns (f: nat, other: Bytes)
    requires InStep(m, s) && |s.chains| == |m.bs| && Tree(s.chains) && Leaves(s.chains)
    requires i < |m.bs| && l < |m.bs| && i != l
    requires s.cut < |s.chains[i]| && s.cut < |s.chains[l]| && s.chains[i][..s.cut + 1] == s.chains[l][..s.cut + 1]
    ensures var p := m.bs[i].path;
      && |p| > 0 && Chained(p) && Distinct(p) && m.bs[i].head == p[|p| - 1]
      && (forall y | 0 <= y < |p| :: p[y] in m.nodes)
      && p[|p| - 1].forward.Keys == {}
      && KidsAgree(s, i, ChildrenAlong(p))
      && f < |p| - 1 && other in p[f].forward && other != p[f + 1].blk.hash
  {
    hide InStep, Tree, Leaves, Branch.Cached, KidsAgree;
    var p := m.bs[i].path;
    PathIsLive(m, s, i);
    PathFacts(m, s, i, |p|);
    assert p[..|p|] == p;
    PathIsDistinct(p);
    KidsOfPath(m, s, i);
    OpenMirror(m, s, i);
    f, other := StopsInMemory(s, i, l, ChildrenAlong(p), p);
  }

  lemma {:induction false} OpenPaths(m: Mem, s: State)
    requires InStep(m, s)
    ensures PathsIn(m.bs, m.nodes) && UniqueHashes(m.nodes) && Live(m.bs, m.nodes) && Mirror(m.bs, s.chains, s.cut)
  {
    hide InStep, Links, Live, UniqueHashes, Caches, Marked, Mirror;
    OpenStep(m, s);
    forall i, y | 0 <= i < |m.bs| && 0 <= y < |m.bs[i].path| ensures m.bs[i].path[y] in m.nodes {
      assert Walk(m.bs[i].path, m.nodes, m.oldest);
    }
  }

  /** What unlinking along a path leaves alone. */
  twostate lemma PathWas(m: Mem, new p: seq<Node>, new kids: seq<map<Bytes, Node>>)
    requires (forall y | 0 <= y < |p| :: p[y] in m.nodes) && old(Chained(p)) && Distinct(p)
    requires kids == old(ChildrenAlong(p)) && kids[|p| - 1].Keys == {}
    requires forall x | x in m.nodes && x !in p :: unchanged(x)
    requires forall x | x in m.nodes :: x.stored == old(x.stored)
    ensures WasPath(m, p, kids)
  {
  }

  twostate lemma LinksBefore(m: Mem, new s: State)
    requires old(InStep(m, s))
    ensures old(Links(m.nodes))
  {
    assert Opened(0);
  }

  /** Memory after branch i was unlinked down to index k. */
  twostate lemma BranchDropped(m: Mem, new s: State, new i: nat, new kids: seq<map<Bytes, Node>>, new k: nat)
    requires old(InStep(m, s)) && i < |m.bs| == |s.chains| && Tree(s.chains) && Leaves(s.chains)
    requires forall j | 0 <= j < |m.bs| :: unchanged(m.bs[j])
    requires WasPath(m, m.bs[i].path, kids) && KidsAgree(s, i, kids)
    requires PathsIn(m.bs, m.nodes) && UniqueHashes(m.nodes) && Live(m.bs, m.nodes) && Mirror(m.bs, s.chains, s.cut)
    requires k + 1 < |m.bs[i].path| == |kids| && m.bs[i].path[k].ForwardNum() != 0 && Unlinked(m.bs[i].path, kids, k)
    ensures InStep(Mem(Drop(m.bs, i), m.nodes - Above(m.bs[i].path, k), m.oldest), Dropped(s, i))
  {
    hide Tree, Leaves, Distinct, UniqueHashes, Live, Mirror, KidsAgree, Unhooked, PathsIn, WasPath, Above, InStep;
    var p := m.bs[i].path;
    LinksBefore(m, s);
    BranchUnhooks(m, p, kids, k);
    var h :| h in p[k].forward;
    var j := SharedBelow(m.bs, m.nodes, s, i, kids, k, h);
    LiveAfterDrop(m.bs, m.nodes, i, j, k);
    forall j | 0 <= j < |m.bs| && j != i ensures forall x | x in m.bs[j].path :: x !in Above(p, k) {
      OthersStay(m.bs, s, i, j, kids, k);
    }
    MemoryDrops(m, s, i, Above(p, k), p[k + 1]);
  }

  /** The same from what the unlinking walk itself promises. */
  twostate lemma UnlinkingDrops(m: Mem, new s: State, new i: nat, new kids: seq<map<Bytes, Node>>, new k: nat)
    requires old(InStep(m, s)) && i < |m.bs| == |s.chains| && Tree(s.chains) && Leaves(s.chains)
    requires forall j | 0 <= j < |m.bs| :: unchanged(m.bs[j])
    requires PathsIn(m.bs, m.nodes) && UniqueHashes(m.nodes) && Live(m.bs, m.nodes) && Mirror(m.bs, s.chains, s.cut)
    requires forall y | 0 <= y < |m.bs[i].path| :: m.bs[i].path[y] in m.nodes
    requires old(Chained(m.bs[i].path)) && Distinct(m.bs[i].path)
    requires kids == old(ChildrenAlong(m.bs[i].path)) && kids[|kids| - 1].Keys == {} && KidsAgree(s, i, kids)
    requires forall x | x in m.nodes && x !in m.bs[i].path :: unchanged(x)
    requires forall x | x in m.nodes :: x.stored == old(x.stored)
    requires k + 1 < |m.bs[i].path| && m.bs[i].path[k].ForwardNum() != 0 && Unlinked(m.bs[i].path, kids, k)
    ensures InStep(Mem(Drop(m.bs, i), m.nodes - Above(m.bs[i].path, k), m.oldest), Dropped(s, i))
  {
    hide Tree, Leaves, Distinct, UniqueHashes, Live, Mirror, KidsAgree, PathsIn, WasPath, Above, InStep, Chained,
         Unlinked;
    PathWas(m, m.bs[i].path, kids);
    BranchDropped(m, s, i, kids, k);
  }

  // ---- the branch list while pruning goes through it ----

  /** The state after the first k branches have been looked at. */
  ghost function Thinned(s: State, k: nat): State
    requires s.longest < |s.chains| && k <= |s.chains|
  {
    s.(chains := ListAt(s, k), stored := s.stored * HashesOf(ListAt(s, k)))
  }

  lemma {:induction false} PruneOneMore(chains: seq<History>, top: nat, k: nat)
    requires k < |chains|
    ensures Prune(chains[..k + 1], top) == Prune(chains[..k], top) + if Keeps(top, chains[k]) then [chains[k]] else []
  {
    assert chains[..k + 1][..k] == chains[..k];
  }

  lemma {:induction false} ThinningEnds(s: State)
    requires s.longest < |s.chains| && s.stored <= HashesOf(s.chains)
    ensures Thinned(s, 0) == s && Prune(s.chains[..0], |s.chains[s.longest]|) == []
    ensures Thinned(s, |s.chains|).cut == s.cut == Pruned(s).cut
        && Pruned(s).chains == Prune(s.chains, |s.chains[s.longest]|)
    ensures Pruned(s).longest == |Prune(s.chains[..s.longest], |s.chains[s.longest]|)|
    ensures Thinned(s, |s.chains|).chains == Pruned(s).chains && Thinned(s, |s.chains|).stored == Pruned(s).stored
  {
    hide Keeps, HashesOf;
    var n, top := |s.chains|, |s.chains[s.longest]|;
    assert s.chains[..0] == [];
    assert Prune([], top) == [];
    hide Prune;
    ListEnds(Prune(s.chains[..n], top), s.chains);
    assert ListAt(s, 0) == s.chains;
    assert s.stored * HashesOf(s.chains) == s.stored;
    assert ListAt(s, n) == Prune(s.chains, top);
  }

  /** The branches listed after the first k have been looked at. */
  ghost function ListAt(s: State, k: nat): seq<History>
    requires s.longest < |s.chains| && k <= |s.chains|
  {
    Prune(s.chains[..k], |s.chains[s.longest]|) + s.chains[k..]
  }

  lemma {:induction false} ListStep(s: State, k: nat)
    requires s.longest < |s.chains| && k < |s.chains|
    ensures var i := |Prune(s.chains[..k], |s.chains[s.longest]|)|;
      && |ListAt(s, k)| == i + |s.chains| - k && ListAt(s, k)[i] == s.chains[k]
      && ListAt(s, k + 1) == if Keeps(|s.chains[s.longest]|, s.chains[k]) then ListAt(s, k) else Drop(ListAt(s, k), i)
  {
    hide Keeps, Prune, Drop;
    PruneOneMore(s.chains, |s.chains[s.longest]|, k);
    DropMiddle(Prune(s.chains[..k], |s.chains[s.longest]|), s.chains, k);
  }

  /** Looking at one more branch keeps it or drops it. */
  lemma {:induction false} ThinningStep(s: State, k: nat)
    requires s.longest < |s.chains| && k < |s.chains|
    ensures var top, i := |s.chains[s.longest]|, |Prune(s.chains[..k], |s.chains[s.longest]|)|;
      && |Thinned(s, k).chains| == i + |s.chains| - k && Thinned(s, k).chains[i] == s.chains[k]
      && Thinned(s, k).cut == s.cut
      && Thinned(s, k + 1) == (if Keeps(top, s.chains[k]) then Thinned(s, k) else Dropped(Thinned(s, k), i))
  {
    hide Keeps, Prune, Drop, HashesOf, ListAt;
    ListStep(s, k);
    var top, i := |s.chains[s.longest]|, |Prune(s.chains[..k], |s.chains[s.longest]|)|;
    if !Keeps(top, s.chains[k]) {
      FewerHashes(ListAt(s, k), i);
      MarksDrop(s.stored, HashesOf(ListAt(s, k)), HashesOf(Drop(ListAt(s, k), i)));
    }
  }

  lemma {:induction false} MarksDrop(stored: set<Bytes>, more: set<Bytes>, fewer: set<Bytes>)
    requires fewer <= more
    ensures (stored * more) * fewer == stored * fewer
  {
  }

  lemma {:induction false} FewerHashes(chains: seq<History>, i: nat)
    requires i < |chains|
    ensures HashesOf(Drop(chains, i)) <= HashesOf(chains)
  {
  }

  /** The list is a selection of the old one that has the longest branch. */
  lemma {:induction false} ThinningSelects(s: State, k: nat) returns (src: seq<nat>, l: nat)
    requires s.longest < |s.chains| && k <= |s.chains|
    ensures |src| == |Thinned(s, k).chains|
    ensures forall x | 0 <= x < |src| :: src[x] < |s.chains| && Thinned(s, k).chains[x] == s.chains[src[x]]
    ensures forall x, y | 0 <= x < y < |src| :: src[x] < src[y]
    ensures l < |src| && Thinned(s, k).chains[l] == s.chains[s.longest]
  {
    hide Prune, HashesOf;
    var top := |s.chains[s.longest]|;
    var front := PruneSources(s.chains[..k], top);
    src := front + seq(|s.chains| - k, x => k + x);
    if k <= s.longest {
      l := |front| + s.longest - k;
    } else {
      PruneKeeps(s.chains[..k], top, s.longest);
      l := |Prune(s.chains[..k][..s.longest], top)|;
    }
  }

  lemma {:induction false} SelectionTree(chains: seq<History>, some: seq<History>, src: seq<nat>)
    requires Tree(chains) && Leaves(chains) && |src| == |some|
    requires forall x | 0 <= x < |src| :: src[x] < |chains| && some[x] == chains[src[x]]
    requires forall x, y | 0 <= x < y < |src| :: src[x] < src[y]
    ensures Tree(some) && Leaves(some)
  {
    hide SameTree;
  }

  /** All that dropping branch i needs to know of the list. */
  lemma {:induction false} ThinningFacts(s: State, k: nat, i: nat) returns (l: nat)
    requires s.longest < |s.chains| && k <= |s.chains| && Tree(s.chains) && Leaves(s.chains) && CutIsStored(s)
    requires i < |Thinned(s, k).chains|
    ensures var chains := Thinned(s, k).chains;
      && Tree(chains) && Leaves(chains) && l < |chains| && chains[l] == s.chains[s.longest]
      && s.cut < |chains[i]| && s.cut < |chains[l]| && chains[i][..s.cut + 1] == chains[l][..s.cut + 1]
  {
    hide Thinned, Tree, Leaves;
    var src;
    src, l := ThinningSelects(s, k);
    SelectionTree(s.chains, Thinned(s, k).chains, src);
    SameStart(s, src[i], src[l]);
  }

  lemma {:induction false} SameStart(s: State, i: nat, j: nat)
    requires CutIsStored(s) && i < |s.chains| && j < |s.chains|
    ensures s.cut < |s.chains[i]| && s.cut < |s.chains[j]| && s.chains[i][..s.cut + 1] == s.chains[j][..s.cut + 1]
  {
    var c, d := s.chains[i], s.chains[j];
    assert c[..s.cut + 1] == c[..s.cut] + [c[s.cut]] && d[..s.cut + 1] == d[..s.cut] + [d[s.cut]];
  }

  /** What pruning starts from and ends in. */
  lemma {:induction false} PruneLaws(g: Block, u: set<Block>, r: Rules, s: State)
    requires Laws(g, u, r, s) && Leaves(s.chains) && Fits(s) && s.longest < |s.chains|
    ensures Laws(g, u, r, Pruned(s)) && Leaves(Pruned(s).chains) && AtTurn(Pruned(s), s.cut + 1)
    ensures InMemory(Pruned(s).chains, s.cut) && Fits(Pruned(s))
    ensures Tree(s.chains) && CutIsStored(s) && s.stored <= HashesOf(s.chains)
  {
    hide Laws, Fits, Leaves, AllGood, GoodHistory, Tree, Window, HashIdentity, ChecksBlocks, Pruned, AtTurn,
         MarkedIsStored;
    OpenLaws(g, u, r, s);
    PrunedAtTurn(g, u, r.limit, s);
    CloseLaws(g, u, r, Pruned(s));
    assert CutIsStored(Pruned(s)) && Pruned(s).cut == s.cut by { PrunedFields(s); }
    PrunedFits(s);
  }

  lemma {:induction false} PrunedFits(s: State)
    requires s.longest < |s.chains| && Fits(s)
    ensures Fits(Pruned(s))
  {
    hide Keeps, Prune, HashesOf;
    var src := PruneSources(s.chains, |s.chains[s.longest]|);
  }

  lemma {:induction false} PrunedFields(s: State)
    requires s.longest < |s.chains|
    ensures Pruned(s).cut == s.cut && Pruned(s).db == s.db && Pruned(s).lastHeight == s.lastHeight
  {
  }
}
