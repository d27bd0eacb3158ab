/** What a branch whose first block was refused leads to: a run from genesis, and what the same
    operations do to the linked blocks. */
module StaleBranch {
  import opened Records
  import opened ChainModel
  import opened ChainInvariants
  import opened ChainMaintenance
  import opened BlockTree
  import opened Examples

  // ---- the run ----

  /** After the refused fork the branch that ends in genesis is still listed. */
  function Stale(): State {
    TwoBlocks().(chains := [Line(2), Line(1)])
  }

  /** Block 2 has been sent again and has gone onto it. */
  function Twice(): State {
    TwoBlocks().(chains := [Line(2), Line(2)])
  }

  /** The first branch has grown to eleven blocks. */
  function Grown11(): State {
    TwoBlocks().(chains := [Line(11), Line(2)], lastHeight := 11)
  }

  lemma {:induction false} ForkIsRefused()
    ensures AddBlocks(Lenient(), TwoBlocks(), [Refused()], false, 0.0, Never()) == Stale()
  {
    hide HeadIndex, ForkPoint, Line;
    RefusedForkPoint();
    assert !Lenient().blockOk(Refused());
    assert Stale().chains == [Line(2)] + [Line(1)];
    assert Extend(Lenient(), Stale(), 1, [Refused()], 0.0) == (Stale(), false);
  }

  lemma {:induction false} ChildIsResent()
    ensures AddBlocks(Lenient(), Stale(), [Blk(2, 1)], false, 0.0, Never()) == Twice()
  {
    hide Extend, Lenient;
    var s := Stale();
    TagsDiffer(2, 1);
    assert Head(Line(2)).hash == Tag(2) && Head(Line(1)) == Blk(1, 0);
    assert HeadIndex(s.chains, Tag(1), 0) == 1;
    hide HeadIndex;
    ExtendsByAll(s, 1, [Blk(2, 1)]);
    AddedOnHead(s, 1, [Blk(2, 1)]);
    assert Line(2) == Line(1) + [Blk(2, 1)];
    assert s.chains[1 := Line(2)] == Twice().chains;
  }

  lemma {:induction false} FirstBranchGrows()
    ensures AddBlocks(Lenient(), Twice(), Line(11)[2..], false, 0.0, Never()) == Grown11()
  {
    hide Extend, Lenient;
    var s, blocks := Twice(), Line(11)[2..];
    LinesArePlainLines(11);
    LineTail(Line(11), 2);
    assert Line(11)[..2] == Line(2) && Head(Line(2)).hash == Tag(2) == blocks[0].header.lastHash;
    assert HeadIndex(s.chains, Tag(2), 0) == 0;
    hide HeadIndex, PlainLine;
    ExtendsByAll(s, 0, blocks);
    AddedOnHead(s, 0, blocks);
    assert s.chains[0 := Line(11)] == Grown11().chains;
  }

  /** The stale branch is then pruned. */
  lemma {:induction false} StaleIsPruned()
    ensures Keeps(11, Line(11)) && !Keeps(11, Line(2))
  {
  }

  // ---- the same in memory ----

  /** A branch with this block on top of genesis, as linked blocks. */
  ghost predicate Over(bc: Branch, g: Node, n: Node)
    reads bc
  {
    bc.Cached() && bc.path == [g, n] && bc.head == n
  }

  /** The linked blocks through that run. Sending block 2 again overwrites the child of genesis, so
      that the first branch is no longer below it; pruning the other branch then empties the children
      of genesis and goes on to genesis itself, which has no parent: the program fails there. */
  method PruningFalls() returns (fell: bool)
    ensures fell
  {
    hide CachesBlocks, EvidenceIn, BlocksOf, Branch.Cached, Line;
    TagsDiffer(2, 1);
    var g := new Node(Blk(1, 0), 1, true);
    OnePath(g);
    var first := new Branch(g, [g]);
    var n := new Node(Blk(2, 1), 2, false);
    AddTo(first, n);
    var stale := new Branch(g, [g]);
    var again := new Node(Blk(2, 1), 2, false);
    AddTo(stale, again);
    assert g.forward == map[Tag(2) := n][Tag(2) := again] && again.forward == map[];
    Lengthen(first);
    fell := PruneStale(stale, g, again);
  }

  /** Adds blocks 3 to 11 to a branch of two. */
  method Lengthen(bc: Branch)
    requires bc.Cached() && |bc.path| == 2 && bc.path[0].blk.hash == Tag(1) && bc.path[1].blk.hash == Tag(2)
    modifies bc, bc.head`forward
    ensures bc.Cached() && |bc.path| == 11
  {
    hide CachesBlocks, EvidenceIn, BlocksOf, Branch.Cached;
    var height := 2;
    while height < 11
      invariant 2 <= height <= 11 && bc.Cached() && |bc.path| == height && (bc.head == old(bc.head) || fresh(bc.head))
      invariant forall k | 0 <= k < height :: bc.path[k].blk.hash == Tag(k + 1)
    {
      var next := new Node(Blk(height + 1, height), height + 1, false);
      forall k | 0 <= k < height ensures bc.path[k].blk.hash != next.blk.hash { TagsDiffer(k + 1, height + 1); }
      assert bc.path[height - 1] == bc.head by { HeadIsLast(bc); }
      bc.Add(next);
      height := height + 1;
    }
  }

  lemma {:induction false} HeadIsLast(bc: Branch)
    requires bc.Cached()
    ensures |bc.path| > 0 && bc.head == bc.path[|bc.path| - 1]
  {
  }

  lemma {:induction false} OnePath(g: Node)
    requires g.backward == null
    ensures Chained([g]) && DistinctHashes([g])
  {
  }

  /** Puts a block on a branch that ends in genesis. */
  method AddTo(bc: Branch, n: Node)
    requires bc.Cached() && |bc.path| == 1 && n != bc.head && bc.head.blk.hash != n.blk.hash
    modifies bc, bc.head`forward, n`backward
    ensures bc.Cached() && bc.path == old(bc.path) + [n] && bc.head == n && n.backward == old(bc.head)
    ensures old(bc.head).forward == old(bc.head.forward)[n.blk.hash := n]
  {
    hide CachesBlocks, EvidenceIn, BlocksOf;
    bc.Add(n);
  }

  method PruneStale(stale: Branch, g: Node, again: Node) returns (fell: bool)
    requires stale.path == [g, again] && stale.head == again && g != again
    requires g.backward == null && again.backward == g && g.forward.Keys == {again.blk.hash} && again.forward == map[]
    modifies g, again
    ensures fell
  {
    ghost var p, kids := stale.path, ChildrenAlong(stale.path);
    assert Chained(p) && Distinct(p) && AllBare(p, kids);
    hide Chained, Distinct, AllBare, Unlinked;
    ghost var k;
    fell, k := RemoveBranch(stale.head, p);
  }
}
