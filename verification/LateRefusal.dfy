/** A run from genesis in which a batch is refused late and maintenance then deletes the tallest
    branch. */
module LateRefusal {
  import opened Records
  import opened Difficulty
  import opened ChainModel
  import opened ChainInvariants
  import opened ChainMaintenance
  import opened ChainRuns
  import opened Examples

  /** Names block 104 as its parent, but has an empty root and evidence. */
  function Bad(): Block {
    Blk(105, 104).(evds := [Evidence(1, 0, [], [], [], [])])
  }

  function Batch2(): seq<Block> {
    Other(4)[1..] + [Bad()]
  }

  function L1(): State {
    State([Line(3)], 0, 3, 0, Line(1), {Tag(1)}, 1, 1)
  }

  /** The branch of four blocks is listed, but the one of three is still the longest. */
  function L2(): State {
    L1().(chains := [Line(3), Other(4)])
  }

  function L3(): State {
    L1().(mark := 3, kept := 1)
  }

  lemma {:induction false} ExtendsUntilBad(s: State, i: nat, blocks: seq<Block>, bad: Block)
    requires i < |s.chains| && InMemory(s.chains, s.cut) && |s.chains[i]| + |blocks| <= REFERENCE_BLOCKS + 2
    requires Head(s.chains[i]).header.time == 0 && !Lenient().blockOk(bad)
    requires forall k | 0 <= k < |blocks| :: Plain(blocks[k])
    requires blocks != [] ==> blocks[0].header.lastHash == Head(s.chains[i]).hash
    requires forall k | 0 < k < |blocks| :: blocks[k].header.lastHash == blocks[k - 1].hash
    ensures Extend(Lenient(), s, i, blocks + [bad], 0.0) == (s.(chains := s.chains[i := s.chains[i] + blocks]), false)
    decreases |blocks|
  {
    var c := s.chains[i];
    if blocks == [] {
      assert c + [] == c && s.chains[i := c] == s.chains && [] + [bad] == [bad];
      assert !Accepts(Lenient(), s, c, bad, 0.0);
    } else {
      hide Accepts, Lenient;
      var b, t := blocks[0], Append(s, i, blocks[0]);
      PlainAccepted(s, c, b);
      assert forall k | 0 <= k < |blocks[1..]| :: blocks[1..][k] == blocks[k + 1];
      assert forall k | 0 < k < |blocks[1..]| :: blocks[1..][k - 1] == blocks[k];
      assert Head(t.chains[i]) == b;
      ExtendsUntilBad(t, i, blocks[1..], bad);
      assert c + blocks == c + [b] + blocks[1..] && (blocks + [bad])[1..] == blocks[1..] + [bad];
      assert t.chains[i := c + blocks] == s.chains[i := c + blocks];
    }
  }

  lemma {:induction false} FirstBatch()
    ensures AddBlocks(Lenient(), Genesis(Blk(1, 0)), Line(3)[1..], false, 0.0, Never()) == L1()
  {
    hide Extend, Lenient;
    var s := Genesis(Blk(1, 0));
    var blocks := Line(3)[1..];
    assert blocks == [Blk(2, 1), Blk(3, 2)];
    ExtendsByAll(s, 0, blocks);
    AddedOnHead(s, 0, blocks);
    assert Line(3) == [Blk(1, 0)] + blocks && Line(1) == [Blk(1, 0)];
  }

  lemma {:induction false} SecondForks()
    ensures HeadIndex(L1().chains, Tag(1), 0) == 1 && ForkPoint(L1(), Blk(102, 1)) == Some(Line(1))
  {
    TagsDiffer(3, 1);
    TagsDiffer(102, 2);
    assert Find(Line(3), 0, Tag(1)) == 0;
    hide Find;
    assert HolderIndex(L1().chains, 0, Tag(1), 0) == 0;
    assert Line(3)[..1] == Line(1);
    assert forall h | h in Children(L1().chains, Line(1)) :: h == Tag(2);
  }

  lemma {:induction false} SecondBatch()
    ensures AddBlocks(Lenient(), L1(), Batch2(), false, 0.0, Never()) == L2()
  {
    hide Extend, HeadIndex, ForkPoint;
    SecondForks();
    LinesArePlainLines(4);
    LineTail(Other(4), 1);
    var f := L1().(chains := [Line(3)] + [Line(1)]);
    assert Other(4)[..1] == Line(1) && Batch2()[0] == Blk(102, 1);
    assert !Lenient().blockOk(Bad());
    hide Lenient, PlainLine;
    ExtendsUntilBad(f, 1, Other(4)[1..], Bad());
    assert Line(1) + Other(4)[1..] == Other(4);
    assert f.chains[1 := Other(4)] == [Line(3), Other(4)];
  }

  lemma {:induction false} PrunesTaller()
    ensures Maintain(L2()) == Running(L3())
  {
    var cs := L2().chains;
    assert cs[..1] == [Line(3)] && cs[..1][..0] == [] && cs[..0] == [];
    assert Keeps(3, cs[0]) && !Keeps(3, cs[1]);
    assert Prune([], 3) == [];
    assert Prune(cs[..1], 3) == [Line(3)];
    assert Prune(cs, 3) == [Line(3)];
    assert [Line(3)][0][0].hash == Tag(1);
    assert Pruned(L2()) == L3();
  }

  function LateStates(): seq<State> {
    [Genesis(Blk(1, 0)), L1(), L2(), L3()]
  }

  function LateSteps(): seq<Step> {
    [Add(Line(3)[1..], false, 0.0, Never()), Add(Batch2(), false, 0.0, Never()), Maintenance]
  }

  function LateUniverse(): set<Block> {
    Universe() + {Bad()}
  }

  lemma {:induction false} LateUniverseIsFine()
    ensures HashIdentity(Blk(1, 0), LateUniverse())
    ensures (forall b | b in Line(3) :: b in LateUniverse()) && (forall b | b in Batch2() :: b in LateUniverse())
  {
    hide Universe;
    UniverseIsFine();
    InUniverse(105);
    forall k | 0 <= k < 3 ensures Line(3)[k] in Universe() { InUniverse(k + 1); }
    forall k | 1 <= k < 4 ensures Other(4)[k] in Universe() { InUniverse(101 + k); }
  }

  lemma {:induction false} LateStep(k: nat)
    requires k < 3
    ensures Next(Lenient(), LateStates()[k], LateSteps()[k], LateStates()[k + 1]) && Fits(LateStates()[k])
  {
    hide AddBlocks, Maintain, Lenient, Line, Other, Batch2;
    FirstBatch();
    SecondBatch();
    PrunesTaller();
  }

  lemma {:induction false} LateOrder(k: nat)
    requires k < 3
    ensures InMemory(LateStates()[k].chains, LateStates()[k].cut)
    ensures Orderly(Lenient(), LateUniverse(), LateStates()[k], LateSteps()[k])
  {
    hide Lenient, Accepts, LateUniverse, HeadIndex, ForkPoint;
    LateUniverseIsFine();
    FirstHead();
    SecondForks();
    assert Line(3)[1] == Blk(2, 1) && Batch2()[0] == Blk(102, 1);
    PlainAccepted(L1(), Line(1), Blk(102, 1));
  }

  /** An orderly run from genesis in which the greatest listed height drops from four to three: the
      batch that made the branch of four blocks was refused at its last block, so that branch never
      became the longest, and being taller than it counts as too far away. */
  lemma {:induction false} TallestIsPruned()
    ensures IsRun(Blk(1, 0), LateUniverse(), Lenient(), LateStates(), LateSteps())
    ensures TallestHeight(L2().chains) == 4 && TallestHeight(L3().chains) == 3
  {
    hide HashIdentity, ChecksBlocks, WellFormed, Universe, LateUniverse, Lenient, Next, Fits, Orderly;
    UniverseIsFine();
    LateUniverseIsFine();
    forall k | 0 <= k < 3
      ensures Next(Lenient(), LateStates()[k], LateSteps()[k], LateStates()[k + 1]) && Fits(LateStates()[k])
      ensures InMemory(LateStates()[k].chains, LateStates()[k].cut)
      ensures Orderly(Lenient(), LateUniverse(), LateStates()[k], LateSteps()[k])
    {
      LateStep(k);
      LateOrder(k);
    }
    assert |L2().chains[1]| == 4 && |L3().chains[0]| == 3;
  }
}
