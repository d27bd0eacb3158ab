/** A run from genesis that stores a block and reads another one back. */
module TwinEvidence {
  import opened Records
  import opened Difficulty
  import opened ChainModel
  import opened ChainInvariants
  import opened ChainMaintenance
  import opened ChainRuns
  import opened Database
  import opened Examples

  function Piece(owner: byte): Evidence {
    Evidence(CORE_PROTOCOL_V1, 0, Tag(77), [], seq(PUB_KEY_LENGTH, _ => owner), [])
  }

  /** Two pieces of evidence with one hash and different owners. */
  function Twin(): Block {
    var b := Blk(2, 1);
    b.(header := b.header.(root := Tag(9)), evds := [Piece(2), Piece(3)])
  }

  /** The line g, twin, 3, 4, ... */
  function TwinLine(n: nat): (r: History)
    requires 2 <= n < 0x80
    ensures |r| == n && r[0] == Blk(1, 0) && r[1] == Twin() && forall k | 2 <= k < n :: r[k] == Blk(k + 1, k)
  {
    Line(n)[1 := Twin()]
  }

  /** The database keeps one record per evidence hash of a block, so the first twin is lost. */
  lemma {:induction false} TwinIsReadBackDifferently()
    ensures ReadBack(Twin()) != Twin() && ReadBack(Twin()).evds == [Piece(3), Piece(3)]
  {
    var t := Twin();
    RootIsNotEmpty();
    assert t.evds[..1] == [Piece(2)];
    assert LastWith(t.evds, Tag(77)) == Piece(3);
    assert ReadBack(t).evds[0] == Piece(3) && t.evds[0] == Piece(2);
    assert Piece(2).pubKey[0] == 2 && Piece(3).pubKey[0] == 3;
  }

  lemma {:induction false} RootIsNotEmpty()
    ensures !Twin().HasEmptyRoot()
  {
    assert |Tag(9)| == 32;
  }

  function T1(): State {
    State([TwinLine(2)], 0, 2, 0, Line(1), {Tag(1)}, 1, 1)
  }

  function T2(): State {
    State([TwinLine(11)], 0, 11, 0, Line(1), {Tag(1)}, 1, 1)
  }

  function T3(): State {
    State([TwinLine(11)], 0, 11, 0, TwinLine(2), {Tag(1), Tag(2)}, 11, 1)
  }

  /** No check compares the evidence of a block with itself. */
  lemma {:induction false} TwinIsAccepted()
    ensures Accepts(Lenient(), Genesis(Blk(1, 0)), [Blk(1, 0)], Twin(), 0.0)
  {
    RootIsNotEmpty();
    assert Excess(0) == 0 && TargetToDiff(1) == Shl(1, 0) == 1;
    forall e | e in Twin().evds
      ensures EvidenceAccepted(Lenient(), Genesis(Blk(1, 0)), [Blk(1, 0)], e) {}
  }

  lemma {:induction false} TwinGoesIn()
    ensures AddBlocks(Lenient(), Genesis(Blk(1, 0)), [Twin()], false, 0.0, Never()) == T1()
  {
    hide Accepts, Lenient;
    var s := Genesis(Blk(1, 0));
    TwinIsAccepted();
    var t := Append(s, 0, Twin());
    assert [Twin()][1..] == [];
    assert Extend(Lenient(), t, 0, [], 0.0) == (t, true);
    assert Extend(Lenient(), s, 0, [Twin()], 0.0) == Extend(Lenient(), t, 0, [Twin()][1..], 0.0);
    hide Extend;
    AddedOnHead(s, 0, [Twin()]);
    assert TwinLine(2) == [Blk(1, 0)] + [Twin()] && Line(1) == [Blk(1, 0)];
  }

  lemma {:induction false} RestGoesIn()
    ensures AddBlocks(Lenient(), T1(), TwinLine(11)[2..], false, 0.0, Never()) == T2()
  {
    hide Extend, Lenient;
    var blocks := TwinLine(11)[2..];
    assert forall k | 0 <= k < |blocks| :: blocks[k] == Blk(k + 3, k + 2);
    ExtendsByAll(T1(), 0, blocks);
    assert Head(TwinLine(2)).hash == Tag(2) == blocks[0].header.lastHash;
    AddedOnHead(T1(), 0, blocks);
    assert TwinLine(11) == TwinLine(2) + blocks;
  }

  lemma {:induction false} TwinIsStored()
    ensures Maintain(T2()) == Running(T3())
  {
    hide Children;
    var c := TwinLine(11);
    var cs: seq<History> := [c];
    assert cs[..0] == [] && Keeps(11, c) && Prune([], 11) == [] && Prune(cs, 11) == cs;
    assert [c][0][0].hash == Tag(1);
    var p := Pruned(T2());
    assert p == T2().(mark := 11, kept := 1);
    OneBranch(c, 1);
    OneBranch(c, 2);
    TagsDiffer(1, 2);
    assert Line(1) + [c[1]] == TwinLine(2);
    assert Flush(T3(), 3) == Running(T3());
    assert Flush(p, 2) == Flush(T3(), 3);
    assert Flush(p, 1) == Flush(p, 2);
  }

  function TwinStates(): seq<State> {
    [Genesis(Blk(1, 0)), T1(), T2(), T3()]
  }

  function TwinSteps(): seq<Step> {
    [Add([Twin()], false, 0.0, Never()), Add(TwinLine(11)[2..], false, 0.0, Never()), Maintenance]
  }

  /** All blocks of the run. */
  function TwinUniverse(): set<Block> {
    set k | 0 <= k < 11 :: TwinLine(11)[k]
  }

  lemma {:induction false} TwinUniverseIsFine()
    ensures HashIdentity(Blk(1, 0), TwinUniverse())
  {
    forall j, k | 0 <= j < 11 && 0 <= k < 11 && TwinLine(11)[j].hash == TwinLine(11)[k].hash ensures j == k {
      TagsDiffer(j + 1, k + 1);
    }
    forall k | 0 <= k < 11 ensures TwinLine(11)[k].hash != Tag(0) { TagsDiffer(k + 1, 0); }
    assert TwinLine(11)[0] in TwinUniverse();
  }

  lemma {:induction false} TwinStep(k: nat)
    requires k < 3
    ensures Next(Lenient(), TwinStates()[k], TwinSteps()[k], TwinStates()[k + 1]) && Fits(TwinStates()[k])
    ensures InMemory(TwinStates()[k].chains, TwinStates()[k].cut)
    ensures Orderly(Lenient(), TwinUniverse(), TwinStates()[k], TwinSteps()[k])
    ensures Shallow(TwinStates()[k], TwinSteps()[k])
  {
    hide AddBlocks, Maintain, Lenient, Accepts, ForkPoint;
    TwinGoesIn();
    RestGoesIn();
    TwinIsStored();
    var c := TwinLine(11);
    assert c[1] in TwinUniverse() && forall j | 2 <= j < 11 :: c[j] in TwinUniverse();
    assert c[2..][0].header.lastHash == Tag(2);
  }

  /** An orderly run without deep forks in which a block with two pieces of evidence of one hash is
      accepted and stored, and the database gives back another block. */
  lemma {:induction false} StoredTwinDiffers()
    ensures IsRun(Blk(1, 0), TwinUniverse(), Lenient(), TwinStates(), TwinSteps())
        && ShallowRun(TwinStates(), TwinSteps())
    ensures T3().db[1] == Twin() && ReadBack(T3().db[1]) != T3().db[1]
  {
    hide HashIdentity, ChecksBlocks, WellFormed, TwinUniverse, Lenient, Next, Fits, Orderly, Shallow;
    UniverseIsFine();
    TwinUniverseIsFine();
    TwinIsReadBackDifferently();
    forall k | 0 <= k < 3
      ensures Next(Lenient(), TwinStates()[k], TwinSteps()[k], TwinStates()[k + 1]) && Fits(TwinStates()[k])
      ensures InMemory(TwinStates()[k].chains, TwinStates()[k].cut)
      ensures Orderly(Lenient(), TwinUniverse(), TwinStates()[k], TwinSteps()[k])
      ensures Shallow(TwinStates()[k], TwinSteps()[k])
    {
      TwinStep(k);
    }
  }

  // ---- a score from an old cache ----

  lemma {:induction false} AllMined(bs: History, miner: Bytes)
    requires forall p | 0 <= p < |bs| :: bs[p].header.miner == miner
    ensures Score(bs, miner) == |bs|
  {
    if bs != [] { AllMined(bs[..|bs| - 1], miner); }
  }

  /** In that run, a cache filled before the maintenance counts twelve blocks of the one miner
      afterwards; there are eleven. */
  lemma {:induction false} OldCacheCountsTwice()
    ensures var miner := Blk(1, 0).header.miner;
      && Score(T2().chains[0], miner) + Score(T3().db[|T2().db|..], miner) == 12
      && Score(T3().chains[0], miner) == 11
  {
    var miner := Blk(1, 0).header.miner;
    AllMined(T2().chains[0], miner);
    AllMined(T3().db[|T2().db|..], miner);
  }
}
