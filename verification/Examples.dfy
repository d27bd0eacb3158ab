/** Runs from genesis that show why the hypotheses of the run theorems are needed. */
module Examples {
  import opened Records
  import opened Difficulty
  import opened ChainModel
  import opened ChainInvariants
  import opened ChainMaintenance
  import opened ChainRuns

  function Tag(id: byte): Bytes {
    seq(HASH_LENGTH, _ => id)
  }

  /** An empty block that goes by one tag and names another as its parent. */
  function Blk(id: byte, last: byte): Block {
    Block(Tag(id), Header(CORE_PROTOCOL_V1, 0, 0, 1, Tag(last), seq(PUB_KEY_LENGTH, _ => 2), EMPTY_EVIDENCE_ROOT), [])
  }

  /** Rules that let every block of the right shape pass, and every piece of evidence. */
  function Lenient(): Rules {
    Rules((b: Block) =>
            && (b.HasEmptyRoot() ==> b.evds == []) && |b.hash| == HASH_LENGTH && |b.header.miner| == PUB_KEY_LENGTH
            && (forall e | e in b.evds :: |e.hash| == HASH_LENGTH && |e.pubKey| == PUB_KEY_LENGTH),
          (e: Evidence) => |e.hash| == HASH_LENGTH, (b: Block) => 0, (evds: seq<Evidence>) => Tag(9), 1,
          (x: int, y: int) => 0.0)
  }

  function Never(): nat -> bool {
    (n: nat) => false
  }

  lemma {:induction false} TagsDiffer(i: byte, j: byte)
    ensures Tag(i) == Tag(j) <==> i == j
  {
    assert Tag(i)[0] == i && Tag(j)[0] == j;
  }

  /** The main line g, 2, 3, ... */
  function Line(n: nat): (r: History)
    requires n < 0x100
    ensures |r| == n && forall k | 0 <= k < n :: r[k] == Blk(k + 1, k)
  {
    seq(n, k requires 0 <= k < n => Blk(k + 1, k))
  }

  /** The line g, 102, 103, ... that leaves it at genesis. */
  function Other(n: nat): (r: History)
    requires 0 < n < 0x80
    ensures |r| == n && r[0] == Blk(1, 0)
        && forall k | 1 <= k < n :: r[k] == Blk(101 + k, if k == 1 then 1 else 100 + k)
  {
    [Blk(1, 0)] + seq(n - 1, k requires 0 <= k < n - 1 => Blk(102 + k, if k == 0 then 1 else 101 + k))
  }

  /** The branch g, 2, 3, 50. */
  function Short(): History {
    Line(3) + [Blk(50, 3)]
  }

  /** What the lenient rules look at. */
  ghost predicate Plain(b: Block) {
    && b.HasEmptyRoot() && b.evds == [] && b.header.target == 1 && b.header.time == 0
    && |b.hash| == HASH_LENGTH && |b.header.miner| == PUB_KEY_LENGTH
  }

  lemma {:induction false} PlainAccepted(s: State, c: History, b: Block)
    requires 0 < |c| <= REFERENCE_BLOCKS + 1 && s.cut <= |c| && Head(c).header.time == 0
    requires Plain(b) && b.header.lastHash == Head(c).hash
    ensures Accepts(Lenient(), s, c, b, 0.0)
  {
    assert Excess(0) == 0 && TargetToDiff(1) == Shl(1, 0) == 1;
  }

  /** A linked batch of such blocks goes in as a whole while the target is still the limit. */
  lemma {:induction false} ExtendsByAll(s: State, i: nat, blocks: seq<Block>)
    requires i < |s.chains| && InMemory(s.chains, s.cut) && |s.chains[i]| + |blocks| <= REFERENCE_BLOCKS + 2
    requires Head(s.chains[i]).header.time == 0
    requires forall k | 0 <= k < |blocks| :: Plain(blocks[k])
    requires blocks != [] ==> blocks[0].header.lastHash == Head(s.chains[i]).hash
    requires forall k | 0 < k < |blocks| :: blocks[k].header.lastHash == blocks[k - 1].hash
    ensures Extend(Lenient(), s, i, blocks, 0.0) == (s.(chains := s.chains[i := s.chains[i] + blocks]), true)
    decreases |blocks|
  {
    hide Accepts;
    var c := s.chains[i];
    if blocks == [] {
      assert c + [] == c && s.chains[i := c] == s.chains;
    } else {
      var b, t := blocks[0], Append(s, i, blocks[0]);
      PlainAccepted(s, c, b);
      assert forall k | 0 <= k < |blocks[1..]| :: blocks[1..][k] == blocks[k + 1];
      assert forall k | 0 < k < |blocks[1..]| :: blocks[1..][k - 1] == blocks[k];
      assert Head(t.chains[i]) == b;
      ExtendsByAll(t, i, blocks[1..]);
      assert c + blocks == c + [b] + blocks[1..];
      assert t.chains[i := c + blocks] == s.chains[i := c + blocks];
    }
  }

  // ---- a refused fork ----

  function TwoBlocks(): State {
    Genesis(Blk(1, 0)).(chains := [Line(2)], lastHeight := 2)
  }

  /** An empty root but not empty. */
  function Refused(): Block {
    Blk(50, 1).(evds := [Evidence(1, 0, [], [], [], [])])
  }

  lemma {:induction false} TwoBlocksReached()
    ensures AddBlocks(Lenient(), Genesis(Blk(1, 0)), [Blk(2, 1)], false, 0.0, Never()) == TwoBlocks()
  {
    hide Extend;
    var s := Genesis(Blk(1, 0));
    ExtendsByAll(s, 0, [Blk(2, 1)]);
    AddedOnHead(s, 0, [Blk(2, 1)]);
    assert Line(2) == [Blk(1, 0)] + [Blk(2, 1)];
  }

  lemma {:induction false} RefusedForkPoint()
    ensures HeadIndex(TwoBlocks().chains, Tag(1), 0) == 1
    ensures ForkPoint(TwoBlocks(), Refused()) == Some(Line(1))
  {
    var chains := TwoBlocks().chains;
    TagsDiffer(1, 2);
    TagsDiffer(50, 2);
    assert Head(chains[0]).hash == Tag(2);
    assert Find(Line(2), 0, Tag(1)) == 0;
    assert HolderIndex(chains, 0, Tag(1), 0) == 0;
    assert Line(2)[..1] == Line(1) && Line(1) < Line(2);
    assert Children(chains, Line(1)) == {Tag(2)};
  }

  /** After one block from genesis, a branch whose first block is refused stays listed: its head is
      inside another branch. */
  lemma {:induction false} RefusedForkStaysListed()
    ensures AddBlocks(Lenient(), Genesis(Blk(1, 0)), [Blk(2, 1)], false, 0.0, Never()) == TwoBlocks()
    ensures ForkRefused(Lenient(), TwoBlocks(), [Refused()], 0.0)
    ensures AddBlocks(Lenient(), TwoBlocks(), [Refused()], false, 0.0, Never()).chains == [Line(2), Line(1)]
    ensures Leaves(TwoBlocks().chains) && !Leaves([Line(2), Line(1)])
  {
    hide HeadIndex, ForkPoint, Line;
    TwoBlocksReached();
    RefusedForkPoint();
    assert !Lenient().blockOk(Refused());
    assert Line(1) <= Line(2);
    var s0 := TwoBlocks().(chains := [Line(2)] + [Line(1)]);
    assert Extend(Lenient(), s0, 1, [Refused()], 0.0) == (s0, false);
    assert [Line(2), Line(1)][1] <= [Line(2), Line(1)][0];
  }

  // ---- a deep fork ----

  function S1(): State {
    State([Short()], 0, 4, 0, Line(1), {Tag(1)}, 1, 1)
  }

  function S2(): State {
    State([Short(), Line(12)], 1, 12, 0, Line(1), {Tag(1)}, 1, 1)
  }

  function S3(): State {
    State([Short(), Line(12)], 1, 12, 0, Line(2), {Tag(1), Tag(2)}, 12, 2)
  }

  function S4(): State {
    State([Short(), Line(12), Other(21)], 2, 21, 0, Line(2), {Tag(1), Tag(2)}, 12, 2)
  }

  lemma {:induction false} AddedOnHead(s: State, i: nat, blocks: seq<Block>)
    requires |s.chains| > 0 && InMemory(s.chains, s.cut) && i < |s.chains| && blocks != []
    requires HeadIndex(s.chains, blocks[0].header.lastHash, 0) == i
    requires Extend(Lenient(), s, i, blocks, 0.0) == (s.(chains := s.chains[i := s.chains[i] + blocks]), true)
    ensures AddBlocks(Lenient(), s, blocks, false, 0.0, Never())
         == Notify(s.(chains := s.chains[i := s.chains[i] + blocks]), Never())
  {
    hide HeadIndex, Extend, Lenient, Notify;
  }

  lemma {:induction false} AddedOnFork(s: State, stem: History, blocks: seq<Block>)
    requires |s.chains| > 0 && InMemory(s.chains, s.cut) && blocks != [] && s.cut < |stem|
    requires HeadIndex(s.chains, blocks[0].header.lastHash, 0) == |s.chains| && ForkPoint(s, blocks[0]) == Some(stem)
    requires var f := s.(chains := s.chains + [stem]);
      Extend(Lenient(), f, |s.chains|, blocks, 0.0) == (f.(chains := s.chains + [stem + blocks]), true)
    ensures AddBlocks(Lenient(), s, blocks, false, 0.0, Never()) == Notify(s.(chains := s.chains + [stem + blocks]),
        Never())
  {
    hide HeadIndex, ForkPoint, Extend, Lenient, Notify;
  }

  lemma {:induction false} LinesArePlain(n: nat)
    requires 0 < n < 0x80
    ensures forall k | 0 <= k < n :: Plain(Line(n)[k]) && Plain(Other(n)[k])
    ensures forall k | 0 < k < n :: Line(n)[k].header.lastHash == Line(n)[k - 1].hash
    ensures forall k | 0 < k < n :: Other(n)[k].header.lastHash == Other(n)[k - 1].hash
  {
  }

  lemma {:induction false} FirstStep()
    ensures InMemory(Genesis(Blk(1, 0)).chains, 0)
    ensures AddBlocks(Lenient(), Genesis(Blk(1, 0)), Short()[1..], false, 0.0, Never()) == S1()
  {
    hide Extend;
    var s := Genesis(Blk(1, 0));
    var blocks := Short()[1..];
    assert blocks == [Blk(2, 1), Blk(3, 2), Blk(50, 3)];
    ExtendsByAll(s, 0, blocks);
    AddedOnHead(s, 0, blocks);
    assert Short() == [Blk(1, 0)] + blocks;
    assert Line(1) == [Blk(1, 0)];
  }

  lemma {:induction false} ShortBlocks()
    ensures Short() == [Blk(1, 0), Blk(2, 1), Blk(3, 2), Blk(50, 3)]
  {
  }

  /** Where hash tags are found on the lines. */
  lemma {:induction false} FoundOnShort(id: byte)
    requires id == 1 || id == 3
    ensures Find(Short(), 0, Tag(id)) == id - 1
  {
    ShortBlocks();
    forall k: byte ensures Tag(k) == Tag(id) <==> k == id { TagsDiffer(k, id); }
    assert Short()[0].hash == Tag(1) && Short()[1].hash == Tag(2) && Short()[2].hash == Tag(3);
  }

  lemma {:induction false} SecondForkPoint()
    ensures HeadIndex(S1().chains, Tag(3), 0) == 1 && ForkPoint(S1(), Blk(4, 3)) == Some(Line(3))
  {
    ShortBlocks();
    TagsDiffer(50, 3);
    TagsDiffer(50, 4);
    FoundOnShort(3);
    hide Find;
    assert HolderIndex(S1().chains, 0, Tag(3), 0) == 0;
    assert Short()[..3] == Line(3);
    assert Children(S1().chains, Line(3)) == {Tag(50)};
  }

  ghost predicate PlainLine(c: History) {
    |c| <= REFERENCE_BLOCKS + 2 && Linked(c) && forall k | 0 <= k < |c| :: Plain(c[k])
  }

  lemma {:induction false} LinesArePlainLines(n: nat)
    requires 0 < n <= 21
    ensures PlainLine(Line(n)) && PlainLine(Other(n))
  {
    LinesArePlain(n);
  }

  lemma {:induction false} LineTail(c: History, n: nat)
    requires PlainLine(c) && 0 < n < |c|
    ensures forall k | 0 <= k < |c| - n :: Plain(c[n..][k])
    ensures c[n..][0].header.lastHash == Head(c[..n]).hash
    ensures forall k | 0 < k < |c| - n :: c[n..][k].header.lastHash == c[n..][k - 1].hash
    ensures c[..n] + c[n..] == c
  {
    hide Plain;
    forall k | 0 < k < |c| - n ensures c[n..][k].header.lastHash == c[n..][k - 1].hash {
      assert c[n..][k] == c[n + k] && c[n..][k - 1] == c[n + k - 1];
    }
  }

  /** The rest of a line goes onto a new branch at one of its blocks. */
  lemma {:induction false} LineForks(s: State, c: History, n: nat)
    requires |s.chains| > 0 && InMemory(s.chains, s.cut) && PlainLine(c) && s.cut < n < |c|
    requires HeadIndex(s.chains, c[n].header.lastHash, 0) == |s.chains| && ForkPoint(s, c[n]) == Some(c[..n])
    ensures AddBlocks(Lenient(), s, c[n..], false, 0.0, Never()) == Notify(s.(chains := s.chains + [c]), Never())
  {
    hide Extend, HeadIndex, ForkPoint, Lenient, Notify;
    LineTail(c, n);
    assert Plain(c[n - 1]);
    var f, i := s.(chains := s.chains + [c[..n]]), |s.chains|;
    ExtendsByAll(f, i, c[n..]);
    assert f.chains[i := c] == s.chains + [c];
    AddedOnFork(s, c[..n], c[n..]);
  }

  lemma {:induction false} SecondStep()
    ensures AddBlocks(Lenient(), S1(), Line(12)[3..], false, 0.0, Never()) == S2()
  {
    hide HeadIndex, ForkPoint, Lenient;
    SecondForkPoint();
    LinesArePlainLines(12);
    hide PlainLine;
    assert Line(12)[..3] == Line(3) && Line(12)[3] == Blk(4, 3);
    LineForks(S1(), Line(12), 3);
    hide AddBlocks;
    assert S1().chains + [Line(12)] == S2().chains;
    assert |Short()| == 4;
  }

  lemma {:induction false} FourthForkPoint()
    ensures HeadIndex(S3().chains, Tag(1), 0) == 2 && ForkPoint(S3(), Blk(102, 1)) == Some(Line(1))
  {
    ShortBlocks();
    TagsDiffer(50, 1);
    TagsDiffer(12, 1);
    TagsDiffer(102, 2);
    FoundOnShort(1);
    hide Find;
    assert HolderIndex(S3().chains, 0, Tag(1), 0) == 0;
    assert Short()[..1] == Line(1);
    assert forall h | h in Children(S3().chains, Line(1)) :: h == Tag(2);
  }

  lemma {:induction false} FourthStep()
    ensures AddBlocks(Lenient(), S3(), Other(21)[1..], false, 0.0, Never()) == S4()
  {
    hide HeadIndex, ForkPoint, Lenient;
    FourthForkPoint();
    LinesArePlainLines(21);
    hide PlainLine;
    assert Other(21)[..1] == Line(1) && Other(21)[1] == Blk(102, 1);
    LineForks(S3(), Other(21), 1);
    hide AddBlocks;
    assert S3().chains + [Other(21)] == S4().chains;
    assert |Short()| == 4;
  }

  // ---- the two maintenances ----

  lemma {:induction false} ThirdChildren()
    ensures Children(S2().chains, Line(12)[..1]) == {Tag(2)}
    ensures Children(S2().chains, Line(12)[..2]) == {Tag(3)}
    ensures |Children(S2().chains, Line(12)[..3])| == 2
  {
    ShortBlocks();
    var chains := S2().chains;
    assert forall n | 1 <= n <= 3 :: Line(12)[..n] < chains[1] && Line(12)[..n] < chains[0];
    assert chains[0][1].hash == chains[1][1].hash == Tag(2);
    assert chains[0][2].hash == chains[1][2].hash == Tag(3);
    TagsDiffer(50, 4);
    assert Children(chains, Line(12)[..3]) == {Tag(50), Tag(4)};
  }

  lemma {:induction false} ThirdPrune()
    ensures Pruned(S2()) == S2().(mark := 12, kept := 2)
  {
    hide Line, Tag, Prune;
    var cs := S2().chains;
    PruneTwo(cs[0], cs[1], 12);
    PruneOne(cs[0], 12);
    assert cs == [Short(), Line(12)] && cs[..1] == [Short()];
    assert Keeps(12, cs[0]) && Keeps(12, cs[1]);
    assert Prune(cs, 12) == cs && |Prune(cs[..1], 12)| == 1;
    assert S2().stored * HashesOf(cs) == S2().stored by { assert cs[1][0].hash == Tag(1); }
  }

  lemma {:induction false} PruneOne(a: History, top: nat)
    ensures Prune([a], top) == if Keeps(top, a) then [a] else []
  {
    hide Keeps;
    var one: seq<History> := [a];
    assert one[..0] == [] && Prune(one[..0], top) == [];
  }

  lemma {:induction false} PruneTwo(a: History, b: History, top: nat)
    ensures Prune([a, b], top) == Prune([a], top) + if Keeps(top, b) then [b] else []
  {
    hide Keeps;
    var two: seq<History> := [a, b];
    assert two[..1] == [a];
  }

  lemma {:induction false} ThirdStep()
    ensures Maintain(S2()) == Running(S3())
  {
    hide Children, Pruned;
    ThirdPrune();
    ThirdChildren();
    TagsDiffer(1, 2);
    TagsDiffer(1, 3);
    var p := Pruned(S2());
    assert Line(1) + [Line(12)[1]] == Line(2);
    assert Flush(S3(), 3) == Running(S3());
    assert Flush(p, 2) == Flush(S3(), 3);
    assert Flush(p, 1) == Flush(p, 2);
  }

  lemma {:induction false} LastPrune()
    ensures var t := Pruned(S4());
      && t.chains == [Other(21)] && t.longest == 0 && t.cut == 0 && t.db == Line(2)
      && Tag(1) in t.stored && Tag(102) !in t.stored
  {
    var cs := S4().chains;
    assert cs[..2] == [Short(), Line(12)] && cs[..1] == [Short()] && cs[..2][..1] == cs[..1] && cs[..1][..0] == [];
    assert !Keeps(21, cs[0]) && !Keeps(21, cs[1]) && Keeps(21, cs[2]);
    assert Prune(cs[..1], 21) == [];
    assert Prune(cs[..2], 21) == [];
    assert Prune(cs, 21) == [Other(21)];
    assert [Other(21)][0][0].hash == Tag(1);
    TagsDiffer(102, 1);
    TagsDiffer(102, 2);
  }

  lemma {:induction false} OneBranch(c: History, n: nat)
    requires n < |c|
    ensures Children([c], c[..n]) == {c[n].hash}
  {
    assert c[..n] < [c][0];
  }

  lemma {:induction false} LastMaintenance()
    ensures Maintain(S4()) == Crashed
  {
    hide Children, Pruned;
    LastPrune();
    var t, c := Pruned(S4()), Other(21);
    OneBranch(c, 1);
    OneBranch(c, 2);
    assert Flush(t, 2) == Crashed;
    assert Flush(t, 1) == Flush(t, 2);
  }

  // ---- the run ----

  function Last(id: byte): byte {
    if id == 50 then 3 else if id == 102 then 1 else if id == 0 then 0 else id - 1
  }

  /** Every block that occurs, and some more. */
  function Universe(): set<Block> {
    set id: byte | 1 <= id < 0x80 :: Blk(id, Last(id))
  }

  lemma {:induction false} InUniverse(id: byte)
    requires 1 <= id < 0x80
    ensures Blk(id, Last(id)) in Universe()
  {
  }

  lemma {:induction false} UniverseIsFine()
    ensures HashIdentity(Blk(1, 0), Universe()) && ChecksBlocks(Lenient()) && WellFormed(Blk(1, 0))
  {
    forall a, b | a in Universe() && b in Universe() && a.hash == b.hash ensures a.header == b.header {
      var i: byte :| 1 <= i < 0x80 && a == Blk(i, Last(i));
      var j: byte :| 1 <= j < 0x80 && b == Blk(j, Last(j));
      TagsDiffer(i, j);
    }
    forall a | a in Universe() ensures a.hash != Tag(0) {
      var i: byte :| 1 <= i < 0x80 && a == Blk(i, Last(i));
      TagsDiffer(i, 0);
    }
    InUniverse(1);
  }

  lemma {:induction false} LinesInUniverse()
    ensures forall b | b in Line(12) :: b in Universe()
    ensures forall b | b in Other(21) :: b in Universe()
    ensures forall b | b in Short() :: b in Universe()
  {
    hide Universe;
    forall k | 0 <= k < 12 ensures Line(12)[k] in Universe() { InUniverse(k + 1); }
    forall k | 0 <= k < 21 ensures Other(21)[k] in Universe() { InUniverse(if k == 0 then 1 else 101 + k); }
    ShortBlocks();
    InUniverse(1);
    InUniverse(2);
    InUniverse(3);
    InUniverse(50);
  }

  function States(): seq<State> {
    [Genesis(Blk(1, 0)), S1(), S2(), S3(), S4()]
  }

  function Steps(): seq<Step> {
    [Add(Short()[1..], false, 0.0, Never()), Add(Line(12)[3..], false, 0.0, Never()), Maintenance,
     Add(Other(21)[1..], false, 0.0, Never())]
  }

  lemma {:induction false} StepsFollow(k: nat)
    requires k < 4
    ensures Next(Lenient(), States()[k], Steps()[k], States()[k + 1]) && Fits(States()[k])
  {
    hide AddBlocks, Maintain, Lenient, Line, Other;
    FirstStep();
    SecondStep();
    ThirdStep();
    FourthStep();
  }

  lemma {:induction false} StepsAreOrderly(k: nat)
    requires k < 4
    ensures InMemory(States()[k].chains, States()[k].cut) && Orderly(Lenient(), Universe(), States()[k], Steps()[k])
  {
    hide Universe, HeadIndex, ForkPoint, Lenient, Accepts;
    LinesInUniverse();
    FirstHead();
    SecondForkPoint();
    FourthForkPoint();
    assert Line(12)[3] == Blk(4, 3) && Other(21)[1] == Blk(102, 1) && Short()[1] == Blk(2, 1);
    PlainAccepted(S1(), Line(3), Blk(4, 3));
    PlainAccepted(S3(), Line(1), Blk(102, 1));
  }

  lemma {:induction false} FirstHead()
    ensures HeadIndex([[Blk(1, 0)]], Tag(1), 0) == 0
  {
  }

  /** A run from genesis with orderly steps after which maintenance stops the program: the
      database already has block 2, a lagging branch lets a fork at genesis in, that fork
      becomes the longest branch, and its own block 2 is refused by the database. */
  lemma {:induction false} DeepForkCrashes()
    ensures IsRun(Blk(1, 0), Universe(), Lenient(), States(), Steps())
    ensures DeepFork(S3(), Other(21)[1..])
    ensures Maintain(S4()) == Crashed
  {
    hide HashIdentity, ChecksBlocks, WellFormed, Universe, Lenient, Next, Fits, Orderly, Maintain, HeadIndex,
         ForkPoint;
    UniverseIsFine();
    forall k | 0 <= k < 4
      ensures Next(Lenient(), States()[k], Steps()[k], States()[k + 1]) && Fits(States()[k])
      ensures InMemory(States()[k].chains, States()[k].cut) && Orderly(Lenient(), Universe(), States()[k], Steps()[k])
    {
      StepsFollow(k);
      StepsAreOrderly(k);
    }
    FourthForkPoint();
    LastMaintenance();
  }
}
