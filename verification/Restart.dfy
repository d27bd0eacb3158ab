/** The chain loaded from a filled database (core/blockchain/chain.go, initFromDB). */
module Restart {
  import opened Records
  import opened Difficulty
  import opened ChainModel
  import opened ChainInvariants
  import opened ChainMemory
  import opened BlockTree
  import opened Database
  import opened Sync
  import opened Examples

  /** How many blocks stay out of memory: all but the last twenty-one. */
  function FirstLoaded(n: nat): nat {
    if n > REFERENCE_BLOCKS then n - REFERENCE_BLOCKS - 1 else 0
  }

  /** The history of the loaded branch; the loaded part is as the database gives it back. */
  function Loaded(db: History): (c: History)
    ensures |c| == |db|
  {
    db[..FirstLoaded(|db|)] + ReadBacks(db[FirstLoaded(|db|)..])
  }

  /** One branch, with the last height of its first loaded block. */
  function Restarted(db: History): State {
    var cut := FirstLoaded(|db|);
    State([Loaded(db)], 0, cut + 1, cut, db, HashesOf([db[cut..]]), |db|, 1)
  }

  // ---- loading ----

  /** The branch has the loaded blocks up to a height, linked and marked as stored. */
  ghost predicate LoadedTo(bc: Branch, db: History, height: nat)
    reads bc, bc.path
  {
    var cut := FirstLoaded(|db|);
    && cut < height <= |db| && bc.Cached() && |bc.path| == height - cut && Chained(bc.path)
    && (forall k | 0 <= k < |bc.path| ::
         && bc.path[k].blk == Loaded(db)[cut + k] && bc.path[k].height == cut + k + 1
         && bc.path[k].stored)
  }

  lemma {:induction false} NextIsNew(bc: Branch, db: History, height: nat)
    requires LoadedTo(bc, db, height) && height < |db|
    requires forall p, q | 0 <= p < q < |db| :: db[p].hash != db[q].hash
    ensures forall k | 0 <= k < |bc.path| :: bc.path[k].blk.hash != db[height].hash
  {
    hide Branch.Cached, Chained, Loaded;
    forall k | 0 <= k < |bc.path| ensures bc.path[k].blk.hash != db[height].hash {
      LoadedAt(db, FirstLoaded(|db|) + k);
    }
  }

  /** Reads the next block and links it above the head. */
  method LoadNext(db: BlockStore, bc: Branch, height: nat) returns (n: Node)
    requires db.Valid() && |db.blocks| < TWO_63 && LoadedTo(bc, db.blocks, height) && height < |db.blocks|
    requires forall p, q | 0 <= p < q < |db.blocks| :: db.blocks[p].hash != db.blocks[q].hash
    modifies bc, bc.head`forward
    ensures LoadedTo(bc, db.blocks, height + 1) && fresh(n) && bc.path == old(bc.path) + [n] && bc.head == n
  {
    hide BlockStore.Valid, CachesBlocks, EvidenceIn, BlocksOf, ReadBack, Loaded;
    LoadedAt(db.blocks, height);
    NextIsNew(bc, db.blocks, height);
    var next := db.GetBlockViaHeight(height + 1);
    n := new Node(next.value, height + 1, true);
    bc.Add(n);
  }

  /** Reads the last blocks, links them and fills the branch's caches. */
  method InitFromDB(db: BlockStore) returns (bc: Branch, oldest: Node)
    requires db.Valid() && 0 < |db.blocks| < TWO_63
    requires forall p, q | 0 <= p < q < |db.blocks| :: db.blocks[p].hash != db.blocks[q].hash
    ensures fresh(bc) && LoadedTo(bc, db.blocks, |db.blocks|) && oldest == bc.path[0]
    ensures Mirrors(bc.path, Loaded(db.blocks), FirstLoaded(|db.blocks|))
  {
    hide BlockStore.Valid, Branch.Cached, ReadBack, Loaded;
    var latest := db.GetLatestHeight();
    var begin: nat := if latest.value > REFERENCE_BLOCKS then latest.value - REFERENCE_BLOCKS else 1;
    ghost var cut := FirstLoaded(|db.blocks|);
    var b := db.GetBlockViaHeight(begin);
    oldest := new Node(b.value, begin, true);
    LoadedAt(db.blocks, cut);
    OneBlock(oldest);
    bc := new Branch(oldest, [oldest]);
    var height := begin;
    while height < latest.value
      invariant begin <= height <= |db.blocks| && fresh(bc) && LoadedTo(bc, db.blocks, height)
      invariant |bc.path| > 0 && bc.path[0] == oldest && fresh(bc.head)
    {
      hide LoadedTo;
      var n := LoadNext(db, bc, height);
      height := height + 1;
    }
  }

  lemma {:induction false} OneBlock(n: Node)
    requires n.backward == null
    ensures Chained([n]) && DistinctHashes([n])
  {
  }

  lemma {:induction false} LoadedAt(db: History, p: nat)
    requires p < |db|
    ensures p >= FirstLoaded(|db|) ==> Loaded(db)[p] == ReadBack(db[p])
    ensures Loaded(db)[p].hash == db[p].hash
  {
  }

  // ---- the retarget walk after a restart ----

  /** A block on top of branch i needs no walk, or the twenty steps back stay in memory. */
  ghost predicate WalkIsSafe(s: State, i: nat)
    requires i < |s.chains|
  {
    |s.chains[i]| <= REFERENCE_BLOCKS + 1 || |s.chains[i]| - 1 - REFERENCE_BLOCKS >= s.cut
  }

  /** A run of batches after a restart. */
  ghost predicate IsAddRun(db: History, r: Rules, ss: seq<State>, batches: seq<seq<Block>>, now: real,
      coins: nat -> bool) {
    && |ss| == |batches| + 1 && ss[0] == Restarted(db)
    && (forall k | 0 <= k < |batches| ::
         && ss[k].longest < |ss[k].chains| && InMemory(ss[k].chains, ss[k].cut)
         && ss[k + 1] == AddBlocks(r, ss[k], batches[k], false, now, coins))
  }

  lemma {:induction false} CutStays(db: History, r: Rules, ss: seq<State>, batches: seq<seq<Block>>, now: real,
      coins: nat -> bool, k: nat)
    requires IsAddRun(db, r, ss, batches, now, coins) && k < |ss|
    ensures ss[k].cut == FirstLoaded(|db|)
  {
    if k > 0 {
      hide AddBlocks;
      CutStays(db, r, ss, batches, now, coins, k - 1);
      AddBlocksGrows(r, ss[k - 1], batches[k - 1], false, now, coins);
    }
  }

  /** After a restart the walk of a branch is safe exactly if its head is at most at height 21 or not
      below the block the database ended in. */
  lemma {:induction false} RestartWalk(db: History, r: Rules, ss: seq<State>, batches: seq<seq<Block>>, now: real,
      coins: nat -> bool, k: nat, i: nat)
    requires IsAddRun(db, r, ss, batches, now, coins) && k < |ss| && i < |ss[k].chains|
    ensures WalkIsSafe(ss[k], i) <==> |ss[k].chains[i]| <= REFERENCE_BLOCKS + 1 || |ss[k].chains[i]| >= |db|
  {
    hide IsAddRun;
    CutStays(db, r, ss, batches, now, coins, k);
  }

  /** With thirty stored blocks, a fork five below the newest is let in, and the walk from there runs
      out of memory. */
  lemma {:induction false} ForkAfterRestart()
    ensures var s := Restarted(Line(30));
      && InMemory(s.chains, s.cut) && s.cut == 9
      && HeadIndex(s.chains, Tag(25), 0) == 1
      && ForkPoint(s, Blk(200, 25)) == Some(s.chains[0][..25])
      && !WalkIsSafe(s.(chains := s.chains + [s.chains[0][..25]]), 1)
  {
    hide Restarted, ForkPoint, HeadIndex, Line;
    RestartedLine();
    ForksAt25(Restarted(Line(30)));
  }

  lemma {:induction false} RestartedLine()
    ensures Restarted(Line(30)).chains == [Line(30)] && Restarted(Line(30)).cut == 9
  {
    hide Line, Loaded, HashesOf;
    LineIsLoaded(30);
  }

  lemma {:induction false} ForksAt25(s: State)
    requires s.chains == [Line(30)] && s.cut == 9
    ensures InMemory(s.chains, s.cut) && HeadIndex(s.chains, Tag(25), 0) == 1
    ensures ForkPoint(s, Blk(200, 25)) == Some(Line(30)[..25])
  {
    hide Line, Children, Tag, Find, HeadIndex, HolderIndex;
    HoldsAt25(s.chains);
    TagsDiffer(200, 26);
    OneBranch(Line(30), 25);
  }

  lemma {:induction false} HoldsAt25(chains: seq<History>)
    requires chains == [Line(30)]
    ensures InMemory(chains, 9) && Find(Line(30), 9, Tag(25)) == 24
    ensures HeadIndex(chains, Tag(25), 0) == 1 && HolderIndex(chains, 9, Tag(25), 0) == 0
  {
    var c := Line(30);
    hide Line, Tag;
    TagsDiffer(30, 25);
    forall p | 9 <= p < 24 ensures c[p].hash != Tag(25) { TagsDiffer(p + 1, 25); }
    FindsFirst(c, 9, Tag(25), 24);
    hide Find;
    assert Head(chains[0]).hash == Tag(30);
  }

  lemma {:induction false} FindsFirst(c: History, from: nat, hash: Bytes, p: nat)
    requires from <= p < |c| && c[p].hash == hash && forall q | from <= q < p :: c[q].hash != hash
    ensures Find(c, from, hash) == p
  {
    var f := Find(c, from, hash);
    assert f <= p ==> f == p;
  }

  lemma {:induction false} LineIsLoaded(n: nat)
    requires 0 < n < 0x80
    ensures Loaded(Line(n)) == Line(n)
  {
    forall p | 0 <= p < n ensures Loaded(Line(n))[p] == Line(n)[p] {
      LoadedAt(Line(n), p);
      assert ReadBack(Line(n)[p]) == Line(n)[p];
    }
  }
}
