/** Safety over whole runs of the chain from genesis. */
module ChainRuns {
  import opened Records
  import opened Difficulty
  import opened ChainModel
  import opened ChainInvariants
  import opened ChainMaintenance

  /** The public operations that change the chain; each runs under the branch lock. */
  datatype Step =
    | Add(blocks: seq<Block>, local: bool, now: real, coins: nat -> bool)
    | Maintenance

  ghost predicate Next(r: Rules, s: State, step: Step, t: State) {
    && s.longest < |s.chains| && InMemory(s.chains, s.cut)
    && match step
       case Add(blocks, local, now, coins) => t == AddBlocks(r, s, blocks, local, now, coins)
       case Maintenance => Maintain(s) == Running(t)
  }

  /** A new branch accepts its first block, and only blocks of the run are submitted. */
  ghost predicate Orderly(r: Rules, u: set<Block>, s: State, step: Step)
    requires InMemory(s.chains, s.cut)
  {
    step.Add? ==>
      && (forall b | b in step.blocks :: b in u)
      && !ForkRefused(r, s, step.blocks, step.now)
  }

  /** No branch is opened below the newest stored block. */
  ghost predicate Shallow(s: State, step: Step)
    requires InMemory(s.chains, s.cut)
  {
    step.Add? ==> !DeepFork(s, step.blocks)
  }

  /** A run: the states ss, each reached from the one before by a step. */
  ghost predicate IsRun(g: Block, u: set<Block>, r: Rules, ss: seq<State>, steps: seq<Step>) {
    && HashIdentity(g, u) && ChecksBlocks(r) && WellFormed(g)
    && |ss| == |steps| + 1 && ss[0] == Genesis(g)
    && (forall k | 0 <= k < |steps| ::
         && Next(r, ss[k], steps[k], ss[k + 1])
         && Fits(ss[k])
         && Orderly(r, u, ss[k], steps[k]))
  }

  ghost predicate ShallowRun(ss: seq<State>, steps: seq<Step>)
    requires |ss| == |steps| + 1
  {
    forall k | 0 <= k < |steps| :: InMemory(ss[k].chains, ss[k].cut) && Shallow(ss[k], steps[k])
  }

  /** One step keeps the invariants; the longest branch never gets shorter and the
      database only grows at its end. */
  lemma {:induction false} StepSound(g: Block, u: set<Block>, r: Rules, s: State, step: Step, t: State)
    requires HashIdentity(g, u) && ChecksBlocks(r) && Fits(s)
    requires Sound(g, u, r.limit, s) && Leaves(s.chains)
    requires Next(r, s, step, t) && Orderly(r, u, s, step)
    ensures Sound(g, u, r.limit, t) && Leaves(t.chains)
    ensures s.longest < |s.chains| && t.longest < |t.chains|
    ensures |s.chains[s.longest]| <= |t.chains[t.longest]| && s.db <= t.db
  {
    hide Leaves, AddBlocks, Maintain, ForkRefused;
    match step {
      case Add(blocks, local, now, coins) =>
        AddBlocksGrows(r, s, blocks, local, now, coins);
        AddBlocksSound(g, u, r, s, blocks, local, now, coins);
      case Maintenance =>
        PruneWindow(s);
        MaintainSound(g, u, r.limit, s);
    }
  }

  /** Every state of every run satisfies the invariants. */
  lemma {:induction false} RunSound(g: Block, u: set<Block>, r: Rules, ss: seq<State>, steps: seq<Step>, k: nat)
    requires IsRun(g, u, r, ss, steps) && k < |ss|
    ensures Sound(g, u, r.limit, ss[k]) && Leaves(ss[k].chains)
  {
    hide Sound, Leaves, Next, Orderly, ChecksBlocks;
    if k == 0 {
      GenesisSound(g, u, r.limit);
    } else {
      RunSound(g, u, r, ss, steps, k - 1);
      StepSound(g, u, r, ss[k - 1], steps[k - 1], ss[k]);
    }
  }

  // ---- what the invariants say about every run ----

  /** No evidence is on a branch twice, counting blocks that only the database still has. */
  lemma {:induction false} EvidenceIsNeverRepeated(g: Block, u: set<Block>, r: Rules, ss: seq<State>,
      steps: seq<Step>, k: nat, i: nat, p: nat, q: nat)
    requires IsRun(g, u, r, ss, steps) && k < |ss|
    requires i < |ss[k].chains| && p < q < |ss[k].chains[i]|
    ensures EvidenceOf(ss[k].chains[i][p]) !! EvidenceOf(ss[k].chains[i][q])
  {
    hide IsRun;
    RunSound(g, u, r, ss, steps, k);
    assert GoodHistory(g, u, r.limit, ss[k].chains[i]);
  }

  /** Along every branch the difficulty stays under the limit and never halves twice at once. */
  lemma {:induction false} DifficultyStaysInWindow(g: Block, u: set<Block>, r: Rules, ss: seq<State>,
      steps: seq<Step>, k: nat, i: nat, p: nat)
    requires IsRun(g, u, r, ss, steps) && k < |ss|
    requires i < |ss[k].chains| && 0 < p < |ss[k].chains[i]|
    ensures DiffOf(ss[k].chains[i][p]) <= TargetToDiff(r.limit)
    ensures p > REFERENCE_BLOCKS + 1 ==> DiffOf(ss[k].chains[i][p - 1]) / 2 <= DiffOf(ss[k].chains[i][p])
  {
    hide IsRun;
    RunSound(g, u, r, ss, steps, k);
    assert GoodHistory(g, u, r.limit, ss[k].chains[i]);
  }

  /** The twenty steps back that a retarget takes never leave memory, on any branch, in any
      state of any run, whatever was forked, pruned and cut before. */
  lemma {:induction false} RetargetWalkIsSafe(g: Block, u: set<Block>, r: Rules, ss: seq<State>, steps: seq<Step>,
      k: nat, i: nat)
    requires IsRun(g, u, r, ss, steps) && k < |ss| && i < |ss[k].chains|
    requires |ss[k].chains[i]| > REFERENCE_BLOCKS + 1
    ensures |ss[k].chains[i]| - 1 - REFERENCE_BLOCKS >= ss[k].cut
  {
    hide IsRun, GoodHistory, Tree, Leaves;
    RunSound(g, u, r, ss, steps, k);
    WalkStaysInMemory(ss[k], i);
  }

  /** The longest pointer names a listed branch, its height never drops, and the database is
      append-only. */
  lemma {:induction false} RunIsMonotone(g: Block, u: set<Block>, r: Rules, ss: seq<State>, steps: seq<Step>, j: nat,
      k: nat)
    requires IsRun(g, u, r, ss, steps) && j <= k < |ss|
    ensures ss[j].longest < |ss[j].chains| && ss[k].longest < |ss[k].chains|
    ensures ss[k].lastHeight <= |ss[k].chains[ss[k].longest]|
    ensures |ss[j].chains[ss[j].longest]| <= |ss[k].chains[ss[k].longest]|
    ensures ss[j].db <= ss[k].db
    decreases k
  {
    hide IsRun, Sound, Leaves;
    RunStep(g, u, r, ss, steps, k);
    if j < k {
      RunStep(g, u, r, ss, steps, k - 1);
      RunIsMonotone(g, u, r, ss, steps, j, k - 1);
    }
  }

  lemma {:induction false} RunStep(g: Block, u: set<Block>, r: Rules, ss: seq<State>, steps: seq<Step>, k: nat)
    requires IsRun(g, u, r, ss, steps) && k < |ss|
    ensures Sound(g, u, r.limit, ss[k]) && Leaves(ss[k].chains) && Pointer(ss[k])
    ensures |ss| == |steps| + 1
    ensures k < |steps| ==>
      && Pointer(ss[k + 1])
      && |ss[k].chains[ss[k].longest]| <= |ss[k + 1].chains[ss[k + 1].longest]|
      && ss[k].db <= ss[k + 1].db
  {
    hide Leaves, GoodHistory, Tree, Window, CutIsStored, Next, Orderly, HashIdentity, ChecksBlocks;
    RunSound(g, u, r, ss, steps, k);
    if k < |steps| {
      StepSound(g, u, r, ss[k], steps[k], ss[k + 1]);
      RunSound(g, u, r, ss, steps, k + 1);
    }
  }

  /** After a batch from the network that went in completely, no listed branch is taller than
      the longest one, even if local blocks skipped the comparison before. */
  lemma {:induction false} NetworkBatchFindsTallest(g: Block, u: set<Block>, r: Rules, s: State, i: nat,
      blocks: seq<Block>, now: real, coins: nat -> bool, j: nat)
    requires HashIdentity(g, u) && ChecksBlocks(r) && Sound(g, u, r.limit, s) && InMemory(s.chains, s.cut)
    requires i < |s.chains| && blocks != [] && (forall b | b in blocks :: b in u)
    requires MayGrow(s.chains, i, blocks[0]) && Extend(r, s, i, blocks, now).1
    ensures var t := Batch(r, s, i, blocks, false, now, coins);
      t.longest < |t.chains| && (j < |t.chains| ==> |t.chains[j]| <= |t.chains[t.longest]|)
  {
    hide HashIdentity, MayGrow, ChecksBlocks;
    ExtendSound(g, u, r, s, i, blocks, now);
    hide Sound;
    NotifySound(g, u, r.limit, Extend(r, s, i, blocks, now).0, coins);
  }

  /** Every block of the batch went in, on a listed branch or a new one. */
  ghost predicate WentIn(r: Rules, s: State, blocks: seq<Block>, now: real)
    requires InMemory(s.chains, s.cut)
  {
    && blocks != [] && Receiver(s, blocks[0]).Some?
    && var (s0, i) := Receiver(s, blocks[0]).value;
    i < |s0.chains| && InMemory(s0.chains, s0.cut) && Extend(r, s0, i, blocks, now).1
  }

  /** No listed branch is taller than the longest one. */
  ghost predicate LongestIsTallest(s: State) {
    s.longest < |s.chains| && forall j | 0 <= j < |s.chains| :: |s.chains[j]| <= |s.chains[s.longest]|
  }

  lemma {:induction false} WholeBatchFindsTallest(g: Block, u: set<Block>, r: Rules, s: State, blocks: seq<Block>,
      now: real, coins: nat -> bool)
    requires HashIdentity(g, u) && ChecksBlocks(r) && Sound(g, u, r.limit, s) && Leaves(s.chains) && Fits(s)
    requires InMemory(s.chains, s.cut) && (forall b | b in blocks :: b in u) && WentIn(r, s, blocks, now)
    ensures LongestIsTallest(AddBlocks(r, s, blocks, false, now, coins))
  {
    hide HashIdentity, ChecksBlocks, Sound, Leaves, Fits, ForkPoint, HeadIndex, Extend, Batch, MayGrow;
    var (s0, i) := Receiver(s, blocks[0]).value;
    var t := Batch(r, s0, i, blocks, false, now, coins);
    ReceiverMayGrow(g, u, r.limit, s, blocks[0]);
    NetworkBatchFindsTallest(g, u, r, s0, i, blocks, now, coins, 0);
    forall j | 0 <= j < |t.chains| ensures |t.chains[j]| <= |t.chains[t.longest]| {
      NetworkBatchFindsTallest(g, u, r, s0, i, blocks, now, coins, j);
    }
  }

  lemma {:induction false} ReceiverMayGrow(g: Block, u: set<Block>, limit: uint32, s: State, b: Block)
    requires Sound(g, u, limit, s) && Leaves(s.chains) && Fits(s) && InMemory(s.chains, s.cut) && Receiver(s, b).Some?
    ensures var (s0, i) := Receiver(s, b).value;
      Sound(g, u, limit, s0) && InMemory(s0.chains, s0.cut) && i < |s0.chains| && MayGrow(s0.chains, i, b)
  {
    hide Sound, Leaves, Fits, ForkPoint, MayGrow;
    var i := HeadIndex(s.chains, b.header.lastHash, 0);
    if i < |s.chains| {
      LeavesMayGrow(s.chains, i, b);
    } else {
      ForkSound(g, u, limit, s, b);
      assert Tree(s.chains) by { TreeOf(g, u, limit, s); }
      ForkMayGrow(s, b);
      var k, n := ForkShape(s, b);
    }
  }

  lemma {:induction false} TreeOf(g: Block, u: set<Block>, limit: uint32, s: State)
    requires Sound(g, u, limit, s)
    ensures Tree(s.chains)
  {
    hide GoodHistory, Tree, Window, CutIsStored, Marks;
  }

  /** In every run, a batch from the network that went in completely leaves no listed branch taller
      than the longest one. */
  lemma {:induction false} NetworkStepFindsTallest(g: Block, u: set<Block>, r: Rules, ss: seq<State>,
      steps: seq<Step>, k: nat)
    requires IsRun(g, u, r, ss, steps) && k < |steps| && steps[k].Add? && !steps[k].local
    requires InMemory(ss[k].chains, ss[k].cut) && WentIn(r, ss[k], steps[k].blocks, steps[k].now)
    ensures LongestIsTallest(ss[k + 1])
  {
    hide HashIdentity, ChecksBlocks, Sound, Leaves, Fits, WentIn, AddBlocks, ForkRefused, LongestIsTallest;
    RunSound(g, u, r, ss, steps, k);
    WholeBatchFindsTallest(g, u, r, ss[k], steps[k].blocks, steps[k].now, steps[k].coins);
  }

  lemma {:induction false} WindowOf(g: Block, u: set<Block>, limit: uint32, s: State)
    requires Sound(g, u, limit, s)
    ensures Window(s)
  {
    hide GoodHistory, Tree, Window, CutIsStored, Marks;
  }

  // ---- what maintenance does to the tallest branch ----

  /** The greatest height of a listed branch. */
  function TallestHeight(chains: seq<History>): (h: nat)
    requires |chains| > 0
    ensures (exists j | 0 <= j < |chains| :: |chains[j]| == h) && forall j | 0 <= j < |chains| :: |chains[j]| <= h
  {
    |chains[Tallest(chains, n => false, |chains|)]|
  }

  /** A maintenance that does not fail leaves the longest branch the tallest. It makes the greatest
      listed height drop exactly if some branch was taller than the longest one before. */
  lemma {:induction false} MaintenanceAndTallest(g: Block, u: set<Block>, limit: uint32, s: State)
    requires Sound(g, u, limit, s) && Leaves(s.chains) && Fits(s)
    requires s.longest < |s.chains| && s.cut < |s.chains[s.longest]| && Maintain(s).Running?
    ensures var t := Maintain(s).state;
      && |t.chains| > 0 && LongestIsTallest(t) && TallestHeight(t.chains) == |s.chains[s.longest]|
      && (TallestHeight(t.chains) < TallestHeight(s.chains) <==> !LongestIsTallest(s))
  {
    hide Sound, Leaves, Maintain, Keeps, HashesOf;
    assert Window(s) by { WindowOf(g, u, limit, s); }
    hide Window;
    PruneWindow(s);
    MaintainSound(g, u, limit, s);
    var top := |s.chains[s.longest]|;
    var t := Maintain(s).state;
    var src := PruneSources(s.chains, top);
    forall j | 0 <= j < |t.chains| ensures |t.chains[j]| <= top {
      SurvivorHeights(top, s.chains[src[j]]);
    }
  }

  /** Right after a complete batch from the network a maintenance keeps the greatest height. */
  lemma {:induction false} NothingTallerIsPruned(g: Block, u: set<Block>, r: Rules, ss: seq<State>, steps: seq<Step>,
      k: nat)
    requires IsRun(g, u, r, ss, steps) && k + 1 < |steps| && steps[k].Add? && !steps[k].local
        && steps[k + 1].Maintenance?
    requires InMemory(ss[k].chains, ss[k].cut) && WentIn(r, ss[k], steps[k].blocks, steps[k].now)
    ensures |ss[k + 1].chains| > 0 && |ss[k + 2].chains| > 0
    ensures TallestHeight(ss[k + 2].chains) == TallestHeight(ss[k + 1].chains)
  {
    hide HashIdentity, ChecksBlocks, Sound, Leaves, Fits, WentIn, AddBlocks, Maintain, ForkRefused, TallestHeight;
    NetworkStepFindsTallest(g, u, r, ss, steps, k);
    RunSound(g, u, r, ss, steps, k + 1);
    assert Next(r, ss[k + 1], steps[k + 1], ss[k + 2]);
    MaintenanceAndTallest(g, u, r.limit, ss[k + 1]);
  }

  // ---- the database under shallow forks ----

  lemma {:induction false} ForkAndDatabase(r: Rules, s: State, blocks: seq<Block>, k: nat, n: nat, local: bool,
      now: real, coins: nat -> bool)
    requires InMemory(s.chains, s.cut) && StoredByAll(s) && s.longest < |s.chains|
    requires k < |s.chains| && s.cut < n <= |s.chains[k]|
    requires blocks != [] && blocks[0].hash !in Children(s.chains, s.chains[k][..n])
    ensures InMemory(Forked(s, s.chains[k][..n]).chains, s.cut)
    ensures StoredByAll(Batch(r, Forked(s, s.chains[k][..n]), |s.chains|, blocks, local, now, coins))
        <==> n >= |s.db|
  {
    hide Batch;
    var s0 := Forked(s, s.chains[k][..n]);
    BatchGrows(r, s0, |s.chains|, blocks, local, now, coins);
    BatchAppends(r, s0, |s.chains|, blocks, local, now, coins);
    var t := Batch(r, s0, |s.chains|, blocks, local, now, coins);
    assert s.db <= s.chains[k];
    if n < |s.db| {
      assert s.chains[k][..n] < s.chains[k];
      assert s.chains[k][n].hash in Children(s.chains, s.chains[k][..n]);
      assert !(s.db <= t.chains[|s.chains|]);
    } else {
      assert s.db <= s0.chains[|s.chains|];
    }
  }

  /** A branch opened below the newest stored block leaves the database; any other batch
      keeps the database a prefix of every branch. */
  lemma {:induction false} ForksAndDatabase(r: Rules, s: State, blocks: seq<Block>, local: bool, now: real,
      coins: nat -> bool)
    requires InMemory(s.chains, s.cut) && StoredByAll(s) && s.longest < |s.chains|
    ensures StoredByAll(AddBlocks(r, s, blocks, local, now, coins)) <==> !DeepFork(s, blocks)
  {
    hide Batch;
    if blocks != [] {
      var i := HeadIndex(s.chains, blocks[0].header.lastHash, 0);
      if i < |s.chains| {
        BatchGrows(r, s, i, blocks, local, now, coins);
      } else if ForkPoint(s, blocks[0]).Some? {
        var k, n := ForkShape(s, blocks[0]);
        ForkAndDatabase(r, s, blocks, k, n, local, now, coins);
      }
    }
  }

  lemma {:induction false} BatchAppends(r: Rules, s: State, i: nat, blocks: seq<Block>, local: bool, now: real,
      coins: nat -> bool)
    requires i < |s.chains| && InMemory(s.chains, s.cut) && blocks != []
    ensures var t := Batch(r, s, i, blocks, local, now, coins);
      |t.chains| == |s.chains| && (t.chains[i] == s.chains[i] || s.chains[i] + [blocks[0]] <= t.chains[i])
  {
    hide Accepts;
    ExtendShape(r, s, i, blocks, now);
    if Accepts(r, s, s.chains[i], blocks[0], now) {
      ExtendShape(r, Append(s, i, blocks[0]), i, blocks[1..], now);
    }
  }

  /** A fork can only be deep when the branch that justifies it lags behind the height the
      longest branch had at the last maintenance. */
  lemma {:induction false} DeepForkNeedsLaggingBranch(s: State, blocks: seq<Block>)
    requires Window(s) && InMemory(s.chains, s.cut) && Fits(s) && DeepFork(s, blocks)
    ensures |s.chains[HolderIndex(s.chains, s.cut, blocks[0].header.lastHash, 0)]| < s.mark
  {
    hide YoungBranch, Children;
  }

  /** In a run without deep forks the database is a common prefix of all branches in every
      state, and no maintenance ever meets a wrong height. */
  lemma {:induction false} ShallowRunsNeverCrash(g: Block, u: set<Block>, r: Rules, ss: seq<State>, steps: seq<Step>,
      k: nat)
    requires IsRun(g, u, r, ss, steps) && ShallowRun(ss, steps) && k < |ss|
    ensures StoredByAll(ss[k])
    ensures ss[k].longest < |ss[k].chains| && ss[k].cut < |ss[k].chains[ss[k].longest]|
    ensures Fits(ss[k]) ==> Maintain(ss[k]).Running?
  {
    hide Leaves, GoodHistory, Tree, Next, Orderly, Shallow, Maintain, StoredByAll, YoungBranch, ChecksBlocks,
         HashIdentity;
    RunSound(g, u, r, ss, steps, k);
    if k == 0 {
      StoredAtGenesis(g);
    } else {
      ShallowRunsNeverCrash(g, u, r, ss, steps, k - 1);
      RunSound(g, u, r, ss, steps, k - 1);
      StoredByAllStep(g, u, r, ss[k - 1], steps[k - 1], ss[k]);
    }
    if Fits(ss[k]) {
      PruneWindow(ss[k]);
      MaintainSound(g, u, r.limit, ss[k]);
    }
  }

  lemma {:induction false} StoredAtGenesis(g: Block)
    ensures StoredByAll(Genesis(g))
  {
  }

  lemma {:induction false} StoredByAllStep(g: Block, u: set<Block>, r: Rules, s: State, step: Step, t: State)
    requires Sound(g, u, r.limit, s) && Leaves(s.chains) && Fits(s) && StoredByAll(s)
    requires Next(r, s, step, t) && Shallow(s, step)
    ensures StoredByAll(t)
  {
    hide Leaves, AllGood, GoodHistory, Tree, DeepFork, AddBlocks, Maintain;
    match step {
      case Add(blocks, local, now, coins) => ForksAndDatabase(r, s, blocks, local, now, coins);
      case Maintenance =>
        PruneWindow(s);
        MaintainSound(g, u, r.limit, s);
    }
  }
}
