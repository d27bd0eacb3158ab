/** What every block on every branch and in the database has passed, in every run. */
module ChainChecks {
  import opened Records
  import opened Difficulty
  import opened ChainModel
  import opened ChainInvariants
  import opened ChainMaintenance
  import opened ChainRuns

  // ---- the checks, read off a history ----

  /** The difficulty of the block at position p: the limit for the first blocks, and then what the
      intervals to its parent and from there to the block twenty below make of the parent's. */
  ghost predicate RightTarget(r: Rules, c: History, p: nat)
    requires 0 < p < |c|
  {
    var b, head := c[p], c[p - 1];
    if p <= 21 then b.header.target == r.limit
    else
      var tail := c[p - 21];
      var scale := r.scale(b.header.time - head.header.time, head.header.time - tail.header.time);
      Expresses(b.header.target, Min(Rescaled(DiffOf(head), scale), TargetToDiff(r.limit)))
  }

  /** The block at position p is well formed, follows its parent, has done its work and carries valid
      evidence under its root. */
  ghost predicate BlockChecked(r: Rules, c: History, p: nat)
    requires 0 < p < |c|
  {
    var b, head := c[p], c[p - 1];
    && r.blockOk(b) && b.header.lastHash == head.hash && b.header.time >= head.header.time
    && r.pow(b) < TargetToDiff(b.header.target)
    && RightTarget(r, c, p)
    && (!b.HasEmptyRoot() ==> r.rootOf(b.evds) == b.header.root && forall e | e in b.evds :: r.evidenceOk(e))
  }

  ghost predicate Checked(r: Rules, c: History) {
    forall p | 0 < p < |c| :: BlockChecked(r, c, p)
  }

  ghost predicate StateChecked(r: Rules, s: State) {
    (forall i | 0 <= i < |s.chains| :: Checked(r, s.chains[i])) && Checked(r, s.db)
  }

  // ---- they hold of what is accepted ----

  lemma {:induction false} AcceptedTarget(r: Rules, c: History, b: Block)
    requires |c| > 0 && b.header.target == NextTarget(r, c, b.header.time)
    ensures RightTarget(r, c + [b], |c|)
  {
    if |c| > 21 {
      var head, tail := Head(c), c[|c| - 21];
      var scale := r.scale(b.header.time - head.header.time, head.header.time - tail.header.time);
      assert (c + [b])[|c|] == b && (c + [b])[|c| - 1] == head && (c + [b])[|c| - 21] == tail;
      hide CalculateTarget, Expresses, TargetToDiff, Rescaled;
      RetargetExactly(r.limit, head.header.target, scale);
    }
  }

  lemma {:induction false} EarlierChecked(r: Rules, c: History, d: History, p: nat)
    requires c <= d && 0 < p < |c|
    ensures BlockChecked(r, c, p) <==> BlockChecked(r, d, p)
  {
    hide Expresses, TargetToDiff, Rescaled;
    assert c[p] == d[p] && c[p - 1] == d[p - 1];
    if p > 21 { assert c[p - 21] == d[p - 21]; }
  }

  lemma {:induction false} AcceptedChecked(r: Rules, s: State, c: History, b: Block, now: real)
    requires |c| > 0 && s.cut <= |c| && Accepts(r, s, c, b, now) && Checked(r, c)
    ensures Checked(r, c + [b])
  {
    hide RightTarget, NextTarget;
    AcceptedTarget(r, c, b);
    forall p | 0 < p < |c| + 1 ensures BlockChecked(r, c + [b], p) {
      if p < |c| { EarlierChecked(r, c, c + [b], p); }
    }
  }

  lemma {:induction false} PrefixChecked(r: Rules, c: History, d: History)
    requires Checked(r, d) && c <= d
    ensures Checked(r, c)
  {
    hide BlockChecked;
    forall p | 0 < p < |c| ensures BlockChecked(r, c, p) { EarlierChecked(r, c, d, p); }
  }

  // ---- and are kept by every step ----

  lemma {:induction false} ExtendChecked(r: Rules, s: State, i: nat, blocks: seq<Block>, now: real)
    requires i < |s.chains| && InMemory(s.chains, s.cut) && StateChecked(r, s)
    ensures StateChecked(r, Extend(r, s, i, blocks, now).0)
    decreases |blocks|
  {
    hide Checked, Accepts;
    if blocks != [] && Accepts(r, s, s.chains[i], blocks[0], now) {
      AcceptedChecked(r, s, s.chains[i], blocks[0], now);
      ExtendChecked(r, Append(s, i, blocks[0]), i, blocks[1..], now);
    }
  }

  lemma {:induction false} BatchChecked(r: Rules, s: State, i: nat, blocks: seq<Block>, local: bool, now: real,
      coins: nat -> bool)
    requires i < |s.chains| && InMemory(s.chains, s.cut) && StateChecked(r, s)
    ensures StateChecked(r, Batch(r, s, i, blocks, local, now, coins))
  {
    hide Checked, Extend;
    ExtendShape(r, s, i, blocks, now);
    ExtendChecked(r, s, i, blocks, now);
  }

  lemma {:induction false} AddBlocksChecked(r: Rules, s: State, blocks: seq<Block>, local: bool, now: real,
      coins: nat -> bool)
    requires InMemory(s.chains, s.cut) && StateChecked(r, s)
    ensures StateChecked(r, AddBlocks(r, s, blocks, local, now, coins))
  {
    hide Checked, Batch, ForkPoint, HeadIndex;
    if blocks != [] && Receiver(s, blocks[0]).Some? {
      var (s0, i) := Receiver(s, blocks[0]).value;
      if ForkPoint(s, blocks[0]).Some? {
        var k, n := ForkShape(s, blocks[0]);
        PrefixChecked(r, s.chains[k][..n], s.chains[k]);
      }
      BatchChecked(r, s0, i, blocks, local, now, coins);
    }
  }

  /** Flushing leaves the database as it is or makes it a prefix of the longest branch. */
  lemma {:induction false} FlushedFrom(g: Block, u: set<Block>, limit: uint32, s: State, h: nat)
    requires Sound(g, u, limit, s) && Leaves(s.chains) && AtTurn(s, h) && Flush(s, h).Running?
    ensures Flush(s, h).state.db == s.db || Flush(s, h).state.db <= s.chains[s.longest]
    decreases |s.chains[s.longest]| - h
  {
    hide GoodHistory, Tree, Leaves, Window, CutIsStored, Marks, Children, Flush;
    FlushUnfolds(s, h);
    if GoesOn(s, h) && MayStore(s, h) {
      StemGrows(s, h);
      TurnSound(g, u, limit, s, h);
      FlushedFrom(g, u, limit, Turn(s, h), h + 1);
      TurnDb(g, u, limit, s, h);
    }
  }

  lemma {:induction false} TurnDb(g: Block, u: set<Block>, limit: uint32, s: State, h: nat)
    requires Sound(g, u, limit, s) && AtTurn(s, h) && MayStore(s, h)
    ensures Turn(s, h).db == s.db || Turn(s, h).db <= s.chains[s.longest]
  {
    hide Sound;
    var main := s.chains[s.longest];
    if main[h - 1].hash !in s.stored {
      assert s.db == main[..h - 1];
      assert s.db + [main[h - 1]] == main[..h];
    }
  }

  lemma {:induction false} MaintainChecked(g: Block, u: set<Block>, r: Rules, s: State)
    requires Sound(g, u, r.limit, s) && Leaves(s.chains) && Fits(s) && StateChecked(r, s)
    requires s.longest < |s.chains| && s.cut < |s.chains[s.longest]| && Maintain(s).Running?
    ensures StateChecked(r, Maintain(s).state)
  {
    hide GoodHistory, Tree, Leaves, Window, CutIsStored, Marks, Checked, Flush, Prune, HashesOf, Fits, StoredByAll;
    PrunedAtTurn(g, u, r.limit, s);
    FlushSound(g, u, r.limit, Pruned(s), s.cut + 1);
    FlushedFrom(g, u, r.limit, Pruned(s), s.cut + 1);
    var src := PruneSources(s.chains, |s.chains[s.longest]|);
    var p, t := Pruned(s), Maintain(s).state;
    if t.db != p.db { PrefixChecked(r, t.db, p.chains[p.longest]); }
  }

  /** In every state of every run, every block after genesis on every listed branch and in the
      database has passed all checks against its own history. */
  lemma {:induction false} RunChecked(g: Block, u: set<Block>, r: Rules, ss: seq<State>, steps: seq<Step>, k: nat)
    requires IsRun(g, u, r, ss, steps) && k < |ss|
    ensures StateChecked(r, ss[k])
  {
    hide HashIdentity, ChecksBlocks, Sound, Leaves, Fits, AddBlocks, Maintain, ForkRefused, Checked;
    if k == 0 {
      GenesisChecked(g, r);
    } else {
      RunChecked(g, u, r, ss, steps, k - 1);
      RunSound(g, u, r, ss, steps, k - 1);
      assert Next(r, ss[k - 1], steps[k - 1], ss[k]) && Fits(ss[k - 1]);
      match steps[k - 1] {
        case Add(blocks, local, now, coins) => AddBlocksChecked(r, ss[k - 1], blocks, local, now, coins);
        case Maintenance => MaintainChecked(g, u, r, ss[k - 1]);
      }
    }
  }

  lemma {:induction false} GenesisChecked(g: Block, r: Rules)
    ensures StateChecked(r, Genesis(g))
  {
  }

  /** The same, block by block: work, order of times, root and evidence. */
  lemma {:induction false} EveryBlockIsChecked(g: Block, u: set<Block>, r: Rules, ss: seq<State>, steps: seq<Step>,
      k: nat, i: nat, p: nat)
    requires IsRun(g, u, r, ss, steps) && k < |ss| && i < |ss[k].chains| && 0 < p < |ss[k].chains[i]|
    ensures var c := ss[k].chains[i];
      && r.pow(c[p]) < TargetToDiff(c[p].header.target) && c[p].header.time >= c[p - 1].header.time
      && RightTarget(r, c, p)
      && (!c[p].HasEmptyRoot() ==>
           r.rootOf(c[p].evds) == c[p].header.root && forall e | e in c[p].evds :: r.evidenceOk(e))
  {
    hide IsRun, RightTarget;
    RunChecked(g, u, r, ss, steps, k);
    assert BlockChecked(r, ss[k].chains[i], p);
  }

  // ---- the one check against the clock ----

  /** Blocks that a batch adds are at most three seconds ahead of its time. */
  lemma {:induction false} ExtendTimely(r: Rules, s: State, i: nat, blocks: seq<Block>, now: real, p: nat)
    requires i < |s.chains| && InMemory(s.chains, s.cut)
    ensures var c := Extend(r, s, i, blocks, now).0.chains;
      i < |c| && (|s.chains[i]| <= p < |c[i]| ==> c[i][p].header.time as real <= now + 3.0)
    decreases |blocks|
  {
    hide NextTarget, EvidenceAccepted;
    ExtendShape(r, s, i, blocks, now);
    if blocks != [] && Accepts(r, s, s.chains[i], blocks[0], now) {
      var t := Append(s, i, blocks[0]);
      ExtendShape(r, t, i, blocks[1..], now);
      ExtendTimely(r, t, i, blocks[1..], now, p);
    }
  }

  // ---- evidence ----

  /** While the database is a prefix of all branches, evidence is accepted on a branch exactly if it is
      valid and no block of the whole branch carries it. */
  lemma {:induction false} EvidenceAcceptedExactly(r: Rules, s: State, i: nat, e: Evidence)
    requires StoredByAll(s) && CutIsStored(s) && i < |s.chains| && AllWellFormed(s.chains[i])
    ensures EvidenceAccepted(r, s, s.chains[i], e) <==> r.evidenceOk(e) && e.hash !in EvidenceIn(s.chains[i])
  {
    var c := s.chains[i];
    assert s.db <= c;
    forall p | 0 <= p < |c| && e.hash in EvidenceOf(c[p])
      ensures e.hash in EvidenceIn(c[s.cut..]) || e.hash in StoredEvidence(s.db)
    {
      assert WellFormed(c[p]);
      if p >= s.cut { assert c[s.cut..][p - s.cut] == c[p]; } else { assert s.db[p] == c[p]; }
    }
    if e.hash in EvidenceIn(c[s.cut..]) {
      var p :| 0 <= p < |c[s.cut..]| && e.hash in EvidenceOf(c[s.cut..][p]);
      assert c[s.cut + p] == c[s.cut..][p];
    }
    if e.hash in StoredEvidence(s.db) {
      var p :| 0 <= p < |s.db| && !s.db[p].HasEmptyRoot() && e.hash in EvidenceOf(s.db[p]);
      assert c[p] == s.db[p];
    }
  }

  /** While the database is a prefix of all branches, a block is accepted exactly if it is well formed, not
      too far ahead, a timely successor of the head with the right target, its work done, and all its
      evidence valid, under its root, and on no block of the whole branch. */
  lemma {:induction false} AcceptedExactly(r: Rules, s: State, i: nat, b: Block, now: real)
    requires StoredByAll(s) && CutIsStored(s) && i < |s.chains| && AllWellFormed(s.chains[i])
    ensures var c := s.chains[i];
      Accepts(r, s, c, b, now) <==>
        && r.blockOk(b) && b.header.lastHash == Head(c).hash
        && Head(c).header.time <= b.header.time && b.header.time as real <= now + 3.0
        && b.header.target == NextTarget(r, c, b.header.time) && r.pow(b) < TargetToDiff(b.header.target)
        && (b.header.root == EMPTY_EVIDENCE_ROOT ||
            (r.rootOf(b.evds) == b.header.root
             && forall e | e in b.evds :: r.evidenceOk(e) && e.hash !in EvidenceIn(c)))
  {
    hide NextTarget, TargetToDiff, EvidenceAccepted, EvidenceIn, StoredByAll, CutIsStored, AllWellFormed;
    MemoryOf(s, i);
    forall e | e in b.evds
      ensures EvidenceAccepted(r, s, s.chains[i], e) <==> r.evidenceOk(e) && e.hash !in EvidenceIn(s.chains[i])
    {
      EvidenceAcceptedExactly(r, s, i, e);
    }
  }

  lemma {:induction false} MemoryOf(s: State, i: nat)
    requires CutIsStored(s) && i < |s.chains|
    ensures s.cut < |s.chains[i]|
  {
  }
}
