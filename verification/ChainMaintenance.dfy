/** What pruning, flushing and cutting keep, and when flushing cannot go on. */
module ChainMaintenance {
  import opened Records
  import opened ChainModel
  import opened ChainInvariants

  // ---- pruning ----

  /** Pruning keeps a subsequence: `src` names the surviving branches in order. */
  lemma {:induction false} PruneSources(chains: seq<History>, top: nat) returns (src: seq<nat>)
    ensures |src| == |Prune(chains, top)|
    ensures forall k | 0 <= k < |src| ::
      src[k] < |chains| && Prune(chains, top)[k] == chains[src[k]] && Keeps(top, chains[src[k]])
    ensures forall k, l | 0 <= k < l < |src| :: src[k] < src[l]
    ensures forall i | 0 <= i < |chains| && Keeps(top, chains[i]) :: i in src
  {
    hide Keeps;
    if chains == [] {
      src := [];
    } else {
      var n := |chains| - 1;
      var rest := PruneSources(chains[..n], top);
      SourcesGrow(chains, top, rest);
      src := if Keeps(top, chains[n]) then rest + [n] else rest;
      hide Prune;
    }
  }

  lemma {:induction false} SourcesGrow(chains: seq<History>, top: nat, rest: seq<nat>)
    requires |chains| > 0
    requires forall i | 0 <= i < |chains| - 1 && Keeps(top, chains[..|chains| - 1][i]) :: i in rest
    ensures var n := |chains| - 1;
      forall i | 0 <= i < |chains| && Keeps(top, chains[i]) :: i in if Keeps(top, chains[n]) then rest + [n] else rest
  {
    hide Keeps;
    var n := |chains| - 1;
    forall i | 0 <= i < n && Keeps(top, chains[i]) ensures i in rest { assert chains[..n][i] == chains[i]; }
  }

  /** Survivors are at most alpha below the longest branch and never above it. */
  lemma {:induction false} SurvivorHeights(top: nat, c: History)
    requires top < TWO_63 && |c| < TWO_63
    ensures Keeps(top, c) <==> |c| <= top <= |c| + 8
  {
  }

  lemma {:induction false} PruneTree(chains: seq<History>, top: nat)
    requires Tree(chains) && Leaves(chains)
    ensures Tree(Prune(chains, top)) && Leaves(Prune(chains, top))
  {
    hide SameTree, Keeps, Prune;
    var src := PruneSources(chains, top);
  }

  lemma {:induction false} PruneWindow(s: State)
    requires Window(s) && Fits(s)
    ensures var t := Pruned(s);
      && Window(t)
      && t.longest < |t.chains| && t.chains[t.longest] == s.chains[s.longest]
      && t.mark == |t.chains[t.longest]| && t.kept == |t.chains|
  {
    hide Prune, YoungBranch;
    var top := |s.chains[s.longest]|;
    var src := PruneSources(s.chains, top);
    PruneKeeps(s.chains, top, s.longest);
    forall k | 0 <= k < |src| ensures |s.chains[src[k]]| + ALPHA >= top {
      SurvivorHeights(top, s.chains[src[k]]);
    }
  }

  lemma {:induction false} PruneSound(g: Block, u: set<Block>, limit: uint32, s: State)
    requires Sound(g, u, limit, s) && Leaves(s.chains) && Fits(s)
    ensures Sound(g, u, limit, Pruned(s)) && Leaves(Pruned(s).chains)
    ensures StoredByAll(s) ==> StoredByAll(Pruned(s))
  {
    hide GoodHistory, Tree, Window, Leaves, Keeps, Prune;
    PruneTree(s.chains, |s.chains[s.longest]|);
    PruneWindow(s);
    var src := PruneSources(s.chains, |s.chains[s.longest]|);
  }

  // ---- the stem ----

  /** All branches run through the first h blocks of the longest one. */
  ghost predicate Stem(s: State, h: nat) {
    && s.longest < |s.chains| && h <= |s.chains[s.longest]|
    && (forall i | 0 <= i < |s.chains| :: s.chains[s.longest][..h] <= s.chains[i])
  }

  /** Nothing forks off at height h exactly when all branches share the next block too. */
  lemma {:induction false} StemGrows(s: State, h: nat)
    requires Tree(s.chains) && Leaves(s.chains) && Stem(s, h) && h < |s.chains[s.longest]|
    ensures |Children(s.chains, s.chains[s.longest][..h])| == 1 <==> Stem(s, h + 1)
  {
    var main := s.chains[s.longest];
    var kids := Children(s.chains, main[..h]);
    assert main[..h] < main && main[h].hash in kids;
    forall i | 0 <= i < |s.chains| ensures main[..h] < s.chains[i] {
      if i != s.longest { assert !(s.chains[i] <= main); }
    }
    if |kids| == 1 {
      SingletonSet(kids, main[h].hash);
      forall i | 0 <= i < |s.chains| ensures main[..h + 1] <= s.chains[i] {
        assert s.chains[i][h].hash in kids;
        assert SameTree(s.chains[i], main);
        assert s.chains[i][..h + 1] == main[..h + 1];
      }
    }
    if Stem(s, h + 1) {
      forall i | 0 <= i < |s.chains| ensures s.chains[i][h] == main[h] {
        assert main[..h + 1] <= s.chains[i];
        assert main[..h + 1][h] == main[h];
      }
      assert kids == {main[h].hash};
    }
  }

  lemma {:induction false} SingletonSet<T>(s: set<T>, x: T)
    requires |s| == 1 && x in s
    ensures s == {x}
  {
    assert |s - {x}| == 0;
  }

  // ---- flushing and cutting ----

  /** One turn of the flush loop at height h, when it does not crash. */
  function Turn(s: State, h: nat): State
    requires s.longest < |s.chains| && 0 < h <= |s.chains[s.longest]|
  {
    var main := s.chains[s.longest];
    s.(db := if main[h - 1].hash in s.stored then s.db else s.db + [main[h - 1]],
       stored := s.stored + {main[h - 1].hash},
       cut := if |main| - (h + 1) > SYNC_MAX_BLOCKS then h else s.cut)
  }

  /** The block at height h is marked already or is the next one to store. */
  predicate MayStore(s: State, h: nat)
    requires s.longest < |s.chains| && 0 < h <= |s.chains[s.longest]|
  {
    s.chains[s.longest][h - 1].hash in s.stored || h == |s.db| + 1
  }

  /** The loop may store height h next: below it, stem and database agree. */
  ghost predicate AtTurn(s: State, h: nat) {
    && s.cut < h && Stem(s, h)
    && s.chains[s.longest][..h - 1] <= s.db
    && (forall k | s.cut <= k < h - 1 :: s.chains[s.longest][k].hash in s.stored)
    && s.mark == |s.chains[s.longest]| && s.kept == |s.chains|
  }

  lemma {:induction false} TurnStores(g: Block, u: set<Block>, limit: uint32, s: State, h: nat)
    requires Sound(g, u, limit, s) && AtTurn(s, h)
    requires MayStore(s, h)
    ensures s.chains[s.longest][..h] <= Turn(s, h).db
    ensures s.db <= Turn(s, h).db && GoodHistory(g, u, limit, Turn(s, h).db)
    ensures |Turn(s, h).db| == |s.db| || |Turn(s, h).db| == h
  {
    hide Tree, Window, CutIsStored, HashesOf, GoodHistory;
    var main := s.chains[s.longest];
    assert MarkedIsStored(s, main);
    if main[h - 1].hash !in s.stored {
      assert s.db == main[..h - 1];
      assert s.db + [main[h - 1]] == main[..h];
      PrefixIsGood(g, u, limit, main, h);
    }
  }

  lemma {:induction false} TurnMarks(g: Block, u: set<Block>, limit: uint32, s: State, h: nat)
    requires Sound(g, u, limit, s) && AtTurn(s, h) && MayStore(s, h)
    ensures Marks(Turn(s, h))
  {
    hide GoodHistory, Leaves, Window, CutIsStored;
    var main, t := s.chains[s.longest], Turn(s, h);
    TurnStores(g, u, limit, s, h);
    assert main[h - 1].hash in HashesOf(s.chains);
    forall i | 0 <= i < |t.chains| ensures MarkedIsStored(t, t.chains[i]) {
      var c := s.chains[i];
      assert MarkedIsStored(s, c) && SameTree(c, main);
      forall p | 0 <= p < |c| && c[p].hash in t.stored ensures c[..p + 1] <= t.db {
        if c[p].hash in s.stored {
          assert c[..p + 1] <= s.db;
        } else {
          assert c[p].hash == main[h - 1].hash;
          assert c[..p + 1] == main[..h];
        }
      }
    }
  }

  lemma {:induction false} TurnSound(g: Block, u: set<Block>, limit: uint32, s: State, h: nat)
    requires Sound(g, u, limit, s) && Leaves(s.chains) && AtTurn(s, h)
    requires Stem(s, h + 1) && |s.chains[s.longest]| - h > ALPHA && MayStore(s, h)
    ensures Sound(g, u, limit, Turn(s, h)) && AtTurn(Turn(s, h), h + 1)
    ensures StoredByAll(s) ==> StoredByAll(Turn(s, h))
  {
    hide GoodHistory, Tree, Leaves, Marks, StoredByAll;
    var main, t := s.chains[s.longest], Turn(s, h);
    TurnStores(g, u, limit, s, h);
    TurnMarks(g, u, limit, s, h);
    TurnStoredByAll(s, h);
    forall i | 0 <= i < |t.chains|
      ensures |t.chains[i]| > t.cut && t.chains[i][..t.cut] == t.db[..t.cut] && t.chains[i][t.cut] == t.chains[0][t.cut]
    {
      assert main[..h + 1] <= t.chains[i] && main[..h + 1] <= t.chains[0];
      assert main[..h] <= t.db;
      if t.cut == s.cut { assert s.chains[i][..s.cut] == s.db[..s.cut]; }
    }
  }

  lemma {:induction false} TurnStoredByAll(s: State, h: nat)
    requires AtTurn(s, h) && MayStore(s, h)
    ensures StoredByAll(s) ==> StoredByAll(Turn(s, h))
  {
    var main, t := s.chains[s.longest], Turn(s, h);
    if StoredByAll(s) && main[h - 1].hash !in s.stored {
      assert s.db == main[..h - 1] && t.db == main[..h];
      forall i | 0 <= i < |t.chains| ensures t.db <= t.chains[i] {
        assert main[..h] <= t.chains[i];
      }
    }
  }

  /** The database has height d already, but the longest branch's first unmarked block is there,
      no branch has left it, and the longest is alpha ahead of it. */
  ghost predicate Diverged(s: State, d: nat)
    requires s.longest < |s.chains|
  {
    var main := s.chains[s.longest];
    && s.cut < d <= |s.db| && d + ALPHA < |main|
    && main[d - 1].hash !in s.stored && (forall k | s.cut <= k < d - 1 :: main[k].hash in s.stored)
    && Stem(s, d + 1)
  }

  /** The loop goes on at height h: one child only, and alpha below the longest. */
  predicate GoesOn(s: State, h: nat)
    requires s.longest < |s.chains| && h <= |s.chains[s.longest]|
  {
    |Children(s.chains, s.chains[s.longest][..h])| == 1 && |s.chains[s.longest]| - h > ALPHA
  }

  lemma {:induction false} FlushUnfolds(s: State, h: nat)
    requires s.longest < |s.chains| && 0 < h <= |s.chains[s.longest]|
    ensures !GoesOn(s, h) ==> Flush(s, h) == Running(s)
    ensures GoesOn(s, h) ==>
      Flush(s, h) == (if MayStore(s, h)
                      then Flush(Turn(s, h), h + 1) else Crashed)
  {
    hide Children;
    var mark := s.chains[s.longest][h - 1].hash;
    assert mark in s.stored ==> s.stored + {mark} == s.stored;
  }

  /** What a flush that ends leaves behind. */
  ghost predicate Flushed(g: Block, u: set<Block>, limit: uint32, s: State, t: State) {
    && Sound(g, u, limit, t)
    && t == s.(db := t.db, stored := t.stored, cut := t.cut)
    && s.db <= t.db && s.cut <= t.cut
    && (StoredByAll(s) ==> StoredByAll(t))
  }

  lemma {:induction false} FlushSound(g: Block, u: set<Block>, limit: uint32, s: State, h: nat)
    requires Sound(g, u, limit, s) && Leaves(s.chains) && AtTurn(s, h)
    ensures Flush(s, h).Running? ==> Flushed(g, u, limit, s, Flush(s, h).state)
    decreases |s.chains[s.longest]| - h
  {
    hide GoodHistory, Tree, Leaves, Window, CutIsStored, StoredByAll, Children, Flush;
    FlushUnfolds(s, h);
    if GoesOn(s, h) && (MayStore(s, h)) {
      StemGrows(s, h);
      TurnSound(g, u, limit, s, h);
      TurnStores(g, u, limit, s, h);
      FlushSound(g, u, limit, Turn(s, h), h + 1);
    }
  }

  /** Flushing hits the wrong-height error exactly when the surviving stem has left the
      database below its newest block. */
  lemma {:induction false} FlushCrashes(g: Block, u: set<Block>, limit: uint32, s: State, h: nat)
    requires Sound(g, u, limit, s) && Leaves(s.chains) && AtTurn(s, h)
    ensures Flush(s, h).Crashed? <==> exists d | h <= d :: Diverged(s, d)
    decreases |s.chains[s.longest]| - h
  {
    hide GoodHistory, Tree, Leaves, Window, CutIsStored, Children, Flush;
    var main := s.chains[s.longest];
    FlushUnfolds(s, h);
    if h < |main| { StemGrows(s, h); }
    if !GoesOn(s, h) {
      forall d | h <= d ensures !Diverged(s, d) {
        StemShrinks(s, d + 1, h + 1);
      }
    } else if MayStore(s, h) {
      TurnSound(g, u, limit, s, h);
      FlushCrashes(g, u, limit, Turn(s, h), h + 1);
      DivergedAfterTurn(s, h);
    } else {
      assert Diverged(s, h);
    }
  }

  lemma {:induction false} StemShrinks(s: State, n: nat, m: nat)
    requires m <= n
    ensures Stem(s, n) ==> Stem(s, m)
  {
    if Stem(s, n) {
      var main := s.chains[s.longest];
      forall i | 0 <= i < |s.chains| ensures main[..m] <= s.chains[i] {
        assert main[..n] <= s.chains[i];
        assert main[..n][..m] == main[..m];
      }
    }
  }

  lemma {:induction false} DivergedAfterTurn(s: State, h: nat)
    requires AtTurn(s, h) && Stem(s, h + 1)
    requires MayStore(s, h)
    ensures (exists d | h <= d :: Diverged(s, d)) <==> (exists d | h + 1 <= d :: Diverged(Turn(s, h), d))
  {
    var main, t := s.chains[s.longest], Turn(s, h);
    if main[h - 1].hash in s.stored {
      assert forall d | h <= d :: Diverged(s, d) ==> h + 1 <= d && Diverged(t, d);
      assert forall d | h + 1 <= d :: Diverged(t, d) ==> Diverged(s, d);
    }
  }

  // ---- maintain ----

  lemma {:induction false} PrunedAtTurn(g: Block, u: set<Block>, limit: uint32, s: State)
    requires Sound(g, u, limit, s) && Leaves(s.chains) && Fits(s)
    ensures Sound(g, u, limit, Pruned(s)) && Leaves(Pruned(s).chains) && AtTurn(Pruned(s), s.cut + 1)
  {
    hide GoodHistory, Tree, Leaves, Prune, YoungBranch, StoredByAll;
    PruneSound(g, u, limit, s);
    PruneWindow(s);
    var t := Pruned(s);
    var main := t.chains[t.longest];
    forall i | 0 <= i < |t.chains| ensures main[..s.cut + 1] <= t.chains[i] {
      assert main[..s.cut] == t.chains[i][..s.cut] && main[s.cut] == t.chains[0][s.cut] == t.chains[i][s.cut];
      assert main[..s.cut + 1] == main[..s.cut] + [main[s.cut]];
    }
    assert main[..s.cut] <= t.db;
  }

  /** One maintenance keeps all invariants, keeps the longest branch and only extends the
      database; it fails exactly when the pruned stem has diverged from the database. */
  lemma {:induction false} MaintainSound(g: Block, u: set<Block>, limit: uint32, s: State)
    requires Sound(g, u, limit, s) && Leaves(s.chains) && Fits(s)
    requires s.longest < |s.chains| && s.cut < |s.chains[s.longest]| && Pruned(s).longest < |Pruned(s).chains|
    ensures Maintain(s).Crashed? <==> exists d :: Diverged(Pruned(s), d)
    ensures Maintain(s).Running? ==>
      var t := Maintain(s).state;
      && Sound(g, u, limit, t) && Leaves(t.chains) && s.db <= t.db && s.cut <= t.cut
      && t.chains == Pruned(s).chains && t.longest == Pruned(s).longest
    ensures StoredByAll(s) ==> Maintain(s).Running? && StoredByAll(Maintain(s).state)
  {
    hide Sound, Leaves, Flush, Prune, StoredByAll, Stem, Children;
    PrunedAtTurn(g, u, limit, s);
    PruneSound(g, u, limit, s);
    FlushSound(g, u, limit, Pruned(s), s.cut + 1);
    FlushCrashes(g, u, limit, Pruned(s), s.cut + 1);
    if StoredByAll(s) { StoredNeverDiverges(Pruned(s)); }
  }

  lemma {:induction false} StoredNeverDiverges(s: State)
    requires StoredByAll(s) && s.longest < |s.chains|
    ensures forall d :: !Diverged(s, d)
  {
    assert s.db <= s.chains[s.longest];
  }
}
