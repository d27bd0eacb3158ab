/** What a batch and a maintenance do to the chain, told without the functions that compute it. */
module ChainExact {
  import opened Records
  import opened ChainModel
  import opened ChainInvariants
  import opened ChainMaintenance
  import opened ChainRuns

  // ---- where a batch goes ----

  /** Branch i is the first one with this head. */
  ghost predicate FirstHead(s: State, hash: Bytes, i: nat)
    requires NonEmpty(s.chains)
  {
    && i < |s.chains| && Head(s.chains[i]).hash == hash
    && (forall j | 0 <= j < i :: Head(s.chains[j]).hash != hash)
  }

  ghost predicate IsHead(s: State, hash: Bytes)
    requires NonEmpty(s.chains)
  {
    exists i | 0 <= i < |s.chains| :: Head(s.chains[i]).hash == hash
  }

  /** Branch i is the first one with the block in memory, and has it at position p. */
  ghost predicate FirstHolder(s: State, hash: Bytes, i: nat, p: nat) {
    && i < |s.chains| && At(s.chains[i], s.cut, hash, p) && (forall q | s.cut <= q < p :: s.chains[i][q].hash != hash)
    && (forall j | 0 <= j < i :: !Has(s.chains[j], s.cut, hash))
  }

  /** A branch may fork off there: the head is at most eight above, and no branch goes on with the
      same block. */
  ghost predicate MayFork(s: State, b: Block, i: nat, p: nat)
    requires i < |s.chains| && p < |s.chains[i]|
  {
    && |s.chains[i]| - (p + 1) <= 8
    && (forall k | 0 <= k < |s.chains| && s.chains[i][..p + 1] < s.chains[k] :: s.chains[k][p + 1].hash != b.hash)
  }

  ghost predicate Forks(s: State, b: Block, i: nat, p: nat) {
    FirstHolder(s, b.header.lastHash, i, p) && MayFork(s, b, i, p)
  }

  lemma {:induction false} HeldExactly(c: History, from: nat, hash: Bytes)
    requires from <= |c|
    ensures Has(c, from, hash) <==> Find(c, from, hash) < |c|
  {
    if Find(c, from, hash) < |c| { assert At(c, from, hash, Find(c, from, hash)); }
  }

  /** The first holder is where the search ends. */
  lemma {:induction false} HolderExactly(s: State, hash: Bytes)
    requires InMemory(s.chains, s.cut)
    ensures var i := HolderIndex(s.chains, s.cut, hash, 0);
      && (i < |s.chains| ==> FirstHolder(s, hash, i, Find(s.chains[i], s.cut, hash)))
      && (forall j: nat, q: nat | FirstHolder(s, hash, j, q) ::
           i == j < |s.chains| && q == Find(s.chains[i], s.cut, hash))
  {
    hide HolderIndex, Find, Has;
    var i := HolderIndex(s.chains, s.cut, hash, 0);
    forall j | 0 <= j < |s.chains|
      ensures Has(s.chains[j], s.cut, hash) <==> Find(s.chains[j], s.cut, hash) < |s.chains[j]|
    {
      HeldExactly(s.chains[j], s.cut, hash);
    }
    forall j: nat, q: nat | FirstHolder(s, hash, j, q)
      ensures i == j < |s.chains| && q == Find(s.chains[i], s.cut, hash)
    {
      HeldAt(s.chains[j], s.cut, hash, q);
    }
  }

  lemma {:induction false} HeldAt(c: History, from: nat, hash: Bytes, q: nat)
    requires from <= |c| && At(c, from, hash, q)
    ensures Has(c, from, hash)
  {
  }

  lemma {:induction false} ChildExactly(chains: seq<History>, stem: History, hash: Bytes)
    ensures hash in Children(chains, stem) <==>
      exists k | 0 <= k < |chains| && stem < chains[k] :: chains[k][|stem|].hash == hash
  {
  }

  lemma {:induction false} MayForkExactly(s: State, b: Block, i: nat, p: nat)
    requires i < |s.chains| && p < |s.chains[i]|
    ensures MayFork(s, b, i, p) <==> |s.chains[i]| - (p + 1) <= 8 && b.hash !in Children(s.chains, s.chains[i][..p + 1])
  {
    hide Children;
    ChildExactly(s.chains, s.chains[i][..p + 1], b.hash);
    assert |s.chains[i][..p + 1]| == p + 1;
  }

  /** A branch is opened exactly if the parent is in memory, the first branch that has it may be
      forked there, and it starts as that branch up to the parent. */
  lemma {:induction false} ForkExactly(s: State, b: Block)
    requires InMemory(s.chains, s.cut) && Fits(s)
    ensures forall i: nat, p: nat | Forks(s, b, i, p) :: ForkPoint(s, b) == Some(s.chains[i][..p + 1])
    ensures ForkPoint(s, b).Some? ==> exists i: nat, p: nat :: Forks(s, b, i, p)
  {
    hide HolderIndex, Find, FirstHolder, Children, MayFork;
    var i := HolderIndex(s.chains, s.cut, b.header.lastHash, 0);
    HolderExactly(s, b.header.lastHash);
    if i < |s.chains| {
      var p := Find(s.chains[i], s.cut, b.header.lastHash);
      MayForkExactly(s, b, i, p);
      assert MayFork(s, b, i, p) ==> Forks(s, b, i, p);
    }
  }

  // ---- how much of a batch goes in ----

  /** The first k blocks are accepted one on top of the other, and the next one, if any, is refused. */
  ghost predicate Taken(r: Rules, s: State, c: History, blocks: seq<Block>, now: real, k: nat)
    requires |c| > 0 && s.cut <= |c| && k <= |blocks|
  {
    && (forall j | 0 <= j < k :: Accepts(r, s, c + blocks[..j], blocks[j], now))
    && (k < |blocks| ==> !Accepts(r, s, c + blocks[..k], blocks[k], now))
  }

  lemma {:induction false} ExtendExactly(r: Rules, s: State, i: nat, blocks: seq<Block>, now: real) returns (k: nat)
    requires i < |s.chains| && InMemory(s.chains, s.cut)
    ensures k <= |blocks| && Taken(r, s, s.chains[i], blocks, now, k)
    ensures Extend(r, s, i, blocks, now)
        == (s.(chains := s.chains[i := s.chains[i] + blocks[..k]]), k == |blocks|)
    decreases |blocks|
  {
    hide Accepts;
    var c := s.chains[i];
    k := 0;
    assert c + blocks[..0] == c;
    assert s.chains[i := c] == s.chains;
    if blocks != [] && Accepts(r, s, c, blocks[0], now) {
      var t := Append(s, i, blocks[0]);
      k := ExtendExactly(r, t, i, blocks[1..], now);
      TakenFromFirst(r, s, t, c, blocks, now, k);
      assert c + [blocks[0]] + blocks[1..][..k] == c + blocks[..k + 1];
      assert t.chains[i := c + blocks[..k + 1]] == s.chains[i := c + blocks[..k + 1]];
      k := k + 1;
    }
  }

  lemma {:induction false} TakenFromFirst(r: Rules, s: State, t: State, c: History, blocks: seq<Block>, now: real,
      k: nat)
    requires |c| > 0 && s.cut == t.cut <= |c| && s.db == t.db && k < |blocks|
    requires Accepts(r, s, c, blocks[0], now) && Taken(r, t, c + [blocks[0]], blocks[1..], now, k)
    ensures Taken(r, s, c, blocks, now, k + 1)
  {
    hide Accepts;
    assert c + blocks[..0] == c;
    forall j | 0 < j < |blocks|
      ensures Accepts(r, s, c + blocks[..j], blocks[j], now)
          <==> Accepts(r, t, c + [blocks[0]] + blocks[1..][..j - 1], blocks[1..][j - 1], now)
    {
      assert c + [blocks[0]] + blocks[1..][..j - 1] == c + blocks[..j];
      SameAcceptance(r, s, t, c + blocks[..j], blocks[j], now);
    }
  }

  // ---- the longest branch ----

  /** A tallest branch; of several, the last one whose coin falls for it, else the first. */
  ghost predicate Elected(chains: seq<History>, coins: nat -> bool, n: nat, i: nat)
    requires n <= |chains|
  {
    && i < n && (forall j | 0 <= j < n :: |chains[j]| <= |chains[i]|)
    && (forall j: nat | i < j < n && |chains[j]| == |chains[i]| :: !coins(j))
    && ((exists j | 0 <= j < i :: |chains[j]| == |chains[i]|) ==> coins(i))
  }

  lemma {:induction false} TallestExactly(chains: seq<History>, coins: nat -> bool, n: nat)
    requires 1 <= n <= |chains|
    ensures Elected(chains, coins, n, Tallest(chains, coins, n))
  {
    if n > 1 { TallestExactly(chains, coins, n - 1); }
  }

  /** The pointer and the height it was chosen for stay unless a listed branch is taller than that;
      then the pointer goes to the elected branch and the height becomes that branch's. */
  ghost predicate Notified(s: State, coins: nat -> bool, t: State) {
    if forall j | 0 <= j < |s.chains| :: |s.chains[j]| <= s.lastHeight then t == s
    else
      && t.longest < |s.chains| && Elected(s.chains, coins, |s.chains|, t.longest)
      && t == s.(longest := t.longest, lastHeight := |s.chains[t.longest]|)
  }

  lemma {:induction false} NotifyExactly(s: State, coins: nat -> bool)
    requires |s.chains| > 0
    ensures Notified(s, coins, Notify(s, coins))
  {
    hide Tallest;
    TallestExactly(s.chains, coins, |s.chains|);
  }

  // ---- a whole batch ----

  /** The batch goes onto branch i of s0: the accepted blocks are added to it, nothing else changes,
      and the longest branch is looked for only after a batch from the network that went in whole. */
  ghost predicate Goes(r: Rules, s0: State, i: nat, blocks: seq<Block>, local: bool, now: real, coins: nat -> bool,
      k: nat, t: State)
    requires i < |s0.chains| && InMemory(s0.chains, s0.cut)
  {
    && k <= |blocks| && Taken(r, s0, s0.chains[i], blocks, now, k)
    && var s1 := s0.(chains := s0.chains[i := s0.chains[i] + blocks[..k]]);
    if k == |blocks| && !local then Notified(s1, coins, t) else t == s1
  }

  lemma {:induction false} BatchExactly(r: Rules, s: State, i: nat, blocks: seq<Block>, local: bool, now: real,
      coins: nat -> bool) returns (k: nat)
    requires i < |s.chains| && InMemory(s.chains, s.cut)
    ensures Goes(r, s, i, blocks, local, now, coins, k, Batch(r, s, i, blocks, local, now, coins))
  {
    hide Extend, Notified, Notify, Taken;
    k := ExtendExactly(r, s, i, blocks, now);
    NotifyExactly(Extend(r, s, i, blocks, now).0, coins);
  }

  /** What a batch does in all cases. Its first block's parent is a head: the batch goes onto the
      first branch with that head. It is none, but a branch may fork off at it: the batch goes onto
      a new branch, listed last. In all other cases nothing changes. */
  lemma {:induction false} AddBlocksExactly(r: Rules, s: State, blocks: seq<Block>, local: bool, now: real,
      coins: nat -> bool) returns (k: nat)
    requires InMemory(s.chains, s.cut) && Fits(s)
    ensures var t := AddBlocks(r, s, blocks, local, now, coins);
      && (blocks == [] ==> t == s)
      && (blocks != [] ==>
           var b := blocks[0];
           && (forall i: nat | FirstHead(s, b.header.lastHash, i) :: Goes(r, s, i, blocks, local, now, coins, k, t))
           && (!IsHead(s, b.header.lastHash) ==>
                && (forall i: nat, p: nat | Forks(s, b, i, p) ::
                     var s0 := s.(chains := s.chains + [s.chains[i][..p + 1]]);
                     Goes(r, s0, |s.chains|, blocks, local, now, coins, k, t))
                && ((forall i: nat, p: nat :: !Forks(s, b, i, p)) ==> t == s)))
  {
    hide Batch, ForkPoint, HeadIndex, Goes, Forks, Fits;
    k := 0;
    if blocks != [] {
      var b := blocks[0];
      var i := HeadIndex(s.chains, b.header.lastHash, 0);
      ForkExactly(s, b);
      if i < |s.chains| {
        k := BatchExactly(r, s, i, blocks, local, now, coins);
      } else if ForkPoint(s, b).Some? {
        var j, n := ForkShape(s, b);
        k := BatchExactly(r, s.(chains := s.chains + [s.chains[j][..n]]), |s.chains|, blocks, local, now, coins);
      }
    }
  }

  /** Hence a branch is opened exactly if the parent is no head and a branch may fork off at it. */
  lemma {:induction false} OpensExactly(r: Rules, s: State, blocks: seq<Block>, local: bool, now: real,
      coins: nat -> bool)
    requires InMemory(s.chains, s.cut) && Fits(s) && blocks != []
    ensures var b := blocks[0];
      |AddBlocks(r, s, blocks, local, now, coins).chains| == |s.chains| + 1 <==>
        !IsHead(s, b.header.lastHash) && exists i: nat, p: nat :: Forks(s, b, i, p)
  {
    hide Batch, ForkPoint, HeadIndex, Forks, Fits;
    var b := blocks[0];
    ForkExactly(s, b);
    if Receiver(s, b).Some? {
      var (s0, i) := Receiver(s, b).value;
      if ForkPoint(s, b).Some? { var j, n := ForkShape(s, b); }
      var k := BatchExactly(r, s0, i, blocks, local, now, coins);
    }
  }

  // ---- maintenance ----

  /** The surviving branches are, in their order, those at most eight below the longest and not above. */
  ghost predicate Survivors(chains: seq<History>, top: nat, rest: seq<History>, src: seq<nat>) {
    && |src| == |rest| && (forall k, l | 0 <= k < l < |src| :: src[k] < src[l])
    && (forall k | 0 <= k < |src| :: src[k] < |chains| && rest[k] == chains[src[k]])
    && (forall i | 0 <= i < |chains| :: i in src <==> |chains[i]| <= top <= |chains[i]| + 8)
  }

  lemma {:induction false} PruneExactly(chains: seq<History>, top: nat) returns (src: seq<nat>)
    requires top < TWO_63 && forall i | 0 <= i < |chains| :: |chains[i]| < TWO_63
    ensures Survivors(chains, top, Prune(chains, top), src)
  {
    hide Prune, Keeps;
    src := PruneSources(chains, top);
    forall i | 0 <= i < |chains| ensures i in src <==> |chains[i]| <= top <= |chains[i]| + 8 {
      SurvivorHeights(top, chains[i]);
    }
  }

  /** Flushing from height h ends at height e: all branches run together up to it and the longest is
      at least eight ahead of it, and both is not so at the next height. */
  ghost predicate EndsAt(s: State, h: nat, e: nat)
    requires s.longest < |s.chains|
  {
    var n := |s.chains[s.longest]|;
    && h <= e <= n && Stem(s, e) && (e == h || n - e >= 8)
    && !(Stem(s, e + 1) && n - (e + 1) >= 8)
  }

  /** Then everything below e is stored, and memory starts 129 below the head of the longest branch,
      or at e, if that is further than before. */
  ghost predicate FlushedTo(s: State, h: nat, e: nat, t: State)
    requires s.longest < |s.chains| && 0 < h <= e <= |s.chains[s.longest]|
  {
    var main := s.chains[s.longest];
    var cut := if e - 1 < |main| - 130 then e - 1 else |main| - 130;
    && t == s.(db := t.db, stored := t.stored, cut := t.cut)
    && t.db == (if |s.db| < e - 1 then main[..e - 1] else s.db)
    && t.stored == s.stored + Range(main, h - 1, e - 1)
    && t.cut == if h <= cut then cut else s.cut
  }

  /** The hashes of the blocks at positions from `from` up to `to`. */
  ghost function Range(c: History, from: nat, to: nat): set<Bytes>
    requires to <= |c|
  {
    set p | from <= p < to :: c[p].hash
  }

  lemma {:induction false} FlushExactly(g: Block, u: set<Block>, limit: uint32, s: State, h: nat) returns (e: nat)
    requires Sound(g, u, limit, s) && Leaves(s.chains) && AtTurn(s, h) && Flush(s, h).Running?
    ensures EndsAt(s, h, e) && h > 0 && FlushedTo(s, h, e, Flush(s, h).state)
    decreases |s.chains[s.longest]| - h
  {
    hide GoodHistory, Tree, Leaves, Window, CutIsStored, Marks, Children, Flush, FlushedTo, EndsAt;
    FlushUnfolds(s, h);
    e := h;
    if GoesOn(s, h) {
      StemGrows(s, h);
      TurnSound(g, u, limit, s, h);
      e := FlushExactly(g, u, limit, Turn(s, h), h + 1);
      EndsLater(s, h, e);
      TurnStores(g, u, limit, s, h);
      FlushedLater(s, h, e, Flush(s, h).state);
    } else {
      EndsHere(s, h);
      FlushedHere(s, h);
    }
  }

  lemma {:induction false} EndsHere(s: State, h: nat)
    requires Tree(s.chains) && Leaves(s.chains) && Stem(s, h) && !GoesOn(s, h)
    ensures EndsAt(s, h, h)
  {
    hide Tree, Leaves, Children;
    if h < |s.chains[s.longest]| { StemGrows(s, h); }
  }

  lemma {:induction false} EndsLater(s: State, h: nat, e: nat)
    requires s.longest < |s.chains| && 0 < h <= |s.chains[s.longest]|
    requires Stem(s, h + 1) && |s.chains[s.longest]| - h > 8 && EndsAt(Turn(s, h), h + 1, e)
    ensures EndsAt(s, h, e)
  {
    assert forall x: nat :: Stem(Turn(s, h), x) <==> Stem(s, x);
  }

  lemma {:induction false} FlushedHere(s: State, h: nat)
    requires AtTurn(s, h)
    ensures FlushedTo(s, h, h, s)
  {
    assert s.stored + Range(s.chains[s.longest], h - 1, h - 1) == s.stored;
  }

  lemma {:induction false} FlushedLater(s: State, h: nat, e: nat, t: State)
    requires AtTurn(s, h) && MayStore(s, h) && h < e <= |s.chains[s.longest]|
    requires s.chains[s.longest][..h] <= Turn(s, h).db
    requires FlushedTo(Turn(s, h), h + 1, e, t)
    ensures FlushedTo(s, h, e, t)
  {
    var main := s.chains[s.longest];
    hide Stem;
    assert Range(main, h - 1, e - 1) == {main[h - 1].hash} + Range(main, h, e - 1);
  }

  /** One maintenance, in all its effects: who survives, where the pointer goes, what is stored and
      what leaves memory. */
  ghost predicate Maintained(s: State, src: seq<nat>, e: nat, t: State)
    requires s.longest < |s.chains|
  {
    var p, h := Pruned(s), s.cut + 1;
    && Survivors(s.chains, |s.chains[s.longest]|, t.chains, src)
    && p.longest < |p.chains| && p.chains[p.longest] == s.chains[s.longest] && p.chains == t.chains
    && p.db == s.db && p.cut == s.cut && EndsAt(p, h, e) && FlushedTo(p, h, e, t)
  }

  lemma {:induction false} MaintainExactly(g: Block, u: set<Block>, limit: uint32, s: State)
    returns (src: seq<nat>, e: nat)
    requires Sound(g, u, limit, s) && Leaves(s.chains) && Fits(s)
    requires s.longest < |s.chains| && s.cut < |s.chains[s.longest]| && Maintain(s).Running?
    ensures Maintained(s, src, e, Maintain(s).state)
  {
    hide Sound, Leaves, Flush, Prune, HashesOf, EndsAt, AtTurn, Survivors, Window, Stem, Range, YoungBranch;
    PrunedAtTurn(g, u, limit, s);
    WindowOf(g, u, limit, s);
    PruneWindow(s);
    src := PruneExactly(s.chains, |s.chains[s.longest]|);
    e := FlushExactly(g, u, limit, Pruned(s), s.cut + 1);
  }
}
