/** The cache that answers queries about blocks, evidence and accounts (core/qcache.go). */
module QueryCache {
  import opened Records
  import opened ChainModel
  import opened ChainInvariants
  import opened ChainMemory
  import opened ChainRuns
  import opened Database
  import opened BlockTree
  import opened Chain

  datatype BlockInfo = BlockInfo(block: Block, height: nat, hash: Bytes)

  datatype EvidenceInfo = EvidenceInfo(evidence: Evidence, height: nat, blockHash: Bytes, time: int64)

  /** What an account submitted and how many blocks it mined. */
  datatype Account = Account(evds: seq<Bytes>, score: nat)

  // ---- where the stored part of the longest branch ends ----

  /** When the database is a prefix of every branch, the unstored blocks of a branch are exactly
      those above the database. */
  lemma {:induction false} UnstoredIsAboveDatabase(s: State, i: nat)
    requires StoredByAll(s) && Marks(s) && CutIsStored(s) && i < |s.chains|
    ensures s.cut <= |s.chains[i]| && StoredTop(s.chains[i], s.stored, s.cut) == |s.db| && s.chains[i][..|s.db|] == s.db
  {
    hide HashesOf, StoredTop;
    var c := s.chains[i];
    assert s.db <= c && MarkedIsStored(s, c);
    forall p | 0 <= p < |c| ensures c[p].hash in s.stored <==> p < |s.db| {
      if c[p].hash in s.stored { assert c[..p + 1] <= s.db; }
      if p < |s.db| { assert c[p] == s.db[p]; }
    }
    StoredTopIs(c, s.stored, s.cut, |s.db|);
  }

  lemma {:induction false} ScoreSplits(a: History, b: History, miner: Bytes)
    ensures Score(a + b, miner) == Score(a, miner) + Score(b, miner)
  {
    if b == [] {
      assert a + b == a;
    } else {
      var n := |b| - 1;
      assert (a + b)[..|a + b| - 1] == a + b[..n];
      ScoreSplits(a, b[..n], miner);
    }
  }

  lemma {:induction false} ScoreOfOne(b: Block, miner: Bytes)
    ensures Score([b], miner) == if b.header.miner == miner then 1 else 0
  {
    assert [b][..0] == [];
  }

  // ---- what the cache has of the blocks above the first f of a history ----

  /** The blocks, newest first. */
  ghost predicate Lists(sorted: seq<BlockInfo>, c: History, f: nat) {
    && f <= |c| && |sorted| == |c| - f
    && (forall k | 0 <= k < |sorted| ::
         sorted[k] == BlockInfo(c[|c| - 1 - k], |c| - k, c[|c| - 1 - k].hash))
  }

  /** Every listed block is found under its hash, and nothing else is. */
  ghost predicate Indexes(blocks: map<Bytes, BlockInfo>, sorted: seq<BlockInfo>) {
    && (forall k | 0 <= k < |sorted| :: sorted[k].hash in blocks)
    && (forall h | h in blocks :: blocks[h] in sorted && blocks[h].hash == h)
  }

  function AccountOf(accounts: map<Bytes, Account>, key: Bytes): Account {
    if key in accounts then accounts[key] else Account([], 0)
  }

  /** The miners' blocks are counted. */
  ghost predicate Counts(accounts: map<Bytes, Account>, bs: History) {
    forall m :: AccountOf(accounts, m).score == Score(bs, m)
  }

  /** How many pieces of this owner with this hash there are. */
  function Pieces(evds: seq<Evidence>, key: Bytes, hash: Bytes): nat {
    if evds == [] then 0
    else
      var e := evds[|evds| - 1];
      Pieces(evds[..|evds| - 1], key, hash) + if e.pubKey == key && e.hash == hash then 1 else 0
  }

  function PiecesIn(bs: History, key: Bytes, hash: Bytes): nat {
    if bs == [] then 0 else PiecesIn(bs[..|bs| - 1], key, hash) + Pieces(bs[|bs| - 1].evds, key, hash)
  }

  /** Some block has evidence of this owner with this hash. */
  ghost predicate Owned(bs: History, key: Bytes, hash: Bytes) {
    exists p | 0 <= p < |bs| :: HasAccount(bs[p].evds, key, hash)
  }

  lemma {:induction false} PiecesSplit(a: History, b: History, key: Bytes, hash: Bytes)
    ensures PiecesIn(a + b, key, hash) == PiecesIn(a, key, hash) + PiecesIn(b, key, hash)
  {
    if b == [] {
      assert a + b == a;
    } else {
      var n := |b| - 1;
      assert (a + b)[..|a + b| - 1] == a + b[..n];
      PiecesSplit(a, b[..n], key, hash);
    }
  }

  lemma {:induction false} PiecesOfOne(b: Block, key: Bytes, hash: Bytes)
    ensures PiecesIn([b], key, hash) == Pieces(b.evds, key, hash)
  {
    assert [b][..0] == [];
  }

  lemma {:induction false} PiecesAreHeld(evds: seq<Evidence>, key: Bytes, hash: Bytes)
    ensures Pieces(evds, key, hash) > 0 <==> HasAccount(evds, key, hash)
  {
    if evds != [] {
      var n := |evds| - 1;
      PiecesAreHeld(evds[..n], key, hash);
      assert evds == evds[..n] + [evds[n]];
      if HasAccount(evds[..n], key, hash) {
        var e :| e in evds[..n] && e.pubKey == key && e.hash == hash;
        assert e in evds;
      }
    }
  }

  lemma {:induction false} PiecesAreOwned(bs: History, key: Bytes, hash: Bytes)
    ensures PiecesIn(bs, key, hash) > 0 <==> Owned(bs, key, hash)
  {
    if bs != [] {
      hide HasAccount;
      var n := |bs| - 1;
      assert bs == bs[..n] + [bs[n]];
      PiecesAreOwned(bs[..n], key, hash);
      PiecesAreHeld(bs[n].evds, key, hash);
      if Owned(bs[..n], key, hash) {
        var p :| 0 <= p < n && HasAccount(bs[..n][p].evds, key, hash);
        assert HasAccount(bs[p].evds, key, hash);
      }
      if Owned(bs, key, hash) {
        var p :| 0 <= p < |bs| && HasAccount(bs[p].evds, key, hash);
        if p < n { assert bs[..n][p] == bs[p]; }
      }
    }
  }

  /** How often a hash is in an account's list. */
  function TimesListed(accounts: map<Bytes, Account>, key: Bytes, hash: Bytes): nat {
    multiset(AccountOf(accounts, key).evds)[hash]
  }

  /** The owners' evidence is listed, piece by piece. */
  ghost predicate Owns(accounts: map<Bytes, Account>, bs: History) {
    forall m, h :: TimesListed(accounts, m, h) == PiecesIn(bs, m, h)
  }

  /** The info tells of a piece of evidence with this hash in the block at position p. */
  ghost predicate IsInfo(info: EvidenceInfo, hash: Bytes, c: History, p: nat) {
    && p < |c| && info.evidence in c[p].evds && info.evidence.hash == hash
    && info.height == p + 1 && info.blockHash == c[p].hash && info.time == c[p].header.time
  }

  ghost predicate Tells(info: EvidenceInfo, hash: Bytes, c: History, f: nat) {
    exists p | f <= p < |c| :: IsInfo(info, hash, c, p)
  }

  /** Every piece of evidence is found under its hash, and nothing else is. */
  ghost predicate Knows(evidences: map<Bytes, EvidenceInfo>, c: History, f: nat)
    requires f <= |c|
  {
    && evidences.Keys == EvidenceIn(c[f..])
    && (forall h | h in evidences :: Tells(evidences[h], h, c, f))
  }

  ghost predicate Filled(c: History, f: nat, blocks: map<Bytes, BlockInfo>, sorted: seq<BlockInfo>,
      accounts: map<Bytes, Account>, evidences: map<Bytes, EvidenceInfo>) {
    && Lists(sorted, c, f) && Indexes(blocks, sorted)
    && Counts(accounts, c[f..]) && Owns(accounts, c[f..]) && Knows(evidences, c, f)
  }

  lemma {:induction false} NothingFilled(c: History)
    ensures Filled(c, |c|, map[], [], map[], map[])
  {
  }

  // ---- one more block ----

  /** Pieces of evidence have been added to their owners' lists. */
  ghost predicate Given(accounts: map<Bytes, Account>, owners: map<Bytes, Account>, evds: seq<Evidence>) {
    && (forall m :: AccountOf(owners, m).score == AccountOf(accounts, m).score)
    && (forall m, h ::
         TimesListed(owners, m, h) == TimesListed(accounts, m, h) + Pieces(evds, m, h))
  }

  /** Pieces of evidence of a block have been put under their hashes. */
  ghost predicate Learnt(known: map<Bytes, EvidenceInfo>, infos: map<Bytes, EvidenceInfo>, evds: seq<Evidence>,
      b: Block, height: nat)
  {
    && infos.Keys == known.Keys + HashesOfEvidence(evds)
    && (forall h | h in known && h !in HashesOfEvidence(evds) :: infos[h] == known[h])
    && (forall h | h in HashesOfEvidence(evds) :: IsOf(infos[h], h, b, height))
  }

  lemma {:induction false} GiveOne(accounts: map<Bytes, Account>, owners: map<Bytes, Account>, evds: seq<Evidence>,
      i: nat)
    requires i < |evds| && Given(accounts, owners, evds[..i])
    ensures var account := AccountOf(owners, evds[i].pubKey);
      Given(accounts, owners[evds[i].pubKey := account.(evds := account.evds + [evds[i].hash])], evds[..i + 1])
  {
    hide Pieces, TimesListed;
    var e, account := evds[i], AccountOf(owners, evds[i].pubKey);
    var more := owners[e.pubKey := account.(evds := account.evds + [e.hash])];
    forall m, h ensures TimesListed(more, m, h) == TimesListed(accounts, m, h) + Pieces(evds[..i + 1], m, h) {
      OneMorePiece(evds, i, m, h);
      OneMoreListed(owners, e, m, h);
    }
  }

  lemma {:induction false} OneMoreListed(owners: map<Bytes, Account>, e: Evidence, key: Bytes, hash: Bytes)
    ensures var account := AccountOf(owners, e.pubKey);
      TimesListed(owners[e.pubKey := account.(evds := account.evds + [e.hash])], key, hash) ==
        TimesListed(owners, key, hash) + if e.pubKey == key && e.hash == hash then 1 else 0
  {
    var account := AccountOf(owners, e.pubKey);
    assert multiset(account.evds + [e.hash]) == multiset(account.evds) + multiset{e.hash};
  }

  lemma {:induction false} LearnOne(known: map<Bytes, EvidenceInfo>, infos: map<Bytes, EvidenceInfo>, i: nat,
      b: Block, height: nat)
    requires i < |b.evds| && Learnt(known, infos, b.evds[..i], b, height)
    ensures var e := b.evds[i];
      Learnt(known, infos[e.hash := EvidenceInfo(e, height, b.hash, b.header.time)], b.evds[..i + 1], b, height)
  {
    hide HashesOfEvidence;
    OneMorePiece(b.evds, i, [], []);
  }

  /** The evidence of one block goes under its hashes and to its owners. */
  method CacheBlock(accounts: map<Bytes, Account>, known: map<Bytes, EvidenceInfo>, b: Block, height: nat)
    returns (owners: map<Bytes, Account>, infos: map<Bytes, EvidenceInfo>)
    ensures Given(accounts, owners, b.evds) && Learnt(known, infos, b.evds, b, height)
  {
    owners, infos := accounts, known;
    NothingHeld();
    assert b.evds[..0] == [];
    for i := 0 to |b.evds|
      invariant Given(accounts, owners, b.evds[..i]) && Learnt(known, infos, b.evds[..i], b, height)
    {
      hide Given, Learnt;
      var e := b.evds[i];
      GiveOne(accounts, owners, b.evds, i);
      LearnOne(known, infos, i, b, height);
      infos := infos[e.hash := EvidenceInfo(e, height, b.hash, b.header.time)];
      var account := AccountOf(owners, e.pubKey);
      owners := owners[e.pubKey := account.(evds := account.evds + [e.hash])];
    }
    assert b.evds[..|b.evds|] == b.evds;
  }

  ghost predicate IsOf(info: EvidenceInfo, hash: Bytes, b: Block, height: nat) {
    && info.evidence in b.evds && info.evidence.hash == hash
    && info.height == height && info.blockHash == b.hash && info.time == b.header.time
  }

  function HashesOfEvidence(evds: seq<Evidence>): set<Bytes> {
    set e | e in evds :: e.hash
  }

  lemma {:induction false} NothingHeld()
    ensures forall m, h :: Pieces([], m, h) == 0
    ensures HashesOfEvidence([]) == {}
  {
  }

  lemma {:induction false} SameHashes(b: Block)
    ensures EvidenceOf(b) == HashesOfEvidence(b.evds)
  {
  }

  lemma {:induction false} OneMorePiece(evds: seq<Evidence>, i: nat, key: Bytes, hash: Bytes)
    requires i < |evds|
    ensures Pieces(evds[..i + 1], key, hash) ==
      Pieces(evds[..i], key, hash) + if evds[i].pubKey == key && evds[i].hash == hash then 1 else 0
    ensures HashesOfEvidence(evds[..i + 1]) == HashesOfEvidence(evds[..i]) + {evds[i].hash}
  {
    assert evds[..i + 1][..i] == evds[..i];
    assert evds[..i + 1] == evds[..i] + [evds[i]];
  }

  lemma {:induction false} CountOne(before: map<Bytes, Account>, owners: map<Bytes, Account>, c: History, f: nat)
    requires f < |c| && Counts(before, c[f + 1..]) && Given(before, owners, c[f].evds)
    ensures Counts(Mined(owners, c[f].header.miner), c[f..])
  {
    hide Score;
    assert c[f..] == [c[f]] + c[f + 1..];
    forall m ensures Score(c[f..], m) == Score(c[f + 1..], m) + if c[f].header.miner == m then 1 else 0 {
      ScoreSplits([c[f]], c[f + 1..], m);
      ScoreOfOne(c[f], m);
    }
  }

  /** One more block for a miner. */
  function Mined(accounts: map<Bytes, Account>, miner: Bytes): map<Bytes, Account> {
    accounts[miner := AccountOf(accounts, miner).(score := AccountOf(accounts, miner).score + 1)]
  }

  lemma {:induction false} OwnOne(before: map<Bytes, Account>, owners: map<Bytes, Account>, c: History, f: nat)
    requires f < |c| && Owns(before, c[f + 1..]) && Given(before, owners, c[f].evds)
    ensures Owns(Mined(owners, c[f].header.miner), c[f..])
  {
    hide Pieces, PiecesIn;
    var accounts := Mined(owners, c[f].header.miner);
    assert c[f..] == [c[f]] + c[f + 1..];
    forall m, h ensures TimesListed(accounts, m, h) == PiecesIn(c[f..], m, h) {
      PiecesSplit([c[f]], c[f + 1..], m, h);
      PiecesOfOne(c[f], m, h);
      assert AccountOf(accounts, m).evds == AccountOf(owners, m).evds;
    }
  }

  lemma {:induction false} KnowOne(before: map<Bytes, EvidenceInfo>, infos: map<Bytes, EvidenceInfo>, c: History,
      f: nat)
    requires f < |c| && Knows(before, c, f + 1) && Learnt(before, infos, c[f].evds, c[f], f + 1)
    ensures Knows(infos, c, f)
  {
    hide EvidenceIn, EvidenceOf, HashesOfEvidence;
    assert EvidenceOf(c[f]) == HashesOfEvidence(c[f].evds) by { SameHashes(c[f]); }
    assert c[f..] == [c[f]] + c[f + 1..];
    EvidenceSplit(c[f], c[f + 1..]);
    forall h | h in infos ensures Tells(infos[h], h, c, f) {
      if h in EvidenceOf(c[f]) {
        assert IsInfo(infos[h], h, c, f);
      } else {
        assert Tells(before[h], h, c, f + 1);
        var p :| f + 1 <= p < |c| && IsInfo(before[h], h, c, p);
        assert IsInfo(infos[h], h, c, p);
      }
    }
  }

  lemma {:induction false} IndexOne(blocks: map<Bytes, BlockInfo>, sorted: seq<BlockInfo>, info: BlockInfo)
    requires Indexes(blocks, sorted)
    ensures Indexes(blocks[info.hash := info], sorted + [info])
  {
    var more := sorted + [info];
    assert more[|sorted|] == info;
    forall h | h in blocks ensures blocks[h] in more { assert blocks[h] in sorted; }
  }

  /** One more block, when its evidence has been cached. */
  lemma {:induction false} FillOne(c: History, f: nat, blocks: map<Bytes, BlockInfo>, sorted: seq<BlockInfo>,
      before: map<Bytes, Account>, known: map<Bytes, EvidenceInfo>, owners: map<Bytes, Account>,
      infos: map<Bytes, EvidenceInfo>)
    requires f < |c| && Filled(c, f + 1, blocks, sorted, before, known)
    requires Given(before, owners, c[f].evds) && Learnt(known, infos, c[f].evds, c[f], f + 1)
    ensures var info := BlockInfo(c[f], f + 1, c[f].hash);
      Filled(c, f, blocks[info.hash := info], sorted + [info], Mined(owners, c[f].header.miner), infos)
  {
    hide Counts, Indexes, Owns, Knows, Given, Learnt, Mined;
    CountOne(before, owners, c, f);
    OwnOne(before, owners, c, f);
    KnowOne(known, infos, c, f);
    IndexOne(blocks, sorted, BlockInfo(c[f], f + 1, c[f].hash));
  }

  // ---- the cache ----

  datatype Answer = Hit(info: BlockInfo) | Miss | Panic

  class QCache {
    var blocks: map<Bytes, BlockInfo>
    var sorted: seq<BlockInfo>
    var begin: nat
    var end: nat
    var accounts: map<Bytes, Account>
    var evidences: map<Bytes, EvidenceInfo>

    /** The cache is about the blocks of history c above the first f. */
    ghost predicate Holds(c: History, f: nat)
      reads this
    {
      && Filled(c, f, blocks, sorted, accounts, evidences)
      && (if f == |c| then begin == end == 0 else begin == f + 1 && end == |c|)
    }

    constructor ()
      ensures blocks == map[] && sorted == [] && begin == end == 0 && accounts == map[] && evidences == map[]
    {
      blocks, sorted, begin, end, accounts, evidences := map[], [], 0, 0, map[], map[];
    }

    /** Fills the cache anew from the chain. */
    method Fill(chain: BlockChain)
      requires chain.Valid()
      modifies this
      ensures var s := chain.abs;
        Holds(s.chains[s.longest], StoredTop(s.chains[s.longest], s.stored, s.cut))
    {
      hide Filled, StoredTop, Given, Learnt, Mined;
      ghost var c := chain.abs.chains[chain.abs.longest];
      var bs, heights;
      bs, heights := chain.GetUnstoredBlocks();
      var latest: map<Bytes, BlockInfo> := map[];
      var list: seq<BlockInfo> := [];
      var owners: map<Bytes, Account> := map[];
      var infos: map<Bytes, EvidenceInfo> := map[];
      NothingFilled(c);
      for i := 0 to |bs|
        invariant Filled(c, |c| - i, latest, list, owners, infos)
      {
        var more, news := CacheBlock(owners, infos, bs[i], heights[i]);
        FillOne(c, |c| - i - 1, latest, list, owners, infos, more, news);
        var info := BlockInfo(bs[i], heights[i], bs[i].hash);
        latest, list := latest[bs[i].hash := info], list + [info];
        owners, infos := Mined(more, bs[i].header.miner), news;
      }
      blocks, sorted, accounts, evidences := latest, list, owners, infos;
      begin, end := 0, 0;
      if |bs| != 0 { end, begin := heights[0], heights[|heights| - 1]; }
    }

    /** Fills the cache anew if the last time is more than twenty seconds ago. */
    method Refresh(chain: BlockChain, due: bool)
      requires chain.Valid()
      modifies this
      ensures due ==>
        var s := chain.abs;
        Holds(s.chains[s.longest], StoredTop(s.chains[s.longest], s.stored, s.cut))
      ensures !due ==> unchanged(this)
    {
      hide QCache.Holds, StoredTop;
      if due { Fill(chain); }
    }

    /** The block at a height, from the cache or else from the database. With an empty cache
        height 0 looks like a cached one, and the lookup fails. */
    method FindBlock(db: BlockStore, height: uint64, ghost c: History, ghost f: nat) returns (r: Answer)
      requires db.Valid() && Holds(c, f)
      ensures r == if f < height <= |c| then Hit(BlockInfo(c[height - 1], height, c[height - 1].hash))
                   else if height == 0 && f == |c| then Panic
                   else if 1 <= height <= |db.blocks|
                   then Hit(BlockInfo(ReadBack(db.blocks[height - 1]), height, db.blocks[height - 1].hash))
                   else Miss
    {
      hide BlockStore.Valid, Indexes, Counts, Owns, Knows, ReadBack;
      if begin <= height <= end {
        if end - height >= |sorted| { return Panic; }
        return Hit(sorted[end - height]);
      }
      var b := db.GetBlockViaHeight(height);
      var h := db.GetHash(height);
      if b.None? { return Miss; }
      return Hit(BlockInfo(b.value, height, h.value));
    }

    /** What the cache and the database have of an account: cached pieces one by one, and the
        entries of the scan once each. */
    method FindAccount(db: BlockStore, key: Bytes, ghost c: History, ghost f: nat)
      returns (evds: seq<Bytes>, score: nat)
      requires db.Valid() && Holds(c, f) && |key| == PUB_KEY_LENGTH
      ensures score == Score(db.blocks, key) + Score(c[f..], key)
      ensures forall h ::
        multiset(evds)[h] == PiecesIn(c[f..], key, h) + if InScan(db.blocks, key, h) then 1 else 0
    {
      hide BlockStore.Valid, Indexes, Lists, Knows, Score, PiecesIn, InScan;
      var account := AccountOf(accounts, key);
      assert forall h :: multiset(account.evds)[h] == TimesListed(accounts, key, h);
      var stored := db.GetEvidenceViaKey(key);
      var list := Listed(stored.Keys);
      evds := account.evds + list;
      var points := db.GetScoreViaKey(key);
      score := account.score + points;
    }

    /** A piece of evidence with its block, from the cache or else from the database. */
    method FindEvidence(db: BlockStore, hash: Bytes, ghost c: History, ghost f: nat) returns (r: Option<EvidenceInfo>)
      requires db.Valid() && Holds(c, f)
      ensures r.Some? <==> hash in EvidenceIn(c[f..]) || HeightOfEvidence(db.blocks, hash) > 0
      ensures r.Some? ==> Tells(r.value, hash, c, f) || Tells(r.value, hash, db.blocks, 0)
    {
      hide BlockStore.Valid, Indexes, Lists, Counts, Owns, EvidenceIn, HeightOfEvidence, LastWith, Tells;
      if hash in evidences { return Some(evidences[hash]); }
      var found := db.GetEvidenceViaHash(hash);
      if found.None? { return None; }
      var (e, height) := found.value;
      var header := db.GetHeaderViaHeight(height);
      r := Some(EvidenceInfo(e, height, header.value.1, header.value.0.time));
      TellsAt(r.value, hash, db.blocks, height - 1);
    }

    // ---- queries; each refreshes the cache first ----

    /** Refreshes the cache, or leaves it as it was at state j of the run. */
    method Renew(chain: BlockChain, due: bool, ghost run: ShallowTrace, ghost j: nat)
      requires chain.Valid() && run.Reaches(chain.genesis, chain.universe, chain.rules, chain.abs)
      requires !due ==> j <= run.k && HoldsState(run.ss[j])
      modifies this
      ensures HoldsState(run.Filled(due, j))
    {
      hide StoredTop, IsRun, ShallowRun, QCache.Holds, InStep, Laws, Leaves, Score, Owned, InScan, EvidenceIn;
      Refresh(chain, due);
      if due {
        RunFacts(chain.genesis, chain.universe, chain.rules, run, run.k, [], []);
      }
    }

    /** The cache is about the unstored blocks of the longest branch of a state. */
    ghost predicate HoldsState(s: State)
      reads this
    {
      s.longest < |s.chains| && |s.db| <= |s.chains[s.longest]| && Holds(s.chains[s.longest], |s.db|)
    }

    /** In every state of every run without deep forks, whether the cache is fresh or was filled in
        an earlier state of the run: the block at a height, exactly. */
    method GetBlockViaHeight(chain: BlockChain, height: uint64, due: bool, ghost run: ShallowTrace, ghost j: nat)
      returns (r: Answer)
      requires chain.Valid() && run.Reaches(chain.genesis, chain.universe, chain.rules, chain.abs)
      requires !due ==> j <= run.k && HoldsState(run.ss[j])
      modifies this
      ensures var s, t := run.Filled(due, j), chain.abs;
        && s.longest < |s.chains|
        && var main := s.chains[s.longest];
        && |s.db| <= |main| && s.db <= t.db
        && r == if |s.db| < height <= |main| then Hit(BlockInfo(main[height - 1], height, main[height - 1].hash))
                else if height == 0 && |s.db| == |main| then Panic
                else if 1 <= height <= |t.db|
                then Hit(BlockInfo(ReadBack(t.db[height - 1]), height, t.db[height - 1].hash))
                else Miss
      ensures due ==>
        var main := chain.abs.chains[chain.abs.longest];
        && (height > |main| ==> r == Miss)
        && (1 <= height <= |main| ==>
             && r.Hit? && r.info.height == height && r.info.hash == main[height - 1].hash
             && (r.info.block == main[height - 1] <==> height > |chain.abs.db| || OneEach(main[height - 1].evds)))
    {
      hide BlockStore.Valid, ReadBack, OneEach, IsRun, ShallowRun, QCache.Holds, InStep, Laws, Leaves, Score, Owned,
           InScan, EvidenceIn, PiecesIn, ReadBack;
      Renew(chain, due, run, j);
      ghost var s := run.Filled(due, j);
      CachedBefore(chain.genesis, chain.universe, chain.rules, run, if due then run.k else j, []);
      RunFacts(chain.genesis, chain.universe, chain.rules, run, run.k, [], []);
      r := FindBlock(chain.db, height, s.chains[s.longest], |s.db|);
      if due && 1 <= height <= |s.db| {
        StoredBlock(chain.genesis, chain.universe, chain.rules, run, s, height - 1);
      }
    }

    /** The score of an account. A fresh cache counts every block of the longest branch the account
        mined, once; an older one counts those of the branch at that time, and again those of the
        blocks stored since. The list has every cached piece and every entry of the scan; with a
        fresh cache it has exactly the hashes of the account's evidence on the longest branch if and
        only if no entry of another family has a key that begins with the account's prefix. */
    method GetAccount(chain: BlockChain, key: Bytes, due: bool, ghost run: ShallowTrace, ghost j: nat)
      returns (evds: seq<Bytes>, score: nat)
      requires chain.Valid() && run.Reaches(chain.genesis, chain.universe, chain.rules, chain.abs)
      requires (!due ==> j <= run.k && HoldsState(run.ss[j])) && |key| == PUB_KEY_LENGTH
      modifies this
      ensures var s, t := run.Filled(due, j), chain.abs;
        && s.longest < |s.chains| && |s.db| <= |s.chains[s.longest]| && s.db <= t.db
        && score == Score(s.chains[s.longest], key) + Score(t.db[|s.db|..], key)
        && (forall h :: multiset(evds)[h] ==
             PiecesIn(s.chains[s.longest][|s.db|..], key, h) + if InScan(t.db, key, h) then 1 else 0)
      ensures due ==>
        var main := chain.abs.chains[chain.abs.longest];
        && score == Score(main, key)
        && ((forall h :: h in evds <==> Owned(main, key, h)) <==> forall a :: Stray(chain.abs.db, key, a) == None)
    {
      hide BlockStore.Valid, IsRun, ShallowRun, QCache.Holds, InStep, Laws, Leaves, Score, Owned, InScan, EvidenceIn,
           PiecesIn, Stray, HeightOfAccount;
      Renew(chain, due, run, j);
      ghost var s := run.Filled(due, j);
      CachedBefore(chain.genesis, chain.universe, chain.rules, run, if due then run.k else j, key);
      RunFacts(chain.genesis, chain.universe, chain.rules, run, run.k, key, []);
      evds, score := FindAccount(chain.db, key, s.chains[s.longest], |s.db|);
      if due { ListIsExact(chain.genesis, chain.universe, chain.rules, run, key, evds); }
    }

    /** Evidence is found in the cached blocks or the stored ones, with a block that carries it; with
        a fresh cache, exactly if it is on the longest branch. */
    method GetEvidence(chain: BlockChain, hash: Bytes, due: bool, ghost run: ShallowTrace, ghost j: nat)
      returns (r: Option<EvidenceInfo>)
      requires chain.Valid() && run.Reaches(chain.genesis, chain.universe, chain.rules, chain.abs)
      requires !due ==> j <= run.k && HoldsState(run.ss[j])
      modifies this
      ensures var s, t := run.Filled(due, j), chain.abs;
        && s.longest < |s.chains| && |s.db| <= |s.chains[s.longest]|
        && (r.Some? <==> hash in EvidenceIn(s.chains[s.longest][|s.db|..]) || HeightOfEvidence(t.db, hash) > 0)
        && (r.Some? ==> Tells(r.value, hash, s.chains[s.longest], |s.db|) || Tells(r.value, hash, t.db, 0))
      ensures due ==>
        var main := chain.abs.chains[chain.abs.longest];
        (r.Some? <==> hash in EvidenceIn(main)) && (r.Some? ==> Tells(r.value, hash, main, 0))
    {
      hide BlockStore.Valid, IsRun, ShallowRun, QCache.Holds, InStep, Laws, Leaves, Score, Owned, InScan, EvidenceIn,
           PiecesIn, Tells, HeightOfEvidence;
      Renew(chain, due, run, j);
      ghost var s := run.Filled(due, j);
      CachedBefore(chain.genesis, chain.universe, chain.rules, run, if due then run.k else j, []);
      RunFacts(chain.genesis, chain.universe, chain.rules, run, run.k, [], hash);
      r := FindEvidence(chain.db, hash, s.chains[s.longest], |s.db|);
      if due && r.Some? { TellsMore(r.value, hash, s); }
    }
  }

  /** A state of a run in which no fork goes below the newest stored block. */
  datatype ShallowTrace = ShallowTrace(ss: seq<State>, steps: seq<Step>, k: nat)
  {
    ghost predicate Reaches(g: Block, u: set<Block>, r: Rules, s: State) {
      IsRun(g, u, r, ss, steps) && ShallowRun(ss, steps) && k < |ss| && s == ss[k]
    }

    /** The state a cache was filled in: this one if it is due, else state j. */
    ghost function Filled(due: bool, j: nat): State
      requires k < |ss| && (!due ==> j <= k)
    {
      ss[if due then k else j]
    }
  }

  /** The elements of a set in any order, once each. */
  method Listed(hs: set<Bytes>) returns (list: seq<Bytes>)
    ensures forall h :: multiset(list)[h] == if h in hs then 1 else 0
  {
    list := [];
    var todo := hs;
    while todo != {}
      invariant todo <= hs && forall h :: multiset(list)[h] == if h in hs && h !in todo then 1 else 0
    {
      var h :| h in todo;
      list, todo := list + [h], todo - {h};
    }
  }

  lemma {:induction false} TellsAt(info: EvidenceInfo, hash: Bytes, c: History, p: nat)
    requires IsInfo(info, hash, c, p)
    ensures Tells(info, hash, c, 0)
  {
  }

  lemma {:induction false} TellsMore(info: EvidenceInfo, hash: Bytes, s: State)
    requires s.longest < |s.chains| && s.db <= s.chains[s.longest]
    requires Tells(info, hash, s.chains[s.longest], |s.db|) || Tells(info, hash, s.db, 0)
    ensures Tells(info, hash, s.chains[s.longest], 0)
  {
    var main := s.chains[s.longest];
    if Tells(info, hash, main, |s.db|) {
      var p :| |s.db| <= p < |main| && IsInfo(info, hash, main, p);
      TellsAt(info, hash, main, p);
    } else {
      var p :| 0 <= p < |s.db| && IsInfo(info, hash, s.db, p);
      assert main[p] == s.db[p];
      TellsAt(info, hash, main, p);
    }
  }

  // ---- cached and stored blocks together are the longest branch ----

  lemma {:induction false} OwnedSplits(a: History, b: History, key: Bytes, hash: Bytes)
    ensures Owned(a + b, key, hash) <==> Owned(a, key, hash) || Owned(b, key, hash)
  {
    hide HasAccount;
    if Owned(a, key, hash) {
      var p :| 0 <= p < |a| && HasAccount(a[p].evds, key, hash);
      assert (a + b)[p] == a[p];
    }
    if Owned(b, key, hash) {
      var p :| 0 <= p < |b| && HasAccount(b[p].evds, key, hash);
      assert (a + b)[|a| + p] == b[p];
    }
  }

  /** With well-formed blocks, the database knows what an account owns. */
  lemma {:induction false} OwnedIsStored(db: History, key: Bytes, hash: Bytes)
    requires AllWellFormed(db)
    ensures Owned(db, key, hash) <==> |hash| == HASH_LENGTH && HeightOfAccount(db, key, hash) > 0
  {
    forall p | 0 <= p < |db| ensures HasAccount(db[p].evds, key, hash) <==> CarriesFrom(db[p], key, hash) {
      assert WellFormed(db[p]);
    }
    forall p | 0 <= p < |db| && HasAccount(db[p].evds, key, hash) ensures |hash| == HASH_LENGTH {
      assert WellFormed(db[p]);
    }
  }

  lemma {:induction false} EvidenceSplits(a: History, b: History)
    ensures EvidenceIn(a + b) == EvidenceIn(a) + EvidenceIn(b)
  {
    forall h | h in EvidenceIn(a) ensures h in EvidenceIn(a + b) {
      var p :| 0 <= p < |a| && h in EvidenceOf(a[p]);
      assert (a + b)[p] == a[p];
    }
    forall h | h in EvidenceIn(b) ensures h in EvidenceIn(a + b) {
      var p :| 0 <= p < |b| && h in EvidenceOf(b[p]);
      assert (a + b)[|a| + p] == b[p];
    }
  }

  lemma {:induction false} EvidenceIsStored(db: History, hash: Bytes)
    requires AllWellFormed(db)
    ensures hash in EvidenceIn(db) <==> HeightOfEvidence(db, hash) > 0
  {
    forall p | 0 <= p < |db| ensures hash in EvidenceOf(db[p]) <==> Carries(db[p], hash) {
      assert WellFormed(db[p]);
    }
  }

  /** What a run gives the queries in its state k. */
  lemma {:induction false} RunFacts(g: Block, u: set<Block>, r: Rules, run: ShallowTrace, k: nat, key: Bytes,
      hash: Bytes)
    requires IsRun(g, u, r, run.ss, run.steps) && ShallowRun(run.ss, run.steps) && k < |run.ss|
    ensures var s := run.ss[k];
      && s.longest < |s.chains|
      && var main := s.chains[s.longest];
      && s.cut <= |main| && StoredTop(main, s.stored, s.cut) == |s.db| && s.db <= main
      && Score(s.db, key) + Score(main[|s.db|..], key) == Score(main, key)
      && (Owned(main, key, hash) <==>
           PiecesIn(main[|s.db|..], key, hash) > 0 || (|hash| == HASH_LENGTH && HeightOfAccount(s.db, key, hash) > 0))
      && (Owned(main, key, hash) ==> |hash| == HASH_LENGTH)
      && (hash in EvidenceIn(main) <==> hash in EvidenceIn(main[|s.db|..]) || HeightOfEvidence(s.db, hash) > 0)
  {
    hide IsRun, ShallowRun, StoredByAll, Score, Owned, HeightOfAccount, HeightOfEvidence, EvidenceIn, Leaves, Tree,
         Window, Marks, CutIsStored, Maintain, StoredTop, Linked, EvidenceOnce, AllWellFormed, DifficultyWindow,
         PiecesIn;
    RunSound(g, u, r, run.ss, run.steps, k);
    ShallowRunsNeverCrash(g, u, r, run.ss, run.steps, k);
    var s := run.ss[k];
    UnstoredIsAboveDatabase(s, s.longest);
    var main := s.chains[s.longest];
    var rest := main[|s.db|..];
    assert main == s.db + rest;
    assert GoodHistory(g, u, r.limit, main);
    ScoreSplits(s.db, rest, key);
    OwnedSplits(s.db, rest, key, hash);
    PiecesAreOwned(rest, key, hash);
    OwnedIsStored(s.db, key, hash);
    OwnedIsStored(main, key, hash);
    EvidenceSplits(s.db, rest);
    EvidenceIsStored(s.db, hash);
  }

  /** What was cached in an earlier state j is still there to be counted. */
  lemma {:induction false} CachedBefore(g: Block, u: set<Block>, r: Rules, run: ShallowTrace, j: nat, key: Bytes)
    requires IsRun(g, u, r, run.ss, run.steps) && ShallowRun(run.ss, run.steps) && j <= run.k < |run.ss|
    ensures var s, t := run.ss[j], run.ss[run.k];
      && s.longest < |s.chains| && |s.db| <= |s.chains[s.longest]| && s.db <= t.db
      && Score(t.db, key) + Score(s.chains[s.longest][|s.db|..], key)
         == Score(s.chains[s.longest], key) + Score(t.db[|s.db|..], key)
  {
    hide IsRun, ShallowRun, Score, Owned, HeightOfAccount, HeightOfEvidence, EvidenceIn, PiecesIn, StoredTop;
    RunFacts(g, u, r, run, j, key, []);
    RunIsMonotone(g, u, r, run.ss, run.steps, j, run.k);
    var s, t := run.ss[j], run.ss[run.k];
    assert t.db == s.db + t.db[|s.db|..];
    ScoreSplits(s.db, t.db[|s.db|..], key);
  }

  lemma {:induction false} ListIsExact(g: Block, u: set<Block>, r: Rules, run: ShallowTrace, key: Bytes,
      evds: seq<Bytes>)
    requires IsRun(g, u, r, run.ss, run.steps) && ShallowRun(run.ss, run.steps) && run.k < |run.ss|
    requires |key| == PUB_KEY_LENGTH
    requires var s := run.ss[run.k];
      && s.longest < |s.chains| && |s.db| <= |s.chains[s.longest]|
      && forall h :: multiset(evds)[h] ==
           PiecesIn(s.chains[s.longest][|s.db|..], key, h) + if InScan(s.db, key, h) then 1 else 0
    ensures var s := run.ss[run.k];
      (forall h :: h in evds <==> Owned(s.chains[s.longest], key, h)) <==> forall a :: Stray(s.db, key, a) == None
  {
    hide IsRun, ShallowRun, Score, Owned, HeightOfAccount, HeightOfEvidence, EvidenceIn, PiecesIn, StoredTop, Stray;
    var s := run.ss[run.k];
    var main := s.chains[s.longest];
    StraysAreShort(s.db, key);
    forall h
      ensures h in evds <==> Owned(main, key, h) || Stray(s.db, key, h).Some?
      ensures Owned(main, key, h) ==> |h| == HASH_LENGTH
    {
      RunFacts(g, u, r, run, run.k, key, h);
      assert h in evds <==> multiset(evds)[h] > 0;
    }
  }

  lemma {:induction false} StoredBlock(g: Block, u: set<Block>, r: Rules, run: ShallowTrace, s: State, p: nat)
    requires run.Reaches(g, u, r, s) && p < |s.db| && s.longest < |s.chains| && s.db <= s.chains[s.longest]
    ensures s.db[p] == s.chains[s.longest][p]
    ensures ReadBack(s.db[p]).hash == s.db[p].hash && (ReadBack(s.db[p]) == s.db[p] <==> OneEach(s.db[p].evds))
  {
    hide IsRun, ShallowRun, Leaves, Tree, Window, Marks, CutIsStored, Linked, EvidenceOnce, DifficultyWindow;
    RunSound(g, u, r, run.ss, run.steps, run.k);
    assert WellFormed(s.db[p]);
    ReadBackExactly(s.db[p]);
  }
}
