/** What a node answers to a peer that is behind (core/blockchain/chain.go). */
module Sync {
  import opened Records
  import opened ChainModel
  import opened ChainInvariants
  import opened Database

  datatype HashAnswer = UpToDate | Unknown | Ahead(end: Bytes, diff: uint32)

  datatype BlocksAnswer = Found(blocks: seq<Block>) | BadRange | Flushing | NotFound

  /** The longest branch is searched first, as far as it is in memory, and the database next;
      the answer is the newest block or the one 128 blocks ahead, and the distance to it. */
  function SyncHash(s: State, base: Bytes): HashAnswer
    requires s.longest < |s.chains| && s.cut < |s.chains[s.longest]|
  {
    var main := s.chains[s.longest];
    var p, h := Find(main, s.cut, base), HeightOfHash(s.db, base);
    if p == |main| - 1 then UpToDate
    else if p < |main| then Ahead(Head(main).hash, (|main| - 1 - p) % TWO_32)
    else if h == 0 then Unknown
    else if |s.db| - h >= SYNC_MAX_BLOCKS then Ahead(s.db[h + SYNC_MAX_BLOCKS - 1].hash, SYNC_MAX_BLOCKS)
    else Ahead(s.db[|s.db| - 1].hash, |s.db| - h)
  }

  function ShallowCopy(b: Block, onlyHeader: bool): Block {
    if onlyHeader then b.(evds := []) else b
  }

  function Copies(bs: seq<Block>, onlyHeader: bool): (r: seq<Block>)
    ensures |r| == |bs| && forall k | 0 <= k < |bs| :: r[k] == ShallowCopy(bs[k], onlyHeader)
  {
    seq(|bs|, k requires 0 <= k < |bs| => ShallowCopy(bs[k], onlyHeader))
  }

  function ReadBacks(bs: seq<Block>): (r: seq<Block>)
    ensures |r| == |bs| && forall k | 0 <= k < |bs| :: r[k] == ReadBack(bs[k])
  {
    seq(|bs|, k requires 0 <= k < |bs| => ReadBack(bs[k]))
  }

  lemma {:induction false} CopiesGrow(b: Block, bs: seq<Block>, onlyHeader: bool)
    ensures Copies([b] + bs, onlyHeader) == [ShallowCopy(b, onlyHeader)] + Copies(bs, onlyHeader)
    ensures Copies(bs + [b], onlyHeader) == Copies(bs, onlyHeader) + [ShallowCopy(b, onlyHeader)]
    ensures ReadBacks(bs + [b]) == ReadBacks(bs) + [ReadBack(b)]
  {
  }

  /** The blocks after `base` up to `end`, from memory if both are there, else from the database. */
  function SyncBlocks(s: State, base: Bytes, end: Bytes, onlyHeader: bool): BlocksAnswer
    requires s.longest < |s.chains| && s.cut < |s.chains[s.longest]|
  {
    var main := s.chains[s.longest];
    var p, q := Find(main, s.cut, base), Find(main, s.cut, end);
    var h, k := HeightOfHash(s.db, base), HeightOfHash(s.db, end);
    if p < |main| && q < |main| then
      if p < q then Found(Copies(main[p + 1..q + 1], onlyHeader)) else BadRange
    else if 0 < h < k then Found(Copies(ReadBacks(s.db[h..k]), onlyHeader))
    else if h > 0 && q < |main| then Flushing
    else NotFound
  }

  /** Each block names the one before it; the first names `base`, the last is `end`. */
  ghost predicate LinksUp(base: Bytes, bs: seq<Block>, end: Bytes) {
    && |bs| > 0 && bs[0].header.lastHash == base && bs[|bs| - 1].hash == end
    && (forall k | 0 < k < |bs| :: bs[k].header.lastHash == bs[k - 1].hash)
  }

  /** Copies and what the database gives back have the same headers. */
  lemma {:induction false} LinksKept(base: Bytes, bs: seq<Block>, end: Bytes, onlyHeader: bool)
    requires LinksUp(base, bs, end)
    ensures LinksUp(base, Copies(bs, onlyHeader), end) && LinksUp(base, ReadBacks(bs), end)
  {
  }

  lemma {:induction false} SliceLinks(c: History, p: nat, q: nat)
    requires Linked(c) && p < q < |c|
    ensures LinksUp(c[p].hash, c[p + 1..q + 1], c[q].hash)
  {
    var bs := c[p + 1..q + 1];
    forall k | 0 < k < |bs| ensures bs[k].header.lastHash == bs[k - 1].hash {
      assert bs[k] == c[p + 1 + k] && bs[k - 1] == c[p + k];
    }
  }

  /** In a linked history of one run, every hash occurs once. */
  lemma {:induction false} HashesDiffer(g: Block, u: set<Block>, limit: uint32, c: History, p: nat, q: nat)
    requires HashIdentity(g, u) && GoodHistory(g, u, limit, c) && p < q < |c|
    ensures c[p].hash != c[q].hash
  {
    hide EvidenceOnce, AllWellFormed, DifficultyWindow;
    assert c[p] in u && c[q] in u && c[q - 1] in u;
    assert c[q].header.lastHash == c[q - 1].hash;
    if p > 0 {
      HashesDiffer(g, u, limit, c, p - 1, q - 1);
      assert c[p].header.lastHash == c[p - 1].hash;
    }
  }

  lemma {:induction false} FoundAt(g: Block, u: set<Block>, limit: uint32, c: History, k: nat)
    requires HashIdentity(g, u) && GoodHistory(g, u, limit, c) && k < |c|
    ensures HeightOfHash(c, c[k].hash) == k + 1
    ensures forall from | 0 <= from <= k :: Find(c, from, c[k].hash) == k
  {
    hide HashIdentity, GoodHistory;
    forall p | 0 <= p < |c| && p != k ensures c[p].hash != c[k].hash {
      if p < k { HashesDiffer(g, u, limit, c, p, k); } else { HashesDiffer(g, u, limit, c, k, p); }
    }
    HashFindsHeight(c, k);
  }

  lemma {:induction false} FromMemory(g: Block, u: set<Block>, limit: uint32, main: History, cut: nat, base: Bytes,
      onlyHeader: bool)
    requires HashIdentity(g, u) && GoodHistory(g, u, limit, main) && cut < |main|
    requires Find(main, cut, base) < |main| - 1
    ensures var p := Find(main, cut, base);
      && Find(main, cut, Head(main).hash) == |main| - 1
      && LinksUp(base, Copies(main[p + 1..|main|], onlyHeader), Head(main).hash)
  {
    hide HashIdentity, EvidenceOnce, AllWellFormed, DifficultyWindow, Copies, LinksUp, Find, HeightOfHash;
    FoundAt(g, u, limit, main, |main| - 1);
    SliceLinks(main, Find(main, cut, base), |main| - 1);
    LinksKept(base, main[Find(main, cut, base) + 1..|main|], Head(main).hash, onlyHeader);
  }

  lemma {:induction false} FromDatabase(g: Block, u: set<Block>, limit: uint32, db: History, base: Bytes, k: nat,
      onlyHeader: bool)
    requires HashIdentity(g, u) && GoodHistory(g, u, limit, db)
    requires 0 < HeightOfHash(db, base) < k <= |db|
    ensures HeightOfHash(db, db[k - 1].hash) == k
    ensures LinksUp(base, Copies(ReadBacks(db[HeightOfHash(db, base)..k]), onlyHeader), db[k - 1].hash)
  {
    hide HashIdentity, EvidenceOnce, AllWellFormed, DifficultyWindow, Copies, ReadBacks, LinksUp, Find, HeightOfHash;
    var h := HeightOfHash(db, base);
    FoundAt(g, u, limit, db, k - 1);
    SliceLinks(db, h - 1, k - 1);
    LinksKept(base, db[h..k], db[k - 1].hash, onlyHeader);
    LinksKept(base, ReadBacks(db[h..k]), db[k - 1].hash, onlyHeader);
  }

  /** The blocks are as many as the hash answer said and link up from `base` to its end. */
  ghost predicate Delivers(base: Bytes, a: HashAnswer, r: BlocksAnswer) {
    a.Ahead? && r.Found? && |r.blocks| % TWO_32 == a.diff && LinksUp(base, r.blocks, a.end)
  }

  lemma {:induction false} MemoryDelivers(g: Block, u: set<Block>, limit: uint32, s: State, base: Bytes,
      onlyHeader: bool)
    requires HashIdentity(g, u) && s.longest < |s.chains| && s.cut < |s.chains[s.longest]|
    requires GoodHistory(g, u, limit, s.chains[s.longest])
    requires Find(s.chains[s.longest], s.cut, base) < |s.chains[s.longest]| && SyncHash(s, base).Ahead?
    ensures Delivers(base, SyncHash(s, base), SyncBlocks(s, base, SyncHash(s, base).end, onlyHeader))
  {
    hide HashIdentity, GoodHistory, LinksUp, Find, HeightOfHash, Copies, ReadBacks;
    FromMemory(g, u, limit, s.chains[s.longest], s.cut, base, onlyHeader);
  }

  lemma {:induction false} DatabaseDelivers(g: Block, u: set<Block>, limit: uint32, s: State, base: Bytes,
      onlyHeader: bool)
    requires HashIdentity(g, u) && s.longest < |s.chains| && s.cut < |s.chains[s.longest]|
        && GoodHistory(g, u, limit, s.db)
    requires Find(s.chains[s.longest], s.cut, base) == |s.chains[s.longest]|
    requires SyncHash(s, base).Ahead? && SyncHash(s, base).diff > 0
    ensures Delivers(base, SyncHash(s, base), SyncBlocks(s, base, SyncHash(s, base).end, onlyHeader))
  {
    hide HashIdentity, GoodHistory, LinksUp, Find, HeightOfHash, Copies, ReadBacks;
    FromDatabase(g, u, limit, s.db, base, HeightOfHash(s.db, base) + SyncHash(s, base).diff, onlyHeader);
  }

  /** The answer comes from the database. */
  predicate FromStore(s: State, base: Bytes)
    requires s.longest < |s.chains| && s.cut < |s.chains[s.longest]|
  {
    Find(s.chains[s.longest], s.cut, base) == |s.chains[s.longest]|
  }

  /** The blocks the hash answer is about: the rest of the longest branch or up to 128 stored blocks. */
  function Promised(s: State, base: Bytes): seq<Block>
    requires s.longest < |s.chains| && s.cut < |s.chains[s.longest]| && SyncHash(s, base).Ahead?
  {
    if FromStore(s, base) then s.db[HeightOfHash(s.db, base)..HeightOfHash(s.db, base) + SyncHash(s, base).diff]
    else s.chains[s.longest][Find(s.chains[s.longest], s.cut, base) + 1..]
  }

  /** What becomes of them: stored ones are read back, and the evidence may be left out. */
  function Sent(s: State, base: Bytes, onlyHeader: bool): seq<Block>
    requires s.longest < |s.chains| && s.cut < |s.chains[s.longest]| && SyncHash(s, base).Ahead?
  {
    Copies(if FromStore(s, base) then ReadBacks(Promised(s, base)) else Promised(s, base), onlyHeader)
  }

  lemma {:induction false} MemoryIsFound(g: Block, u: set<Block>, limit: uint32, s: State, base: Bytes,
      onlyHeader: bool)
    requires HashIdentity(g, u) && s.longest < |s.chains| && s.cut < |s.chains[s.longest]|
    requires GoodHistory(g, u, limit, s.chains[s.longest]) && !FromStore(s, base) && SyncHash(s, base).Ahead?
    ensures SyncBlocks(s, base, SyncHash(s, base).end, onlyHeader) == Found(Sent(s, base, onlyHeader))
  {
    hide HashIdentity, GoodHistory, LinksUp, Find, HeightOfHash, Copies, ReadBacks;
    FromMemory(g, u, limit, s.chains[s.longest], s.cut, base, onlyHeader);
  }

  lemma {:induction false} StoreIsFound(g: Block, u: set<Block>, limit: uint32, s: State, base: Bytes, onlyHeader: bool)
    requires HashIdentity(g, u) && s.longest < |s.chains| && s.cut < |s.chains[s.longest]|
    requires GoodHistory(g, u, limit, s.db) && FromStore(s, base)
    requires SyncHash(s, base).Ahead? && SyncHash(s, base).diff > 0
    ensures SyncBlocks(s, base, SyncHash(s, base).end, onlyHeader) == Found(Sent(s, base, onlyHeader))
  {
    hide HashIdentity, GoodHistory, LinksUp, Find, HeightOfHash, Copies, ReadBacks;
    FromDatabase(g, u, limit, s.db, base, HeightOfHash(s.db, base) + SyncHash(s, base).diff, onlyHeader);
  }

  /** The two answers agree: what is promised by hash and distance is delivered, block by block
      linked from `base` to `end`, with the contents of the promised blocks as they are sent; the
      distance counts the blocks modulo 2^32. */
  lemma {:induction false} SyncAgrees(g: Block, u: set<Block>, limit: uint32, s: State, base: Bytes, onlyHeader: bool)
    requires HashIdentity(g, u) && Sound(g, u, limit, s)
    requires s.longest < |s.chains| && s.cut < |s.chains[s.longest]|
    requires SyncHash(s, base).Ahead? && SyncHash(s, base).diff > 0
    ensures Delivers(base, SyncHash(s, base), SyncBlocks(s, base, SyncHash(s, base).end, onlyHeader))
    ensures SyncBlocks(s, base, SyncHash(s, base).end, onlyHeader) == Found(Sent(s, base, onlyHeader))
  {
    hide HashIdentity, GoodHistory, Tree, Window, CutIsStored, Marks, Delivers, SyncHash, SyncBlocks, LinksUp, Sent;
    assert GoodHistory(g, u, limit, s.chains[s.longest]);
    if Find(s.chains[s.longest], s.cut, base) < |s.chains[s.longest]| {
      MemoryDelivers(g, u, limit, s, base, onlyHeader);
      MemoryIsFound(g, u, limit, s, base, onlyHeader);
    } else {
      DatabaseDelivers(g, u, limit, s, base, onlyHeader);
      StoreIsFound(g, u, limit, s, base, onlyHeader);
    }
  }

  /** A block is sent as it is exactly if no evidence is left out and none gets lost in the store. */
  ghost predicate SentWhole(b: Block, fromStore: bool, onlyHeader: bool) {
    (onlyHeader ==> b.evds == []) && (fromStore ==> OneEach(b.evds))
  }

  lemma {:induction false} CopyIsWhole(b: Block, fromStore: bool, onlyHeader: bool)
    requires WellFormed(b)
    ensures ShallowCopy(if fromStore then ReadBack(b) else b, onlyHeader) == b <==> SentWhole(b, fromStore, onlyHeader)
  {
    ReadBackExactly(b);
  }

  lemma {:induction false} SentExactly(s: State, base: Bytes, onlyHeader: bool)
    requires s.longest < |s.chains| && s.cut < |s.chains[s.longest]| && SyncHash(s, base).Ahead?
    requires AllWellFormed(Promised(s, base))
    ensures Sent(s, base, onlyHeader) == Promised(s, base) <==>
      forall b | b in Promised(s, base) :: SentWhole(b, FromStore(s, base), onlyHeader)
  {
    hide Promised, WellFormed, SentWhole, ShallowCopy, ReadBack, FromStore, SyncHash;
    var bs, f := Promised(s, base), FromStore(s, base);
    forall k | 0 <= k < |bs| ensures Sent(s, base, onlyHeader)[k] == bs[k] <==> SentWhole(bs[k], f, onlyHeader) {
      CopyIsWhole(bs[k], f, onlyHeader);
    }
  }

  /** The hash answer is ahead by nothing exactly if `base` is the newest stored block and no block
      of the longest branch in memory has its hash (or the distance is a multiple of 2^32); the
      blocks answer then finds nothing. */
  lemma {:induction false} AheadByNothing(s: State, base: Bytes, onlyHeader: bool)
    requires s.longest < |s.chains| && s.cut < |s.chains[s.longest]|
    ensures var main, a := s.chains[s.longest], SyncHash(s, base);
      var p := Find(main, s.cut, base);
      a.Ahead? && a.diff == 0 <==>
        || (FromStore(s, base) && |s.db| > 0 && base == Head(s.db).hash)
        || (p < |main| - 1 && (|main| - 1 - p) % TWO_32 == 0)
    ensures FromStore(s, base) && |s.db| > 0 && base == Head(s.db).hash ==>
      SyncHash(s, base) == Ahead(base, 0) && SyncBlocks(s, base, base, onlyHeader) == NotFound
  {
    hide Find, Copies, ReadBacks;
    var h := HeightOfHash(s.db, base);
    assert |s.db| > 0 && base == Head(s.db).hash <==> h == |s.db| > 0;
    hide HeightOfHash;
  }

  /** While the database is a prefix of the longest branch, that happens exactly if the newest stored
      block has just been cut out of memory. */
  lemma {:induction false} AheadByNothingInMemory(g: Block, u: set<Block>, limit: uint32, s: State, base: Bytes)
    requires HashIdentity(g, u) && Sound(g, u, limit, s) && s.longest < |s.chains|
    requires s.cut < |s.chains[s.longest]| < TWO_32 && s.db <= s.chains[s.longest]
    ensures SyncHash(s, base).Ahead? && SyncHash(s, base).diff == 0 <==> s.cut == |s.db| && base == Head(s.db).hash
  {
    hide HashIdentity, GoodHistory, Tree, Window, Marks, SyncHash, Find;
    var main, n := s.chains[s.longest], |s.db|;
    assert GoodHistory(g, u, limit, main) && GoodHistory(g, u, limit, s.db);
    assert n > 0 && s.cut <= n by { StoreIsThere(g, u, limit, s); }
    AheadByNothing(s, base, false);
    if base == Head(s.db).hash {
      assert main[n - 1] == s.db[n - 1];
      FoundAt(g, u, limit, main, n - 1);
      if s.cut == n { NotFoundAbove(g, u, limit, main, s.cut); }
    }
  }

  lemma {:induction false} StoreIsThere(g: Block, u: set<Block>, limit: uint32, s: State)
    requires Sound(g, u, limit, s)
    ensures |s.db| > 0 && s.cut <= |s.db|
  {
    hide Tree, Window, Marks, AllGood;
  }

  lemma {:induction false} NotFoundAbove(g: Block, u: set<Block>, limit: uint32, c: History, n: nat)
    requires HashIdentity(g, u) && GoodHistory(g, u, limit, c) && 0 < n <= |c|
    ensures Find(c, n, c[n - 1].hash) == |c|
  {
    hide HashIdentity, GoodHistory;
    forall q | n <= q < |c| ensures c[q].hash != c[n - 1].hash { HashesDiffer(g, u, limit, c, n - 1, q); }
  }

  // ---- the two answers, told by which block has which hash ----

  /** Searches find the one position a hash has, or none. */
  lemma {:induction false} SearchesFind(g: Block, u: set<Block>, limit: uint32, c: History, from: nat, hash: Bytes)
    requires HashIdentity(g, u) && GoodHistory(g, u, limit, c) && from <= |c|
    ensures Has(c, from, hash) <==> Find(c, from, hash) < |c|
    ensures Has(c, 0, hash) <==> HeightOfHash(c, hash) > 0
    ensures forall p: nat | At(c, from, hash, p) :: Find(c, from, hash) == p
    ensures forall p: nat | At(c, 0, hash, p) :: HeightOfHash(c, hash) == p + 1
  {
    hide HashIdentity, GoodHistory;
    if Find(c, from, hash) < |c| { assert At(c, from, hash, Find(c, from, hash)); }
    if HeightOfHash(c, hash) > 0 { assert At(c, 0, hash, HeightOfHash(c, hash) - 1); }
    hide HeightOfHash;
    forall p: nat | At(c, 0, hash, p) ensures HeightOfHash(c, hash) == p + 1 { FoundAt(g, u, limit, c, p); }
    forall p: nat | At(c, from, hash, p) ensures Find(c, from, hash) == p { FoundAt(g, u, limit, c, p); }
  }

  /** The answer to a hash: unknown if no block in memory or in the database has it, up to date if the
      head has it, and else the head for a block in memory, and for one that is only stored the
      stored block 128 above it, or the newest one if that is nearer. */
  ghost predicate RightHash(main: History, cut: nat, db: History, base: Bytes, a: HashAnswer)
    requires |main| > 0
  {
    && (a.Unknown? <==> !Has(main, cut, base) && !Has(db, 0, base))
    && (a.UpToDate? <==> Head(main).hash == base)
    && (forall p: nat | At(main, cut, base, p) && p < |main| - 1 ::
         a == Ahead(Head(main).hash, (|main| - 1 - p) % 0x1_0000_0000))
    && (!Has(main, cut, base) ==> forall p: nat | At(db, 0, base, p) ::
         var d := if |db| - 1 - p < 128 then |db| - 1 - p else 128;
         a == Ahead(db[p + d].hash, d))
  }

  lemma {:induction false} SyncHashExactly(g: Block, u: set<Block>, limit: uint32, s: State, base: Bytes)
    requires HashIdentity(g, u) && Sound(g, u, limit, s) && s.longest < |s.chains| && s.cut < |s.chains[s.longest]|
    ensures RightHash(s.chains[s.longest], s.cut, s.db, base, SyncHash(s, base))
  {
    hide HashIdentity, GoodHistory, Tree, Window, CutIsStored, Marks, Find, HeightOfHash, Has;
    var main := s.chains[s.longest];
    assert GoodHistory(g, u, limit, main);
    SearchesFind(g, u, limit, main, s.cut, base);
    SearchesFind(g, u, limit, s.db, 0, base);
    hide Sound;
    if Head(main).hash == base { assert At(main, s.cut, base, |main| - 1); }
  }

  /** The blocks as they are sent, with or without their evidence. */
  ghost predicate AreCopies(bs: seq<Block>, of: seq<Block>, onlyHeader: bool) {
    && |bs| == |of|
    && forall k | 0 <= k < |bs| :: bs[k] == Block(of[k].hash, of[k].header, if onlyHeader then [] else of[k].evds)
  }

  /** Both ends are stored, in this order. */
  ghost predicate StoredInOrder(db: History, base: Bytes, end: Bytes) {
    exists p: nat, q: nat :: At(db, 0, base, p) && At(db, 0, end, q) && p < q
  }

  /** The answer to a request for blocks: with both ends in memory the blocks between, or a bad range;
      else the stored blocks between, if both are stored in that order; else, with the base stored and
      the end in memory, that the database is behind; and nothing in all other cases. */
  ghost predicate RightBlocks(main: History, cut: nat, db: History, base: Bytes, end: Bytes, onlyHeader: bool,
      a: BlocksAnswer)
  {
    && (forall p: nat, q: nat | At(main, cut, base, p) && At(main, cut, end, q) ::
         if p < q then a.Found? && AreCopies(a.blocks, main[p + 1..q + 1], onlyHeader) else a.BadRange?)
    && (!(Has(main, cut, base) && Has(main, cut, end)) ==>
         && (forall p: nat, q: nat | At(db, 0, base, p) && At(db, 0, end, q) && p < q ::
              a.Found? && AreCopies(a.blocks, ReadBacks(db[p + 1..q + 1]), onlyHeader))
         && (!StoredInOrder(db, base, end) ==>
              a == if Has(db, 0, base) && Has(main, cut, end) then Flushing else NotFound))
  }

  lemma {:induction false} StoredPositions(g: Block, u: set<Block>, limit: uint32, db: History, base: Bytes, end: Bytes)
    requires HashIdentity(g, u) && GoodHistory(g, u, limit, db)
    ensures StoredInOrder(db, base, end) <==> 0 < HeightOfHash(db, base) < HeightOfHash(db, end)
  {
    hide HashIdentity, GoodHistory, HeightOfHash, Has;
    SearchesFind(g, u, limit, db, 0, base);
    SearchesFind(g, u, limit, db, 0, end);
    var h, k := HeightOfHash(db, base), HeightOfHash(db, end);
    if 0 < h < k { assert At(db, 0, base, h - 1) && At(db, 0, end, k - 1); }
  }

  lemma {:induction false} CopiesAre(bs: seq<Block>, onlyHeader: bool)
    ensures AreCopies(Copies(bs, onlyHeader), bs, onlyHeader)
  {
  }

  lemma {:induction false} BlocksFromMemory(g: Block, u: set<Block>, limit: uint32, s: State, base: Bytes, end: Bytes,
      onlyHeader: bool, p: nat, q: nat)
    requires HashIdentity(g, u) && s.longest < |s.chains| && s.cut < |s.chains[s.longest]|
    requires GoodHistory(g, u, limit, s.chains[s.longest])
    requires At(s.chains[s.longest], s.cut, base, p) && At(s.chains[s.longest], s.cut, end, q)
    ensures var a := SyncBlocks(s, base, end, onlyHeader);
      if p < q then a.Found? && AreCopies(a.blocks, s.chains[s.longest][p + 1..q + 1], onlyHeader) else a.BadRange?
  {
    hide HashIdentity, GoodHistory, Find, HeightOfHash, Has, Copies, ReadBacks, AreCopies;
    SearchesFind(g, u, limit, s.chains[s.longest], s.cut, base);
    SearchesFind(g, u, limit, s.chains[s.longest], s.cut, end);
    if p < q { CopiesAre(s.chains[s.longest][p + 1..q + 1], onlyHeader); }
  }

  lemma {:induction false} BlocksFromStore(g: Block, u: set<Block>, limit: uint32, s: State, base: Bytes, end: Bytes,
      onlyHeader: bool, p: nat, q: nat)
    requires HashIdentity(g, u) && s.longest < |s.chains| && s.cut < |s.chains[s.longest]|
    requires GoodHistory(g, u, limit, s.chains[s.longest]) && GoodHistory(g, u, limit, s.db)
    requires !(Has(s.chains[s.longest], s.cut, base) && Has(s.chains[s.longest], s.cut, end))
    requires At(s.db, 0, base, p) && At(s.db, 0, end, q) && p < q
    ensures var a := SyncBlocks(s, base, end, onlyHeader);
      a.Found? && AreCopies(a.blocks, ReadBacks(s.db[p + 1..q + 1]), onlyHeader)
  {
    hide HashIdentity, GoodHistory, Find, HeightOfHash, Has, Copies, ReadBacks, AreCopies;
    SearchesFind(g, u, limit, s.chains[s.longest], s.cut, base);
    SearchesFind(g, u, limit, s.chains[s.longest], s.cut, end);
    SearchesFind(g, u, limit, s.db, 0, base);
    SearchesFind(g, u, limit, s.db, 0, end);
    CopiesAre(ReadBacks(s.db[p + 1..q + 1]), onlyHeader);
  }

  lemma {:induction false} BlocksFromNowhere(g: Block, u: set<Block>, limit: uint32, s: State, base: Bytes, end: Bytes,
      onlyHeader: bool)
    requires HashIdentity(g, u) && s.longest < |s.chains| && s.cut < |s.chains[s.longest]|
    requires GoodHistory(g, u, limit, s.chains[s.longest]) && GoodHistory(g, u, limit, s.db)
    requires !(Has(s.chains[s.longest], s.cut, base) && Has(s.chains[s.longest], s.cut, end))
    requires !StoredInOrder(s.db, base, end)
    ensures SyncBlocks(s, base, end, onlyHeader)
        == if Has(s.db, 0, base) && Has(s.chains[s.longest], s.cut, end) then Flushing else NotFound
  {
    hide HashIdentity, GoodHistory, Find, HeightOfHash, Has, Copies, ReadBacks, StoredInOrder;
    SearchesFind(g, u, limit, s.chains[s.longest], s.cut, base);
    SearchesFind(g, u, limit, s.chains[s.longest], s.cut, end);
    SearchesFind(g, u, limit, s.db, 0, base);
    StoredPositions(g, u, limit, s.db, base, end);
  }

  lemma {:induction false} SyncBlocksExactly(g: Block, u: set<Block>, limit: uint32, s: State, base: Bytes, end: Bytes,
      onlyHeader: bool)
    requires HashIdentity(g, u) && Sound(g, u, limit, s) && s.longest < |s.chains| && s.cut < |s.chains[s.longest]|
    ensures RightBlocks(s.chains[s.longest], s.cut, s.db, base, end, onlyHeader, SyncBlocks(s, base, end, onlyHeader))
  {
    hide HashIdentity, GoodHistory, Tree, Window, CutIsStored, Marks, Has, ReadBacks, SyncBlocks;
    hide AreCopies, StoredInOrder;
    var main, a := s.chains[s.longest], SyncBlocks(s, base, end, onlyHeader);
    assert GoodHistory(g, u, limit, main) && GoodHistory(g, u, limit, s.db);
    hide Sound;
    forall p: nat, q: nat | At(main, s.cut, base, p) && At(main, s.cut, end, q)
      ensures if p < q then a.Found? && AreCopies(a.blocks, main[p + 1..q + 1], onlyHeader) else a.BadRange?
    {
      BlocksFromMemory(g, u, limit, s, base, end, onlyHeader, p, q);
    }
    if !(Has(main, s.cut, base) && Has(main, s.cut, end)) {
      forall p: nat, q: nat | At(s.db, 0, base, p) && At(s.db, 0, end, q) && p < q
        ensures a.Found? && AreCopies(a.blocks, ReadBacks(s.db[p + 1..q + 1]), onlyHeader)
      {
        BlocksFromStore(g, u, limit, s, base, end, onlyHeader, p, q);
      }
      if !StoredInOrder(s.db, base, end) { BlocksFromNowhere(g, u, limit, s, base, end, onlyHeader); }
    }
  }
}
