/** What a node does with the blocks it got by synchronising. */
module Transfer {
  import opened Records
  import opened Difficulty
  import opened Codec
  import opened Pow
  import opened Merkle
  import opened ChainModel
  import opened ChainInvariants
  import opened ChainRuns
  import opened Database
  import opened Sync
  import opened Producer

  /** d is b with the same or with other evidence of the same number, or without any. */
  ghost predicate Version(d: Block, b: Block) {
    d.hash == b.hash && d.header == b.header && (d.evds == [] || |d.evds| == |b.evds|)
  }

  /** Equal Merkle roots of equally many pieces mean equal evidence, for the blocks concerned. */
  ghost predicate RootsIdentify(p: Params, ds: seq<Block>, bs: seq<Block>)
    requires |ds| == |bs|
  {
    forall k | 0 <= k < |bs| ::
      |ds[k].evds| == |bs[k].evds| && EvidenceRoot(p, ds[k].evds) == EvidenceRoot(p, bs[k].evds) ==>
        ds[k].evds == bs[k].evds
  }

  /** Another version of an accepted block is accepted exactly if it is the same. */
  lemma {:induction false} VersionAccepted(p: Params, q: State, c: History, d: Block, b: Block, now: real)
    requires |c| > 0 && q.cut <= |c| && Accepts(RulesOf(p), q, c, b, now) && Version(d, b)
    requires |d.evds| == |b.evds| && EvidenceRoot(p, d.evds) == EvidenceRoot(p, b.evds) ==> d.evds == b.evds
    ensures Accepts(RulesOf(p), q, c, d, now) <==> d == b
  {
    hide MarshalHeader, MarshalEvidence, EvidencePow, HeaderPow, EvidenceRoot, NextTarget, TargetToDiff,
         EvidenceAccepted;
  }

  /** Of a batch that would go in whole, other versions go in whole exactly if they are the same. */
  lemma {:induction false} VersionsGoIn(p: Params, q: State, i: nat, ds: seq<Block>, bs: seq<Block>, now: real)
    requires i < |q.chains| && InMemory(q.chains, q.cut) && |ds| == |bs|
    requires (forall k | 0 <= k < |bs| :: Version(ds[k], bs[k])) && RootsIdentify(p, ds, bs)
    requires Extend(RulesOf(p), q, i, bs, now).1
    ensures Extend(RulesOf(p), q, i, ds, now).1 <==> ds == bs
    decreases |bs|
  {
    if bs != [] {
      hide Accepts, RulesOf, EvidenceRoot;
      VersionAccepted(p, q, q.chains[i], ds[0], bs[0], now);
      if ds[0] == bs[0] {
        assert ds == [ds[0]] + ds[1..] && bs == [bs[0]] + bs[1..];
        VersionsGoIn(p, Append(q, i, bs[0]), i, ds[1..], bs[1..], now);
      }
    }
  }

  lemma {:induction false} SentAreVersions(s: State, base: Bytes, onlyHeader: bool)
    requires s.longest < |s.chains| && s.cut < |s.chains[s.longest]| && SyncHash(s, base).Ahead?
    ensures |Sent(s, base, onlyHeader)| == |Promised(s, base)|
    ensures forall k | 0 <= k < |Promised(s, base)| :: Version(Sent(s, base, onlyHeader)[k], Promised(s, base)[k])
  {
    hide Promised, FromStore, SyncHash;
  }

  lemma {:induction false} PromisedIsGood(g: Block, u: set<Block>, limit: uint32, s: State, base: Bytes)
    requires Sound(g, u, limit, s) && s.longest < |s.chains| && s.cut < |s.chains[s.longest]|
        && SyncHash(s, base).Ahead?
    ensures AllWellFormed(Promised(s, base))
  {
    hide Tree, Window, CutIsStored, Marks, WellFormed, Find, HeightOfHash, Linked, EvidenceOnce, DifficultyWindow;
    assert GoodHistory(g, u, limit, s.chains[s.longest]);
  }

  /** A peer serves a node that would take the promised blocks as they are, on a branch or a fork.
      The node takes what is sent exactly if no block loses evidence on the way: none has evidence
      when only headers were asked for, and none that comes from the peer's database has two
      different pieces of one hash. */
  lemma {:induction false} SentGoesIn(p: Params, g: Block, u: set<Block>, limit: uint32, s: State, base: Bytes,
      onlyHeader: bool, q: State, now: real)
    requires Sound(g, u, limit, s) && s.longest < |s.chains| && s.cut < |s.chains[s.longest]|
    requires SyncHash(s, base).Ahead? && InMemory(q.chains, q.cut)
    requires WentIn(RulesOf(p), q, Promised(s, base), now)
    requires |Sent(s, base, onlyHeader)| == |Promised(s, base)| ==>
      RootsIdentify(p, Sent(s, base, onlyHeader), Promised(s, base))
    ensures WentIn(RulesOf(p), q, Sent(s, base, onlyHeader), now) <==>
      forall b | b in Promised(s, base) :: SentWhole(b, FromStore(s, base), onlyHeader)
  {
    hide Sound, RulesOf, Extend, RootsIdentify, SyncHash, Promised, Sent, SentWhole, FromStore, AllWellFormed,
         HeadIndex, HolderIndex, Find;
    var bs, ds := Promised(s, base), Sent(s, base, onlyHeader);
    SentAreVersions(s, base, onlyHeader);
    PromisedIsGood(g, u, limit, s, base);
    SentExactly(s, base, onlyHeader);
    assert Version(ds[0], bs[0]);
    var (q0, i) := Receiver(q, bs[0]).value;
    VersionsGoIn(p, q0, i, ds, bs, now);
  }

  /** Where roots do not identify evidence, two different byte strings with one hash are at hand. */
  lemma {:induction false} RootsCollide(p: Params, x: seq<Evidence>, y: seq<Evidence>) returns (a: Bytes, b: Bytes)
    requires HashLength(p) && |x| == |y| && x != y && EvidenceRoot(p, x) == EvidenceRoot(p, y)
    requires forall k | 0 <= k < |x| :: EvidenceFits(x[k]) && EvidenceFits(y[k])
    ensures a != b && p.H(a) == p.H(b)
  {
    hide MarshalEvidence, Root, EvidenceFits, ParseEvidence;
    var xs, ys := LeafHashes(p, x), LeafHashes(p, y);
    if xs != ys {
      a, b := EqualRootsCollide(p.H, xs, ys);
    } else {
      var k :| 0 <= k < |x| && x[k] != y[k];
      a, b := MarshalEvidence(x[k]), MarshalEvidence(y[k]);
      assert xs[k] == p.H(a) && ys[k] == p.H(b);
      EvidenceRead(x[k], []);
      EvidenceRead(y[k], []);
    }
  }
}
