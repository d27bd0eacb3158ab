/** The requesting and serving sides of block synchronisation (core/net.go). */
module Net {
  import opened Records
  import opened ChainModel
  import opened ChainInvariants
  import opened Database
  import opened Sync

  const MAX_BLOCKS_IN_RESPONSE: nat := 16
  const RESPONSE_SECONDS: int := 80

  type Peer = string

  // ---- serving ----

  function Concat<T>(parts: seq<seq<T>>): seq<T> {
    if parts == [] then [] else parts[0] + Concat(parts[1..])
  }

  function Total<T>(parts: seq<seq<T>>): (n: nat)
    ensures n == |Concat(parts)|
  {
    if parts == [] then 0 else |parts[0]| + Total(parts[1..])
  }

  lemma {:induction false} ConcatSplit<T>(a: seq<seq<T>>, b: seq<seq<T>>)
    ensures Concat(a + b) == Concat(a) + Concat(b)
  {
    if a == [] {
      assert a + b == b;
    } else {
      assert (a + b)[0] == a[0] && (a + b)[1..] == a[1..] + b;
      ConcatSplit(a[1..], b);
    }
  }

  lemma {:induction false} ConcatOne<T>(a: seq<T>)
    ensures Concat([a]) == a
  {
    assert [a][1..] == [];
  }

  /** Sends blocks in responses of sixteen, the last one with what is left. */
  method Responses(blocks: seq<Block>) returns (rs: seq<seq<Block>>)
    ensures Concat(rs) == blocks
    ensures forall k | 0 <= k < |rs| :: 0 < |rs[k]| <= 16
    ensures forall k | 0 <= k < |rs| - 1 :: |rs[k]| == 16
  {
    rs := [];
    var rest := blocks;
    assert [] + rest == rest;
    while |rest| > 0
      invariant Concat(rs) + rest == blocks && Batched(rs, rest)
    {
      var num := if |rest| < MAX_BLOCKS_IN_RESPONSE then |rest| else MAX_BLOCKS_IN_RESPONSE;
      OneBatch(rs, rest, num);
      rs := rs + [rest[..num]];
      rest := rest[num..];
    }
    assert Concat(rs) + [] == Concat(rs);
  }

  /** Full batches, except that the last one may be short when nothing is left. */
  ghost predicate Batched(rs: seq<seq<Block>>, rest: seq<Block>) {
    && (forall k | 0 <= k < |rs| :: 0 < |rs[k]| <= MAX_BLOCKS_IN_RESPONSE)
    && (forall k | 0 <= k < |rs| - 1 :: |rs[k]| == MAX_BLOCKS_IN_RESPONSE)
    && (|rest| > 0 && |rs| > 0 ==> |rs[|rs| - 1]| == MAX_BLOCKS_IN_RESPONSE)
  }

  lemma {:induction false} OneBatch(rs: seq<seq<Block>>, rest: seq<Block>, num: nat)
    requires Batched(rs, rest) && 0 < num <= |rest| && num <= MAX_BLOCKS_IN_RESPONSE
    requires num < MAX_BLOCKS_IN_RESPONSE ==> num == |rest|
    ensures Batched(rs + [rest[..num]], rest[num..])
    ensures Concat(rs + [rest[..num]]) + rest[num..] == Concat(rs) + rest
  {
    ConcatSplit(rs, [rest[..num]]);
    ConcatOne(rest[..num]);
    hide Concat;
    assert rest == rest[..num] + rest[num..];
    assert Concat(rs) + rest[..num] + rest[num..] == Concat(rs) + (rest[..num] + rest[num..]);
  }

  // ---- requesting ----

  /** A peer's answer to a request for a hash. */
  datatype HashResponse = Current | Behind(base: Bytes, end: Bytes, diff: uint32)

  /** Blocks expected from a peer: how many are missing and what came so far. */
  datatype Waiting = Waiting(peer: Peer, lastTime: int, remain: uint32, got: seq<seq<Block>>)

  datatype BlockRequest = BlockRequest(to: Peer, base: Bytes, end: Bytes, onlyHeader: bool)

  ghost predicate OnePerPeer(ws: seq<Waiting>) {
    forall i, j | 0 <= i < j < |ws| :: ws[i].peer != ws[j].peer
  }

  /** First entry of a peer from i on, or |ws|. */
  function EntryAt(ws: seq<Waiting>, peer: Peer, i: nat): (r: nat)
    requires i <= |ws|
    ensures i <= r <= |ws|
    ensures r < |ws| ==> ws[r].peer == peer
    ensures forall j | i <= j < r :: ws[j].peer != peer
    decreases |ws| - i
  {
    if i == |ws| || ws[i].peer == peer then i else EntryAt(ws, peer, i + 1)
  }

  /** An entry after one more response; the count is unsigned and wraps. */
  function Advanced(w: Waiting, blocks: seq<Block>, now: int): Waiting {
    w.(lastTime := now, remain := (w.remain - |blocks|) % TWO_32, got := w.got + [blocks])
  }

  /** The waiting list after a response, and the blocks that are complete with it. */
  function Respond(ws: seq<Waiting>, peer: Peer, blocks: seq<Block>, now: int): (seq<Waiting>, Option<seq<Block>>) {
    var i := EntryAt(ws, peer, 0);
    if i == |ws| then (ws, None)
    else
      var w := Advanced(ws[i], blocks, now);
      if w.remain == 0 then (ws[..i] + ws[i + 1..], Some(Concat(w.got))) else (ws[i := w], None)
  }

  /** What was asked of a peer is what it sent so far plus what remains, modulo 2^32. */
  ghost predicate Conserved(ws: seq<Waiting>, asked: map<Peer, uint32>) {
    forall i | 0 <= i < |ws| :: Counted(ws[i], asked)
  }

  lemma {:induction false} TotalGrows(got: seq<seq<Block>>, blocks: seq<Block>)
    ensures Total(got + [blocks]) == Total(got) + |blocks|
    ensures Concat(got + [blocks]) == Concat(got) + blocks
  {
    ConcatSplit(got, [blocks]);
    ConcatOne(blocks);
  }

  lemma {:induction false} CountsAdd(remain: uint32, sent: nat, n: nat)
    ensures ((remain - n) % TWO_32 + (sent + n)) % TWO_32 == (remain + sent) % TWO_32
  {
    var q := (remain - n) / TWO_32;
    assert (remain - n) % TWO_32 == remain - n - q * TWO_32;
    ModShift(remain + sent, q);
  }

  lemma {:induction false} ModShift(a: int, q: int)
    ensures (a - q * TWO_32) % TWO_32 == a % TWO_32
  {
    var k := a / TWO_32;
    assert a - q * TWO_32 == (k - q) * TWO_32 + a % TWO_32;
  }

  /** A response keeps one entry per peer and the conservation of counts; blocks are handed on
      only when as many came as were asked for, and then all of them. */
  lemma {:induction false} RespondKeeps(ws: seq<Waiting>, asked: map<Peer, uint32>, peer: Peer, blocks: seq<Block>,
      now: int)
    requires OnePerPeer(ws) && Conserved(ws, asked)
    ensures var (next, done) := Respond(ws, peer, blocks, now);
      && OnePerPeer(next) && Conserved(next, asked)
      && (done.Some? ==> peer in asked && |done.value| % TWO_32 == asked[peer])
  {
    hide OnePerPeer, Conserved, Concat, Total, EntryAt;
    var i := EntryAt(ws, peer, 0);
    if i < |ws| {
      var w := Advanced(ws[i], blocks, now);
      AdvancedCount(ws, asked, i, blocks, now);
      if w.remain == 0 { RemoveKeeps(ws, asked, i); } else { UpdateKeeps(ws, asked, i, w); }
    }
  }

  ghost predicate Counted(w: Waiting, asked: map<Peer, uint32>) {
    w.peer in asked && (w.remain + Total(w.got)) % TWO_32 == asked[w.peer]
  }

  lemma {:induction false} AdvancedCount(ws: seq<Waiting>, asked: map<Peer, uint32>, i: nat, blocks: seq<Block>,
      now: int)
    requires i < |ws| && Conserved(ws, asked)
    ensures Counted(Advanced(ws[i], blocks, now), asked)
  {
    hide Total, Concat;
    assert Counted(ws[i], asked);
    TotalGrows(ws[i].got, blocks);
    CountsAdd(ws[i].remain, Total(ws[i].got), |blocks|);
  }

  lemma {:induction false} RemoveKeeps(ws: seq<Waiting>, asked: map<Peer, uint32>, i: nat)
    requires i < |ws| && OnePerPeer(ws) && Conserved(ws, asked)
    ensures OnePerPeer(ws[..i] + ws[i + 1..]) && Conserved(ws[..i] + ws[i + 1..], asked)
  {
    hide Counted;
  }

  lemma {:induction false} UpdateKeeps(ws: seq<Waiting>, asked: map<Peer, uint32>, i: nat, w: Waiting)
    requires i < |ws| && OnePerPeer(ws) && Conserved(ws, asked) && w.peer == ws[i].peer && Counted(w, asked)
    ensures OnePerPeer(ws[i := w]) && Conserved(ws[i := w], asked)
  {
    hide Counted;
  }

  // ---- delivery, whatever the peers' responses are interleaved with ----

  datatype Response = Response(peer: Peer, blocks: seq<Block>, now: int)

  /** The responses of one peer, in order. */
  function From(rs: seq<Response>, peer: Peer): seq<seq<Block>> {
    if rs == [] then []
    else (if rs[0].peer == peer then [rs[0].blocks] else []) + From(rs[1..], peer)
  }

  /** The block lists handed on because of one peer's responses. */
  function HandedOn(ws: seq<Waiting>, rs: seq<Response>, peer: Peer): seq<seq<Block>>
    decreases |rs|
  {
    if rs == [] then []
    else
      var (next, done) := Respond(ws, rs[0].peer, rs[0].blocks, rs[0].now);
      (if rs[0].peer == peer && done.Some? then [done.value] else []) + HandedOn(next, rs[1..], peer)
  }

  function EntryOf(ws: seq<Waiting>, peer: Peer): Option<Waiting> {
    var i := EntryAt(ws, peer, 0);
    if i == |ws| then None else Some(ws[i])
  }

  /** An entry is where it is found. */
  lemma {:induction false} EntryIsAt(ws: seq<Waiting>, peer: Peer, i: nat)
    requires i <= |ws| && (i < |ws| ==> ws[i].peer == peer) && forall j | 0 <= j < i :: ws[j].peer != peer
    ensures EntryAt(ws, peer, 0) == i
  {
    var r := EntryAt(ws, peer, 0);
    assert r < |ws| ==> i <= r;
    assert i < |ws| ==> r <= i;
  }

  /** A response touches the entry of its own peer only. */
  lemma {:induction false} OthersKeepWaiting(ws: seq<Waiting>, r: Response, peer: Peer)
    requires r.peer != peer
    ensures EntryOf(Respond(ws, r.peer, r.blocks, r.now).0, peer) == EntryOf(ws, peer)
  {
    hide EntryAt, Concat;
    var i, k := EntryAt(ws, r.peer, 0), EntryAt(ws, peer, 0);
    if i < |ws| {
      var w := Advanced(ws[i], r.blocks, r.now);
      if w.remain == 0 {
        EntryIsAt(ws[..i] + ws[i + 1..], peer, if k < i then k else k - 1);
      } else {
        EntryIsAt(ws[i := w], peer, k);
      }
    }
  }

  lemma {:induction false} OwnEntryAdvances(ws: seq<Waiting>, r: Response)
    requires OnePerPeer(ws) && EntryOf(ws, r.peer).Some?
    ensures var w := Advanced(EntryOf(ws, r.peer).value, r.blocks, r.now);
      var (next, done) := Respond(ws, r.peer, r.blocks, r.now);
      && done == (if w.remain == 0 then Some(Concat(w.got)) else None)
      && EntryOf(next, r.peer) == if w.remain == 0 then None else Some(w)
  {
    hide EntryAt, Concat;
    var i := EntryAt(ws, r.peer, 0);
    var w := Advanced(ws[i], r.blocks, r.now);
    if w.remain == 0 {
      var next := ws[..i] + ws[i + 1..];
      forall j | 0 <= j < |next| ensures next[j].peer != r.peer { assert next[j] == ws[if j < i then j else j + 1]; }
      EntryIsAt(next, r.peer, |next|);
    } else {
      EntryIsAt(ws[i := w], r.peer, i);
    }
  }

  lemma {:induction false} StillOnePerPeer(ws: seq<Waiting>, r: Response)
    requires OnePerPeer(ws)
    ensures OnePerPeer(Respond(ws, r.peer, r.blocks, r.now).0)
  {
    hide EntryAt, Concat;
  }

  // ---- when a peer's blocks are complete ----

  /** How many of the parts it takes until their blocks are as many as missing modulo 2^32, or 0. */
  function CompleteAt(parts: seq<seq<Block>>, remain: uint32): (k: nat)
    ensures k <= |parts|
  {
    if parts == [] then 0
    else if (remain - |parts[0]|) % TWO_32 == 0 then 1
    else
      var k := CompleteAt(parts[1..], (remain - |parts[0]|) % TWO_32);
      if k == 0 then 0 else k + 1
  }

  lemma {:induction false} ModMove(a: nat, x: nat, r: uint32)
    ensures (a + x) % TWO_32 == r <==> x % TWO_32 == (r - a) % TWO_32
  {
    CountsAdd(r, x, a);
    var q, p := (a + x) / TWO_32, x / TWO_32;
    var d := (r - a) / TWO_32;
    assert a + x == q * TWO_32 + (a + x) % TWO_32 && x == p * TWO_32 + x % TWO_32;
    assert r - a == d * TWO_32 + (r - a) % TWO_32;
    if (a + x) % TWO_32 == r {
      assert x == (q + d) * TWO_32 + (r - a) % TWO_32;
      ModShift(x, q + d);
    }
    if x % TWO_32 == (r - a) % TWO_32 {
      assert a + x == (p - d) * TWO_32 + r;
      ModShift(a + x, p - d);
    }
  }

  lemma {:induction false} TotalFront(parts: seq<seq<Block>>, j: nat)
    requires 1 <= j <= |parts|
    ensures Total(parts[..j]) == |parts[0]| + Total(parts[1..][..j - 1])
  {
    assert parts[..j][0] == parts[0] && parts[..j][1..] == parts[1..][..j - 1];
  }

  /** It is the first non-empty prefix whose total is what is missing, modulo 2^32. */
  lemma {:induction false} CompleteAtFirst(parts: seq<seq<Block>>, remain: uint32)
    ensures var k := CompleteAt(parts, remain);
      && (k > 0 ==> Total(parts[..k]) % TWO_32 == remain)
      && (forall j | 1 <= j <= |parts| && (k == 0 || j < k) :: Total(parts[..j]) % TWO_32 != remain)
  {
    if parts != [] {
      hide Total;
      var k, next := CompleteAt(parts, remain), (remain - |parts[0]|) % TWO_32;
      CompleteAtFirst(parts[1..], next);
      forall j | 1 <= j <= |parts|
        ensures Total(parts[..j]) % TWO_32 == remain <==> Total(parts[1..][..j - 1]) % TWO_32 == next
      {
        TotalFront(parts, j);
        ModMove(|parts[0]|, Total(parts[1..][..j - 1]), remain);
      }
      TotalOfNone(parts[1..]);
    }
  }

  lemma {:induction false} TotalOfNone(parts: seq<seq<Block>>)
    ensures Total(parts[..0]) == 0
  {
  }

  ghost predicate NoneEmpty(parts: seq<seq<Block>>) {
    forall k | 0 <= k < |parts| :: |parts[k]| > 0
  }

  /** Parts that do not exceed what is missing complete it with the last one or not at all. */
  lemma {:induction false} CompleteInTime(parts: seq<seq<Block>>, remain: uint32)
    requires NoneEmpty(parts) && Total(parts) <= remain && remain > 0
    ensures Total(parts) == remain ==> |parts| > 0
    ensures CompleteAt(parts, remain) == if Total(parts) == remain then |parts| else 0
  {
    hide Total, CompleteAt;
    CompleteAtFirst(parts, remain);
    forall j | 0 <= j < |parts| ensures Total(parts[..j]) < Total(parts) { PartIsLess(parts[..j], parts); }
    assert parts[..|parts|] == parts;
    TotalOfNone(parts);
  }

  lemma {:induction false} PartIsLess(some: seq<seq<Block>>, all: seq<seq<Block>>)
    requires some < all && NoneEmpty(all)
    ensures NoneEmpty(some) && Total(some) < Total(all)
  {
    assert all == some + all[|some|..];
    ConcatSplit(some, all[|some|..]);
    assert |all[|some|]| > 0;
    assert Concat(all[|some|..]) == all[|some|] + Concat(all[|some|..][1..]);
  }

  // ---- a run of responses ----

  /** The waiting list after all responses. */
  function WaitingAfter(ws: seq<Waiting>, rs: seq<Response>): seq<Waiting>
    decreases |rs|
  {
    if rs == [] then ws else WaitingAfter(Respond(ws, rs[0].peer, rs[0].blocks, rs[0].now).0, rs[1..])
  }

  /** The time of the last response of a peer, or t. */
  function LastHeard(rs: seq<Response>, peer: Peer, t: int): int {
    if rs == [] then t else LastHeard(rs[1..], peer, if rs[0].peer == peer then rs[0].now else t)
  }

  /** Without an entry nothing is handed on. */
  lemma {:induction false} NotWaitedFor(ws: seq<Waiting>, rs: seq<Response>, peer: Peer)
    requires EntryOf(ws, peer) == None
    ensures HandedOn(ws, rs, peer) == [] && EntryOf(WaitingAfter(ws, rs), peer) == None
    decreases |rs|
  {
    if rs != [] {
      hide EntryAt, Advanced;
      if rs[0].peer != peer { OthersKeepWaiting(ws, rs[0], peer); }
      NotWaitedFor(Respond(ws, rs[0].peer, rs[0].blocks, rs[0].now).0, rs[1..], peer);
    }
  }

  lemma {:induction false} FirstPart(got: seq<seq<Block>>, b: seq<Block>, rest: seq<seq<Block>>, remain: uint32, k: nat)
    requires k <= |rest|
    ensures Total([b] + rest) == |b| + Total(rest)
    ensures got + ([b] + rest) == (got + [b]) + rest && got + ([b] + rest)[..k + 1] == (got + [b]) + rest[..k]
    ensures got + ([b] + rest)[..1] == got + [b]
    ensures CompleteAt([b] + rest, remain) ==
      (if (remain - |b|) % TWO_32 == 0 then 1
       else if CompleteAt(rest, (remain - |b|) % TWO_32) == 0 then 0 else CompleteAt(rest, (remain - |b|) % TWO_32) + 1)
  {
    assert ([b] + rest)[1..] == rest && ([b] + rest)[..1] == [b] && ([b] + rest)[..k + 1] == [b] + rest[..k];
    assert got + ([b] + rest[..k]) == (got + [b]) + rest[..k];
  }

  /** What a peer's entry has become when its responses did not complete it. */
  ghost function StillMissing(w: Waiting, rs: seq<Response>): Waiting {
    var parts := From(rs, w.peer);
    Waiting(w.peer, LastHeard(rs, w.peer, w.lastTime), (w.remain - Total(parts)) % TWO_32, w.got + parts)
  }

  /** Whatever all peers send, the blocks of a peer with an entry are handed on once, in order,
      with the first response after which as many came as were missing modulo 2^32, and the entry
      goes; without such a response nothing is handed on and the entry stays, heard from last
      when the peer last sent anything. */
  lemma {:induction false} Delivery(ws: seq<Waiting>, rs: seq<Response>, w: Waiting)
    requires OnePerPeer(ws) && EntryOf(ws, w.peer) == Some(w)
    ensures var parts := From(rs, w.peer);
      var k := CompleteAt(parts, w.remain);
      && HandedOn(ws, rs, w.peer) == (if k == 0 then [] else [Concat(w.got + parts[..k])])
      && EntryOf(WaitingAfter(ws, rs), w.peer) == if k == 0 then Some(StillMissing(w, rs)) else None
    decreases |rs|
  {
    hide HandedOn, WaitingAfter, EntryOf, From, CompleteAt, Concat, StillMissing, OnePerPeer;
    DeliveryStepwise(ws, rs, w);
  }

  /** The list a peer's responses complete, if they do. */
  ghost function Completed(w: Waiting, rs: seq<Response>): seq<seq<Block>> {
    var parts := From(rs, w.peer);
    var k := CompleteAt(parts, w.remain);
    if k == 0 then [] else [Concat(w.got + parts[..k])]
  }

  /** The peer's entry after its responses. */
  ghost function Remaining(w: Waiting, rs: seq<Response>): Option<Waiting> {
    if CompleteAt(From(rs, w.peer), w.remain) == 0 then Some(StillMissing(w, rs)) else None
  }

  lemma {:induction false} DeliveryStepwise(ws: seq<Waiting>, rs: seq<Response>, w: Waiting)
    requires OnePerPeer(ws) && EntryOf(ws, w.peer) == Some(w)
    ensures HandedOn(ws, rs, w.peer) == Completed(w, rs) && EntryOf(WaitingAfter(ws, rs), w.peer) == Remaining(w, rs)
    decreases |rs|
  {
    if rs == [] {
      NothingSent(w);
      return;
    }
    hide EntryOf, OnePerPeer, Advanced, From, HandedOn, Respond, Concat, WaitingAfter, Completed, Remaining;
    var r := rs[0];
    var next, v := Respond(ws, r.peer, r.blocks, r.now).0, Advanced(w, r.blocks, r.now);
    StillOnePerPeer(ws, r);
    HandingUnfolds(ws, rs, w.peer);
    if r.peer != w.peer {
      OthersKeepWaiting(ws, r, w.peer);
      CompletedByOthers(w, rs);
      DeliveryStepwise(next, rs[1..], w);
    } else {
      AdvancedFields(w, r);
      OwnEntryAdvances(ws, r);
      CompletedByOwn(w, rs);
      if v.remain == 0 { NotWaitedFor(next, rs[1..], w.peer); } else { DeliveryStepwise(next, rs[1..], v); }
    }
  }

  lemma {:induction false} CompletedByOthers(w: Waiting, rs: seq<Response>)
    requires rs != [] && rs[0].peer != w.peer
    ensures Completed(w, rs) == Completed(w, rs[1..]) && Remaining(w, rs) == Remaining(w, rs[1..])
  {
    hide CompleteAt, Concat, StillMissing;
    assert From(rs, w.peer) == From(rs[1..], w.peer);
    MissingUnfolds(w, rs);
  }

  lemma {:induction false} CompletedByOwn(w: Waiting, rs: seq<Response>)
    requires rs != [] && rs[0].peer == w.peer
    ensures var v := Advanced(w, rs[0].blocks, rs[0].now);
      && (v.remain == 0 ==> Completed(w, rs) == [Concat(v.got)] && Remaining(w, rs) == None)
      && (v.remain != 0 ==> Completed(w, rs) == Completed(v, rs[1..]) && Remaining(w, rs) == Remaining(v, rs[1..]))
  {
    var v, b, rest := Advanced(w, rs[0].blocks, rs[0].now), rs[0].blocks, From(rs[1..], w.peer);
    assert From(rs, w.peer) == [b] + rest;
    hide CompleteAt, Concat, StillMissing, From;
    MissingUnfolds(w, rs);
    FirstPart(w.got, b, rest, w.remain, CompleteAt(rest, v.remain));
  }

  lemma {:induction false} NothingSent(w: Waiting)
    ensures StillMissing(w, []) == w
  {
    assert w.got + [] == w.got;
  }

  lemma {:induction false} AdvancedFields(w: Waiting, r: Response)
    ensures var v := Advanced(w, r.blocks, r.now);
      v.peer == w.peer && v.remain == (w.remain - |r.blocks|) % TWO_32 && v.got == w.got + [r.blocks]
          && v.lastTime == r.now
  {
  }

  lemma {:induction false} MissingUnfolds(w: Waiting, rs: seq<Response>)
    requires rs != []
    ensures rs[0].peer != w.peer ==> StillMissing(w, rs) == StillMissing(w, rs[1..])
    ensures rs[0].peer == w.peer ==> StillMissing(w, rs) == StillMissing(Advanced(w, rs[0].blocks, rs[0].now), rs[1..])
  {
    hide Advanced, Total, From, LastHeard;
    SentUnfolds(rs, w.peer, w.lastTime);
    if rs[0].peer == w.peer {
      var rest, b := From(rs[1..], w.peer), rs[0].blocks;
      AdvancedFields(w, rs[0]);
      FirstTotal(w.got, b, rest);
      ModTwice(w.remain, |b|, Total(rest));
    }
  }

  lemma {:induction false} SentUnfolds(rs: seq<Response>, peer: Peer, t: int)
    requires rs != []
    ensures rs[0].peer == peer ==>
      && From(rs, peer) == [rs[0].blocks] + From(rs[1..], peer)
      && LastHeard(rs, peer, t) == LastHeard(rs[1..], peer, rs[0].now)
    ensures rs[0].peer != peer ==>
      From(rs, peer) == From(rs[1..], peer) && LastHeard(rs, peer, t) == LastHeard(rs[1..], peer, t)
  {
  }

  lemma {:induction false} FirstTotal(got: seq<seq<Block>>, b: seq<Block>, rest: seq<seq<Block>>)
    ensures Total([b] + rest) == |b| + Total(rest) && got + ([b] + rest) == (got + [b]) + rest
  {
    assert ([b] + rest)[1..] == rest;
  }

  lemma {:induction false} ModTwice(r: int, a: nat, b: nat)
    ensures ((r - a) % TWO_32 - b) % TWO_32 == (r - (a + b)) % TWO_32
  {
    var q := (r - a) / TWO_32;
    assert (r - a) % TWO_32 == r - a - q * TWO_32;
    ModShift(r - a - b, q);
  }

  lemma {:induction false} HandingUnfolds(ws: seq<Waiting>, rs: seq<Response>, peer: Peer)
    requires rs != []
    ensures rs[0].peer == peer ==> From(rs, peer) == [rs[0].blocks] + From(rs[1..], peer)
    ensures rs[0].peer != peer ==> From(rs, peer) == From(rs[1..], peer)
    ensures var (next, done) := Respond(ws, rs[0].peer, rs[0].blocks, rs[0].now);
      && WaitingAfter(ws, rs) == WaitingAfter(next, rs[1..])
      && HandedOn(ws, rs, peer) ==
         if rs[0].peer == peer && done.Some? then [done.value] + HandedOn(next, rs[1..], peer)
         else HandedOn(next, rs[1..], peer)
    ensures forall x: seq<Block> :: [x] + [] == [x]
  {
    hide Respond;
  }

  /** A peer that sends two blocks where one is missing gets past zero: nothing is handed on, the
      entry stays with 2^32 - 1 blocks missing, and every further response makes it younger. */
  lemma {:induction false} OneTooMany(b: Block, peer: Peer, before: int, now: int)
    ensures var ws, rs := [Waiting(peer, before, 1, [])], [Response(peer, [b, b], now)];
      && HandedOn(ws, rs, peer) == []
      && WaitingAfter(ws, rs) == [Waiting(peer, now, TWO_32 - 1, [[b, b]])]
      && Alive(WaitingAfter(ws, rs), now + RESPONSE_SECONDS) == WaitingAfter(ws, rs)
  {
    var ws, rs := [Waiting(peer, before, 1, [])], [Response(peer, [b, b], now)];
    assert rs[1..] == [] && EntryAt(ws, peer, 0) == 0;
    var after := [Waiting(peer, now, TWO_32 - 1, [[b, b]])];
    assert [] + [[b, b]] == [[b, b]];
    assert Advanced(ws[0], [b, b], now) == after[0];
    assert ws[0 := after[0]] == after;
    assert Respond(ws, peer, [b, b], now) == (after, None);
    assert WaitingAfter(ws, rs) == WaitingAfter(after, rs[1..]) == after;
    assert HandedOn(after, rs[1..], peer) == [];
    assert after[..0] == [] && Alive([], now + RESPONSE_SECONDS) == [];
  }

  // ---- the node's bookkeeping ----

  /** Entries that heard from their peer within the last eighty seconds. */
  function Alive(ws: seq<Waiting>, now: int): seq<Waiting> {
    if ws == [] then []
    else
      var rest, w := Alive(ws[..|ws| - 1], now), ws[|ws| - 1];
      if now - w.lastTime <= RESPONSE_SECONDS then rest + [w] else rest
  }

  lemma {:induction false} AliveKeeps(ws: seq<Waiting>, now: int, asked: map<Peer, uint32>)
    requires OnePerPeer(ws) && Conserved(ws, asked)
    ensures OnePerPeer(Alive(ws, now)) && Conserved(Alive(ws, now), asked)
    ensures forall w :: w in Alive(ws, now) <==> w in ws && now - w.lastTime <= 80
  {
    hide Counted;
    if ws != [] {
      var n := |ws| - 1;
      AliveKeeps(ws[..n], now, asked);
      assert ws == ws[..n] + [ws[n]];
      var rest := Alive(ws[..n], now);
      forall k | 0 <= k < |rest| ensures rest[k].peer != ws[n].peer {
        assert rest[k] in ws[..n];
      }
    }
  }

  /** Entry k and request k go to the same peer and ask for what its answer promised. */
  ghost predicate Asks(answers: map<Peer, HashResponse>, w: Waiting, q: BlockRequest, now: int, light: bool) {
    && w.peer in answers && answers[w.peer].Behind?
    && w == Waiting(w.peer, now, answers[w.peer].diff, [])
    && q == BlockRequest(w.peer, answers[w.peer].base, answers[w.peer].end, light)
  }

  predicate SameOffer(a: HashResponse, b: HashResponse) {
    a.Behind? && b.Behind? && a.end == b.end && a.diff == b.diff
  }

  /** One request per different offer among the peers seen: each is asked of a seen peer, no two
      are for the same offer, and every seen offer is asked for. */
  ghost predicate Plan(answers: map<Peer, HashResponse>, seen: set<Peer>, ws: seq<Waiting>, qs: seq<BlockRequest>,
      now: int, light: bool)
  {
    && |qs| == |ws| && seen <= answers.Keys
    && (forall k | 0 <= k < |ws| :: ws[k].peer in seen && Asks(answers, ws[k], qs[k], now, light))
    && DifferentOffers(answers, ws)
    && (forall p | p in seen && answers[p].Behind? :: Asked(answers, ws, answers[p]))
  }

  ghost predicate DifferentOffers(answers: map<Peer, HashResponse>, ws: seq<Waiting>) {
    forall j, k | 0 <= j < k < |ws| ::
      ws[j].peer in answers && ws[k].peer in answers ==> !SameOffer(answers[ws[j].peer], answers[ws[k].peer])
  }

  /** An offer like a is asked for. */
  ghost predicate Asked(answers: map<Peer, HashResponse>, ws: seq<Waiting>, a: HashResponse) {
    exists k | 0 <= k < |ws| :: ws[k].peer in answers && SameOffer(a, answers[ws[k].peer])
  }

  /** The set of offers seen is what is asked for. */
  ghost predicate Offered(answers: map<Peer, HashResponse>, ws: seq<Waiting>, offers: set<(Bytes, uint32)>) {
    forall a: HashResponse | a.Behind? :: (a.end, a.diff) in offers <==> Asked(answers, ws, a)
  }

  lemma {:induction false} AskedMore(answers: map<Peer, HashResponse>, ws: seq<Waiting>, w: Waiting, a: HashResponse)
    requires w.peer in answers
    ensures Asked(answers, ws + [w], a) <==> Asked(answers, ws, a) || SameOffer(a, answers[w.peer])
  {
    var more := ws + [w];
    assert more[|ws|] == w;
    if Asked(answers, ws, a) {
      var k :| 0 <= k < |ws| && ws[k].peer in answers && SameOffer(a, answers[ws[k].peer]);
      assert more[k] == ws[k];
    }
  }

  lemma {:induction false} PlanAsks(answers: map<Peer, HashResponse>, seen: set<Peer>, ws: seq<Waiting>,
      qs: seq<BlockRequest>, now: int, light: bool, p: Peer, offers: set<(Bytes, uint32)>)
    requires Plan(answers, seen, ws, qs, now, light) && Offered(answers, ws, offers)
    requires p in answers && answers[p].Behind? && !Asked(answers, ws, answers[p])
    ensures var a := answers[p];
      && Plan(answers, seen + {p}, ws + [Waiting(p, now, a.diff, [])], qs + [BlockRequest(p, a.base, a.end, light)],
         now, light)
      && Offered(answers, ws + [Waiting(p, now, a.diff, [])], offers + {(a.end, a.diff)})
  {
    hide Asked, Plan, Offered;
    var w := Waiting(p, now, answers[p].diff, []);
    OffersGrow(answers, ws, w, offers);
    PlanGrows(answers, seen, ws, qs, now, light, w);
  }

  lemma {:induction false} OffersGrow(answers: map<Peer, HashResponse>, ws: seq<Waiting>, w: Waiting,
      offers: set<(Bytes, uint32)>)
    requires Offered(answers, ws, offers) && w.peer in answers && answers[w.peer].Behind?
    ensures Offered(answers, ws + [w], offers + {(answers[w.peer].end, answers[w.peer].diff)})
  {
    hide Asked;
    forall a: HashResponse | a.Behind?
      ensures Asked(answers, ws + [w], a) <==> Asked(answers, ws, a) || SameOffer(a, answers[w.peer])
    {
      AskedMore(answers, ws, w, a);
    }
  }

  lemma {:induction false} PlanGrows(answers: map<Peer, HashResponse>, seen: set<Peer>, ws: seq<Waiting>,
      qs: seq<BlockRequest>, now: int, light: bool, w: Waiting)
    requires Plan(answers, seen, ws, qs, now, light) && w.peer in answers && answers[w.peer].Behind?
    requires w == Waiting(w.peer, now, answers[w.peer].diff, []) && !Asked(answers, ws, answers[w.peer])
    ensures var a := answers[w.peer];
      Plan(answers, seen + {w.peer}, ws + [w], qs + [BlockRequest(w.peer, a.base, a.end, light)], now, light)
  {
    hide Asked, SameOffer, DifferentOffers;
    NewOffer(answers, ws, w);
    var more, q := ws + [w], BlockRequest(w.peer, answers[w.peer].base, answers[w.peer].end, light);
    assert Asks(answers, w, q, now, light);
    hide Asks;
    forall k | 0 <= k < |more| ensures more[k].peer in seen + {w.peer}
        && Asks(answers, more[k], (qs + [q])[k], now, light) {
      if k < |ws| { assert more[k] == ws[k] && (qs + [q])[k] == qs[k]; }
    }
    forall p | p in seen + {w.peer} && answers[p].Behind? ensures Asked(answers, more, answers[p]) {
      AskedMore(answers, ws, w, answers[p]);
      SameOfferAsItself(answers[w.peer]);
    }
  }

  lemma {:induction false} SameOfferAsItself(a: HashResponse)
    ensures a.Behind? ==> SameOffer(a, a)
  {
  }

  lemma {:induction false} NewOffer(answers: map<Peer, HashResponse>, ws: seq<Waiting>, w: Waiting)
    requires DifferentOffers(answers, ws) && w.peer in answers && !Asked(answers, ws, answers[w.peer])
    ensures DifferentOffers(answers, ws + [w])
  {
    forall k | 0 <= k < |ws| && ws[k].peer in answers ensures !SameOffer(answers[ws[k].peer], answers[w.peer]) {
      assert !SameOffer(answers[w.peer], answers[ws[k].peer]);
    }
  }

  lemma {:induction false} EntryAsked(ws: seq<Waiting>, asked: map<Peer, uint32>, w: Waiting)
    requires OnePerPeer(ws) && Conserved(ws, asked) && w.got == [] && forall k | 0 <= k < |ws| :: ws[k].peer != w.peer
    ensures OnePerPeer(ws + [w]) && Conserved(ws + [w], asked[w.peer := w.remain])
  {
  }

  lemma {:induction false} PlanNothing(answers: map<Peer, HashResponse>, now: int, light: bool)
    ensures Plan(answers, {}, [], [], now, light) && Offered(answers, [], {})
    ensures OnePerPeer([]) && Conserved([], map[])
  {
  }

  /** A peer not seen yet has no entry, and its offer is new exactly when it is not in the set. */
  lemma {:induction false} NewPeer(answers: map<Peer, HashResponse>, seen: set<Peer>, ws: seq<Waiting>,
      qs: seq<BlockRequest>, now: int, light: bool, offers: set<(Bytes, uint32)>, p: Peer)
    requires Plan(answers, seen, ws, qs, now, light) && Offered(answers, ws, offers) && p in answers && p !in seen
    ensures forall k | 0 <= k < |ws| :: ws[k].peer != p
    ensures answers[p].Behind? ==> ((answers[p].end, answers[p].diff) in offers <==> Asked(answers, ws, answers[p]))
    ensures (answers[p].Behind? ==> Asked(answers, ws, answers[p])) ==> Plan(answers, seen + {p}, ws, qs, now, light)
  {
    hide Asked, Asks, SameOffer;
  }

  /** Goes through the answers in any order and asks one peer for every different offer. */
  method PlanRequests(answers: map<Peer, HashResponse>, now: int, light: bool)
    returns (ws: seq<Waiting>, requests: seq<BlockRequest>, current: bool, ghost diffs: map<Peer, uint32>)
    ensures Plan(answers, answers.Keys, ws, requests, now, light)
    ensures current <==> forall p | p in answers :: answers[p].Current?
    ensures OnePerPeer(ws) && Conserved(ws, diffs)
  {
    hide Plan, Offered, Asked, OnePerPeer, Conserved;
    PlanNothing(answers, now, light);
    ws, requests, current, diffs := [], [], true, map[];
    var offers: set<(Bytes, uint32)> := {};
    var todo := answers.Keys;
    ghost var seen: set<Peer> := {};
    while todo != {}
      invariant seen + todo == answers.Keys && seen !! todo && Plan(answers, seen, ws, requests, now, light)
          && Offered(answers, ws, offers)
      invariant current <==> forall p | p in seen :: answers[p].Current?
      invariant OnePerPeer(ws) && Conserved(ws, diffs)
      decreases todo
    {
      var peer :| peer in todo;
      var a := answers[peer];
      NewPeer(answers, seen, ws, requests, now, light, offers, peer);
      if a.Behind? {
        current := false;
        if (a.end, a.diff) !in offers {
          var w := Waiting(peer, now, a.diff, []);
          PlanAsks(answers, seen, ws, requests, now, light, peer, offers);
          EntryAsked(ws, diffs, w);
          offers := offers + {(a.end, a.diff)};
          requests := requests + [BlockRequest(peer, a.base, a.end, light)];
          ws, diffs := ws + [w], diffs[peer := a.diff];
        }
      }
      todo, seen := todo - {peer}, seen + {peer};
    }
  }

  datatype Action = Waited | AskHashes | AskBlocks(requests: seq<BlockRequest>)

  class Node {
    const light: bool
    var inited: bool
    var waitingHash: bool
    var answers: map<Peer, HashResponse>
    var waiting: seq<Waiting>

    /** What was asked of each peer in the entry it has. */
    ghost var asked: map<Peer, uint32>

    ghost predicate Valid()
      reads this
    {
      OnePerPeer(waiting) && Conserved(waiting, asked)
    }

    constructor (light: bool)
      ensures Valid() && !inited && !waitingHash && answers == map[] && waiting == []
    {
      this.light, inited, waitingHash, answers, waiting, asked := light, false, false, map[], [], map[];
    }

    /** Answers count only while the node waits for them; a peer's newest one counts. */
    method HandleSyncResponse(r: HashResponse, peer: Peer)
      requires Valid()
      modifies this`answers
      ensures Valid() && answers == if waitingHash then old(answers)[peer := r] else old(answers)
    {
      if !waitingHash { return; }
      answers := answers[peer := r];
    }

    method HandleBlocksResponse(blocks: seq<Block>, peer: Peer, now: int) returns (done: Option<seq<Block>>)
      requires Valid()
      modifies this`waiting
      ensures Valid() && (waiting, done) == Respond(old(waiting), peer, blocks, now)
      ensures done.Some? ==> peer in asked && |done.value| % TWO_32 == asked[peer]
    {
      hide OnePerPeer, Conserved, Concat, Total;
      RespondKeeps(waiting, asked, peer, blocks, now);
      for i := 0 to |waiting|
        invariant EntryAt(waiting, peer, 0) == EntryAt(waiting, peer, i)
        invariant waiting == old(waiting)
      {
        if waiting[i].peer == peer {
          var w := Advanced(waiting[i], blocks, now);
          if w.remain == 0 {
            done := Some(Concat(w.got));
            waiting := waiting[..i] + waiting[i + 1..];
          } else {
            done := None;
            waiting := waiting[i := w];
          }
          return;
        }
      }
      done := None;
    }

    /** Forgets the peers that have been silent for too long. */
    method DropSilent(now: int)
      requires Valid()
      modifies this`waiting
      ensures Valid() && waiting == Alive(old(waiting), now)
    {
      AliveKeeps(waiting, now, asked);
      var alive: seq<Waiting> := [];
      for i := 0 to |waiting|
        invariant alive == Alive(waiting[..i], now)
      {
        assert waiting[..i + 1][..i] == waiting[..i];
        if now - waiting[i].lastTime <= RESPONSE_SECONDS { alive := alive + [waiting[i]]; }
      }
      assert waiting[..|waiting|] == waiting;
      waiting := alive;
    }

    /** Asks one peer for every different offer of blocks, in any order of the peers. */
    method RequestBlocks(now: int) returns (requests: seq<BlockRequest>, finished: bool)
      requires Valid() && waiting == [] && answers.Keys != {}
      modifies this
      ensures Valid() && answers == map[] && !waitingHash
      ensures Plan(old(answers), old(answers.Keys), waiting, requests, now, light)
      ensures finished <==> !old(inited) && forall p | p in old(answers) :: old(answers)[p].Current?
      ensures inited == (old(inited) || finished)
    {
      hide Plan, OnePerPeer, Conserved;
      var current: bool;
      waiting, requests, current, asked := PlanRequests(answers, now, light);
      answers, waitingHash := map[], false;
      finished := !inited && current;
      if finished { inited := true; }
    }

    /** One tick: while blocks are awaited, silent peers are dropped; otherwise hashes are asked
        for, or blocks if answers have come in. */
    method Sync(now: int) returns (action: Action)
      requires Valid()
      modifies this
      ensures Valid()
      ensures old(waiting) != [] ==>
        action == Waited && waiting == Alive(old(waiting), now) && answers == old(answers)
            && waitingHash == old(waitingHash)
      ensures old(waiting) == [] && old(answers.Keys) == {} ==>
        action == AskHashes && waitingHash && waiting == [] && answers == old(answers)
      ensures old(waiting) == [] && old(answers.Keys) != {} ==>
        && action.AskBlocks? && !waitingHash && answers == map[]
        && Plan(old(answers), old(answers.Keys), waiting, action.requests, now, light)
      ensures inited == (old(inited) || (action.AskBlocks? && waiting == []))
    {
      hide Plan, OnePerPeer, Conserved, Alive;
      if |waiting| != 0 {
        DropSilent(now);
        return Waited;
      }
      if answers.Keys == {} {
        waitingHash := true;
        return AskHashes;
      }
      ghost var all := answers;
      var requests, finished := RequestBlocks(now);
      PlanIsEmpty(all, waiting, requests, now, light);
      return AskBlocks(requests);
    }
  }

  /** Nothing is asked for exactly when every peer says the node is up to date. */
  lemma {:induction false} PlanIsEmpty(answers: map<Peer, HashResponse>, ws: seq<Waiting>, qs: seq<BlockRequest>,
      now: int, light: bool)
    requires Plan(answers, answers.Keys, ws, qs, now, light)
    ensures ws == [] <==> forall p | p in answers :: answers[p].Current?
  {
    if ws != [] {
      assert Asks(answers, ws[0], qs[0], now, light);
    } else {
      forall p | p in answers ensures answers[p].Current? {
        assert answers[p].Behind? ==> Asked(answers, ws, answers[p]);
      }
    }
  }

  // ---- both sides together ----

  /** A peer in state s answers first for the hash and then for the blocks; if the node started
      waiting for that many and gets the responses in order among any others, it hands on, once
      and with the last response, a list of blocks that links up from its base to the peer's end. */
  lemma {:induction false} SyncCompletes(g: Block, u: set<Block>, limit: uint32, s: State, base: Bytes,
      onlyHeader: bool, ws: seq<Waiting>, w: Waiting, rs: seq<Response>)
    requires HashIdentity(g, u) && Sound(g, u, limit, s)
    requires s.longest < |s.chains| && s.cut < |s.chains[s.longest]| < TWO_32 && |s.db| < TWO_32
    requires SyncHash(s, base).Ahead? && SyncHash(s, base).diff > 0
    requires OnePerPeer(ws) && EntryOf(ws, w.peer) == Some(w) && w.remain == SyncHash(s, base).diff && w.got == []
    requires var answer := SyncBlocks(s, base, SyncHash(s, base).end, onlyHeader);
      answer.Found? ==> NoneEmpty(From(rs, w.peer)) && Concat(From(rs, w.peer)) == answer.blocks
    ensures var answer := SyncBlocks(s, base, SyncHash(s, base).end, onlyHeader);
      && answer.Found? && LinksUp(base, answer.blocks, SyncHash(s, base).end)
      && HandedOn(ws, rs, w.peer) == [answer.blocks]
    ensures forall k | 0 <= k <= |rs| && From(rs[..k], w.peer) < From(rs, w.peer) :: HandedOn(ws, rs[..k], w.peer) == []
  {
    hide HashIdentity, Sound, LinksUp, From, HandedOn, Concat, Total, EntryOf, OnePerPeer, SyncHash, SyncBlocks,
         NoneEmpty, CompleteAt, WaitingAfter, StillMissing;
    SyncAgrees(g, u, limit, s, base, onlyHeader);
    SyncIsShort(s, base, onlyHeader);
    InTime(ws, rs, w);
  }

  /** Responses that are as many as missing are handed on whole, and not before the last. */
  lemma {:induction false} InTime(ws: seq<Waiting>, rs: seq<Response>, w: Waiting)
    requires OnePerPeer(ws) && EntryOf(ws, w.peer) == Some(w) && w.got == [] && w.remain > 0
    requires NoneEmpty(From(rs, w.peer)) && Total(From(rs, w.peer)) == w.remain
    ensures HandedOn(ws, rs, w.peer) == [Concat(From(rs, w.peer))]
    ensures forall k | 0 <= k <= |rs| && From(rs[..k], w.peer) < From(rs, w.peer) :: HandedOn(ws, rs[..k], w.peer) == []
  {
    hide From, HandedOn, Concat, Total, EntryOf, OnePerPeer, NoneEmpty, CompleteAt, WaitingAfter, StillMissing;
    var parts := From(rs, w.peer);
    CompleteInTime(parts, w.remain);
    Delivery(ws, rs, w);
    assert [] + parts[..|parts|] == parts;
    forall k | 0 <= k <= |rs| && From(rs[..k], w.peer) < parts ensures HandedOn(ws, rs[..k], w.peer) == [] {
      TooEarly(ws, rs[..k], w, parts);
    }
  }

  lemma {:induction false} TooEarly(ws: seq<Waiting>, rs: seq<Response>, w: Waiting, all: seq<seq<Block>>)
    requires OnePerPeer(ws) && EntryOf(ws, w.peer) == Some(w) && w.remain > 0
    requires NoneEmpty(all) && Total(all) == w.remain && From(rs, w.peer) < all
    ensures HandedOn(ws, rs, w.peer) == []
  {
    hide From, HandedOn, Concat, Total, EntryOf, OnePerPeer, NoneEmpty, CompleteAt, WaitingAfter, StillMissing;
    PartIsLess(From(rs, w.peer), all);
    CompleteInTime(From(rs, w.peer), w.remain);
    Delivery(ws, rs, w);
  }

  lemma {:induction false} SyncIsShort(s: State, base: Bytes, onlyHeader: bool)
    requires s.longest < |s.chains| && s.cut < |s.chains[s.longest]| < TWO_32 && |s.db| < TWO_32
        && SyncHash(s, base).Ahead?
    requires var a := SyncHash(s, base); Delivers(base, a, SyncBlocks(s, base, a.end, onlyHeader))
    ensures |SyncBlocks(s, base, SyncHash(s, base).end, onlyHeader).blocks| == SyncHash(s, base).diff
  {
    hide LinksUp, Find, HeightOfHash, Copies, ReadBacks;
  }
}
