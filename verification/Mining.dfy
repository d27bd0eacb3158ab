/** One mining job: workers, a coordinator and buffered channels (core/parallel_mine.go). */
module Mining {
  import opened Records
  import opened Codec
  import opened Pow

  /** What a worker ends with. */
  datatype Verdict = Found(nonce: nat) | NotFound | Stopped

  /** The number of nonces between the begin and the end of a worker's range. */
  function Interval(parallel: nat): nat
    requires parallel > 0
  {
    (TWO_32 - 1) / parallel
  }

  // ---- a worker alone ----

  /** No nonce from `from` up to but not including `to` is good enough. */
  ghost predicate Tried(H: Bytes -> Bytes, difficulty: nat, h: Header, from: nat, to: nat) {
    forall n: uint32 | from <= n < to :: HeaderPow(H, h.(nonce := n)) >= difficulty
  }

  /** The stop channel is empty at the first n looks. */
  ghost predicate NoStop(stop: nat -> bool, n: nat) {
    forall k: nat | k < n :: !stop(k)
  }

  /** The search of one worker, which looks at the stop channel before every nonce; `stop` tells what it
      sees at each look. The nonces from begin to end are tried in order, both included; with begin
      equal to end, none is. The search ends at the first good nonce or the first stop, whichever is
      earlier, and fails after all nonces. */
  method Search(H: Bytes -> Bytes, difficulty: nat, h: Header, begin: uint32, end: uint32, stop: nat -> bool)
    returns (v: Verdict, looks: nat)
    requires begin <= end
    ensures v.Found? ==>
      && begin <= v.nonce <= end && HeaderPow(H, h.(nonce := v.nonce)) < difficulty
      && Tried(H, difficulty, h, begin, v.nonce) && looks == v.nonce - begin + 1 && NoStop(stop, looks)
    ensures v.NotFound? ==>
      if begin < end then Tried(H, difficulty, h, begin, end + 1) && looks == end - begin + 2 && NoStop(stop, looks)
      else looks == 1 && NoStop(stop, looks)
    ensures v.Stopped? ==>
      && looks > 0 && NoStop(stop, looks - 1) && stop(looks - 1)
      && Tried(H, difficulty, h, begin, begin + looks - 1)
  {
    hide HeaderPow, MinedHeader.Fresh;
    var copy := new MinedHeader(h.(nonce := begin));
    ghost var to: nat := begin;
    looks := 0;
    while true
      invariant fresh(copy) && fresh(copy.cache) && fresh(copy.cache.bytes) && copy.Fresh()
      invariant begin <= copy.header.nonce <= end && copy.header == h.(nonce := copy.header.nonce)
      invariant Tried(H, difficulty, h, begin, to) && looks == to - begin && NoStop(stop, looks)
      invariant to == (if copy.cache.cached then copy.header.nonce + 1 else begin)
          && (!copy.cache.cached ==> copy.header.nonce == begin)
      invariant copy.cache.cached ==> begin < end
      decreases end + 1 - to
    {
      looks := looks + 1;
      if stop(looks - 1) { return Stopped, looks; }
      if copy.header.nonce == end { return NotFound, looks; }
      var pow := copy.NextNonce(H);
      if pow < difficulty { return Found(copy.header.nonce), looks; }
      to := to + 1;
    }
  }

  // ---- the whole job as a step system ----

  /** A worker looks at the stop channel, then works on one nonce, and so on until it ends.
      `cached` is set once the value of the first nonce has been computed. */
  datatype Worker =
    | Looking(nonce: nat, cached: bool)
    | Working(nonce: nat, cached: bool)
    | Ended(verdict: Verdict)

  datatype Coordinator = Waiting | Stopping(sent: nat) | Gone

  /** What the caller gets; the last two are the same message on the channel. */
  datatype Delivery = Nonce(nonce: nat) | Exhausted | TimedOut

  /** `results` is the workers' channel with the sender of each message, `received` the workers
      whose failure was counted, `tokens` the content of the stop channel, `delivered` all that
      was ever sent to the caller. */
  datatype Job = Job(
    workers: seq<Worker>, results: seq<(nat, Verdict)>, received: set<nat>, tokens: nat,
    coordinator: Coordinator, delivered: seq<Delivery>, stopAsked: bool, stopPending: bool)

  datatype Setup = Setup(parallel: nat, good: nat -> bool)

  function Begin(c: Setup, i: nat): nat
    requires c.parallel > 0
  {
    i * Interval(c.parallel)
  }

  function End(c: Setup, i: nat): nat
    requires c.parallel > 0
  {
    Begin(c, i) + Interval(c.parallel)
  }

  function Start(c: Setup): Job
    requires c.parallel > 0
  {
    Job(seq(c.parallel, i requires 0 <= i => Looking(Begin(c, i), false)), [], {}, 0, Waiting, [], false, false)
  }

  /** The steps of the workers and the coordinator. */
  datatype Step = Look(i: nat) | Work(i: nat) | Receive | SeeStop | SendStop | Leave | Timeout | Terminate

  /** A send to a full channel would have to wait. */
  predicate RoomForResult(c: Setup, s: Job) {
    |s.results| < c.parallel
  }

  predicate RoomForToken(c: Setup, s: Job) {
    s.tokens < c.parallel
  }

  predicate RoomForDelivery(s: Job) {
    s.delivered == []
  }

  predicate Enabled(c: Setup, s: Job, step: Step)
    requires c.parallel > 0
  {
    match step
    case Look(i) => i < |s.workers| && s.workers[i].Looking?
    case Work(i) => i < |s.workers| && s.workers[i].Working? && (Sends(c, s, i) ==> RoomForResult(c, s))
    case Receive => s.coordinator == Waiting && s.results != [] && (Answers(c, s) ==> RoomForDelivery(s))
    case SeeStop => s.coordinator == Waiting && s.stopPending
    case SendStop => s.coordinator.Stopping? && s.coordinator.sent < c.parallel && RoomForToken(c, s)
    case Leave => s.coordinator.Stopping? && s.coordinator.sent == c.parallel
    case Timeout => s.coordinator == Waiting && RoomForDelivery(s)
    case Terminate => !s.stopAsked
  }

  /** The nonce a working worker looks at next. */
  function NextOf(w: Worker): nat
    requires w.Working?
  {
    if w.cached then w.nonce + 1 else w.nonce
  }

  /** The working worker i is about to send a result. */
  predicate Sends(c: Setup, s: Job, i: nat)
    requires c.parallel > 0 && i < |s.workers| && s.workers[i].Working?
  {
    s.workers[i].nonce == End(c, i) || c.good(NextOf(s.workers[i]))
  }

  /** The message at the front makes the coordinator answer the caller. */
  predicate Answers(c: Setup, s: Job)
    requires s.results != []
  {
    s.results[0].1.Found? || |s.received + {s.results[0].0}| == c.parallel
  }

  function Worked(c: Setup, s: Job, i: nat): Job
    requires c.parallel > 0 && i < |s.workers| && s.workers[i].Working?
  {
    var w := s.workers[i];
    if w.nonce == End(c, i) then
      s.(workers := s.workers[i := Ended(NotFound)], results := s.results + [(i, NotFound)])
    else if c.good(NextOf(w)) then
      s.(workers := s.workers[i := Ended(Found(NextOf(w)))], results := s.results + [(i, Found(NextOf(w)))])
    else s.(workers := s.workers[i := Looking(NextOf(w), true)])
  }

  function Received(c: Setup, s: Job): Job
    requires s.results != []
  {
    var (i, v) := s.results[0];
    var t := s.(results := s.results[1..]);
    if v.Found? then t.(delivered := s.delivered + [Nonce(v.nonce)], coordinator := Stopping(0))
    else
      var u := t.(received := s.received + {i});
      if |u.received| == c.parallel then u.(delivered := s.delivered + [Exhausted], coordinator := Stopping(0)) else u
  }

  function After(c: Setup, s: Job, step: Step): Job
    requires c.parallel > 0 && Enabled(c, s, step)
  {
    match step
    case Look(i) =>
      var w := s.workers[i];
      if s.tokens > 0 then s.(workers := s.workers[i := Ended(Stopped)], tokens := s.tokens - 1)
      else s.(workers := s.workers[i := Working(w.nonce, w.cached)])
    case Work(i) => Worked(c, s, i)
    case Receive => Received(c, s)
    case SeeStop => s.(coordinator := Stopping(0), stopPending := false)
    case SendStop => s.(coordinator := Stopping(s.coordinator.sent + 1), tokens := s.tokens + 1)
    case Leave => s.(coordinator := Gone)
    case Timeout => s.(delivered := s.delivered + [TimedOut], coordinator := Stopping(0))
    case Terminate => s.(stopAsked := true, stopPending := true)
  }

  // ---- the invariant ----

  /** Where a worker can be: all nonces it went past are not good. */
  ghost predicate WorkerOk(c: Setup, i: nat, w: Worker)
    requires c.parallel > 0
  {
    match w
    case Ended(Found(n)) => Interval(c.parallel) > 0 && Begin(c, i) <= n <= End(c, i) && c.good(n)
    case Ended(NotFound) => Interval(c.parallel) > 0 ==> forall n | Begin(c, i) <= n <= End(c, i) :: !c.good(n)
    case Ended(Stopped) => true
    case _ =>
      && Begin(c, i) <= w.nonce <= End(c, i) && (!w.cached ==> w.nonce == Begin(c, i))
      && (w.cached ==> forall n | Begin(c, i) <= n <= w.nonce :: !c.good(n))
  }

  ghost predicate WorkersOk(c: Setup, s: Job)
    requires c.parallel > 0
  {
    |s.workers| == c.parallel && forall i | 0 <= i < |s.workers| :: WorkerOk(c, i, s.workers[i])
  }

  /** Every message on the channel or counted is from a different worker that ended with it. */
  ghost predicate MessagesOk(s: Job) {
    && (forall k | 0 <= k < |s.results| ::
         s.results[k].0 < |s.workers| && s.workers[s.results[k].0] == Ended(s.results[k].1)
         && s.results[k].1 != Stopped && s.results[k].0 !in s.received)
    && (forall j, k | 0 <= j < k < |s.results| :: s.results[j].0 != s.results[k].0)
    && (forall i | i in s.received :: i < |s.workers| && s.workers[i] == Ended(NotFound))
  }

  /** While the coordinator waits, nothing was delivered or stopped and no message got lost. */
  ghost predicate CoordinatorOk(c: Setup, s: Job) {
    match s.coordinator
    case Waiting =>
      && s.delivered == [] && s.tokens == 0 && |s.received| < c.parallel
      && (forall i | 0 <= i < |s.workers| && s.workers[i].Ended? :: i in s.received || Queued(s, i))
    case Stopping(sent) => |s.delivered| <= 1 && s.tokens <= sent <= c.parallel
    case Gone => |s.delivered| <= 1 && s.tokens <= c.parallel
  }

  ghost predicate Queued(s: Job, i: nat) {
    exists k | 0 <= k < |s.results| :: s.results[k].0 == i
  }

  ghost predicate DeliveryOk(c: Setup, d: Delivery)
    requires c.parallel > 0
  {
    match d
    case Nonce(n) => Interval(c.parallel) > 0 && n <= c.parallel * Interval(c.parallel) && c.good(n)
    case Exhausted => Interval(c.parallel) > 0 ==> forall n | 0 <= n <= c.parallel * Interval(c.parallel) :: !c.good(n)
    case TimedOut => true
  }

  ghost predicate Inv(c: Setup, s: Job)
    requires c.parallel > 0
  {
    && WorkersOk(c, s) && MessagesOk(s) && CoordinatorOk(c, s)
    && (forall k | 0 <= k < |s.delivered| :: DeliveryOk(c, s.delivered[k]))
  }

  // ---- counting ----

  function Indices(n: nat): (r: set<nat>)
    ensures |r| == n && forall i :: i in r <==> 0 <= i < n
  {
    if n == 0 then {} else Indices(n - 1) + {n - 1}
  }

  lemma {:induction false} SubsetSize(a: set<nat>, b: set<nat>)
    requires a <= b
    ensures |a| <= |b| && (|a| == |b| ==> a == b)
  {
    assert |b - a| == |b| - |a|;
    if |a| == |b| { assert b - a == {}; }
  }

  /** Counting all workers means each of them. */
  lemma {:induction false} AllCounted(a: set<nat>, n: nat)
    requires (forall i | i in a :: i < n) && |a| == n
    ensures forall i | 0 <= i < n :: i in a
  {
    SubsetSize(a, Indices(n));
  }

  ghost function Senders(results: seq<(nat, Verdict)>): set<nat> {
    set k | 0 <= k < |results| :: results[k].0
  }

  lemma {:induction false} SendersCount(results: seq<(nat, Verdict)>)
    requires forall j, k | 0 <= j < k < |results| :: results[j].0 != results[k].0
    ensures |Senders(results)| == |results|
  {
    if results != [] {
      var n := |results| - 1;
      SendersCount(results[..n]);
      assert Senders(results) == Senders(results[..n]) + {results[n].0};
    }
  }

  // ---- no send ever waits ----

  lemma {:induction false} ResultsHaveRoom(c: Setup, s: Job, i: nat)
    requires c.parallel > 0 && WorkersOk(c, s) && MessagesOk(s) && i < |s.workers| && !s.workers[i].Ended?
    ensures RoomForResult(c, s)
  {
    SendersCount(s.results);
    SubsetSize(Senders(s.results), Indices(c.parallel) - {i});
  }

  /** In every reachable state, whoever is about to send on a channel finds room there. */
  lemma {:induction false} NoSendWaits(c: Setup, s: Job)
    requires c.parallel > 0 && Inv(c, s)
    ensures forall i | 0 <= i < |s.workers| && s.workers[i].Working? :: Enabled(c, s, Work(i))
    ensures s.coordinator == Waiting && s.results != [] ==> Enabled(c, s, Receive)
    ensures s.coordinator == Waiting ==> Enabled(c, s, Timeout)
    ensures s.coordinator.Stopping? && s.coordinator.sent < c.parallel ==> Enabled(c, s, SendStop)
  {
    forall i | 0 <= i < |s.workers| && s.workers[i].Working? ensures Enabled(c, s, Work(i)) {
      ResultsHaveRoom(c, s, i);
    }
  }

  // ---- every step keeps the invariant ----

  lemma {:induction false} StartOk(c: Setup)
    requires c.parallel > 0
    ensures Inv(c, Start(c))
  {
    hide Interval;
  }

  lemma {:induction false} LookKeeps(c: Setup, s: Job, i: nat)
    requires c.parallel > 0 && Inv(c, s) && Enabled(c, s, Look(i))
    ensures Inv(c, After(c, s, Look(i)))
  {
    hide Interval, DeliveryOk;
    var t := After(c, s, Look(i));
    assert WorkerOk(c, i, s.workers[i]);
    assert WorkerOk(c, i, t.workers[i]);
    hide WorkerOk;
    assert forall k | 0 <= k < |s.results| :: s.results[k].0 != i;
    QueueSame(s, t);
  }

  lemma {:induction false} QueueSame(s: Job, t: Job)
    requires s.results == t.results
    ensures forall j :: Queued(s, j) <==> Queued(t, j)
  {
  }

  lemma {:induction false} WorkedWorker(c: Setup, s: Job, i: nat)
    requires c.parallel > 0 && Inv(c, s) && Enabled(c, s, Work(i))
    ensures WorkerOk(c, i, Worked(c, s, i).workers[i])
  {
    hide Begin, Interval;
    assert WorkerOk(c, i, s.workers[i]);
  }

  lemma {:induction false} WorkedMessages(c: Setup, s: Job, i: nat)
    requires c.parallel > 0 && MessagesOk(s) && Enabled(c, s, Work(i))
    ensures MessagesOk(Worked(c, s, i))
  {
    hide End, NextOf;
    assert forall k | 0 <= k < |s.results| :: s.results[k].0 != i;
    assert i !in s.received;
  }

  lemma {:induction false} WorkKeeps(c: Setup, s: Job, i: nat)
    requires c.parallel > 0 && Inv(c, s) && Enabled(c, s, Work(i))
    ensures Inv(c, After(c, s, Work(i)))
  {
    hide DeliveryOk, WorkerOk, End, NextOf, Queued, MessagesOk;
    WorkedWorker(c, s, i);
    WorkedMessages(c, s, i);
    QueueGrows(s, Worked(c, s, i), i);
  }

  lemma {:induction false} QueueGrows(s: Job, t: Job, i: nat)
    requires s.results <= t.results
    ensures forall j | Queued(s, j) :: Queued(t, j)
    ensures |t.results| > 0 && t.results[|t.results| - 1].0 == i ==> Queued(t, i)
  {
    forall j | Queued(s, j) ensures Queued(t, j) {
      var k :| 0 <= k < |s.results| && s.results[k].0 == j;
      assert t.results[k].0 == j;
    }
  }

  /** The ranges of the workers cover everything from zero to the last end. */
  lemma {:induction false} RangesCover(c: Setup, n: nat) returns (i: nat)
    requires c.parallel > 0 && Interval(c.parallel) > 0 && n <= c.parallel * Interval(c.parallel)
    ensures i < c.parallel && Begin(c, i) <= n <= End(c, i)
  {
    var d := Interval(c.parallel);
    hide Interval;
    if n == c.parallel * d {
      i := c.parallel - 1;
      assert n == i * d + d;
    } else {
      i := n / d;
      assert n == i * d + n % d;
      assert i < c.parallel by { DivBound(n, d, c.parallel); }
    }
  }

  lemma {:induction false} DivBound(n: nat, d: nat, p: nat)
    requires d > 0 && n < p * d
    ensures n / d < p
  {
    var q := n / d;
    assert n == q * d + n % d;
    assert (p - q) * d > 0;
  }

  lemma {:induction false} ExhaustedOk(c: Setup, s: Job)
    requires c.parallel > 0 && WorkersOk(c, s) && forall i | 0 <= i < |s.workers| :: s.workers[i] == Ended(NotFound)
    ensures DeliveryOk(c, Exhausted)
  {
    hide Begin, Interval, End;
    if Interval(c.parallel) > 0 {
      forall n | 0 <= n <= c.parallel * Interval(c.parallel) ensures !c.good(n) {
        var i := RangesCover(c, n);
        assert WorkerOk(c, i, s.workers[i]);
      }
    }
  }

  lemma {:induction false} NonceOk(c: Setup, i: nat, n: nat)
    requires c.parallel > 0 && i < c.parallel && Begin(c, i) <= n <= End(c, i) && c.good(n) && Interval(c.parallel) > 0
    ensures DeliveryOk(c, Nonce(n))
  {
    var d := Interval(c.parallel);
    hide Interval;
    assert End(c, i) == (i + 1) * d;
    assert (i + 1) * d <= c.parallel * d;
  }

  lemma {:induction false} FoundIsGood(c: Setup, i: nat, w: Worker)
    requires c.parallel > 0 && i < c.parallel && WorkerOk(c, i, w) && w.Ended? && w.verdict.Found?
    ensures DeliveryOk(c, Nonce(w.verdict.nonce))
  {
    hide Interval, Begin, End;
    NonceOk(c, i, w.verdict.nonce);
  }

  /** Taking the front message off the channel loses no other one. */
  lemma {:induction false} ReceivedMessages(c: Setup, s: Job)
    requires MessagesOk(s) && s.results != []
    ensures MessagesOk(Received(c, s))
  {
    var t := Received(c, s);
    hide Received;
    ReceivedFields(c, s);
    assert forall k | 0 <= k < |t.results| :: t.results[k] == s.results[k + 1];
  }

  lemma {:induction false} ReceivedFields(c: Setup, s: Job)
    requires MessagesOk(s) && s.results != []
    ensures var t := Received(c, s);
      && t.results == s.results[1..] && t.workers == s.workers && t.received <= s.received + {s.results[0].0}
      && (t.received != s.received ==> s.results[0].1 == NotFound)
  {
  }

  lemma {:induction false} StillQueued(c: Setup, s: Job)
    requires MessagesOk(s) && s.results != []
    ensures forall j | Queued(s, j) && j != s.results[0].0 :: Queued(Received(c, s), j)
  {
    hide Received;
    var t := Received(c, s);
    ReceivedFields(c, s);
    hide MessagesOk;
    forall j | Queued(s, j) && j != s.results[0].0 ensures Queued(t, j) {
      var k :| 0 <= k < |s.results| && s.results[k].0 == j;
      assert t.results[k - 1].0 == j;
    }
  }

  lemma {:induction false} ReceiveKeeps(c: Setup, s: Job)
    requires c.parallel > 0 && Inv(c, s) && Enabled(c, s, Receive)
    ensures Inv(c, After(c, s, Receive))
  {
    hide Interval, Begin, End, DeliveryOk, WorkerOk, Queued;
    var t := Received(c, s);
    var (i, v) := s.results[0];
    assert t.workers == s.workers;
    ReceivedMessages(c, s);
    StillQueued(c, s);
    if v.Found? {
      assert WorkerOk(c, i, s.workers[i]);
      FoundIsGood(c, i, s.workers[i]);
    } else if |s.received + {i}| == c.parallel {
      AllCounted(s.received + {i}, c.parallel);
      ExhaustedOk(c, s);
    }
  }

  lemma {:induction false} CoordinationKeeps(c: Setup, s: Job, step: Step)
    requires c.parallel > 0 && Inv(c, s) && Enabled(c, s, step) && !step.Look? && !step.Work? && !step.Receive?
    ensures Inv(c, After(c, s, step))
  {
    hide WorkerOk, Interval, Begin, End, Received, Worked, Sends, Answers;
    QueueSame(s, After(c, s, step));
    hide Queued;
  }

  /** Every step keeps the invariant. */
  lemma {:induction false} StepKeeps(c: Setup, s: Job, step: Step)
    requires c.parallel > 0 && Inv(c, s) && Enabled(c, s, step)
    ensures Inv(c, After(c, s, step))
  {
    hide Inv, Enabled;
    match step {
      case Look(i) => LookKeeps(c, s, i);
      case Work(i) => WorkKeeps(c, s, i);
      case Receive => ReceiveKeeps(c, s);
      case _ => CoordinationKeeps(c, s, step);
    }
  }

  // ---- every job ends ----

  /** How many looks and works a worker has left at most. */
  function Left(c: Setup, i: nat, w: Worker): nat
    requires c.parallel > 0
  {
    if w.Ended? then 0
    else
      var nonces := if w.nonce <= End(c, i) then End(c, i) - w.nonce else 0;
      2 * nonces + (if w.cached then 0 else 2) + (if w.Looking? then 2 else 1)
  }

  function LeftOf(c: Setup, ws: seq<Worker>, n: nat): nat
    requires c.parallel > 0 && n <= |ws|
  {
    if n == 0 then 0 else LeftOf(c, ws, n - 1) + Left(c, n - 1, ws[n - 1])
  }

  lemma {:induction false} LeftUpdates(c: Setup, ws: seq<Worker>, n: nat, i: nat, w: Worker)
    requires c.parallel > 0 && n <= |ws| && i < |ws|
    ensures LeftOf(c, ws[i := w], n) == LeftOf(c, ws, n) + if i < n then Left(c, i, w) - Left(c, i, ws[i]) else 0
  {
    hide Left;
    if n > 0 { LeftUpdates(c, ws, n - 1, i, w); }
  }

  function Measure(c: Setup, s: Job): nat
    requires c.parallel > 0
  {
    2 * LeftOf(c, s.workers, |s.workers|) + |s.results|
    + (match s.coordinator
       case Waiting => c.parallel + 2
       case Stopping(sent) => if sent <= c.parallel then c.parallel - sent + 1 else 1
       case Gone => 0)
    + (if s.stopAsked then 0 else 1)
  }

  lemma {:induction false} WorkedLeft(c: Setup, s: Job, i: nat)
    requires c.parallel > 0 && i < |s.workers| && s.workers[i].Working? && WorkerOk(c, i, s.workers[i])
    ensures Left(c, i, Worked(c, s, i).workers[i]) < Left(c, i, s.workers[i])
  {
    hide Begin, Interval, End;
  }

  /** Every step brings the job closer to its end. */
  lemma {:induction false} StepShortens(c: Setup, s: Job, step: Step)
    requires c.parallel > 0 && Inv(c, s) && Enabled(c, s, step)
    ensures Measure(c, After(c, s, step)) < Measure(c, s)
  {
    hide LeftOf, Left, MessagesOk, DeliveryOk, End, NextOf, WorkerOk;
    var t := After(c, s, step);
    if step.Look? || step.Work? {
      var i := step.i;
      LeftUpdates(c, s.workers, |s.workers|, i, t.workers[i]);
      if step.Work? { WorkedLeft(c, s, i); } else { LookedLeft(c, i, s.workers[i]); }
      assert t.workers == s.workers[i := t.workers[i]];
    }
  }

  lemma {:induction false} LookedLeft(c: Setup, i: nat, w: Worker)
    requires c.parallel > 0 && w.Looking?
    ensures Left(c, i, Working(w.nonce, w.cached)) < Left(c, i, w) && Left(c, i, Ended(Stopped)) < Left(c, i, w)
  {
  }

  /** Nobody can go on by itself. */
  ghost predicate Idle(c: Setup, s: Job)
    requires c.parallel > 0
  {
    forall step | Enabled(c, s, step) :: step.Timeout? || step.Terminate?
  }

  /** Nobody can go on exactly when everybody is done: there is no deadlock. */
  lemma {:induction false} IdleIsDone(c: Setup, s: Job)
    requires c.parallel > 0 && Inv(c, s)
    ensures Idle(c, s) <==> s.coordinator == Gone && forall i | 0 <= i < |s.workers| :: s.workers[i].Ended?
  {
    hide WorkerOk, DeliveryOk, Queued;
    NoSendWaits(c, s);
    if Idle(c, s) {
      assert !Enabled(c, s, Receive) && !Enabled(c, s, SendStop) && !Enabled(c, s, Leave);
      forall i | 0 <= i < |s.workers| ensures s.workers[i].Ended? {
        assert !Enabled(c, s, Look(i)) && !Enabled(c, s, Work(i));
      }
      NotWaiting(c, s);
    }
  }

  /** When all workers ended, a waiting coordinator has a message. */
  lemma {:induction false} NotWaiting(c: Setup, s: Job)
    requires c.parallel > 0 && Inv(c, s) && forall i | 0 <= i < |s.workers| :: s.workers[i].Ended?
    ensures s.coordinator == Waiting ==> s.results != []
  {
    hide WorkerOk, DeliveryOk;
    if s.coordinator == Waiting {
      SubsetSize(s.received, Indices(c.parallel));
      if forall i | 0 <= i < c.parallel :: i in s.received { SubsetSize(Indices(c.parallel), s.received); }
    }
  }

  // ---- whole runs ----

  ghost predicate IsRun(c: Setup, ss: seq<Job>, steps: seq<Step>)
    requires c.parallel > 0
  {
    && |ss| == |steps| + 1 && ss[0] == Start(c)
    && (forall k | 0 <= k < |steps| :: Enabled(c, ss[k], steps[k]) && ss[k + 1] == After(c, ss[k], steps[k]))
  }

  /** For every number of workers and every interleaving: at most one result is delivered, a
      nonce only if it is good, exhaustion only if no nonce up to the last end is, and the run
      is never longer than the work there was at the start. */
  lemma {:induction false} MiningRun(c: Setup, ss: seq<Job>, steps: seq<Step>, k: nat)
    requires c.parallel > 0 && IsRun(c, ss, steps) && k < |ss|
    ensures Inv(c, ss[k]) && |ss[k].delivered| <= 1
    ensures forall d | d in ss[k].delivered :: DeliveryOk(c, d)
    ensures k + Measure(c, ss[k]) <= Measure(c, Start(c))
  {
    hide Enabled, After, Measure, WorkersOk, MessagesOk, DeliveryOk;
    if k == 0 {
      StartOk(c);
    } else {
      MiningRun(c, ss, steps, k - 1);
      StepKeeps(c, ss[k - 1], steps[k - 1]);
      StepShortens(c, ss[k - 1], steps[k - 1]);
    }
  }

  // ---- what the caller is told ----

  /** The caller has an answer unless the job was stopped, and hears of a timeout, or gets no answer,
      only for a reason. */
  ghost predicate Answered(s: Job, timedOut: bool, stopped: bool) {
    && (s.stopAsked <==> stopped) && (s.stopPending ==> stopped)
    && (s.coordinator == Waiting || |s.delivered| == 1 || stopped)
    && (TimedOut in s.delivered ==> timedOut)
  }

  ghost predicate HasTimeout(steps: seq<Step>, k: nat)
    requires k <= |steps|
  {
    exists j | 0 <= j < k :: steps[j].Timeout?
  }

  ghost predicate HasTerminate(steps: seq<Step>, k: nat)
    requires k <= |steps|
  {
    exists j | 0 <= j < k :: steps[j].Terminate?
  }

  lemma {:induction false} StepAnswers(c: Setup, s: Job, step: Step, timedOut: bool, stopped: bool)
    requires c.parallel > 0 && Inv(c, s) && Enabled(c, s, step) && Answered(s, timedOut, stopped)
    ensures Answered(After(c, s, step), timedOut || step.Timeout?, stopped || step.Terminate?)
  {
    hide WorkersOk, MessagesOk, DeliveryOk, Queued, Sends, Answers;
  }

  lemma {:induction false} RunAnswers(c: Setup, ss: seq<Job>, steps: seq<Step>, k: nat)
    requires c.parallel > 0 && IsRun(c, ss, steps) && k < |ss|
    ensures Answered(ss[k], HasTimeout(steps, k), HasTerminate(steps, k))
  {
    hide Enabled, After, Inv;
    if k > 0 {
      RunAnswers(c, ss, steps, k - 1);
      MiningRun(c, ss, steps, k - 1);
      StepAnswers(c, ss[k - 1], steps[k - 1], HasTimeout(steps, k - 1), HasTerminate(steps, k - 1));
    }
  }

  /** Some nonce that the workers try is good: they try all up to the last end, or none at all. */
  ghost predicate Findable(c: Setup)
    requires c.parallel > 0
  {
    Interval(c.parallel) > 0 && exists n: nat | n <= c.parallel * Interval(c.parallel) :: c.good(n)
  }

  /** The answer of every job that came to its end. Unless it was stopped, the caller gets exactly
      one result; a timeout is reported only if it happened; and without stop and timeout the
      result is a nonce exactly if the workers' ranges hold a good one, else exhaustion. */
  lemma {:induction false} JobAnswers(c: Setup, ss: seq<Job>, steps: seq<Step>)
    requires c.parallel > 0 && IsRun(c, ss, steps) && Idle(c, ss[|steps|])
    ensures var d, n := ss[|steps|].delivered, |steps|;
      && (!HasTerminate(steps, n) ==> |d| == 1)
      && (TimedOut in d ==> HasTimeout(steps, n))
      && (!HasTerminate(steps, n) && !HasTimeout(steps, n) ==>
           (d[0].Nonce? <==> Findable(c)) && (d[0].Exhausted? <==> !Findable(c)))
  {
    hide Inv, Enabled, Interval, HasTimeout, HasTerminate;
    var n := |steps|;
    MiningRun(c, ss, steps, n);
    RunAnswers(c, ss, steps, n);
    IdleIsDone(c, ss[n]);
    hide Idle, IsRun;
    var d := ss[n].delivered;
    if |d| == 1 {
      assert DeliveryOk(c, d[0]) && d[0] in d;
    }
  }

  // ---- stopping ----

  /** The workers that were stopped. */
  ghost function StoppedIn(ws: seq<Worker>): set<nat> {
    set i | 0 <= i < |ws| && ws[i] == Ended(Stopped)
  }

  /** Every stop that was sent is on the channel or has ended a worker. */
  ghost predicate StopsOk(c: Setup, s: Job) {
    s.tokens + |StoppedIn(s.workers)| ==
      match s.coordinator
      case Waiting => 0
      case Stopping(sent) => sent
      case Gone => c.parallel
  }

  lemma {:induction false} StoppedMore(ws: seq<Worker>, i: nat, w: Worker)
    requires i < |ws| && !ws[i].Ended?
    ensures |StoppedIn(ws[i := w])| == |StoppedIn(ws)| + if w == Ended(Stopped) then 1 else 0
  {
    if w == Ended(Stopped) {
      assert StoppedIn(ws[i := w]) == StoppedIn(ws) + {i};
    } else {
      assert StoppedIn(ws[i := w]) == StoppedIn(ws);
    }
  }

  lemma {:induction false} StepStops(c: Setup, s: Job, step: Step)
    requires c.parallel > 0 && Enabled(c, s, step) && StopsOk(c, s) && CoordinatorOk(c, s)
    ensures StopsOk(c, After(c, s, step))
  {
    hide StoppedIn, Queued, End, NextOf;
    var t := After(c, s, step);
    if step.Look? || step.Work? {
      StoppedMore(s.workers, step.i, t.workers[step.i]);
      assert t.workers == s.workers[step.i := t.workers[step.i]];
    }
  }

  lemma {:induction false} RunStops(c: Setup, ss: seq<Job>, steps: seq<Step>, k: nat)
    requires c.parallel > 0 && IsRun(c, ss, steps) && k < |ss|
    ensures StopsOk(c, ss[k])
  {
    hide Enabled, After, WorkersOk, MessagesOk, DeliveryOk, Queued;
    if k == 0 {
      assert StoppedIn(Start(c).workers) == {};
    } else {
      RunStops(c, ss, steps, k - 1);
      MiningRun(c, ss, steps, k - 1);
      StepStops(c, ss[k - 1], steps[k - 1]);
    }
  }

  /** Once the coordinator has left, a worker that looks at the stop channel ends there: none tries
      more than the one nonce it may be at. */
  lemma {:induction false} StopsAreSeen(c: Setup, ss: seq<Job>, steps: seq<Step>, k: nat)
    requires c.parallel > 0 && IsRun(c, ss, steps) && k < |steps|
    requires ss[k].coordinator == Gone && steps[k].Look? && steps[k].i < |ss[k].workers|
    ensures ss[k + 1].workers == ss[k].workers[steps[k].i := Ended(Stopped)]
  {
    hide Queued, DeliveryOk, WorkerOk;
    var s, i := ss[k], steps[k].i;
    MiningRun(c, ss, steps, k);
    RunStops(c, ss, steps, k);
    assert Enabled(c, s, steps[k]) && ss[k + 1] == After(c, s, steps[k]);
    SubsetSize(StoppedIn(s.workers), Indices(c.parallel) - {i});
  }

  // ---- mining a header ----

  /** The job that looks for a nonce of a header. */
  ghost function SetupFor(H: Bytes -> Bytes, difficulty: nat, h: Header, parallel: nat): Setup {
    Setup(parallel, (n: nat) => n < TWO_32 && HeaderPow(H, h.(nonce := n)) < difficulty)
  }

  /** The ranges fit into 32 bits, and leave out fewer nonces than there are workers. */
  lemma {:induction false} RangesFit(parallel: nat)
    requires parallel > 0
    ensures parallel * Interval(parallel) < TWO_32 <= parallel * Interval(parallel) + parallel
  {
    var d := Interval(parallel);
    assert TWO_32 - 1 == parallel * d + (TWO_32 - 1) % parallel;
  }

  /** A delivered nonce makes the header's value smaller than the difficulty; exhaustion means
      that no nonce up to the last end would have. */
  lemma {:induction false} DeliveredNonce(H: Bytes -> Bytes, difficulty: nat, h: Header, parallel: nat, ss: seq<Job>,
      steps: seq<Step>, k: nat, d: Delivery)
    requires parallel > 0 && IsRun(SetupFor(H, difficulty, h, parallel), ss, steps) && k < |ss| && d in ss[k].delivered
    ensures d.Nonce? ==> d.nonce < TWO_32 && HeaderPow(H, h.(nonce := d.nonce)) < difficulty
    ensures d.Exhausted? && parallel < TWO_32 ==>
      forall n: uint32 | n <= parallel * Interval(parallel) :: HeaderPow(H, h.(nonce := n)) >= difficulty
  {
    hide IsRun, Inv, HeaderPow;
    var c := SetupFor(H, difficulty, h, parallel);
    MiningRun(c, ss, steps, k);
    RangesFit(parallel);
    if parallel < TWO_32 && d.Exhausted? {
      SomeRange(parallel);
      forall n: uint32 | n <= parallel * Interval(parallel) ensures HeaderPow(H, h.(nonce := n)) >= difficulty {
        assert !c.good(n);
      }
    }
  }

  lemma {:induction false} SomeRange(parallel: nat)
    requires 0 < parallel < TWO_32
    ensures Interval(parallel) > 0
  {
    var d := Interval(parallel);
    assert TWO_32 - 1 == parallel * d + (TWO_32 - 1) % parallel;
  }
}
