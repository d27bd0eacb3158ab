/** Packets on a TCP stream and the splitter that finds them again (p2p/tcp_utils.go). The
    checksum is an arbitrary function. */
module TcpStream {
  import opened Records
  import opened BigEndian

  const TCP_HEADER_SIZE: nat := 9

  /** Length, checksum and protocol in front of the payload. */
  function Build(crc: Bytes -> uint32, payload: Bytes, protocol: uint8): Bytes {
    Put(|payload| % TWO_32, 4) + Put(crc(payload), 4) + Put(protocol, 1) + payload
  }

  // ---- splitting ----

  /** The packets at the front and what is left. A length field of 2^32 - 9 makes the packet
      length wrap to zero; the loop then never gets past it. */
  datatype Outcome = Done(packets: seq<Bytes>, rest: Bytes) | Endless

  /** The packet length by the length field, in 32 bits. */
  function PacketLength(buf: Bytes): nat
    requires |buf| >= 4
  {
    (TCP_HEADER_SIZE + Get(buf[..4])) % TWO_32
  }

  /** The buffer does not start with a whole packet. */
  predicate Incomplete(buf: Bytes) {
    |buf| <= TCP_HEADER_SIZE || |buf| < PacketLength(buf)
  }

  function Before(packets: seq<Bytes>, o: Outcome): Outcome {
    if o.Endless? then Endless else Done(packets + o.packets, o.rest)
  }

  function Split(buf: Bytes): Outcome
    decreases |buf|
  {
    if Incomplete(buf) then Done([], buf)
    else if PacketLength(buf) == 0 then Endless
    else Before([buf[..PacketLength(buf)]], Split(buf[PacketLength(buf)..]))
  }

  class Buffer {
    var data: Bytes

    constructor ()
      ensures data == []
    {
      data := [];
    }

    method Write(chunk: Bytes)
      modifies this
      ensures data == old(data) + chunk
    {
      data := data + chunk;
    }

    /** Takes whole packets off the front; false if that would never end. */
    method SplitStream() returns (packets: seq<Bytes>, ends: bool)
      modifies this
      ensures ends <==> Split(old(data)).Done?
      ensures ends ==> Split(old(data)) == Done(packets, data)
    {
      packets := [];
      BeforeNothing(Split(data));
      while |data| > TCP_HEADER_SIZE
        invariant Split(old(data)) == Before(packets, Split(data))
        decreases |data|
      {
        var length := PacketLength(data);
        if |data| < length { break; }
        if length == 0 { return packets, false; }
        BeforeTwice(packets, [data[..length]], Split(data[length..]));
        packets := packets + [data[..length]];
        data := data[length..];
      }
      assert packets + [] == packets;
      ends := true;
    }
  }

  lemma {:induction false} BeforeNothing(o: Outcome)
    ensures Before([], o) == o
  {
    if o.Done? { assert [] + o.packets == o.packets; }
  }

  lemma {:induction false} BeforeTwice(a: seq<Bytes>, b: seq<Bytes>, o: Outcome)
    ensures Before(a, Before(b, o)) == Before(a + b, o)
  {
    if o.Done? { assert a + (b + o.packets) == a + b + o.packets; }
  }

  // ---- chunks ----

  /** Splitting early and carrying over what is left comes to the same as splitting late. */
  lemma {:induction false} SplitEarly(a: Bytes, b: Bytes)
    ensures Split(a + b) == if Split(a).Endless? then Endless else Before(Split(a).packets, Split(Split(a).rest + b))
    decreases |a|
  {
    if Incomplete(a) {
      BeforeNothing(Split(a + b));
    } else {
      var n := PacketLength(a);
      assert (a + b)[..4] == a[..4];
      assert !Incomplete(a + b) && PacketLength(a + b) == n;
      if n > 0 {
        assert (a + b)[..n] == a[..n] && (a + b)[n..] == a[n..] + b;
        SplitEarly(a[n..], b);
        var s := Split(a[n..]);
        if s.Done? { BeforeTwice([a[..n]], s.packets, Split(s.rest + b)); }
      }
    }
  }

  function Joined(chunks: seq<Bytes>): Bytes {
    if chunks == [] then [] else chunks[0] + Joined(chunks[1..])
  }

  /** The chunks of a stream written and split one after the other. */
  function Receive(buf: Bytes, chunks: seq<Bytes>): Outcome
    decreases |chunks|
  {
    if chunks == [] then Split(buf)
    else
      var o := Split(buf + chunks[0]);
      if o.Endless? then Endless else Before(o.packets, Receive(o.rest, chunks[1..]))
  }

  /** Whatever the stream, it does not matter how it is cut into chunks. */
  lemma {:induction false} ChunksDoNotMatter(buf: Bytes, chunks: seq<Bytes>)
    ensures Receive(buf, chunks) == Split(buf + Joined(chunks))
    decreases |chunks|
  {
    hide Split;
    if chunks == [] {
      assert buf + [] == buf;
    } else {
      var front := buf + chunks[0];
      assert buf + Joined(chunks) == front + Joined(chunks[1..]);
      SplitEarly(front, Joined(chunks[1..]));
      if Split(front).Done? { ChunksDoNotMatter(Split(front).rest, chunks[1..]); }
    }
  }

  // ---- built packets ----

  datatype Packet = Packet(payload: Bytes, protocol: uint8)

  /** The packet length fits into 32 bits. */
  predicate FitsLength(p: Packet) {
    TCP_HEADER_SIZE + |p.payload| < TWO_32
  }

  ghost predicate AllFit(ps: seq<Packet>) {
    forall k | 0 <= k < |ps| :: FitsLength(ps[k])
  }

  /** The last packet has a payload; an empty one is only found when more bytes follow. */
  predicate EndsInPayload(ps: seq<Packet>) {
    ps == [] || ps[|ps| - 1].payload != []
  }

  function Built(crc: Bytes -> uint32, ps: seq<Packet>): (r: seq<Bytes>)
    ensures |r| == |ps| && forall k | 0 <= k < |ps| :: r[k] == Build(crc, ps[k].payload, ps[k].protocol)
  {
    seq(|ps|, k requires 0 <= k < |ps| => Build(crc, ps[k].payload, ps[k].protocol))
  }

  lemma {:induction false} BuiltInFront(crc: Bytes -> uint32, p: Packet, rest: Bytes)
    ensures var b := Build(crc, p.payload, p.protocol);
      && |b| == TCP_HEADER_SIZE + |p.payload|
      && PacketLength(b + rest) == (TCP_HEADER_SIZE + |p.payload|) % TWO_32
      && (b + rest)[..|b|] == b && (b + rest)[|b|..] == rest
  {
    hide Put, Get, Span;
    var b, n := Build(crc, p.payload, p.protocol), |p.payload|;
    Widths();
    GetPut(n % TWO_32, 4);
    assert (b + rest)[..4] == Put(n % TWO_32, 4);
  }

  lemma {:induction false} FirstBuilt(crc: Bytes -> uint32, ps: seq<Packet>)
    requires ps != []
    ensures Built(crc, ps) == [Build(crc, ps[0].payload, ps[0].protocol)] + Built(crc, ps[1..])
    ensures Joined(Built(crc, ps)) == Build(crc, ps[0].payload, ps[0].protocol) + Joined(Built(crc, ps[1..]))
    ensures |Joined(Built(crc, ps))| >= TCP_HEADER_SIZE
    ensures |ps| == 1 ==> Joined(Built(crc, ps[1..])) == []
  {
    hide Build;
    BuiltInFront(crc, ps[0], []);
    assert Built(crc, ps)[1..] == Built(crc, ps[1..]);
  }

  /** One whole packet in front of a longer buffer is taken off. */
  lemma {:induction false} SplitOne(b: Bytes, rest: Bytes)
    requires |b + rest| > TCP_HEADER_SIZE && PacketLength(b + rest) == |b| > 0
    ensures Split(b + rest) == Before([b], Split(rest))
  {
    hide PacketLength;
    assert (b + rest)[..|b|] == b && (b + rest)[|b|..] == rest;
  }

  lemma {:induction false} SplitFew(buf: Bytes)
    requires |buf| <= TCP_HEADER_SIZE
    ensures Split(buf) == Done([], buf)
  {
  }

  /** Packets that fit are all found, except that an empty last one stays in the buffer. */
  lemma {:induction false} BuiltAreFound(crc: Bytes -> uint32, ps: seq<Packet>)
    requires AllFit(ps)
    ensures Split(Joined(Built(crc, ps))) ==
      if EndsInPayload(ps) then Done(Built(crc, ps), [])
      else Done(Built(crc, ps[..|ps| - 1]), Joined(Built(crc, ps[|ps| - 1..])))
  {
    hide Build, PacketLength, Split, Built, Joined;
    if ps == [] {
      NothingBuilt(crc);
      SplitFew([]);
    } else {
      var b, rest := Build(crc, ps[0].payload, ps[0].protocol), Joined(Built(crc, ps[1..]));
      FirstBuilt(crc, ps);
      BuiltInFront(crc, ps[0], rest);
      if |ps| == 1 && ps[0].payload == [] {
        NothingBuilt(crc);
        assert ps[..0] == [] && ps[0..] == ps && b + [] == b;
        SplitFew(b);
      } else {
        if |ps| > 1 { FirstBuilt(crc, ps[1..]); }
        SplitOne(b, rest);
        BuiltAreFound(crc, ps[1..]);
        if !EndsInPayload(ps) { FrontOfTail(crc, ps); }
      }
    }
  }

  lemma {:induction false} NothingBuilt(crc: Bytes -> uint32)
    ensures Built(crc, []) == [] && Joined([]) == []
  {
  }

  lemma {:induction false} FrontOfTail(crc: Bytes -> uint32, ps: seq<Packet>)
    requires |ps| > 1
    ensures [Build(crc, ps[0].payload, ps[0].protocol)] + Built(crc, ps[1..][..|ps| - 2]) == Built(crc, ps[..|ps| - 1])
    ensures ps[1..][|ps| - 2..] == ps[|ps| - 1..]
  {
    hide Build;
    FirstBuilt(crc, ps[..|ps| - 1]);
    assert ps[..|ps| - 1][1..] == ps[1..][..|ps| - 2];
  }

  lemma {:induction false} FoundFirst(crc: Bytes -> uint32, ps: seq<Packet>)
    requires ps != [] && Split(Joined(Built(crc, ps))) == Done(Built(crc, ps), [])
    ensures FitsLength(ps[0]) && (|ps| == 1 ==> ps[0].payload != [])
    ensures Split(Joined(Built(crc, ps[1..]))) == Done(Built(crc, ps[1..]), [])
  {
    hide Build, PacketLength;
    var b, rest := Build(crc, ps[0].payload, ps[0].protocol), Joined(Built(crc, ps[1..]));
    FirstBuilt(crc, ps);
    BuiltInFront(crc, ps[0], rest);
    var n, more := PacketLength(b + rest), Built(crc, ps[1..]);
    assert Split(b + rest) == Before([(b + rest)[..n]], Split((b + rest)[n..]));
    assert (b + rest)[..n] == ([b] + more)[0] == b;
    assert Split(rest).packets == Split(b + rest).packets[1..] == more;
  }

  /** A stream of packets is found whole exactly if every packet length fits into 32 bits and the
      last payload is not empty. */
  lemma {:induction false} StreamFoundExactly(crc: Bytes -> uint32, ps: seq<Packet>)
    ensures Split(Joined(Built(crc, ps))) == Done(Built(crc, ps), []) <==> AllFit(ps) && EndsInPayload(ps)
  {
    hide Build, Split, Joined, FitsLength;
    if AllFit(ps) && EndsInPayload(ps) { BuiltAreFound(crc, ps); }
    if ps != [] && Split(Joined(Built(crc, ps))) == Done(Built(crc, ps), []) {
      FoundFirst(crc, ps);
      StreamFoundExactly(crc, ps[1..]);
      forall k | 0 <= k < |ps| ensures FitsLength(ps[k]) {
        if k > 0 { assert ps[k] == ps[1..][k - 1]; }
      }
    }
  }

  // ---- when splitting never ends ----

  /** A buffer the loop cannot get past: enough bytes, and a length field that wraps to zero. */
  predicate Stuck(buf: Bytes) {
    |buf| > TCP_HEADER_SIZE && Get(buf[..4]) == TWO_32 - TCP_HEADER_SIZE
  }

  /** The loop gets to offset k by taking packets off the front. */
  ghost predicate Reaches(buf: Bytes, k: nat)
    decreases |buf|
  {
    k == 0 || (!Incomplete(buf) && 0 < PacketLength(buf) <= k
        && Reaches(buf[PacketLength(buf)..], k - PacketLength(buf)))
  }

  lemma {:induction false} StuckExactly(buf: Bytes)
    requires |buf| > TCP_HEADER_SIZE
    ensures PacketLength(buf) == 0 <==> Stuck(buf)
  {
    hide Get, Span;
    Widths();
    PutGet(buf[..4]);
  }

  /** A buffer the loop is stuck in keeps it going for ever. */
  lemma {:induction false} StuckIsEndless(buf: Bytes)
    requires Stuck(buf)
    ensures Split(buf) == Endless
  {
    StuckExactly(buf);
  }

  /** Splitting never ends exactly if the loop gets to an offset where it is stuck. */
  lemma {:induction false} EndlessExactly(buf: Bytes)
    ensures Split(buf).Endless? <==> exists k | 0 <= k <= |buf| :: Reaches(buf, k) && Stuck(buf[k..])
  {
    hide Stuck, Split, Reaches;
    forall k | 0 <= k <= |buf| && Reaches(buf, k) && Stuck(buf[k..]) ensures Split(buf).Endless? {
      ReachedIsEndless(buf, k);
    }
    if Split(buf).Endless? { var k := StuckAt(buf); }
  }

  lemma {:induction false} ReachedIsEndless(buf: Bytes, k: nat)
    requires k <= |buf| && Reaches(buf, k) && Stuck(buf[k..])
    ensures Split(buf).Endless?
    decreases |buf|
  {
    hide Stuck, PacketLength;
    if k == 0 {
      assert buf[0..] == buf;
      StuckIsEndless(buf);
    } else {
      var n := PacketLength(buf);
      assert buf[n..][k - n..] == buf[k..];
      ReachedIsEndless(buf[n..], k - n);
    }
  }

  lemma {:induction false} StuckAt(buf: Bytes) returns (k: nat)
    requires Split(buf).Endless?
    ensures k <= |buf| && Reaches(buf, k) && Stuck(buf[k..])
    decreases |buf|
  {
    hide Stuck, PacketLength;
    StuckExactly(buf);
    var n := PacketLength(buf);
    if n == 0 {
      k := 0;
      assert buf[0..] == buf;
    } else {
      var j := StuckAt(buf[n..]);
      k := n + j;
      assert buf[n..][j..] == buf[k..];
    }
  }

  /** A stream of packets whose lengths fit never gets there; a payload of 2^32 - 9 bytes after
      packets that fit does. */
  lemma {:induction false} StreamEndless(crc: Bytes -> uint32, ps: seq<Packet>, p: Packet, rest: Bytes)
    requires AllFit(ps)
    ensures Split(Joined(Built(crc, ps))).Done?
    ensures |p.payload| == TWO_32 - TCP_HEADER_SIZE ==>
      Split(Joined(Built(crc, ps)) + (Build(crc, p.payload, p.protocol) + rest)) == Endless
    decreases |ps|
  {
    hide Build, PacketLength, Split, Built, Joined;
    BuiltAreFound(crc, ps);
    if |p.payload| == TWO_32 - TCP_HEADER_SIZE {
      var last := Build(crc, p.payload, p.protocol) + rest;
      BuiltInFront(crc, p, rest);
      StuckExactly(last);
      if ps == [] {
        NothingBuilt(crc);
        StuckIsEndless(last);
        assert [] + last == last;
      } else {
        var b, more := Build(crc, ps[0].payload, ps[0].protocol), Joined(Built(crc, ps[1..])) + last;
        FirstBuilt(crc, ps);
        BuiltInFront(crc, ps[0], more);
        assert Joined(Built(crc, ps)) + last == b + more;
        SplitOne(b, more);
        StreamEndless(crc, ps[1..], p, rest);
      }
    }
  }

  // ---- checking ----

  /** An integer read off the front; a read past the end gives zero. */
  function ReadField(data: Bytes, width: nat): (nat, Bytes) {
    if |data| < width then (0, []) else (Get(data[..width]), data[width..])
  }

  /** The first n bytes, filled up with zeros. */
  function Padded(data: Bytes, n: nat): (r: Bytes)
    ensures |r| == n
  {
    if n <= |data| then data[..n] else data + seq(n - |data|, _ => 0)
  }

  /** The payload and the protocol of a packet, if its checksum is right. */
  function Verify(crc: Bytes -> uint32, packet: Bytes): Option<(Bytes, nat)> {
    var (length, d1) := ReadField(packet, 4);
    var (sum, d2) := ReadField(d1, 4);
    var (protocol, d3) := ReadField(d2, 1);
    var payload := Padded(d3, length);
    if sum == crc(payload) then Some((payload, protocol)) else None
  }

  /** A packet as long as its length field says is accepted with a payload and a protocol
      exactly if it was built from them. */
  lemma {:induction false} AcceptedExactlyBuilt(crc: Bytes -> uint32, packet: Bytes, payload: Bytes, protocol: uint8)
    requires |packet| >= TCP_HEADER_SIZE && |packet| == TCP_HEADER_SIZE + Get(packet[..4])
    ensures Verify(crc, packet) == Some((payload, protocol)) <==>
      |payload| < TWO_32 && packet == Build(crc, payload, protocol)
  {
    hide Put, Get, Span;
    Widths();
    PutGet(packet[..4]);
    PutGet(packet[4..8]);
    PutGet(packet[8..9]);
    assert packet[4..][..4] == packet[4..8] && packet[8..][..1] == packet[8..9];
    assert packet[4..][4..] == packet[8..] && packet[8..][1..] == packet[9..];
    var p := packet[9..];
    assert packet == packet[..4] + packet[4..8] + packet[8..9] + p;
    assert Padded(p, |p|) == p;
    if Verify(crc, packet) == Some((payload, protocol)) {
      assert payload == p;
      assert Get(packet[8..9]) == protocol;
    }
    if |payload| < TWO_32 && packet == Build(crc, payload, protocol) {
      GetPut(|payload|, 4);
      GetPut(crc(payload), 4);
      GetPut(protocol, 1);
      assert packet[..4] == Put(|payload|, 4) && packet[4..8] == Put(crc(payload), 4);
      assert packet[8..9] == Put(protocol, 1) && p == payload;
    }
  }

  /** From payloads to payloads: packets sent one after the other and received in any chunks come
      out in order exactly if all lengths fit and the last payload is not empty, and a packet
      whose length fits is accepted with its payload and protocol. */
  lemma {:induction false} StreamDelivers(crc: Bytes -> uint32, ps: seq<Packet>, chunks: seq<Bytes>)
    requires Joined(chunks) == Joined(Built(crc, ps))
    ensures Receive([], chunks) == Done(Built(crc, ps), []) <==> AllFit(ps) && EndsInPayload(ps)
    ensures forall k | 0 <= k < |ps| && FitsLength(ps[k]) ::
      Verify(crc, Built(crc, ps)[k]) == Some((ps[k].payload, ps[k].protocol))
  {
    hide Split, Receive, Verify, Built, AllFit, EndsInPayload;
    ChunksDoNotMatter([], chunks);
    assert [] + Joined(chunks) == Joined(chunks);
    StreamFoundExactly(crc, ps);
    forall k | 0 <= k < |ps| && FitsLength(ps[k])
      ensures Verify(crc, Built(crc, ps)[k]) == Some((ps[k].payload, ps[k].protocol))
    {
      BuiltField(crc, ps[k]);
      AcceptedExactlyBuilt(crc, Build(crc, ps[k].payload, ps[k].protocol), ps[k].payload, ps[k].protocol);
    }
  }

  lemma {:induction false} BuiltField(crc: Bytes -> uint32, p: Packet)
    requires |p.payload| < TWO_32
    ensures var b := Build(crc, p.payload, p.protocol);
      |b| == TCP_HEADER_SIZE + |p.payload| && Get(b[..4]) == |p.payload|
  {
    hide Put, Get, Span;
    Widths();
    GetPut(|p.payload|, 4);
    assert Build(crc, p.payload, p.protocol)[..4] == Put(|p.payload|, 4);
  }
}
