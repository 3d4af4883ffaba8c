/** packages/fs/src/socketpubsub.ts: the length-prefixed codec and its stateful reader. */
module SocketFrames {
  import opened Bytes
  import opened Common

  type Payload = p: seq<byte> | |p| < TWO_TO_THE_32

  /** `frame`: a 4-byte length, then the payload. */
  function Frame(p: Payload): (f: seq<byte>)
    ensures |f| == 4 + |p|
  {
    WriteUInt32BE(|p|) + p
  }

  /** The bytes on the wire for a list of payloads. */
  function Frames(ps: seq<Payload>): (bs: seq<byte>)
  {
    if ps == [] then [] else Frame(ps[0]) + Frames(ps[1..])
  }

  lemma {:induction false} FramesAppend(a: seq<Payload>, b: seq<Payload>)
    ensures Frames(a + b) == Frames(a) + Frames(b)
  {
    if a == [] {
      assert a + b == b;
    } else {
      FramesAppend(a[1..], b);
      assert (a + b)[0] == a[0] && (a + b)[1..] == a[1..] + b;
      Assoc(Frame(a[0]), Frames(a[1..]), Frames(b));
    }
  }

  lemma FramesSnoc(ps: seq<Payload>, p: Payload)
    ensures Frames(ps + [p]) == Frames(ps) + Frame(p)
  {
    FramesAppend(ps, [p]);
    assert Frames([p]) == Frame(p) + Frames([]) == Frame(p);
  }

  lemma FramesCons(p: Payload, ps: seq<Payload>, rest: seq<byte>)
    ensures Frames([p] + ps) + rest == Frame(p) + (Frames(ps) + rest)
  {
    FramesAppend([p], ps);
    assert Frames([p]) == Frame(p) + Frames([]) == Frame(p);
    assert Frame(p) + Frames(ps) + rest == Frame(p) + (Frames(ps) + rest);
  }

  /** A whole frame stands at the front of the buffer. */
  predicate HasFrame(bs: seq<byte>) {
    |bs| >= 4 && |bs| >= 4 + ReadUInt32BE(bs)
  }

  lemma FrameIsFrame(p: Payload, rest: seq<byte>)
    ensures HasFrame(Frame(p) + rest)
    ensures ReadUInt32BE(Frame(p) + rest) == |p|
    ensures (Frame(p) + rest)[4..4 + |p|] == p
    ensures (Frame(p) + rest)[4 + |p|..] == rest
  {
    assert Frame(p) + rest == WriteUInt32BE(|p|) + (p + rest);
    ReadWrite(|p|, p + rest);
  }

  /** What a buffer decodes to: the payloads of its leading whole frames, and the bytes left over. */
  function Decode(bs: seq<byte>): (r: (seq<Payload>, seq<byte>))
    decreases |bs|
  {
    if !HasFrame(bs) then ([], bs) else
      var n := ReadUInt32BE(bs);
      var tail := Decode(bs[4 + n..]);
      ([bs[4..4 + n]] + tail.0, tail.1)
  }

  /** A buffer with a whole frame is that frame and what follows it. */
  lemma FrontFrame(bs: seq<byte>)
    requires HasFrame(bs)
    ensures var n := ReadUInt32BE(bs); bs == Frame(bs[4..4 + n]) + bs[4 + n..]
  {
    var n := ReadUInt32BE(bs);
    WriteRead(bs);
    assert bs == bs[..4] + bs[4..4 + n] + bs[4 + n..];
  }

  /** Every buffer is the frames of the payloads it decodes to, followed by an incomplete frame. */
  lemma {:induction false} DecodeSplits(bs: seq<byte>)
    ensures Frames(Decode(bs).0) + Decode(bs).1 == bs
    ensures !HasFrame(Decode(bs).1)
    decreases |bs|
  {
    if HasFrame(bs) {
      var n := ReadUInt32BE(bs);
      var tail := bs[4 + n..];
      DecodeSplits(tail);
      FrontFrame(bs);
      var ps, rest := Decode(tail).0, Decode(tail).1;
      FramesCons(bs[4..4 + n], ps, rest);
    }
  }

  /** ... and it is so in one way only. */
  lemma {:induction false} DecodeUnique(ps: seq<Payload>, rest: seq<byte>)
    requires !HasFrame(rest)
    ensures Decode(Frames(ps) + rest) == (ps, rest)
  {
    if ps == [] {
      assert Frames(ps) + rest == rest;
    } else {
      var tail := Frames(ps[1..]) + rest;
      assert Frames(ps) + rest == Frame(ps[0]) + tail;
      FrameIsFrame(ps[0], tail);
      DecodeUnique(ps[1..], rest);
      assert ps == [ps[0]] + ps[1..];
    }
  }

  lemma Regroup(ps: seq<Payload>, rest: seq<byte>, b: seq<byte>, qs: seq<Payload>, rest': seq<byte>)
    requires rest + b == Frames(qs) + rest'
    ensures Frames(ps) + rest + b == Frames(ps + qs) + rest'
  {
    FramesAppend(ps, qs);
    assert Frames(ps) + rest + b == Frames(ps) + (rest + b);
  }

  /** Decoding a then b, keeping the leftover in between, is decoding a ++ b. */
  lemma DecodeAppend(a: seq<byte>, b: seq<byte>)
    ensures var (ps, rest) := Decode(a);
            var (qs, rest') := Decode(rest + b);
            Decode(a + b) == (ps + qs, rest')
  {
    var ps, rest := Decode(a).0, Decode(a).1;
    var qs, rest' := Decode(rest + b).0, Decode(rest + b).1;
    DecodeSplits(a);
    DecodeSplits(rest + b);
    Regroup(ps, rest, b, qs, rest');
    DecodeUnique(ps + qs, rest');
  }

  /** Frames that agree up to an incomplete rest: one list extends the other by what the rest starts. */
  lemma FramesPrefix(a: seq<Payload>, rest: seq<byte>, b: seq<Payload>)
    requires Frames(a) + rest == Frames(b)
    ensures a <= b && Frames(b[|a|..]) == rest
    ensures rest == [] <==> a == b
  {
    var ps, left := Decode(rest).0, Decode(rest).1;
    DecodeSplits(rest);
    Regroup(a, rest, [], ps, left);
    assert Frames(a) + rest + [] == Frames(b) == Frames(b) + [];
    DecodeUnique(a + ps, left);
    DecodeUnique(b, []);
    assert b[|a|..] == ps;
  }

  /** One turn of the reader's loop: the front frame moves from the buffer to the payloads done. */
  lemma TakeFrame(done: seq<Payload>, buffer: seq<byte>)
    requires HasFrame(buffer)
    ensures var n := ReadUInt32BE(buffer);
            Frames(done + [buffer[4..4 + n]]) + buffer[4 + n..] == Frames(done) + buffer
  {
    var n := ReadUInt32BE(buffer);
    FrontFrame(buffer);
    FramesSnoc(done, buffer[4..4 + n]);
    assert Frames(done) + buffer == Frames(done) + Frame(buffer[4..4 + n]) + buffer[4 + n..];
  }

  /** The reader `makeFrameReader` builds; `OnData` returns the payloads it hands to `onFrame`. */
  class FrameReader {
    var pending: seq<byte>

    constructor ()
      ensures pending == []
    {
      pending := [];
    }

    method OnData(chunk: seq<byte>) returns (emitted: seq<Payload>)
      requires !HasFrame(pending)
      modifies this
      ensures Frames(emitted) + pending == old(pending) + chunk
      ensures !HasFrame(pending)
      ensures (emitted, pending) == Decode(old(pending) + chunk)
    {
      pending := pending + chunk;
      emitted := [];
      while |pending| >= 4
        invariant Frames(emitted) + pending == old(pending) + chunk
        decreases |pending|
      {
        var len := ReadUInt32BE(pending);
        if |pending| < 4 + len { break; }
        var payload := pending[4..4 + len];
        TakeFrame(emitted, pending);
        pending := pending[4 + len..];
        emitted := emitted + [payload];
      }
      DecodeUnique(emitted, pending);
    }
  }

  /** What a fresh reader has emitted, and still holds, after a list of chunks. */
  function ReadChunks(chunks: seq<seq<byte>>): (r: (seq<Payload>, seq<byte>))
  {
    if chunks == [] then ([], []) else
      var before := ReadChunks(chunks[..|chunks| - 1]);
      var now := Decode(before.1 + chunks[|chunks| - 1]);
      (before.0 + now.0, now.1)
  }

  /** The reader never sees where the stream was cut. */
  lemma {:induction false} ReaderIgnoresChunking(chunks: seq<seq<byte>>)
    ensures ReadChunks(chunks) == Decode(Concat(chunks))
  {
    if chunks != [] {
      var last := |chunks| - 1;
      ReaderIgnoresChunking(chunks[..last]);
      DecodeAppend(Concat(chunks[..last]), chunks[last]);
    }
  }

  /** However the frames of some payloads (and the start of one more) are cut, the reader emits
      those payloads in order and keeps exactly the undecoded suffix. */
  lemma ReaderRoundTrip(ps: seq<Payload>, rest: seq<byte>, chunks: seq<seq<byte>>)
    requires !HasFrame(rest)
    requires Concat(chunks) == Frames(ps) + rest
    ensures ReadChunks(chunks) == (ps, rest)
  {
    ReaderIgnoresChunking(chunks);
    DecodeUnique(ps, rest);
  }
}

/** The broker and its clients as one transition system: every socket is a FIFO of bytes, cut into
    chunks at arbitrary points, and every peer runs the handlers of `SocketPubSubService`. */
module SocketNetwork {
  import opened Bytes
  import opened Common
  import opened SocketFrames

  /** Who published a message the broker dispatched. */
  datatype Origin = TheBroker | Client(id: int)
  datatype Event = Event(origin: Origin, payload: Payload)

  /** A client dispatches its own messages at once, and the others when their frames arrive. */
  datatype Dispatch = Own(payload: Payload) | Received(payload: Payload)

  /** One accepted socket: what its reader holds, and the bytes written to it and not yet read by the client. */
  datatype Socket = Socket(pending: seq<byte>, sent: seq<byte>)

  /** `log`: what the broker dispatched, oldest first. */
  datatype Broker = Broker(sockets: map<int, Socket>, log: seq<Event>)

  /** `fanout`: the frame goes to every subscriber except the one the message came from. */
  function FanoutTo(sockets: map<int, Socket>, m: Payload, except: Option<int>): (r: map<int, Socket>)
  {
    map q | q in sockets ::
      if except == Some(q) then sockets[q] else sockets[q].(sent := sockets[q].sent + Frame(m))
  }

  /** One decoded frame of client p: fan it out to the others, then dispatch it. */
  function Relay(b: Broker, p: int, m: Payload): (r: Broker) {
    Broker(FanoutTo(b.sockets, m, Some(p)), b.log + [Event(Client(p), m)])
  }

  function RelayAll(b: Broker, p: int, ms: seq<Payload>): (r: Broker)
    ensures r.sockets.Keys == b.sockets.Keys
    decreases |ms|
  {
    if ms == [] then b else RelayAll(Relay(b, p, ms[0]), p, ms[1..])
  }

  lemma {:induction false} RelayAllSnoc(b: Broker, p: int, ms: seq<Payload>, m: Payload)
    ensures RelayAll(b, p, ms + [m]) == Relay(RelayAll(b, p, ms), p, m)
    decreases |ms|
  {
    if ms == [] {
      assert [] + [m] == [m];
    } else {
      assert (ms + [m])[0] == ms[0] && (ms + [m])[1..] == ms[1..] + [m];
      RelayAllSnoc(Relay(b, p, ms[0]), p, ms[1..], m);
    }
  }

  function KeepPending(b: Broker, p: int, rest: seq<byte>): (r: Broker)
    requires p in b.sockets
  {
    b.(sockets := b.sockets[p := b.sockets[p].(pending := rest)])
  }

  /** The `data` handler of an accepted socket. */
  function BrokerOnData(b: Broker, p: int, chunk: seq<byte>): (r: Broker)
    requires p in b.sockets
    ensures r.sockets.Keys == b.sockets.Keys
  {
    var (ms, rest) := Decode(b.sockets[p].pending + chunk);
    RelayAll(KeepPending(b, p, rest), p, ms)
  }

  lemma RelayKeepsPending(b: Broker, rest: seq<byte>, p: int, m: Payload)
    requires p in b.sockets
    ensures Relay(KeepPending(b, p, rest), p, m) == KeepPending(Relay(b, p, m), p, rest)
  {
    var x, y := Relay(KeepPending(b, p, rest), p, m).sockets, KeepPending(Relay(b, p, m), p, rest).sockets;
    assert x.Keys == y.Keys;
    forall q | q in x ensures x[q] == y[q] {
      assert q in b.sockets && (q == p || q != p);
    }
  }

  /** Relaying does not touch what the readers hold. */
  lemma {:induction false} RelayAllKeepsPending(b: Broker, rest: seq<byte>, p: int, ms: seq<Payload>)
    requires p in b.sockets
    ensures RelayAll(KeepPending(b, p, rest), p, ms) == KeepPending(RelayAll(b, p, ms), p, rest)
    decreases |ms|
  {
    if ms != [] {
      RelayAllKeepsPending(Relay(b, p, ms[0]), rest, p, ms[1..]);
      RelayKeepsPending(b, rest, p, ms[0]);
    }
  }

  /** Relaying frame by frame what a chunk completes, and then keeping the rest. */
  lemma ReadToTheEnd(b: Broker, p: int, chunk: seq<byte>, done: seq<Payload>, rest: seq<byte>)
    requires p in b.sockets && Frames(done) + rest == b.sockets[p].pending + chunk && !HasFrame(rest)
    ensures BrokerOnData(b, p, chunk) == KeepPending(RelayAll(b, p, done), p, rest)
  {
    DecodeUnique(done, rest);
    RelayAllKeepsPending(b, rest, p, done);
  }

  /** `sendMessage` on the broker: fan out to all subscribers, then dispatch. */
  function BrokerSend(b: Broker, m: Payload): (r: Broker) {
    Broker(FanoutTo(b.sockets, m, None), b.log + [Event(TheBroker, m)])
  }

  /** The fan-out when it has come past the sockets in `done`. */
  function FannedOut(sockets: map<int, Socket>, done: seq<int>, m: Payload, except: Option<int>): (r: map<int, Socket>)
  {
    map q | q in sockets ::
      if q !in done || except == Some(q) then sockets[q] else sockets[q].(sent := sockets[q].sent + Frame(m))
  }

  lemma FannedOutNext(sockets: map<int, Socket>, done: seq<int>, sub: int, m: Payload, except: Option<int>)
    requires sub in sockets && sub !in done
    ensures var now := FannedOut(sockets, done, m, except);
            FannedOut(sockets, done + [sub], m, except) ==
              if except == Some(sub) then now else now[sub := now[sub].(sent := now[sub].sent + Frame(m))]
  {
  }

  lemma FannedOutAll(sockets: map<int, Socket>, done: seq<int>, m: Payload, except: Option<int>)
    requires forall q :: q in sockets ==> q in done
    ensures FannedOut(sockets, done, m, except) == FanoutTo(sockets, m, except)
  {
    var x, y := FannedOut(sockets, done, m, except), FanoutTo(sockets, m, except);
    assert x.Keys == y.Keys;
    forall q | q in x ensures x[q] == y[q] {
      assert q in sockets && q in done;
    }
  }

  /** The service in broker mode. `subscribers` is the Set of accepted sockets, in insertion order. */
  class BrokerService {
    var subscribers: seq<int>
    var sockets: map<int, Socket>
    var log: seq<Event>

    ghost predicate Valid()
      reads this
    {
      && (forall i, j :: 0 <= i < j < |subscribers| ==> subscribers[i] != subscribers[j])
      && (forall q :: q in subscribers <==> q in sockets)
    }

    ghost function State(): (r: Broker)
      reads this
    {
      Broker(sockets, log)
    }

    constructor ()
      ensures Valid() && State() == Broker(map[], [])
    {
      subscribers, sockets, log := [], map[], [];
    }

    /** A socket is accepted. */
    method Accept(socket: int)
      requires Valid() && socket !in subscribers
      modifies this
      ensures Valid()
      ensures State() == Broker(old(sockets)[socket := Socket([], [])], old(log))
    {
      subscribers := subscribers + [socket];
      sockets := sockets[socket := Socket([], [])];
    }

    method Fanout(buf: Payload, except: Option<int>)
      requires Valid()
      modifies this`sockets
      ensures Valid()
      ensures sockets == FanoutTo(old(sockets), buf, except)
      ensures forall q :: q in sockets ==>
        sockets[q] == if except == Some(q) then old(sockets)[q]
                      else old(sockets)[q].(sent := old(sockets)[q].sent + Frame(buf))
    {
      var framed := Frame(buf);
      for i := 0 to |subscribers|
        invariant sockets == FannedOut(old(sockets), subscribers[..i], buf, except)
      {
        var sub := subscribers[i];
        assert sub !in subscribers[..i] && subscribers[..i + 1] == subscribers[..i] + [sub];
        FannedOutNext(old(sockets), subscribers[..i], sub, buf, except);
        if except == Some(sub) { continue; }
        sockets := sockets[sub := sockets[sub].(sent := sockets[sub].sent + framed)];
      }
      assert subscribers[..|subscribers|] == subscribers;
      FannedOutAll(old(sockets), subscribers, buf, except);
    }

    /** One frame of a client's socket, as its reader's `onFrame` handles it. */
    method OnFrame(socket: int, buf: Payload)
      requires Valid()
      modifies this`sockets, this`log
      ensures Valid() && State() == Relay(old(State()), socket, buf)
      ensures log == old(log) + [Event(Client(socket), buf)]
    {
      Fanout(buf, Some(socket));
      log := log + [Event(Client(socket), buf)];
    }

    method OnData(socket: int, chunk: seq<byte>)
      requires Valid() && socket in sockets && !HasFrame(sockets[socket].pending)
      modifies this
      ensures Valid() && socket in sockets && !HasFrame(sockets[socket].pending)
      ensures State() == BrokerOnData(old(State()), socket, chunk)
    {
      var buffer := sockets[socket].pending + chunk;
      ghost var start, all := State(), buffer;
      ghost var done: seq<Payload> := [];
      while |buffer| >= 4
        invariant Valid() && socket in sockets
        invariant Frames(done) + buffer == all
        invariant State() == RelayAll(start, socket, done)
        decreases |buffer|
      {
        var len := ReadUInt32BE(buffer);
        if |buffer| < 4 + len { break; }
        var payload := buffer[4..4 + len];
        assert Frames(done + [payload]) + buffer[4 + len..] == all by { TakeFrame(done, buffer); }
        assert RelayAll(start, socket, done + [payload]) == Relay(State(), socket, payload) by {
          RelayAllSnoc(start, socket, done, payload);
        }
        buffer := buffer[4 + len..];
        done := done + [payload];
        OnFrame(socket, payload);
      }
      ReadToTheEnd(start, socket, chunk, done, buffer);
      sockets := sockets[socket := sockets[socket].(pending := buffer)];
    }

    method SendMessage(buf: Payload)
      requires Valid()
      modifies this
      ensures Valid() && State() == BrokerSend(old(State()), buf)
      ensures log == old(log) + [Event(TheBroker, buf)]
      ensures sockets.Keys == old(sockets).Keys
      ensures forall q :: q in sockets ==>
        sockets[q] == old(sockets)[q].(sent := old(sockets)[q].sent + Frame(buf))
    {
      Fanout(buf, None);
      log := log + [Event(TheBroker, buf)];
    }
  }

  /** A client: what it passed to `sendMessage` (history), the bytes it wrote that the broker has not
      read, what its reader holds, and what it dispatched. */
  datatype ClientState = ClientState(
    published: seq<Payload>,
    uplink: seq<byte>,
    pending: seq<byte>,
    dispatched: seq<Dispatch>)

  /** The whole system. */
  datatype Network = Network(broker: Broker, clients: map<int, ClientState>)
  {
    predicate Connected() {
      broker.sockets.Keys == clients.Keys
    }
  }

  datatype Step =
    | BrokerPublishes(m: Payload)
    | ClientPublishes(p: int, m: Payload)
    | BrokerReads(p: int, size: nat)
    | ClientReads(p: int, size: nat)

  function Receipts(ms: seq<Payload>): (ds: seq<Dispatch>)
    ensures |ds| == |ms|
  {
    seq(|ms|, i requires 0 <= i < |ms| => Received(ms[i]))
  }

  /** A read takes any positive number of the bytes in flight. */
  predicate Enabled(n: Network, s: Step) {
    match s
    case BrokerPublishes(_) => true
    case ClientPublishes(p, _) => p in n.clients
    case BrokerReads(p, size) => p in n.clients && 0 < size <= |n.clients[p].uplink|
    case ClientReads(p, size) => p in n.broker.sockets && 0 < size <= |n.broker.sockets[p].sent|
  }

  function Apply(n: Network, s: Step): (r: Network)
    requires n.Connected() && Enabled(n, s)
    ensures r.Connected() && r.clients.Keys == n.clients.Keys
  {
    match s
    case BrokerPublishes(m) =>
      n.(broker := BrokerSend(n.broker, m))
    case ClientPublishes(p, m) =>
      var c := n.clients[p];
      n.(clients := n.clients[p := ClientState(c.published + [m], c.uplink + Frame(m), c.pending,
                                               c.dispatched + [Own(m)])])
    case BrokerReads(p, size) =>
      var c := n.clients[p];
      Network(BrokerOnData(n.broker, p, c.uplink[..size]), n.clients[p := c.(uplink := c.uplink[size..])])
    case ClientReads(p, size) =>
      var c, socket := n.clients[p], n.broker.sockets[p];
      var (ms, rest) := Decode(c.pending + socket.sent[..size]);
      Network(n.broker.(sockets := n.broker.sockets[p := socket.(sent := socket.sent[size..])]),
              n.clients[p := c.(pending := rest, dispatched := c.dispatched + Receipts(ms))])
  }

  /** `n` is where a run of enabled steps leads, from freshly connected clients. */
  ghost predicate Reaches(clients: set<int>, steps: seq<Step>, n: Network)
  {
    if steps == [] then
      n == Network(Broker(map p | p in clients :: Socket([], []), []),
                   map p | p in clients :: ClientState([], [], [], []))
    else
      exists before: Network ::
        Reaches(clients, steps[..|steps| - 1], before) && before.Connected()
        && Enabled(before, steps[|steps| - 1]) && n == Apply(before, steps[|steps| - 1])
  }

  /** The broker's log restricted to what client p published. */
  function By(log: seq<Event>, p: int): (ms: seq<Payload>)
  {
    if log == [] then [] else
      var e, before := log[|log| - 1], By(log[..|log| - 1], p);
      if e.origin == Client(p) then before + [e.payload] else before
  }

  /** The broker's log without what client p published. */
  function NotBy(log: seq<Event>, p: int): (ms: seq<Payload>)
  {
    if log == [] then [] else
      var e, before := log[|log| - 1], NotBy(log[..|log| - 1], p);
      if e.origin == Client(p) then before else before + [e.payload]
  }

  function Heard(ds: seq<Dispatch>): (ms: seq<Payload>)
  {
    if ds == [] then [] else
      var d, before := ds[|ds| - 1], Heard(ds[..|ds| - 1]);
      if d.Received? then before + [d.payload] else before
  }

  function Said(ds: seq<Dispatch>): (ms: seq<Payload>)
  {
    if ds == [] then [] else
      var d, before := ds[|ds| - 1], Said(ds[..|ds| - 1]);
      if d.Own? then before + [d.payload] else before
  }

  /** Up: log of p ++ payloads decoded but not relayed ++ bytes in flight from p == what p published. */
  predicate UpOk(log: seq<Event>, p: int, queued: seq<Payload>, pending: seq<byte>, flight: seq<byte>,
                 published: seq<Payload>)
  {
    !HasFrame(pending) && Frames(By(log, p) + queued) + (pending + flight) == Frames(published)
  }

  /** Down: what p heard ++ bytes in flight to p == the broker's log without p's messages. */
  predicate DownOk(log: seq<Event>, p: int, dispatched: seq<Dispatch>, pending: seq<byte>, flight: seq<byte>) {
    !HasFrame(pending) && Frames(Heard(dispatched)) + (pending + flight) == Frames(NotBy(log, p))
  }

  predicate ClientOk(log: seq<Event>, p: int, socket: Socket, c: ClientState, queued: seq<Payload>) {
    && UpOk(log, p, queued, socket.pending, c.uplink, c.published)
    && DownOk(log, p, c.dispatched, c.pending, socket.sent)
    && Said(c.dispatched) == c.published
  }

  ghost predicate Inv(n: Network) {
    n.Connected() && forall p :: p in n.clients ==> ClientOk(n.broker.log, p, n.broker.sockets[p], n.clients[p], [])
  }

  /** The invariant while the broker is relaying the frames it decoded from client s. */
  ghost predicate InvRelaying(n: Network, s: int, queued: seq<Payload>) {
    && n.Connected()
    && forall p :: p in n.clients ==>
         ClientOk(n.broker.log, p, n.broker.sockets[p], n.clients[p], if p == s then queued else [])
  }

  lemma LogGrows(log: seq<Event>, e: Event, p: int)
    ensures By(log + [e], p) == if e.origin == Client(p) then By(log, p) + [e.payload] else By(log, p)
    ensures NotBy(log + [e], p) == if e.origin == Client(p) then NotBy(log, p) else NotBy(log, p) + [e.payload]
  {
    assert (log + [e])[..|log|] == log;
  }

  lemma DispatchGrows(ds: seq<Dispatch>, d: Dispatch)
    ensures Heard(ds + [d]) == if d.Received? then Heard(ds) + [d.payload] else Heard(ds)
    ensures Said(ds + [d]) == if d.Own? then Said(ds) + [d.payload] else Said(ds)
  {
    assert (ds + [d])[..|ds|] == ds;
  }

  /** One more frame written to a socket keeps the accounting of that socket. */
  lemma FlightGrows(before: seq<Payload>, pending: seq<byte>, flight: seq<byte>, all: seq<Payload>, m: Payload)
    requires Frames(before) + (pending + flight) == Frames(all)
    ensures Frames(before) + (pending + (flight + Frame(m))) == Frames(all + [m])
  {
    FramesSnoc(all, m);
    Assoc(pending, flight, Frame(m));
    Assoc(Frames(before), pending + flight, Frame(m));
  }

  /** A message from p reaches the log: p's side. */
  lemma LoggedUp(log: seq<Event>, p: int, queued: seq<Payload>, pending: seq<byte>, flight: seq<byte>,
                 published: seq<Payload>)
    requires queued != [] && UpOk(log, p, queued, pending, flight, published)
    ensures UpOk(log + [Event(Client(p), queued[0])], p, queued[1..], pending, flight, published)
  {
    LogGrows(log, Event(Client(p), queued[0]), p);
    assert By(log, p) + queued == By(log, p) + [queued[0]] + queued[1..];
  }

  /** A message not from p reaches the log and p's socket. */
  lemma LoggedDown(log: seq<Event>, e: Event, p: int, dispatched: seq<Dispatch>, pending: seq<byte>, flight: seq<byte>)
    requires e.origin != Client(p) && DownOk(log, p, dispatched, pending, flight)
    ensures DownOk(log + [e], p, dispatched, pending, flight + Frame(e.payload))
  {
    LogGrows(log, e, p);
    FlightGrows(Heard(dispatched), pending, flight, NotBy(log, p), e.payload);
  }

  /** One relayed frame, as seen from the sockets of client p. */
  lemma RelayKeepsClient(log: seq<Event>, p: int, socket: Socket, c: ClientState, s: int, queued: seq<Payload>)
    requires queued != [] && ClientOk(log, p, socket, c, if p == s then queued else [])
    ensures var socket' := if p == s then socket else socket.(sent := socket.sent + Frame(queued[0]));
            ClientOk(log + [Event(Client(s), queued[0])], p, socket', c, if p == s then queued[1..] else [])
  {
    var e := Event(Client(s), queued[0]);
    LogGrows(log, e, p);
    if p == s {
      LoggedUp(log, s, queued, socket.pending, c.uplink, c.published);
    } else {
      LoggedDown(log, e, p, c.dispatched, c.pending, socket.sent);
    }
  }

  lemma RelayKeeps(n: Network, s: int, queued: seq<Payload>)
    requires s in n.clients && queued != [] && InvRelaying(n, s, queued)
    ensures InvRelaying(n.(broker := Relay(n.broker, s, queued[0])), s, queued[1..])
  {
    var b' := Relay(n.broker, s, queued[0]);
    forall p | p in n.clients
      ensures ClientOk(b'.log, p, b'.sockets[p], n.clients[p], if p == s then queued[1..] else [])
    {
      var socket := n.broker.sockets[p];
      RelayKeepsClient(n.broker.log, p, socket, n.clients[p], s, queued);
      assert b'.sockets[p] == if p == s then socket else socket.(sent := socket.sent + Frame(queued[0]));
    }
    var n' := n.(broker := b');
    assert n'.Connected() && n'.clients == n.clients && n'.broker == b';
  }

  lemma {:induction false} RelayAllKeeps(n: Network, s: int, queued: seq<Payload>)
    requires s in n.clients && InvRelaying(n, s, queued)
    ensures Inv(n.(broker := RelayAll(n.broker, s, queued)))
    decreases |queued|
  {
    if queued == [] {
      assert n.(broker := n.broker) == n;
    } else {
      RelayKeeps(n, s, queued);
      var n' := n.(broker := Relay(n.broker, s, queued[0]));
      RelayAllKeeps(n', s, queued[1..]);
      assert n'.(broker := RelayAll(n'.broker, s, queued[1..])) == n.(broker := RelayAll(n.broker, s, queued));
    }
  }

  lemma CutMoves(a: seq<byte>, pending: seq<byte>, flight: seq<byte>, size: nat, b: seq<byte>, rest: seq<byte>)
    requires size <= |flight| && pending + flight[..size] == b + rest
    ensures a + (pending + flight) == a + b + (rest + flight[size..])
  {
    var more := flight[size..];
    assert flight == flight[..size] + more;
    assert a + (pending + flight) == a + (pending + flight[..size] + more);
    assert a + (b + rest + more) == a + b + (rest + more);
  }

  /** A chunk moved from the socket into the reader, and decoded there. */
  lemma ChunkDecoded(before: seq<Payload>, pending: seq<byte>, flight: seq<byte>, size: nat, all: seq<Payload>)
    requires size <= |flight|
    requires Frames(before) + (pending + flight) == Frames(all)
    ensures var (ms, rest) := Decode(pending + flight[..size]);
            !HasFrame(rest) && Frames(before + ms) + (rest + flight[size..]) == Frames(all)
  {
    var ms, rest := Decode(pending + flight[..size]).0, Decode(pending + flight[..size]).1;
    DecodeSplits(pending + flight[..size]);
    CutMoves(Frames(before), pending, flight, size, Frames(ms), rest);
    FramesAppend(before, ms);
  }

  /** The chunk as p's own sockets see it. */
  lemma ChunkUp(log: seq<Event>, p: int, socket: Socket, c: ClientState, size: nat)
    requires ClientOk(log, p, socket, c, []) && size <= |c.uplink|
    ensures var (ms, rest) := Decode(socket.pending + c.uplink[..size]);
            ClientOk(log, p, socket.(pending := rest), c.(uplink := c.uplink[size..]), ms)
  {
    assert By(log, p) + [] == By(log, p);
    ChunkDecoded(By(log, p), socket.pending, c.uplink, size, c.published);
  }

  /** The network when the broker has decoded a chunk and relayed nothing of it yet. */
  function Decoded(n: Network, p: int, size: nat): (r: Network)
    requires n.Connected() && Enabled(n, BrokerReads(p, size))
  {
    var c := n.clients[p];
    Network(KeepPending(n.broker, p, Decode(n.broker.sockets[p].pending + c.uplink[..size]).1),
            n.clients[p := c.(uplink := c.uplink[size..])])
  }

  lemma DecodedIsApart(n: Network, p: int, size: nat, q: int)
    requires n.Connected() && Enabled(n, BrokerReads(p, size)) && q in n.clients && q != p
    ensures var mid := Decoded(n, p, size);
            mid.Connected() && q in mid.clients && mid.broker.log == n.broker.log
            && mid.broker.sockets[q] == n.broker.sockets[q] && mid.clients[q] == n.clients[q]
  {
  }

  lemma DecodedHere(n: Network, p: int, size: nat)
    requires n.Connected() && Enabled(n, BrokerReads(p, size))
    ensures var mid, c, socket := Decoded(n, p, size), n.clients[p], n.broker.sockets[p];
            && mid.Connected() && mid.clients.Keys == n.clients.Keys && mid.broker.log == n.broker.log
            && mid.broker.sockets[p] == socket.(pending := Decode(socket.pending + c.uplink[..size]).1)
            && mid.clients[p] == c.(uplink := c.uplink[size..])
  {
  }

  lemma DecodedKeeps(n: Network, p: int, size: nat)
    requires Inv(n) && Enabled(n, BrokerReads(p, size))
    ensures var ms := Decode(n.broker.sockets[p].pending + n.clients[p].uplink[..size]).0;
            InvRelaying(Decoded(n, p, size), p, ms)
  {
    var ms, mid := Decode(n.broker.sockets[p].pending + n.clients[p].uplink[..size]).0, Decoded(n, p, size);
    DecodedHere(n, p, size);
    ChunkUp(n.broker.log, p, n.broker.sockets[p], n.clients[p], size);
    forall q | q in mid.clients && q != p
      ensures ClientOk(mid.broker.log, q, mid.broker.sockets[q], mid.clients[q], [])
    {
      DecodedIsApart(n, p, size, q);
    }
  }

  lemma BrokerReadsKeeps(n: Network, p: int, size: nat)
    requires Inv(n) && Enabled(n, BrokerReads(p, size))
    ensures Inv(Apply(n, BrokerReads(p, size)))
  {
    var ms, mid := Decode(n.broker.sockets[p].pending + n.clients[p].uplink[..size]).0, Decoded(n, p, size);
    DecodedKeeps(n, p, size);
    RelayAllKeeps(mid, p, ms);
    assert Apply(n, BrokerReads(p, size)) == mid.(broker := RelayAll(mid.broker, p, ms));
  }

  lemma ReceiptsSnoc(ds: seq<Dispatch>, ms: seq<Payload>, k: nat)
    requires k + 1 == |ms|
    ensures ds + Receipts(ms) == ds + Receipts(ms[..k]) + [Received(ms[k])] && ms == ms[..k] + [ms[k]]
    ensures forall heard: seq<Payload> :: heard + ms[..k] + [ms[k]] == heard + ms
  {
    forall heard: seq<Payload> ensures heard + ms[..k] + [ms[k]] == heard + ms {
      assert ms == ms[..k] + [ms[k]];
      Assoc(heard, ms[..k], [ms[k]]);
    }
  }

  lemma {:induction false} HeardAppends(ds: seq<Dispatch>, ms: seq<Payload>)
    ensures Heard(ds + Receipts(ms)) == Heard(ds) + ms
    ensures Said(ds + Receipts(ms)) == Said(ds)
    decreases |ms|
  {
    if ms == [] {
      assert ds + Receipts(ms) == ds;
    } else {
      var k := |ms| - 1;
      HeardAppends(ds, ms[..k]);
      DispatchGrows(ds + Receipts(ms[..k]), Received(ms[k]));
      ReceiptsSnoc(ds, ms, k);
    }
  }

  lemma DownRead(log: seq<Event>, p: int, dispatched: seq<Dispatch>, pending: seq<byte>, flight: seq<byte>, size: nat)
    requires size <= |flight| && DownOk(log, p, dispatched, pending, flight)
    ensures var (ms, rest) := Decode(pending + flight[..size]);
            && DownOk(log, p, dispatched + Receipts(ms), rest, flight[size..])
            && Said(dispatched + Receipts(ms)) == Said(dispatched)
  {
    ChunkDecoded(Heard(dispatched), pending, flight, size, NotBy(log, p));
    HeardAppends(dispatched, Decode(pending + flight[..size]).0);
  }

  /** The chunk as p's own sockets see it, on the way down. */
  lemma ChunkDown(log: seq<Event>, p: int, socket: Socket, c: ClientState, size: nat)
    requires ClientOk(log, p, socket, c, []) && size <= |socket.sent|
    ensures var (ms, rest) := Decode(c.pending + socket.sent[..size]);
            ClientOk(log, p, socket.(sent := socket.sent[size..]),
                     c.(pending := rest, dispatched := c.dispatched + Receipts(ms)), [])
  {
    DownRead(log, p, c.dispatched, c.pending, socket.sent, size);
  }

  lemma ReadingIsApart(n: Network, p: int, size: nat, q: int)
    requires n.Connected() && Enabled(n, ClientReads(p, size)) && q in n.clients && q != p
    ensures var n' := Apply(n, ClientReads(p, size));
            && n'.broker.log == n.broker.log
            && n'.broker.sockets[q] == n.broker.sockets[q] && n'.clients[q] == n.clients[q]
  {
  }

  lemma ClientReadsKeeps(n: Network, p: int, size: nat)
    requires Inv(n) && Enabled(n, ClientReads(p, size))
    ensures Inv(Apply(n, ClientReads(p, size)))
  {
    var n' := Apply(n, ClientReads(p, size));
    forall q | q in n'.clients ensures ClientOk(n'.broker.log, q, n'.broker.sockets[q], n'.clients[q], []) {
      if q == p {
        ChunkDown(n.broker.log, p, n.broker.sockets[p], n.clients[p], size);
      } else {
        ReadingIsApart(n, p, size, q);
      }
    }
  }

  lemma BrokerPublishesKeeps(n: Network, m: Payload)
    requires Inv(n)
    ensures Inv(Apply(n, BrokerPublishes(m)))
  {
    var n' := Apply(n, BrokerPublishes(m));
    var e := Event(TheBroker, m);
    forall q | q in n'.clients ensures ClientOk(n'.broker.log, q, n'.broker.sockets[q], n'.clients[q], []) {
      var c, socket := n.clients[q], n.broker.sockets[q];
      assert ClientOk(n.broker.log, q, socket, c, []);
      LogGrows(n.broker.log, e, q);
      LoggedDown(n.broker.log, e, q, c.dispatched, c.pending, socket.sent);
    }
  }

  lemma UpGrows(log: seq<Event>, p: int, pending: seq<byte>, flight: seq<byte>, published: seq<Payload>, m: Payload)
    requires UpOk(log, p, [], pending, flight, published)
    ensures UpOk(log, p, [], pending, flight + Frame(m), published + [m])
  {
    FlightGrows(By(log, p) + [], pending, flight, published, m);
  }

  /** A message of its own, as p's sockets see it. */
  lemma PublishedUp(log: seq<Event>, p: int, socket: Socket, c: ClientState, m: Payload)
    requires ClientOk(log, p, socket, c, [])
    ensures ClientOk(log, p, socket, ClientState(c.published + [m], c.uplink + Frame(m), c.pending,
                                                 c.dispatched + [Own(m)]), [])
  {
    UpGrows(log, p, socket.pending, c.uplink, c.published, m);
    DispatchGrows(c.dispatched, Own(m));
  }

  lemma PublishingIsApart(n: Network, p: int, m: Payload, q: int)
    requires n.Connected() && p in n.clients && q in n.clients && q != p
    ensures var n' := Apply(n, ClientPublishes(p, m)); n'.broker == n.broker && n'.clients[q] == n.clients[q]
  {
  }

  lemma ClientPublishesKeeps(n: Network, p: int, m: Payload)
    requires Inv(n) && p in n.clients
    ensures Inv(Apply(n, ClientPublishes(p, m)))
  {
    var n' := Apply(n, ClientPublishes(p, m));
    forall q | q in n'.clients ensures ClientOk(n'.broker.log, q, n'.broker.sockets[q], n'.clients[q], []) {
      if q == p {
        PublishedUp(n.broker.log, p, n.broker.sockets[p], n.clients[p], m);
      } else {
        PublishingIsApart(n, p, m, q);
      }
    }
  }

  /** Every step of the protocol keeps the invariant. */
  lemma StepKeeps(n: Network, s: Step)
    requires Inv(n) && Enabled(n, s)
    ensures Inv(Apply(n, s))
  {
    match s {
      case BrokerPublishes(m) => BrokerPublishesKeeps(n, m);
      case ClientPublishes(p, m) => ClientPublishesKeeps(n, p, m);
      case BrokerReads(p, size) => BrokerReadsKeeps(n, p, size);
      case ClientReads(p, size) => ClientReadsKeeps(n, p, size);
    }
  }

  lemma {:induction false} RunKeeps(clients: set<int>, steps: seq<Step>, n: Network)
    requires Reaches(clients, steps, n)
    ensures Inv(n) && n.clients.Keys == clients
  {
    if steps == [] {
      forall p | p in clients ensures ClientOk([], p, Socket([], []), ClientState([], [], [], []), []) {
        assert By([], p) + [] == [];
      }
    } else {
      var last := |steps| - 1;
      var before :| Reaches(clients, steps[..last], before) && before.Connected()
                    && Enabled(before, steps[last]) && n == Apply(before, steps[last]);
      RunKeeps(clients, steps[..last], before);
      StepKeeps(before, steps[last]);
    }
  }

  /** Safety, at every moment of every run: each peer has dispatched an initial part of the one log,
      in its order and without its own messages, the log holds an initial part of what each client
      published, in its order, and the bytes in flight are exactly the frames of the rest. */
  lemma DispatchesFollowTheLog(clients: set<int>, steps: seq<Step>, n: Network, p: int)
    requires Reaches(clients, steps, n) && p in clients
    ensures p in n.clients && p in n.broker.sockets
    ensures var mine, c := By(n.broker.log, p), n.clients[p];
            mine <= c.published && n.broker.sockets[p].pending + c.uplink == Frames(c.published[|mine|..])
    ensures var heard, others := Heard(n.clients[p].dispatched), NotBy(n.broker.log, p);
            heard <= others && n.clients[p].pending + n.broker.sockets[p].sent == Frames(others[|heard|..])
    ensures Said(n.clients[p].dispatched) == n.clients[p].published
  {
    RunKeeps(clients, steps, n);
    var c, socket := n.clients[p], n.broker.sockets[p];
    assert ClientOk(n.broker.log, p, socket, c, []);
    assert By(n.broker.log, p) + [] == By(n.broker.log, p);
    FramesPrefix(By(n.broker.log, p), socket.pending + c.uplink, c.published);
    FramesPrefix(Heard(c.dispatched), c.pending + socket.sent, NotBy(n.broker.log, p));
  }

  // ---- what the steps of a run have put in and taken out ----

  /** The broker's log restricted to its own messages. */
  function ByBroker(log: seq<Event>): (ms: seq<Payload>)
  {
    if log == [] then [] else
      var e, before := log[|log| - 1], ByBroker(log[..|log| - 1]);
      if e.origin == TheBroker then before + [e.payload] else before
  }

  /** What the broker was asked to publish, and client p, in the order of the steps. */
  function AskedOfBroker(steps: seq<Step>): (ms: seq<Payload>)
  {
    if steps == [] then [] else
      var s, before := steps[|steps| - 1], AskedOfBroker(steps[..|steps| - 1]);
      if s.BrokerPublishes? then before + [s.m] else before
  }

  function AskedOf(steps: seq<Step>, p: int): (ms: seq<Payload>)
  {
    if steps == [] then [] else
      var s, before := steps[|steps| - 1], AskedOf(steps[..|steps| - 1], p);
      if s.ClientPublishes? && s.p == p then before + [s.m] else before
  }

  /** How many bytes the broker has read from client p, and client p from the broker. */
  function ReadUp(steps: seq<Step>, p: int): (n: nat)
  {
    if steps == [] then 0 else
      var s, before := steps[|steps| - 1], ReadUp(steps[..|steps| - 1], p);
      if s.BrokerReads? && s.p == p then before + s.size else before
  }

  function ReadDown(steps: seq<Step>, p: int): (n: nat)
  {
    if steps == [] then 0 else
      var s, before := steps[|steps| - 1], ReadDown(steps[..|steps| - 1], p);
      if s.ClientReads? && s.p == p then before + s.size else before
  }

  lemma BrokerLogGrows(log: seq<Event>, e: Event)
    ensures ByBroker(log + [e]) == if e.origin == TheBroker then ByBroker(log) + [e.payload] else ByBroker(log)
  {
    assert (log + [e])[..|log|] == log;
  }

  /** Relaying for s: the broker's own messages stay, and another client's stream grows by the frames. */
  lemma {:induction false} RelayAllSends(b: Broker, s: int, ms: seq<Payload>)
    ensures ByBroker(RelayAll(b, s, ms).log) == ByBroker(b.log)
    decreases |ms|
  {
    if ms != [] {
      BrokerLogGrows(b.log, Event(Client(s), ms[0]));
      RelayAllSends(Relay(b, s, ms[0]), s, ms[1..]);
    }
  }

  /** One step, told from the step: what is published is what was asked for, and what is read is taken off. */
  lemma StepDoes(n: Network, s: Step)
    requires n.Connected() && Enabled(n, s)
    ensures var n' := Apply(n, s);
            && ByBroker(n'.broker.log) == ByBroker(n.broker.log) + (if s.BrokerPublishes? then [s.m] else [])
            && forall p :: p in n.clients ==> n'.clients[p].published == PublishedBy(n, s, p)
    ensures s.BrokerReads? ==> Apply(n, s).clients[s.p].uplink == n.clients[s.p].uplink[s.size..]
  {
    match s {
      case BrokerPublishes(m) => BrokerLogGrows(n.broker.log, Event(TheBroker, m));
      case BrokerReads(p, size) =>
        var d := Decode(n.broker.sockets[p].pending + n.clients[p].uplink[..size]);
        RelayAllSends(KeepPending(n.broker, p, d.1), p, d.0);
      case _ =>
    }
  }

  function PublishedBy(n: Network, s: Step, p: int): (ms: seq<Payload>)
    requires p in n.clients
  {
    if s.ClientPublishes? && s.p == p then n.clients[p].published + [s.m] else n.clients[p].published
  }

  /** Nothing is published that was not asked for, and nothing that was asked for is lost: in every run the broker's own
      messages in its log are those that it was asked to publish, and each client's messages those that it was. */
  lemma {:induction false} PublishedAsAsked(clients: set<int>, steps: seq<Step>, n: Network)
    requires Reaches(clients, steps, n)
    ensures n.Connected() && n.clients.Keys == clients
    ensures ByBroker(n.broker.log) == AskedOfBroker(steps)
    ensures forall p :: p in clients ==> n.clients[p].published == AskedOf(steps, p)
  {
    if steps != [] {
      var last := |steps| - 1;
      var before :| Reaches(clients, steps[..last], before) && before.Connected()
                    && Enabled(before, steps[last]) && n == Apply(before, steps[last]);
      PublishedAsAsked(clients, steps[..last], before);
      StepDoes(before, steps[last]);
      forall p | p in clients ensures n.clients[p].published == AskedOf(steps, p) {
        assert n.clients[p].published == PublishedBy(before, steps[last], p);
      }
    }
  }

  /** No unread byte in the sockets between client p and the broker. */
  predicate Quiet(n: Network, p: int) {
    && p in n.clients && n.clients[p].uplink == []
    && p in n.broker.sockets && n.broker.sockets[p].sent == []
  }

  lemma RelayStream(b: Broker, s: int, m: Payload, q: int)
    requires q in b.sockets
    ensures var r := Relay(b, s, m);
            && r.sockets[q].sent == b.sockets[q].sent + (if q == s then [] else Frame(m))
            && NotBy(r.log, q) == NotBy(b.log, q) + (if q == s then [] else [m])
  {
    LogGrows(b.log, Event(Client(s), m), q);
    assert b.sockets[q].sent + [] == b.sockets[q].sent && NotBy(b.log, q) + [] == NotBy(b.log, q);
  }

  lemma {:induction false} RelayAllStream(b: Broker, s: int, ms: seq<Payload>, q: int)
    requires q in b.sockets
    ensures |RelayAll(b, s, ms).sockets[q].sent| == |b.sockets[q].sent| + (if q == s then 0 else |Frames(ms)|)
    ensures NotBy(RelayAll(b, s, ms).log, q) == NotBy(b.log, q) + (if q == s then [] else ms)
    decreases |ms|
  {
    if ms == [] {
      assert NotBy(b.log, q) + [] == NotBy(b.log, q);
    } else {
      RelayStream(b, s, ms[0], q);
      RelayAllStream(Relay(b, s, ms[0]), s, ms[1..], q);
      FirstOf(NotBy(b.log, q), ms);
    }
  }

  lemma FirstOf(before: seq<Payload>, ms: seq<Payload>)
    requires ms != []
    ensures |Frames(ms)| == |Frame(ms[0])| + |Frames(ms[1..])|
    ensures before + [ms[0]] + ms[1..] == before + ms && before + [] + [] == before
  {
    assert ms == [ms[0]] + ms[1..];
  }

  /** The bytes on the way up from p, and down to p, after one step. */
  predicate Moves(n: Network, s: Step, n': Network, p: int)
    requires p in n.clients && p in n'.clients && p in n.broker.sockets && p in n'.broker.sockets
  {
    && |n'.clients[p].uplink| - |n.clients[p].uplink| ==
         |Frames(PublishedBy(n, s, p))| - |Frames(n.clients[p].published)|
         - (if s.BrokerReads? && s.p == p then s.size else 0)
    && |n'.broker.sockets[p].sent| - |n.broker.sockets[p].sent| ==
         |Frames(NotBy(n'.broker.log, p))| - |Frames(NotBy(n.broker.log, p))|
         - (if s.ClientReads? && s.p == p then s.size else 0)
  }

  lemma StepMoves(n: Network, s: Step, p: int)
    requires n.Connected() && Enabled(n, s) && p in n.clients
    ensures Moves(n, s, Apply(n, s), p)
  {
    match s {
      case BrokerPublishes(m) =>
        LogGrows(n.broker.log, Event(TheBroker, m), p);
        FramesSnoc(NotBy(n.broker.log, p), m);
      case ClientPublishes(_, m) => FramesSnoc(n.clients[p].published, m);
      case BrokerReads(q, size) => BrokerReadMoves(n, q, size, p);
      case ClientReads(_, _) =>
    }
  }

  lemma BrokerReadMoves(n: Network, q: int, size: nat, p: int)
    requires n.Connected() && Enabled(n, BrokerReads(q, size)) && p in n.clients
    ensures Moves(n, BrokerReads(q, size), Apply(n, BrokerReads(q, size)), p)
  {
    var (ms, rest) := Decode(n.broker.sockets[q].pending + n.clients[q].uplink[..size]);
    var kept := KeepPending(n.broker, q, rest);
    assert kept.sockets[p].sent == n.broker.sockets[p].sent && kept.log == n.broker.log;
    RelayAllStream(kept, q, ms, p);
    FramesAppend(NotBy(n.broker.log, p), ms);
    assert NotBy(n.broker.log, p) + [] == NotBy(n.broker.log, p);
    assert Apply(n, BrokerReads(q, size)).broker == RelayAll(kept, q, ms);
  }

  /** Every byte written is read or still on the way: in every run, in both directions. */
  lemma {:induction false} BytesAreConserved(clients: set<int>, steps: seq<Step>, n: Network, p: int)
    requires Reaches(clients, steps, n) && p in clients
    ensures p in n.clients && p in n.broker.sockets
    ensures |n.clients[p].uplink| + ReadUp(steps, p) == |Frames(AskedOf(steps, p))|
    ensures |n.broker.sockets[p].sent| + ReadDown(steps, p) == |Frames(NotBy(n.broker.log, p))|
  {
    PublishedAsAsked(clients, steps, n);
    if steps != [] {
      var last := |steps| - 1;
      var before :| Reaches(clients, steps[..last], before) && before.Connected()
                    && Enabled(before, steps[last]) && n == Apply(before, steps[last]);
      BytesAreConserved(clients, steps[..last], before, p);
      PublishedAsAsked(clients, steps[..last], before);
      StepMoves(before, steps[last], p);
      assert n.clients[p].published == AskedOf(steps, p);
      StepDoes(before, steps[last]);
    }
  }

  /** And reading goes on: whatever is on the way can be read, all of it at once. */
  lemma ReadsGoOn(clients: set<int>, steps: seq<Step>, n: Network, p: int)
    requires Reaches(clients, steps, n) && p in clients && !Quiet(n, p)
    ensures exists s: Step :: Enabled(n, s) && (s.BrokerReads? || s.ClientReads?) && s.p == p
  {
    PublishedAsAsked(clients, steps, n);
    if n.clients[p].uplink != [] {
      assert Enabled(n, BrokerReads(p, |n.clients[p].uplink|));
    } else {
      assert Enabled(n, ClientReads(p, |n.broker.sockets[p].sent|));
    }
  }

  /** So reading is enough: once the broker has read all that client p was asked to publish, and p all that the broker
      wrote to it, nothing is on the way. */
  lemma ReadOutIsQuiet(clients: set<int>, steps: seq<Step>, n: Network, p: int)
    requires Reaches(clients, steps, n) && p in clients
    ensures Quiet(n, p) <==>
      (ReadUp(steps, p) == |Frames(AskedOf(steps, p))| && ReadDown(steps, p) == |Frames(NotBy(n.broker.log, p))|)
  {
    BytesAreConserved(clients, steps, n, p);
  }

  function DispatchedPayloads(ds: seq<Dispatch>): (ms: multiset<Payload>)
  {
    if ds == [] then multiset{} else DispatchedPayloads(ds[..|ds| - 1]) + multiset{ds[|ds| - 1].payload}
  }

  function LoggedPayloads(log: seq<Event>): (ms: multiset<Payload>)
  {
    if log == [] then multiset{} else LoggedPayloads(log[..|log| - 1]) + multiset{log[|log| - 1].payload}
  }

  lemma {:induction false} DispatchesSplit(ds: seq<Dispatch>)
    ensures DispatchedPayloads(ds) == multiset(Said(ds)) + multiset(Heard(ds))
  {
    if ds != [] { DispatchesSplit(ds[..|ds| - 1]); }
  }

  lemma {:induction false} LogSplits(log: seq<Event>, p: int)
    ensures LoggedPayloads(log) == multiset(By(log, p)) + multiset(NotBy(log, p))
  {
    if log != [] { LogSplits(log[..|log| - 1], p); }
  }

  /** Once a client's sockets are read out, nothing of it was lost, repeated or reordered: it has heard
      the whole log but its own messages, in the log's order, the log has its messages in the order it
      published them, and each logged message was dispatched exactly once at that client. */
  lemma QuietMeansDelivered(clients: set<int>, steps: seq<Step>, n: Network, p: int)
    requires Reaches(clients, steps, n) && Quiet(n, p)
    ensures By(n.broker.log, p) == n.clients[p].published
    ensures Heard(n.clients[p].dispatched) == NotBy(n.broker.log, p)
    ensures DispatchedPayloads(n.clients[p].dispatched) == LoggedPayloads(n.broker.log)
  {
    RunKeeps(clients, steps, n);
    var c, socket := n.clients[p], n.broker.sockets[p];
    assert ClientOk(n.broker.log, p, socket, c, []);
    assert By(n.broker.log, p) + [] == By(n.broker.log, p);
    assert socket.pending + c.uplink == socket.pending && c.pending + socket.sent == c.pending;
    IncompleteIsNothing(By(n.broker.log, p), socket.pending, c.published);
    IncompleteIsNothing(Heard(c.dispatched), c.pending, NotBy(n.broker.log, p));
    DispatchesSplit(c.dispatched);
    LogSplits(n.broker.log, p);
  }

  lemma IncompleteIsNothing(a: seq<Payload>, rest: seq<byte>, b: seq<Payload>)
    requires Frames(a) + rest == Frames(b) && !HasFrame(rest)
    ensures a == b
  {
    DecodeUnique(a, rest);
    assert Frames(b) + [] == Frames(b);
    DecodeUnique(b, []);
  }
}
