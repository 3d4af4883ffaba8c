/** packages/grpc/src/grpc-stream.ts: the frame decoder in the `data` handler, and `send`. */
module GrpcStream {
  import opened Bytes
  import opened Common

  /** A Length-Prefixed-Message of the gRPC over HTTP/2 protocol: flag byte, 4-byte length, body. */
  type Body = b: seq<byte> | |b| < TWO_TO_THE_32
  datatype Message = Message(flag: byte, body: Body)

  const HEADER: nat := 5

  function Frame(m: Message): (f: seq<byte>)
    ensures |f| == HEADER + |m.body|
  {
    [m.flag] + WriteUInt32BE(|m.body|) + m.body
  }

  function Frames(ms: seq<Message>): (bs: seq<byte>)
  {
    if ms == [] then [] else Frame(ms[0]) + Frames(ms[1..])
  }

  function Bodies(ms: seq<Message>): (bs: seq<Body>)
    ensures |bs| == |ms|
  {
    seq(|ms|, i requires 0 <= i < |ms| => ms[i].body)
  }

  /** The decoder's fields. `chunk` is null (None) between frames; `delivered` is what the message
      handler was given. `failed` records the RangeError `readUInt32BE` throws on a short buffer. */
  datatype Decoder = Decoder(chunk: Option<seq<byte>>, messageLength: nat, delivered: seq<Body>, failed: bool)

  const FRESH := Decoder(None, 0, [], false)

  /** The handler's while loop on a non-null chunk. */
  function Drain(chunk: seq<byte>, len: nat, delivered: seq<Body>): (d: Decoder)
    requires len < TWO_TO_THE_32
    ensures d.messageLength < TWO_TO_THE_32
    ensures !d.failed && delivered <= d.delivered
    decreases |chunk|
  {
    if |chunk| < HEADER + len then Decoder(Some(chunk), len, delivered, false) else
      var rest, delivered' := chunk[HEADER + len..], delivered + [chunk[HEADER..HEADER + len]];
      if |rest| >= HEADER then Drain(rest, ReadUInt32BE(rest[1..]), delivered')
      else if |rest| == 0 then Decoder(None, len, delivered', false)
      else Drain(rest, len, delivered')
  }

  /** One `data` event. After a throw the stream is dead. */
  function OnData(d: Decoder, data: seq<byte>): (d': Decoder)
    requires d.messageLength < TWO_TO_THE_32
    ensures d'.messageLength < TWO_TO_THE_32
    ensures d.delivered <= d'.delivered && (d.failed ==> d' == d)
  {
    if d.failed then d
    else if d.chunk.Some? then Drain(d.chunk.value + data, d.messageLength, d.delivered)
    else if |data| < HEADER then d.(failed := true)
    else Drain(data, ReadUInt32BE(data[1..]), d.delivered)
  }

  class Stream {
    var chunk: Option<seq<byte>>
    var messageLength: nat
    var delivered: seq<Body>
    var failed: bool

    ghost function State(): (r: Decoder)
      reads this
    {
      Decoder(chunk, messageLength, delivered, failed)
    }

    constructor ()
      ensures State() == FRESH
    {
      chunk, messageLength, delivered, failed := None, 0, [], false;
    }

    method OnDataEvent(data: seq<byte>)
      requires messageLength < TWO_TO_THE_32
      modifies this
      ensures messageLength < TWO_TO_THE_32
      ensures State() == OnData(old(State()), data)
    {
      if failed { return; }
      if chunk.None? {
        if |data| < HEADER { failed := true; return; }
        messageLength := ReadUInt32BE(data[1..]);
        chunk := Some(data);
      } else {
        chunk := Some(chunk.value + data);
      }
      ghost var goal := Drain(chunk.value, messageLength, delivered);
      while chunk.Some? && |chunk.value| >= HEADER + messageLength
        invariant !failed && messageLength < TWO_TO_THE_32
        invariant if chunk.Some? then goal == Drain(chunk.value, messageLength, delivered) else State() == goal
        decreases if chunk.Some? then 1 + |chunk.value| else 0
      {
        delivered := delivered + [chunk.value[HEADER..HEADER + messageLength]];
        chunk := Some(chunk.value[HEADER + messageLength..]);
        if |chunk.value| >= HEADER {
          messageLength := ReadUInt32BE(chunk.value[1..]);
        } else if |chunk.value| == 0 {
          chunk := None;
        }
      }
    }
  }

  /** `send` writes an uncompressed frame. */
  function Send(body: Body): (f: seq<byte>)
    ensures f == Frame(Message(0, body))
  {
    var header: seq<byte> := [0] + WriteUInt32BE(|body|);
    header + body
  }

  /** The decoder after a list of `data` events. */
  function Run(chunks: seq<seq<byte>>): (d: Decoder)
    ensures d.messageLength < TWO_TO_THE_32
  {
    if chunks == [] then FRESH else OnData(Run(chunks[..|chunks| - 1]), chunks[|chunks| - 1])
  }

  /** Where frame i starts in the stream, and where chunk boundary k lies. */
  function Start(ms: seq<Message>, i: nat): (n: nat)
    requires i <= |ms|
  {
    |Frames(ms[..i])|
  }

  function Cut(chunks: seq<seq<byte>>, k: nat): (n: nat)
    requires k <= |chunks|
  {
    |Concat(chunks[..k])|
  }

  predicate IsCut(chunks: seq<seq<byte>>, upTo: nat, at: nat)
    requires upTo <= |chunks|
  {
    exists k :: 0 <= k <= upTo && Cut(chunks, k) == at
  }

  predicate InHeader(ms: seq<Message>, i: nat, at: nat)
    requires i < |ms|
  {
    Start(ms, i) < at < Start(ms, i) + HEADER
  }

  /** What a sender has to respect: a chunk boundary inside the header of frame i is harmless only when
      the frame does not itself start at a boundary and is as long as the frame before it. */
  ghost predicate HeadersRespected(ms: seq<Message>, chunks: seq<seq<byte>>, upTo: nat)
    requires upTo <= |chunks|
  {
    forall i, k | 0 <= i < |ms| && 0 <= k <= upTo && InHeader(ms, i, Cut(chunks, k)) :: Harmless(ms, chunks, upTo, i)
  }

  ghost predicate Harmless(ms: seq<Message>, chunks: seq<seq<byte>>, upTo: nat, i: nat)
    requires upTo <= |chunks| && i < |ms|
  {
    !IsCut(chunks, upTo, Start(ms, i)) && i > 0 && |ms[i].body| == |ms[i - 1].body|
  }

  // ---- the geometry of the stream ----

  lemma {:induction false} FramesAppend(a: seq<Message>, b: seq<Message>)
    ensures Frames(a + b) == Frames(a) + Frames(b)
  {
    if a == [] {
      assert a + b == b;
    } else {
      FramesAppend(a[1..], b);
      assert (a + b)[0] == a[0] && (a + b)[1..] == a[1..] + b;
      Assoc(Frame(a[0]), Frames(a[1..]), Frames(b));
    }
  }

  /** Frame i occupies the bytes from its start to the next one's. */
  lemma FrameAt(ms: seq<Message>, i: nat)
    requires i < |ms|
    ensures Start(ms, i + 1) == Start(ms, i) + HEADER + |ms[i].body|
    ensures Start(ms, i + 1) <= |Frames(ms)|
    ensures Frames(ms)[Start(ms, i)..Start(ms, i + 1)] == Frame(ms[i])
  {
    assert ms[..i + 1] == ms[..i] + [ms[i]] && ms == ms[..i + 1] + ms[i + 1..];
    FramesAppend(ms[..i], [ms[i]]);
    FramesAppend(ms[..i + 1], ms[i + 1..]);
    assert Frames([ms[i]]) == Frame(ms[i]) + [];
  }

  lemma {:induction false} StartsGrow(ms: seq<Message>, i: nat, j: nat)
    requires i <= j <= |ms|
    ensures Start(ms, i) + HEADER * (j - i) <= Start(ms, j) <= |Frames(ms)|
    ensures Start(ms, |ms|) == |Frames(ms)|
    decreases j - i
  {
    assert ms[..|ms|] == ms;
    FramesAppend(ms[..j], ms[j..]);
    assert ms == ms[..j] + ms[j..];
    if i < j {
      FrameAt(ms, j - 1);
      StartsGrow(ms, i, j - 1);
    }
  }

  lemma SameByte<T>(all: seq<T>, s: nat, k: nat, at: nat, end: nat)
    requires 1 <= k && s + k < at <= |all| && s + k < end <= |all|
    ensures all[s..at][1..][k - 1] == all[s..end][k]
  {
  }

  lemma SameLength(a: seq<byte>, b: seq<byte>)
    requires |a| >= 4 && |b| >= 4 && a[0] == b[0] && a[1] == b[1] && a[2] == b[2] && a[3] == b[3]
    ensures ReadUInt32BE(a) == ReadUInt32BE(b)
  {
  }

  lemma FrameReads(m: Message)
    ensures ReadUInt32BE(Frame(m)[1..]) == |m.body|
  {
    assert Frame(m)[1..] == WriteUInt32BE(|m.body|) + m.body;
    ReadWrite(|m.body|, m.body);
  }

  /** A buffer that starts where frame i does and holds its header reads that frame's length. */
  lemma HeaderReads(ms: seq<Message>, i: nat, at: nat)
    requires i < |ms| && Start(ms, i) + HEADER <= at <= |Frames(ms)|
    ensures ReadUInt32BE(Frames(ms)[Start(ms, i)..at][1..]) == |ms[i].body|
  {
    FrameAt(ms, i);
    var s, all, end := Start(ms, i), Frames(ms), Start(ms, i + 1);
    var f := Frame(ms[i]);
    FrameReads(ms[i]);
    SameByte(all, s, 1, at, end);
    SameByte(all, s, 2, at, end);
    SameByte(all, s, 3, at, end);
    SameByte(all, s, 4, at, end);
    SameLength(all[s..at][1..], f[1..]);
  }

  lemma Slices<T>(all: seq<T>, s: nat, h: nat, end: nat, at: nat)
    requires s + h <= end <= at <= |all|
    ensures all[s..at][h..end - s] == all[s..end][h..]
    ensures all[s..at][end - s..] == all[end..at]
  {
    var a, b := all[s..at][h..end - s], all[s..end][h..];
    assert |a| == |b|;
    forall k | 0 <= k < |a| ensures a[k] == b[k] {
      assert a[k] == all[s + h + k];
    }
  }

  lemma BodyAt(ms: seq<Message>, i: nat, at: nat)
    requires i < |ms| && Start(ms, i + 1) <= at <= |Frames(ms)|
    ensures Start(ms, i + 1) == Start(ms, i) + HEADER + |ms[i].body|
    ensures var b := Frames(ms)[Start(ms, i)..at];
            b[HEADER..HEADER + |ms[i].body|] == ms[i].body
            && b[HEADER + |ms[i].body|..] == Frames(ms)[Start(ms, i + 1)..at]
  {
    FrameAt(ms, i);
    Slices(Frames(ms), Start(ms, i), HEADER, Start(ms, i + 1), at);
    assert Frame(ms[i])[HEADER..] == ms[i].body;
  }

  lemma BodiesSnoc(ms: seq<Message>, i: nat)
    requires i < |ms|
    ensures Bodies(ms[..i + 1]) == Bodies(ms[..i]) + [ms[i].body]
  {
  }

  // ---- the decoder in step with the stream ----

  /** The decoder has delivered the first i bodies and holds the bytes of frame i received so far. */
  ghost predicate At(ms: seq<Message>, d: Decoder, i: nat, at: nat) {
    && i <= |ms| && Start(ms, i) <= at <= |Frames(ms)| && (i < |ms| ==> at < Start(ms, i + 1))
    && !d.failed && d.delivered == Bodies(ms[..i])
    && d.chunk == if at == Start(ms, i) then None else Some(Frames(ms)[Start(ms, i)..at])
  }

  ghost predicate Synced(ms: seq<Message>, d: Decoder, i: nat, at: nat) {
    At(ms, d, i, at) && (d.chunk.Some? ==> i < |ms| && d.messageLength == |ms[i].body|)
  }

  lemma AtIsUnique(ms: seq<Message>, d: Decoder, i: nat, at: nat, k: nat)
    requires At(ms, d, i, at) && k < |ms| && Start(ms, k) <= at < Start(ms, k + 1)
    ensures i == k
  {
    if i < k { StartsGrow(ms, i + 1, k); }
    if k < i { StartsGrow(ms, k + 1, i); }
  }

  /** The length the loop is left with when it stops `at` in frame j, having started in frame i. */
  function KeptLength(ms: seq<Message>, i: nat, j: nat, at: nat): (n: nat)
    requires i <= j < |ms|
  {
    if i == j || at >= Start(ms, j) + HEADER then |ms[j].body| else |ms[j - 1].body|
  }

  /** The loop, entered with the right length: it ends in step, except that the length it kept is that
      of the frame before when it stopped inside a header. */
  lemma {:induction false} DrainFrom(ms: seq<Message>, i: nat, at: nat) returns (j: nat)
    requires i < |ms| && Start(ms, i) < at <= |Frames(ms)|
    ensures i <= j
    ensures var d := Drain(Frames(ms)[Start(ms, i)..at], |ms[i].body|, Bodies(ms[..i]));
            At(ms, d, j, at) && (d.chunk.Some? ==> j < |ms| && d.messageLength == KeptLength(ms, i, j, at))
    decreases |ms| - i
  {
    FrameAt(ms, i);
    StartsGrow(ms, i, |ms|);
    if at < Start(ms, i + 1) {
      j := i;
    } else if at >= Start(ms, i + 1) + HEADER {
      StartsGrow(ms, i + 1, |ms|);
      DrainMessage(ms, i, at);
      j := DrainFrom(ms, i + 1, at);
    } else {
      DrainIntoHeader(ms, i, at);
      j := i + 1;
    }
  }

  /** One turn of the loop when the next header is there: it goes on with the next frame's length. */
  lemma DrainMessage(ms: seq<Message>, i: nat, at: nat)
    requires i + 1 < |ms| && Start(ms, i + 1) + HEADER <= at <= |Frames(ms)|
    ensures Start(ms, i) < at
    ensures Drain(Frames(ms)[Start(ms, i)..at], |ms[i].body|, Bodies(ms[..i]))
         == Drain(Frames(ms)[Start(ms, i + 1)..at], |ms[i + 1].body|, Bodies(ms[..i + 1]))
  {
    FrameAt(ms, i);
    BodyAt(ms, i, at);
    BodiesSnoc(ms, i);
    HeaderReads(ms, i + 1, at);
  }

  /** One turn of the loop when it is not: the loop stops with the length it had. */
  lemma DrainIntoHeader(ms: seq<Message>, i: nat, at: nat)
    requires i < |ms| && Start(ms, i + 1) <= at < Start(ms, i + 1) + HEADER && at <= |Frames(ms)|
    ensures Start(ms, i) < at
    ensures var rest := Frames(ms)[Start(ms, i + 1)..at];
            Drain(Frames(ms)[Start(ms, i)..at], |ms[i].body|, Bodies(ms[..i]))
            == Decoder(if rest == [] then None else Some(rest), |ms[i].body|, Bodies(ms[..i + 1]), false)
    ensures i + 1 < |ms| ==> at < Start(ms, i + 2)
    ensures i + 1 == |ms| ==> at == Start(ms, i + 1)
  {
    BodyAt(ms, i, at);
    BodiesSnoc(ms, i);
    ShortRest(Frames(ms)[Start(ms, i)..at], |ms[i].body|, Bodies(ms[..i]));
    StartsGrow(ms, i + 1, |ms|);
    if i + 1 < |ms| { FrameAt(ms, i + 1); }
  }

  /** What the loop does with one whole message and less than a header behind it. */
  lemma ShortRest(chunk: seq<byte>, len: nat, delivered: seq<Body>)
    requires len < TWO_TO_THE_32 && HEADER + len <= |chunk| < HEADER + len + HEADER
    ensures Drain(chunk, len, delivered) == Decoder(
              if chunk[HEADER + len..] == [] then None else Some(chunk[HEADER + len..]), len,
              delivered + [chunk[HEADER..HEADER + len]], false)
  {
  }

  /** One event from a decoder in step. */
  lemma EventFrom(ms: seq<Message>, d: Decoder, i: nat, at: nat, at': nat) returns (j: nat)
    requires Synced(ms, d, i, at) && at < at' <= |Frames(ms)| && d.messageLength < TWO_TO_THE_32
    requires at == Start(ms, i) ==> at' >= at + HEADER
    ensures i <= j
    ensures var d' := OnData(d, Frames(ms)[at..at']);
            At(ms, d', j, at') && (d'.chunk.Some? ==> j < |ms| && d'.messageLength == KeptLength(ms, i, j, at'))
  {
    StartsGrow(ms, i, |ms|);
    var s, all := Start(ms, i), Frames(ms);
    if at == s {
      HeaderReads(ms, i, at');
    } else {
      assert all[s..at] + all[at..at'] == all[s..at'];
    }
    j := DrainFrom(ms, i, at');
  }

  lemma {:induction false} ConcatAppend(a: seq<seq<byte>>, b: seq<seq<byte>>)
    ensures Concat(a + b) == Concat(a) + Concat(b)
    decreases |b|
  {
    if b == [] {
      assert a + b == a;
    } else {
      var last := |b| - 1;
      ConcatAppend(a, b[..last]);
      assert (a + b)[..|a + b| - 1] == a + b[..last];
      Assoc(Concat(a), Concat(b[..last]), b[last]);
    }
  }

  lemma CutStep(chunks: seq<seq<byte>>, k: nat)
    requires 0 < k <= |chunks|
    ensures Cut(chunks, k) == Cut(chunks, k - 1) + |chunks[k - 1]| <= |Concat(chunks)|
    ensures Concat(chunks)[Cut(chunks, k - 1)..Cut(chunks, k)] == chunks[k - 1]
    ensures Run(chunks[..k]) == OnData(Run(chunks[..k - 1]), chunks[k - 1])
  {
    assert chunks[..k][..k - 1] == chunks[..k - 1];
    assert chunks == chunks[..k] + chunks[k..];
    ConcatAppend(chunks[..k], chunks[k..]);
  }

  ghost predicate NonEmpty(chunks: seq<seq<byte>>) {
    forall k | 0 <= k < |chunks| :: chunks[k] != []
  }

  lemma {:induction false} CutsGrow(chunks: seq<seq<byte>>, j: nat, k: nat)
    requires NonEmpty(chunks) && j < k <= |chunks|
    ensures Cut(chunks, j) < Cut(chunks, k)
    decreases k - j
  {
    CutStep(chunks, k);
    if j < k - 1 { CutsGrow(chunks, j, k - 1); }
  }

  /** A respected split that stops at the start of a frame takes the whole header next ... */
  lemma WholeHeaderNext(ms: seq<Message>, chunks: seq<seq<byte>>, k: nat, i: nat)
    requires 0 < k <= |chunks| && i < |ms| && HeadersRespected(ms, chunks, k)
    requires Cut(chunks, k - 1) == Start(ms, i) < Cut(chunks, k)
    ensures Cut(chunks, k) >= Start(ms, i) + HEADER
  {
    assert IsCut(chunks, k, Start(ms, i));
    assert !Harmless(ms, chunks, k, i);
  }

  /** ... and where it stops inside one, the length kept is the right one. */
  lemma KeptLengthIsRight(ms: seq<Message>, chunks: seq<seq<byte>>, k: nat, i: nat, j: nat)
    requires k <= |chunks| && i <= j < |ms| && HeadersRespected(ms, chunks, k)
    requires Start(ms, j) < Cut(chunks, k)
    ensures KeptLength(ms, i, j, Cut(chunks, k)) == |ms[j].body|
  {
    if Cut(chunks, k) < Start(ms, j) + HEADER {
      assert InHeader(ms, j, Cut(chunks, k));
      assert Harmless(ms, chunks, k, j);
    }
  }

  /** A split that respects the headers keeps the decoder in step. */
  lemma {:induction false} StaysSynced(ms: seq<Message>, chunks: seq<seq<byte>>, k: nat) returns (i: nat)
    requires NonEmpty(chunks) && Concat(chunks) == Frames(ms) && k <= |chunks|
    requires HeadersRespected(ms, chunks, k)
    ensures Synced(ms, Run(chunks[..k]), i, Cut(chunks, k))
    decreases k
  {
    if k == 0 {
      i := 0;
      if ms != [] { FrameAt(ms, 0); }
    } else {
      RespectedEarlier(ms, chunks, k);
      var before := StaysSynced(ms, chunks, k - 1);
      CutStep(chunks, k);
      StartsGrow(ms, before, |ms|);
      var at, at' := Cut(chunks, k - 1), Cut(chunks, k);
      if at == Start(ms, before) { WholeHeaderNext(ms, chunks, k, before); }
      i := EventFrom(ms, Run(chunks[..k - 1]), before, at, at');
      if i < |ms| && Start(ms, i) < at' { KeptLengthIsRight(ms, chunks, k, before, i); }
    }
  }

  lemma RespectedEarlier(ms: seq<Message>, chunks: seq<seq<byte>>, k: nat)
    requires NonEmpty(chunks) && 0 < k <= |chunks| && HeadersRespected(ms, chunks, k)
    ensures HeadersRespected(ms, chunks, k - 1)
  {
    forall i, c | 0 <= i < |ms| && 0 <= c <= k - 1 && InHeader(ms, i, Cut(chunks, c))
      ensures Harmless(ms, chunks, k - 1, i)
    {
      assert Harmless(ms, chunks, k, i);
    }
  }

  // ---- the decoder out of step ----

  /** The handler has been, or is bound to be, given something else than body i. */
  ghost predicate Doomed(ms: seq<Message>, d: Decoder, i: nat) {
    i < |ms| &&
    if |d.delivered| > i then |d.delivered[i]| != |ms[i].body|
    else |d.delivered| == i && (d.failed || (d.chunk.Some? && |d.chunk.value| < HEADER + d.messageLength
                                             && d.messageLength != |ms[i].body|))
  }

  lemma StaysDoomed(ms: seq<Message>, d: Decoder, i: nat, data: seq<byte>)
    requires d.messageLength < TWO_TO_THE_32 && Doomed(ms, d, i)
    ensures Doomed(ms, OnData(d, data), i)
  {
    if |d.delivered| == i && !d.failed {
      var buffer, len := d.chunk.value + data, d.messageLength;
      if |buffer| >= HEADER + len {
        var rest, delivered := buffer[HEADER + len..], d.delivered + [buffer[HEADER..HEADER + len]];
        assert |delivered[i]| == len;
        assert delivered <= OnData(d, data).delivered;
      }
    }
  }

  lemma {:induction false} GetsDoomed(ms: seq<Message>, chunks: seq<seq<byte>>, k: nat) returns (i: nat)
    requires NonEmpty(chunks) && Concat(chunks) == Frames(ms) && k <= |chunks|
    requires !HeadersRespected(ms, chunks, k)
    ensures Doomed(ms, Run(chunks[..k]), i)
    decreases k
  {
    if k == 0 {
      assert false;
    } else {
      CutStep(chunks, k);
      if !HeadersRespected(ms, chunks, k - 1) {
        i := GetsDoomed(ms, chunks, k - 1);
        StaysDoomed(ms, Run(chunks[..k - 1]), i, chunks[k - 1]);
      } else {
        i := FirstBadCut(ms, chunks, k);
        DoomedAt(ms, chunks, k, i);
      }
    }
  }

  /** The first boundary that breaks the rule does so itself, not an earlier one. */
  lemma FirstBadCut(ms: seq<Message>, chunks: seq<seq<byte>>, k: nat) returns (i: nat)
    requires NonEmpty(chunks) && 0 < k <= |chunks|
    requires HeadersRespected(ms, chunks, k - 1) && !HeadersRespected(ms, chunks, k)
    ensures i < |ms| && InHeader(ms, i, Cut(chunks, k)) && !Harmless(ms, chunks, k, i)
  {
    var b, c :| 0 <= b < |ms| && 0 <= c <= k && InHeader(ms, b, Cut(chunks, c)) && !Harmless(ms, chunks, k, b);
    i := b;
    if c < k {
      assert Harmless(ms, chunks, k - 1, i);
      assert IsCut(chunks, k, Start(ms, i));
      var e :| 0 <= e <= k && Cut(chunks, e) == Start(ms, i);
      assert e == k;
      CutsGrow(chunks, c, k);
      assert false;
    }
  }

  lemma DoomedAt(ms: seq<Message>, chunks: seq<seq<byte>>, k: nat, i: nat)
    requires NonEmpty(chunks) && Concat(chunks) == Frames(ms) && 0 < k <= |chunks|
    requires HeadersRespected(ms, chunks, k - 1)
    requires i < |ms| && InHeader(ms, i, Cut(chunks, k)) && !Harmless(ms, chunks, k, i)
    ensures Doomed(ms, Run(chunks[..k]), i)
  {
    var before := StaysSynced(ms, chunks, k - 1);
    CutStep(chunks, k);
    FrameAt(ms, i);
    PreviousCut(ms, chunks, k, i);
    var d, at, at' := Run(chunks[..k - 1]), Cut(chunks, k - 1), Cut(chunks, k);
    if at == Start(ms, i) {
      AtIsUnique(ms, d, before, at, i);
    } else {
      DoomedByStaleLength(ms, d, before, at, at', i);
    }
  }

  lemma NotTheLastCut(chunks: seq<seq<byte>>, k: nat, at: nat)
    requires 0 < k <= |chunks| && Cut(chunks, k) != at
    ensures IsCut(chunks, k, at) <==> IsCut(chunks, k - 1, at)
  {
    if e: nat :| e <= k && Cut(chunks, e) == at {
      assert e <= k - 1;
    }
  }

  lemma NoCutBetween(chunks: seq<seq<byte>>, k: nat, at: nat)
    requires NonEmpty(chunks) && 0 < k <= |chunks| && Cut(chunks, k - 1) < at < Cut(chunks, k)
    ensures !IsCut(chunks, k, at)
  {
    forall e | 0 <= e <= k ensures Cut(chunks, e) != at {
      if e < k - 1 { CutsGrow(chunks, e, k - 1); }
    }
  }

  lemma OutsideHeader(ms: seq<Message>, chunks: seq<seq<byte>>, upTo: nat, i: nat, k: nat)
    requires k <= upTo <= |chunks| && i < |ms| && HeadersRespected(ms, chunks, upTo)
    ensures Harmless(ms, chunks, upTo, i) || !InHeader(ms, i, Cut(chunks, k))
  {
  }

  /** Before the first bad boundary, which is in header i, the stream stops at frame i's start, or earlier
      and then frame i has another length than the frame before it. */
  lemma PreviousCut(ms: seq<Message>, chunks: seq<seq<byte>>, k: nat, i: nat)
    requires NonEmpty(chunks) && 0 < k <= |chunks| && HeadersRespected(ms, chunks, k - 1)
    requires i < |ms| && InHeader(ms, i, Cut(chunks, k)) && !Harmless(ms, chunks, k, i)
    ensures Cut(chunks, k - 1) <= Start(ms, i)
    ensures Cut(chunks, k - 1) < Start(ms, i) ==> i > 0 && |ms[i].body| != |ms[i - 1].body|
  {
    CutsGrow(chunks, k - 1, k);
    NotTheLastCut(chunks, k, Start(ms, i));
    OutsideHeader(ms, chunks, k - 1, i, k - 1);
    if Cut(chunks, k - 1) < Start(ms, i) {
      NoCutBetween(chunks, k, Start(ms, i));
    }
  }

  lemma DoomedByStaleLength(ms: seq<Message>, d: Decoder, before: nat, at: nat, at': nat, i: nat)
    requires Synced(ms, d, before, at) && d.messageLength < TWO_TO_THE_32
    requires 0 < i < |ms| && at < Start(ms, i) && InHeader(ms, i, at') && at' <= |Frames(ms)|
    requires |ms[i].body| != |ms[i - 1].body|
    ensures Doomed(ms, OnData(d, Frames(ms)[at..at']), i)
  {
    FrameAt(ms, i);
    StartsGrow(ms, before, |ms|);
    if i <= before { StartsGrow(ms, i, before); }
    StartsGrow(ms, before + 1, i);
    FrameAt(ms, before);
    var j := EventFrom(ms, d, before, at, at');
    AtIsUnique(ms, OnData(d, Frames(ms)[at..at']), j, at', i);
  }

  /** Exactly when the decoder is right: for all messages and every split of their frames into
      non-empty chunks, the handler is given the sent bodies in order if and only if every chunk
      boundary inside a header is harmless. */
  lemma DeliversExactlyWhenHeadersRespected(ms: seq<Message>, chunks: seq<seq<byte>>)
    requires NonEmpty(chunks) && Concat(chunks) == Frames(ms)
    ensures Run(chunks).delivered == Bodies(ms) <==> HeadersRespected(ms, chunks, |chunks|)
    ensures HeadersRespected(ms, chunks, |chunks|) ==> Run(chunks).chunk == None && !Run(chunks).failed
  {
    assert chunks[..|chunks|] == chunks;
    if HeadersRespected(ms, chunks, |chunks|) {
      var i := StaysSynced(ms, chunks, |chunks|);
      SyncedAtTheEnd(ms, Run(chunks), i);
    } else {
      var i := GetsDoomed(ms, chunks, |chunks|);
      DoomedIsWrong(ms, Run(chunks), i);
    }
  }

  lemma SyncedAtTheEnd(ms: seq<Message>, d: Decoder, i: nat)
    requires At(ms, d, i, |Frames(ms)|)
    ensures d.delivered == Bodies(ms) && d.chunk == None && !d.failed
  {
    if i < |ms| { StartsGrow(ms, i + 1, |ms|); }
    assert ms[..|ms|] == ms;
  }

  lemma DoomedIsWrong(ms: seq<Message>, d: Decoder, i: nat)
    requires Doomed(ms, d, i)
    ensures d.delivered != Bodies(ms)
  {
    assert Bodies(ms)[i] == ms[i].body;
  }

  /** In particular no boundary inside any header is enough, whatever `send` was given. */
  lemma NoCutInAHeaderIsEnough(bodies: seq<Body>, chunks: seq<seq<byte>>)
    requires NonEmpty(chunks)
    requires Concat(chunks) == Frames(Uncompressed(bodies))
    requires forall i, k | 0 <= i < |bodies| && 0 <= k <= |chunks| :: !InHeader(Uncompressed(bodies), i, Cut(chunks, k))
    ensures Run(chunks).delivered == bodies
  {
    var ms := Uncompressed(bodies);
    DeliversExactlyWhenHeadersRespected(ms, chunks);
    assert Bodies(ms) == bodies;
  }

  function Uncompressed(bodies: seq<Body>): (ms: seq<Message>)
    ensures |ms| == |bodies|
  {
    seq(|bodies|, i requires 0 <= i < |bodies| => Message(0, bodies[i]))
  }

  /** A stale length at work: the frames of an empty and a 1-byte message, cut one byte into the second
      header, are delivered as two empty bodies. */
  lemma StaleLengthLosesMessages(a: seq<byte>, b: seq<byte>)
    requires a == [0, 0, 0, 0, 0, 0] && b == [0, 0, 0, 1, 7]
    ensures Concat([a, b]) == Frames([Message(0, []), Message(0, [7])])
    ensures Run([a, b]).delivered == [[], []]
  {
    TwoFrames(Message(0, []), Message(0, [7]));
    TwoChunks(a, b);
    assert ReadUInt32BE(a[1..]) == 0;
    assert a[5..] == [0] && a[5..5] == [];
    var one: seq<Body> := [[]];
    assert [] + [a[5..5]] == one;
    assert Drain(a, 0, []) == Drain([0], 0, one) == Decoder(Some([0]), 0, one, false);
    var joined := [0] + b;
    assert joined[5..5] == [] && joined[5..] == [7];
    assert Drain(joined, 0, one) == Drain([7], 0, one + [[]]);
  }

  lemma TwoFrames(m0: Message, m1: Message)
    ensures Frames([m0, m1]) == Frame(m0) + Frame(m1)
  {
    FramesAppend([m0], [m1]);
    assert [m0] + [m1] == [m0, m1] && Frames([m0]) == Frame(m0) + [] && Frames([m1]) == Frame(m1) + [];
  }

  lemma TwoChunks(a: seq<byte>, b: seq<byte>)
    ensures Concat([a, b]) == a + b && Run([a, b]) == OnData(OnData(FRESH, a), b)
  {
    var chunks := [a, b];
    CutStep(chunks, 1);
    CutStep(chunks, 2);
    assert chunks[..2] == chunks && chunks[..1] == [a] && chunks[..0] == [];
    assert Concat(chunks) == Concat([a]) + b && Concat([a]) == [] + a;
  }
}
