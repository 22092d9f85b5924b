/**
 `xs_proto`: the receive and transmit state machines that cut the incoming byte stream into messages and
 put the outgoing ones on the wire, resuming wherever the connection stopped them.
 */
module Framing {

  import opened Bytes
  import opened Wires
  import Ring
  import Paths
  import Watches

  // ---------------------------------------------------------------- streams of messages

  function LenOf(hdr: seq<byte>): uint32
    requires |hdr| == HEADER_SIZE
  {
    HeaderOf(hdr).len
  }

  /** The messages a byte stream starts with, and the incomplete rest. */
  function Split(s: seq<byte>): (r: (seq<Frame>, seq<byte>)) {
    if |s| < HEADER_SIZE || |s| < HEADER_SIZE + LenOf(s[..HEADER_SIZE]) then ([], s)
    else
      var end := HEADER_SIZE + LenOf(s[..HEADER_SIZE]);
      var (frames, rest) := Split(s[end..]);
      ([Frame(s[..HEADER_SIZE], s[HEADER_SIZE..end])] + frames, rest)
  }

  predicate WellFramed(f: Frame) {
    |f.hdr| == HEADER_SIZE && |f.body| == LenOf(f.hdr)
  }

  predicate Incomplete(s: seq<byte>) {
    |s| < HEADER_SIZE || |s| < HEADER_SIZE + LenOf(s[..HEADER_SIZE])
  }

  function Join(frames: seq<Frame>): seq<byte> {
    if frames == [] then [] else frames[0].hdr + frames[0].body + Join(frames[1..])
  }

  /** No header announces more than a payload may hold.  (`process_rx` does not check this.) */
  predicate LengthsOk(s: seq<byte>)
    decreases |s|
  {
    |s| >= HEADER_SIZE ==>
      var end := HEADER_SIZE + LenOf(s[..HEADER_SIZE]);
      end <= HEADER_SIZE + PAYLOAD_MAX && (|s| >= end ==> LengthsOk(s[end..]))
  }

  /** Cutting a stream into messages loses nothing. */
  lemma {:induction false} JoinSplit(s: seq<byte>)
    ensures Join(Split(s).0) + Split(s).1 == s && Incomplete(Split(s).1)
    ensures forall f <- Split(s).0 :: WellFramed(f)
    decreases |s|
  {
    hide Join, HeaderOf;
    if Incomplete(s) {
      EmptyJoin([], s);
    } else {
      var end := HEADER_SIZE + LenOf(s[..HEADER_SIZE]);
      JoinSplit(s[end..]);
      JoinFirst(Split(s).0, Split(s).1);
      assert Split(s).0[1..] == Split(s[end..]).0;
      assert s == s[..HEADER_SIZE] + s[HEADER_SIZE..end] + s[end..];
    }
  }

  lemma Cut(s: seq<byte>, h: seq<byte>, b: seq<byte>, rest: seq<byte>)
    requires s == h + b + rest
    ensures s[..|h|] == h && s[|h|..|h| + |b|] == b && s[|h| + |b|..] == rest
  {
  }

  lemma JoinFirst(frames: seq<Frame>, rest: seq<byte>)
    requires frames != []
    ensures Join(frames) + rest == frames[0].hdr + frames[0].body + (Join(frames[1..]) + rest)
  {
  }

  /** There is only one way to cut it: wherever the transfers stopped, the same messages come out. */
  lemma {:induction false} SplitJoin(frames: seq<Frame>, rest: seq<byte>)
    requires (forall f <- frames :: WellFramed(f)) && Incomplete(rest)
    ensures Split(Join(frames) + rest) == (frames, rest)
  {
    hide Join, HeaderOf;
    if frames == [] {
      assert Join(frames) + rest == rest by { EmptyJoin(frames, rest); }
    } else {
      var f, s := frames[0], Join(frames) + rest;
      assert f in frames && WellFramed(f);
      JoinFirst(frames, rest);
      Cut(s, f.hdr, f.body, Join(frames[1..]) + rest);
      SplitJoin(frames[1..], rest);
      assert frames == [f] + frames[1..];
    }
  }

  lemma EmptyJoin(frames: seq<Frame>, rest: seq<byte>)
    requires frames == []
    ensures Join(frames) + rest == rest
  {
  }

  lemma {:induction false} JoinAppend(a: seq<Frame>, b: seq<Frame>)
    ensures Join(a + b) == Join(a) + Join(b)
  {
    if a == [] {
      assert a + b == b;
    } else {
      JoinAppend(a[1..], b);
      assert (a + b)[1..] == a[1..] + b;
      Associate(a[0].hdr + a[0].body, Join(a[1..]), Join(b));
    }
  }

  lemma Associate(x: seq<byte>, y: seq<byte>, z: seq<byte>)
    ensures x + (y + z) == (x + y) + z
  {
  }

  lemma JoinOne(a: seq<Frame>, f: Frame)
    ensures Join(a + [f]) == Join(a) + f.hdr + f.body
  {
    JoinAppend(a, [f]);
    assert Join([f]) == f.hdr + f.body + Join([]);
  }

  lemma {:induction false} NextLengthOk(frames: seq<Frame>, hdr: seq<byte>, rest: seq<byte>)
    requires (forall f <- frames :: WellFramed(f)) && |hdr| == HEADER_SIZE
    requires LengthsOk(Join(frames) + (hdr + rest))
    ensures LenOf(hdr) <= PAYLOAD_MAX
  {
    hide Join, HeaderOf;
    if frames == [] {
      EmptyJoin(frames, hdr + rest);
      assert (hdr + rest)[..HEADER_SIZE] == hdr;
    } else {
      var f := frames[0];
      assert f in frames && WellFramed(f);
      JoinFirst(frames, hdr + rest);
      Cut(Join(frames) + (hdr + rest), f.hdr, f.body, Join(frames[1..]) + (hdr + rest));
      NextLengthOk(frames[1..], hdr, rest);
    }
  }

  /** What the messages look like on the wire. */
  function Frames(ms: seq<Message>): (fs: seq<Frame>)
    ensures |fs| == |ms|
  {
    seq(|ms|, i requires 0 <= i < |ms| => Outgoing(ms[i]))
  }

  lemma OutgoingIsFramed(m: Message)
    ensures WellFramed(Outgoing(m)) && LenOf(Outgoing(m).hdr) <= PAYLOAD_MAX
  {
    var h := HeaderOf(Outgoing(m).hdr);
    var n := |Outgoing(m).body|;
    if |Packed(m.body, m.terminator)| <= PAYLOAD_MAX {
      HeaderRoundTrip(Header(m.kind, m.reqId, m.txId, n));
    } else {
      HeaderRoundTrip(Header(XS_ERROR, m.reqId, m.txId, n));
    }
  }

  lemma FramesOneMore(ms: seq<Message>, m: Message)
    ensures Join(Frames(ms + [m])) == Join(Frames(ms)) + (Outgoing(m).hdr + Outgoing(m).body)
  {
    assert Frames(ms + [m]) == Frames(ms) + [Outgoing(m)];
    JoinOne(Frames(ms), Outgoing(m));
  }

  /** What a message becomes: its own ids always; its kind and body if the body fits, else an error. */
  ghost predicate Carries(f: Frame, m: Message) {
    && |f.hdr| == 16 && HeaderOf(f.hdr).reqId == m.reqId && HeaderOf(f.hdr).txId == m.txId
    && HeaderOf(f.hdr).len == |f.body| <= 4096
    && (|Packed(m.body, m.terminator)| <= 4096 ==> HeaderOf(f.hdr).kind == m.kind && f.body == Packed(m.body, m.terminator))
    && (|Packed(m.body, m.terminator)| > 4096 ==> HeaderOf(f.hdr).kind == 16 && f.body == ['E', '2', 'B', 'I', 'G'])
  }

  lemma OutgoingCarries(m: Message)
    ensures Carries(Outgoing(m), m)
  {
    hide HeaderOf, HeaderBytes, Packed;
    var body := Packed(m.body, m.terminator);
    if |body| <= PAYLOAD_MAX {
      HeaderRoundTrip(Header(m.kind, m.reqId, m.txId, |body|));
    } else {
      HeaderRoundTrip(Header(XS_ERROR, m.reqId, m.txId, |TOO_BIG|));
    }
  }

  /** The i-th message received is the i-th sent, field by field; a single string without terminator
      arrives as just that string. */
  lemma MessagesAreReceived(ms: seq<Message>)
    ensures var (frames, rest) := Split(Join(Frames(ms)));
      && |frames| == |ms| && rest == [] && (forall i | 0 <= i < |ms| :: Carries(frames[i], ms[i]))
      && forall i | 0 <= i < |ms| && |ms[i].body| == 1 && !ms[i].terminator && |ms[i].body[0]| <= 4096 ::
           frames[i].body == ms[i].body[0]
  {
    SentIsReceived(ms);
    forall i | 0 <= i < |ms| ensures Carries(Frames(ms)[i], ms[i])
        && (|ms[i].body| == 1 && !ms[i].terminator && |ms[i].body[0]| <= 4096 ==> Frames(ms)[i].body == ms[i].body[0]) {
      OutgoingCarries(ms[i]);
      PackedLayout(ms[i].body);
    }
  }

  /** A receiver cuts what was sent into exactly the messages that were sent. */
  lemma SentIsReceived(ms: seq<Message>)
    ensures Split(Join(Frames(ms))) == (Frames(ms), [])
  {
    FramesAreFramed(ms);
    SplitJoin(Frames(ms), []);
    assert Join(Frames(ms)) + [] == Join(Frames(ms));
  }

  lemma FramesAreFramed(ms: seq<Message>)
    ensures forall f <- Frames(ms) :: WellFramed(f)
  {
    forall f <- Frames(ms) ensures WellFramed(f) {
      var i :| 0 <= i < |ms| && Frames(ms)[i] == f;
      OutgoingIsFramed(ms[i]);
    }
  }

  /** A receiver that has only part of what was sent has cut off a prefix of the messages, each whole. */
  lemma {:induction false} PartIsReceived(frames: seq<Frame>, part: seq<byte>)
    requires (forall f <- frames :: WellFramed(f)) && part <= Join(frames)
    ensures Split(part).0 <= frames
  {
    hide HeaderOf;
    if !Incomplete(part) {
      var f, s := frames[0], Join(frames);
      assert f in frames && WellFramed(f);
      Cut(s, f.hdr, f.body, Join(frames[1..]));
      assert part[..HEADER_SIZE] == s[..HEADER_SIZE] == f.hdr;
      var end := HEADER_SIZE + LenOf(f.hdr);
      assert part[HEADER_SIZE..end] == s[HEADER_SIZE..end] == f.body;
      assert part[end..] <= s[end..];
      PartIsReceived(frames[1..], part[end..]);
      assert Split(part).0 == [f] + Split(part[end..]).0;
    }
  }

  predicate Queueing(queued: seq<Message>, emitted: seq<Message>, queue: seq<Message>) {
    queued == emitted + queue
  }

  lemma NextQueued(queued: seq<Message>, emitted: seq<Message>, queue: seq<Message>)
    requires Queueing(queued, emitted, queue) && queue != []
    ensures Queueing(queued, emitted + [queue[0]], queue[1..])
  {
  }

  lemma MoreQueued(queued: seq<Message>, emitted: seq<Message>, queue: seq<Message>, m: Message)
    requires Queueing(queued, emitted, queue)
    ensures Queueing(queued + [m], emitted, queue + [m])
  {
  }

  /** What was sent and what is still to be sent are the encodings of what was taken from the queue. */
  predicate Flow(sent: seq<byte>, unsent: seq<byte>, emitted: seq<Message>) {
    sent + unsent == Join(Frames(emitted))
  }

  lemma AllAccountedFor(sent: seq<byte>, unsent: seq<byte>, queued: seq<Message>, emitted: seq<Message>, queue: seq<Message>)
    requires Flow(sent, unsent, emitted) && Queueing(queued, emitted, queue)
    ensures sent <= Join(Frames(queued))
    ensures queue == [] && unsent == [] ==> sent == Join(Frames(queued))
    ensures unsent != [] ==> sent != Join(Frames(queued))
  {
    hide Join;
    assert Frames(queued) == Frames(emitted) + Frames(queue);
    JoinAppend(Frames(emitted), Frames(queue));
    Associate(sent, unsent, Join(Frames(queue)));
    if queue == [] { EmptyJoin(Frames(queue), []); }
  }

  lemma FlowStarts(sent: seq<byte>, emitted: seq<Message>, m: Message)
    requires Flow(sent, [], emitted)
    ensures Flow(sent, Outgoing(m).hdr + Outgoing(m).body, emitted + [m])
  {
    FramesOneMore(emitted, m);
    assert sent + [] == sent;
  }

  lemma FlowMoves(sent: seq<byte>, s: seq<byte>, from: nat, to: nat, end: nat, rest: seq<byte>, emitted: seq<Message>)
    requires from <= to <= end <= |s| && Flow(sent, s[from..end] + rest, emitted)
    ensures Flow(sent + s[from..to], s[to..end] + rest, emitted)
    ensures to == end ==> Flow(sent + s[from..to], rest, emitted)
  {
    hide Join, Frames;
    assert sent + (s[from..end] + rest) == sent + s[from..to] + (s[to..end] + rest);
    if to == end { assert s[to..end] + rest == rest; }
  }

  lemma LastFlowMoves(sent: seq<byte>, s: seq<byte>, from: nat, to: nat, end: nat, emitted: seq<Message>)
    requires from <= to <= end <= |s| && Flow(sent, s[from..end], emitted)
    ensures Flow(sent + s[from..to], s[to..end], emitted)
  {
    hide Flow;
    assert s[from..end] == s[from..end] + [] && s[to..end] == s[to..end] + [];
    FlowMoves(sent, s, from, to, end, [], emitted);
  }

  /** What was read are the messages handled so far and the bytes received of the next. */
  ghost predicate Inflow(input: seq<byte>, taken: nat, handled: seq<Frame>, received: seq<byte>) {
    && taken <= |input| && input[..taken] == Join(handled) + received
    && forall f <- handled :: WellFramed(f)
  }

  lemma InflowMoves(input: seq<byte>, taken: nat, moved: nat, handled: seq<Frame>, received: seq<byte>)
    requires Inflow(input, taken, handled, received) && taken + moved <= |input|
    ensures Inflow(input, taken + moved, handled, received + input[taken..taken + moved])
  {
  }

  lemma InflowLength(input: seq<byte>, taken: nat, handled: seq<Frame>, hdr: seq<byte>)
    requires Inflow(input, taken, handled, hdr) && |hdr| == HEADER_SIZE && LengthsOk(input)
    ensures LenOf(hdr) <= PAYLOAD_MAX
  {
    hide Join;
    assert input == input[..taken] + input[taken..];
    assert input == Join(handled) + (hdr + input[taken..]);
    NextLengthOk(handled, hdr, input[taken..]);
  }

  lemma InflowHandled(input: seq<byte>, taken: nat, handled: seq<Frame>, f: Frame)
    requires Inflow(input, taken, handled, f.hdr + f.body) && WellFramed(f)
    ensures Inflow(input, taken, handled + [f], [])
  {
    hide Join, WellFramed;
    JoinOne(handled, f);
  }

  lemma InflowIsSplit(input: seq<byte>, taken: nat, handled: seq<Frame>, received: seq<byte>)
    requires Inflow(input, taken, handled, received) && Incomplete(received)
    ensures Split(input[..taken]) == (handled, received)
  {
    SplitJoin(handled, received);
  }

  // ---------------------------------------------------------------- connections

  /** One read of a connection that receives `input`: the next `moved` of its bytes arrive in place. */
  ghost predicate ReadsOn(input: seq<byte>, taken: nat, taken': nat, before: seq<byte>, after: seq<byte>, at: nat, bytes: nat, moved: nat) {
    && taken' == taken + moved && moved <= bytes && taken' <= |input| && at + bytes <= |before|
    && after == Splice(before, at, input[taken..taken'])
  }

  /** Any connection: each transfer moves as much as it likes of what is wanted and there, and the
      connection may die in any of them.  RingLink shows that a ring is one. */
  class Connection {
    /** All that will ever arrive, and how much of it has been read. */
    const input: seq<byte>
    var taken: nat
    var sent: seq<byte>
    var alive: bool
    var evRead: bool
    var evWrite: bool

    ghost predicate Valid() reads this`taken { taken <= |input| }

    constructor (input: seq<byte>)
      ensures Valid() && this.input == input && taken == 0 && sent == [] && alive && !evRead && !evWrite
    {
      this.input := input;
      taken, sent, alive, evRead, evWrite := 0, [], true, false, false;
    }

    method Transfer(bytes: nat, there: nat, on: bool) returns (moved: nat, stays: bool, waiting: bool)
      ensures moved <= there && Ring.Honours(bytes, moved, stays && moved == bytes, alive, stays, on, waiting)
    {
      if !alive { return 0, false, on; }
      moved :| 0 <= moved <= bytes && moved <= there;
      stays :| stays || !stays;
      waiting := if bytes == 0 then on else moved < bytes;
    }

    method Read(dst: array<byte>, at: nat, bytes: nat) returns (done: bool, moved: nat)
      requires Valid() && at + bytes <= dst.Length
      modifies this`taken, this`alive, this`evRead, dst
      ensures Valid() && ReadsOn(input, old(taken), taken, old(dst[..]), dst[..], at, bytes, moved)
      ensures Ring.Honours(bytes, moved, done, old(alive), alive, old(evRead), evRead)
    {
      moved, alive, evRead := Transfer(bytes, |input| - taken, evRead);
      PutBytes(dst, at, input[taken..taken + moved]);
      taken := taken + moved;
      done := alive && moved == bytes;
    }

    method Write(src: array<byte>, at: nat, bytes: nat) returns (done: bool, moved: nat)
      requires at + bytes <= src.Length
      modifies this`sent, this`alive, this`evWrite
      ensures moved <= bytes && sent == old(sent) + src[at..at + moved]
      ensures Ring.Honours(bytes, moved, done, old(alive), alive, old(evWrite), evWrite)
    {
      moved, alive, evWrite := Transfer(bytes, bytes, evWrite);
      sent := sent + src[at..at + moved];
      done := alive && moved == bytes;
    }

    method NeedRx()
      modifies this`evRead
      ensures evRead == (old(evRead) || alive)
    {
      if alive { evRead := true; }
    }
  }

  /** The rings as a connection, promise for promise: what the peer has produced so far starts `input`,
      and what has been sent is the stream of the response ring. */
  class RingLink {
    const rc: Ring.RingConn
    ghost const input: seq<byte>

    ghost predicate Valid()
      reads this, rc, rc.req, rc.req.buf, rc.rsp, rc.rsp.buf
    {
      rc.Valid() && rc.req.stream <= input
    }

    constructor (ghost input: seq<byte>)
      ensures Valid() && this.input == input && fresh(rc) && rc.req.taken == 0 && rc.rsp.stream == []
      ensures rc.alive && !rc.evRead && !rc.evWrite
    {
      rc := new Ring.RingConn();
      this.input := input;
    }

    method Read(dst: array<byte>, at: nat, bytes: nat, first: seq<byte>, between: seq<byte>, second: seq<byte>, notified: bool)
      returns (done: bool, moved: nat)
      requires Valid() && dst != rc.req.buf && dst != rc.rsp.buf && at + bytes <= dst.Length
      requires |rc.req.stream| - rc.req.taken + |first| <= Ring.SIZE
      requires |rc.req.stream| - rc.req.taken + |first| + |between| + |second|
            <= Ring.SIZE + Ring.Chunk(rc.req.taken, |rc.req.stream| - rc.req.taken, bytes)
      requires rc.req.stream + first + between + second <= input
      modifies rc`evRead, rc`alive, rc`io, rc.req, rc.req.buf, dst
      ensures Valid() && ReadsOn(input, old(rc.req.taken), rc.req.taken, old(dst[..]), dst[..], at, bytes, moved)
      ensures Ring.Honours(bytes, moved, done, old(rc.alive), rc.alive, old(rc.evRead), rc.evRead)
    {
      hide Ring.Honours, Splice, Ring.Chunk, Ring.Min;
      done, moved := rc.Read(dst, at, bytes, first, between, second, notified);
      assert input[old(rc.req.taken)..rc.req.taken] == rc.req.stream[old(rc.req.taken)..rc.req.taken];
    }

    method Write(src: array<byte>, at: nat, bytes: nat, first: nat, between: nat, second: nat, notified: bool)
      returns (done: bool, moved: nat)
      requires Valid() && src != rc.req.buf && src != rc.rsp.buf && at + bytes <= src.Length
      requires rc.rsp.taken + first <= |rc.rsp.stream|
      requires rc.rsp.taken + first + between + second
            <= |rc.rsp.stream| + Ring.Chunk(|rc.rsp.stream|, Ring.SIZE - (|rc.rsp.stream| - rc.rsp.taken), bytes)
      modifies rc`evWrite, rc`alive, rc`io, rc.rsp, rc.rsp.buf
      ensures Valid() && moved <= bytes && rc.rsp.stream == old(rc.rsp.stream) + src[at..at + moved]
      ensures Ring.Honours(bytes, moved, done, old(rc.alive), rc.alive, old(rc.evWrite), rc.evWrite)
    {
      hide Ring.Honours, Ring.Chunk, Ring.Min;
      done, moved := rc.Write(src, at, bytes, first, between, second, notified);
    }
  }

  /** What has been handled of a ring's requests is what its stream, as far as it was consumed, is cut
      into; and what the other side can have received is whole messages, in the order they were queued. */
  lemma RingIsServed(link: RingLink, handled: seq<Frame>, received: seq<byte>, unsent: seq<byte>, emitted: seq<Message>)
    requires link.Valid() && Inflow(link.input, link.rc.req.taken, handled, received) && Incomplete(received)
    requires Flow(link.rc.rsp.stream, unsent, emitted)
    ensures Split(link.rc.req.stream[..link.rc.req.taken]) == (handled, received)
    ensures Split(link.rc.rsp.stream[..link.rc.rsp.taken]).0 <= Frames(emitted)
  {
    hide Join, Split, HeaderOf;
    var req, rsp := link.rc.req, link.rc.rsp;
    InflowIsSplit(link.input, req.taken, handled, received);
    assert link.input[..req.taken] == req.stream[..req.taken];
    FramesAreFramed(emitted);
    PartIsReceived(Frames(emitted), rsp.stream[..rsp.taken]);
  }

  // ---------------------------------------------------------------- the state machines

  datatype IoState = Idle | InHeader | InBody

  class XsProto {
    const conn: Connection
    const rx: Wire
    const tx: Wire
    var rxState: IoState
    /** Where in the header, or in the buffer, the next byte goes, and how many are missing. */
    var rxAt: nat
    var rxBytes: nat
    var txState: IoState
    var txAt: nat
    var txBytes: nat
    var txQueue: seq<Message>
    /** The messages handled, those ever queued, and those taken from the queue. */
    ghost var handled: seq<Frame>
    ghost var queued: seq<Message>
    ghost var emitted: seq<Message>

    /** What has been received of the message in progress. */
    ghost function Received(): seq<byte>
      requires RxParts()
      reads this`rxState, this`rxAt, this`rxBytes, conn`taken, rx, rx.hdr, rx.buff
    {
      match rxState
      case Idle => []
      case InHeader => rx.hdr[0..rxAt]
      case InBody => rx.hdr[..] + rx.buff[rx.body..rxAt]
    }

    ghost predicate RxParts()
      reads this`rxState, this`rxAt, this`rxBytes, conn`taken, rx, rx.hdr, rx.buff
    {
      && conn.Valid() && rx.Valid()
      && (rxState.InHeader? ==> rxAt + rxBytes == HEADER_SIZE)
      && (rxState.InBody? ==>
            rx.Hdr().len <= PAYLOAD_MAX && rx.body <= rxAt && rxAt + rxBytes == rx.body + rx.Hdr().len)
    }

    ghost predicate RxOk()
      reads this`rxState, this`rxAt, this`rxBytes, this`handled, conn`taken, rx, rx.hdr, rx.buff
    {
      && RxParts() && LengthsOk(conn.input)
      && Inflow(conn.input, conn.taken, handled, Received())
    }

    ghost predicate Listening()
      reads this`rxState, this`rxBytes, conn`alive
    {
      conn.alive && rxState.InHeader? ==> rxBytes > 0
    }

    /** What is still to be sent of the message in progress. */
    ghost function Unsent(): seq<byte>
      requires TxParts()
      reads this`txState, this`txAt, this`txBytes, tx, tx.hdr, tx.buff
    {
      match txState
      case Idle => []
      case InHeader => tx.hdr[txAt..HEADER_SIZE] + tx.Body(tx.Hdr().len)
      case InBody => tx.buff[txAt..tx.body + tx.Hdr().len]
    }

    ghost predicate TxParts()
      reads this`txState, this`txAt, this`txBytes, tx, tx.hdr, tx.buff
    {
      && tx.Valid()
      && (!txState.Idle? ==> tx.Hdr().len <= PAYLOAD_MAX)
      && (txState.InHeader? ==> txAt + txBytes == HEADER_SIZE)
      && (txState.InBody? ==> tx.body <= txAt && txAt + txBytes == tx.body + tx.Hdr().len)
    }

    ghost predicate TxOk()
      reads this`txState, this`txAt, this`txBytes, this`txQueue, this`queued, this`emitted
      reads conn`sent, tx, tx.hdr, tx.buff
    {
      && TxParts()
      && Queueing(queued, emitted, txQueue)
      && Flow(conn.sent, Unsent(), emitted)
    }

    /** While sending goes on, the connection is not left waiting without cause. */
    ghost predicate Going()
      reads this`txState, this`txBytes, conn`alive, conn`evWrite
    {
      conn.alive ==>
        match txState
        case Idle => !conn.evWrite
        case InHeader => txBytes > 0
        case InBody => txBytes == 0 ==> !conn.evWrite
    }

    /** Between calls a live connection waits to write exactly while a message is under way. */
    ghost predicate Resting()
      reads this`txState, this`txBytes, this`txQueue, conn`alive, conn`evWrite
    {
      conn.alive ==>
        && (conn.evWrite <==> !txState.Idle?)
        && (if txState.Idle? then txQueue == [] else txBytes > 0)
    }

    ghost predicate Separate()
      reads this
    {
      && rx != tx && rx.hdr != tx.hdr && rx.hdr != tx.buff && rx.buff != tx.hdr && rx.buff != tx.buff
    }

    ghost predicate Valid()
      reads this, conn, rx, rx.hdr, rx.buff, tx, tx.hdr, tx.buff
    {
      Separate() && RxOk() && Listening() && TxOk() && Resting()
    }

    constructor (domPath: seq<byte>, conn: Connection)
      requires |domPath| < DOM_PATH_MAX && LengthsOk(conn.input)
      requires conn.Valid() && conn.taken == 0 && conn.sent == [] && conn.alive && !conn.evWrite
      modifies conn
      ensures Valid() && this.conn == conn && handled == [] && queued == [] && conn.evRead
      ensures conn.alive && conn.taken == 0 && conn.sent == []
    {
      this.conn := conn;
      rx := new Wire(domPath);
      tx := new Wire(domPath);
      rxState, rxAt, rxBytes, txState, txAt, txBytes := Idle, 0, 0, Idle, 0, 0;
      txQueue, handled, queued, emitted := [], [], [], [];
      new;
      conn.NeedRx();
    }

    // ---- sending

    /** `prepare_tx` */
    method PrepareTx() returns (some: bool)
      requires TxOk() && txState.Idle?
      modifies this`txQueue, this`txState, this`txAt, this`txBytes, this`emitted, tx.hdr, tx.buff
      ensures TxOk() && (some <==> old(txQueue) != [])
      ensures if some then txState.InHeader? && txBytes == HEADER_SIZE && |txQueue| < |old(txQueue)|
              else txState.Idle? && txQueue == []
      ensures some ==>
        && txQueue == old(txQueue)[1..] && emitted == old(emitted) + [old(txQueue)[0]]
        && Carries(Frame(tx.hdr[..], tx.Body(tx.Hdr().len)), old(txQueue)[0])
    {
      if txQueue == [] { return false; }
      hide Queueing, Flow, Outgoing, Prefixed, Carries, Packed;
      var m := txQueue[0];
      FlowStarts(conn.sent, emitted, m);
      NextQueued(queued, emitted, txQueue);
      txQueue := txQueue[1..];
      emitted := emitted + [m];
      BuildMessage(m);
      return true;
    }

    method BuildMessage(m: Message)
      requires TxParts()
      modifies this`txState, this`txAt, this`txBytes, tx.hdr, tx.buff
      ensures TxParts() && txState.InHeader? && txBytes == HEADER_SIZE
      ensures Unsent() == Outgoing(m).hdr + Outgoing(m).body
      ensures Carries(Frame(tx.hdr[..], tx.Body(tx.Hdr().len)), m)
    {
      OutgoingCarries(m);
      hide HeaderOf, HeaderBytes, Packed, Prefixed;
      tx.BuildHdr(m.kind, m.reqId, m.txId);
      var ok := tx.BuildBody(m.body, m.terminator);
      if !ok {
        tx.BuildHdr(XS_ERROR, m.reqId, m.txId);
        ok := tx.BuildBodyOne(TOO_BIG, false);
      }
      txState, txAt, txBytes := InHeader, 0, HEADER_SIZE;
      assert tx.hdr[0..HEADER_SIZE] == tx.hdr[..];
    }

    method WriteHeader() returns (done: bool)
      requires TxOk() && txState.InHeader?
      modifies this`txAt, this`txBytes, conn`sent, conn`alive, conn`evWrite
      ensures TxOk() && txBytes <= old(txBytes)
      ensures done ==> Flow(conn.sent, tx.Body(tx.Hdr().len), emitted)
      ensures Ring.Honours(old(txBytes), old(txBytes) - txBytes, done, old(conn.alive), conn.alive, old(conn.evWrite), conn.evWrite)
    {
      hide Queueing, Flow, HeaderOf, Prefixed;
      var moved;
      done, moved := conn.Write(tx.hdr, txAt, txBytes);
      FlowMoves(old(conn.sent), tx.hdr[..], txAt, txAt + moved, HEADER_SIZE, tx.Body(tx.Hdr().len), emitted);
      txAt, txBytes := txAt + moved, txBytes - moved;
      assert TxParts();
      assert Unsent() == tx.hdr[..][txAt..HEADER_SIZE] + tx.Body(tx.Hdr().len);
    }

    method TxHeader() returns (done: bool)
      requires TxOk() && Going() && txState.InHeader?
      modifies this`txState, this`txAt, this`txBytes, conn`sent, conn`alive, conn`evWrite
      ensures TxOk() && if done then Going() && txState.InBody? else txState.InHeader? && Resting()
      ensures conn.alive ==> old(conn.alive)
    {
      hide Queueing, Flow, HeaderOf, Prefixed;
      done := WriteHeader();
      if done {
        txState, txAt, txBytes := InBody, tx.body, tx.Hdr().len;
        assert Unsent() == tx.Body(tx.Hdr().len);
      }
    }

    method WriteBody() returns (done: bool)
      requires TxOk() && txState.InBody?
      modifies this`txAt, this`txBytes, conn`sent, conn`alive, conn`evWrite
      ensures TxOk() && txBytes <= old(txBytes)
      ensures Ring.Honours(old(txBytes), old(txBytes) - txBytes, done, old(conn.alive), conn.alive, old(conn.evWrite), conn.evWrite)
    {
      hide Queueing, Flow, HeaderOf, Prefixed, Ring.Honours;
      var moved;
      done, moved := conn.Write(tx.buff, txAt, txBytes);
      LastFlowMoves(old(conn.sent), tx.buff[..], txAt, txAt + moved, txAt + txBytes, emitted);
      txAt, txBytes := txAt + moved, txBytes - moved;
      assert TxParts();
      assert Unsent() == tx.buff[..][txAt..tx.body + tx.Hdr().len];
    }

    method TxBody() returns (done: bool)
      requires TxOk() && Going() && txState.InBody?
      modifies this`txState, this`txAt, this`txBytes, conn`sent, conn`alive, conn`evWrite
      ensures TxOk() && if done then Going() && txState.Idle? else txState.InBody? && Resting()
      ensures conn.alive ==> old(conn.alive)
    {
      hide Queueing, Flow, HeaderOf, Prefixed;
      done := WriteBody();
      if done {
        assert Unsent() == [];
        txState := Idle;
      }
    }

    method ProcessTx()
      requires TxOk() && Going()
      modifies this`txState, this`txAt, this`txBytes, this`txQueue, this`emitted
      modifies conn`sent, conn`alive, conn`evWrite, tx.hdr, tx.buff
      ensures TxOk() && Resting() && (conn.alive ==> old(conn.alive))
    {
      hide Queueing, Flow, HeaderOf, Prefixed;
      while true
        invariant TxOk() && Going() && (conn.alive ==> old(conn.alive))
        decreases |txQueue|, if txState.Idle? then 0 else if txState.InBody? then 1 else 2
      {
        match txState
        case Idle =>
          var some := PrepareTx();
          if !some { return; }
        case InHeader =>
          var done := TxHeader();
          if !done { return; }
        case InBody =>
          var done := TxBody();
          if !done { return; }
      }
    }

    /** `tx_queue.push_back` and the `process_tx` that follows it. */
    method Enqueue(m: Message)
      requires TxOk() && Resting()
      modifies this`txState, this`txAt, this`txBytes, this`txQueue, this`emitted, this`queued
      modifies conn`sent, conn`alive, conn`evWrite, tx.hdr, tx.buff
      ensures TxOk() && Resting() && queued == old(queued) + [m] && (conn.alive ==> old(conn.alive))
    {
      hide Queueing, Flow, HeaderOf, Prefixed;
      MoreQueued(queued, emitted, txQueue, m);
      txQueue, queued := txQueue + [m], queued + [m];
      ProcessTx();
    }

    /** What is on the wire is a prefix of the encodings of all that was ever queued, in order, and a live
        connection waits to write exactly while something is missing. */
    lemma SentInOrder()
      requires Valid()
      ensures conn.sent <= Join(Frames(queued))
      ensures conn.alive ==> (conn.evWrite <==> conn.sent != Join(Frames(queued)))
      ensures Split(conn.sent).0 <= Frames(queued)
    {
      hide Flow, Queueing, Join, Frames, HeaderOf, Split, Prefixed;
      AllAccountedFor(conn.sent, Unsent(), queued, emitted, txQueue);
      FramesAreFramed(queued);
      PartIsReceived(Frames(queued), conn.sent);
    }

    /** `watch_cb`: the client hears of the path in the form it registered, relative to its own or absolute.
        A relative watch was registered behind the domain's path, and a watch hears only of its own path
        or of what is below it, so there is always a prefix to take off. */
    method WatchFired(fire: seq<byte>, token: seq<byte>, relative: bool, ghost n: Watches.Notice) returns (ghost path: seq<byte>)
      requires Valid() && fire == Paths.Format(n.path) && Watches.AtOrBelow(n.path, n.watch.path)
      requires relative ==> rx.domPath + ['/'] <= Paths.Format(n.watch.path)
      modifies this`txState, this`txAt, this`txBytes, this`txQueue, this`emitted, this`queued
      modifies conn`sent, conn`alive, conn`evWrite, tx.hdr, tx.buff
      ensures Valid() && queued == old(queued) + [Message(15, 0, 0, [path, token], true)]
      ensures fire == if relative then rx.domPath + ['/'] + path else path
    {
      hide Queueing, Flow, Inflow, LengthsOk, HeaderOf, Prefixed;
      if n.path != n.watch.path { Paths.BelowContinues(n.path, n.watch.path); }
      var told := if relative then fire[|rx.domPath| + 1..] else fire;
      path := told;
      Enqueue(Message(XS_WATCH_EVENT, 0, 0, [told, token], true));
    }

    // ---- receiving

    method RxHeader() returns (done: bool)
      requires RxOk() && Listening() && rxState.InHeader? && rx.hdr != rx.buff
      modifies this`rxState, this`rxAt, this`rxBytes, conn`taken, conn`alive, conn`evRead, rx.hdr
      ensures RxOk() && Listening() && if done then rxState.InBody? else rxState.InHeader?
      ensures conn.alive ==> old(conn.alive)
      ensures done ==> conn.alive && rxAt == rx.body
      ensures !done && conn.alive ==> conn.evRead && rxBytes > 0
      ensures conn.taken - old(conn.taken) >= if done then old(rxBytes) else 0
    {
      hide Inflow, LengthsOk, HeaderOf, Splice;
      var moved;
      done, moved := conn.Read(rx.hdr, rxAt, rxBytes);
      InflowMoves(conn.input, old(conn.taken), moved, handled, old(rx.hdr[0..rxAt]));
      SpliceExtends(old(rx.hdr[..]), 0, rxAt, conn.input[old(conn.taken)..conn.taken]);
      rxAt, rxBytes := rxAt + moved, rxBytes - moved;
      assert RxParts() && Inflow(conn.input, conn.taken, handled, Received());
      if done {
        assert rx.hdr[0..HEADER_SIZE] == rx.hdr[..];
        InflowLength(conn.input, conn.taken, handled, rx.hdr[..]);
        rxState, rxAt, rxBytes := InBody, rx.body, rx.Hdr().len;
        assert Received() == rx.hdr[..];
      }
    }

    /** A body that is complete is sanitized and ready to be handled. */
    method RxBody() returns (done: bool)
      requires RxOk() && rxState.InBody? && rx.hdr != rx.buff
      modifies this`rxAt, this`rxBytes, conn`taken, conn`alive, conn`evRead, rx.buff
      ensures RxOk() && rxState.InBody? && conn.taken >= old(conn.taken)
      ensures conn.alive ==> old(conn.alive)
      ensures done ==> conn.alive && rxBytes == 0 && rx.buff[rx.body + rx.Hdr().len] == NUL
      ensures !done && conn.alive ==> conn.evRead && rxBytes > 0
    {
      hide Inflow, LengthsOk, HeaderOf, Splice, Prefixed;
      var moved;
      ghost var before := rx.buff[..];
      ghost var got := before[rx.body..rxAt];
      done, moved := conn.Read(rx.buff, rxAt, rxBytes);
      ghost var x := conn.input[old(conn.taken)..conn.taken];
      InflowMoves(conn.input, old(conn.taken), moved, handled, rx.hdr[..] + got);
      SpliceExtends(before, rx.body, rxAt, x);
      PrefixKept(before, rx.domPath, rxAt, x);
      Associate(rx.hdr[..], got, x);
      rxAt, rxBytes := rxAt + moved, rxBytes - moved;
      assert rx.Valid();
      assert Received() == rx.hdr[..] + (got + x);
      if done { rx.SanitizeInput(); }
    }

    /** `handle_rx` is called with a whole message; what it queues in reply is up to the operations. */
    method HandleRx(reply: Message)
      requires Valid() && rxState.InBody? && rxBytes == 0 && conn.alive
      requires rx.buff[rx.body + rx.Hdr().len] == NUL
      modifies this, conn`sent, conn`alive, conn`evWrite, tx.hdr, tx.buff
      ensures Valid() && rxState.Idle?
      ensures handled == old(handled) + [Frame(rx.hdr[..], rx.Body(rx.Hdr().len))] && queued == old(queued) + [reply]
    {
      hide Queueing, Flow, Inflow, LengthsOk, HeaderOf, Prefixed;
      ghost var f := Frame(rx.hdr[..], rx.Body(rx.Hdr().len));
      InflowHandled(conn.input, conn.taken, handled, f);
      handled := handled + [f];
      rxState := Idle;
      assert RxOk();
      Enqueue(reply);
    }

    method OnIdle()
      requires Valid() && rxState.Idle?
      modifies this`rxState, this`rxAt, this`rxBytes
      ensures Valid() && rxState.InHeader?
    {
      hide Queueing, Flow, Inflow, LengthsOk, HeaderOf, Prefixed;
      rxState, rxAt, rxBytes := InHeader, 0, HEADER_SIZE;
      assert Received() == [];
    }

    method OnHeader() returns (done: bool)
      requires Valid() && rxState.InHeader?
      modifies this`rxState, this`rxAt, this`rxBytes, conn`taken, conn`alive, conn`evRead, rx.hdr
      ensures Valid() && if done then rxState.InBody? && conn.taken > old(conn.taken) else conn.taken >= old(conn.taken)
      ensures !done && conn.alive ==> conn.evRead && Split(conn.input[..conn.taken]) == (handled, Received())
    {
      hide Queueing, Flow, Inflow, LengthsOk, HeaderOf, Prefixed, Split;
      done := RxHeader();
      assert TxOk() && Resting();
      if !done && conn.alive { Waiting(); }
    }

    method OnBody() returns (done: bool)
      requires Valid() && rxState.InBody?
      modifies this, conn`taken, conn`sent, conn`alive, conn`evRead, conn`evWrite, rx.buff, tx.hdr, tx.buff
      ensures Valid() && conn.taken >= old(conn.taken) && (done ==> rxState.Idle?)
      ensures !done && conn.alive ==> conn.evRead && Split(conn.input[..conn.taken]) == (handled, Received())
    {
      hide Queueing, Flow, Inflow, LengthsOk, HeaderOf, Prefixed, Split;
      done := RxBody();
      assert TxOk() && Resting();
      if done {
        var reply := AnyAnswer();
        HandleRx(reply);
      } else if conn.alive {
        Waiting();
      }
    }

    /** A live connection that stopped is one that waits for bytes the message in progress lacks: so what
        was handled is what the bytes read so far amount to, however they came. */
    method ProcessRx()
      requires Valid()
      modifies this, conn`taken, conn`sent, conn`alive, conn`evRead, conn`evWrite
      modifies rx.hdr, rx.buff, tx.hdr, tx.buff
      ensures Valid() && conn.taken >= old(conn.taken)
      ensures conn.alive ==> conn.evRead && Split(conn.input[..conn.taken]) == (handled, Received())
    {
      hide Queueing, Flow, Inflow, LengthsOk, HeaderOf, Prefixed, Split;
      while true
        invariant Valid() && conn.taken >= old(conn.taken)
        decreases |conn.input| - conn.taken, if rxState.InBody? then 2 else if rxState.Idle? then 1 else 0
      {
        match rxState
        case Idle =>
          OnIdle();
        case InHeader =>
          var done := OnHeader();
          if !done { return; }
        case InBody =>
          var done := OnBody();
          if !done { return; }
      }
    }

    lemma Waiting()
      requires RxOk() && !rxState.Idle? && rxBytes > 0
      ensures Split(conn.input[..conn.taken]) == (handled, Received())
    {
      hide Inflow, LengthsOk, Split;
      if rxState.InBody? {
        assert Received()[..HEADER_SIZE] == rx.hdr[..];
      }
      InflowIsSplit(conn.input, conn.taken, handled, Received());
    }
  }

  /** Whatever the store answers. */
  method AnyAnswer() returns (reply: Message) {
    reply := *;
  }
}
