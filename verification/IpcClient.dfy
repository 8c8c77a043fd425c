/** A synchronous request (cplus_ipc_client_send_request): send, then receive until the reply with the request's
    sequence number is there. */
module IpcClient {
  import opened Words
  import opened IpcWire
  import opened IpcParser
  import opened IpcRoundTrip
  import opened IpcReceiver
  import opened IpcConnection

  const TOLERANCE_TO_DIFF_SEQUENCE: nat := 3
  const IPC_CMD_REQUEST: byte := 2

  /** ACCUMULATE_SEQUENCE_NUMBER */
  function NextSeqn(seqn: nat): byte { if 255 <= seqn then 0 else seqn + 1 }

  /** The numbers count up and start over after 255. */
  lemma NextSeqnCounts(seqn: byte)
    ensures NextSeqn(seqn) == (seqn as int + 1) % 256
  {}

  /** How far the sequence number of a received packet is behind that of the request, as the client computes it. */
  function SeqnDistance(request: byte, packet: byte): nat {
    if request > packet then request - packet else 255 - request + packet
  }

  predicate Tolerated(request: byte, packet: byte) { SeqnDistance(request, packet) < TOLERANCE_TO_DIFF_SEQUENCE }

  /** A stale reply is dropped exactly when it is one or two numbers behind without the counter having wrapped. */
  lemma ToleratedIff(request: byte, packet: byte)
    requires request != packet
    ensures Tolerated(request, packet) <==> packet + 1 == request || packet + 2 == request
  {}

  /** So the reply to the previous request is an error instead when the counter has just wrapped, and only then. */
  lemma PreviousTolerated(previous: byte)
    ensures Tolerated(NextSeqn(previous), previous) <==> previous != 255
  {}

  /** One turn of the receive loop: what recv() does, and the milliseconds that go by. */
  datatype Round = Round(outcome: RecvOutcome, elapsed: nat)

  /** recv() asked for the free part of the buffer; no bytes mean that the peer has shut down. */
  function Recv(offset: nat, outcome: RecvOutcome): (r: RecvOutcome)
    requires offset <= BUFFER_SIZE
    ensures r.Received? ==> Room(offset, r.bytes)
    ensures outcome.Received? && outcome.bytes != [] ==> r.Received? && r.bytes <= outcome.bytes
    ensures outcome.Received? && Room(offset, outcome.bytes) ==> r == outcome
    ensures !outcome.Received? ==> r == outcome
    ensures outcome.Received? && outcome.bytes == [] ==> r == Closed
  {
    var room := BUFFER_SIZE - Start(offset);
    if !outcome.Received? then outcome
    else if outcome.bytes == [] then Closed
    else if |outcome.bytes| <= room then outcome
    else Received(outcome.bytes[..room])
  }

  function Reset(r: Receiver): Receiver { r.(parser := r.parser.(event := Lower(r.parser.event))) }

  lemma ResetKeeps(r: Receiver)
    requires WellFormed(r)
    ensures WellFormed(Reset(r))
  {}

  /** One turn: the wait is over, with the reply or without, or goes on for the time left. */
  datatype Outcome = Done(found: bool, r: Receiver) | Again(left: nat, r: Receiver)

  function Turn(heap: Heap, request: byte, timeout: nat, r: Receiver, round: Round): (res: Outcome)
    requires WellFormed(r)
    ensures WellFormed(res.r) && r.parser.log <= res.r.parser.log
    ensures res.r.parser.event == NoEvent <==> r.parser.event == NoEvent
  {
    var outcome := Recv(r.offset, round.outcome);
    if !outcome.Received? then Done(false, r.(offset := Start(r.offset)))
    else
      DeliverKeeps(heap, r, outcome.bytes);
      var q := Deliver(heap, r, outcome.bytes);
      if round.elapsed >= timeout then Done(false, q)
      else if q.parser.event != Set then Again(timeout - round.elapsed, q)
      else if q.parser.seqn == request then Done(true, q)
      else if Tolerated(request, q.parser.seqn) then
        ResetKeeps(q);
        Again(timeout - round.elapsed, Reset(q))
      else Done(false, q)
  }

  /** The receive loop: whether it ended with the reply, and the receiver it left. When there are no more rounds the
      peer has shut down. */
  function Await(heap: Heap, request: byte, timeout: nat, r: Receiver, rounds: seq<Round>): (res: (bool, Receiver))
    requires WellFormed(r)
    ensures WellFormed(res.1) && r.parser.log <= res.1.parser.log
    decreases |rounds|
  {
    if rounds == [] then (false, r.(offset := Start(r.offset)))
    else
      match Turn(heap, request, timeout, r, rounds[0])
      case Done(found, q) => (found, q)
      case Again(left, q) => Await(heap, request, left, q, rounds[1..])
  }

  /** Whatever stale packets, garbage or cuts the rounds bring: a request that succeeds ends with a packet completed
      during the wait, the last one, whose sequence number is the request's. */
  lemma {:induction false} AwaitSound(heap: Heap, request: byte, timeout: nat, r: Receiver, rounds: seq<Round>)
    requires WellFormed(r) && r.parser.event == Clear
    ensures var (found, q) := Await(heap, request, timeout, r, rounds);
            var p := q.parser;
            found ==>
              && p.event == Set && |p.log| > |r.parser.log|
              && p.log[|p.log| - 1] == Current(p) && p.seqn == request
              && |p.payload| == p.dataLen
    decreases |rounds|
  {
    hide Deliver;
    if rounds != [] {
      var outcome := Recv(r.offset, rounds[0].outcome);
      if outcome.Received? {
        DeliverKeeps(heap, r, outcome.bytes);
        DeliverRaises(heap, r, outcome.bytes);
        var turn := Turn(heap, request, timeout, r, rounds[0]);
        if turn.Again? {
          AwaitSound(heap, request, turn.left, turn.r, rounds[1..]);
        }
      }
    }
  }

  lemma {:induction false} FeedRaises(heap: Heap, p: Parser, s: seq<byte>)
    requires Valid(p) && p.event == Clear
    ensures Feed(heap, p, s).event in {Clear, Event.Set}
    ensures Feed(heap, p, s).event == Set ==> |Feed(heap, p, s).log| > |p.log|
    decreases |s|
  {
    if s != [] {
      var q := Feed(heap, p, s[..|s| - 1]);
      FeedRaises(heap, p, s[..|s| - 1]);
      FeedKeeps(heap, p, s[..|s| - 1]);
      TakeKeeps(heap, q, s[|s| - 1]);
    }
  }

  /** On a synchronous connection whose event is clear, only a packet completed since then sets it. */
  lemma DeliverRaises(heap: Heap, r: Receiver, chunk: seq<byte>)
    requires WellFormed(r) && Room(r.offset, chunk) && r.parser.event == Clear
    ensures var q := Deliver(heap, r, chunk).parser;
            q.event in {Clear, Event.Set} && (q.event == Set ==> |q.log| > |r.parser.log|)
  {
    var o := Start(r.offset);
    var extra := Overwrite(r.buf, o, chunk)[o + |chunk|..Deliver(heap, r, chunk).offset];
    FeedKeeps(heap, r.parser, chunk);
    FeedConcat(heap, r.parser, chunk, extra);
    FeedRaises(heap, r.parser, chunk + extra);
  }

  /** The parser without its event. */
  function Quiet(p: Parser): Parser { p.(event := NoEvent) }

  lemma QuietSettle(heap: Heap, p: Parser)
    ensures Quiet(Settle(heap, p)) == Settle(heap, Quiet(p))
    ensures Settle(heap, p).log == p.log && Settle(heap, p).event == p.event
  {}

  lemma QuietConsume(p: Parser, b: byte)
    ensures Quiet(Consume(p, b)) == Consume(Quiet(p), b)
    ensures |Consume(p, b).log| > |p.log| ==> Consume(p, b).event == Raise(p.event)
  {}

  lemma QuietTake(heap: Heap, p: Parser, b: byte)
    ensures Quiet(Take(heap, p, b)) == Take(heap, Quiet(p), b)
    ensures |Take(heap, p, b).log| > |p.log| ==> Take(heap, p, b).event == Raise(p.event)
  {
    hide Settle, Consume;
    QuietSettle(heap, p);
    QuietConsume(Settle(heap, p), b);
  }

  /** The event is driven by the parser and never drives it. */
  lemma {:induction false} QuietFeed(heap: Heap, p: Parser, s: seq<byte>)
    ensures Quiet(Feed(heap, p, s)) == Feed(heap, Quiet(p), s)
    decreases |s|
  {
    if s != [] {
      QuietFeed(heap, p, s[..|s| - 1]);
      QuietTake(heap, Feed(heap, p, s[..|s| - 1]), s[|s| - 1]);
    }
  }

  function QuietReceiver(r: Receiver): Receiver { r.(parser := Quiet(r.parser)) }

  lemma QuietDeliver(heap: Heap, r: Receiver, chunk: seq<byte>)
    requires WellFormed(r) && Room(r.offset, chunk)
    ensures WellFormed(QuietReceiver(r))
    ensures QuietReceiver(Deliver(heap, r, chunk)) == Deliver(heap, QuietReceiver(r), chunk)
  {
    hide Feed;
    var o := Start(r.offset);
    var mid := Feed(heap, r.parser, chunk);
    FeedKeeps(heap, r.parser, chunk);
    FeedKeeps(heap, Quiet(r.parser), chunk);
    QuietFeed(heap, r.parser, chunk);
    QuietFeed(heap, mid, Overwrite(r.buf, o, chunk)[o + |chunk|..StopAt(mid, o + |chunk|)]);
  }

  lemma {:induction false} NotAllYet(ps: seq<Packet>, e: nat)
    requires e < StreamSize(ps)
    ensures |CompletedBy(ps, e)| < |ps|
  {
    if FrameSize(ps[0]) <= e {
      NotAllYet(ps[1..], e - FrameSize(ps[0]));
    }
  }

  /** From the k-th packet on all are stale and dropped, but for the last one, which is the reply. */
  predicate StaleThenReply(request: byte, ps: seq<Packet>, k: nat) {
    && ps != [] && Framable(ps)
    && (forall i :: k <= i < |ps| - 1 ==> ps[i].seqn != request && Tolerated(request, ps[i].seqn))
    && ps[|ps| - 1].seqn == request
  }

  function TotalElapsed(rounds: seq<Round>): nat {
    if rounds == [] then 0 else rounds[0].elapsed + TotalElapsed(rounds[1..])
  }

  /** The rounds that bring these chunks. */
  predicate Brings(rounds: seq<Round>, chunks: seq<seq<byte>>) {
    |rounds| == |chunks| && forall i :: 0 <= i < |chunks| ==> rounds[i].outcome == Received(chunks[i])
  }

  /** The receiver, between two rounds of the wait, that has seen the first pos bytes of the stream. */
  ghost predicate Waiting(heap: Heap, p: Parser, ps: seq<Packet>, r: Receiver, base: nat, pos: nat)
    requires Framable(ps)
  {
    WellFormed(r) && r.parser.event == Clear && At(heap, Quiet(p), ps, QuietReceiver(r), base, pos)
  }

  /** After the next chunk of the stream, cut cleanly: the event tells whether the last packet completed is newly
      completed, and at the end of the stream it is set. */
  lemma {:induction false} WaitOneRound(heap: Heap, p: Parser, ps: seq<Packet>, r: Receiver, base: nat, pos: nat,
                                        chunk: seq<byte>)
    requires Ready(p) && Framable(ps) && Ample(heap) && Waiting(heap, p, ps, r, base, pos)
    requires Room(r.offset, chunk) && pos + |chunk| <= StreamSize(ps) && chunk == Stream(ps)[pos..pos + |chunk|]
    requires CleanCut(ps, base, pos + |chunk|)
    ensures var e, q := pos + |chunk|, Deliver(heap, r, chunk);
            && WellFormed(q) && At(heap, Quiet(p), ps, QuietReceiver(q), base, e)
            && r.parser.log == p.log + CompletedBy(ps, pos) && q.parser.log == p.log + CompletedBy(ps, e)
            && q.parser.event in {Clear, Event.Set}
            && (q.parser.event == Set ==> |q.parser.log| > |r.parser.log|)
            && |q.parser.log| >= |r.parser.log|
            && (e == StreamSize(ps) ==> q.parser.event == Set)
            && Waiting(heap, p, ps, if q.parser.event == Set then Reset(q) else q, base, e)
  {
    hide Stream, Feed;
    var e, q := pos + |chunk|, Deliver(heap, r, chunk);
    DeliverKeeps(heap, r, chunk);
    QuietDeliver(heap, r, chunk);
    DeliverNext(heap, Quiet(p), ps, QuietReceiver(r), base, pos, chunk);
    DeliverRaises(heap, r, chunk);
    StreamPrefix(heap, Quiet(p), ps, pos);
    StreamPrefix(heap, Quiet(p), ps, e);
    if e == StreamSize(ps) {
      FaithfulIff(heap, r, chunk);
      LastByteRaises(heap, p, ps, r, base, pos, chunk);
    }
  }

  /** Without its last element the next slice still leads on from the ones before. */
  lemma Extended<T>(s: seq<T>, pos: nat, chunk: seq<T>)
    requires chunk != [] && pos + |chunk| <= |s| && chunk == s[pos..pos + |chunk|]
    ensures s[..pos + |chunk|] == s[..pos] + chunk
    ensures s[..pos + (|chunk| - 1)] == s[..pos] + chunk[..|chunk| - 1]
  {
    assert chunk[..|chunk| - 1] == s[pos..pos + (|chunk| - 1)];
  }

  lemma {:induction false} LastByteRaises(heap: Heap, p: Parser, ps: seq<Packet>, r: Receiver, base: nat, pos: nat,
                                          chunk: seq<byte>)
    requires Ready(p) && Framable(ps) && Ample(heap) && Waiting(heap, p, ps, r, base, pos)
    requires chunk != [] && pos + |chunk| == StreamSize(ps) && chunk == Stream(ps)[pos..pos + |chunk|]
    ensures Feed(heap, r.parser, chunk).event == Set
  {
    hide Stream, Take;
    var front, b, s := chunk[..|chunk| - 1], chunk[|chunk| - 1], Stream(ps);
    var mid := Feed(heap, r.parser, front);
    QuietFeed(heap, r.parser, front);
    QuietFeed(heap, r.parser, chunk);
    Extended(s, pos, chunk);
    FeedConcat(heap, Quiet(p), s[..pos], front);
    FeedConcat(heap, Quiet(p), s[..pos], chunk);
    StreamPrefix(heap, Quiet(p), ps, pos + |front|);
    StreamPrefix(heap, Quiet(p), ps, pos + |chunk|);
    NotAllYet(ps, pos + |front|);
    FeedRaises(heap, r.parser, front);
    QuietTake(heap, mid, b);
  }

  lemma {:induction false} ReplyIsFoundFrom(heap: Heap, request: byte, timeout: nat, p: Parser, ps: seq<Packet>,
                                            r: Receiver, base: nat, pos: nat, chunks: seq<seq<byte>>, rounds: seq<Round>)
    requires Ready(p) && Ample(heap) && StaleThenReply(request, ps, |CompletedBy(ps, pos)|)
    requires Waiting(heap, p, ps, r, base, pos) && pos < StreamSize(ps)
    requires Fits(base + pos, chunks) && CutsOutsidePayloads(ps, base, pos, chunks)
    requires pos + |Flatten(chunks)| == StreamSize(ps) && Flatten(chunks) == Stream(ps)[pos..StreamSize(ps)]
    requires Brings(rounds, chunks) && TotalElapsed(rounds) < timeout
    ensures var (found, q) := Await(heap, request, timeout, r, rounds);
            && found && q.parser.log == p.log + ps && Current(q.parser) == ps[|ps| - 1]
    decreases |chunks|
  {
    hide Deliver, Stream, Feed, CompletedBy, StreamSize, CleanCut;
    var c, rest := chunks[0], Flatten(chunks[1..]);
    var e, q := pos + |c|, Deliver(heap, r, c);
    SplitSlice(Stream(ps), pos, c, rest);
    WaitOneRound(heap, p, ps, r, base, pos, c);
    hide At;
    var before, done := CompletedBy(ps, pos), CompletedBy(ps, e);
    assert |before| <= |done|;
    if e < StreamSize(ps) {
      NotAllYet(ps, e);
      assert q.parser.event == Set ==> |before| < |done| && Current(q.parser) == done[|done| - 1] == ps[|done| - 1];
      var turn := Turn(heap, request, timeout, r, rounds[0]);
      ReplyIsFoundFrom(heap, request, turn.left, p, ps, turn.r, base, e, chunks[1..], rounds[1..]);
    } else {
      StreamPrefix(heap, Quiet(p), ps, e);
      assert Current(q.parser) == q.parser.log[|q.parser.log| - 1] == ps[|ps| - 1];
    }
  }

  /** A request on a connection between two frames, wherever it stands in its buffer and whatever it has received before,
      succeeds with its own reply whenever what arrives before it are nothing but tolerated stale packets, in clean
      cuts, and in time. */
  lemma {:induction false} ReplyIsFound(heap: Heap, request: byte, timeout: nat, r: Receiver, ps: seq<Packet>,
                                        chunks: seq<seq<byte>>, rounds: seq<Round>)
    requires WellFormed(r) && Ready(r.parser) && r.parser.event == Clear && Ample(heap)
    requires StaleThenReply(request, ps, 0)
    requires Flatten(chunks) == Stream(ps)
    requires Fits(Start(r.offset), chunks) && CutsOutsidePayloads(ps, Start(r.offset), 0, chunks)
    requires Brings(rounds, chunks) && TotalElapsed(rounds) < timeout
    ensures var (found, q) := Await(heap, request, timeout, r, rounds);
            && found && q.parser.log == r.parser.log + ps && Current(q.parser) == ps[|ps| - 1]
  {
    hide Stream, Feed, Await;
    WholeSlice(Stream(ps));
    AtStart(heap, QuietReceiver(r), ps);
    ReplyIsFoundFrom(heap, request, timeout, r.parser, ps, r, Start(r.offset), 0, chunks, rounds);
  }

  /** The reply's length as the int32 that the request returns. */
  function Int32(n: nat): (r: int)
    requires n < UINT32
    ensures r < INT32 <= r + UINT32 && (r == n || r == n - UINT32)
  {
    if n < INT32 then n else n - UINT32
  }

  const RSIZE_MAX_MEM: nat := 0x1000_0000

  /** cplus_mem_cpy_ex into an output buffer: all of it, or nothing when it is empty, when it does not fit, or when
      the buffer is larger than 256 megabytes. */
  function CopyOut(output: seq<byte>, payload: seq<byte>): (r: seq<byte>)
    ensures |r| == |output|
    ensures 0 < |payload| <= |output| <= RSIZE_MAX_MEM ==> payload <= r && r[|payload|..] == output[|payload|..]
    ensures !(0 < |payload| <= |output| <= RSIZE_MAX_MEM) ==> r == output
  {
    if 0 < |payload| <= |output| <= RSIZE_MAX_MEM then payload + output[|payload|..] else output
  }

  class Client {
    var seqn: nat
    const isAsync: bool
    const conn: Conn

    constructor (isAsync: bool, conn: Conn)
      ensures this.isAsync == isAsync && this.conn == conn && seqn == 0
    {
      this.isAsync, this.conn, seqn := isAsync, conn, 0;
    }

    /** One turn of the receive loop. */
    method TakeTurn(request: byte, timeout: nat, round: Round) returns (done: bool, found: bool, left: nat)
      requires conn.Valid() && conn.evtPacketReceived != NoEvent
      modifies conn, conn.recvBufs
      ensures conn.Valid() && conn.evtPacketReceived != NoEvent
      ensures old(conn.status) == NotConnected ==> done && !found && conn.View() == old(conn.View())
      ensures old(conn.status) != NotConnected ==>
                var turn := Turn(conn.heap, request, timeout, old(conn.View()), round);
                && conn.View() == turn.r && done == turn.Done?
                && (if done then found == turn.found else left == turn.left)
      ensures !done ==> conn.status != NotConnected && !found
      ensures done && found ==> conn.sockError == ENONE
    {
      hide Deliver;
      done, found, left := true, false, 0;
      var outcome := Recv(conn.recvBufsOffset, round.outcome);
      if outcome.Received? {
        DeliverKeeps(conn.heap, conn.View(), outcome.bytes);
      }
      conn.Proc(outcome);
      if conn.recvCount <= 0 || round.elapsed >= timeout {
        return;
      }
      if conn.evtPacketReceived == Set {
        if conn.seqn == request {
          found := true;
          return;
        }
        if !Tolerated(request, conn.seqn) {
          return;
        }
        conn.ResetEvent();
      }
      done, left := false, timeout - round.elapsed;
    }

    /** The receive loop over a connection that has not been lost is Await; over one that has, it fails at once. */
    method ReceiveReply(request: byte, timeout: nat, rounds: seq<Round>) returns (found: bool)
      requires conn.Valid() && conn.evtPacketReceived != NoEvent
      modifies conn, conn.recvBufs
      ensures conn.Valid() && conn.evtPacketReceived != NoEvent
      ensures old(conn.status) == NotConnected ==> !found && conn.View() == old(conn.View())
      ensures old(conn.status) != NotConnected ==>
                (found, conn.View()) == Await(conn.heap, request, timeout, old(conn.View()), rounds)
      ensures found ==> conn.sockError == ENONE
    {
      hide Turn;
      var i, left, done := 0, timeout, false;
      found := false;
      ghost var goal := Await(conn.heap, request, timeout, conn.View(), rounds);
      while i < |rounds|
        invariant i <= |rounds| && !found && conn.Valid()
        invariant conn.evtPacketReceived != NoEvent && (old(conn.status) == NotConnected <==> conn.status == NotConnected)
        invariant conn.status == NotConnected ==> conn.View() == old(conn.View())
        invariant conn.status != NotConnected ==> goal == Await(conn.heap, request, left, conn.View(), rounds[i..])
      {
        done, found, left := TakeTurn(request, left, rounds[i]);
        assert rounds[i..][1..] == rounds[i + 1..];
        if done {
          return;
        }
        i := i + 1;
      }
      conn.Proc(Closed);
    }

    /** cplus_ipc_client_send_request. A request whose payload is empty, or that cannot be sent, returns 0 without
        waiting, as does every request of an asynchronous client. Otherwise the result is that of the wait: the
        length of the reply, whose data is then in the output buffer if it fits there, or CPLUS_FAIL. */
    method SendRequest(inputLen: nat, input: Buffer, output: array?<byte>, timeout: nat, sends: nat -> int, rounds: seq<Round>)
      returns (res: int, wire: seq<byte>)
      requires inputLen < UINT32 && (input.Bytes? ==> |input.bytes| == inputLen)
      requires conn.Valid() && (!isAsync ==> conn.evtPacketReceived == Clear)
      requires output != conn.recvBufs
      modifies this, conn, conn.recvBufs, output
      ensures conn.Valid() && seqn == NextSeqn(old(seqn))
      ensures input.Bytes? ==> wire <= Encode(Packet(seqn, IPC_CMD_REQUEST, input.bytes))
      ensures input.Bytes? && 0 < inputLen < INT32 && (forall i :: sends(i) >= UINT32) ==>
                wire == Encode(Packet(seqn, IPC_CMD_REQUEST, input.bytes))
      ensures isAsync || inputLen == 0 || !(input.Bytes? && wire == Encode(Packet(seqn, IPC_CMD_REQUEST, input.bytes))) ==>
                res == 0 && conn.View() == old(conn.View()) && (output != null ==> output[..] == old(output[..]))
      ensures !isAsync && old(conn.status) == NotConnected ==>
                res in {0, CPLUS_FAIL} && conn.View() == old(conn.View()) && (output != null ==> output[..] == old(output[..]))
      ensures !isAsync ==> conn.evtPacketReceived == Clear
      ensures !isAsync && 0 < inputLen && input.Bytes? && wire == Encode(Packet(seqn, IPC_CMD_REQUEST, input.bytes))
              && old(conn.status) != NotConnected ==>
                var (found, r) := Await(conn.heap, seqn, timeout, old(conn.View()), rounds);
                var n := |r.parser.payload|;
                && conn.View() == Reset(r)
                && (!found || output == null || output.Length == 0 ==> res == CPLUS_FAIL)
                && (found && output != null && output.Length > 0 ==>
                      n < UINT32 && res == Int32(n) && output[..] == CopyOut(old(output[..]), r.parser.payload)
                      && r.parser.log != [] && r.parser.log[|r.parser.log| - 1] == Packet(seqn, r.parser.cmd, r.parser.payload))
    {
      hide Await, Encode, Deliver;
      var request := NextSeqn(seqn);
      seqn := request;
      res, wire := SendPacket(request, IPC_CMD_REQUEST, inputLen, input, sends);
      if res <= 0 || isAsync {
        res := 0;
        return;
      }
      var found := ReceiveReply(request, timeout, rounds);
      ghost var r := conn.View();
      if found {
        AwaitSound(conn.heap, request, timeout, old(conn.View()), rounds);
      }
      conn.ResetEvent();
      if !found || output == null || output.Length == 0 {
        res := CPLUS_FAIL;
        return;
      }
      if 0 < conn.dataLen <= output.Length <= RSIZE_MAX_MEM {
        forall i | 0 <= i < conn.dataLen {
          output[i] := conn.packetDatabufs.bytes[i];
        }
      }
      res := Int32(conn.dataLen);
    }
  }
}
