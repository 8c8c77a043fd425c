/** A receive buffer in front of the parser (ipc_conn_proc with ipc_packet_analyze): chunks arrive behind
    recv_bufs_offset, and a payload is copied up to its end or the end of the buffer, received or not. */
module IpcReceiver {
  import opened Words
  import opened IpcWire
  import opened IpcParser
  import opened IpcRoundTrip

  const BUFFER_SIZE: nat := 512

  datatype Receiver = Receiver(parser: Parser, buf: seq<byte>, offset: nat)

  ghost predicate WellFormed(r: Receiver) {
    Valid(r.parser) && |r.buf| == BUFFER_SIZE && r.offset <= BUFFER_SIZE
  }

  /** A new connection: the buffer is zeroed. */
  function Fresh(sync: bool): Receiver {
    Receiver(Initial(sync), seq(BUFFER_SIZE, _ => 0), 0)
  }

  /** The offset at which the next chunk is received. */
  function Start(offset: nat): nat { if offset >= BUFFER_SIZE then 0 else offset }

  /** The chunk is not empty and fits the space that ipc_conn_proc offers to recv(). */
  predicate Room(offset: nat, chunk: seq<byte>) { 0 < |chunk| <= BUFFER_SIZE - Start(offset) }

  function Overwrite(buf: seq<byte>, o: nat, chunk: seq<byte>): (r: seq<byte>)
    requires o + |chunk| <= |buf|
    ensures |r| == |buf| && r[o..o + |chunk|] == chunk
  {
    buf[..o] + chunk + buf[o + |chunk|..]
  }

  /** Where the receiver stops after a chunk that ends at walker: there, unless that is inside a payload. */
  function StopAt(p: Parser, walker: nat): (stop: nat)
    requires Valid(p) && walker <= BUFFER_SIZE
    ensures walker <= stop <= BUFFER_SIZE
  {
    if p.stage != Data then walker
    else if walker + (p.dataLen - |p.payload|) < BUFFER_SIZE then walker + (p.dataLen - |p.payload|)
    else BUFFER_SIZE
  }

  lemma FeedSlice(heap: Heap, p: Parser, buf: seq<byte>, o: nat, m: nat, e: nat)
    requires o <= m <= e <= |buf|
    ensures Feed(heap, p, buf[o..e]) == Feed(heap, Feed(heap, p, buf[o..m]), buf[m..e])
  {
    assert buf[o..e] == buf[o..m] + buf[m..e];
    FeedConcat(heap, p, buf[o..m], buf[m..e]);
  }

  lemma FeedByte(heap: Heap, p: Parser, buf: seq<byte>, o: nat, m: nat)
    requires o <= m < |buf|
    ensures Feed(heap, p, buf[o..m + 1]) == Take(heap, Feed(heap, p, buf[o..m]), buf[m])
  {
    assert buf[o..m + 1] == buf[o..m] + [buf[m]];
    FeedSnoc(heap, p, buf[o..m], buf[m]);
  }

  /** The loop of ipc_packet_analyze over buf[o..walker], started with p, that has come to cur at offset now. */
  ghost predicate Progress(heap: Heap, p: Parser, buf: seq<byte>, o: nat, walker: nat, cur: Parser, now: nat) {
    && o <= now && o < walker <= |buf| == BUFFER_SIZE && now <= BUFFER_SIZE
    && (now <= walker ==>
          var a := Feed(heap, p, buf[o..now]);
          && Valid(a) && Settle(heap, a) == Settle(heap, cur)
          && (now == walker ==> cur == a)
          && (a.stage == Data ==> now == BUFFER_SIZE || now == o))
    && (now > walker ==> Stopped(heap, p, buf, o, walker, cur, now))
  }

  /** What the loop ends with. */
  ghost predicate Stopped(heap: Heap, p: Parser, buf: seq<byte>, o: nat, walker: nat, cur: Parser, now: nat)
    requires o < walker <= |buf| == BUFFER_SIZE
  {
    var mid := Feed(heap, p, buf[o..walker]);
    && Valid(mid) && now == StopAt(mid, walker) && cur == Feed(heap, mid, buf[walker..now])
  }

  lemma ProgressStart(heap: Heap, p: Parser, buf: seq<byte>, o: nat, walker: nat)
    requires Valid(p) && o < walker <= |buf| == BUFFER_SIZE
    ensures Progress(heap, p, buf, o, walker, p, o)
  {
    assert buf[o..o] == [];
  }

  lemma ProgressSettle(heap: Heap, p: Parser, buf: seq<byte>, o: nat, walker: nat, cur: Parser, now: nat, q: Parser)
    requires Progress(heap, p, buf, o, walker, cur, now) && now < walker && Settle(heap, q) == Settle(heap, cur)
    ensures Progress(heap, p, buf, o, walker, q, now)
  {}

  lemma ProgressByte(heap: Heap, p: Parser, buf: seq<byte>, o: nat, walker: nat, cur: Parser, now: nat)
    requires Progress(heap, p, buf, o, walker, cur, now) && now < walker
    requires Settle(heap, cur) == cur && cur.stage != Data
    ensures Progress(heap, p, buf, o, walker, Consume(cur, buf[now]), now + 1)
  {
    FeedByte(heap, p, buf, o, now);
    TakeKeeps(heap, Feed(heap, p, buf[o..now]), buf[now]);
  }

  lemma ProgressCopy(heap: Heap, p: Parser, buf: seq<byte>, o: nat, walker: nat, cur: Parser, now: nat, diff: nat, q: Parser)
    requires Progress(heap, p, buf, o, walker, cur, now) && now < walker
    requires cur.stage == Data && Settle(heap, cur) == cur && Running(cur)
    requires diff == if cur.dataLen - |cur.payload| < BUFFER_SIZE - now then cur.dataLen - |cur.payload| else BUFFER_SIZE - now
    requires q == cur.(payload := cur.payload + buf[now..now + diff],
                       stage := if |cur.payload| + diff < cur.dataLen then Data else Tail)
    ensures Progress(heap, p, buf, o, walker, q, now + diff)
  {
    var a := Feed(heap, p, buf[o..now]);
    CopyStep(heap, a, buf, now, walker, diff);
    if now + diff <= walker {
      FeedSlice(heap, p, buf, o, now, now + diff);
      FeedKeeps(heap, a, buf[now..now + diff]);
    } else {
      FeedSlice(heap, p, buf, o, now, walker);
    }
  }

  lemma ProgressDone(heap: Heap, p: Parser, buf: seq<byte>, o: nat, walker: nat, cur: Parser, now: nat)
    requires Progress(heap, p, buf, o, walker, cur, now) && now >= walker
    ensures Stopped(heap, p, buf, o, walker, cur, now)
  {
    assert buf[walker..walker] == [];
  }

  /** The first walker - o bytes of a block copy were received, the rest of it, if any, is what the buffer held:
      in one go it does what feeding the received bytes, and then the others up to StopAt, does. */
  lemma {:induction false} CopyStep(heap: Heap, a: Parser, buf: seq<byte>, o: nat, walker: nat, diff: nat)
    requires Running(a) && |buf| == BUFFER_SIZE && o < walker <= BUFFER_SIZE
    requires Settle(heap, a).stage == Data
    requires diff == (var d := Settle(heap, a);
                      if d.dataLen - |d.payload| < BUFFER_SIZE - o then d.dataLen - |d.payload| else BUFFER_SIZE - o)
    ensures var d := Settle(heap, a);
            var q := d.(payload := d.payload + buf[o..o + diff],
                        stage := if |d.payload| + diff < d.dataLen then Data else Tail);
            && (o + diff <= walker ==> q == Feed(heap, a, buf[o..o + diff]))
            && (o + diff > walker ==>
                  var mid := Feed(heap, a, buf[o..walker]);
                  Valid(mid) && o + diff == StopAt(mid, walker) && q == Feed(heap, mid, buf[walker..o + diff]))
  {
    var d := Settle(heap, a);
    SettleKeeps(heap, a);
    if o + diff <= walker {
      FeedSettled(heap, a, buf[o..o + diff]);
      FeedBlock(heap, d, buf[o..o + diff]);
    } else {
      FeedSettled(heap, a, buf[o..walker]);
      FeedBlock(heap, d, buf[o..walker]);
      FeedBlock(heap, Feed(heap, a, buf[o..walker]), buf[walker..o + diff]);
      assert buf[o..o + diff] == buf[o..walker] + buf[walker..o + diff];
      assert d.payload + buf[o..o + diff] == (d.payload + buf[o..walker]) + buf[walker..o + diff];
    }
  }

  /** One successful recv() and its analysis. The bytes buf[walker..stop] were not received with this chunk. */
  function Deliver(heap: Heap, r: Receiver, chunk: seq<byte>): Receiver
    requires WellFormed(r) && Room(r.offset, chunk)
  {
    var o := Start(r.offset);
    var buf := Overwrite(r.buf, o, chunk);
    var mid := Feed(heap, r.parser, chunk);
    FeedKeeps(heap, r.parser, chunk);
    var stop := StopAt(mid, o + |chunk|);
    Receiver(Feed(heap, mid, buf[o + |chunk|..stop]), buf, stop)
  }

  lemma {:induction false} DeliverKeeps(heap: Heap, r: Receiver, chunk: seq<byte>)
    requires WellFormed(r) && Room(r.offset, chunk)
    ensures var q := Deliver(heap, r, chunk);
            && WellFormed(q) && r.parser.log <= q.parser.log
            && (q.parser.event == NoEvent <==> r.parser.event == NoEvent)
            && Start(r.offset) + |chunk| <= q.offset
            && (q.parser.stage == Data ==> q.offset == BUFFER_SIZE)
  {
    hide Feed;
    var o := Start(r.offset);
    var buf := Overwrite(r.buf, o, chunk);
    var mid := Feed(heap, r.parser, chunk);
    FeedKeeps(heap, r.parser, chunk);
    var extra := buf[o + |chunk|..StopAt(mid, o + |chunk|)];
    FeedKeeps(heap, mid, extra);
    FeedNone(heap, mid);
    if extra != [] {
      FeedBlock(heap, mid, extra);
    }
  }

  lemma DeliverIsStopped(heap: Heap, r: Receiver, chunk: seq<byte>, q: Receiver)
    requires WellFormed(r) && Room(r.offset, chunk) && |q.buf| == BUFFER_SIZE
    requires var o := Start(r.offset);
             q.buf == Overwrite(r.buf, o, chunk) && Stopped(heap, r.parser, q.buf, o, o + |chunk|, q.parser, q.offset)
    ensures q == Deliver(heap, r, chunk)
  {
    var o := Start(r.offset);
    assert q.buf[o..o + |chunk|] == chunk;
  }

  /** The bytes fed to the parser are the bytes received exactly when the chunk does not end inside a payload
      or fills the buffer. */
  lemma {:induction false} FaithfulIff(heap: Heap, r: Receiver, chunk: seq<byte>)
    requires WellFormed(r) && Room(r.offset, chunk)
    ensures var q := Deliver(heap, r, chunk);
            var walker := Start(r.offset) + |chunk|;
            && (q.offset == walker <==> walker == BUFFER_SIZE || Feed(heap, r.parser, chunk).stage != Data)
            && (q.offset == walker ==> q.parser == Feed(heap, r.parser, chunk))
  {
    FeedKeeps(heap, r.parser, chunk);
  }

  /** Any sequence of chunks that fits the buffer as the receiver leaves it. */
  ghost predicate Deliverable(heap: Heap, r: Receiver, chunks: seq<seq<byte>>)
    requires WellFormed(r)
    decreases |chunks|
  {
    chunks != [] ==>
      Room(r.offset, chunks[0]) &&
      (DeliverKeeps(heap, r, chunks[0]); Deliverable(heap, Deliver(heap, r, chunks[0]), chunks[1..]))
  }

  function DeliverAll(heap: Heap, r: Receiver, chunks: seq<seq<byte>>): (q: Receiver)
    requires WellFormed(r) && Deliverable(heap, r, chunks)
    ensures WellFormed(q) && r.parser.log <= q.parser.log
    decreases |chunks|
  {
    if chunks == [] then r
    else DeliverKeeps(heap, r, chunks[0]); DeliverAll(heap, Deliver(heap, r, chunks[0]), chunks[1..])
  }

  function Flatten(chunks: seq<seq<byte>>): seq<byte> {
    if chunks == [] then [] else chunks[0] + Flatten(chunks[1..])
  }

  /** Chunks that fit the buffer, which is refilled every 512 bytes, from buffer position at on. */
  predicate Fits(at: nat, chunks: seq<seq<byte>>)
    decreases |chunks|
  {
    chunks != [] ==>
      0 < |chunks[0]| <= BUFFER_SIZE - at % BUFFER_SIZE && Fits(at + |chunks[0]|, chunks[1..])
  }

  /** A chunk of the stream may end at position e: that is not strictly inside a payload, or it fills the buffer, in which
      the stream has begun at position base. */
  predicate CleanCut(ps: seq<Packet>, base: nat, e: nat) { (base + e) % BUFFER_SIZE == 0 || !InsidePayload(ps, e) }

  /** No chunk ends strictly inside a payload, unless it fills the buffer. */
  predicate CutsOutsidePayloads(ps: seq<Packet>, base: nat, pos: nat, chunks: seq<seq<byte>>)
    decreases |chunks|
  {
    chunks != [] ==>
      CleanCut(ps, base, pos + |chunks[0]|) && CutsOutsidePayloads(ps, base, pos + |chunks[0]|, chunks[1..])
  }

  lemma WrapOffset(at: nat, offset: nat, n: nat)
    requires offset <= BUFFER_SIZE && Start(offset) == at % BUFFER_SIZE && 0 < n <= BUFFER_SIZE - Start(offset)
    ensures Start(Start(offset) + n) == (at + n) % BUFFER_SIZE
    ensures Start(offset) + n == BUFFER_SIZE <==> (at + n) % BUFFER_SIZE == 0
  {
    var q := at / BUFFER_SIZE;
    assert at + n == q * BUFFER_SIZE + (Start(offset) + n);
    if Start(offset) + n == BUFFER_SIZE {
      assert at + n == (q + 1) * BUFFER_SIZE;
    }
  }

  /** The receiver that has been given the first pos bytes of the stream of ps, faithfully, when its parser was p and its
      buffer stood at base. */
  ghost predicate At(heap: Heap, p: Parser, ps: seq<Packet>, r: Receiver, base: nat, pos: nat)
    requires Framable(ps)
  {
    && WellFormed(r) && pos <= StreamSize(ps)
    && r.parser == Feed(heap, p, Stream(ps)[..pos])
    && Start(r.offset) == (base + pos) % BUFFER_SIZE
  }

  /** The next chunk of the stream: the receiver consumes what it received, no more, exactly when the cut at
      position e is at a buffer end or not strictly inside a payload, and then it stays faithful. */
  lemma {:induction false} DeliverNext(heap: Heap, p: Parser, ps: seq<Packet>, r: Receiver, base: nat, pos: nat,
                                       chunk: seq<byte>)
    requires Ready(p) && Framable(ps) && Ample(heap) && At(heap, p, ps, r, base, pos)
    requires Room(r.offset, chunk) && pos + |chunk| <= StreamSize(ps)
    requires chunk == Stream(ps)[pos..pos + |chunk|]
    ensures var e := pos + |chunk|;
            && (Deliver(heap, r, chunk).offset == Start(r.offset) + |chunk| <==> CleanCut(ps, base, e))
            && (CleanCut(ps, base, e) ==> At(heap, p, ps, Deliver(heap, r, chunk), base, e))
  {
    hide Stream, Deliver, Feed;
    var e := pos + |chunk|;
    assert Stream(ps)[..e] == Stream(ps)[..pos] + chunk;
    FeedConcat(heap, p, Stream(ps)[..pos], chunk);
    StreamPrefix(heap, p, ps, e);
    WrapOffset(base + pos, r.offset, |chunk|);
    FaithfulIff(heap, r, chunk);
    DeliverKeeps(heap, r, chunk);
  }

  lemma SplitSlice<T>(s: seq<T>, pos: nat, c: seq<T>, rest: seq<T>)
    requires pos + |c + rest| <= |s| && s[pos..pos + |c + rest|] == c + rest
    ensures s[pos..pos + |c|] == c && s[pos + |c|..pos + |c| + |rest|] == rest
  {
    assert c == (c + rest)[..|c|] && rest == (c + rest)[|c|..];
  }

  lemma DeliverAllCons(heap: Heap, r: Receiver, chunks: seq<seq<byte>>, q: Receiver)
    requires WellFormed(r) && chunks != [] && Room(r.offset, chunks[0]) && q == Deliver(heap, r, chunks[0])
    requires WellFormed(q) && Deliverable(heap, q, chunks[1..])
    ensures Deliverable(heap, r, chunks) && DeliverAll(heap, r, chunks) == DeliverAll(heap, q, chunks[1..])
  {}

  lemma {:induction false} DeliverRest(heap: Heap, p: Parser, ps: seq<Packet>, r: Receiver, base: nat, pos: nat,
                                       chunks: seq<seq<byte>>)
    requires Ready(p) && Framable(ps) && Ample(heap) && At(heap, p, ps, r, base, pos)
    requires Fits(base + pos, chunks) && CutsOutsidePayloads(ps, base, pos, chunks)
    requires pos + |Flatten(chunks)| <= StreamSize(ps)
    requires Flatten(chunks) == Stream(ps)[pos..pos + |Flatten(chunks)|]
    ensures Deliverable(heap, r, chunks)
    ensures At(heap, p, ps, DeliverAll(heap, r, chunks), base, pos + |Flatten(chunks)|)
    decreases |chunks|
  {
    hide Deliver, Stream, Feed;
    if chunks != [] {
      var c, rest := chunks[0], Flatten(chunks[1..]);
      var e := pos + |c|;
      SplitSlice(Stream(ps), pos, c, rest);
      DeliverNext(heap, p, ps, r, base, pos, c);
      var q := Deliver(heap, r, c);
      DeliverRest(heap, p, ps, q, base, e, chunks[1..]);
      DeliverAllCons(heap, r, chunks, q);
    }
  }

  lemma WholeSlice<T>(s: seq<T>)
    ensures s[..0] == [] && s[0..|s|] == s && s[..|s|] == s
  {}

  /** A receiver between two frames is at the beginning of any stream. */
  lemma {:induction false} AtStart(heap: Heap, r: Receiver, ps: seq<Packet>)
    requires WellFormed(r) && Framable(ps)
    ensures At(heap, r.parser, ps, r, Start(r.offset), 0)
  {
    hide Feed;
    WholeSlice(Stream(ps));
    FeedNone(heap, r.parser);
  }

  /** The round trip under chunking: whatever the packets, and wherever a receiver between two frames stands in its buffer,
      sent over any chunks that fit the buffer and are not cut inside a payload it completes exactly those packets, once each
      and in order, and waits for the next one. */
  lemma {:induction false} RoundTrip(heap: Heap, r: Receiver, ps: seq<Packet>, chunks: seq<seq<byte>>)
    requires WellFormed(r) && Ready(r.parser) && Framable(ps) && Ample(heap)
    requires Flatten(chunks) == Stream(ps)
    requires Fits(Start(r.offset), chunks) && CutsOutsidePayloads(ps, Start(r.offset), 0, chunks)
    ensures Deliverable(heap, r, chunks)
    ensures var q := DeliverAll(heap, r, chunks); q.parser.log == r.parser.log + ps && Ready(q.parser)
  {
    hide Stream, Feed;
    WholeSlice(Stream(ps));
    AtStart(heap, r, ps);
    DeliverRest(heap, r.parser, ps, r, Start(r.offset), 0, chunks);
    DecodeEncode(heap, r.parser, ps);
  }

  /** On a new connection the packets completed are those sent. */
  lemma {:induction false} FreshRoundTrip(heap: Heap, sync: bool, ps: seq<Packet>, chunks: seq<seq<byte>>)
    requires Framable(ps) && Ample(heap)
    requires Flatten(chunks) == Stream(ps) && Fits(0, chunks) && CutsOutsidePayloads(ps, 0, 0, chunks)
    ensures Deliverable(heap, Fresh(sync), chunks)
    ensures var q := DeliverAll(heap, Fresh(sync), chunks); q.parser.log == ps && Ready(q.parser)
  {
    RoundTrip(heap, Fresh(sync), ps, chunks);
  }

  /** How many bytes a run consumes that were not received with the chunk they were consumed with. */
  function Stale(heap: Heap, r: Receiver, chunks: seq<seq<byte>>): nat
    requires WellFormed(r) && Deliverable(heap, r, chunks)
    decreases |chunks|
  {
    if chunks == [] then 0
    else
      DeliverKeeps(heap, r, chunks[0]);
      var q := Deliver(heap, r, chunks[0]);
      q.offset - (Start(r.offset) + |chunks[0]|) + Stale(heap, q, chunks[1..])
  }

  /** Over every run on a stream the receiver consumes nothing but what it receives if and only if all cuts are clean. */
  lemma {:induction false} NoStaleIff(heap: Heap, p: Parser, ps: seq<Packet>, r: Receiver, base: nat, pos: nat,
                                      chunks: seq<seq<byte>>)
    requires Ready(p) && Framable(ps) && Ample(heap) && At(heap, p, ps, r, base, pos) && Deliverable(heap, r, chunks)
    requires pos + |Flatten(chunks)| <= StreamSize(ps)
    requires Flatten(chunks) == Stream(ps)[pos..pos + |Flatten(chunks)|]
    ensures Stale(heap, r, chunks) == 0 <==> CutsOutsidePayloads(ps, base, pos, chunks)
    decreases |chunks|
  {
    hide Deliver, Stream, Feed, CleanCut;
    if chunks != [] {
      var c, rest := chunks[0], Flatten(chunks[1..]);
      SplitSlice(Stream(ps), pos, c, rest);
      DeliverNext(heap, p, ps, r, base, pos, c);
      DeliverKeeps(heap, r, c);
      if CleanCut(ps, base, pos + |c|) {
        NoStaleIff(heap, p, ps, Deliver(heap, r, c), base, pos + |c|, chunks[1..]);
      }
    }
  }

  /** A packet of two data bytes, cut between them: the receiver takes a stale zero for the second byte, then
      finds the real one where it expects the end tag, and drops the packet. */
  lemma {:induction false} CutInsidePayload(heap: Heap, sync: bool)
    requires Ample(heap)
    ensures var pkt := Packet(7, 1, [0x61, 0x62]);
            var a, b := Encode(pkt)[..10], Encode(pkt)[10..];
            && Room(0, a) && Room(Deliver(heap, Fresh(sync), a).offset, b)
            && WellFormed(Deliver(heap, Fresh(sync), a))
            && Deliver(heap, Deliver(heap, Fresh(sync), a), b).parser.log == []
  {
    var pkt := Packet(7, 1, [0x61, 0x62]);
    var a, b := Encode(pkt)[..10], Encode(pkt)[10..];
    var r := Fresh(sync);
    DeliverKeeps(heap, r, a);
    FramePrefix(heap, r.parser, pkt, 10);
    var mid := Feed(heap, r.parser, a);
    assert mid == FrameState(r.parser, pkt, 10);
    assert Overwrite(r.buf, 0, a)[10..11] == [0];
    FeedBlock(heap, mid, [0]);
    var r1 := Deliver(heap, r, a);
    assert b == [0x62, 0x45, 0x54, 0x58];
    LeftoverTail(heap, r1.parser, b);
    FeedKeeps(heap, r1.parser, b);
    assert Overwrite(r1.buf, 11, b)[15..15] == [];
  }

  lemma LeftoverTail(heap: Heap, p: Parser, b: seq<byte>)
    requires p.stage == Tail && p.sub == 0 && b == [0x62, 0x45, 0x54, 0x58]
    ensures var q := Feed(heap, p, b); q.log == p.log && q.stage == Head
  {
    FeedOne(heap, p, 0x62);
    FeedSnoc(heap, p, [0x62], 0x45);
    FeedSnoc(heap, p, [0x62] + [0x45], 0x54);
    FeedSnoc(heap, p, [0x62] + [0x45] + [0x54], 0x58);
    assert b == [0x62] + [0x45] + [0x54] + [0x58];
  }
}
