/** Stale bytes need not be noticed: a run on a new connection that is cut inside a payload within the first 512 bytes, and
    completes all packets all the same. That a chunk is not cut inside a payload is what keeps stale bytes out
    (IpcReceiver.NoStaleIff), and it is not necessary for the packets to come out right. */
module IpcStaleBytes {
  import opened Words
  import opened IpcWire
  import opened IpcParser
  import opened IpcRoundTrip
  import opened IpcReceiver

  /** A packet whose payload contains its own header, and repeats it. */
  const NESTED: Packet := Packet(7, 1, [1, 2, 0x53, 0x54, 0x58, 7, 1, 0, 0, 0, 14, 1, 2, 0x53])

  const NESTED_HEAD: seq<byte> := [0x53, 0x54, 0x58, 7, 1, 0, 0, 0, 14, 1, 2]

  lemma NestedBytes()
    ensures Encode(NESTED) == NESTED_HEAD + NESTED_HEAD + [0x53] + END_TAG
  {
    assert BigEndian32(14) == [0, 0, 0, 14];
  }

  lemma Parts<T>(h: seq<T>, x: T, end: seq<T>)
    requires |h| == 11
    ensures var f := h + h + [x] + end;
            && f[..11] == h && f[10..22] == [h[10]] + h && f[22..23] == [x] && f[1..12] == h[1..] + [h[0]]
            && f[11..23] == h + [x] && f[23..] == end && f[..10] == h[..10]
  {}

  lemma NestedFrame()
    ensures var f := Encode(NESTED);
            && |f| == 26 && f[..10] == NESTED_HEAD[..10] && f[10..22] == [2] + f[..11]
            && f[22..23] + f[1..12] == f[11..23] && f[23..] == END_TAG
  {
    hide Encode;
    NestedBytes();
    Parts(NESTED_HEAD, 0x53, END_TAG);
    assert NESTED_HEAD + [0x53] == [0x53] + (NESTED_HEAD[1..] + [0x53]);
  }

  /** A chunk that leaves the parser outside a payload is consumed, and nothing else. */
  lemma DeliverClean(heap: Heap, r: Receiver, chunk: seq<byte>)
    requires WellFormed(r) && Room(r.offset, chunk)
    requires Start(r.offset) + |chunk| == BUFFER_SIZE || Feed(heap, r.parser, chunk).stage != Data
    ensures Deliver(heap, r, chunk)
         == Receiver(Feed(heap, r.parser, chunk), Overwrite(r.buf, Start(r.offset), chunk), Start(r.offset) + |chunk|)
  {
    hide Feed;
    FaithfulIff(heap, r, chunk);
  }

  /** The frame cut after its first data byte: stale bytes fill the payload up, and the parser goes on to the tail. */
  lemma NestedFirstCut(heap: Heap, r: Receiver)
    requires Ample(heap) && WellFormed(r) && Ready(r.parser) && r.offset == 477
    ensures var q := Deliver(heap, r, Encode(NESTED)[..10]);
            && WellFormed(q) && q.offset == 500 && q.buf[..477] == r.buf[..477]
            && q.parser.stage == Tail && q.parser.sub == 0 && q.parser.log == r.parser.log
  {
    NestedFrame();
    var c := Encode(NESTED)[..10];
    DeliverKeeps(heap, r, c);
    FramePrefix(heap, r.parser, NESTED, 10);
    var mid := Feed(heap, r.parser, c);
    var extra := Overwrite(r.buf, 477, c)[487..500];
    FeedBlock(heap, mid, extra);
  }

  /** The next byte is not the end tag's. The header after it is taken for that of a new packet. */
  lemma NestedSecondCut(heap: Heap, r: Receiver) returns (p: Parser)
    requires Ample(heap) && WellFormed(r) && r.offset == 500 && r.parser.stage == Tail && r.parser.sub == 0
    ensures p.stage == Head && p.sub == 0 && p.log == r.parser.log && Valid(p)
    ensures var q := Deliver(heap, r, Encode(NESTED)[10..22]);
            && WellFormed(q) && q.offset == BUFFER_SIZE && q.buf[..477] == r.buf[..477]
            && q.parser == FrameState(p, NESTED, 11)
  {
    NestedFrame();
    var f := Encode(NESTED);
    p := Feed(heap, r.parser, [2]);
    FeedOne(heap, r.parser, 2);
    FeedKeeps(heap, r.parser, [2]);
    FramePrefix(heap, p, NESTED, 11);
    FeedConcat(heap, r.parser, [2], f[..11]);
    DeliverClean(heap, r, f[10..22]);
    DeliverKeeps(heap, r, f[10..22]);
  }

  /** One byte of its data, at the start of the buffer, and the bytes that have stood behind it there since the beginning. */
  lemma NestedThirdCut(heap: Heap, r: Receiver, p: Parser)
    requires Ample(heap) && WellFormed(r) && r.offset == BUFFER_SIZE && r.buf[1..12] == Encode(NESTED)[1..12]
    requires p.stage == Head && p.sub == 0 && Valid(p) && r.parser == FrameState(p, NESTED, 11)
    ensures var q := Deliver(heap, r, Encode(NESTED)[22..23]);
            WellFormed(q) && q.offset == 12 && q.parser == FrameState(p, NESTED, 23)
  {
    hide Encode, Feed;
    NestedFrame();
    var f := Encode(NESTED);
    var c := f[22..23];
    FeedKeeps(heap, r.parser, c);
    FeedBlock(heap, r.parser, c);
    DeliverKeeps(heap, r, c);
    var mid := Feed(heap, r.parser, c);
    assert mid.stage == Data && |mid.payload| == 3;
    assert Overwrite(r.buf, 0, c) == c + r.buf[1..];
    assert (c + r.buf[1..])[1..12] == r.buf[1..12];
    FeedConcat(heap, r.parser, c, f[1..12]);
    FramePrefix(heap, p, NESTED, 11);
    FramePrefix(heap, p, NESTED, 23);
    assert f[..23] == f[..11] + f[11..23];
    FeedConcat(heap, p, f[..11], f[11..23]);
  }

  lemma NestedLastCut(heap: Heap, r: Receiver, p: Parser)
    requires Ample(heap) && WellFormed(r) && r.offset == 12
    requires p.stage == Head && p.sub == 0 && Valid(p) && r.parser == FrameState(p, NESTED, 23)
    ensures Deliver(heap, r, Encode(NESTED)[23..]).parser.log == p.log + [NESTED]
  {
    NestedFrame();
    var f := Encode(NESTED);
    FramePrefix(heap, p, NESTED, 23);
    FramePrefix(heap, p, NESTED, 26);
    assert f[..26] == f[..23] + f[23..];
    FeedConcat(heap, p, f[..23], f[23..]);
    DeliverClean(heap, r, f[23..]);
  }

  /** The chunks of a run on a new connection: the first cut inside a payload comes within the first 512 bytes. */
  function NestedRun(): (chunks: seq<seq<byte>>)
    ensures |chunks| == 5
  {
    var f := Encode(NESTED);
    [Stream(NestedBefore()), f[..10], f[10..22], f[22..23], f[23..]]
  }

  function NestedBefore(): seq<Packet> { [NESTED, Packet(0, 1, seq(439, _ => 0))] }

  lemma NestedStart(heap: Heap, sync: bool)
    requires Ample(heap)
    ensures Framable(NestedBefore()) && |Stream(NestedBefore())| == 477
    ensures var q := Deliver(heap, Fresh(sync), Stream(NestedBefore()));
            && WellFormed(q) && q.offset == 477 && Ready(q.parser) && q.parser.log == NestedBefore()
            && q.buf[1..12] == Encode(NESTED)[1..12]
  {
    hide Encode, Feed;
    var ps, r := NestedBefore(), Fresh(sync);
    var s := Stream(ps);
    assert s == Encode(ps[0]) + Stream(ps[1..]);
    assert Stream(ps[1..]) == Encode(ps[1]) + Stream(ps[1..][1..]);
    DecodeEncode(heap, r.parser, ps);
    DeliverClean(heap, r, s);
    DeliverKeeps(heap, r, s);
    assert Overwrite(r.buf, 0, s)[1..12] == s[1..12];
    assert [] + ps == ps;
  }

  lemma NestedStream()
    ensures Framable(NestedBefore()) && Flatten(NestedRun()) == Stream(NestedBefore() + [NESTED])
  {
    var f, ps := Encode(NESTED), NestedBefore();
    NestedFrame();
    assert f == f[..10] + (f[10..22] + (f[22..23] + (f[23..] + [])));
    assert Flatten(NestedRun()[1..]) == f;
    StreamSnoc(ps, NESTED);
  }

  lemma {:induction false} StreamSnoc(ps: seq<Packet>, p: Packet)
    requires Framable(ps) && |p.payload| < UINT32
    ensures Stream(ps + [p]) == Stream(ps) + Encode(p)
  {
    hide Encode;
    if ps == [] {
      assert [p][1..] == [];
    } else {
      StreamSnoc(ps[1..], p);
      assert (ps + [p])[1..] == ps[1..] + [p];
    }
  }

  /** The first cut of the run is inside a payload, at byte 487. */
  lemma NestedCuts()
    requires |Stream(NestedBefore())| == 477
    ensures Fits(0, NestedRun()) && !CutsOutsidePayloads(NestedBefore() + [NESTED], 0, 0, NestedRun())
  {
    NestedFrame();
    var ps, chunks := NestedBefore() + [NESTED], NestedRun();
    assert ps[1..][1..] == [NESTED];
    assert FrameSize(ps[0]) == 26 && FrameSize(ps[1..][0]) == 451;
    assert InsidePayload(ps[1..][1..], 10);
    assert InsidePayload(ps[1..], 461);
    assert InsidePayload(ps, 487);
    assert !CutsOutsidePayloads(ps, 0, 477, chunks[1..]);
    assert Fits(503, chunks[1..][1..][1..][1..]) && Fits(500, chunks[1..][1..][1..]);
  }

  /** All three packets are completed nonetheless, in order and intact: the stale bytes were the right ones. */
  lemma {:induction false} CutInsidePayloadUnnoticed(heap: Heap, sync: bool)
    requires Ample(heap)
    ensures var chunks, ps := NestedRun(), NestedBefore() + [NESTED];
            && Flatten(chunks) == Stream(ps) && Fits(0, chunks) && !CutsOutsidePayloads(ps, 0, 0, chunks)
            && Deliverable(heap, Fresh(sync), chunks) && DeliverAll(heap, Fresh(sync), chunks).parser.log == ps
  {
    hide Stream, Deliver, Flatten, Encode, Fits, CutsOutsidePayloads, Feed, FrameState;
    var f, chunks, r := Encode(NESTED), NestedRun(), Fresh(sync);
    NestedFrame();
    NestedStream();
    NestedStart(heap, sync);
    NestedCuts();
    var r1 := Deliver(heap, r, chunks[0]);
    NestedFirstCut(heap, r1);
    var r2 := Deliver(heap, r1, chunks[1]);
    var p := NestedSecondCut(heap, r2);
    var r3 := Deliver(heap, r2, chunks[2]);
    assert r3.buf[..477][1..12] == r2.buf[..477][1..12] == r1.buf[..477][1..12];
    NestedThirdCut(heap, r3, p);
    var r4 := Deliver(heap, r3, chunks[3]);
    NestedLastCut(heap, r4, p);
    var r5 := Deliver(heap, r4, chunks[4]);
    DeliverKeeps(heap, r4, chunks[4]);
    DeliverAllCons(heap, r4, chunks[4..], r5);
    DeliverAllCons(heap, r3, chunks[3..], r4);
    DeliverAllCons(heap, r2, chunks[2..], r3);
    DeliverAllCons(heap, r1, chunks[1..], r2);
    DeliverAllCons(heap, r, chunks, r1);
  }
}
