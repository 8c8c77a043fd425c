/** Decoding what IpcWire.Encode produced: the state of the receiver after every prefix of a frame, and of a
    stream of frames, in closed form. */
module IpcRoundTrip {
  import opened Words
  import opened IpcWire
  import opened IpcParser

  ghost predicate Ample(heap: Heap) { forall k: nat :: heap(k) }

  /** Between two frames. */
  ghost predicate Ready(p: Parser) { Valid(p) && p.stage == Head && p.sub == 0 }

  function StoreFor(st: Store, n: nat): Store {
    if n == 0 || !Needs(n, st) then st
    else Store(true, if n > st.size then n else st.size, st.requests + 1)
  }

  /** The receiver after the first e bytes of the frame of pkt, starting from p. */
  function FrameState(p: Parser, pkt: Packet, e: nat): Parser
    requires e <= HEADER_SIZE + |pkt.payload| + TAG_SIZE
  {
    var n := |pkt.payload|;
    if e < 3 then p.(sub := e)
    else
      var q := p.(sub := 0, event := Lower(p.event));
      if e == 3 then q.(stage := Seqn)
      else if e == 4 then q.(stage := Cmd, seqn := pkt.seqn)
      else
        var r := q.(seqn := pkt.seqn, cmd := pkt.cmd);
        if e == 5 then r.(stage := DataLen)
        else if e == 6 then r.(stage := DataLen, sub := 1, dataLen := n / 256 / 256 / 256)
        else if e == 7 then r.(stage := DataLen, sub := 2, dataLen := n / 256 / 256)
        else if e == 8 then r.(stage := DataLen, sub := 3, dataLen := n / 256)
        else if e == 9 then r.(stage := DataLen, sub := 4, dataLen := n)
        else
          var d := r.(dataLen := n, store := StoreFor(p.store, n));
          if e < 9 + n then d.(stage := Data, payload := pkt.payload[..e - 9])
          else if e < 12 + n then d.(stage := Tail, sub := e - 9 - n, payload := pkt.payload)
          else d.(stage := Head, payload := pkt.payload, event := Raise(p.event), log := p.log + [pkt])
  }

  lemma EncodeAt(pkt: Packet, e: nat)
    requires |pkt.payload| < UINT32 && e < |Encode(pkt)|
    ensures var n := |pkt.payload|;
            Encode(pkt)[e] ==
              if e < 3 then TagByte(BEGIN_TAG, e)
              else if e == 3 then pkt.seqn
              else if e == 4 then pkt.cmd
              else if e < 9 then BigEndian32(n)[e - 5]
              else if e < 9 + n then pkt.payload[e - 9]
              else TagByte(END_TAG, e - 9 - n)
  {}

  /** One shift-accumulate step puts the next byte of a length below the bytes before it. */
  lemma ShiftStep(high: nat, low: byte)
    requires high * 256 + low < UINT32
    ensures ShiftIn(high, false, low) == high * 256 + low
  {}

  lemma {:induction false} LengthBytes(n: nat)
    requires n < UINT32
    ensures ShiftIn(0, true, BigEndian32(n)[0]) == n / 256 / 256 / 256
    ensures ShiftIn(n / 256 / 256 / 256, false, BigEndian32(n)[1]) == n / 256 / 256
    ensures ShiftIn(n / 256 / 256, false, BigEndian32(n)[2]) == n / 256
    ensures ShiftIn(n / 256, false, BigEndian32(n)[3]) == n
  {
    var a := n / 256;
    var b := a / 256;
    ShiftStep(b / 256, b % 256);
    ShiftStep(b, a % 256);
    ShiftStep(a, n % 256);
  }

  lemma FrameStepHeader(heap: Heap, p: Parser, pkt: Packet, e: nat)
    requires p.stage == Head && p.sub == 0 && |pkt.payload| < UINT32 && e < 9
    ensures Take(heap, FrameState(p, pkt, e), Encode(pkt)[e]) == FrameState(p, pkt, e + 1)
  {
    var n := |pkt.payload|;
    EncodeAt(pkt, e);
    if e < 5 {
    } else if e == 5 {
      FirstLengthByte(p.dataLen, BigEndian32(n)[0]);
      LengthBytes(n);
    } else {
      LengthBytes(n);
    }
  }

  lemma FirstLengthByte(stale: nat, b: byte)
    ensures ShiftIn(stale, true, b) == ShiftIn(0, true, b)
  {}

  lemma FrameStepBody(heap: Heap, p: Parser, pkt: Packet, e: nat)
    requires p.stage == Head && p.sub == 0 && |pkt.payload| < UINT32 && Ample(heap)
    requires 9 <= e < |Encode(pkt)|
    ensures Take(heap, FrameState(p, pkt, e), Encode(pkt)[e]) == FrameState(p, pkt, e + 1)
  {
    EncodeAt(pkt, e);
    var n := |pkt.payload|;
    if e < 9 + n {
      assert pkt.payload[..e - 9] + [pkt.payload[e - 9]] == pkt.payload[..e + 1 - 9];
      if e + 1 == 9 + n { assert pkt.payload[..n] == pkt.payload; }
    }
  }

  /** Decoding inverts encoding at every byte position, with the length accumulated by shifts for every uint32. */
  lemma {:induction false} FramePrefix(heap: Heap, p: Parser, pkt: Packet, e: nat)
    requires p.stage == Head && p.sub == 0 && |pkt.payload| < UINT32 && Ample(heap)
    requires e <= |Encode(pkt)|
    ensures Feed(heap, p, Encode(pkt)[..e]) == FrameState(p, pkt, e)
    decreases e
  {
    if e > 0 {
      FramePrefix(heap, p, pkt, e - 1);
      assert Encode(pkt)[..e] == Encode(pkt)[..e - 1] + [Encode(pkt)[e - 1]];
      FeedSnoc(heap, p, Encode(pkt)[..e - 1], Encode(pkt)[e - 1]);
      if e - 1 < 9 { FrameStepHeader(heap, p, pkt, e - 1); } else { FrameStepBody(heap, p, pkt, e - 1); }
    }
  }

  /** Position e of the stream lies strictly inside the payload of one of the packets. */
  predicate InsidePayload(ps: seq<Packet>, e: nat) {
    ps != [] &&
    (|| HEADER_SIZE < e < HEADER_SIZE + |ps[0].payload|
     || (FrameSize(ps[0]) <= e && InsidePayload(ps[1..], e - FrameSize(ps[0]))))
  }

  /** The packets whose frames lie within the first e bytes of the stream. */
  function CompletedBy(ps: seq<Packet>, e: nat): (done: seq<Packet>)
    ensures done <= ps
  {
    if ps == [] || e < FrameSize(ps[0]) then []
    else [ps[0]] + CompletedBy(ps[1..], e - FrameSize(ps[0]))
  }

  /** What the first e bytes of a stream have led to. */
  ghost predicate Reached(p: Parser, q: Parser, ps: seq<Packet>, e: nat) {
    && q.log == p.log + CompletedBy(ps, e)
    && (q.stage == Data <==> InsidePayload(ps, e))
    && (e == StreamSize(ps) ==> q.stage == Head && q.sub == 0 && CompletedBy(ps, e) == ps)
    && (0 < e == StreamSize(ps) ==> q.event == Raise(p.event))
  }

  lemma ReachedCons(p: Parser, mid: Parser, q: Parser, ps: seq<Packet>, e: nat)
    requires ps != [] && FrameSize(ps[0]) <= e
    requires mid.log == p.log + [ps[0]] && mid.event == Raise(p.event)
    requires Reached(mid, q, ps[1..], e - FrameSize(ps[0]))
    requires e == FrameSize(ps[0]) ==> q == mid
    ensures Reached(p, q, ps, e)
  {
    var rest, k := ps[1..], e - FrameSize(ps[0]);
    var done := CompletedBy(rest, k);
    assert CompletedBy(ps, e) == [ps[0]] + done;
    assert InsidePayload(ps, e) == InsidePayload(rest, k);
    assert p.log + ([ps[0]] + done) == (p.log + [ps[0]]) + done;
    if e == StreamSize(ps) {
      assert done == rest;
      assert [ps[0]] + rest == ps;
    }
  }

  lemma Prefix<T>(f: seq<T>, g: seq<T>, e: nat)
    requires e <= |f + g|
    ensures (f + g)[..e] == if e <= |f| then f[..e] else f + g[..e - |f|]
  {}

  lemma PartialFrame(heap: Heap, p: Parser, pkt: Packet, e: nat)
    requires p.stage == Head && p.sub == 0 && |pkt.payload| < UINT32 && Ample(heap) && e < FrameSize(pkt)
    ensures var q := Feed(heap, p, Encode(pkt)[..e]);
            q.log == p.log && (q.stage == Data <==> HEADER_SIZE < e < HEADER_SIZE + |pkt.payload|)
  {
    FramePrefix(heap, p, pkt, e);
  }

  lemma WholeFrame(heap: Heap, p: Parser, pkt: Packet)
    requires p.stage == Head && p.sub == 0 && |pkt.payload| < UINT32 && Ample(heap)
    ensures var q := Feed(heap, p, Encode(pkt));
            q.log == p.log + [pkt] && q.stage == Head && q.sub == 0 && q.event == Raise(p.event)
  {
    FramePrefix(heap, p, pkt, FrameSize(pkt));
    assert Encode(pkt)[..FrameSize(pkt)] == Encode(pkt);
  }

  /** The receiver after the first e bytes of a stream: it has completed exactly the packets whose frames it has
      seen in full, in order, it is in the DATA stage exactly strictly inside a payload, and at the end
      of the stream it is between two frames. */
  lemma {:induction false} StreamPrefix(heap: Heap, p: Parser, ps: seq<Packet>, e: nat)
    requires p.stage == Head && p.sub == 0 && Framable(ps) && Ample(heap) && e <= |Stream(ps)|
    ensures Reached(p, Feed(heap, p, Stream(ps)[..e]), ps, e)
    decreases |ps|
  {
    hide Encode, Take;
    if ps == [] {
      assert Stream(ps)[..e] == [];
      assert CompletedBy(ps, e) == [];
    } else {
      var f, rest := Encode(ps[0]), Stream(ps[1..]);
      Prefix(f, rest, e);
      if e < |f| {
        PartialFrame(heap, p, ps[0], e);
        assert CompletedBy(ps, e) == [];
      } else {
        WholeFrame(heap, p, ps[0]);
        Prefix(f, rest, |f|);
        assert f + rest[..e - |f|] == Stream(ps)[..e];
        FeedConcat(heap, p, f, rest[..e - |f|]);
        StreamPrefix(heap, Feed(heap, p, f), ps[1..], e - |f|);
        ReachedCons(p, Feed(heap, p, f), Feed(heap, p, Stream(ps)[..e]), ps, e);
      }
    }
  }

  /** The round trip, byte by byte. */
  lemma {:induction false} DecodeEncode(heap: Heap, p: Parser, ps: seq<Packet>)
    requires Ready(p) && Framable(ps) && Ample(heap)
    ensures var q := Feed(heap, p, Stream(ps)); Ready(q) && q.log == p.log + ps
  {
    StreamPrefix(heap, p, ps, |Stream(ps)|);
    FeedKeeps(heap, p, Stream(ps));
    assert Stream(ps)[..|Stream(ps)|] == Stream(ps);
  }
}
