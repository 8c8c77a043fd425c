/** Whatever bytes arrive, and whatever the allocator answers: a packet is completed only by the last byte of its own frame,
    and what does not fit a frame takes the receiver back to waiting for a begin tag. */
module IpcSoundness {
  import opened Words
  import opened IpcWire
  import opened IpcParser
  import opened IpcRoundTrip

  predicate EndsWith(s: seq<byte>, t: seq<byte>) { |t| <= |s| && s[|s| - |t|..] == t }

  lemma EndsWithOne(s: seq<byte>, t: seq<byte>, b: byte)
    requires EndsWith(s, t)
    ensures EndsWith(s + [b], t + [b])
  {
    assert (s + [b])[|s| - |t|..] == s[|s| - |t|..] + [b];
  }

  /** The last k of the bytes of n, the first of them counting most. */
  function Digits(n: nat, k: nat): (r: seq<byte>)
    ensures |r| == k
    decreases k
  {
    if k == 0 then [] else Digits(n / 256, k - 1) + [n % 256]
  }

  lemma AllDigits(n: nat)
    requires n < UINT32
    ensures Digits(n, 4) == BigEndian32(n)
  {
    var a := n / 256;
    var b := a / 256;
    var c := b / 256;
    assert Digits(c, 1) == Digits(c / 256, 0) + [c % 256];
    assert Digits(b, 2) == Digits(c, 1) + [b % 256];
    assert Digits(a, 3) == Digits(b, 2) + [a % 256];
    assert Digits(n, 4) == Digits(a, 3) + [n % 256];
  }

  lemma NextDigit(n: nat, k: nat, b: byte)
    requires k < 4 && (k == 1 ==> n < 0x100) && (k == 2 ==> n < 0x1_0000) && (k == 3 ==> n < 0x100_0000)
    ensures Digits(ShiftIn(n, k == 0, b), k + 1) == Digits(n, k) + [b]
  {
    var m := ShiftIn(n, k == 0, b);
    if k == 0 {
      assert Digits(m / 256, 0) == Digits(n, 0);
    } else {
      ShiftStep(n, b);
      assert m / 256 == n && m % 256 == b;
    }
  }

  function Header(seqn: byte, cmd: byte): seq<byte> { BEGIN_TAG + [seqn, cmd] }

  /** The part of a frame that the receiver has taken in. */
  function Partial(p: Parser): seq<byte>
    requires Running(p)
  {
    match p.stage
    case Head => BEGIN_TAG[..p.sub]
    case Seqn => BEGIN_TAG
    case Cmd => BEGIN_TAG + [p.seqn]
    case DataLen => Header(p.seqn, p.cmd) + Digits(p.dataLen, p.sub)
    case Data => Header(p.seqn, p.cmd) + BigEndian32(p.dataLen) + p.payload
    case Tail => Header(p.seqn, p.cmd) + BigEndian32(p.dataLen) + p.payload + END_TAG[..p.sub]
  }

  lemma SettleTrails(heap: Heap, p: Parser, s: seq<byte>)
    requires Running(p) && EndsWith(s, Partial(p))
    ensures Running(Settle(heap, p)) && EndsWith(s, Partial(Settle(heap, p)))
    ensures |Partial(Settle(heap, p))| <= |Partial(p)|
  {
    SettleKeeps(heap, p);
    if p.stage == DataLen {
      AllDigits(p.dataLen);
    }
  }

  /** One byte makes the part of a frame longer by itself, or completes it, or leaves nothing of it. */
  lemma ConsumeTrails(p: Parser, b: byte)
    requires Running(p) && (p.stage == DataLen ==> p.sub < 4) && (p.stage == Data ==> !Needs(p.dataLen, p.store))
    ensures var q := Consume(p, b);
            && Running(q)
            && (|| Partial(q) == Partial(p) + [b]
                || Partial(q) == [])
            && (|| q.log == p.log
                || (q.log == p.log + [Current(p)] && |p.payload| < UINT32 && Partial(p) + [b] == Encode(Current(p))))
  {
    hide Digits, BigEndian32, ShiftIn;
    ConsumeKeeps(p, b);
    match p.stage
    case DataLen => NextDigit(p.dataLen, p.sub, b);
    case Head =>
      if b == TagByte(BEGIN_TAG, p.sub) { assert BEGIN_TAG[..p.sub] + [b] == BEGIN_TAG[..p.sub + 1]; }
    case Tail =>
      if b == TagByte(END_TAG, p.sub) { assert END_TAG[..p.sub] + [b] == END_TAG[..p.sub + 1]; }
    case _ =>
  }

  /** The frames of ps lie in the first end bytes of s, one after the other, without overlap. */
  ghost predicate Woven(s: seq<byte>, ps: seq<Packet>, end: nat)
    decreases |ps|
  {
    end <= |s| &&
    (ps != [] ==>
       var last := ps[|ps| - 1];
       && |last.payload| < UINT32
       && exists e :: FrameSize(last) <= e <= end && FrameAt(s, last, e) && Woven(s, ps[..|ps| - 1], e - FrameSize(last)))
  }

  /** The frame of pkt ends at byte e of s. */
  ghost predicate FrameAt(s: seq<byte>, pkt: Packet, e: int)
    requires |pkt.payload| < UINT32
  {
    FrameSize(pkt) <= e <= |s| && s[e - FrameSize(pkt)..e] == Encode(pkt)
  }

  lemma {:induction false} WovenOn(s: seq<byte>, b: byte, ps: seq<Packet>, end: nat)
    requires Woven(s, ps, end)
    ensures Woven(s + [b], ps, end)
    decreases |ps|
  {
    if ps != [] {
      var last := ps[|ps| - 1];
      var e :| FrameSize(last) <= e <= end && FrameAt(s, last, e) && Woven(s, ps[..|ps| - 1], e - FrameSize(last));
      WovenOn(s, b, ps[..|ps| - 1], e - FrameSize(last));
      assert (s + [b])[e - FrameSize(last)..e] == s[e - FrameSize(last)..e];
      assert FrameAt(s + [b], last, e);
    }
  }

  lemma WovenNext(s: seq<byte>, ps: seq<Packet>, end: nat, pkt: Packet)
    requires Woven(s, ps, end) && |pkt.payload| < UINT32 && EndsWith(s, Encode(pkt)) && end + FrameSize(pkt) <= |s|
    ensures Woven(s, ps + [pkt], |s|)
  {
    assert (ps + [pkt])[..|ps|] == ps;
    assert FrameAt(s, pkt, |s|) by { assert s[|s| - FrameSize(pkt)..|s|] == s[|s| - FrameSize(pkt)..]; }
    WovenLater(s, ps, end, |s| - FrameSize(pkt));
  }

  lemma WovenLater(s: seq<byte>, ps: seq<Packet>, end: nat, later: nat)
    requires Woven(s, ps, end) && end <= later <= |s|
    ensures Woven(s, ps, later)
  {}

  lemma TakeTrails(heap: Heap, p: Parser, b: byte, s: seq<byte>)
    requires Running(p) && EndsWith(s, Partial(p))
    ensures var q := Take(heap, p, b);
            && Running(q) && EndsWith(s + [b], Partial(q)) && |Partial(q)| <= |Partial(p)| + 1
            && (q.log == p.log
                || (|q.log| == |p.log| + 1 && q.log[..|p.log|] == p.log
                    && var pkt := q.log[|p.log|];
                       |pkt.payload| < UINT32 && EndsWith(s + [b], Encode(pkt)) && FrameSize(pkt) <= |Partial(p)| + 1
                       && Partial(q) == []))
  {
    hide Consume, Partial;
    SettleKeeps(heap, p);
    SettleTrails(heap, p, s);
    var m := Settle(heap, p);
    ConsumeTrails(m, b);
    EndsWithOne(s, Partial(m), b);
    CompletedAtHead(m, b);
  }

  lemma CompletedAtHead(p: Parser, b: byte)
    requires Running(p) && (p.stage == DataLen ==> p.sub < 4) && (p.stage == Data ==> !Needs(p.dataLen, p.store))
    ensures Running(Consume(p, b)) && (Consume(p, b).log != p.log ==> Partial(Consume(p, b)) == [])
  {
    ConsumeKeeps(p, b);
  }

  /** The state m after s, q after one byte more: either no packet was completed, or one whose frame ends there. */
  ghost predicate OneByte(m: Parser, q: Parser, s: seq<byte>, b: byte) {
    && Running(m) && Running(q) && |Partial(q)| <= |Partial(m)| + 1
    && (q.log == m.log
        || (|q.log| == |m.log| + 1 && q.log[..|m.log|] == m.log
            && var pkt := q.log[|m.log|];
               |pkt.payload| < UINT32 && EndsWith(s + [b], Encode(pkt)) && FrameSize(pkt) <= |Partial(m)| + 1
               && Partial(q) == []))
  }

  lemma WovenStep(before: seq<Packet>, m: Parser, q: Parser, s: seq<byte>, b: byte, end: nat) returns (next: nat)
    requires OneByte(m, q, s, b) && before <= m.log && Woven(s, m.log[|before|..], end) && end + |Partial(m)| <= |s|
    ensures before <= q.log && Woven(s + [b], q.log[|before|..], next) && next + |Partial(q)| <= |s| + 1
  {
    hide Woven, Running, Partial, EndsWith;
    var done := m.log[|before|..];
    WovenOn(s, b, done, end);
    next := end;
    if q.log != m.log {
      var pkt := q.log[|m.log|];
      assert q.log == m.log + [pkt];
      assert q.log[|before|..] == done + [pkt];
      WovenNext(s + [b], done, end, pkt);
      next := |s| + 1;
    }
  }

  /** From a receiver between two frames, on any bytes: the packets completed are those of frames that lie in the bytes one
      after the other, without overlap, and what has been taken in of the next frame comes after them. */
  lemma {:induction false} FeedWoven(heap: Heap, p: Parser, s: seq<byte>) returns (end: nat)
    requires Ready(p)
    ensures var q := Feed(heap, p, s);
            && Running(q) && EndsWith(s, Partial(q)) && p.log <= q.log
            && Woven(s, q.log[|p.log|..], end) && end + |Partial(q)| <= |s|
    decreases |s|
  {
    end := 0;
    if s != [] {
      hide Take, Partial, Woven, EndsWith, Running;
      var front, b := s[..|s| - 1], s[|s| - 1];
      end := FeedWoven(heap, p, front);
      assert s == front + [b];
      TakeTrails(heap, Feed(heap, p, front), b, front);
      end := WovenStep(p.log, Feed(heap, p, front), Feed(heap, p, s), front, b, end);
    }
  }

  /** A packet is completed only by the last byte of its frame. */
  lemma {:induction false} OnlyFrames(heap: Heap, p: Parser, s: seq<byte>)
    requires Ready(p) && s != []
    ensures var before, after := Feed(heap, p, s[..|s| - 1]).log, Feed(heap, p, s).log;
            after != before ==>
              && |after| == |before| + 1 && before <= after
              && |after[|before|].payload| < UINT32 && EndsWith(s, Encode(after[|before|]))
  {
    hide Take, Partial;
    var front, b := s[..|s| - 1], s[|s| - 1];
    var end := FeedWoven(heap, p, front);
    assert s == front + [b];
    TakeTrails(heap, Feed(heap, p, front), b, front);
  }

  // What does not fit

  /** After a wrong byte in a begin tag the receiver is as it was; that byte is not looked at again, so a begin tag after a
      stray first byte of one is missed. */
  lemma {:induction false} WrongBegin(heap: Heap, p: Parser, k: nat, b: byte)
    requires Ready(p) && k < TAG_SIZE && b != BEGIN_TAG[k]
    ensures Feed(heap, p, BEGIN_TAG[..k] + [b]) == p
  {
    BeginPrefix(heap, p, k);
    FeedSnoc(heap, p, BEGIN_TAG[..k], b);
  }

  lemma {:induction false} BeginPrefix(heap: Heap, p: Parser, k: nat)
    requires Ready(p) && k < TAG_SIZE
    ensures Feed(heap, p, BEGIN_TAG[..k]) == p.(sub := k)
  {
    if k > 0 {
      BeginPrefix(heap, p, k - 1);
      assert BEGIN_TAG[..k] == BEGIN_TAG[..k - 1] + [BEGIN_TAG[k - 1]];
      FeedSnoc(heap, p, BEGIN_TAG[..k - 1], BEGIN_TAG[k - 1]);
    }
  }

  /** So a frame after a stray 'S' begins with bytes that the receiver ignores. */
  lemma {:induction false} StrayByte(heap: Heap, p: Parser)
    requires Ready(p)
    ensures Feed(heap, p, [BEGIN_TAG[0]] + BEGIN_TAG) == p
  {
    WrongBegin(heap, p, 1, BEGIN_TAG[0]);
    WrongBegin(heap, p, 0, BEGIN_TAG[1]);
    WrongBegin(heap, p, 0, BEGIN_TAG[2]);
    var a, b, c := BEGIN_TAG[..1] + [BEGIN_TAG[0]], BEGIN_TAG[..0] + [BEGIN_TAG[1]], BEGIN_TAG[..0] + [BEGIN_TAG[2]];
    FeedConcat(heap, p, a, b);
    FeedConcat(heap, p, a + b, c);
    assert [BEGIN_TAG[0]] + BEGIN_TAG == a + b + c;
  }

  /** A wrong byte anywhere in the end tag drops the packet. */
  lemma {:induction false} WrongEnd(heap: Heap, p: Parser, pkt: Packet, k: nat, b: byte)
    requires Ready(p) && Ample(heap) && |pkt.payload| < UINT32 && k < TAG_SIZE && b != END_TAG[k]
    ensures var q := Feed(heap, p, Encode(pkt)[..HEADER_SIZE + |pkt.payload| + k] + [b]);
            && q.stage == Head && q.sub == 0 && q.log == p.log && q.event == Lower(p.event)
  {
    var e := HEADER_SIZE + |pkt.payload| + k;
    FramePrefix(heap, p, pkt, e);
    FeedSnoc(heap, p, Encode(pkt)[..e], b);
  }

  /** Without memory for its data a packet is dropped at its first data byte, which is taken for the first byte after. */
  lemma {:induction false} NoMemory(heap: Heap, p: Parser, pkt: Packet, b: byte)
    requires Ready(p) && 0 < |pkt.payload| < UINT32 && Needs(|pkt.payload|, p.store) && !heap(p.store.requests)
    ensures var q := Feed(heap, p, Encode(pkt)[..HEADER_SIZE] + [b]);
            && q.stage == Head && q.sub == (if b == BEGIN_TAG[0] then 1 else 0) && q.log == p.log
            && q.store == Store(false, p.store.size, p.store.requests + 1)
  {
    HeaderPrefix(heap, p, pkt, HEADER_SIZE);
    FeedSnoc(heap, p, Encode(pkt)[..HEADER_SIZE], b);
  }

  /** Up to the length no memory is needed. */
  lemma {:induction false} HeaderPrefix(heap: Heap, p: Parser, pkt: Packet, e: nat)
    requires p.stage == Head && p.sub == 0 && |pkt.payload| < UINT32 && e <= HEADER_SIZE
    ensures Feed(heap, p, Encode(pkt)[..e]) == FrameState(p, pkt, e)
    decreases e
  {
    if e > 0 {
      HeaderPrefix(heap, p, pkt, e - 1);
      assert Encode(pkt)[..e] == Encode(pkt)[..e - 1] + [Encode(pkt)[e - 1]];
      FeedSnoc(heap, p, Encode(pkt)[..e - 1], Encode(pkt)[e - 1]);
      FrameStepHeader(heap, p, pkt, e - 1);
    }
  }
}
