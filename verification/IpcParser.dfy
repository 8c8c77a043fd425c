/** The receiver of src/ipc_server.c seen one byte at a time: the simple reference that the
    block-copying ipc_packet_analyze is proved to refine (IpcConnection), and on which the round trip with
    IpcWire.Encode is proved (IpcRoundTrip). */
module IpcParser {
  import opened Words
  import opened IpcWire
  import opened Runs

  /** recv_stage */
  datatype Stage = Head | Seqn | Cmd | DataLen | Data | Tail

  /** The answers of malloc/realloc: the i-th request of the connection is granted iff heap(i). */
  type Heap = nat -> bool

  /** packet_databufs: whether there is one, packet_databufs_size, and how often memory was asked for. */
  datatype Store = Store(present: bool, size: nat, requests: nat)

  /** evt_packet_received; an asynchronous connection has none. */
  datatype Event = NoEvent | Set | Clear

  /** payload is what has been copied of the packet's data; log holds the packets handed to the completion
      callback, oldest first. */
  datatype Parser = Parser(
    stage: Stage, sub: nat,
    seqn: byte, cmd: byte, dataLen: nat, payload: seq<byte>,
    store: Store, event: Event, log: seq<Packet>)

  const DEFAULT_PACKET_DATA_SIZE: nat := 512

  function Initial(sync: bool): Parser {
    Parser(Head, 0, 0, 0, 0, [], Store(false, DEFAULT_PACKET_DATA_SIZE, 0), if sync then Clear else NoEvent, [])
  }

  function Current(p: Parser): Packet { Packet(p.seqn, p.cmd, p.payload) }

  predicate Needs(dataLen: nat, st: Store) { dataLen > st.size || !st.present }

  /** What each stage keeps: where sub_offset and the payload stand. */
  ghost predicate StageOk(p: Parser) {
    match p.stage
    case Head => p.sub < TAG_SIZE
    case Seqn => p.sub == 0
    case Cmd => p.sub == 0
    case DataLen => p.sub <= 4 && (p.sub == 1 ==> p.dataLen < 0x100)
                    && (p.sub == 2 ==> p.dataLen < 0x1_0000) && (p.sub == 3 ==> p.dataLen < 0x100_0000)
    case Data => p.sub == 0 && |p.payload| < p.dataLen && (p.payload != [] ==> !Needs(p.dataLen, p.store))
    case Tail => p.sub < TAG_SIZE && Whole(p)
  }

  /** All of the packet's data is in the payload buffer. */
  ghost predicate Whole(p: Parser) {
    |p.payload| == p.dataLen && (p.dataLen > 0 ==> !Needs(p.dataLen, p.store))
  }

  /** The agreement of event and stage: while evt_packet_received is set the receiver waits for a begin tag and
      its packet is the last one completed. */
  ghost predicate Agreement(p: Parser) {
    p.event == Set ==>
      p.stage == Head && Whole(p) && p.log != [] && p.log[|p.log| - 1] == Current(p)
  }

  ghost predicate Running(p: Parser) { p.dataLen < UINT32 && StageOk(p) && Agreement(p) }

  /** What holds between two bytes; the DATA stage is entered only by a data byte. */
  ghost predicate Valid(p: Parser) { Running(p) && (p.stage == Data ==> p.payload != []) }

  /** The first data byte finds the payload buffer too small or missing: ask for a new one, or drop the packet. */
  function EnsureBuffer(heap: Heap, p: Parser): Parser {
    if !Needs(p.dataLen, p.store) then p
    else
      var asked := p.store.requests + 1;
      if heap(p.store.requests)
      then p.(store := Store(true, if p.dataLen > p.store.size then p.dataLen else p.store.size, asked))
      else p.(stage := Head, sub := 0, store := Store(false, p.store.size, asked))
  }

  /** The transitions taken without consuming a byte, when one is available: out of the length field, and
      out of the DATA stage when no memory is left. */
  function Settle(heap: Heap, p: Parser): Parser {
    match p.stage
    case DataLen =>
      if p.sub < 4 then p
      else if p.dataLen == 0 then p.(stage := Tail, sub := 0, payload := [])
      else EnsureBuffer(heap, p.(stage := Data, sub := 0, payload := []))
    case Data => EnsureBuffer(heap, p)
    case _ => p
  }

  function Lower(e: Event): Event { if e == NoEvent then e else Clear }
  function Raise(e: Event): Event { if e == NoEvent then e else Event.Set }

  /** A tag is a C string: its last character is followed by a NUL. */
  function TagByte(tag: seq<byte>, i: nat): byte { if i < |tag| then tag[i] else 0 }

  function ShiftIn(dataLen: nat, first: bool, b: byte): (r: nat)
    ensures r < UINT32
  {
    ((if first then 0 else dataLen * 256 % UINT32) + b) % UINT32
  }

  /** One byte in the stage reached by Settle. */
  function Consume(p: Parser, b: byte): Parser {
    match p.stage
    case Head =>
      if b != TagByte(BEGIN_TAG, p.sub) then p.(sub := 0)
      else if p.sub + 1 < TAG_SIZE then p.(sub := p.sub + 1)
      else p.(stage := Seqn, sub := 0, event := Lower(p.event))
    case Seqn => p.(stage := Cmd, seqn := b)
    case Cmd => p.(stage := DataLen, cmd := b)
    case DataLen => p.(dataLen := ShiftIn(p.dataLen, p.sub == 0, b), sub := p.sub + 1)
    case Data =>
      p.(payload := p.payload + [b], stage := if |p.payload| + 1 < p.dataLen then Data else Tail)
    case Tail =>
      if b != TagByte(END_TAG, p.sub) then p.(stage := Head, sub := 0)
      else if p.sub + 1 < TAG_SIZE then p.(sub := p.sub + 1)
      else p.(stage := Head, sub := 0, event := Raise(p.event), log := p.log + [Current(p)])
  }

  function Take(heap: Heap, p: Parser, b: byte): Parser { Consume(Settle(heap, p), b) }

  lemma SettleKeeps(heap: Heap, p: Parser)
    requires Running(p)
    ensures var q := Settle(heap, p);
            && Running(q) && q.log == p.log && q.event == p.event && (q.stage == DataLen ==> q.sub < 4)
            && (q.stage == Data ==> !Needs(q.dataLen, q.store))
            && Settle(heap, q) == q
  {}

  lemma ConsumeKeeps(p: Parser, b: byte)
    requires Running(p) && (p.stage == DataLen ==> p.sub < 4) && (p.stage == Data ==> !Needs(p.dataLen, p.store))
    ensures var q := Consume(p, b);
            Valid(q) && p.log <= q.log && |q.log| <= |p.log| + 1 && (q.event == NoEvent <==> p.event == NoEvent)
  {}

  lemma BlockKeeps(p: Parser, block: seq<byte>)
    requires Running(p) && p.stage == Data && !Needs(p.dataLen, p.store) && |p.payload| + |block| <= p.dataLen
    ensures Running(p.(payload := p.payload + block, stage := if |p.payload| + |block| < p.dataLen then Data else Tail))
  {}

  lemma TakeKeeps(heap: Heap, p: Parser, b: byte)
    requires Running(p)
    ensures var q := Take(heap, p, b);
            Valid(q) && p.log <= q.log && |q.log| <= |p.log| + 1 && (q.event == NoEvent <==> p.event == NoEvent)
  {
    SettleKeeps(heap, p);
    ConsumeKeeps(Settle(heap, p), b);
  }

  function Taking(heap: Heap): (Parser, byte) -> Parser { (p: Parser, b: byte) => Take(heap, p, b) }

  function Feed(heap: Heap, p: Parser, s: seq<byte>): Parser { Run(Taking(heap), p, s) }

  /** The invariant, with the agreement of event and stage, over arbitrary bytes and whatever the allocator answers. */
  lemma {:induction false} FeedKeeps(heap: Heap, p: Parser, s: seq<byte>)
    requires Valid(p)
    ensures Valid(Feed(heap, p, s)) && p.log <= Feed(heap, p, s).log
    ensures Feed(heap, p, s).event == NoEvent <==> p.event == NoEvent
    decreases |s|
  {
    if s != [] {
      FeedKeeps(heap, p, s[..|s| - 1]);
      TakeKeeps(heap, Feed(heap, p, s[..|s| - 1]), s[|s| - 1]);
    }
  }

  lemma FeedSnoc(heap: Heap, p: Parser, s: seq<byte>, b: byte)
    ensures Feed(heap, p, s + [b]) == Take(heap, Feed(heap, p, s), b)
  {
    RunSnoc(Taking(heap), p, s, b);
  }

  lemma FeedConcat(heap: Heap, p: Parser, s: seq<byte>, t: seq<byte>)
    ensures Feed(heap, p, s + t) == Feed(heap, Feed(heap, p, s), t)
  {
    RunConcat(Taking(heap), p, s, t);
  }

  lemma FeedNone(heap: Heap, p: Parser)
    ensures Feed(heap, p, []) == p
  {}

  lemma FeedOne(heap: Heap, p: Parser, b: byte)
    ensures Feed(heap, p, [b]) == Take(heap, p, b)
  {
    FeedSnoc(heap, p, [], b);
    assert [] + [b] == [b];
  }

  /** Being settled first makes no difference to what the next bytes do. */
  lemma {:induction false} FeedSettled(heap: Heap, p: Parser, s: seq<byte>)
    requires Running(p) && s != []
    ensures Feed(heap, p, s) == Feed(heap, Settle(heap, p), s)
  {
    SettleKeeps(heap, p);
    assert s == [s[0]] + s[1..];
    FeedConcat(heap, p, [s[0]], s[1..]);
    FeedConcat(heap, Settle(heap, p), [s[0]], s[1..]);
    FeedOne(heap, p, s[0]);
    FeedOne(heap, Settle(heap, p), s[0]);
  }

  /** A block of data bytes that stays inside the payload is appended to it, whatever the bytes are. */
  lemma {:induction false} FeedBlock(heap: Heap, p: Parser, s: seq<byte>)
    requires p.stage == Data && !Needs(p.dataLen, p.store)
    requires s != [] && |p.payload| + |s| <= p.dataLen
    ensures Feed(heap, p, s)
         == p.(payload := p.payload + s, stage := if |p.payload| + |s| < p.dataLen then Data else Tail)
    decreases |s|
  {
    var front, b := s[..|s| - 1], s[|s| - 1];
    assert s == front + [b];
    if front != [] {
      FeedBlock(heap, p, front);
      assert p.payload + s == (p.payload + front) + [b];
    }
    FeedSnoc(heap, p, front, b);
  }
}
