/** The frame that src/ipc_server.c puts on the wire: the begin tag, the sequence number,
    the command, the payload length as four big-endian bytes, the payload and the end tag. */
module IpcWire {
  import opened Words

  const BEGIN_TAG: seq<byte> := [0x53, 0x54, 0x58]  // "STX"
  const END_TAG: seq<byte> := [0x45, 0x54, 0x58]    // "ETX"
  const TAG_SIZE: nat := 3
  const HEADER_SIZE: nat := 9
  const INT32: nat := 0x8000_0000
  const IPC_CMD_MAX: nat := 5
  const CPLUS_FAIL: int := -1

  /** A complete packet; data_len is the length of the payload. */
  datatype Packet = Packet(seqn: byte, cmd: byte, payload: seq<byte>)

  /** A pointer argument: null, or the bytes it points to. */
  datatype Buffer = Null | Bytes(bytes: seq<byte>)

  /** The bytes of htonl(n) in memory order. */
  function BigEndian32(n: nat): (r: seq<byte>)
    requires n < UINT32
    ensures |r| == 4
  {
    [n / 256 / 256 / 256, n / 256 / 256 % 256, n / 256 % 256, n % 256]
  }

  /** The number that bytes stand for when the first one counts most. */
  function Value(bytes: seq<byte>): nat
    decreases |bytes|
  {
    if bytes == [] then 0 else Value(bytes[..|bytes| - 1]) * 256 + bytes[|bytes| - 1]
  }

  lemma BigEndianValue(n: nat)
    requires n < UINT32
    ensures Value(BigEndian32(n)) == n
  {
    var b := BigEndian32(n);
    assert b[..3][..2] == b[..2] && b[..2][..1] == b[..1] && b[..1][..0] == [];
    assert Value(b[..1]) == b[0] && Value(b[..2]) == Value(b[..1]) * 256 + b[1] && Value(b[..3]) == Value(b[..2]) * 256 + b[2];
  }

  function Encode(p: Packet): (r: seq<byte>)
    requires |p.payload| < UINT32
    ensures |r| == HEADER_SIZE + |p.payload| + TAG_SIZE
  {
    BEGIN_TAG + [p.seqn, p.cmd] + BigEndian32(|p.payload|) + p.payload + END_TAG
  }

  /** Every payload length fits the length field. */
  predicate Framable(ps: seq<Packet>) {
    forall i :: 0 <= i < |ps| ==> |ps[i].payload| < UINT32
  }

  function FrameSize(p: Packet): nat { HEADER_SIZE + |p.payload| + TAG_SIZE }

  function StreamSize(ps: seq<Packet>): nat {
    if ps == [] then 0 else FrameSize(ps[0]) + StreamSize(ps[1..])
  }

  function Stream(ps: seq<Packet>): (r: seq<byte>)
    requires Framable(ps)
    ensures |r| == StreamSize(ps)
  {
    if ps == [] then [] else Encode(ps[0]) + Stream(ps[1..])
  }

  /** How many of n bytes one send() with return value ret has put on the wire. */
  function Accepted(n: nat, ret: int): (k: nat)
    ensures k <= n && (k == n <==> n <= ret || n == 0)
    ensures (ret < 0 ==> k == 0) && (0 <= ret <= n ==> k == ret)
  {
    if ret < 0 then 0 else if ret < n then ret else n
  }

  /** The fields of a frame are sent one by one; how many bytes go out before the first short or failed send, from the
      i-th one on. */
  function Reach(sizes: seq<nat>, sends: nat -> int, i: nat): nat {
    if sizes == [] then 0
    else
      var k := Accepted(sizes[0], sends(i));
      k + if k == sizes[0] then Reach(sizes[1..], sends, i + 1) else 0
  }

  /** The fields that go to cplus_socket_send, which takes an int32 length and refuses one that is not positive: a payload
      of 2^31 bytes or more is never sent, nor what comes after it. */
  function FieldSizes(dataLen: nat): seq<nat> {
    [TAG_SIZE, 1, 1, 4] + if dataLen == 0 then [TAG_SIZE] else if dataLen < INT32 then [dataLen, TAG_SIZE] else []
  }

  lemma ReachSteps(x: nat, sizes: seq<nat>, sends: nat -> int, i: nat)
    ensures Reach([x] + sizes, sends, i) == Accepted(x, sends(i)) +
              if Accepted(x, sends(i)) == x then Reach(sizes, sends, i + 1) else 0
  {
    assert ([x] + sizes)[1..] == sizes;
  }

  lemma FieldsFit(dataLen: nat, sends: nat -> int)
    ensures var rest := FieldSizes(dataLen)[4..];
            && FieldSizes(dataLen) == [TAG_SIZE] + ([1] + ([1] + ([4] + rest)))
            && Reach(rest, sends, 4) == BodyReach(dataLen, sends)
  {
    var rest := FieldSizes(dataLen)[4..];
    if dataLen == 0 {
      assert rest == [TAG_SIZE] + [];
      ReachSteps(TAG_SIZE, [], sends, 4);
    } else if dataLen < INT32 {
      assert rest == [dataLen] + ([TAG_SIZE] + []);
      ReachSteps(dataLen, [TAG_SIZE] + [], sends, 4);
      ReachSteps(TAG_SIZE, [], sends, 5);
    }
  }

  /** How much of a header goes out. */
  function HeaderReach(sends: nat -> int): (k: nat)
    ensures k <= HEADER_SIZE
  {
    if Accepted(TAG_SIZE, sends(0)) < TAG_SIZE then Accepted(TAG_SIZE, sends(0))
    else if Accepted(1, sends(1)) < 1 then 3
    else if Accepted(1, sends(2)) < 1 then 4
    else 5 + Accepted(4, sends(3))
  }

  /** What goes out of a frame: as much of the header, and if that is all, of the rest. */
  lemma ReachFrame(dataLen: nat, sends: nat -> int)
    ensures Reach(FieldSizes(dataLen), sends, 0) ==
              HeaderReach(sends) + if HeaderReach(sends) < HEADER_SIZE then 0 else BodyReach(dataLen, sends)
  {
    hide Reach, Accepted;
    var rest := FieldSizes(dataLen)[4..];
    FieldsFit(dataLen, sends);
    ReachSteps(TAG_SIZE, [1] + ([1] + ([4] + rest)), sends, 0);
    ReachSteps(1, [1] + ([4] + rest), sends, 1);
    ReachSteps(1, [4] + rest, sends, 2);
    ReachSteps(4, rest, sends, 3);
  }

  /** The first four sends. */
  method SendHeader(seqn: byte, cmd: byte, dataLen: nat, sends: nat -> int) returns (wire: seq<byte>)
    requires dataLen < UINT32
    ensures wire == (BEGIN_TAG + [seqn, cmd] + BigEndian32(dataLen))[..HeaderReach(sends)]
  {
    hide BigEndian32;
    wire := BEGIN_TAG[..Accepted(TAG_SIZE, sends(0))];
    if |wire| != TAG_SIZE { return; }
    wire := wire + [seqn][..Accepted(1, sends(1))];
    if |wire| != 4 { return; }
    wire := wire + [cmd][..Accepted(1, sends(2))];
    if |wire| != 5 { return; }
    var order := BigEndian32(dataLen);
    wire := wire + order[..Accepted(4, sends(3))];
  }

  /** How much of data and end tag goes out, from the fifth send on. */
  function BodyReach(dataLen: nat, sends: nat -> int): (k: nat)
    ensures k <= dataLen + TAG_SIZE
  {
    if dataLen == 0 then Accepted(TAG_SIZE, sends(4))
    else if dataLen >= INT32 then 0
    else if Accepted(dataLen, sends(4)) < dataLen then Accepted(dataLen, sends(4))
    else dataLen + Accepted(TAG_SIZE, sends(5))
  }

  method SendBody(bytes: seq<byte>, sends: nat -> int) returns (wire: seq<byte>)
    ensures wire == (bytes + END_TAG)[..BodyReach(|bytes|, sends)]
  {
    wire := [];
    var i := 4;
    if 0 < |bytes| {
      if |bytes| >= INT32 { return; }
      wire := bytes[..Accepted(|bytes|, sends(i))];
      if |wire| != |bytes| { return; }
      i := i + 1;
    }
    wire := wire + END_TAG[..Accepted(TAG_SIZE, sends(i))];
  }

  /** The bytes that a pointer leads to; a packet without data may have none. */
  function Pointed(data: Buffer): seq<byte> { if data.Null? then [] else data.bytes }

  /** ipc_send_packet over a socket whose i-th send() returns sends(i), at most the number of bytes asked for. A command
      out of range, or a null pointer to data that is not empty, is refused. Otherwise the frame is sent field by field, and
      the first short or failed send ends it: on the wire is as much of it as was accepted until then, and the result is
      the length of the data exactly when that is all of it. */
  method SendPacket(seqn: byte, cmd: byte, dataLen: nat, data: Buffer, sends: nat -> int)
    returns (res: int, wire: seq<byte>)
    requires dataLen < UINT32 && (data.Bytes? ==> |data.bytes| == dataLen)
    ensures cmd >= IPC_CMD_MAX || (data.Null? && dataLen > 0) ==> wire == [] && res == CPLUS_FAIL
    ensures cmd < IPC_CMD_MAX && (data.Null? ==> dataLen == 0) ==>
              var frame := Encode(Packet(seqn, cmd, Pointed(data)));
              var k := Reach(FieldSizes(dataLen), sends, 0);
              && k <= |frame| && wire == frame[..k]
              && res == (if wire == frame then dataLen else CPLUS_FAIL)
              && (dataLen < INT32 && (forall i :: sends(i) >= UINT32) ==> wire == frame)
    ensures data.Bytes? ==> wire <= Encode(Packet(seqn, cmd, data.bytes))
    ensures data.Bytes? ==> (res != CPLUS_FAIL <==> wire == Encode(Packet(seqn, cmd, data.bytes)) && cmd < IPC_CMD_MAX)
    ensures res != CPLUS_FAIL ==> res == dataLen < INT32
  {
    wire, res := [], CPLUS_FAIL;
    if cmd >= IPC_CMD_MAX || (0 < dataLen && data.Null?) {
      return;
    }
    ghost var head := BEGIN_TAG + [seqn, cmd] + BigEndian32(dataLen);
    ghost var frame := Encode(Packet(seqn, cmd, Pointed(data)));
    ReachFrame(dataLen, sends);
    AllAccepted(dataLen, sends);
    hide Reach, FieldSizes, HeaderReach, BodyReach, BigEndian32;
    assert frame == head + (Pointed(data) + END_TAG);
    wire := SendHeader(seqn, cmd, dataLen, sends);
    TwoParts(head, Pointed(data) + END_TAG, HeaderReach(sends), BodyReach(dataLen, sends));
    if |wire| != HEADER_SIZE { return; }
    var body := SendBody(Pointed(data), sends);
    wire := wire + body;
    if |wire| != HEADER_SIZE + dataLen + TAG_SIZE { return; }
    res := dataLen;
  }

  /** A prefix of two sequences put together. */
  lemma TwoParts<T>(head: seq<T>, body: seq<T>, i: nat, j: nat)
    requires i <= |head| && j <= |body|
    ensures head[..i] == (head + body)[..i] && head + body[..j] == (head + body)[..|head| + j]
    ensures head[..|head|] == head
    ensures head + body == (head + body)[..|head| + |body|]
    ensures i < |head| ==> head[..i] != head + body
    ensures j < |body| ==> head + body[..j] != head + body
  {
    assert |head[..i]| < |head + body| || i == |head|;
    assert |head + body[..j]| < |head + body| || j == |body|;
  }

  lemma AllAccepted(dataLen: nat, sends: nat -> int)
    ensures (forall i :: sends(i) >= UINT32) && dataLen < INT32 ==>
              HeaderReach(sends) == HEADER_SIZE && BodyReach(dataLen, sends) == dataLen + TAG_SIZE
    ensures dataLen >= INT32 ==> BodyReach(dataLen, sends) == 0
  {}
}
