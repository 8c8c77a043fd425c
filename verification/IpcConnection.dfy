/** struct ipc_conn of src/ipc_server.c and the functions that update it in place. */
module IpcConnection {
  import opened Words
  import opened IpcWire
  import opened IpcParser
  import opened IpcReceiver

  datatype Status = NotConnected | Connected | TimedOut | Fault

  /** The errno values that ipc_conn_proc tells apart. */
  datatype Errno = ENONE | ETIMEDOUT | ENOTCONN | EINTR | EOTHER

  /** What recv() does: deliver bytes, report that the peer has shut down, or fail. */
  datatype RecvOutcome = Received(bytes: seq<byte>) | Closed | Failed(error: Errno)

  function StatusAfter(error: Errno, was: Status): Status {
    match error
    case ETIMEDOUT => TimedOut
    case ENOTCONN => NotConnected
    case EINTR => was
    case _ => Fault
  }

  /** A connection that has timed out, that is gone, that was only interrupted, and all other faults. */
  predicate StatusFits(error: Errno, before: Status, now: Status) {
    && (now == TimedOut <==> error == ETIMEDOUT || (error == EINTR && before == TimedOut))
    && (now == NotConnected <==> error == ENOTCONN || (error == EINTR && before == NotConnected))
    && (now == Fault <==> error in {ENONE, EOTHER} || (error == EINTR && before == Fault))
  }

  /** What the disconnect and error callbacks are told. */
  datatype Notice = Disconnected | Failure(error: Errno)

  class Conn {
    var status: Status
    var sockError: Errno
    var recvStage: Stage
    var subOffset: nat
    var recvCount: int
    const recvBufs: array<byte>
    var recvBufsOffset: nat
    // struct ipc_conn_packet; its data pointer, once set, is packetDatabufs
    var seqn: byte
    var cmd: byte
    var dataLen: nat
    var packetDatabufs: Buffer
    var packetDatabufsSize: nat
    var packetDatabufsOffset: nat
    var evtPacketReceived: Event
    const heap: Heap
    var requests: nat
    ghost var log: seq<Packet>
    var hasSock: bool
    ghost var notices: seq<Notice>

    /** The part of the payload buffer that counts: in the DATA stage what has been copied, otherwise all data. */
    ghost function Filled(): seq<byte>
      reads this
    {
      var filled := if recvStage == Data then packetDatabufsOffset else dataLen;
      if packetDatabufs.Bytes? && filled <= |packetDatabufs.bytes| then packetDatabufs.bytes[..filled] else []
    }

    /** What has been copied of the packet's data. */
    ghost var payload: seq<byte>

    ghost function Abs(): Parser
      reads this
    {
      Parser(recvStage, subOffset, seqn, cmd, dataLen, payload,
             Store(packetDatabufs.Bytes?, packetDatabufsSize, requests), evtPacketReceived, log)
    }

    ghost function View(): Receiver
      reads this, recvBufs
    {
      Receiver(Abs(), recvBufs[..], recvBufsOffset)
    }

    /** What holds at every turn of the analysis loop. */
    ghost predicate Consistent()
      reads this
    {
      && recvBufs.Length == BUFFER_SIZE && recvBufsOffset <= BUFFER_SIZE
      && Running(Abs())
      && (packetDatabufs.Bytes? ==> |packetDatabufs.bytes| == packetDatabufsSize)
      && (recvStage == Data ==> packetDatabufsOffset == |payload|)
      && (recvStage != Data ==> packetDatabufsOffset == 0)
      && (recvStage == Data || recvStage == Tail || evtPacketReceived == Set ==> payload == Filled())
    }

    ghost predicate Valid()
      reads this, recvBufs
    {
      Consistent() && WellFormed(View()) && (status == NotConnected ==> recvCount <= 0)
    }

    /** ipc_conn_create: the event belongs to a synchronous connection, the receive task to an asynchronous one. */
    constructor (isAsync: bool, heap: Heap)
      ensures Valid() && fresh(recvBufs) && this.heap == heap
      ensures evtPacketReceived == (if isAsync then NoEvent else Clear) && recvStage == Head && subOffset == 0
      ensures View() == Fresh(!isAsync) && status == NotConnected && sockError == ENONE && hasSock && notices == []
    {
      this.heap := heap;
      status, sockError := NotConnected, ENONE;
      recvStage, subOffset, recvCount, recvBufsOffset := Head, 0, 0, 0;
      var bufs: array<byte> := new byte[BUFFER_SIZE](_ => 0);
      recvBufs := bufs;
      seqn, cmd, dataLen := 0, 0, 0;
      packetDatabufs, packetDatabufsSize, packetDatabufsOffset := Null, DEFAULT_PACKET_DATA_SIZE, 0;
      evtPacketReceived := if isAsync then NoEvent else Clear;
      requests := 0;
      log, payload := [], [];
      hasSock, notices := true, [];
      new;
      assert recvBufs[..] == Fresh(!isAsync).buf;
    }

    /** malloc, or realloc of a buffer that is then zeroed; memory not asked to be zeroed holds anything. */
    method Allocate(size: nat) returns (b: Buffer)
      modifies this`requests
      ensures requests == old(requests) + 1
      ensures b == Null || (b.Bytes? && |b.bytes| == size)
      ensures b.Bytes? <==> heap(old(requests))
    {
      b := if heap(requests) then Bytes(seq(size, _ => 0)) else Null;
      requests := requests + 1;
    }

    /** The DATA stage up to the null check. */
    method PreparePayload()
      requires Consistent() && recvStage == Data
      modifies this`packetDatabufs, this`packetDatabufsSize, this`requests, this`recvStage, this`subOffset,
        this`packetDatabufsOffset
      ensures Consistent() && Abs() == EnsureBuffer(heap, old(Abs()))
      ensures recvStage == Data ==> packetDatabufs.Bytes? && dataLen <= packetDatabufsSize
    {
      if dataLen > packetDatabufsSize {
        packetDatabufs := Allocate(dataLen);
        if packetDatabufs.Bytes? {
          packetDatabufsSize := dataLen;
        }
      } else if packetDatabufs.Null? {
        packetDatabufs := Allocate(packetDatabufsSize);
      }
      if packetDatabufs.Null? {
        recvStage, subOffset := Head, 0;
      }
      assert payload == [] ==> Filled() == [] || recvStage != Data;
    }

    /** The DATA stage after the null check: copy to the end of the payload or of the buffer. */
    method CopyPayload() returns (diff: nat)
      requires Consistent() && recvStage == Data && recvBufsOffset < BUFFER_SIZE
      requires packetDatabufs.Bytes? && dataLen <= packetDatabufsSize
      modifies this`packetDatabufs, this`packetDatabufsOffset, this`recvBufsOffset, this`recvStage, this`payload
      ensures Consistent()
      ensures diff == (var left := dataLen - |old(payload)|; var room := BUFFER_SIZE - old(recvBufsOffset);
                       if left < room then left else room)
      ensures recvBufsOffset == old(recvBufsOffset) + diff && diff > 0
      ensures var block := recvBufs[old(recvBufsOffset)..recvBufsOffset];
              Abs() == old(Abs()).(payload := old(payload) + block,
                                   stage := if |old(payload)| + diff < dataLen then Data else Tail)
    {
      PayloadFits(Abs());
      hide StageOk, Agreement;
      var left, room := dataLen - packetDatabufsOffset, BUFFER_SIZE - recvBufsOffset;
      diff := if left < room then left else room;
      var block := recvBufs[recvBufsOffset..recvBufsOffset + diff];
      BlockKeeps(Abs(), block);
      var bytes := packetDatabufs.bytes;
      var end := packetDatabufsOffset + diff;
      packetDatabufs := Bytes(CopiedIn(bytes, packetDatabufsOffset, block));
      payload := payload + block;
      packetDatabufsOffset := end;
      recvBufsOffset := recvBufsOffset + diff;
      assert payload == packetDatabufs.bytes[..end];
      if dataLen - packetDatabufsOffset <= 0 {
        recvStage := Tail;
        packetDatabufsOffset := 0;
      }
    }

    /** The HEAD stage: a byte of the begin tag, the last of which resets the event, or start over. */
    method TakeBegin(b: byte)
      requires Consistent() && recvStage == Head
      modifies this`recvStage, this`subOffset, this`evtPacketReceived
      ensures Consistent() && Abs() == Consume(old(Abs()), b)
    {
      ConsumeKeeps(Abs(), b);
      if TagByte(BEGIN_TAG, subOffset) == b {
        subOffset := subOffset + 1;
        if TAG_SIZE <= subOffset {
          if evtPacketReceived != NoEvent {
            evtPacketReceived := Clear;
          }
          recvStage, subOffset := Seqn, 0;
        }
      } else {
        recvStage, subOffset := Head, 0;
      }
    }

    /** The SEQN, CMD and DATA_LEN stages. */
    method TakeField(b: byte)
      requires Consistent() && (recvStage in {Seqn, Cmd} || (recvStage == DataLen && subOffset < 4))
      modifies this`recvStage, this`subOffset, this`seqn, this`cmd, this`dataLen
      ensures Consistent() && Abs() == Consume(old(Abs()), b)
    {
      hide ShiftIn, ShiftLeft;
      ConsumeKeeps(Abs(), b);
      if recvStage == Seqn {
        seqn, recvStage := b, Cmd;
      } else if recvStage == Cmd {
        cmd, recvStage := b, DataLen;
      } else {
        if subOffset == 0 {
          dataLen := 0;
        }
        ghost var before := dataLen;
        dataLen := ShiftLeft(dataLen, if subOffset == 0 then 0 else 8);
        dataLen := (dataLen + b) % UINT32;
        ShiftTwice(before, old(dataLen), subOffset == 0, b);
        subOffset := subOffset + 1;
      }
    }

    /** The TAIL stage: a byte of the end tag, or start over. At its last byte the packet, with the data in the
        payload buffer, is handed over and the event, if there is one, set. (Only a connection that is asynchronous
        and has an event would look at that byte again.) */
    method TakeEnd(b: byte)
      requires Consistent() && recvStage == Tail
      modifies this`recvStage, this`subOffset, this`evtPacketReceived, this`log
      ensures Consistent() && Abs() == Consume(old(Abs()), b)
    {
      ConsumeKeeps(Abs(), b);
      if TagByte(END_TAG, subOffset) == b {
        subOffset := subOffset + 1;
        if TAG_SIZE <= subOffset {
          recvStage, subOffset := Head, 0;
          log := log + [Packet(seqn, cmd, Filled())];
          if evtPacketReceived != NoEvent {
            evtPacketReceived := Set;
          }
        }
      } else {
        recvStage, subOffset := Head, 0;
      }
    }

    /** The length field is complete: go on to the data or to the tail. The test against MAX_PACKET_DATA_SIZE is
        in the source, and what it decides is overwritten by the lines after it. */
    method LeaveLength()
      requires Consistent() && recvStage == DataLen && subOffset == 4
      modifies this`recvStage, this`subOffset, this`payload
      ensures Consistent() && recvStage == (if dataLen > 0 then Data else Tail)
      ensures Settle(heap, Abs()) == Settle(heap, old(Abs()))
    {
      subOffset := 0;
      if MAX_PACKET_DATA_SIZE < dataLen {
        recvStage, subOffset := Head, 0;
      }
      if 0 < dataLen {
        recvStage := Data;
      } else {
        recvStage := Tail;
      }
      payload := [];
    }

    /** The stages that take the byte at recv_bufs_offset. */
    method TakeByte()
      requires Consistent() && recvBufsOffset < BUFFER_SIZE
      requires recvStage != Data && (recvStage == DataLen ==> subOffset < 4)
      modifies this`recvStage, this`subOffset, this`seqn, this`cmd, this`dataLen, this`evtPacketReceived,
        this`log, this`recvBufsOffset
      ensures Consistent() && recvBufsOffset == old(recvBufsOffset) + 1
      ensures Abs() == Consume(old(Abs()), recvBufs[old(recvBufsOffset)])
    {
      var b := recvBufs[recvBufsOffset];
      if recvStage == Head {
        TakeBegin(b);
      } else if recvStage == Tail {
        TakeEnd(b);
      } else {
        TakeField(b);
      }
      recvBufsOffset := recvBufsOffset + 1;
    }

    /** All stages but DATA. */
    method TakeFraming(ghost p: Parser, ghost o: nat, ghost walker: nat)
      requires Consistent() && recvStage != Data && recvBufsOffset < walker <= BUFFER_SIZE
      requires Progress(heap, p, recvBufs[..], o, walker, Abs(), recvBufsOffset)
      modifies this`recvStage, this`subOffset, this`seqn, this`cmd, this`dataLen, this`evtPacketReceived,
        this`log, this`recvBufsOffset, this`payload
      ensures Consistent()
      ensures Progress(heap, p, recvBufs[..], o, walker, Abs(), recvBufsOffset)
      ensures recvBufsOffset > old(recvBufsOffset)
        || (recvBufsOffset == old(recvBufsOffset) && old(recvStage) == DataLen && recvStage != DataLen)
    {
      hide Progress;
      ghost var cur, now := Abs(), recvBufsOffset;
      if recvStage == DataLen && subOffset == 4 {
        LeaveLength();
        ProgressSettle(heap, p, recvBufs[..], o, walker, cur, now, Abs());
      } else {
        TakeByte();
        ProgressByte(heap, p, recvBufs[..], o, walker, cur, now);
      }
    }

    /** The DATA stage. */
    method TakeData(ghost p: Parser, ghost o: nat, ghost walker: nat)
      requires Consistent() && recvStage == Data && recvBufsOffset < walker <= BUFFER_SIZE
      requires Progress(heap, p, recvBufs[..], o, walker, Abs(), recvBufsOffset)
      modifies this`packetDatabufs, this`packetDatabufsSize, this`requests, this`recvStage, this`subOffset,
        this`packetDatabufsOffset, this`recvBufsOffset, this`payload
      ensures Consistent()
      ensures Progress(heap, p, recvBufs[..], o, walker, Abs(), recvBufsOffset)
      ensures recvBufsOffset > old(recvBufsOffset) || (recvBufsOffset == old(recvBufsOffset) && recvStage == Head)
    {
      hide Progress, StageOk, Agreement;
      ghost var was := Abs();
      SettleKeeps(heap, was);
      PreparePayload();
      ghost var cur, now := Abs(), recvBufsOffset;
      ProgressSettle(heap, p, recvBufs[..], o, walker, was, now, cur);
      if recvStage == Data {
        var diff := CopyPayload();
        ProgressCopy(heap, p, recvBufs[..], o, walker, cur, now, diff, Abs());
      }
    }

    /** ipc_packet_analyze: the received bytes lie in recv_bufs between recv_bufs_offset and recv_count bytes later. */
    method Analyze()
      requires Valid() && 0 < recvCount <= BUFFER_SIZE - recvBufsOffset
      modifies this`recvStage, this`subOffset, this`seqn, this`cmd, this`dataLen, this`evtPacketReceived,
        this`log, this`recvBufsOffset, this`payload, this`packetDatabufs, this`packetDatabufsSize,
        this`packetDatabufsOffset, this`requests
      ensures Consistent()
      ensures Stopped(heap, old(Abs()), recvBufs[..], old(recvBufsOffset), old(recvBufsOffset) + recvCount,
                      Abs(), recvBufsOffset)
    {
      hide Progress, Stopped;
      ghost var p, o, buf := Abs(), recvBufsOffset, recvBufs[..];
      var walker := recvCount + recvBufsOffset;
      ProgressStart(heap, p, buf, o, walker);
      while recvBufsOffset < walker
        invariant Consistent() && recvBufs[..] == buf
        invariant Progress(heap, p, buf, o, walker, Abs(), recvBufsOffset)
        decreases if recvBufsOffset < walker then walker - recvBufsOffset else 0, Rank(recvStage)
      {
        if recvStage == Data {
          TakeData(p, o, walker);
        } else {
          TakeFraming(p, o, walker);
        }
      }
      ProgressDone(heap, p, buf, o, walker, Abs(), recvBufsOffset);
    }

    /** What ipc_conn_proc does when it has nothing to receive from, or nothing to analyze. */
    method Stop(outcome: RecvOutcome)
      requires Valid() && !outcome.Received? && recvBufsOffset < BUFFER_SIZE
      modifies this`recvCount, this`sockError, this`status, this`hasSock, this`notices
      ensures Valid() && View() == old(View()) && recvCount <= 0 && (outcome.Closed? <==> recvCount == 0)
      ensures status == (if outcome.Closed? then NotConnected else StatusAfter(outcome.error, old(status)))
      ensures outcome.Failed? ==> StatusFits(outcome.error, old(status), status)
      ensures sockError == if outcome.Failed? then outcome.error else old(sockError)
      ensures hasSock == (old(hasSock) && outcome.Failed?)
      ensures notices == old(notices) + [if outcome.Closed? then Disconnected else Failure(outcome.error)]
    {
      hide Running, StageOk;
      if outcome.Closed? {
        recvCount := 0;
        notices := notices + [Disconnected];
        hasSock, status := false, NotConnected;
      } else {
        recvCount, sockError := -1, outcome.error;
        status := StatusAfter(outcome.error, status);
        notices := notices + [Failure(outcome.error)];
      }
    }

    /** recv_bufs_offset goes back to the start when the buffer is full. */
    method Rewind()
      requires Valid()
      modifies this`recvBufsOffset
      ensures Valid() && recvBufsOffset < BUFFER_SIZE && View() == old(View()).(offset := Start(old(recvBufsOffset)))
    {
      if recvBufsOffset >= BUFFER_SIZE {
        recvBufsOffset := 0;
      }
    }

    /** ipc_conn_proc: one recv() into the free part of the buffer, and the analysis of what it delivered, or the notice
        that the peer has shut down or recv() has failed. recv() delivers no more bytes than there is room for. */
    method Proc(outcome: RecvOutcome)
      requires Valid() && (outcome.Received? ==> Room(recvBufsOffset, outcome.bytes))
      modifies this, recvBufs
      ensures Valid()
      ensures old(status) == NotConnected ==>
                && View() == old(View()) && status == NotConnected && recvCount == old(recvCount)
                && sockError == old(sockError) && notices == old(notices) && hasSock == old(hasSock)
      ensures old(status) != NotConnected && outcome.Received? ==>
                && View() == Deliver(heap, old(View()), outcome.bytes)
                && recvCount == |outcome.bytes| && status == Connected && sockError == ENONE
                && notices == old(notices) && hasSock == old(hasSock)
      ensures old(status) != NotConnected && !outcome.Received? ==>
                && View() == old(View()).(offset := Start(old(recvBufsOffset))) && recvCount <= 0
                && (outcome.Closed? <==> recvCount == 0)
                && status == (if outcome.Closed? then NotConnected else StatusAfter(outcome.error, old(status)))
                && (outcome.Failed? ==> sockError == outcome.error && StatusFits(outcome.error, old(status), status))
                && hasSock == (old(hasSock) && outcome.Failed?)
                && notices == old(notices) + [if outcome.Closed? then Disconnected else Failure(outcome.error)]
    {
      hide Deliver, Running, StageOk;
      if status == NotConnected {
        return;
      }
      ghost var r := View();
      if outcome.Received? {
        SameRoom(heap, r, outcome.bytes);
      }
      Rewind();
      if outcome.Received? {
        Receive(outcome.bytes);
      } else {
        Stop(outcome);
      }
    }

    /** The server or the client has set up the connection. */
    method Connect()
      requires Valid()
      modifies this`status
      ensures Valid() && View() == old(View()) && status == Connected
    {
      status := Connected;
    }

    /** recv() has delivered bytes: they lie behind recv_bufs_offset, and are analyzed. */
    method Receive(bytes: seq<byte>)
      requires Valid() && recvBufsOffset < BUFFER_SIZE && Room(recvBufsOffset, bytes)
      modifies this, recvBufs
      ensures Valid() && View() == Deliver(heap, old(View()), bytes)
      ensures recvCount == |bytes| && status == Connected && sockError == ENONE
      ensures notices == old(notices) && hasSock == old(hasSock)
    {
      hide Deliver, Stopped, StageOk, Agreement;
      ghost var r := View();
      Fill(bytes);
      recvCount := |bytes|;
      sockError, status := ENONE, Connected;
      Analyze();
      DeliverIsStopped(heap, r, bytes, View());
      DeliverKeeps(heap, r, bytes);
    }

    /** cplus_pevent_reset of the event. */
    method ResetEvent()
      requires Valid() && evtPacketReceived != NoEvent
      modifies this`evtPacketReceived
      ensures Valid() && View() == old(View()).(parser := old(Abs()).(event := Clear))
    {
      evtPacketReceived := Clear;
    }

    /** recv() writes the bytes behind recv_bufs_offset. */
    method Fill(bytes: seq<byte>)
      requires recvBufsOffset + |bytes| <= recvBufs.Length
      modifies recvBufs
      ensures recvBufs[..] == Overwrite(old(recvBufs[..]), recvBufsOffset, bytes)
    {
      forall i | 0 <= i < |bytes| {
        recvBufs[recvBufsOffset + i] := bytes[i];
      }
    }
  }

  /** Rewinding the buffer before receiving makes no difference. */
  lemma SameRoom(heap: Heap, r: Receiver, bytes: seq<byte>)
    requires WellFormed(r) && Room(r.offset, bytes)
    ensures WellFormed(r.(offset := Start(r.offset))) && Room(Start(r.offset), bytes)
    ensures Deliver(heap, r.(offset := Start(r.offset)), bytes) == Deliver(heap, r, bytes)
  {}

  lemma PayloadFits(p: Parser)
    requires Running(p) && p.stage == Data
    ensures |p.payload| < p.dataLen && p.event != Set && p.dataLen < UINT32
  {}

  /** memcpy into a buffer. */
  function CopiedIn(bytes: seq<byte>, at: nat, block: seq<byte>): (r: seq<byte>)
    requires at + |block| <= |bytes|
    ensures |r| == |bytes| && r[..at + |block|] == bytes[..at] + block
  {
    bytes[..at] + block + bytes[at + |block|..]
  }

  /** A uint32 shifted left by no bits or by one byte. */
  function ShiftLeft(n: nat, bits: nat): nat
    requires bits == 0 || bits == 8
  {
    if bits == 0 then n % UINT32 else n * 256 % UINT32
  }

  lemma ShiftTwice(cleared: nat, n: nat, first: bool, b: byte)
    requires cleared == if first then 0 else n
    ensures (ShiftLeft(cleared, if first then 0 else 8) + b) % UINT32 == ShiftIn(n, first, b)
  {}

  /** The transitions that consume no byte go down in rank. */
  function Rank(stage: Stage): nat { match stage case DataLen => 2 case Data => 1 case _ => 0 }

  const MAX_PACKET_DATA_SIZE: nat := 16 * BUFFER_SIZE
}
