/** What the wait of a synchronous request does with each round, in time and in order: when it finds the reply, and what ends
    it without one. */
module IpcWait {
  import opened Words
  import opened IpcWire
  import opened IpcParser
  import opened IpcReceiver
  import opened IpcConnection
  import opened IpcClient

  /** recv() brings bytes in this round. */
  predicate BringsBytes(r: Receiver, round: Round)
    requires WellFormed(r)
  {
    Recv(r.offset, round.outcome).Received?
  }

  /** The receiver after the bytes of a round. */
  function Heard(heap: Heap, r: Receiver, round: Round): (q: Receiver)
    requires WellFormed(r)
    ensures WellFormed(q)
  {
    var outcome := Recv(r.offset, round.outcome);
    if !outcome.Received? then r
    else
      DeliverKeeps(heap, r, outcome.bytes);
      Deliver(heap, r, outcome.bytes)
  }

  /** The receiver after rounds that the wait has passed over. */
  function Carried(heap: Heap, r: Receiver, rounds: seq<Round>): (q: Receiver)
    requires WellFormed(r)
    ensures WellFormed(q)
    decreases |rounds|
  {
    if rounds == [] then r
    else
      ResetKeeps(Heard(heap, r, rounds[0]));
      Carried(heap, Reset(Heard(heap, r, rounds[0])), rounds[1..])
  }

  /** The request's own reply is there. */
  predicate Answered(request: byte, p: Parser) { p.event == Set && p.seqn == request }

  /** No packet is there, or one that is one or two numbers behind the request's. */
  predicate PassedOver(request: byte, p: Parser) {
    p.event == Set ==> p.seqn + 1 == request || p.seqn + 2 == request
  }

  /** The wait goes on after the i-th round, time apart. */
  ghost predicate Passes(heap: Heap, request: byte, r: Receiver, rounds: seq<Round>, i: nat)
    requires WellFormed(r) && i < |rounds|
  {
    var at := Carried(heap, r, rounds[..i]);
    BringsBytes(at, rounds[i]) && PassedOver(request, Heard(heap, at, rounds[i]).parser)
  }

  ghost predicate AllPass(heap: Heap, request: byte, r: Receiver, rounds: seq<Round>, k: nat)
    requires WellFormed(r) && k <= |rounds|
  {
    forall i :: 0 <= i < k ==> Passes(heap, request, r, rounds, i)
  }

  /** The first round decides: no bytes, no time left, the reply, a packet that is too far off, or on. */
  lemma {:induction false} FirstRound(heap: Heap, request: byte, timeout: nat, r: Receiver, rounds: seq<Round>)
    requires WellFormed(r) && rounds != []
    ensures var q, round, res := Heard(heap, r, rounds[0]), rounds[0], Await(heap, request, timeout, r, rounds);
            && (!BringsBytes(r, round) ==> res == (false, r.(offset := Start(r.offset))))
            && (BringsBytes(r, round) && round.elapsed >= timeout ==> res == (false, q))
            && (BringsBytes(r, round) && round.elapsed < timeout ==>
                  && (Answered(request, q.parser) ==> res == (true, q))
                  && (!Answered(request, q.parser) && !PassedOver(request, q.parser) ==> res == (false, q))
                  && (PassedOver(request, q.parser) ==>
                        WellFormed(Reset(q))
                        && res == Await(heap, request, timeout - round.elapsed, Reset(q), rounds[1..])))
  {
    hide Deliver, Valid;
    var q := Heard(heap, r, rounds[0]);
    ResetKeeps(q);
    if q.parser.event == Set && q.parser.seqn != request {
      ToleratedIff(request, q.parser.seqn);
    }
  }

  lemma {:induction false} CarriedNext(heap: Heap, r: Receiver, rounds: seq<Round>, i: nat)
    requires WellFormed(r) && i < |rounds|
    ensures WellFormed(Reset(Heard(heap, r, rounds[0])))
    ensures Carried(heap, r, rounds[..i + 1]) == Carried(heap, Reset(Heard(heap, r, rounds[0])), rounds[1..][..i])
    ensures TotalElapsed(rounds[..i + 1]) == rounds[0].elapsed + TotalElapsed(rounds[1..][..i])
  {
    ResetKeeps(Heard(heap, r, rounds[0]));
    assert rounds[..i + 1][1..] == rounds[1..][..i];
  }

  lemma {:induction false} PassesNext(heap: Heap, request: byte, r: Receiver, rounds: seq<Round>, i: nat)
    requires WellFormed(r) && 0 < i < |rounds|
    ensures WellFormed(Reset(Heard(heap, r, rounds[0])))
    ensures Passes(heap, request, r, rounds, i)
       <==> Passes(heap, request, Reset(Heard(heap, r, rounds[0])), rounds[1..], i - 1)
  {
    CarriedNext(heap, r, rounds, i - 1);
  }

  lemma PassesFirst(heap: Heap, request: byte, r: Receiver, rounds: seq<Round>)
    requires WellFormed(r) && rounds != []
    ensures Passes(heap, request, r, rounds, 0)
       <==> BringsBytes(r, rounds[0]) && PassedOver(request, Heard(heap, r, rounds[0]).parser)
  {
    assert rounds[..0] == [];
  }

  lemma {:induction false} AllPassNext(heap: Heap, request: byte, r: Receiver, rounds: seq<Round>, k: nat)
    requires WellFormed(r) && 0 < k <= |rounds|
    ensures WellFormed(Reset(Heard(heap, r, rounds[0])))
    ensures AllPass(heap, request, r, rounds, k)
       <==> Passes(heap, request, r, rounds, 0)
            && AllPass(heap, request, Reset(Heard(heap, r, rounds[0])), rounds[1..], k - 1)
  {
    hide Passes, Heard;
    ResetKeeps(Heard(heap, r, rounds[0]));
    var q := Reset(Heard(heap, r, rounds[0]));
    forall i | 0 < i < k
      ensures Passes(heap, request, r, rounds, i) <==> Passes(heap, request, q, rounds[1..], i - 1)
    {
      PassesNext(heap, request, r, rounds, i);
    }
    if AllPass(heap, request, q, rounds[1..], k - 1) && Passes(heap, request, r, rounds, 0) {
      forall i | 0 <= i < k ensures Passes(heap, request, r, rounds, i) {
        if i > 0 { assert Passes(heap, request, q, rounds[1..], i - 1); }
      }
    }
    if AllPass(heap, request, r, rounds, k) {
      forall i | 0 <= i < k - 1 ensures Passes(heap, request, q, rounds[1..], i) {
        assert Passes(heap, request, r, rounds, i + 1);
      }
    }
  }

  lemma NoRounds(heap: Heap, r: Receiver, rounds: seq<Round>)
    requires WellFormed(r)
    ensures rounds[..0] == [] && rounds[0..] == rounds && Carried(heap, r, rounds[..0]) == r && TotalElapsed(rounds[..0]) == 0
  {
    assert rounds[..0] == [];
  }

  /** Rounds that are passed over, in time, leave the wait with the time and the rounds that remain. */
  lemma {:induction false} WaitsOn(heap: Heap, request: byte, timeout: nat, r: Receiver, rounds: seq<Round>, k: nat)
    requires WellFormed(r) && k <= |rounds| && AllPass(heap, request, r, rounds, k)
    requires k > 0 ==> TotalElapsed(rounds[..k]) < timeout
    ensures var left := timeout - TotalElapsed(rounds[..k]);
            && left >= 0
            && Await(heap, request, timeout, r, rounds)
            == Await(heap, request, left, Carried(heap, r, rounds[..k]), rounds[k..])
    decreases k
  {
    hide Heard, Carried, Await, Passes, AllPass, TotalElapsed, PassedOver, Answered, BringsBytes;
    if k == 0 {
      NoRounds(heap, r, rounds);
    } else {
      var q := Heard(heap, r, rounds[0]);
      AllPassNext(heap, request, r, rounds, k);
      PassesFirst(heap, request, r, rounds);
      FirstRound(heap, request, timeout, r, rounds);
      CarriedNext(heap, r, rounds, k - 1);
      assert rounds[1..][k - 1..] == rounds[k..];
      NoRounds(heap, Reset(q), rounds[1..]);
      WaitsOn(heap, request, timeout - rounds[0].elapsed, Reset(q), rounds[1..], k - 1);
    }
  }

  /** The reply comes with the k-th round, in time, after rounds that are passed over. */
  ghost predicate RepliesAt(heap: Heap, request: byte, timeout: nat, r: Receiver, rounds: seq<Round>, k: nat)
    requires WellFormed(r) && k < |rounds|
  {
    var at := Carried(heap, r, rounds[..k]);
    && TotalElapsed(rounds[..k + 1]) < timeout && AllPass(heap, request, r, rounds, k)
    && BringsBytes(at, rounds[k]) && Answered(request, Heard(heap, at, rounds[k]).parser)
  }

  lemma {:induction false} ElapsedSnoc(rounds: seq<Round>, k: nat)
    requires k < |rounds|
    ensures TotalElapsed(rounds[..k + 1]) == TotalElapsed(rounds[..k]) + rounds[k].elapsed
    decreases |rounds|
  {
    if k == 0 {
      assert rounds[..1][1..] == [] && rounds[..0] == [];
    } else {
      ElapsedSnoc(rounds[1..], k - 1);
      assert rounds[..k + 1][1..] == rounds[1..][..k] && rounds[..k][1..] == rounds[1..][..k - 1];
    }
  }

  /** How the wait ends after rounds that are passed over in time: with the reply, too late, without bytes, or with a packet
      that is neither the reply nor close enough. */
  lemma {:induction false} WaitEnds(heap: Heap, request: byte, timeout: nat, r: Receiver, rounds: seq<Round>, k: nat)
    requires WellFormed(r) && k < |rounds| && AllPass(heap, request, r, rounds, k)
    requires k > 0 ==> TotalElapsed(rounds[..k]) < timeout
    ensures var at, res := Carried(heap, r, rounds[..k]), Await(heap, request, timeout, r, rounds);
            var q := Heard(heap, at, rounds[k]);
            && (!BringsBytes(at, rounds[k]) ==> res == (false, at.(offset := Start(at.offset))))
            && (BringsBytes(at, rounds[k]) && TotalElapsed(rounds[..k + 1]) >= timeout ==> res == (false, q))
            && (BringsBytes(at, rounds[k]) && TotalElapsed(rounds[..k + 1]) < timeout ==>
                  && (Answered(request, q.parser) ==> res == (true, q))
                  && (!Answered(request, q.parser) && !PassedOver(request, q.parser) ==> res == (false, q)))
  {
    hide Await, Heard, Carried;
    WaitsOn(heap, request, timeout, r, rounds, k);
    ElapsedSnoc(rounds, k);
    FirstRound(heap, request, timeout - TotalElapsed(rounds[..k]), Carried(heap, r, rounds[..k]), rounds[k..]);
  }

  lemma {:induction false} RepliesNext(heap: Heap, request: byte, timeout: nat, r: Receiver, rounds: seq<Round>, k: nat)
    requires WellFormed(r) && 0 < k < |rounds|
    ensures WellFormed(Reset(Heard(heap, r, rounds[0])))
    ensures RepliesAt(heap, request, timeout, r, rounds, k)
       <==> Passes(heap, request, r, rounds, 0) && rounds[0].elapsed < timeout
            && RepliesAt(heap, request, timeout - rounds[0].elapsed, Reset(Heard(heap, r, rounds[0])), rounds[1..], k - 1)
  {
    hide Heard, Carried, Passes, AllPass, TotalElapsed, Answered, BringsBytes;
    AllPassNext(heap, request, r, rounds, k);
    CarriedNext(heap, r, rounds, k - 1);
    CarriedNext(heap, r, rounds, k);
    assert rounds[1..][..k - 1 + 1] == rounds[1..][..k];
  }

  lemma RepliesFirst(heap: Heap, request: byte, timeout: nat, r: Receiver, rounds: seq<Round>)
    requires WellFormed(r) && rounds != []
    ensures RepliesAt(heap, request, timeout, r, rounds, 0)
       <==> rounds[0].elapsed < timeout && BringsBytes(r, rounds[0]) && Answered(request, Heard(heap, r, rounds[0]).parser)
  {
    NoRounds(heap, r, rounds);
    ElapsedSnoc(rounds, 0);
  }

  lemma NothingFound(heap: Heap, request: byte, timeout: nat, r: Receiver)
    requires WellFormed(r)
    ensures !Await(heap, request, timeout, r, []).0
  {}

  lemma {:induction false} FoundAt(heap: Heap, request: byte, timeout: nat, r: Receiver, rounds: seq<Round>) returns (k: nat)
    requires WellFormed(r) && Await(heap, request, timeout, r, rounds).0
    ensures k < |rounds| && RepliesAt(heap, request, timeout, r, rounds, k)
    decreases |rounds|
  {
    hide Heard, Carried, Await, Passes, RepliesAt, TotalElapsed, BringsBytes, Answered, PassedOver, WellFormed, Reset;
    NothingFound(heap, request, timeout, r);
    FirstRound(heap, request, timeout, r, rounds);
    PassesFirst(heap, request, r, rounds);
    RepliesFirst(heap, request, timeout, r, rounds);
    var q := Heard(heap, r, rounds[0]);
    if Answered(request, q.parser) {
      k := 0;
    } else {
      var j := FoundAt(heap, request, timeout - rounds[0].elapsed, Reset(q), rounds[1..]);
      k := j + 1;
      RepliesNext(heap, request, timeout, r, rounds, k);
    }
  }

  /** A request finds its reply if and only if it comes with some round, in time, after rounds that are passed over; what it
      finds is what has been received by then. */
  lemma {:induction false} AwaitIff(heap: Heap, request: byte, timeout: nat, r: Receiver, rounds: seq<Round>)
    requires WellFormed(r)
    ensures Await(heap, request, timeout, r, rounds).0
       <==> exists k :: 0 <= k < |rounds| && RepliesAt(heap, request, timeout, r, rounds, k)
    ensures forall k :: 0 <= k < |rounds| && RepliesAt(heap, request, timeout, r, rounds, k) ==>
              Await(heap, request, timeout, r, rounds)
              == (true, Heard(heap, Carried(heap, r, rounds[..k]), rounds[k]))
  {
    hide Await, Heard, Carried, AllPass;
    if Await(heap, request, timeout, r, rounds).0 {
      var k := FoundAt(heap, request, timeout, r, rounds);
    }
    forall k | 0 <= k < |rounds| && RepliesAt(heap, request, timeout, r, rounds, k)
      ensures Await(heap, request, timeout, r, rounds) == (true, Heard(heap, Carried(heap, r, rounds[..k]), rounds[k]))
    {
      ElapsedSnoc(rounds, k);
      WaitEnds(heap, request, timeout, r, rounds, k);
    }
  }
}
