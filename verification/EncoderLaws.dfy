/** What follows for pushPacket from the pacing of its flushes: which returns are possible,
    what they say about the sink, and when a call is certain to succeed. */
module EncoderLaws {
  import opened Slip
  import opened EncoderSpec

  /** How often the sink has refused a byte. */
  function Refusals(s: Enc): int {
    |s.offered| - |s.accepted|
  }

  /** After a successful flush there is a free place, unless the encoder cannot send at all. */
  predicate Settled(cap: nat, s: Enc) {
    |s.queue| < cap || s.chunk == 0 || s.queue == []
  }

  /** Pacing or capacity leaves no room for an escape pair. */
  predicate Starved(cap: nat, s: Enc) {
    s.chunk == 0 || cap < 2
  }

  lemma FlushSettles(cap: nat, sink: Sink, s: Enc)
    requires |s.queue| <= cap
    ensures Flush(sink, s).status == Ok ==> Settled(cap, Flush(sink, s).enc)
  {
    FlushLaw(sink, s);
  }

  // -------------------------------------------------------- statuses and the sink

  /** How a stage leading from `s` to `t` with `status` relates to the sink's answers: success
      means no refusal; failure means one refusal, with that very status, or none at all,
      and then it is a RetryLater for lack of room in a starved encoder. */
  predicate Answered(cap: nat, sink: Sink, s: Enc, t: Enc, status: Status) {
    && t.chunk == s.chunk
    && if status == Ok then Refusals(t) == Refusals(s)
       else if Refusals(t) == Refusals(s) then status == RetryLater && Starved(cap, s)
       else Refusals(t) == Refusals(s) + 1 && sink(t.offered) == status
  }

  lemma FlushAnswered(cap: nat, sink: Sink, s: Enc)
    ensures var f := Flush(sink, s); Answered(cap, sink, s, f.enc, f.status)
    ensures var f := Flush(sink, s); f.status != Ok ==> Refusals(f.enc) == Refusals(s) + 1
  {
    FlushLaw(sink, s);
  }

  lemma EnsureFreeAnswered(cap: nat, sink: Sink, s: Enc, n: nat)
    requires |s.queue| <= cap && Settled(cap, s) && 1 <= n <= 2
    ensures var e := EnsureFree(cap, sink, s, n);
            && Answered(cap, sink, s, e.enc, e.status)
            && e.enc.endPending == s.endPending
            && (n == 1 ==> Refusals(e.enc) == Refusals(s))
            && (n == 1 && e.status != Ok ==> e.status == RetryLater && (s.chunk == 0 || cap == 0))
  {
    FlushLaw(sink, s);
  }

  lemma EndAnswered(cap: nat, sink: Sink, s: Enc, i: nat, onError: Status)
    requires |s.queue| <= cap && Settled(cap, s)
    ensures var r := PushEnd(cap, sink, s, i, onError);
            && Answered(cap, sink, s, r.enc, r.status)
            && r == PushEnd(cap, sink, s, i, Error)
            && (r.enc.endPending ==> s.endPending || s.chunk == 0 || cap == 0)
  {
    var e := EnsureFree(cap, sink, s, 1);
    EnsureFreeAnswered(cap, sink, s, 1);
    if e.status == Ok {
      FlushAnswered(cap, sink, Queue(e.enc, [END]));
      FlushLaw(sink, Queue(e.enc, [END]));
    }
  }

  lemma EncodeOneAnswered(cap: nat, sink: Sink, s: Enc, b: byte)
    requires |s.queue| <= cap && Settled(cap, s)
    ensures var e := EncodeOne(cap, sink, s, b);
            Answered(cap, sink, s, e.enc, e.status) && e.enc.endPending == s.endPending
  {
    EnsureFreeAnswered(cap, sink, s, |EscapeByte(b)|);
  }

  lemma {:induction false} PayloadAnswered(cap: nat, sink: Sink, s: Enc, data: seq<byte>, i: nat, onError: Status)
    requires |s.queue| <= cap && Settled(cap, s) && i <= |data|
    ensures var r := PushPayload(cap, sink, s, data, i, onError);
            && Answered(cap, sink, s, r.enc, r.status)
            && r == PushPayload(cap, sink, s, data, i, Error)
            && (r.enc.endPending ==> s.endPending || s.chunk == 0 || cap == 0)
    decreases |data| - i
  {
    hide PushEnd, EncodeOne, Flush;
    if i == |data| {
      EndAnswered(cap, sink, s, i, onError);
      return;
    }
    var e := EncodeOne(cap, sink, s, data[i]);
    EncodeOneAnswered(cap, sink, s, data[i]);
    if e.status == Ok {
      var f := Flush(sink, e.enc);
      FlushAnswered(cap, sink, e.enc);
      FlushLaw(sink, e.enc);
      FlushSettles(cap, sink, e.enc);
      if f.status == Ok {
        PayloadAnswered(cap, sink, f.enc, data, i + 1, onError);
      }
    }
  }

  lemma PrepareAnswered(cap: nat, sink: Sink, s: Enc)
    requires |s.queue| <= cap
    ensures var p := Prepare(cap, sink, s);
            && Answered(cap, sink, s, p.enc, p.status)
            && (p.enc.endPending ==> s.endPending)
            && (p.status == Ok ==> Settled(cap, p.enc))
  {
    hide Flush, EnsureFree;
    var f := Flush(sink, s);
    FlushAnswered(cap, sink, s);
    FlushLaw(sink, s);
    FlushSettles(cap, sink, s);
    if f.status == Ok && f.enc.endPending {
      var e := EnsureFree(cap, sink, f.enc, 1);
      EnsureFreeAnswered(cap, sink, f.enc, 1);
      if e.status == Ok {
        var q := Queue(e.enc, [END]).(endPending := false);
        FlushAnswered(cap, sink, q);
        FlushLaw(sink, q);
        FlushSettles(cap, sink, q);
      }
    }
  }

  /** Every call meets at most one refusal, and reports it; a call that fails without one
      is a RetryLater of an encoder that cannot make room.  So with a chunk of at least one
      and a capacity of at least two, a call fails exactly when the sink refused a byte. */
  lemma PushAnswered(cap: nat, sink: Sink, s: Enc, data: seq<byte>)
    requires |s.queue| <= cap
    ensures var r := Push(cap, sink, s, data);
            && Answered(cap, sink, s, r.enc, r.status)
            && (!Starved(cap, s) ==> (r.status != Ok <==> Refusals(r.enc) == Refusals(s) + 1))
  {
    PrepareAnswered(cap, sink, s);
    var p := Prepare(cap, sink, s);
    if p.status == Ok {
      PayloadAnswered(cap, sink, p.enc, data, 0, Error);
    }
  }

  /** pushPacket and pushPacket_ex are the same operation.  Their different answers to an
      Error at the terminator never show, as the flush just before has succeeded. */
  lemma PushExAgrees(cap: nat, sink: Sink, s: Enc, data: seq<byte>)
    requires |s.queue| <= cap
    ensures PushEx(cap, sink, s, data) == Push(cap, sink, s, data)
  {
    PrepareAnswered(cap, sink, s);
    var p := Prepare(cap, sink, s);
    if p.status == Ok {
      PayloadAnswered(cap, sink, p.enc, data, 0, RetryLater);
    }
  }

  // ------------------------------------------------- the record of the conversation

  /** The bytes of a history that the sink answered with Ok. */
  function Agreed(sink: Sink, h: seq<byte>): seq<byte> {
    if h == [] then []
    else
      var k := |h| - 1;
      Agreed(sink, h[..k]) + if sink(h) == Ok then [h[k]] else []
  }

  /** `accepted` records exactly the bytes that the sink has agreed to take. */
  ghost predicate Honest(sink: Sink, s: Enc) {
    s.accepted == Agreed(sink, s.offered)
  }

  lemma {:induction false} FlushHonest(sink: Sink, s: Enc, budget: nat)
    requires Honest(sink, s)
    ensures Honest(sink, FlushUpTo(sink, s, budget).enc)
    decreases budget
  {
    if s.queue != [] && budget > 0 {
      var h := s.offered + [s.queue[0]];
      assert h[..|h| - 1] == s.offered;
      if sink(h) == Ok {
        FlushHonest(sink, Taken(s), budget - 1);
      }
    }
  }

  lemma EnsureFreeHonest(cap: nat, sink: Sink, s: Enc, n: nat)
    requires |s.queue| <= cap && Honest(sink, s)
    ensures Honest(sink, EnsureFree(cap, sink, s, n).enc)
  {
    FlushHonest(sink, s, s.chunk);
  }

  lemma {:induction false} PayloadHonest(cap: nat, sink: Sink, s: Enc, data: seq<byte>, i: nat, onError: Status)
    requires |s.queue| <= cap && Honest(sink, s) && i <= |data|
    ensures Honest(sink, PushPayload(cap, sink, s, data, i, onError).enc)
    decreases |data| - i
  {
    hide FlushUpTo, Agreed;
    if i == |data| {
      EnsureFreeHonest(cap, sink, s, 1);
      var q := Queue(EnsureFree(cap, sink, s, 1).enc, [END]);
      FlushHonest(sink, q, q.chunk);
    } else {
      EnsureFreeHonest(cap, sink, s, |EscapeByte(data[i])|);
      var e := EncodeOne(cap, sink, s, data[i]);
      FlushHonest(sink, e.enc, e.enc.chunk);
      if e.status == Ok && Flush(sink, e.enc).status == Ok {
        PayloadHonest(cap, sink, Flush(sink, e.enc).enc, data, i + 1, onError);
      }
    }
  }

  lemma PushHonest(cap: nat, sink: Sink, s: Enc, data: seq<byte>)
    requires |s.queue| <= cap && Honest(sink, s)
    ensures Honest(sink, Push(cap, sink, s, data).enc)
  {
    hide FlushUpTo, Agreed, PushPayload;
    FlushHonest(sink, s, s.chunk);
    var f := Flush(sink, s);
    EnsureFreeHonest(cap, sink, f.enc, 1);
    var q := Queue(EnsureFree(cap, sink, f.enc, 1).enc, [END]).(endPending := false);
    FlushHonest(sink, q, q.chunk);
    var p := Prepare(cap, sink, s);
    if p.status == Ok {
      PayloadHonest(cap, sink, p.enc, data, 0, Error);
    }
  }

  // -------------------------------------------------------------- the pending END

  /** With capacity and chunk of at least one no terminator is ever left pending. */
  lemma NeverPending(cap: nat, sink: Sink, s: Enc, data: seq<byte>)
    requires |s.queue| <= cap && 1 <= cap && 1 <= s.chunk && !s.endPending
    ensures !Push(cap, sink, s, data).enc.endPending
  {
    PrepareAnswered(cap, sink, s);
    var p := Prepare(cap, sink, s);
    if p.status == Ok {
      PayloadAnswered(cap, sink, p.enc, data, 0, Error);
    }
  }

  /** With a chunk of zero the sink is never asked and the outcome is decided by space
      alone: the terminator is left pending exactly when the payload fills the queue. */
  lemma {:induction false} ZeroChunkPayload(cap: nat, sink: Sink, s: Enc, data: seq<byte>, i: nat)
    requires |s.queue| <= cap && s.chunk == 0 && !s.endPending && i <= |data|
    ensures var r := PushPayload(cap, sink, s, data, i, Error);
            && r.enc.accepted == s.accepted && r.enc.offered == s.offered
            && (r.enc.endPending <==> |s.queue| + |Escape(data[i..])| == cap)
            && (r.status == Ok <==> |s.queue| + |Encode(data[i..])| <= cap)
    decreases |data| - i
  {
    if i < |data| {
      assert data[i..][1..] == data[i + 1..];
      EncodedSize(data[i + 1..]);
      if |s.queue| + |EscapeByte(data[i])| <= cap {
        ZeroChunkPayload(cap, sink, Queue(s, EscapeByte(data[i])), data, i + 1);
      }
    }
  }

  lemma ZeroChunkLaw(cap: nat, sink: Sink, s: Enc, data: seq<byte>)
    requires |s.queue| <= cap && s.chunk == 0 && !s.endPending
    ensures var r := Push(cap, sink, s, data);
            && r.enc.accepted == s.accepted && r.enc.offered == s.offered
            && (r.enc.endPending <==> |s.queue| + |Escape(data)| == cap)
            && (r.status == Ok <==> |s.queue| + |Encode(data)| <= cap)
  {
    ZeroChunkPayload(cap, sink, s, data, 0);
    assert data[0..] == data;
  }

  lemma {:induction false} PlainSize(k: nat)
    ensures var p := seq(k, _ => 0 as byte); |Escape(p)| == k
  {
    if k > 0 {
      PlainSize(k - 1);
      assert seq(k, _ => 0 as byte)[1..] == seq(k - 1, _ => 0 as byte);
    }
  }

  /** A fresh encoder can be brought to leave its terminator pending exactly when it was
      configured without capacity or without pacing budget. */
  lemma PendingReachableIff(cap: nat, chunk: nat, sink: Sink)
    ensures (exists data :: Push(cap, sink, Fresh(chunk), data).enc.endPending) <==> cap == 0 || chunk == 0
  {
    if cap == 0 {
      var r := Push(cap, sink, Fresh(chunk), []);
      FlushLaw(sink, Fresh(chunk));
      assert r.enc.endPending;
    } else if chunk == 0 {
      var data := seq(cap, _ => 0 as byte);
      PlainSize(cap);
      ZeroChunkLaw(cap, sink, Fresh(chunk), data);
      assert Push(cap, sink, Fresh(chunk), data).enc.endPending;
    } else {
      forall data ensures !Push(cap, sink, Fresh(chunk), data).enc.endPending {
        NeverPending(cap, sink, Fresh(chunk), data);
      }
    }
  }

  // ----------------------------------------------- a retry with everything consumed

  /** The status and count alone do not tell: the same RetryLater with everything consumed
      comes with the terminator still to be queued and with it queued already. */
  lemma RetryIsAmbiguous()
    ensures var early: Sink := h => if |h| == 1 then RetryLater else Ok;
            var late: Sink := h => if |h| == 2 then RetryLater else Ok;
            && Push(2, early, Fresh(1), [1]) == Pushed(Enc([1], false, 1, [1], []), RetryLater, 1, false)
            && Push(2, late, Fresh(1), [1]) == Pushed(Enc([END], false, 1, [1, END], [1]), RetryLater, 1, true)
  {
  }

  // -------------------------------------------------------------------- progress

  ghost predicate Accepting(sink: Sink) {
    forall h :: sink(h) == Ok
  }

  /** Room for the frame of `data`: without pacing budget it must fit into the queue as it
      stands; otherwise only the largest escape sequence needs to fit. */
  predicate HasRoom(cap: nat, s: Enc, data: seq<byte>) {
    if s.chunk == 0 then |s.queue| + (if s.endPending then 1 else 0) + |Encode(data)| <= cap
    else cap >= 2 || (cap == 1 && SpecialCount(data) == 0)
  }

  lemma OneSlotFlush(sink: Sink, s: Enc)
    requires Accepting(sink) && |s.queue| <= 1 && 1 <= s.chunk
    ensures var f := Flush(sink, s); f.status == Ok && f.enc.queue == [] && f.enc.chunk == s.chunk
  {
    FlushLaw(sink, s);
  }

  lemma OneSlotEncode(sink: Sink, s: Enc, b: byte)
    requires Accepting(sink) && s.queue == [] && 1 <= s.chunk
    ensures var e := EncodeOne(1, sink, s, b);
            (e.status == Ok <==> !Special(b)) && |e.enc.queue| <= 1 && e.enc.chunk == s.chunk
  {
  }

  lemma OneSlotEnd(sink: Sink, s: Enc, i: nat)
    requires Accepting(sink) && s.queue == [] && 1 <= s.chunk
    ensures PushEnd(1, sink, s, i, Error).status == Ok
  {
    OneSlotFlush(sink, Queue(s, [END]));
  }

  lemma {:induction false} OneSlotPayload(sink: Sink, s: Enc, data: seq<byte>, i: nat)
    requires Accepting(sink) && s.queue == [] && 1 <= s.chunk && i <= |data|
    ensures PushPayload(1, sink, s, data, i, Error).status == Ok <==> SpecialCount(data[i..]) == 0
    decreases |data| - i
  {
    hide Flush, EncodeOne, PushEnd;
    if i == |data| {
      OneSlotEnd(sink, s, i);
      return;
    }
    assert data[i..][1..] == data[i + 1..];
    OneSlotEncode(sink, s, data[i]);
    var e := EncodeOne(1, sink, s, data[i]);
    if e.status == Ok {
      OneSlotFlush(sink, e.enc);
      OneSlotPayload(sink, Flush(sink, e.enc).enc, data, i + 1);
    }
  }

  lemma OneSlotLaw(sink: Sink, s: Enc, data: seq<byte>)
    requires Accepting(sink) && |s.queue| <= 1 && 1 <= s.chunk
    ensures Push(1, sink, s, data).status == Ok <==> SpecialCount(data) == 0
  {
    hide Flush;
    OneSlotFlush(sink, s);
    OneSlotFlush(sink, Queue(Flush(sink, s).enc, [END]).(endPending := false));
    assert data[0..] == data;
    OneSlotPayload(sink, Prepare(1, sink, s).enc, data, 0);
  }

  /** Against a sink that accepts everything, one call sends the packet exactly when the
      encoder has room for it, whatever state the encoder is in. */
  lemma PushOkIff(cap: nat, sink: Sink, s: Enc, data: seq<byte>)
    requires |s.queue| <= cap && Accepting(sink)
    ensures Push(cap, sink, s, data).status == Ok <==> HasRoom(cap, s, data)
    ensures HasRoom(cap, s, data) ==> Push(cap, sink, s, data).consumed == |data|
  {
    PushConserves(cap, sink, s, data, Error);
    if s.chunk == 0 {
      EncodedSize(data);
      if s.endPending && |s.queue| < cap {
        var q := Queue(s, [END]).(endPending := false);
        ZeroChunkPayload(cap, sink, q, data, 0);
        assert data[0..] == data;
      } else if !s.endPending {
        ZeroChunkLaw(cap, sink, s, data);
      }
    } else if cap == 0 {
      FlushLaw(sink, s);
    } else if cap == 1 {
      OneSlotLaw(sink, s, data);
    } else {
      PushAnswered(cap, sink, s, data);
    }
  }
}
