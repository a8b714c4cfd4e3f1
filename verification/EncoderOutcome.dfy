/** How a pushPacket call ends, decided before the call: which answers of the sink make it
    start, reach its terminator and succeed.

    Without a refusal the course of a call is fixed by lengths alone: how much each flush
    takes off the queue, and where room has to be made.  So the outcome is a matter of
    whether the sink takes the bytes that are due by then. */
module EncoderOutcome {
  import opened Slip
  import opened EncoderSpec
  import opened EncoderLaws

  // ------------------------------------------------------------- asking the sink

  /** The sink takes every byte of `x`, offered one after the other behind history `h`. */
  ghost predicate Takes(sink: Sink, h: seq<byte>, x: seq<byte>) {
    forall k | 0 < k <= |x| :: sink(h + x[..k]) == Ok
  }

  lemma TakesNothing(sink: Sink, h: seq<byte>)
    ensures Takes(sink, h, [])
  {
  }

  lemma TakesConcat(sink: Sink, h: seq<byte>, x: seq<byte>, y: seq<byte>)
    ensures Takes(sink, h, x + y) <==> Takes(sink, h, x) && Takes(sink, h + x, y)
  {
    forall k | 0 < k <= |x| ensures (x + y)[..k] == x[..k] {
    }
    forall k | 0 < k <= |y| ensures h + (x + y)[..|x| + k] == h + x + y[..k] {
      assert (x + y)[..|x| + k] == x + y[..k];
    }
    if Takes(sink, h, x + y) {
      forall k | 0 < k <= |x| ensures sink(h + x[..k]) == Ok {
        assert sink(h + (x + y)[..k]) == Ok;
      }
      forall k | 0 < k <= |y| ensures sink(h + x + y[..k]) == Ok {
        assert sink(h + (x + y)[..|x| + k]) == Ok;
      }
    }
    if Takes(sink, h, x) && Takes(sink, h + x, y) {
      forall k | 0 < k <= |x + y| ensures sink(h + (x + y)[..k]) == Ok {
        if k > |x| {
          assert h + (x + y)[..|x| + (k - |x|)] == h + x + y[..k - |x|];
        }
      }
    }
  }

  /** Taking a longer prefix is taking a shorter one and then the rest. */
  lemma TakesPrefix(sink: Sink, h: seq<byte>, x: seq<byte>, m: nat, n: nat)
    requires m <= n <= |x|
    ensures Takes(sink, h, x[..n]) <==> Takes(sink, h, x[..m]) && Takes(sink, h + x[..m], x[m..][..n - m])
  {
    TakesConcat(sink, h, x[..m], x[m..][..n - m]);
    assert x[..n] == x[..m] + x[m..][..n - m];
  }

  lemma TakesOne(sink: Sink, h: seq<byte>, b: byte)
    ensures Takes(sink, h, [b]) <==> sink(h + [b]) == Ok
  {
    assert [b][..1] == [b];
    if sink(h + [b]) == Ok {
      forall k | 0 < k <= 1 ensures sink(h + [b][..k]) == Ok {
      }
    } else {
      assert sink(h + [b][..1]) != Ok;
    }
  }

  // --------------------------------------------------------- stages without refusal

  /** The first `k` queued bytes have gone out. */
  function Advance(s: Enc, k: nat): Enc
    requires k <= |s.queue|
  {
    s.(queue := s.queue[k..], offered := s.offered + s.queue[..k], accepted := s.accepted + s.queue[..k])
  }

  lemma AdvanceTwice(s: Enc, j: nat, bytes: seq<byte>, k: nat)
    requires j <= |s.queue| && j + k <= |s.queue| + |bytes|
    ensures Advance(Queue(Advance(s, j), bytes), k) == Advance(Queue(s, bytes), j + k)
  {
    SentTwice(s.offered, s.queue, j, bytes, k);
    SentTwice(s.accepted, s.queue, j, bytes, k);
  }

  lemma SentTwice(h: seq<byte>, queue: seq<byte>, j: nat, bytes: seq<byte>, k: nat)
    requires j <= |queue| && j + k <= |queue| + |bytes|
    ensures var q := queue + bytes; (queue[j..] + bytes)[k..] == q[j + k..]
    ensures h + queue[..j] + (queue[j..] + bytes)[..k] == h + (queue + bytes)[..j + k]
  {
    var q := queue + bytes;
    assert queue[j..] + bytes == q[j..];
    assert q[..j + k] == queue[..j] + q[j..][..k];
  }

  lemma {:induction false} FlushUpToOutcome(sink: Sink, s: Enc, budget: nat)
    ensures FlushUpTo(sink, s, budget).status == Ok <==> Takes(sink, s.offered, s.queue[..Min(budget, |s.queue|)])
    decreases budget
  {
    var k := Min(budget, |s.queue|);
    if k > 0 {
      var b := s.queue[0];
      TakesOne(sink, s.offered, b);
      TakesPrefix(sink, s.offered, s.queue, 1, k);
      assert s.queue[..1] == [b];
      FlushUpToOutcome(sink, Taken(s), budget - 1);
    }
  }

  lemma FlushOutcome(sink: Sink, s: Enc)
    ensures var k, f := Min(s.chunk, |s.queue|), Flush(sink, s);
            && (f.status == Ok <==> Takes(sink, s.offered, s.queue[..k]))
            && (f.status == Ok ==> f.enc == Advance(s, k))
  {
    FlushUpToOutcome(sink, s, s.chunk);
    FlushLaw(sink, s);
  }

  /** What a flush leaves of `q` queued bytes. */
  function Rest(chunk: nat, q: nat): nat {
    q - Min(chunk, q)
  }

  /** The queue length once there is room for `w` more bytes, if there can be. */
  function Room(cap: nat, chunk: nat, q: nat, w: nat): (r: Option<nat>)
    ensures r.Some? ==> r.value <= q && r.value + w <= cap
  {
    if q + w <= cap then Some(q)
    else if Rest(chunk, q) + w <= cap then Some(Rest(chunk, q))
    else None
  }

  lemma EnsureFreeOutcome(cap: nat, sink: Sink, s: Enc, w: nat)
    requires |s.queue| <= cap
    ensures var e, o := EnsureFree(cap, sink, s, w), Room(cap, s.chunk, |s.queue|, w);
            && (e.status == Ok <==> o.Some? && Takes(sink, s.offered, s.queue[..|s.queue| - o.value]))
            && (e.status == Ok ==> e.enc == Advance(s, |s.queue| - o.value))
  {
    hide Takes;
    FlushOutcome(sink, s);
    TakesNothing(sink, s.offered);
    assert s.queue[..0] == [] && s.queue[0..] == s.queue;
    assert s.offered + [] == s.offered && s.accepted + [] == s.accepted;
  }

  // ------------------------------------------------------------- the payload stage

  /** The queue length at the terminator after `data`, if the payload can get that far. */
  function Plan(cap: nat, chunk: nat, q: nat, data: seq<byte>): (r: Option<nat>)
    requires q <= cap
    ensures r.Some? ==> r.value <= cap && r.value <= q + |Escape(data)|
    decreases |data|
  {
    if data == [] then Some(q)
    else
      var w := |EscapeByte(data[0])|;
      match Room(cap, chunk, q, w)
      case None => None
      case Some(r) => Plan(cap, chunk, Rest(chunk, r + w), data[1..])
  }

  /** The bytes that have left by the time the terminator is queued. */
  function Before(x: seq<byte>, backlog: nat): seq<byte>
    requires backlog <= |x|
  {
    x[..|x| - backlog]
  }

  /** The bytes that have left when the last flush is through as well. */
  function Through(chunk: nat, x: seq<byte>, backlog: nat): (r: seq<byte>)
    requires backlog <= |x|
    ensures r <= x + [END]
  {
    (x + [END])[..|x| - backlog + Min(chunk, backlog + 1)]
  }

  /** Sending `a` bytes, queueing more and flushing is one longer stretch of offers. */
  lemma QueuedFlush(sink: Sink, s: Enc, a: nat, bytes: seq<byte>)
    requires a <= |s.queue|
    ensures var f, y := Flush(sink, Queue(Advance(s, a), bytes)), s.queue + bytes;
            var m := |y| - Rest(s.chunk, |y| - a);
            && (Takes(sink, s.offered, s.queue[..a]) && f.status == Ok <==> Takes(sink, s.offered, y[..m]))
            && (f.status == Ok ==> f.enc == Advance(Queue(s, bytes), m))
  {
    hide Takes, Flush;
    var y := s.queue + bytes;
    var m := |y| - Rest(s.chunk, |y| - a);
    var t := Queue(Advance(s, a), bytes);
    FlushOutcome(sink, t);
    assert t.queue == y[a..];
    assert y[..a] == s.queue[..a];
    TakesPrefix(sink, s.offered, y, a, m);
    AdvanceTwice(s, a, bytes, m - a);
  }

  /** One payload byte: the sink must take what its room and its flush send. */
  lemma ByteOutcome(cap: nat, sink: Sink, s: Enc, b: byte)
    requires |s.queue| <= cap
    ensures var e, o, w := EncodeOne(cap, sink, s, b), Room(cap, s.chunk, |s.queue|, |EscapeByte(b)|), |EscapeByte(b)|;
            var y := s.queue + EscapeByte(b);
            var m := if o.Some? then |y| - Rest(s.chunk, o.value + w) else 0;
            && (e.status == Ok && Flush(sink, e.enc).status == Ok <==> o.Some? && Takes(sink, s.offered, y[..m]))
            && (e.status == Ok && Flush(sink, e.enc).status == Ok ==>
                  Flush(sink, e.enc).enc == Advance(Queue(s, EscapeByte(b)), m))
  {
    hide Takes, Flush, EnsureFree, EscapeByte, Advance, Queue;
    var w := |EscapeByte(b)|;
    EnsureFreeOutcome(cap, sink, s, w);
    var o := Room(cap, s.chunk, |s.queue|, w);
    if o.Some? {
      QueuedFlush(sink, s, |s.queue| - o.value, EscapeByte(b));
    }
  }

  lemma EndOutcome(cap: nat, sink: Sink, s: Enc, i: nat)
    requires |s.queue| <= cap && Settled(cap, s)
    ensures var r, q := PushEnd(cap, sink, s, i, Error), |s.queue|;
            && r.terminated
            && (r.status == Ok <==> q < cap && Takes(sink, s.offered, Through(s.chunk, s.queue, q)))
            && (r.status == Ok ==> r.enc == Advance(Queue(s, [END]), |Through(s.chunk, s.queue, q)|))
  {
    hide Takes;
    if |s.queue| < cap {
      FlushOutcome(sink, Queue(s, [END]));
    } else {
      FlushLaw(sink, s);
    }
  }

  /** The payload stage reaches its terminator exactly if the plan exists and the sink takes
      what is due before it, and succeeds if it also takes what the last flush sends. */
  ghost predicate Decided(cap: nat, sink: Sink, s: Enc, x: seq<byte>, o: Option<nat>, r: Pushed) {
    && (o.Some? ==> o.value <= |x|)
    && (r.terminated <==> o.Some? && Takes(sink, s.offered, Before(x, o.value)))
    && (r.status == Ok <==> o.Some? && o.value < cap && Takes(sink, s.offered, Through(s.chunk, x, o.value)))
    && (r.status == Ok ==> r.enc == Advance(s.(queue := x + [END]), |Through(s.chunk, x, o.value)|))
  }

  /** What is decided for the bytes still to come is decided for all of them, once the sink
      has taken those before. */
  lemma DecidedLater(cap: nat, sink: Sink, s: Enc, x: seq<byte>, m: nat, o: Option<nat>, r: Pushed, t: Enc)
    requires m <= |x| && Takes(sink, s.offered, x[..m])
    requires t.(queue := x[m..]) == Advance(s.(queue := x), m)
    requires Decided(cap, sink, t, x[m..], o, r)
    ensures Decided(cap, sink, s, x, o, r)
  {
    hide Takes;
    if o.Some? {
      var b, y := o.value, x[m..];
      var k := |y| - b + Min(s.chunk, b + 1);
      TakesPrefix(sink, s.offered, x, m, |x| - b);
      TakesPrefix(sink, s.offered, x + [END], m, m + k);
      assert (x + [END])[..m] == x[..m];
      assert (x + [END])[m..] == y + [END];
      AdvanceTwice(s.(queue := x), m, [END], k);
    }
  }

  /** A refusal before anything else is due decides against everything. */
  lemma DecidedNever(cap: nat, sink: Sink, s: Enc, x: seq<byte>, m: nat, o: Option<nat>, r: Pushed)
    requires m <= |x| && !r.terminated && r.status != Ok
    requires o.Some? ==> !Takes(sink, s.offered, x[..m]) && m + o.value <= |x|
    ensures Decided(cap, sink, s, x, o, r)
  {
    hide Takes;
    if o.Some? {
      var b := o.value;
      TakesPrefix(sink, s.offered, x, m, |x| - b);
      TakesPrefix(sink, s.offered, x + [END], m, |x| - b + Min(s.chunk, b + 1));
      assert (x + [END])[..m] == x[..m];
    }
  }

  lemma DecidedAtEnd(cap: nat, sink: Sink, s: Enc, i: nat)
    requires |s.queue| <= cap && Settled(cap, s)
    ensures Decided(cap, sink, s, s.queue, Some(|s.queue|), PushEnd(cap, sink, s, i, Error))
  {
    hide Takes;
    EndOutcome(cap, sink, s, i);
    TakesNothing(sink, s.offered);
    assert Before(s.queue, |s.queue|) == [];
  }

  lemma PlanCons(cap: nat, chunk: nat, q: nat, data: seq<byte>)
    requires q <= cap && data != []
    ensures var w := |EscapeByte(data[0])|;
            Plan(cap, chunk, q, data) ==
            match Room(cap, chunk, q, w)
            case None => None
            case Some(r) => Plan(cap, chunk, Rest(chunk, r + w), data[1..])
  {
    hide Room, EscapeByte;
  }

  lemma {:induction false} PayloadOutcome(cap: nat, sink: Sink, s: Enc, data: seq<byte>, i: nat)
    requires |s.queue| <= cap && Settled(cap, s) && i <= |data|
    ensures Decided(cap, sink, s, s.queue + Escape(data[i..]), Plan(cap, s.chunk, |s.queue|, data[i..]),
                    PushPayload(cap, sink, s, data, i, Error))
    decreases |data| - i
  {
    hide Takes, Flush, EncodeOne, EscapeByte, PushEnd, Decided, Advance, Room;
    var rest := data[i..];
    if i == |data| {
      DecidedAtEnd(cap, sink, s, i);
      assert rest == [] && s.queue + Escape([]) == s.queue;
      return;
    }
    hide Plan, Escape;
    PlanCons(cap, s.chunk, |s.queue|, rest);
    EscapeRest(data, i, |data|);
    assert data[i..|data|] == rest && data[i + 1..|data|] == data[i + 1..];
    var esc := EscapeByte(data[i]);
    var y, x := s.queue + esc, s.queue + Escape(rest);
    assert rest[1..] == data[i + 1..];
    assert x == y + Escape(data[i + 1..]);
    ByteOutcome(cap, sink, s, data[i]);
    var o := Room(cap, s.chunk, |s.queue|, |esc|);
    var m := if o.Some? then |y| - Rest(s.chunk, o.value + |esc|) else 0;
    assert x[..m] == y[..m];
    var r := PushPayload(cap, sink, s, data, i, Error);
    var e := EncodeOne(cap, sink, s, data[i]);
    if e.status == Ok && Flush(sink, e.enc).status == Ok {
      var t := Flush(sink, e.enc).enc;
      FlushSettles(cap, sink, e.enc);
      AdvanceQueue(s, esc, Escape(data[i + 1..]), m);
      PayloadOutcome(cap, sink, t, data, i + 1);
      DecidedLater(cap, sink, s, x, m, Plan(cap, s.chunk, |s.queue|, rest), r, t);
    } else {
      DecidedNever(cap, sink, s, x, m, Plan(cap, s.chunk, |s.queue|, rest), r);
    }
  }

  lemma AdvanceQueue(s: Enc, a: seq<byte>, b: seq<byte>, m: nat)
    requires m <= |s.queue + a|
    ensures var t := Advance(Queue(s, a), m);
            && |t.queue| == |s.queue + a| - m && t.chunk == s.chunk
            && t.queue + b == (s.queue + a + b)[m..]
            && t.(queue := t.queue + b) == Advance(s.(queue := s.queue + a + b), m)
  {
    var y := s.queue + a;
    assert (y + b)[m..] == y[m..] + b && (y + b)[..m] == y[..m];
  }

  // ---------------------------------------------------------------- whole calls

  /** What the encoder owes before the call: its queue and a pending terminator. */
  function Owed(s: Enc): seq<byte> {
    s.queue + if s.endPending then [END] else []
  }

  /** The queue length after the first stage, if it can be completed. */
  function Opening(cap: nat, s: Enc): (r: Option<nat>)
    requires |s.queue| <= cap
    ensures r.Some? ==> r.value <= cap && r.value <= |Owed(s)|
  {
    var q := Rest(s.chunk, |s.queue|);
    if !s.endPending then Some(q)
    else if q < cap then Some(Rest(s.chunk, q + 1))
    else None
  }

  lemma PrepareOutcome(cap: nat, sink: Sink, s: Enc)
    requires |s.queue| <= cap
    ensures var p, o, x := Prepare(cap, sink, s), Opening(cap, s), Owed(s);
            && (p.status == Ok <==> o.Some? && Takes(sink, s.offered, Before(x, o.value)))
            && (p.status == Ok ==> p.enc == Advance(s.(queue := x, endPending := false), |x| - o.value))
  {
    hide Takes, Flush, EnsureFree;
    var f := Flush(sink, s);
    FlushOutcome(sink, s);
    var a := Min(s.chunk, |s.queue|);
    if !s.endPending {
      assert Owed(s) == s.queue;
    } else if f.status == Ok {
      FlushSettles(cap, sink, s);
      PendingOutcome(cap, sink, s, a);
    } else {
      var x := Owed(s);
      assert x[..a] == s.queue[..a];
      var o := Opening(cap, s);
      if o.Some? {
        TakesPrefix(sink, s.offered, x, a, |x| - o.value);
      }
    }
  }

  lemma PendingOutcome(cap: nat, sink: Sink, s: Enc, a: nat)
    requires |s.queue| <= cap && s.endPending && a == Min(s.chunk, |s.queue|)
    requires Settled(cap, Advance(s, a)) && Takes(sink, s.offered, s.queue[..a])
    ensures var t, o, x := Advance(s, a), Opening(cap, s), Owed(s);
            var e := EnsureFree(cap, sink, t, 1);
            var f := Flush(sink, Queue(e.enc, [END]).(endPending := false));
            && (e.status == Ok && f.status == Ok <==> o.Some? && Takes(sink, s.offered, Before(x, o.value)))
            && (e.status == Ok && f.status == Ok ==>
                  f.enc == Advance(s.(queue := x, endPending := false), |x| - o.value))
  {
    hide Takes, Flush;
    var t := Advance(s, a);
    var e := EnsureFree(cap, sink, t, 1);
    if |t.queue| < cap {
      assert e == Reply(t, Ok);
      var u := s.(endPending := false);
      assert Queue(t, [END]).(endPending := false) == Queue(Advance(u, a), [END]);
      QueuedFlush(sink, u, a, [END]);
    } else {
      FlushLaw(sink, t);
    }
  }

  /** The queue length at the terminator of a call that meets no refusal before it. */
  function Backlog(cap: nat, s: Enc, data: seq<byte>): (r: Option<nat>)
    requires |s.queue| <= cap
    ensures r.Some? ==> r.value <= cap && r.value <= |Owed(s) + Escape(data)|
  {
    match Opening(cap, s)
    case None => None
    case Some(q) => Plan(cap, s.chunk, q, data)
  }

  /** The outcome of every call, from the state and the sink before it: with x the bytes owed
      and the escaped payload, it reaches its terminator exactly if the sink takes all of x
      but the backlog, and succeeds exactly if there is room for END and the sink also takes
      what the last flush sends; the state after success is then known. */
  lemma PushOutcome(cap: nat, sink: Sink, s: Enc, data: seq<byte>)
    requires |s.queue| <= cap
    ensures Decided(cap, sink, s.(endPending := false), Owed(s) + Escape(data), Backlog(cap, s, data),
                    Push(cap, sink, s, data))
  {
    hide Takes, Prepare, Escape, Plan, Decided;
    var u, x := s.(endPending := false), Owed(s) + Escape(data);
    var p, o, r := Prepare(cap, sink, s), Opening(cap, s), Push(cap, sink, s, data);
    PrepareOutcome(cap, sink, s);
    PrepareAnswered(cap, sink, s);
    assert data[0..] == data;
    if p.status == Ok {
      var m := |Owed(s)| - o.value;
      AdvanceQueue(u.(queue := Owed(s)), [], Escape(data), m);
      assert Owed(s) + [] == Owed(s);
      assert x[..m] == Before(Owed(s), o.value);
      PayloadOutcome(cap, sink, p.enc, data, 0);
      DecidedLater(cap, sink, u, x, m, Backlog(cap, s, data), r, p.enc);
    } else if o.Some? {
      var m := |Owed(s)| - o.value;
      assert x[..m] == Before(Owed(s), o.value);
      DecidedNever(cap, sink, u, x, m, Backlog(cap, s, data), r);
    } else {
      DecidedNever(cap, sink, u, x, 0, None, r);
    }
  }

  /** The call will fail behind its terminator: the sink takes all that is due before it, and
      then there is no room for END or the sink refuses a byte of the last flush. */
  ghost predicate FailsBehindEnd(cap: nat, sink: Sink, s: Enc, data: seq<byte>)
    requires |s.queue| <= cap
  {
    var x, o := Owed(s) + Escape(data), Backlog(cap, s, data);
    && o.Some? && Takes(sink, s.offered, Before(x, o.value))
    && (o.value == cap || !Takes(sink, s.offered, Through(s.chunk, x, o.value)))
  }

  /** Exactly these calls close a packet and still ask for a retry, so that resuming closes
      it once more. */
  lemma SurplusIff(cap: nat, sink: Sink, s: Enc, data: seq<byte>)
    requires |s.queue| <= cap
    ensures var r := Push(cap, sink, s, data);
            r.terminated && r.status != Ok <==> FailsBehindEnd(cap, sink, s, data)
  {
    hide Takes, Push, Escape, Backlog;
    PushOutcome(cap, sink, s, data);
  }

  /** A successful push has flushed behind its terminator: it leaves nothing, or room for a
      whole chunk.  With a chunk of two or more and an empty queue before, the sink then has
      the whole frame. */
  lemma PushSends(cap: nat, sink: Sink, s: Enc, data: seq<byte>)
    requires |s.queue| <= cap && Push(cap, sink, s, data).status == Ok
    ensures var t := Push(cap, sink, s, data).enc;
            && (t.queue == [] || |t.queue| + s.chunk <= cap)
            && (2 <= s.chunk && s.queue == [] ==> t.queue == [] && t.accepted == Wire(s) + Encode(data))
  {
    hide Push, Plan, Takes, Escape;
    PushOutcome(cap, sink, s, data);
    if 2 <= s.chunk && s.queue == [] {
      PlanFromEmpty(cap, s.chunk, data);
      var x := Owed(s) + Escape(data);
      assert Through(s.chunk, x, 0) == x + [END];
      assert s.accepted + (x + [END]) == Wire(s) + Encode(data);
    }
  }

  // --------------------------------------------------------- the backlog in numbers

  /** A chunk of two or more keeps up with the payload: the backlog does not grow. */
  lemma {:induction false} PlanSteady(cap: nat, chunk: nat, q: nat, data: seq<byte>)
    requires 2 <= chunk && q + 2 <= cap
    ensures Plan(cap, chunk, q, data).Some? && Plan(cap, chunk, q, data).value <= q
    decreases |data|
  {
    if data != [] {
      PlanSteady(cap, chunk, Rest(chunk, q + |EscapeByte(data[0])|), data[1..]);
    }
  }

  lemma {:induction false} PlanFromEmpty(cap: nat, chunk: nat, data: seq<byte>)
    requires 2 <= chunk
    ensures Plan(cap, chunk, 0, data).Some? ==> Plan(cap, chunk, 0, data).value == 0
    decreases |data|
  {
    if data != [] {
      PlanFromEmpty(cap, chunk, data[1..]);
    }
  }

  /** A chunk of one falls behind by one byte per special byte, until the queue is full but
      for one place. */
  lemma {:induction false} PlanSlow(cap: nat, q: nat, data: seq<byte>)
    requires q < cap && 2 <= cap
    ensures Plan(cap, 1, q, data) == Some(Min(q + SpecialCount(data), cap - 1))
    decreases |data|
  {
    hide EscapeByte, Special;
    if data != [] {
      SlowStep(cap, q, data[0]);
      PlanSlow(cap, if Special(data[0]) then Min(q + 1, cap - 1) else q, data[1..]);
    }
  }

  lemma SlowStep(cap: nat, q: nat, b: byte)
    requires q < cap && 2 <= cap
    ensures var w := |EscapeByte(b)|;
            var o := Room(cap, 1, q, w);
            o.Some? && Rest(1, o.value + w) == if Special(b) then Min(q + 1, cap - 1) else q
  {
  }

  /** From an empty queue with a chunk of two or more, the surplus END comes from exactly one
      answer: the sink takes the escaped payload and refuses the END. */
  lemma SurplusFromEmpty(cap: nat, sink: Sink, s: Enc, data: seq<byte>)
    requires s.queue == [] && 2 <= cap && 2 <= s.chunk && !s.endPending
    ensures var r, h := Push(cap, sink, s, data), s.offered + Escape(data);
            r.terminated && r.status != Ok <==>
            (forall k | |s.offered| < k <= |h| :: sink(h[..k]) == Ok) && sink(h + [END]) != Ok
  {
    hide Push, Plan, Escape, Takes;
    SurplusIff(cap, sink, s, data);
    PlanSteady(cap, s.chunk, 0, data);
    var x := Escape(data);
    assert Owed(s) + x == x;
    assert Before(x, 0) == x && Through(s.chunk, x, 0) == x + [END];
    TakesConcat(sink, s.offered, x, [END]);
    TakesOne(sink, s.offered + x, END);
    TakesSpelled(sink, s.offered, x);
  }

  lemma TakesSpelled(sink: Sink, g: seq<byte>, x: seq<byte>)
    ensures var h := g + x;
            Takes(sink, g, x) <==> forall k | |g| < k <= |h| :: sink(h[..k]) == Ok
  {
    var h := g + x;
    forall k | 0 < k <= |x| ensures g + x[..k] == h[..|g| + k] {
    }
    if Takes(sink, g, x) {
      forall k | |g| < k <= |h| ensures sink(h[..k]) == Ok {
        assert h[..k] == g + x[..k - |g|];
      }
    }
    if forall k | |g| < k <= |h| :: sink(h[..k]) == Ok {
      forall k | 0 < k <= |x| ensures sink(g + x[..k]) == Ok {
        assert sink(h[..|g| + k]) == Ok;
      }
    }
  }
}
