/** The streaming encoder over values: the transmit queue as a sequence, the sink as an
    arbitrary function of everything it has been offered so far. */
module EncoderSpec {
  import opened Slip

  datatype Status = Ok | RetryLater | Error

  /** The output callback: its answer may depend on the whole history of offered bytes,
      whose last element is the byte in question. */
  type Sink = seq<byte> -> Status

  /** `offered` and `accepted` record the conversation with the sink. */
  datatype Enc = Enc(queue: seq<byte>, endPending: bool, chunk: nat,
                     offered: seq<byte>, accepted: seq<byte>)

  function Fresh(chunk: nat): Enc {
    Enc([], false, chunk, [], [])
  }

  datatype Reply = Reply(enc: Enc, status: Status)

  /** `terminated` says that the call got as far as the terminator of its packet, which is
      then queued or marked as pending. */
  datatype Pushed = Pushed(enc: Enc, status: Status, consumed: nat, terminated: bool)

  // ------------------------------------------------------------------ operations

  /** Offers up to `budget` queued bytes, stopping at the first refusal. */
  function FlushUpTo(sink: Sink, s: Enc, budget: nat): (r: Reply)
    ensures |r.enc.queue| <= |s.queue|
    decreases budget
  {
    if s.queue == [] || budget == 0 then Reply(s, Ok)
    else
      var offered := s.offered + [s.queue[0]];
      match sink(offered)
      case Ok => FlushUpTo(sink, Taken(s), budget - 1)
      case st => Reply(s.(offered := offered), st)
  }

  /** The sink takes the byte at the head of the queue. */
  function Taken(s: Enc): Enc
    requires s.queue != []
  {
    s.(queue := s.queue[1..], offered := s.offered + [s.queue[0]], accepted := s.accepted + [s.queue[0]])
  }

  lemma FlushUnfold(sink: Sink, s: Enc, budget: nat)
    ensures FlushUpTo(sink, s, budget) ==
            if s.queue == [] || budget == 0 then Reply(s, Ok)
            else
              var st := sink(s.offered + [s.queue[0]]);
              if st == Ok then FlushUpTo(sink, Taken(s), budget - 1)
              else Reply(s.(offered := s.offered + [s.queue[0]]), st)
  {
  }

  function Flush(sink: Sink, s: Enc): Reply {
    FlushUpTo(sink, s, s.chunk)
  }

  function EnsureFree(cap: nat, sink: Sink, s: Enc, n: nat): (r: Reply)
    requires |s.queue| <= cap
    ensures |r.enc.queue| <= cap && (r.status == Ok ==> |r.enc.queue| + n <= cap)
  {
    if cap - |s.queue| >= n then Reply(s, Ok)
    else
      var f := Flush(sink, s);
      if f.status != Ok then f
      else Reply(f.enc, if cap - |f.enc.queue| >= n then Ok else RetryLater)
  }

  function Queue(s: Enc, bytes: seq<byte>): Enc {
    s.(queue := s.queue + bytes)
  }

  /** Room is made for the whole escape sequence before any of it is queued. */
  function EncodeOne(cap: nat, sink: Sink, s: Enc, b: byte): (r: Reply)
    requires |s.queue| <= cap
    ensures |r.enc.queue| <= cap
  {
    var e := EnsureFree(cap, sink, s, |EscapeByte(b)|);
    if e.status != Ok then e else Reply(Queue(e.enc, EscapeByte(b)), Ok)
  }

  /** The last stage of pushPacket.  `onError` is the status reported when making room fails
      with Error: the plain variant says Error there, the _ex variant RetryLater. */
  function PushEnd(cap: nat, sink: Sink, s: Enc, i: nat, onError: Status): Pushed
    requires |s.queue| <= cap
  {
    var e := EnsureFree(cap, sink, s, 1);
    match e.status
    case RetryLater => Pushed(e.enc.(endPending := true), RetryLater, i, true)
    case Error => Pushed(e.enc, onError, i, false)
    case Ok => var f := Flush(sink, Queue(e.enc, [END])); Pushed(f.enc, f.status, i, true)
  }

  function PushPayload(cap: nat, sink: Sink, s: Enc, data: seq<byte>, i: nat, onError: Status): Pushed
    requires |s.queue| <= cap && i <= |data|
    decreases |data| - i
  {
    if i == |data| then PushEnd(cap, sink, s, i, onError)
    else
      var e := EncodeOne(cap, sink, s, data[i]);
      if e.status != Ok then Pushed(e.enc, e.status, i, false)
      else
        var f := Flush(sink, e.enc);
        if f.status != Ok then Pushed(f.enc, f.status, i + 1, false)
        else PushPayload(cap, sink, f.enc, data, i + 1, onError)
  }

  /** The first stage: flush, and get a terminator left over from an earlier call out. */
  function Prepare(cap: nat, sink: Sink, s: Enc): (r: Reply)
    requires |s.queue| <= cap
    ensures |r.enc.queue| <= cap
  {
    var f := Flush(sink, s);
    if f.status != Ok || !f.enc.endPending then f
    else
      var e := EnsureFree(cap, sink, f.enc, 1);
      if e.status != Ok then e
      else Flush(sink, Queue(e.enc, [END]).(endPending := false))
  }

  function PushWith(cap: nat, sink: Sink, s: Enc, data: seq<byte>, onError: Status): Pushed
    requires |s.queue| <= cap
  {
    var p := Prepare(cap, sink, s);
    if p.status != Ok then Pushed(p.enc, p.status, 0, false)
    else PushPayload(cap, sink, p.enc, data, 0, onError)
  }

  function Push(cap: nat, sink: Sink, s: Enc, data: seq<byte>): Pushed
    requires |s.queue| <= cap
  {
    PushWith(cap, sink, s, data, Error)
  }

  function PushEx(cap: nat, sink: Sink, s: Enc, data: seq<byte>): Pushed
    requires |s.queue| <= cap
  {
    PushWith(cap, sink, s, data, RetryLater)
  }

  // -------------------------------------------------------------------- flushing

  /** What a flush does, said without replaying it: a prefix of `k` queued bytes moves to
      the sink.  A successful flush sends all it may; an unsuccessful one has also offered
      the next byte, which the sink refused with the status returned and which stays queued. */
  predicate Flushed(sink: Sink, s: Enc, budget: nat, r: Reply) {
    var k := |s.queue| - |r.enc.queue|;
    && 0 <= k <= budget && k <= |s.queue|
    && r.enc == s.(queue := s.queue[k..], accepted := s.accepted + s.queue[..k], offered := r.enc.offered)
    && (r.status == Ok ==> (k == budget || k == |s.queue|) && r.enc.offered == s.offered + s.queue[..k])
    && (r.status != Ok ==> k < budget && k < |s.queue| && r.enc.offered == s.offered + s.queue[..k + 1]
                           && sink(r.enc.offered) == r.status)
  }

  lemma {:induction false} FlushUpToLaw(sink: Sink, s: Enc, budget: nat)
    ensures Flushed(sink, s, budget, FlushUpTo(sink, s, budget))
    decreases budget
  {
    var r := FlushUpTo(sink, s, budget);
    if s.queue == [] || budget == 0 {
      assert s.accepted + [] == s.accepted && s.offered + [] == s.offered;
    } else if sink(s.offered + [s.queue[0]]) == Ok {
      FlushUpToLaw(sink, Taken(s), budget - 1);
      FlushedTaken(sink, s, budget, r);
    } else {
      assert s.queue[..1] == [s.queue[0]];
      assert s.accepted + s.queue[..0] == s.accepted;
    }
  }

  lemma FlushedTaken(sink: Sink, s: Enc, budget: nat, r: Reply)
    requires s.queue != [] && budget > 0
    requires Flushed(sink, Taken(s), budget - 1, r)
    ensures Flushed(sink, s, budget, r)
  {
    var q := s.queue;
    var k := |q| - 1 - |r.enc.queue|;
    Shift(s.accepted, q, k);
    Shift(s.offered, q, k);
    if k < |q| - 1 {
      Shift(s.offered, q, k + 1);
    }
  }

  lemma Shift(a: seq<byte>, q: seq<byte>, k: nat)
    requires k < |q|
    ensures a + [q[0]] + q[1..][..k] == a + q[..k + 1] && q[1..][k..] == q[k + 1..]
  {
  }

  lemma FlushLaw(sink: Sink, s: Enc)
    ensures Flushed(sink, s, s.chunk, Flush(sink, s))
  {
    FlushUpToLaw(sink, s, s.chunk);
  }

  // ---------------------------------------------------------------- conservation

  /** Everything the encoder has committed to send, in order: what the sink took, what is
      queued, and a terminator still owed. */
  function Wire(s: Enc): seq<byte> {
    s.accepted + s.queue + if s.endPending then [END] else []
  }

  /** What every stage keeps. */
  predicate Keeps(cap: nat, s: Enc, t: Enc) {
    |t.queue| <= cap && t.chunk == s.chunk
  }

  lemma FlushConserves(sink: Sink, s: Enc)
    ensures var t := Flush(sink, s).enc; Wire(t) == Wire(s) && |t.queue| <= |s.queue|
                                         && t.chunk == s.chunk && t.endPending == s.endPending
  {
    FlushLaw(sink, s);
    var t := Flush(sink, s).enc;
    var k := |s.queue| - |t.queue|;
    assert s.queue == s.queue[..k] + s.queue[k..];
    assert t.accepted + t.queue == s.accepted + s.queue;
  }

  lemma EnsureFreeConserves(cap: nat, sink: Sink, s: Enc, n: nat)
    requires |s.queue| <= cap
    ensures var e := EnsureFree(cap, sink, s, n);
            && Wire(e.enc) == Wire(s) && Keeps(cap, s, e.enc) && e.enc.endPending == s.endPending
            && (e.status == Ok ==> cap - |e.enc.queue| >= n)
  {
    FlushConserves(sink, s);
  }

  lemma QueueConserves(s: Enc, bytes: seq<byte>)
    requires !s.endPending
    ensures Wire(Queue(s, bytes)) == Wire(s) + bytes
  {
  }

  lemma PrepareConserves(cap: nat, sink: Sink, s: Enc)
    requires |s.queue| <= cap
    ensures var p := Prepare(cap, sink, s);
            && Wire(p.enc) == Wire(s) && Keeps(cap, s, p.enc)
            && (p.status == Ok ==> !p.enc.endPending)
            && (p.enc.endPending ==> s.endPending)
  {
    FlushConserves(sink, s);
    var f := Flush(sink, s);
    if f.status == Ok && f.enc.endPending {
      var e := EnsureFree(cap, sink, f.enc, 1);
      EnsureFreeConserves(cap, sink, f.enc, 1);
      if e.status == Ok {
        var q := Queue(e.enc, [END]).(endPending := false);
        assert q.accepted + q.queue == e.enc.accepted + e.enc.queue + [END];
        FlushConserves(sink, q);
      }
    }
  }

  lemma EndConserves(cap: nat, sink: Sink, s: Enc, i: nat, onError: Status)
    requires |s.queue| <= cap && !s.endPending
    ensures var r := PushEnd(cap, sink, s, i, onError);
            && Wire(r.enc) == Wire(s) + (if r.terminated then [END] else [])
            && Keeps(cap, s, r.enc) && r.consumed == i
            && (r.enc.endPending ==> r.status == RetryLater && r.terminated)
            && (onError != Ok && r.status == Ok ==> r.terminated && !r.enc.endPending)
  {
    var e := EnsureFree(cap, sink, s, 1);
    EnsureFreeConserves(cap, sink, s, 1);
    if e.status == Ok {
      QueueConserves(e.enc, [END]);
      FlushConserves(sink, Queue(e.enc, [END]));
    }
  }

  lemma EncodeOneConserves(cap: nat, sink: Sink, s: Enc, b: byte)
    requires |s.queue| <= cap && !s.endPending
    ensures var e := EncodeOne(cap, sink, s, b);
            && Wire(e.enc) == Wire(s) + (if e.status == Ok then EscapeByte(b) else [])
            && Keeps(cap, s, e.enc) && !e.enc.endPending
  {
    var e := EnsureFree(cap, sink, s, |EscapeByte(b)|);
    EnsureFreeConserves(cap, sink, s, |EscapeByte(b)|);
    QueueConserves(e.enc, EscapeByte(b));
  }

  /** The effect of a call on the wire: escaped data up to `consumed`, then END if the call
      reached the terminator, which it only does after consuming everything. */
  ghost predicate Conserved(before: seq<byte>, data: seq<byte>, from: nat, r: Pushed)
    requires from <= |data|
  {
    && from <= r.consumed <= |data|
    && Wire(r.enc) == before + Escape(data[from..r.consumed]) + (if r.terminated then [END] else [])
    && (r.terminated ==> r.consumed == |data|)
    && (r.status == Ok ==> r.terminated && !r.enc.endPending)
    && (r.enc.endPending && r.terminated ==> r.status == RetryLater)
  }

  lemma {:induction false} PayloadConserves(cap: nat, sink: Sink, s: Enc, data: seq<byte>, i: nat, onError: Status)
    requires |s.queue| <= cap && !s.endPending && i <= |data| && onError != Ok
    ensures var r := PushPayload(cap, sink, s, data, i, onError);
            Conserved(Wire(s), data, i, r) && Keeps(cap, s, r.enc) && (r.enc.endPending ==> r.terminated)
    decreases |data| - i
  {
    hide Escape, EscapeByte, Wire, EncodeOne, Flush, PushEnd;
    EscapeNone(data, i);
    if i == |data| {
      EndConserves(cap, sink, s, i, onError);
      return;
    }
    var e := EncodeOne(cap, sink, s, data[i]);
    EncodeOneConserves(cap, sink, s, data[i]);
    if e.status != Ok {
      return;
    }
    var f := Flush(sink, e.enc);
    FlushConserves(sink, e.enc);
    EscapeRest(data, i, i + 1);
    EscapeNone(data, i + 1);
    if f.status == Ok {
      PayloadConserves(cap, sink, f.enc, data, i + 1, onError);
      EscapeRest(data, i, PushPayload(cap, sink, f.enc, data, i + 1, onError).consumed);
    }
  }

  lemma EscapeNone(data: seq<byte>, i: nat)
    requires i <= |data|
    ensures Escape(data[i..i]) == []
  {
  }

  lemma EscapeRest(data: seq<byte>, i: nat, j: nat)
    requires i < j <= |data|
    ensures Escape(data[i..j]) == EscapeByte(data[i]) + Escape(data[i + 1..j])
  {
  }

  /** Conservation, for every sink, every state and every way the call can return: nothing
      is lost, duplicated or reordered, and no escape pair is split. */
  lemma PushConserves(cap: nat, sink: Sink, s: Enc, data: seq<byte>, onError: Status)
    requires |s.queue| <= cap && onError != Ok
    ensures var r := PushWith(cap, sink, s, data, onError);
            && Conserved(Wire(s), data, 0, r) && Keeps(cap, s, r.enc)
            && (r.enc.endPending ==> r.terminated || (s.endPending && r.consumed == 0))
  {
    PrepareConserves(cap, sink, s);
    var p := Prepare(cap, sink, s);
    if p.status == Ok {
      PayloadConserves(cap, sink, p.enc, data, 0, onError);
    } else {
      assert data[0..0] == [];
    }
  }
}
