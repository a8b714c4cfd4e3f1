/** Runs make progress: bounds on how often a client has to call, and the exact round trip
    when the sink accepts everything. */
module Progress {
  import opened Slip
  import opened DecoderSpec
  import opened EncoderSpec
  import opened EncoderLaws
  import opened EncoderOutcome
  import opened EndToEnd

  function Pushes(actions: seq<Action>): nat {
    if actions == [] then 0
    else (if actions[0] == DoPush then 1 else 0) + Pushes(actions[1..])
  }

  lemma ActAccounts(cap: nat, sink: Sink, packets: seq<seq<byte>>, c: Client, a: Action)
    requires Sane(cap, packets, c) && 2 <= cap && 1 <= c.enc.chunk && a != DoSetChunk(0)
    ensures var d := Act(cap, sink, packets, c, a);
            && c.at <= d.at && Refusals(c.enc) <= Refusals(d.enc) && 1 <= d.enc.chunk
            && (a == DoPush && c.at < |packets| ==>
                  d.at - c.at + Refusals(d.enc) - Refusals(c.enc) == 1)
  {
    FlushAnswered(cap, sink, c.enc);
    if a == DoPush && c.at < |packets| {
      PushAnswered(cap, sink, c.enc, packets[c.at][c.off..]);
    }
  }

  /** As long as packets remain, every push has either completed a packet or met a refusal
      of the sink. */
  lemma {:induction false} PushesAccountedFor(cap: nat, sink: Sink, packets: seq<seq<byte>>, c: Client,
                                              actions: seq<Action>)
    requires Sane(cap, packets, c) && 2 <= cap && 1 <= c.enc.chunk && DoSetChunk(0) !in actions
    ensures var d := Perform(cap, sink, packets, c, actions);
            && c.at <= d.at && Refusals(c.enc) <= Refusals(d.enc)
            && (d.at < |packets| ==> Pushes(actions) <= d.at - c.at + Refusals(d.enc) - Refusals(c.enc))
    decreases |actions|
  {
    hide Act;
    if actions != [] {
      assert actions[0] in actions;
      ActAccounts(cap, sink, packets, c, actions[0]);
      PushesAccountedFor(cap, sink, packets, Act(cap, sink, packets, c, actions[0]), actions[1..]);
    }
  }

  /** So if the sink refuses at most R times, |packets| + R pushes are enough, however they
      are mixed with flushes and changes of pacing. */
  lemma EnoughPushes(cap: nat, sink: Sink, chunk: nat, packets: seq<seq<byte>>, actions: seq<Action>, R: nat)
    requires 2 <= cap && 1 <= chunk && DoSetChunk(0) !in actions
    requires Refusals(Perform(cap, sink, packets, Start(chunk), actions).enc) <= R
    requires |packets| + R <= Pushes(actions)
    ensures Perform(cap, sink, packets, Start(chunk), actions).at == |packets|
  {
    PushesAccountedFor(cap, sink, packets, Start(chunk), actions);
  }

  // ------------------------------------------------------- sinks that accept everything

  function Repeat(a: Action, k: nat): (r: seq<Action>)
    ensures |r| == k
  {
    if k == 0 then [] else [a] + Repeat(a, k - 1)
  }

  /** Each flush takes exactly the pacing budget off the queue, so draining is exact. */
  lemma {:induction false} DrainLaw(cap: nat, sink: Sink, packets: seq<seq<byte>>, c: Client, k: nat)
    requires Sane(cap, packets, c) && Accepting(sink)
    ensures var d := Perform(cap, sink, packets, c, Repeat(DoFlush, k));
            && d == c.(enc := d.enc)
            && |d.enc.queue| == (if |c.enc.queue| <= k * c.enc.chunk then 0 else |c.enc.queue| - k * c.enc.chunk)
    decreases k
  {
    hide Flush;
    if k > 0 {
      FlushAll(sink, c.enc);
      var d := Act(cap, sink, packets, c, DoFlush);
      assert Repeat(DoFlush, k)[1..] == Repeat(DoFlush, k - 1);
      DrainLaw(cap, sink, packets, d, k - 1);
      OneMore(k, c.enc.chunk);
    }
  }

  lemma FlushAll(sink: Sink, s: Enc)
    requires Accepting(sink)
    ensures var t := Flush(sink, s).enc;
            t.chunk == s.chunk && |t.queue| == if |s.queue| <= s.chunk then 0 else |s.queue| - s.chunk
  {
    FlushLaw(sink, s);
  }

  lemma OneMore(k: nat, c: nat)
    requires k > 0
    ensures k * c == (k - 1) * c + c && 0 <= (k - 1) * c
  {
  }

  function Ones(k: nat): (r: seq<nat>)
    ensures |r| == k && forall i | 0 <= i < k :: r[i] == 1
  {
    if k == 0 then [] else Ones(k - 1) + [1]
  }

  /** One call per packet is enough. */
  lemma {:induction false} PushAll(cap: nat, sink: Sink, packets: seq<seq<byte>>, c: Client)
    requires Sane(cap, packets, c) && Accepting(sink) && 2 <= cap && 1 <= c.enc.chunk
    requires c.off == c.open == 0 && c.ends == Ones(c.at)
    ensures var d := Perform(cap, sink, packets, c, Repeat(DoPush, |packets| - c.at));
            d.at == |packets| && d.ends == Ones(|packets|) && d.enc.chunk == c.enc.chunk
    decreases |packets| - c.at
  {
    if c.at < |packets| {
      hide PushWith;
      var data := packets[c.at][c.off..];
      PushOkIff(cap, sink, c.enc, data);
      PushConserves(cap, sink, c.enc, data, Error);
      var k := |packets| - c.at;
      assert Repeat(DoPush, k)[1..] == Repeat(DoPush, k - 1);
      PushAll(cap, sink, packets, Act(cap, sink, packets, c, DoPush));
    }
  }

  lemma {:induction false} ReceivedOnce(ps: seq<seq<byte>>)
    ensures Received(ps, Ones(|ps|)) == ps
  {
    if ps != [] {
      var k := |ps| - 1;
      ReceivedOnce(ps[..k]);
      assert Ones(|ps|)[..k] == Ones(k);
      assert ps == ps[..k] + [ps[k]];
    }
  }

  /** The round trip through both streaming objects: push every packet once, flush until the
      queue is empty, and the decoder delivers exactly the packets, empty ones included. */
  lemma RoundTrip(cap: nat, n: nat, sink: Sink, chunk: nat, packets: seq<seq<byte>>)
    requires 2 <= cap && 1 <= chunk && Accepting(sink) && Fits(n, packets)
    ensures var actions := Repeat(DoPush, |packets|) + Repeat(DoFlush, cap);
            var c := Perform(cap, sink, packets, Start(chunk), actions);
            Run(n, RESET, c.enc.accepted) == Out(RESET, packets, 0)
  {
    hide Run, Perform, Received, Repeat, Ones;
    var a, b := Repeat(DoPush, |packets|), Repeat(DoFlush, cap);
    NoOnes();
    PushAll(cap, sink, packets, Start(chunk));
    var c := Perform(cap, sink, packets, Start(chunk), a);
    DrainLaw(cap, sink, packets, c, cap);
    EnoughChunks(cap, chunk);
    PerformConcat(cap, sink, packets, Start(chunk), a, b);
    DeliveredAll(cap, n, sink, chunk, packets, a + b);
    ReceivedOnce(packets);
  }

  lemma NoOnes()
    ensures Ones(0) == []
  {
  }

  lemma EnoughChunks(cap: nat, chunk: nat)
    requires 1 <= chunk
    ensures cap <= cap * chunk
  {
  }

  // ------------------------------------------------------------------- surplus ENDs

  /** How often a run pushes packet `i` in a state in which the call is bound to fail behind
      its terminator. */
  ghost function Misses(cap: nat, sink: Sink, packets: seq<seq<byte>>, c: Client, actions: seq<Action>, i: nat): nat
    requires Sane(cap, packets, c) && i < |packets|
    decreases |actions|
  {
    if actions == [] then 0
    else
      var miss := actions[0] == DoPush && c.at == i && FailsBehindEnd(cap, sink, c.enc, packets[i][c.off..]);
      (if miss then 1 else 0) + Misses(cap, sink, packets, Act(cap, sink, packets, c, actions[0]), actions[1..], i)
  }

  /** The ENDs that packet `i` has been closed by so far. */
  function Closings(c: Client, i: nat): nat
    requires |c.ends| == c.at
  {
    if i < c.at then c.ends[i] else if i == c.at then c.open else 0
  }

  lemma ActCloses(cap: nat, sink: Sink, packets: seq<seq<byte>>, c: Client, a: Action, i: nat)
    requires Sane(cap, packets, c) && i < |packets|
    ensures var d := Act(cap, sink, packets, c, a);
            var miss := a == DoPush && c.at == i && FailsBehindEnd(cap, sink, c.enc, packets[i][c.off..]);
            && c.at <= d.at <= c.at + 1
            && Closings(d, i) == Closings(c, i) + (if miss then 1 else 0) + (if c.at <= i < d.at then 1 else 0)
  {
    hide PushWith, FailsBehindEnd;
    if a == DoPush && c.at < |packets| {
      SurplusIff(cap, sink, c.enc, packets[c.at][c.off..]);
      PushConserves(cap, sink, c.enc, packets[c.at][c.off..], Error);
    }
  }

  /** The count of ENDs is exact: one for completing the packet, and one for every push of it
      that was bound to fail behind its terminator. */
  lemma {:induction false} EndsExact(cap: nat, sink: Sink, packets: seq<seq<byte>>, c: Client,
                                     actions: seq<Action>, i: nat)
    requires Sane(cap, packets, c) && i < |packets|
    ensures var d := Perform(cap, sink, packets, c, actions);
            && c.at <= d.at
            && Closings(d, i) == Closings(c, i) + Misses(cap, sink, packets, c, actions, i)
                                 + (if c.at <= i < d.at then 1 else 0)
    decreases |actions|
  {
    hide Act, FailsBehindEnd;
    if actions != [] {
      ActCloses(cap, sink, packets, c, actions[0], i);
      EndsExact(cap, sink, packets, Act(cap, sink, packets, c, actions[0]), actions[1..], i);
    }
  }

  /** A finished packet is closed by exactly one END exactly if no push of it was bound to
      fail behind its terminator. */
  lemma OneEndIff(cap: nat, sink: Sink, chunk: nat, packets: seq<seq<byte>>, actions: seq<Action>, i: nat)
    requires var c := Perform(cap, sink, packets, Start(chunk), actions); i < c.at
    ensures var c := Perform(cap, sink, packets, Start(chunk), actions);
            c.ends[i] == 1 <==> Misses(cap, sink, packets, Start(chunk), actions, i) == 0
  {
    hide Misses, Perform;
    EndsExact(cap, sink, packets, Start(chunk), actions, i);
  }

  lemma {:induction false} ReceivedLength(ps: seq<seq<byte>>, ends: seq<nat>)
    requires |ps| == |ends| && forall i | 0 <= i < |ends| :: ends[i] >= 1
    ensures |Received(ps, ends)| >= |ps|
    ensures |Received(ps, ends)| == |ps| <==> ends == Ones(|ps|)
  {
    if ps != [] {
      var k := |ps| - 1;
      ReceivedLength(ps[..k], ends[..k]);
      EmptiesLength(ends[k] - 1);
      assert ends == ends[..k] + [ends[k]];
      assert Ones(|ps|)[..k] == Ones(k) && Ones(|ps|)[k] == 1;
    }
  }

  lemma {:induction false} EmptiesLength(k: nat)
    ensures |Empties(k)| == k
  {
    if k > 0 {
      EmptiesLength(k - 1);
    }
  }

  /** No push of the run was bound to fail behind its terminator. */
  ghost predicate NoMisses(cap: nat, sink: Sink, chunk: nat, packets: seq<seq<byte>>, actions: seq<Action>) {
    forall i | 0 <= i < |packets| :: Misses(cap, sink, packets, Start(chunk), actions, i) == 0
  }

  lemma OnesIffNoMisses(cap: nat, sink: Sink, chunk: nat, packets: seq<seq<byte>>, actions: seq<Action>)
    requires Perform(cap, sink, packets, Start(chunk), actions).at == |packets|
    ensures var c := Perform(cap, sink, packets, Start(chunk), actions);
            && (forall i | 0 <= i < |packets| :: c.ends[i] >= 1)
            && (c.ends == Ones(|packets|) <==> NoMisses(cap, sink, chunk, packets, actions))
  {
    hide Misses, Perform;
    var c := Perform(cap, sink, packets, Start(chunk), actions);
    forall i | 0 <= i < |packets|
      ensures c.ends[i] == 1 + Misses(cap, sink, packets, Start(chunk), actions, i)
    {
      EndsExact(cap, sink, packets, Start(chunk), actions, i);
    }
    OnesIff(c.ends);
  }

  /** When everything is sent and drained, the receiver has got exactly the packets, with no
      empty message added, exactly if no push of the run was bound to fail behind its
      terminator. */
  lemma ExactDeliveryIff(cap: nat, n: nat, sink: Sink, chunk: nat, packets: seq<seq<byte>>, actions: seq<Action>)
    requires Fits(n, packets)
    requires var c := Perform(cap, sink, packets, Start(chunk), actions); c.at == |packets| && c.enc.queue == []
    ensures var c := Perform(cap, sink, packets, Start(chunk), actions);
            Run(n, RESET, c.enc.accepted).msgs == packets <==> NoMisses(cap, sink, chunk, packets, actions)
  {
    hide NoMisses, Perform, Run, Received;
    var c := Perform(cap, sink, packets, Start(chunk), actions);
    DeliveredAll(cap, n, sink, chunk, packets, actions);
    OnesIffNoMisses(cap, sink, chunk, packets, actions);
    ReceivedLength(packets, c.ends);
    ReceivedOnce(packets);
  }

  lemma OnesIff(ends: seq<nat>)
    ensures ends == Ones(|ends|) <==> forall i | 0 <= i < |ends| :: ends[i] == 1
  {
  }

  // ------------------------------------------------------------ delivery with refusals

  lemma {:induction false} DrainWithRefusals(cap: nat, sink: Sink, packets: seq<seq<byte>>, c: Client, k: nat)
    requires Sane(cap, packets, c) && 1 <= c.enc.chunk
    ensures var d := Perform(cap, sink, packets, c, Repeat(DoFlush, k));
            && d == c.(enc := d.enc) && Refusals(c.enc) <= Refusals(d.enc) && |d.enc.queue| <= |c.enc.queue|
            && (d.enc.queue == [] || |d.enc.queue| + k <= |c.enc.queue| + Refusals(d.enc) - Refusals(c.enc))
    decreases k
  {
    if k > 0 {
      FlushLaw(sink, c.enc);
      FlushAnswered(cap, sink, c.enc);
      assert Repeat(DoFlush, k)[1..] == Repeat(DoFlush, k - 1);
      DrainWithRefusals(cap, sink, packets, Act(cap, sink, packets, c, DoFlush), k - 1);
    }
  }

  /** A sink that refuses at most R times gets everything: after |packets| + R pushes, mixed
      with anything else, and cap + R flushes, the receiver has the non-empty packets. */
  lemma BoundedRefusalsDeliver(cap: nat, n: nat, sink: Sink, chunk: nat, packets: seq<seq<byte>>,
                               actions: seq<Action>, R: nat)
    requires 2 <= cap && 1 <= chunk && Fits(n, packets) && DoSetChunk(0) !in actions
    requires |packets| + R <= Pushes(actions)
    requires Refusals(Perform(cap, sink, packets, Start(chunk), actions + Repeat(DoFlush, cap + R)).enc) <= R
    ensures var c := Perform(cap, sink, packets, Start(chunk), actions + Repeat(DoFlush, cap + R));
            NonEmpty(Run(n, RESET, c.enc.accepted).msgs) == NonEmpty(packets)
  {
    hide Run, Perform, NonEmpty, Received;
    var flushes := Repeat(DoFlush, cap + R);
    var c := Perform(cap, sink, packets, Start(chunk), actions);
    PerformConcat(cap, sink, packets, Start(chunk), actions, flushes);
    ChunkStays(cap, sink, packets, Start(chunk), actions);
    DrainWithRefusals(cap, sink, packets, c, cap + R);
    PushesAccountedFor(cap, sink, packets, Start(chunk), actions);
    EnoughPushes(cap, sink, chunk, packets, actions, R);
    DeliveredAll(cap, n, sink, chunk, packets, actions + flushes);
  }

  lemma {:induction false} ChunkStays(cap: nat, sink: Sink, packets: seq<seq<byte>>, c: Client, actions: seq<Action>)
    requires Sane(cap, packets, c) && 2 <= cap && 1 <= c.enc.chunk && DoSetChunk(0) !in actions
    ensures 1 <= Perform(cap, sink, packets, c, actions).enc.chunk
    decreases |actions|
  {
    hide Act;
    if actions != [] {
      assert actions[0] in actions;
      ActAccounts(cap, sink, packets, c, actions[0]);
      ChunkStays(cap, sink, packets, Act(cap, sink, packets, c, actions[0]), actions[1..]);
    }
  }

  // ----------------------------------------------------------------- counterexamples

  /** Under retry a packet may be closed by more than one END: the call that queued the
      terminator may still answer RetryLater, and the resumed call queues another.  Here
      the sink refuses one byte, and the receiver gets an empty message behind the packet. */
  lemma SurplusEnd()
    ensures var sink: Sink := h => if |h| == 1 then RetryLater else Ok;
            var c := Perform(2, sink, [[]], Start(1), [DoPush, DoPush]);
            c.at == 1 && c.ends == [2] && c.enc.accepted + c.enc.queue == [END, END]
  {
  }
}
