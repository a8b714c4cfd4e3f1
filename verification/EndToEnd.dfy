/** Whole runs: a client that sends a list of packets through the encoder, resuming every
    unfinished packet where the last call left it, and a decoder at the far end of the sink. */
module EndToEnd {
  import opened Slip
  import opened DecoderSpec
  import opened EncoderSpec
  import opened EncoderLaws

  /** What the client may do next, in any order: push on, flush, or change the pacing. */
  datatype Action = DoPush | DoFlush | DoSetChunk(n: nat)

  /** The client is at byte `off` of packet `at`.  `ends` counts, per packet already sent, the
      calls that reached its terminator; `open` does so for the current packet. */
  datatype Client = Client(enc: Enc, at: nat, off: nat, ends: seq<nat>, open: nat)

  function Start(chunk: nat): Client {
    Client(Fresh(chunk), 0, 0, [], 0)
  }

  predicate Sane(cap: nat, packets: seq<seq<byte>>, c: Client) {
    && |c.enc.queue| <= cap && c.at <= |packets| && |c.ends| == c.at
    && (if c.at < |packets| then c.off <= |packets[c.at]| else c.off == c.open == 0)
  }

  /** On anything but Ok, RetryLater and Error alike, the client resumes at data + consumed. */
  function Act(cap: nat, sink: Sink, packets: seq<seq<byte>>, c: Client, a: Action): (d: Client)
    requires Sane(cap, packets, c)
    ensures Sane(cap, packets, d)
  {
    match a
    case DoFlush => c.(enc := Flush(sink, c.enc).enc)
    case DoSetChunk(n) => c.(enc := c.enc.(chunk := n))
    case DoPush =>
      if c.at == |packets| then c
      else
        var data := packets[c.at][c.off..];
        var r := Push(cap, sink, c.enc, data);
        PushConserves(cap, sink, c.enc, data, Error);
        if r.status == Ok then Client(r.enc, c.at + 1, 0, c.ends + [c.open + 1], 0)
        else Client(r.enc, c.at, c.off + r.consumed, c.ends, c.open + if r.terminated then 1 else 0)
  }

  function Perform(cap: nat, sink: Sink, packets: seq<seq<byte>>, c: Client, actions: seq<Action>): (d: Client)
    requires Sane(cap, packets, c)
    ensures Sane(cap, packets, d)
    decreases |actions|
  {
    if actions == [] then c
    else Perform(cap, sink, packets, Act(cap, sink, packets, c, actions[0]), actions[1..])
  }

  // -------------------------------------------------------------- the pace of a run

  /** The chunk that is set last, if any is. */
  function LastSet(chunk: nat, actions: seq<Action>): nat {
    if actions == [] then chunk
    else
      var k := |actions| - 1;
      if actions[k].DoSetChunk? then actions[k].n else LastSet(chunk, actions[..k])
  }

  lemma {:induction false} PerformConcat(cap: nat, sink: Sink, packets: seq<seq<byte>>, c: Client,
                                         a: seq<Action>, b: seq<Action>)
    requires Sane(cap, packets, c)
    ensures Perform(cap, sink, packets, c, a + b) ==
            Perform(cap, sink, packets, Perform(cap, sink, packets, c, a), b)
    decreases |a|
  {
    hide Act;
    if a == [] {
      assert a + b == b;
    } else {
      assert (a + b)[1..] == a[1..] + b;
      PerformConcat(cap, sink, packets, Act(cap, sink, packets, c, a[0]), a[1..], b);
    }
  }

  lemma PerformSnoc(cap: nat, sink: Sink, packets: seq<seq<byte>>, c: Client, actions: seq<Action>, a: Action)
    requires Sane(cap, packets, c)
    ensures Perform(cap, sink, packets, c, actions + [a]) ==
            Act(cap, sink, packets, Perform(cap, sink, packets, c, actions), a)
  {
    hide Act;
    PerformConcat(cap, sink, packets, c, actions, [a]);
    var d := Perform(cap, sink, packets, c, actions);
    assert Perform(cap, sink, packets, d, [a]) == Perform(cap, sink, packets, Act(cap, sink, packets, d, a), []);
  }

  lemma ActPace(cap: nat, sink: Sink, packets: seq<seq<byte>>, c: Client, a: Action)
    requires Sane(cap, packets, c)
    ensures Act(cap, sink, packets, c, a).enc.chunk == if a.DoSetChunk? then a.n else c.enc.chunk
  {
    FlushConserves(sink, c.enc);
    if a == DoPush && c.at < |packets| {
      PushConserves(cap, sink, c.enc, packets[c.at][c.off..], Error);
    }
  }

  /** Nothing but a change of pacing changes the pace, and that does at any time. */
  lemma {:induction false} RunPace(cap: nat, sink: Sink, packets: seq<seq<byte>>, c: Client, actions: seq<Action>)
    requires Sane(cap, packets, c)
    ensures Perform(cap, sink, packets, c, actions).enc.chunk == LastSet(c.enc.chunk, actions)
    decreases |actions|
  {
    hide Act, Perform;
    if actions == [] {
      PerformNothing(cap, sink, packets, c);
    } else {
      var k := |actions| - 1;
      var before := actions[..k];
      RunPace(cap, sink, packets, c, before);
      PerformSnoc(cap, sink, packets, c, before, actions[k]);
      assert before + [actions[k]] == actions;
      ActPace(cap, sink, packets, Perform(cap, sink, packets, c, before), actions[k]);
    }
  }

  lemma PerformNothing(cap: nat, sink: Sink, packets: seq<seq<byte>>, c: Client)
    requires Sane(cap, packets, c)
    ensures Perform(cap, sink, packets, c, []) == c
  {
  }

  // ------------------------------------------------------------ the wire over a run

  function Ends(k: nat): seq<byte> {
    if k == 0 then [] else Ends(k - 1) + [END]
  }

  /** Packets one after the other, packet i closed by ends[i] ENDs. */
  function Stream(ps: seq<seq<byte>>, ends: seq<nat>): seq<byte>
    requires |ps| == |ends|
  {
    if ps == [] then []
    else var k := |ps| - 1; Stream(ps[..k], ends[..k]) + Escape(ps[k]) + Ends(ends[k])
  }

  /** The part of the current packet that the encoder has taken over. */
  function Current(packets: seq<seq<byte>>, c: Client): seq<byte> {
    if c.at < |packets| && c.off <= |packets[c.at]| then packets[c.at][..c.off] else []
  }

  /** The invariant of all runs. */
  ghost predicate Inv(cap: nat, packets: seq<seq<byte>>, c: Client) {
    && Sane(cap, packets, c)
    && (forall i | 0 <= i < c.at :: c.ends[i] >= 1)
    && (c.open > 0 ==> Current(packets, c) == packets[c.at])
    && (c.enc.endPending ==> c.open > 0)
    && Wire(c.enc) == Stream(packets[..c.at], c.ends) + Escape(Current(packets, c)) + Ends(c.open)
  }

  lemma StreamSnoc(ps: seq<seq<byte>>, ends: seq<nat>, p: seq<byte>, k: nat)
    requires |ps| == |ends|
    ensures Stream(ps + [p], ends + [k]) == Stream(ps, ends) + Escape(p) + Ends(k)
  {
    assert (ps + [p])[..|ps|] == ps && (ends + [k])[..|ps|] == ends;
  }

  /** What a push adds to the wire, seen from the start of the packet. */
  lemma PushOnWire(w: seq<byte>, p: seq<byte>, off: nat, open: nat, r: Pushed, before: seq<byte>)
    requires off <= |p| && (open > 0 ==> off == |p|)
    requires before == w + Escape(p[..off]) + Ends(open) && Conserved(before, p[off..], 0, r)
    ensures off + r.consumed <= |p|
    ensures Wire(r.enc) == w + Escape(p[..off + r.consumed]) + Ends(open + if r.terminated then 1 else 0)
  {
    hide Wire, Escape, Ends;
    var now := p[off..][0..r.consumed];
    assert p[..off] + now == p[..off + r.consumed];
    EscapeConcat(p[..off], now);
    NoBytes(now);
    EndsZero();
    EndsSucc(open);
  }

  lemma PushKeepsInv(cap: nat, sink: Sink, packets: seq<seq<byte>>, c: Client)
    requires Inv(cap, packets, c) && c.at < |packets|
    ensures Inv(cap, packets, Act(cap, sink, packets, c, DoPush))
  {
    hide Wire, Escape, Stream, Ends, PushWith;
    var p := packets[c.at];
    var r := Push(cap, sink, c.enc, p[c.off..]);
    PushConserves(cap, sink, c.enc, p[c.off..], Error);
    PushOnWire(Stream(packets[..c.at], c.ends), p, c.off, c.open, r, Wire(c.enc));
    if r.status == Ok {
      assert p[..c.off + r.consumed] == p;
      assert packets[..c.at + 1] == packets[..c.at] + [p];
      StreamSnoc(packets[..c.at], c.ends, p, c.open + 1);
      NoBytes([]);
      EndsZero();
    }
  }

  lemma EndsZero()
    ensures Ends(0) == []
  {
  }

  lemma EndsSucc(k: nat)
    ensures Ends(k + 1) == Ends(k) + [END]
  {
  }

  lemma NoBytes(p: seq<byte>)
    ensures p == [] ==> Escape(p) == []
  {
  }

  lemma ActKeepsInv(cap: nat, sink: Sink, packets: seq<seq<byte>>, c: Client, a: Action)
    requires Inv(cap, packets, c)
    ensures Inv(cap, packets, Act(cap, sink, packets, c, a))
  {
    match a
    case DoPush =>
      if c.at < |packets| {
        PushKeepsInv(cap, sink, packets, c);
      }
    case DoFlush =>
      FlushConserves(sink, c.enc);
    case DoSetChunk(n) =>
      assert Wire(c.enc.(chunk := n)) == Wire(c.enc);
  }

  /** In every reachable state the bytes committed are the finished packets, each closed by
      as many ENDs as calls reached its terminator, and the part of the current one. */
  lemma {:induction false} RunKeepsInv(cap: nat, sink: Sink, packets: seq<seq<byte>>, c: Client, actions: seq<Action>)
    requires Inv(cap, packets, c)
    ensures Inv(cap, packets, Perform(cap, sink, packets, c, actions))
    decreases |actions|
  {
    hide Act, Wire, Escape, Stream, Ends;
    if actions != [] {
      ActKeepsInv(cap, sink, packets, c, actions[0]);
      RunKeepsInv(cap, sink, packets, Act(cap, sink, packets, c, actions[0]), actions[1..]);
    }
  }

  lemma StartInv(cap: nat, chunk: nat, packets: seq<seq<byte>>)
    ensures Inv(cap, packets, Start(chunk))
  {
  }

  /** With capacity at least one, and pacing kept at one or more, no run ever leaves a
      terminator pending. */
  lemma {:induction false} RunNeverPending(cap: nat, sink: Sink, packets: seq<seq<byte>>, c: Client,
                                           actions: seq<Action>)
    requires Sane(cap, packets, c) && 1 <= cap && 1 <= c.enc.chunk && !c.enc.endPending
    requires DoSetChunk(0) !in actions
    ensures !Perform(cap, sink, packets, c, actions).enc.endPending
    decreases |actions|
  {
    if actions != [] {
      var d := Act(cap, sink, packets, c, actions[0]);
      if actions[0] == DoPush && c.at < |packets| {
        var data := packets[c.at][c.off..];
        NeverPending(cap, sink, c.enc, data);
        PushConserves(cap, sink, c.enc, data, Error);
      } else {
        FlushConserves(sink, c.enc);
      }
      assert actions[0] in actions;
      RunNeverPending(cap, sink, packets, d, actions[1..]);
    }
  }

  /** In every reachable state `accepted` is what the sink answered Ok to. */
  lemma {:induction false} RunHonest(cap: nat, sink: Sink, packets: seq<seq<byte>>, c: Client, actions: seq<Action>)
    requires Sane(cap, packets, c) && Honest(sink, c.enc)
    ensures Honest(sink, Perform(cap, sink, packets, c, actions).enc)
    decreases |actions|
  {
    hide FlushUpTo, PushWith;
    if actions != [] {
      if actions[0] == DoPush && c.at < |packets| {
        PushHonest(cap, sink, c.enc, packets[c.at][c.off..]);
      } else {
        FlushHonest(sink, c.enc, c.enc.chunk);
      }
      RunHonest(cap, sink, packets, Act(cap, sink, packets, c, actions[0]), actions[1..]);
    }
  }

  // -------------------------------------------------------------------- delivery

  function Empties(k: nat): seq<seq<byte>> {
    if k == 0 then [] else Empties(k - 1) + [[]]
  }

  /** What the receiver gets from Stream(ps, ends): every packet, each followed by one empty
      message per surplus END. */
  function Received(ps: seq<seq<byte>>, ends: seq<nat>): seq<seq<byte>>
    requires |ps| == |ends|
  {
    if ps == [] then []
    else
      var k := |ps| - 1;
      Received(ps[..k], ends[..k]) + if ends[k] == 0 then [] else [ps[k]] + Empties(ends[k] - 1)
  }

  predicate Fits(n: nat, ps: seq<seq<byte>>) {
    2 <= n && forall p | p in ps :: |p| <= n - 2
  }

  lemma {:induction false} EndsDecode(n: nat, k: nat)
    requires 2 <= n
    ensures Run(n, RESET, Ends(k)) == Out(RESET, Empties(k), 0)
  {
    if k > 0 {
      EndsDecode(n, k - 1);
      RunSnoc(n, RESET, Ends(k - 1), END);
    }
  }

  lemma ClosedDecode(n: nat, p: seq<byte>, k: nat)
    requires 2 <= n && |p| <= n - 2 && k >= 1
    ensures Run(n, RESET, Escape(p) + Ends(k)) == Out(RESET, [p] + Empties(k - 1), 0)
  {
    hide Run, Escape;
    EndsFirst(k);
    assert Escape(p) + Ends(k) == Encode(p) + Ends(k - 1);
    DeliveredIffFits(n, p);
    EndsDecode(n, k - 1);
    RunConcat(n, RESET, Encode(p), Ends(k - 1));
  }

  lemma {:induction false} EndsFirst(k: nat)
    requires k >= 1
    ensures Ends(k) == [END] + Ends(k - 1)
  {
    if k > 1 {
      EndsFirst(k - 1);
    }
  }

  lemma LastOfStream(ps: seq<seq<byte>>, ends: seq<nat>)
    requires |ps| == |ends| > 0
    ensures var k := |ps| - 1;
            Stream(ps, ends) == Stream(ps[..k], ends[..k]) + (Escape(ps[k]) + Ends(ends[k]))
  {
  }

  lemma LastOfReceived(ps: seq<seq<byte>>, ends: seq<nat>)
    requires |ps| == |ends| > 0 && ends[|ps| - 1] >= 1
    ensures var k := |ps| - 1;
            Received(ps, ends) == Received(ps[..k], ends[..k]) + ([ps[k]] + Empties(ends[k] - 1))
  {
  }

  lemma LastDecode(n: nat, ps: seq<seq<byte>>, ends: seq<nat>)
    requires |ps| == |ends| > 0 && ends[|ps| - 1] >= 1 && 2 <= n && |ps[|ps| - 1]| <= n - 2
    requires var k := |ps| - 1;
             Run(n, RESET, Stream(ps[..k], ends[..k])) == Out(RESET, Received(ps[..k], ends[..k]), 0)
    ensures Run(n, RESET, Stream(ps, ends)) == Out(RESET, Received(ps, ends), 0)
  {
    hide Run, Escape, Ends, Empties, Stream, Received;
    var k := |ps| - 1;
    var w, closed := Stream(ps[..k], ends[..k]), Escape(ps[k]) + Ends(ends[k]);
    LastOfStream(ps, ends);
    LastOfReceived(ps, ends);
    ClosedDecode(n, ps[k], ends[k]);
    RunConcat(n, RESET, w, closed);
  }

  lemma {:induction false} StreamDecode(n: nat, ps: seq<seq<byte>>, ends: seq<nat>)
    requires |ps| == |ends| && Fits(n, ps) && forall i | 0 <= i < |ends| :: ends[i] >= 1
    ensures Run(n, RESET, Stream(ps, ends)) == Out(RESET, Received(ps, ends), 0)
  {
    if ps != [] {
      var k := |ps| - 1;
      assert ps[k] in ps;
      StreamDecode(n, ps[..k], ends[..k]);
      LastDecode(n, ps, ends);
    }
  }

  function NonEmpty(ms: seq<seq<byte>>): seq<seq<byte>> {
    if ms == [] then []
    else var k := |ms| - 1; NonEmpty(ms[..k]) + if ms[k] == [] then [] else [ms[k]]
  }

  lemma {:induction false} NonEmptyConcat(a: seq<seq<byte>>, b: seq<seq<byte>>)
    ensures NonEmpty(a + b) == NonEmpty(a) + NonEmpty(b)
    decreases |b|
  {
    if b == [] {
      assert a + b == a;
    } else {
      var k := |b| - 1;
      NonEmptyConcat(a, b[..k]);
      assert (a + b)[..|a + b| - 1] == a + b[..k];
    }
  }

  lemma {:induction false} NonEmptyEmpties(k: nat)
    ensures NonEmpty(Empties(k)) == []
  {
    if k > 0 {
      NonEmptyEmpties(k - 1);
      assert Empties(k)[..|Empties(k)| - 1] == Empties(k - 1);
    }
  }

  lemma NonEmptyGlue(a: seq<seq<byte>>, b: seq<seq<byte>>, c: seq<seq<byte>>, d: seq<seq<byte>>)
    requires NonEmpty(a) == NonEmpty(b) && NonEmpty(d) == []
    ensures NonEmpty(a + (c + d)) == NonEmpty(b + c)
  {
    hide NonEmpty;
    NonEmptyConcat(a, c + d);
    NonEmptyConcat(c, d);
    NonEmptyConcat(b, c);
  }

  lemma LastNonEmpty(before: seq<seq<byte>>, q: seq<seq<byte>>, p: seq<byte>, k: nat)
    requires NonEmpty(before) == NonEmpty(q)
    ensures NonEmpty(before + ([p] + Empties(k))) == NonEmpty(q + [p])
  {
    hide NonEmpty, Empties;
    NonEmptyEmpties(k);
    NonEmptyGlue(before, q, [p], Empties(k));
  }

  /** Dropping empty messages leaves the non-empty packets. */
  lemma {:induction false} ReceivedNonEmpty(ps: seq<seq<byte>>, ends: seq<nat>)
    requires |ps| == |ends| && forall i | 0 <= i < |ends| :: ends[i] >= 1
    ensures NonEmpty(Received(ps, ends)) == NonEmpty(ps)
  {
    if ps == [] {
      return;
    }
    hide NonEmpty, Received, Empties;
    var k := |ps| - 1;
    var q, p, before := ps[..k], ps[k], Received(ps[..k], ends[..k]);
    ReceivedNonEmpty(q, ends[..k]);
    LastNonEmpty(before, q, p, ends[k] - 1);
    LastOfReceived(ps, ends);
    assert ps == q + [p];
  }

  /** The non-empty messages that the whole wire decodes to are those of the packets
      finished so far, the current one included once it is closed. */
  lemma WireDecode(cap: nat, n: nat, packets: seq<seq<byte>>, c: Client)
    requires Inv(cap, packets, c) && Fits(n, packets)
    ensures var sent := packets[..c.at + if c.open > 0 then 1 else 0];
            NonEmpty(Run(n, RESET, Wire(c.enc)).msgs) == NonEmpty(sent)
  {
    hide Run, Escape, Ends, Wire, Stream, Received;
    var ps, ends := packets[..c.at], c.ends;
    if c.open > 0 {
      StreamSnoc(ps, ends, packets[c.at], c.open);
      ps, ends := ps + [packets[c.at]], ends + [c.open];
      assert ps == packets[..c.at + 1];
      StreamDecode(n, ps, ends);
      ReceivedNonEmpty(ps, ends);
    } else {
      var w, t := Stream(ps, ends), Escape(Current(packets, c));
      EndsZero();
      assert w + t + [] == w + t;
      StreamDecode(n, ps, ends);
      ReceivedNonEmpty(ps, ends);
      RunConcat(n, RESET, w, t);
      EscapeHasNoEnd(Current(packets, c));
      NoEndNoMessages(n, RESET, t);
      assert Received(ps, ends) + [] == Received(ps, ends);
    }
  }

  /** Safety over whole runs: at every moment, for every sink and every interleaving of
      actions, the non-empty messages received are the first non-empty packets, in order. */
  lemma DeliveredIsPrefix(cap: nat, n: nat, sink: Sink, chunk: nat, packets: seq<seq<byte>>, actions: seq<Action>)
    requires Fits(n, packets)
    ensures var c := Perform(cap, sink, packets, Start(chunk), actions);
            NonEmpty(Run(n, RESET, c.enc.accepted).msgs) <= NonEmpty(packets)
  {
    hide Run, Inv, Wire, NonEmpty, Perform;
    var c := Perform(cap, sink, packets, Start(chunk), actions);
    StartInv(cap, chunk, packets);
    RunKeepsInv(cap, sink, packets, Start(chunk), actions);
    WireDecode(cap, n, packets, c);
    var rest := RestOfWire(c.enc);
    RunConcat(n, RESET, c.enc.accepted, rest);
    NonEmptyConcat(Run(n, RESET, c.enc.accepted).msgs, Run(n, Run(n, RESET, c.enc.accepted).state, rest).msgs);
    var k := c.at + if c.open > 0 then 1 else 0;
    NonEmptyConcat(packets[..k], packets[k..]);
    assert packets == packets[..k] + packets[k..];
  }

  lemma RestOfWire(s: Enc) returns (rest: seq<byte>)
    ensures Wire(s) == s.accepted + rest
  {
    rest := s.queue + if s.endPending then [END] else [];
  }

  /** Completion: once the last packet is reported Ok and the queue is drained, the receiver
      has every packet in order, each followed by exactly its surplus empty messages; so
      after dropping empty messages, exactly the non-empty packets. */
  lemma DeliveredAll(cap: nat, n: nat, sink: Sink, chunk: nat, packets: seq<seq<byte>>, actions: seq<Action>)
    requires Fits(n, packets)
    requires var c := Perform(cap, sink, packets, Start(chunk), actions); c.at == |packets| && c.enc.queue == []
    ensures var c := Perform(cap, sink, packets, Start(chunk), actions);
            && |c.ends| == |packets|
            && Run(n, RESET, c.enc.accepted) == Out(RESET, Received(packets, c.ends), 0)
            && NonEmpty(Run(n, RESET, c.enc.accepted).msgs) == NonEmpty(packets)
  {
    hide Run, Perform, Received, NonEmpty, Stream;
    var c := Perform(cap, sink, packets, Start(chunk), actions);
    StartInv(cap, chunk, packets);
    RunKeepsInv(cap, sink, packets, Start(chunk), actions);
    assert packets[..|packets|] == packets;
    assert Wire(c.enc) == c.enc.accepted;
    assert Wire(c.enc) == Stream(packets, c.ends);
    StreamDecode(n, packets, c.ends);
    ReceivedNonEmpty(packets, c.ends);
  }
}
