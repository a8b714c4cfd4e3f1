/** pushPacket_chunk: pushing a payload piece by piece. */
module EncoderChunks {
  import opened Slip
  import opened EncoderSpec
  import opened EncoderFailure
  import opened EncoderLaws
  import opened EncoderOutcome

  datatype Chunked = Chunked(enc: Enc, status: Status, consumed: nat)

  /** Each piece is pushed as a packet of its own; progress inside a piece that fails is
      not reported. */
  function PushChunks(cap: nat, sink: Sink, s: Enc, data: seq<byte>, size: nat, i: nat): Chunked
    requires |s.queue| <= cap && i <= |data| && (size > 0 || i == |data|)
    decreases |data| - i
  {
    if i == |data| then Chunked(s, Ok, i)
    else
      var piece := data[i..i + Min(size, |data| - i)];
      var r := Push(cap, sink, s, piece);
      if r.status != Ok then Chunked(r.enc, r.status, i)
      else PushConserves(cap, sink, s, piece, Error); PushChunks(cap, sink, r.enc, data, size, i + r.consumed)
  }

  function Chunks(data: seq<byte>, size: nat): seq<seq<byte>>
    requires size > 0
    decreases |data|
  {
    if data == [] then []
    else var n := Min(size, |data|); [data[..n]] + Chunks(data[n..], size)
  }

  lemma ChunksCons(data: seq<byte>, size: nat, i: nat, j: nat)
    requires size > 0 && i < j <= |data|
    requires j == |data| || size <= j - i
    ensures var n := Min(size, |data| - i);
            i + n <= j && Chunks(data[i..j], size) == [data[i..i + n]] + Chunks(data[i + n..j], size)
  {
    var n := Min(size, |data| - i);
    assert data[i..j][..n] == data[i..i + n];
    assert data[i..j][n..] == data[i + n..j];
  }

  lemma EncodeAllCons(p: seq<byte>, ps: seq<seq<byte>>)
    ensures EncodeAll([p] + ps) == Encode(p) + EncodeAll(ps)
  {
  }

  /** The effect on the wire: one complete frame per reported piece, and of the failing piece
      `extra` bytes that the reported count leaves out, with its END if `ended`. */
  lemma {:induction false} PushChunksConserves(cap: nat, sink: Sink, s: Enc, data: seq<byte>, size: nat, i: nat)
    returns (extra: nat, ended: bool)
    requires |s.queue| <= cap && i <= |data| && size > 0
    ensures var r := PushChunks(cap, sink, s, data, size, i);
            && i <= r.consumed && r.consumed + extra <= |data| && extra <= size
            && (r.status == Ok ==> r.consumed == |data| && !ended)
            && (r.consumed == i || r.consumed == |data| || size <= r.consumed - i)
            && Wire(r.enc) == Wire(s) + EncodeAll(Chunks(data[i..r.consumed], size))
                              + Escape(data[r.consumed..r.consumed + extra]) + (if ended then [END] else [])
    decreases |data| - i
  {
    hide Wire, PushWith, Escape, Encode, Chunks, EncodeAll;
    var r := PushChunks(cap, sink, s, data, size, i);
    NothingYet(data, size, i);
    if i == |data| {
      return 0, false;
    }
    var n := Min(size, |data| - i);
    var piece := data[i..i + n];
    var p := Push(cap, sink, s, piece);
    PushConserves(cap, sink, s, piece, Error);
    assert piece[0..p.consumed] == data[i..i + p.consumed];
    if p.status != Ok {
      return p.consumed, p.terminated;
    }
    FrameOf(piece);
    extra, ended := PushChunksConserves(cap, sink, p.enc, data, size, i + n);
    ChunksCons(data, size, i, r.consumed);
    EncodeAllCons(piece, Chunks(data[i + n..r.consumed], size));
  }

  lemma NothingYet(data: seq<byte>, size: nat, i: nat)
    requires i <= |data| && size > 0
    ensures EncodeAll(Chunks(data[i..i], size)) == [] && Escape(data[i..i]) == []
  {
  }

  lemma FrameOf(p: seq<byte>)
    ensures Escape(p[0..|p|]) + [END] == Encode(p)
  {
    assert p[0..|p|] == p;
  }

  /** A successful pushPacket_chunk has sent one frame per piece; that is the single frame
      pushPacket would have sent exactly when the payload is one non-empty piece. */
  lemma OneFrameIff(cap: nat, sink: Sink, s: Enc, data: seq<byte>, size: nat)
    requires |s.queue| <= cap && size > 0
    requires PushChunks(cap, sink, s, data, size, 0).status == Ok
    ensures var t := PushChunks(cap, sink, s, data, size, 0).enc;
            && Wire(t) == Wire(s) + EncodeAll(Chunks(data, size))
            && (Wire(t) == Wire(s) + Encode(data) <==> 0 < |data| <= size)
  {
    hide Escape, Encode, EncodeAll, PushChunks, Wire;
    var extra, ended := PushChunksConserves(cap, sink, s, data, size, 0);
    NothingYet(data, size, |data|);
    assert data[0..|data|] == data;
    EncodeAllOne(data);
    var w, a, b := Wire(s), EncodeAll(Chunks(data, size)), EncodeAll([data]);
    if w + a == w + b {
      assert a == (w + a)[|w|..] == (w + b)[|w|..] == b;
      UniqueFrames(Chunks(data, size), [data]);
    }
    if 0 < |data| <= size {
      assert Chunks(data, size) == [data];
    }
  }

  lemma EncodeAllOne(p: seq<byte>)
    ensures EncodeAll([p]) == Encode(p)
  {
    assert [p][1..] == [];
  }

  // --------------------------------------------------------- where the call stops

  /** The status of a call is the sink's: it meets at most one refusal and returns that very
      status, or RetryLater without a refusal in a starved encoder. */
  lemma {:induction false} ChunksAnswered(cap: nat, sink: Sink, s: Enc, data: seq<byte>, size: nat, i: nat)
    requires |s.queue| <= cap && i <= |data| && size > 0
    ensures var r := PushChunks(cap, sink, s, data, size, i);
            Answered(cap, sink, s, r.enc, r.status)
    decreases |data| - i
  {
    hide PushWith;
    if i < |data| {
      var piece := data[i..i + Min(size, |data| - i)];
      var p := Push(cap, sink, s, piece);
      PushAnswered(cap, sink, s, piece);
      PushConserves(cap, sink, s, piece, Error);
      if p.status == Ok {
        ChunksAnswered(cap, sink, p.enc, data, size, i + p.consumed);
      }
    }
  }

  /** A failing call stops in one piece, behind `k` whole pieces that it reports and that went
      through to state `t`, and returns status and state of pushPacket on that piece. */
  lemma {:induction false} ChunksStop(cap: nat, sink: Sink, s: Enc, data: seq<byte>, size: nat, i: nat)
    returns (k: nat, t: Enc)
    requires |s.queue| <= cap && i <= |data| && size > 0
    requires PushChunks(cap, sink, s, data, size, i).status != Ok
    ensures var r := PushChunks(cap, sink, s, data, size, i);
            && r.consumed == i + k * size < |data| && |t.queue| <= cap
            && Wire(t) == Wire(s) + EncodeAll(Chunks(data[i..r.consumed], size))
            && Answered(cap, sink, s, t, Ok)
            && var p := Push(cap, sink, t, data[r.consumed..r.consumed + Min(size, |data| - r.consumed)]);
               r.enc == p.enc && r.status == p.status
    decreases |data| - i
  {
    hide Wire, PushWith, Escape, Encode, Chunks, EncodeAll;
    var r := PushChunks(cap, sink, s, data, size, i);
    var piece := data[i..i + Min(size, |data| - i)];
    var p := Push(cap, sink, s, piece);
    PushConserves(cap, sink, s, piece, Error);
    PushAnswered(cap, sink, s, piece);
    NothingYet(data, size, i);
    if p.status != Ok {
      return 0, s;
    }
    FrameOf(piece);
    k, t := ChunksStop(cap, sink, p.enc, data, size, i + p.consumed);
    ChunksCons(data, size, i, r.consumed);
    EncodeAllCons(piece, Chunks(data[i + p.consumed..r.consumed], size));
    OneMore(k, size);
    k := k + 1;
  }

  lemma OneMore(k: nat, size: nat)
    ensures size + k * size == (k + 1) * size
    ensures k * size >= 0
  {
  }

  // ------------------------------------------------------ when the count is right

  /** The sink takes everything up to the end of the last flush, and there is room for END. */
  ghost predicate Succeeds(cap: nat, sink: Sink, s: Enc, piece: seq<byte>)
    requires |s.queue| <= cap
  {
    var x, o := Owed(s) + Escape(piece), Backlog(cap, s, piece);
    o.Some? && o.value < cap && Takes(sink, s.offered, Through(s.chunk, x, o.value))
  }

  /** The encoder after a piece that went through. */
  function Sent(cap: nat, s: Enc, piece: seq<byte>): Enc
    requires |s.queue| <= cap && Backlog(cap, s, piece).Some?
  {
    var x := Owed(s) + Escape(piece);
    Advance(s.(queue := x + [END], endPending := false), |Through(s.chunk, x, Backlog(cap, s, piece).value)|)
  }

  lemma SucceedsIff(cap: nat, sink: Sink, s: Enc, piece: seq<byte>)
    requires |s.queue| <= cap
    ensures var r := Push(cap, sink, s, piece);
            && (r.status == Ok <==> Succeeds(cap, sink, s, piece))
            && (r.status == Ok ==> r.enc == Sent(cap, s, piece))
  {
    hide Push, Takes, Escape, Backlog, Advance;
    PushOutcome(cap, sink, s, piece);
  }

  /** The call will stop between pieces: some piece cannot even start, after those before it
      have gone through. */
  ghost predicate StopsBetween(cap: nat, sink: Sink, s: Enc, data: seq<byte>, size: nat, i: nat)
    requires i <= |data| && size > 0
    decreases |data| - i
  {
    && i < |data| && |s.queue| <= cap
    && var piece := data[i..i + Min(size, |data| - i)];
       if Starts(cap, sink, s, piece[0]) then
         Succeeds(cap, sink, s, piece) && StopsBetween(cap, sink, Sent(cap, s, piece), data, size, i + |piece|)
       else true
  }

  /** A failing pushPacket_chunk has committed just the pieces that it reports, so that its
      count is right to resume from. */
  ghost predicate ReportedAll(s: Enc, data: seq<byte>, size: nat, i: nat, r: Chunked)
    requires size > 0 && i <= r.consumed <= |data|
  {
    Wire(r.enc) == Wire(s) + EncodeAll(Chunks(data[i..r.consumed], size))
  }

  /** A call fails with the right count exactly if it stops between pieces. */
  lemma {:induction false} ReportedAllIff(cap: nat, sink: Sink, s: Enc, data: seq<byte>, size: nat, i: nat)
    requires |s.queue| <= cap && i <= |data| && size > 0
    ensures var r := PushChunks(cap, sink, s, data, size, i);
            && i <= r.consumed <= |data|
            && (r.status != Ok && ReportedAll(s, data, size, i, r) <==> StopsBetween(cap, sink, s, data, size, i))
    decreases |data| - i
  {
    hide Wire, PushWith, Escape, Encode, Chunks, EncodeAll, Starts, Succeeds, Sent;
    var r := PushChunks(cap, sink, s, data, size, i);
    NothingYet(data, size, i);
    if i == |data| {
      return;
    }
    var n := Min(size, |data| - i);
    var piece := data[i..i + n];
    var p := Push(cap, sink, s, piece);
    PushConserves(cap, sink, s, piece, Error);
    StartsIff(cap, sink, s, piece);
    SucceedsIff(cap, sink, s, piece);
    if p.status == Ok {
      FrameOf(piece);
      var extra, ended := PushChunksConserves(cap, sink, p.enc, data, size, i + n);
      ReportedAllIff(cap, sink, p.enc, data, size, i + n);
      ChunksCons(data, size, i, r.consumed);
      EncodeAllCons(piece, Chunks(data[i + n..r.consumed], size));
      SameWire(Wire(s), Encode(piece), EncodeAll(Chunks(data[i + n..r.consumed], size)));
    } else {
      assert p.consumed == 0 <==> Escape(piece[0..p.consumed]) == [] by { EscapeIsNothing(piece[0..p.consumed]); }
      WireGrows(Wire(s), Escape(piece[0..p.consumed]), if p.terminated then [END] else []);
    }
  }

  lemma EscapeIsNothing(p: seq<byte>)
    ensures Escape(p) == [] <==> p == []
  {
  }

  lemma SameWire(w: seq<byte>, a: seq<byte>, b: seq<byte>)
    ensures w + (a + b) == w + a + b
  {
  }

  lemma WireGrows(w: seq<byte>, a: seq<byte>, b: seq<byte>)
    ensures w + a + b == w + [] <==> a == [] && b == []
  {
    assert |w + a + b| == |w| + |a| + |b|;
  }

  /** From an empty queue, with a chunk of two or more, the first piece starts, and every piece
      that goes through leaves the queue empty again. */
  lemma {:induction false} NeverStopsBetween(cap: nat, sink: Sink, s: Enc, data: seq<byte>, size: nat, i: nat)
    requires 2 <= cap && 2 <= s.chunk && s.queue == [] && !s.endPending && i <= |data| && size > 0
    ensures !StopsBetween(cap, sink, s, data, size, i)
    decreases |data| - i
  {
    hide Takes, Escape, Plan;
    if i < |data| {
      var piece := data[i..i + Min(size, |data| - i)];
      TakesNothing(sink, s.offered);
      assert Before(Owed(s), 0) == [];
      PlanSteady(cap, s.chunk, 0, piece);
      NeverStopsBetween(cap, sink, Sent(cap, s, piece), data, size, i + |piece|);
    }
  }

  /** So a failing call from an empty queue always leaves something unreported. */
  lemma NeverRightFromEmpty(cap: nat, sink: Sink, s: Enc, data: seq<byte>, size: nat)
    requires 2 <= cap && 2 <= s.chunk && s.queue == [] && !s.endPending && size > 0
    ensures var r := PushChunks(cap, sink, s, data, size, 0);
            r.consumed <= |data| && (r.status != Ok ==> !ReportedAll(s, data, size, 0, r))
  {
    hide PushChunks, ReportedAll, StopsBetween;
    ReportedAllIff(cap, sink, s, data, size, 0);
    NeverStopsBetween(cap, sink, s, data, size, 0);
  }

  /** The count reported on failure is too low to resume from: here both payload bytes are
      already on the wire, yet none is reported, where pushPacket reports two. */
  lemma ChunkUnderReports()
    ensures var sink: Sink := h => if |h| == 2 then RetryLater else Ok;
            var r := PushChunks(4, sink, Fresh(1), [1, 2], 2, 0);
            && r.status == RetryLater && r.consumed == 0 && Wire(r.enc) == [1, 2]
            && Push(4, sink, Fresh(1), [1, 2]).consumed == 2
  {
    var sink: Sink := h => if |h| == 2 then RetryLater else Ok;
    var data: seq<byte> := [1, 2];
    assert data[0..2] == data;
    var s0 := Fresh(1);
    var s1 := Queue(s0, [1]);
    assert Flush(sink, s0) == Reply(s0, Ok);
    var s2 := Taken(s1);
    assert Flush(sink, s1) == FlushUpTo(sink, s2, 0) == Reply(s2, Ok);
    assert s2.offered == [1] && s2.accepted == [1] && s2.queue == [];
    var s3 := Queue(s2, [2]);
    assert s3.offered + [s3.queue[0]] == [1, 2];
    assert Flush(sink, s3) == Reply(s3.(offered := [1, 2]), RetryLater);
    assert PushPayload(4, sink, s2, data, 1, Error) == Pushed(s3.(offered := [1, 2]), RetryLater, 2, false);
    assert PushPayload(4, sink, s0, data, 0, Error) == Pushed(s3.(offered := [1, 2]), RetryLater, 2, false);
  }
}
