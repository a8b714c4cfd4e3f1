/** Where a failing pushPacket call stops: how much of the payload it has consumed, what it has
    offered to the sink, and what it leaves behind. */
module EncoderFailure {
  import opened Slip
  import opened EncoderSpec
  import opened EncoderLaws
  import opened EncoderOutcome

  // ----------------------------------------------------------- how much is consumed

  /** The queue length when byte `b` is queued behind `data`, if the payload can get that far. */
  function PlanByte(cap: nat, chunk: nat, q: nat, data: seq<byte>, b: byte): (r: Option<nat>)
    requires q <= cap
    ensures r.Some? ==> r.value <= q + |Escape(data)|
  {
    match Plan(cap, chunk, q, data)
    case None => None
    case Some(p) => Room(cap, chunk, p, |EscapeByte(b)|)
  }

  lemma {:induction false} PayloadConsumes(cap: nat, sink: Sink, s: Enc, data: seq<byte>, i: nat)
    requires |s.queue| <= cap && i <= |data|
    ensures PushPayload(cap, sink, s, data, i, Error).consumed >= i
    decreases |data| - i
  {
    hide Flush, EncodeOne;
    if i < |data| {
      var e := EncodeOne(cap, sink, s, data[i]);
      if e.status == Ok {
        FlushShrinks(sink, e.enc);
        var f := Flush(sink, e.enc);
        if f.status == Ok {
          PayloadConsumes(cap, sink, f.enc, data, i + 1);
        }
      }
    }
  }

  lemma FlushShrinks(sink: Sink, s: Enc)
    ensures |Flush(sink, s).enc.queue| <= |s.queue|
  {
  }

  /** The byte at `i` is queued exactly if room for it can be made. */
  lemma CountHere(cap: nat, sink: Sink, s: Enc, data: seq<byte>, i: nat)
    requires |s.queue| <= cap && i < |data|
    ensures PushPayload(cap, sink, s, data, i, Error).consumed > i <==>
            EnsureFree(cap, sink, s, |EscapeByte(data[i])|).status == Ok
  {
    hide Flush, EnsureFree, EscapeByte;
    var e := EncodeOne(cap, sink, s, data[i]);
    if e.status == Ok {
      FlushShrinks(sink, e.enc);
      var f := Flush(sink, e.enc);
      if f.status == Ok {
        PayloadConsumes(cap, sink, f.enc, data, i + 1);
      }
    }
  }

  /** Later bytes are a matter of the stages after this one, or out of reach. */
  lemma CountLater(cap: nat, sink: Sink, s: Enc, data: seq<byte>, i: nat)
    requires |s.queue| <= cap && i < |data|
    ensures var e, r := EncodeOne(cap, sink, s, data[i]), PushPayload(cap, sink, s, data, i, Error);
            && |Flush(sink, e.enc).enc.queue| <= cap
            && if e.status == Ok && Flush(sink, e.enc).status == Ok
               then r == PushPayload(cap, sink, Flush(sink, e.enc).enc, data, i + 1, Error)
               else r.consumed <= i + 1
  {
    hide Flush, EncodeOne;
    FlushShrinks(sink, EncodeOne(cap, sink, s, data[i]).enc);
  }

  /** The payload stage gets byte `j` queued exactly if there is a plan that far and the sink
      takes what has to leave first. */
  lemma {:induction false} PayloadCount(cap: nat, sink: Sink, s: Enc, data: seq<byte>, i: nat, j: nat)
    requires |s.queue| <= cap && i <= j < |data|
    ensures var o := PlanByte(cap, s.chunk, |s.queue|, data[i..j], data[j]);
            PushPayload(cap, sink, s, data, i, Error).consumed > j <==>
            o.Some? && Takes(sink, s.offered, Before(s.queue + Escape(data[i..j]), o.value))
    decreases j - i
  {
    hide Takes, Flush, EnsureFree, EncodeOne, EscapeByte, PushPayload, Advance, Room, Escape, Plan;
    if i == j {
      CountHere(cap, sink, s, data, i);
      EnsureFreeOutcome(cap, sink, s, |EscapeByte(data[i])|);
      PlanNothing(cap, s.chunk, |s.queue|, data, i);
      assert s.queue + [] == s.queue;
      return;
    }
    var b, rest, e := data[i], data[i + 1..j], EncodeOne(cap, sink, s, data[i]);
    var esc := EscapeByte(b);
    var o := Room(cap, s.chunk, |s.queue|, |esc|);
    PlanNext(cap, s.chunk, |s.queue|, data, i, j);
    EscapeRest(data, i, j);
    ByteOutcome(cap, sink, s, b);
    CountLater(cap, sink, s, data, i);
    if o.Some? {
      var m := |s.queue + esc| - Rest(s.chunk, o.value + |esc|);
      var x := s.queue + esc + Escape(rest);
      assert x == s.queue + Escape(data[i..j]);
      assert x[..m] == (s.queue + esc)[..m];
      var l := PlanByte(cap, s.chunk, Rest(s.chunk, o.value + |esc|), rest, data[j]);
      if l.Some? {
        TakesPrefix(sink, s.offered, x, m, |x| - l.value);
      }
      if e.status == Ok && Flush(sink, e.enc).status == Ok {
        AdvanceQueue(s, esc, Escape(rest), m);
        Advanced(Queue(s, esc), m);
        PayloadCount(cap, sink, Flush(sink, e.enc).enc, data, i + 1, j);
      }
    }
  }

  lemma PlanNothing(cap: nat, chunk: nat, q: nat, data: seq<byte>, i: nat)
    requires q <= cap && i <= |data|
    ensures Plan(cap, chunk, q, data[i..i]) == Some(q) && Escape(data[i..i]) == []
  {
  }

  lemma PlanNext(cap: nat, chunk: nat, q: nat, data: seq<byte>, i: nat, j: nat)
    requires q <= cap && i < j <= |data|
    ensures var w := |EscapeByte(data[i])|;
            Plan(cap, chunk, q, data[i..j]) ==
            match Room(cap, chunk, q, w)
            case None => None
            case Some(r) => Plan(cap, chunk, Rest(chunk, r + w), data[i + 1..j])
  {
    hide Room, EscapeByte, Plan;
    PlanCons(cap, chunk, q, data[i..j]);
    assert data[i..j][1..] == data[i + 1..j];
  }

  lemma Advanced(s: Enc, k: nat)
    requires k <= |s.queue|
    ensures var t := Advance(s, k);
            t.queue == s.queue[k..] && t.offered == s.offered + s.queue[..k] && t.chunk == s.chunk
  {
  }

  /** Before the call it is known whether payload byte `j` will be consumed: there is a plan for
      the bytes before it and room for it, and the sink takes what has to leave by then. */
  ghost predicate Reaches(cap: nat, sink: Sink, s: Enc, data: seq<byte>, j: nat)
    requires |s.queue| <= cap && j < |data|
  {
    var q := Opening(cap, s);
    var o := if q.Some? then PlanByte(cap, s.chunk, q.value, data[..j], data[j]) else None;
    o.Some? && Takes(sink, s.offered, Before(Owed(s) + Escape(data[..j]), o.value))
  }

  /** The count that a call returns, whatever its outcome. */
  lemma CountIff(cap: nat, sink: Sink, s: Enc, data: seq<byte>, j: nat)
    requires |s.queue| <= cap && j < |data|
    ensures Push(cap, sink, s, data).consumed > j <==> Reaches(cap, sink, s, data, j)
  {
    hide Takes, Prepare, PushPayload, Opening, Owed, Advance, PlanByte, Escape;
    var p, z, q := Prepare(cap, sink, s), Owed(s), Opening(cap, s);
    PrepareOutcome(cap, sink, s);
    if q.Some? {
      var m, x := |z| - q.value, z + Escape(data[..j]);
      assert x[..m] == z[..m];
      var o := PlanByte(cap, s.chunk, q.value, data[..j], data[j]);
      if o.Some? {
        TakesPrefix(sink, s.offered, x, m, |x| - o.value);
      }
      if p.status == Ok {
        Advanced(s.(queue := z, endPending := false), m);
        assert x[m..] == z[m..] + Escape(data[..j]);
        assert data[0..j] == data[..j];
        PayloadCount(cap, sink, p.enc, data, 0, j);
      }
    }
  }

  // ------------------------------------------------------------- the first byte

  /** The sink takes what has to leave before the first payload byte can be queued. */
  ghost predicate Starts(cap: nat, sink: Sink, s: Enc, b: byte)
    requires |s.queue| <= cap
  {
    var q := Opening(cap, s);
    var o := if q.Some? then Room(cap, s.chunk, q.value, |EscapeByte(b)|) else None;
    o.Some? && Takes(sink, s.offered, Before(Owed(s), o.value))
  }

  /** A call consumes anything at all exactly if its first byte can be queued. */
  lemma StartsIff(cap: nat, sink: Sink, s: Enc, data: seq<byte>)
    requires |s.queue| <= cap && data != []
    ensures Push(cap, sink, s, data).consumed > 0 <==> Starts(cap, sink, s, data[0])
  {
    hide Takes, Push, Opening, Owed, Room, EscapeByte;
    CountIff(cap, sink, s, data, 0);
    assert data[..0] == [] && Owed(s) + [] == Owed(s);
  }

  /** With a chunk of two or more that is decided by the first flush, which a caller can try
      beforehand. */
  lemma StartsByFlush(cap: nat, sink: Sink, s: Enc, data: seq<byte>)
    requires |s.queue| <= cap && 2 <= cap && 2 <= s.chunk && !s.endPending && data != []
    ensures Push(cap, sink, s, data).consumed == 0 <==> Flush(sink, s).status != Ok
  {
    hide Push, Flush, Takes;
    StartsIff(cap, sink, s, data);
    FlushOutcome(sink, s);
    assert Owed(s) == s.queue;
  }

  /** With a chunk of one, a full queue and a special byte in front, the sink has to take two
      bytes; otherwise again what the first flush offers. */
  lemma StartsSlowly(cap: nat, sink: Sink, s: Enc, data: seq<byte>)
    requires |s.queue| <= cap && 2 <= cap && s.chunk == 1 && !s.endPending && data != []
    ensures var n := if |s.queue| == cap && Special(data[0]) then 2 else Min(1, |s.queue|);
            Push(cap, sink, s, data).consumed == 0 <==> !Takes(sink, s.offered, s.queue[..n])
  {
    hide Push, Takes;
    StartsIff(cap, sink, s, data);
    assert Owed(s) == s.queue;
  }

  // ------------------------------------------------- what is offered and left behind

  /** What the sink has taken on the way from `s` to `t`. */
  function Gone(s: Enc, t: Enc): seq<byte>
    requires s.accepted <= t.accepted
  {
    t.accepted[|s.accepted|..]
  }

  /** From `s` to `t` the sink took everything it was offered, but for a last byte that it
      refused with the status returned and that is still at the head of the queue. */
  ghost predicate Offers(sink: Sink, s: Enc, t: Enc, status: Status) {
    && s.accepted <= t.accepted && Takes(sink, s.offered, Gone(s, t))
    && if Refusals(t) == Refusals(s) then t.offered == s.offered + Gone(s, t)
       else t.queue != [] && t.offered == s.offered + Gone(s, t) + [t.queue[0]] && sink(t.offered) == status != Ok
  }

  lemma OffersNothing(sink: Sink, s: Enc, t: Enc, status: Status)
    requires t.accepted == s.accepted && t.offered == s.offered
    ensures Offers(sink, s, t, status)
  {
    assert Gone(s, t) == [];
    assert s.offered + [] == s.offered;
  }

  lemma OffersThen(sink: Sink, s: Enc, t: Enc, u: Enc, status: Status)
    requires Offers(sink, s, t, Ok) && Offers(sink, t, u, status)
    ensures Offers(sink, s, u, status)
  {
    hide Takes;
    var d, e := Gone(s, t), Gone(t, u);
    assert Gone(s, u) == d + e;
    TakesConcat(sink, s.offered, d, e);
    assert s.offered + d + e == s.offered + (d + e);
  }

  lemma {:induction false} FlushUpToTakes(sink: Sink, s: Enc, budget: nat)
    ensures var k := |s.queue| - |FlushUpTo(sink, s, budget).enc.queue|;
            Takes(sink, s.offered, s.queue[..k])
    decreases budget
  {
    hide Takes;
    TakesNothing(sink, s.offered);
    FlushUnfold(sink, s, budget);
    if s.queue != [] && budget > 0 && sink(s.offered + [s.queue[0]]) == Ok {
      var k := |s.queue| - |FlushUpTo(sink, s, budget).enc.queue|;
      FlushUpToTakes(sink, Taken(s), budget - 1);
      TakesOne(sink, s.offered, s.queue[0]);
      TakesPrefix(sink, s.offered, s.queue, 1, k);
      assert s.queue[..1] == [s.queue[0]];
    } else {
      assert s.queue[..0] == [];
    }
  }

  lemma FlushOffers(sink: Sink, s: Enc)
    ensures var f := Flush(sink, s); Offers(sink, s, f.enc, f.status)
  {
    hide Takes;
    FlushLaw(sink, s);
    FlushUpToTakes(sink, s, s.chunk);
    var t := Flush(sink, s).enc;
    var k := |s.queue| - |t.queue|;
    assert Gone(s, t) == s.queue[..k];
    if Flush(sink, s).status != Ok {
      assert s.offered + s.queue[..k + 1] == s.offered + s.queue[..k] + [s.queue[k]];
    }
  }

  lemma EnsureFreeOffers(cap: nat, sink: Sink, s: Enc, n: nat)
    requires |s.queue| <= cap
    ensures var e := EnsureFree(cap, sink, s, n); Offers(sink, s, e.enc, e.status)
  {
    hide Flush, Takes;
    FlushOffers(sink, s);
    OffersNothing(sink, s, s, Ok);
  }

  /** Only `accepted`, `offered` and the head of the queue count. */
  lemma OffersSame(sink: Sink, s: Enc, t: Enc, u: Enc, status: Status)
    requires Offers(sink, s, t, status)
    requires u.accepted == t.accepted && u.offered == t.offered && (status == Ok || u.queue == t.queue)
    ensures Offers(sink, s, u, status)
  {
    hide Takes;
  }

  /** Queueing bytes after a stage and flushing them. */
  lemma QueueOffers(sink: Sink, s: Enc, e: Enc, q: Enc)
    requires Offers(sink, s, e, Ok) && q.accepted == e.accepted && q.offered == e.offered
    ensures var f := Flush(sink, q); Offers(sink, s, f.enc, f.status)
  {
    hide Offers, Flush;
    OffersSame(sink, s, e, q, Ok);
    FlushOffers(sink, q);
    OffersThen(sink, s, q, Flush(sink, q).enc, Flush(sink, q).status);
  }

  lemma PrepareOffers(cap: nat, sink: Sink, s: Enc)
    requires |s.queue| <= cap
    ensures var p := Prepare(cap, sink, s); Offers(sink, s, p.enc, p.status)
  {
    hide Offers, Flush, EnsureFree;
    var f := Flush(sink, s);
    FlushShrinks(sink, s);
    FlushOffers(sink, s);
    if f.status == Ok && f.enc.endPending {
      var e := EnsureFree(cap, sink, f.enc, 1);
      EnsureFreeOffers(cap, sink, f.enc, 1);
      OffersThen(sink, s, f.enc, e.enc, e.status);
      if e.status == Ok {
        QueueOffers(sink, s, e.enc, Queue(e.enc, [END]).(endPending := false));
      }
    }
  }

  lemma EndOffers(cap: nat, sink: Sink, s: Enc, i: nat)
    requires |s.queue| <= cap
    ensures var r := PushEnd(cap, sink, s, i, Error); Offers(sink, s, r.enc, r.status)
  {
    hide Offers, Flush, EnsureFree;
    var e := EnsureFree(cap, sink, s, 1);
    EnsureFreeOffers(cap, sink, s, 1);
    if e.status == Ok {
      QueueOffers(sink, s, e.enc, Queue(e.enc, [END]));
    } else {
      OffersSame(sink, s, e.enc, e.enc.(endPending := true), e.status);
    }
  }

  lemma {:induction false} PayloadOffers(cap: nat, sink: Sink, s: Enc, data: seq<byte>, i: nat)
    requires |s.queue| <= cap && i <= |data|
    ensures var r := PushPayload(cap, sink, s, data, i, Error); Offers(sink, s, r.enc, r.status)
    decreases |data| - i
  {
    hide Offers, Flush, EnsureFree, PushEnd, EscapeByte;
    if i == |data| {
      EndOffers(cap, sink, s, i);
      return;
    }
    var e := EncodeOne(cap, sink, s, data[i]);
    var a := EnsureFree(cap, sink, s, |EscapeByte(data[i])|);
    EnsureFreeOffers(cap, sink, s, |EscapeByte(data[i])|);
    if e.status == Ok {
      QueueOffers(sink, s, a.enc, e.enc);
      FlushShrinks(sink, e.enc);
      var f := Flush(sink, e.enc);
      if f.status == Ok {
        PayloadOffers(cap, sink, f.enc, data, i + 1);
        var r := PushPayload(cap, sink, f.enc, data, i + 1, Error);
        OffersThen(sink, s, f.enc, r.enc, r.status);
      }
    }
  }

  lemma PushOffers(cap: nat, sink: Sink, s: Enc, data: seq<byte>)
    requires |s.queue| <= cap
    ensures var r := Push(cap, sink, s, data); Offers(sink, s, r.enc, r.status)
  {
    hide Offers, Prepare, PushPayload;
    PrepareOffers(cap, sink, s);
    var p := Prepare(cap, sink, s);
    if p.status == Ok {
      PayloadOffers(cap, sink, p.enc, data, 0);
      var r := PushPayload(cap, sink, p.enc, data, 0, Error);
      OffersThen(sink, s, p.enc, r.enc, r.status);
    }
  }

  /** The state after any call, successful or not.  With x the bytes owed and the encoded frame,
      the sink has been offered x up to its first refusal or to where the call stopped, and has
      taken all of that but the refused byte.  What it has not taken of x up to the count
      returned, and of END if the call got that far, is what the encoder owes now. */
  lemma PushStops(cap: nat, sink: Sink, s: Enc, data: seq<byte>)
    requires |s.queue| <= cap
    ensures var r, x := Push(cap, sink, s, data), Owed(s) + Encode(data);
            var k := |r.enc.accepted| - |s.accepted|;
            && r.consumed <= |data| && 0 <= k <= |x|
            && Takes(sink, s.offered, x[..k]) && r.enc.accepted == s.accepted + x[..k]
            && x[..k] + Owed(r.enc) == Owed(s) + Escape(data[..r.consumed]) + (if r.terminated then [END] else [])
            && if Refusals(r.enc) == Refusals(s) then r.enc.offered == s.offered + x[..k]
               else k < |x| && r.enc.offered == s.offered + x[..k + 1] && sink(r.enc.offered) == r.status != Ok
  {
    hide Takes, PushWith, Escape, Owed, Wire;
    PushConserves(cap, sink, s, data, Error);
    PushOffers(cap, sink, s, data);
    var r, x := Push(cap, sink, s, data), Owed(s) + Encode(data);
    var y := Owed(s) + Escape(data[..r.consumed]) + (if r.terminated then [END] else []);
    WireIsOwed(s);
    WireIsOwed(r.enc);
    assert data[0..r.consumed] == data[..r.consumed];
    StopsWithin(Owed(s), data, r.consumed, r.terminated);
    var d, z := Gone(s, r.enc), Owed(r.enc);
    assert r.enc.accepted == s.accepted + d;
    assert Wire(r.enc) == s.accepted + y;
    TakenPrefix(s.accepted, d, z, y, x);
    if Refusals(r.enc) != Refusals(s) {
      OwedHead(r.enc);
      assert s.offered + x[..|d| + 1] == s.offered + d + [z[0]];
    }
  }

  /** What the sink took of the committed bytes `y` is a prefix of them, and of all of `x`. */
  lemma TakenPrefix(a: seq<byte>, d: seq<byte>, z: seq<byte>, y: seq<byte>, x: seq<byte>)
    requires a + d + z == a + y && y <= x
    ensures |d| <= |x| && x[..|d|] == d && d + z == y
    ensures z != [] ==> |d| < |x| && x[|d|] == z[0]
  {
    assert d + z == (a + d + z)[|a|..] == (a + y)[|a|..] == y;
    assert x[..|d|] == y[..|d|] == d;
    if z != [] {
      assert x[|d|] == y[|d|] == (d + z)[|d|];
    }
  }

  lemma WireIsOwed(s: Enc)
    ensures Wire(s) == s.accepted + Owed(s)
  {
  }

  lemma OwedHead(s: Enc)
    requires s.queue != []
    ensures |Owed(s)| > 0 && Owed(s)[0] == s.queue[0]
  {
  }

  lemma StopsWithin(z: seq<byte>, data: seq<byte>, c: nat, terminated: bool)
    requires c <= |data| && (terminated ==> c == |data|)
    ensures z + Escape(data[..c]) + (if terminated then [END] else []) <= z + Encode(data)
  {
    hide Escape;
    var a, b := Escape(data[..c]), Escape(data[c..]);
    assert data == data[..c] + data[c..];
    EscapeConcat(data[..c], data[c..]);
    if terminated {
      assert data[..c] == data;
    } else {
      assert z + Encode(data) == z + a + (b + [END]);
    }
  }
}
