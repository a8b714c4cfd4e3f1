/** The streaming decoder as a state machine over bytes, and the laws of its runs. */
module DecoderSpec {
  import opened Slip

  /** `buf` is the filled part of the receive buffer, `esc` whether the last byte was ESC. */
  datatype State = State(buf: seq<byte>, esc: bool)

  const RESET: State := State([], false)

  /** Where a step or run ends, the messages it delivers and how often it overflows. */
  datatype Out = Out(state: State, msgs: seq<seq<byte>>, overflows: nat)

  predicate Full(n: nat, s: State)
    requires |s.buf| <= n
  {
    n - |s.buf| < 2
  }

  /** What one byte does once there is room for it. */
  function Accept(s: State, c: byte): Out {
    if s.esc then
      match Unescape(c)
      case Some(b) => Out(State(s.buf + [b], false), [], 0)
      case None => Out(RESET, [], 0)
    else if c == END then Out(RESET, [s.buf], 0)
    else if c == ESC then Out(State(s.buf, true), [], 0)
    else Out(State(s.buf + [c], false), [], 0)
  }

  /** One byte into a decoder with a receive buffer of `n` bytes: a full buffer is dropped
      first, and the byte is then processed in the reset state. */
  function Step(n: nat, s: State, c: byte): (r: Out)
    requires 1 <= n && |s.buf| <= n
    ensures |r.state.buf| <= n
  {
    if Full(n, s) then Accept(RESET, c).(overflows := 1) else Accept(s, c)
  }

  /** The bytes on which the decoder empties its buffer. */
  predicate Resets(n: nat, s: State, c: byte)
    requires |s.buf| <= n
  {
    Full(n, s) || if s.esc then Unescape(c) == None else c == END
  }

  function Then(a: Out, b: Out): Out {
    Out(b.state, a.msgs + b.msgs, a.overflows + b.overflows)
  }

  function Run(n: nat, s: State, data: seq<byte>): (r: Out)
    requires 1 <= n && |s.buf| <= n
    ensures |r.state.buf| <= n
    decreases |data|
  {
    if data == [] then Out(s, [], 0)
    else var a := Step(n, s, data[0]); Then(a, Run(n, a.state, data[1..]))
  }

  lemma RunEmpty(n: nat, s: State)
    requires 1 <= n && |s.buf| <= n
    ensures Run(n, s, []) == Out(s, [], 0)
  {
  }

  lemma {:induction false} RunConcat(n: nat, s: State, a: seq<byte>, b: seq<byte>)
    requires 1 <= n && |s.buf| <= n
    ensures Run(n, s, a + b) == Then(Run(n, s, a), Run(n, Run(n, s, a).state, b))
    decreases |a|
  {
    hide Step;
    if a == [] {
      assert a + b == b;
    } else {
      assert (a + b)[1..] == a[1..] + b;
      RunConcat(n, Step(n, s, a[0]).state, a[1..], b);
    }
  }

  lemma RunSnoc(n: nat, s: State, a: seq<byte>, c: byte)
    requires 1 <= n && |s.buf| <= n
    ensures Run(n, s, a + [c]) == Then(Run(n, s, a), Step(n, Run(n, s, a).state, c))
  {
    RunConcat(n, s, a, [c]);
  }

  /** Where the buffer is emptied a byte shows in what the step delivers or loses, or ends a
      pending escape in the reset state. */
  lemma ResetsIff(n: nat, s: State, c: byte)
    requires 1 <= n && |s.buf| <= n
    ensures var r := Step(n, s, c);
            Resets(n, s, c) <==> r.msgs != [] || r.overflows == 1 || (s.esc && r.state == RESET)
  {
  }

  // ------------------------------------------------------- self-synchronisation

  /** A raw END leaves the decoder reset, whatever state it meets. */
  lemma EndResets(n: nat, s: State, a: seq<byte>)
    requires 1 <= n && |s.buf| <= n
    ensures Run(n, s, a + [END]).state == RESET
  {
    RunSnoc(n, s, a, END);
  }

  /** Hence no frame can be damaged by anything that came before the END preceding it. */
  lemma SelfSynchronising(n: nat, s: State, a: seq<byte>, b: seq<byte>)
    requires 1 <= n && |s.buf| <= n
    ensures Run(n, s, a + [END] + b).msgs == Run(n, s, a + [END]).msgs + Run(n, RESET, b).msgs
    ensures Run(n, s, a + [END] + b).state == Run(n, RESET, b).state
  {
    EndResets(n, s, a);
    RunConcat(n, s, a + [END], b);
  }

  /** The states that a decoder with room for at least two bytes can be in: a pending
      escape always has a free place. */
  predicate Reachable(n: nat, s: State) {
    |s.buf| < n && (s.esc ==> |s.buf| + 1 < n)
  }

  /** The buffer is never filled completely and every delivered message leaves two bytes
      of it unused. */
  lemma {:induction false} RunBounds(n: nat, s: State, data: seq<byte>)
    requires 2 <= n && Reachable(n, s)
    ensures Reachable(n, Run(n, s, data).state)
    ensures forall m | m in Run(n, s, data).msgs :: |m| <= n - 2
    decreases |data|
  {
    if data != [] {
      RunBounds(n, Step(n, s, data[0]).state, data[1..]);
    }
  }

  // --------------------------------------------------- exact law for escaped payload

  function Last(p: seq<byte>, k: nat): seq<byte>
    requires k <= |p|
  {
    p[|p| - k..]
  }

  /** How many bytes are buffered after `k` payload bytes when `w` of them fill the buffer. */
  function HeldCount(w: nat, k: nat): (h: nat)
    requires 1 <= w
    ensures h <= w && h <= k
  {
    DivModBounds(w, k);
    if k > 0 && k % w == 0 then w else k % w
  }

  function HeldOverflows(w: nat, k: nat): nat
    requires 1 <= w
  {
    DivModBounds(w, k);
    if k > 0 && k % w == 0 then k / w - 1 else k / w
  }

  lemma DivModBounds(w: nat, k: nat)
    requires 1 <= w
    ensures 0 <= k % w < w && k % w <= k && k == k / w * w + k % w && 0 <= k / w
    ensures k > 0 && k % w == 0 ==> w <= k && 1 <= k / w
  {
    MulBounds(k / w, w);
  }

  lemma DivModSucc(w: nat, k: nat)
    requires 1 <= w
    ensures k % w + 1 < w ==> (k + 1) % w == k % w + 1 && (k + 1) / w == k / w
    ensures k % w + 1 == w ==> (k + 1) % w == 0 && (k + 1) / w == k / w + 1
  {
    DivModBounds(w, k);
    if k % w + 1 == w {
      DivModUnique(w, k + 1, k / w + 1, 0);
    } else {
      DivModUnique(w, k + 1, k / w, k % w + 1);
    }
  }

  lemma DivModUnique(w: nat, k: nat, q: nat, r: nat)
    requires r < w && k == q * w + r
    ensures k / w == q && k % w == r
  {
    DivModBounds(w, k);
    var d := k / w - q;
    assert d * w == r - k % w;
    MulBounds(d, w);
  }

  lemma MulBounds(d: int, w: int)
    requires 0 <= w
    ensures d >= 1 ==> d * w >= w
    ensures d <= -1 ==> d * w <= -w
    ensures d == 0 ==> d * w == 0
  {
  }

  /** One escaped byte is stored as a whole: into a full buffer as its only content,
      otherwise behind what is there.  An overflow never falls inside the escape pair. */
  lemma RunEscapedByte(n: nat, buf: seq<byte>, b: byte)
    requires 2 <= n && |buf| < n
    ensures Run(n, State(buf, false), EscapeByte(b)) ==
            if |buf| == n - 1 then Out(State([b], false), [], 1)
            else Out(State(buf + [b], false), [], 0)
  {
    var s := State(buf, false);
    if Special(b) {
      var c := EscapeByte(b)[1];
      assert EscapeByte(b) == [ESC] + [c] && Unescape(c) == Some(b);
      RunConcat(n, s, [ESC], [c]);
      assert Run(n, s, [ESC]) == Step(n, s, ESC);
      var t := Step(n, s, ESC).state;
      assert Run(n, t, [c]) == Step(n, t, c);
    } else {
      assert Run(n, s, [b]) == Step(n, s, b);
    }
  }

  /** This is where the receive buffer must have two bytes: with one, the overflow check
      strikes between ESC and its partner. */
  lemma PairKeptIff(n: nat, b: byte)
    requires 1 <= n && Special(b)
    ensures Run(n, RESET, EscapeByte(b)).state == State([b], false) <==> 2 <= n
  {
    if 2 <= n {
      RunEscapedByte(n, [], b);
      assert [] + [b] == [b];
    } else {
      var c := EscapeByte(b)[1];
      assert EscapeByte(b) == [ESC] + [c];
      RunSnoc(n, RESET, [ESC], c);
      assert Run(n, RESET, EscapeByte(b)).state == State([c], false);
      assert [c][0] != [b][0];
    }
  }

  /** What the decoder holds after `p`: its last bytes, with the overflows counted. */
  function Holding(w: nat, p: seq<byte>): Out
    requires 1 <= w
  {
    Out(State(Last(p, HeldCount(w, |p|)), false), [], HeldOverflows(w, |p|))
  }

  lemma HoldingSnoc(n: nat, q: seq<byte>, b: byte)
    requires 2 <= n
    ensures |Holding(n - 1, q).state.buf| < n
    ensures Then(Holding(n - 1, q), Run(n, Holding(n - 1, q).state, EscapeByte(b))) == Holding(n - 1, q + [b])
  {
    hide Run, EscapeByte, HeldCount, HeldOverflows;
    var h := HeldCount(n - 1, |q|);
    RunEscapedByte(n, Last(q, h), b);
    HeldSucc(n - 1, |q|);
    if h == n - 1 {
      assert [b] == Last(q + [b], 1);
    } else {
      assert Last(q, h) + [b] == Last(q + [b], h + 1);
    }
  }

  /** The state after any escaped payload: the buffer holds its last bytes, and the
      overflows so far are counted by division. */
  lemma {:induction false} RunEscaped(n: nat, p: seq<byte>)
    requires 2 <= n
    ensures Run(n, RESET, Escape(p)) == Holding(n - 1, p)
    decreases |p|
  {
    hide Run, Escape, Holding;
    if p == [] {
      RunEscapedNone(n);
    } else {
      var k := |p| - 1;
      RunEscaped(n, p[..k]);
      RunEscapedLast(n, p[..k], p[k]);
      assert p == p[..k] + [p[k]];
    }
  }

  lemma RunEscapedNone(n: nat)
    requires 2 <= n
    ensures Run(n, RESET, Escape([])) == Holding(n - 1, [])
  {
  }

  lemma RunEscapedLast(n: nat, q: seq<byte>, b: byte)
    requires 2 <= n && Run(n, RESET, Escape(q)) == Holding(n - 1, q)
    ensures Run(n, RESET, Escape(q + [b])) == Holding(n - 1, q + [b])
  {
    hide Run, Escape, EscapeByte, Holding;
    EscapeSnoc(q, b);
    RunConcat(n, RESET, Escape(q), EscapeByte(b));
    HoldingSnoc(n, q, b);
  }

  lemma HeldSucc(w: nat, k: nat)
    requires 1 <= w
    ensures var h, h' := HeldCount(w, k), HeldCount(w, k + 1);
            if h == w then h' == 1 && HeldOverflows(w, k + 1) == HeldOverflows(w, k) + 1
            else h' == h + 1 && HeldOverflows(w, k + 1) == HeldOverflows(w, k)
  {
    DivModBounds(w, k);
    DivModBounds(w, k + 1);
    DivModSucc(w, k);
    if w == 1 {
      DivModUnique(w, k, k, 0);
    }
  }

  /** The byte after an escaped payload finds `|p| % (n - 1)` of its bytes buffered, after
      `|p| / (n - 1)` overflows. */
  lemma StepAfterEscaped(n: nat, p: seq<byte>, c: byte)
    requires 2 <= n
    ensures |p| % (n - 1) <= |p| && |p| % (n - 1) < n - 1
    ensures Run(n, RESET, Escape(p) + [c]) ==
            Accept(State(Last(p, |p| % (n - 1)), false), c).(overflows := |p| / (n - 1))
  {
    hide Run, Escape, Holding, Accept;
    DivModBounds(n - 1, |p|);
    RunEscaped(n, p);
    RunSnoc(n, RESET, Escape(p), c);
    StepFromHeld(n, p, c);
  }

  lemma StepFromHeld(n: nat, p: seq<byte>, c: byte)
    requires 2 <= n
    ensures |p| % (n - 1) <= |p|
    ensures |Holding(n - 1, p).state.buf| < n
    ensures Then(Holding(n - 1, p), Step(n, Holding(n - 1, p).state, c)) ==
            Accept(State(Last(p, |p| % (n - 1)), false), c).(overflows := |p| / (n - 1))
  {
    DivModBounds(n - 1, |p|);
    hide Accept;
    var r := Step(n, Holding(n - 1, p).state, c);
    assert [] + r.msgs == r.msgs;
    AcceptCounts(RESET, c);
    AcceptCounts(State(Last(p, |p| % (n - 1)), false), c);
  }

  lemma AcceptCounts(s: State, c: byte)
    ensures Accept(s, c).overflows == 0
  {
  }

  /** Exact overflow law: a frame yields exactly one message, the last |p| mod (n-1) bytes
      of its payload, after exactly |p| div (n-1) overflows. */
  lemma FrameLaw(n: nat, p: seq<byte>)
    requires 2 <= n
    ensures |p| % (n - 1) <= |p|
    ensures Run(n, RESET, Encode(p)) == Out(RESET, [Last(p, |p| % (n - 1))], |p| / (n - 1))
  {
    StepAfterEscaped(n, p, END);
  }

  // --------------------------------------------------------- law for arbitrary input

  /** What is left of an END-free segment after its last bad escape pair, decoded;
      nothing if the segment ends in the middle of a pair. */
  function Surviving(s: seq<byte>): (r: Option<seq<byte>>)
    decreases |s|
  {
    var r := Parse(s);
    match r.stop
    case AtEnd | Truncated => None
    case NoEnd => Some(r.payload)
    case BadEscape => if r.used == 0 then None else Surviving(s[r.used..])
  }

  /** The runs between bad escape pairs overflow independently of each other. */
  function SegmentOverflows(w: nat, s: seq<byte>): nat
    requires 1 <= w
    decreases |s|
  {
    var r := Parse(s);
    DivModBounds(w, |r.payload|);
    |r.payload| / w + if r.stop == BadEscape && r.used != 0 then SegmentOverflows(w, s[r.used..]) else 0
  }

  function SegmentMessages(n: nat, s: seq<byte>): seq<seq<byte>>
    requires 2 <= n
  {
    match Surviving(s)
    case None => []
    case Some(p) => DivModBounds(n - 1, |p|); [Last(p, |p| % (n - 1))]
  }

  /** The decoder on an arbitrary END-free segment and its END: bad escape pairs discard
      everything before them, an unpaired ESC discards everything, and what survives is
      delivered up to overflow. */
  lemma {:induction false} SegmentLaw(n: nat, s: seq<byte>)
    requires 2 <= n && END !in s
    ensures Run(n, RESET, s + [END]) == Out(RESET, SegmentMessages(n, s), SegmentOverflows(n - 1, s))
    decreases |s|
  {
    hide Run, Parse;
    var x := ShapeOfParse(s);
    var Parsed(stop, p, used) := Parse(s);
    match stop
    case AtEnd =>
      EncodeDecode(s);
    case NoEnd =>
      StepAfterEscaped(n, p, END);
    case Truncated =>
      StepAfterEscaped(n, p, ESC);
      RunSnoc(n, RESET, s, END);
    case BadEscape =>
      var rest := s[used..];
      SegmentLaw(n, rest);
      BadPairResets(n, p, x);
      assert s[..used] == Escape(p) + [ESC, x];
      assert s + [END] == (Escape(p) + [ESC, x]) + (rest + [END]);
      RunConcat(n, RESET, Escape(p) + [ESC, x], rest + [END]);
  }

  lemma BadPairResets(n: nat, p: seq<byte>, x: byte)
    requires 2 <= n && Unescape(x) == None
    ensures Run(n, RESET, Escape(p) + [ESC, x]) == Out(RESET, [], |p| / (n - 1))
  {
    StepAfterEscaped(n, p, ESC);
    assert Escape(p) + [ESC, x] == (Escape(p) + [ESC]) + [x];
    RunSnoc(n, RESET, Escape(p) + [ESC], x);
  }

  /** The END-terminated segments of a stream; an unterminated rest is not one of them. */
  function Segments(x: seq<byte>): seq<seq<byte>>
    decreases |x|
  {
    if END !in x then []
    else var i := FirstEnd(x); [x[..i]] + Segments(x[i + 1..])
  }

  function FirstEnd(x: seq<byte>): (i: nat)
    requires END in x
    ensures i < |x| && x[i] == END && END !in x[..i]
  {
    if x[0] == END then 0
    else
      assert x == [x[0]] + x[1..];
      var i := FirstEnd(x[1..]);
      assert x[..i + 1] == [x[0]] + x[1..][..i];
      i + 1
  }

  function StreamMessages(n: nat, segments: seq<seq<byte>>): seq<seq<byte>>
    requires 2 <= n
  {
    if segments == [] then [] else SegmentMessages(n, segments[0]) + StreamMessages(n, segments[1..])
  }

  lemma {:induction false} NoEndNoMessages(n: nat, s: State, x: seq<byte>)
    requires 1 <= n && |s.buf| <= n && END !in x
    ensures Run(n, s, x).msgs == []
    decreases |x|
  {
    if x != [] {
      NoEndNoMessages(n, Step(n, s, x[0]).state, x[1..]);
    }
  }

  /** The complete meaning of the decoder: on every byte stream it delivers, segment by
      segment, what SegmentLaw says, and nothing else. */
  lemma {:induction false} StreamLaw(n: nat, x: seq<byte>)
    requires 2 <= n
    ensures Run(n, RESET, x).msgs == StreamMessages(n, Segments(x))
    decreases |x|
  {
    if END !in x {
      NoEndNoMessages(n, RESET, x);
    } else {
      var i := FirstEnd(x);
      var a, b := x[..i], x[i + 1..];
      assert x == a + [END] + b;
      SelfSynchronising(n, RESET, a, b);
      SegmentLaw(n, a);
      StreamLaw(n, b);
      assert Segments(x)[1..] == Segments(b);
    }
  }

  /** Appending END to an END-free input completes a frame exactly if the input is escaped
      payload throughout. */
  lemma EndCompletes(s: seq<byte>)
    requires END !in s
    ensures Parse(s + [END]).stop == AtEnd <==> Parse(s).stop == NoEnd
    ensures Parse(s).stop == NoEnd ==> Parse(s + [END]).payload == Parse(s).payload && s == Escape(Parse(s).payload)
  {
    hide Parse, Escape;
    var x := ShapeOfParse(s);
    var r := Parse(s);
    if r.stop == NoEnd {
      ParseOfShape(s + [END], AtEnd, r.payload, 0);
    }
    if Parse(s + [END]).stop == AtEnd {
      EncodeDecode(s + [END]);
      var t := Parse(s + [END]);
      OnlyEnd(s, t.used - 1);
      assert (s + [END])[..t.used][..t.used - 1] == s;
      ParseOfShape(s, NoEnd, t.payload, 0);
    }
  }

  /** The streaming decoder refines the one-shot parser: on a segment that the parser
      decodes and that fits, it delivers exactly the parser's payload, without overflow. */
  lemma StreamingRefinesBatch(n: nat, s: seq<byte>)
    requires 2 <= n && END !in s && Parse(s + [END]).stop == AtEnd
    ensures var p := Parse(s + [END]).payload;
            |p| <= n - 2 ==> Run(n, RESET, s + [END]) == Out(RESET, [p], 0)
  {
    hide Run, Parse, Escape;
    EndCompletes(s);
    DeliveredIffFits(n, Parse(s).payload);
  }

  lemma OnlyEnd(s: seq<byte>, i: nat)
    requires END !in s && i <= |s| && (s + [END])[i] == END
    ensures i == |s|
  {
  }

  /** A frame comes through whole exactly when its payload fits into the buffer with two
      bytes to spare. */
  lemma DeliveredIffFits(n: nat, p: seq<byte>)
    requires 2 <= n
    ensures Run(n, RESET, Encode(p)).msgs == [p] <==> |p| <= n - 2
    ensures |p| <= n - 2 ==> Run(n, RESET, Encode(p)) == Out(RESET, [p], 0)
  {
    FrameLaw(n, p);
    DivModBounds(n - 1, |p|);
    if |p| <= n - 2 {
      DivModUnique(n - 1, |p|, 0, |p|);
    } else {
      assert |Last(p, |p| % (n - 1))| < |p|;
    }
  }

  // ------------------------------------------------------ the error-reporting variant

  /** consume_ex: a byte that meets a full buffer is dropped together with the buffer, and
      both kinds of failure are reported. */
  function StepEx(n: nat, s: State, c: byte): (r: (Out, ErrorCode))
    requires |s.buf| <= n
    ensures |r.0.state.buf| <= n
    ensures r.1 != Success ==> r.0.state == RESET && r.0.msgs == []
  {
    if Full(n, s) then (Out(RESET, [], 1), RXBufferOverflow)
    else if s.esc && Unescape(c) == None then (Out(RESET, [], 0), DecodeInvalidEscapeSequence)
    else (Accept(s, c), Success)
  }

  /** What the two codes mean. */
  lemma StepExCodes(n: nat, s: State, c: byte)
    requires |s.buf| <= n
    ensures var (r, e) := StepEx(n, s, c);
            && (e == RXBufferOverflow <==> r.overflows == 1)
            && (e == RXBufferOverflow <==> n < |s.buf| + 2)
            && (e == DecodeInvalidEscapeSequence <==>
                  |s.buf| + 2 <= n && s.esc && c != ESCEND && c != ESCESC)
            && (e == Success <==> e != RXBufferOverflow && e != DecodeInvalidEscapeSequence)
  {
  }

  /** Feeding every byte, whatever is reported on the way. */
  function RunEx(n: nat, s: State, data: seq<byte>): (r: Out)
    requires |s.buf| <= n
    ensures |r.state.buf| <= n
    decreases |data|
  {
    if data == [] then Out(s, [], 0)
    else var a := StepEx(n, s, data[0]).0; Then(a, RunEx(n, a.state, data[1..]))
  }

  /** Index and code of the first reported error; |data| and Success if there is none. */
  function FirstFail(n: nat, s: State, data: seq<byte>): (r: (nat, ErrorCode))
    requires |s.buf| <= n
    ensures r.0 <= |data| && (r.1 == Success <==> r.0 == |data|)
    decreases |data|
  {
    if data == [] then (0, Success)
    else
      var (a, e) := StepEx(n, s, data[0]);
      if e != Success then (0, e)
      else var r := FirstFail(n, a.state, data[1..]); (1 + r.0, r.1)
  }

  lemma RunExEmpty(n: nat, s: State)
    requires |s.buf| <= n
    ensures RunEx(n, s, []) == Out(s, [], 0) && FirstFail(n, s, []) == (0, Success)
  {
  }

  lemma FirstFailOne(n: nat, s: State, c: byte)
    requires |s.buf| <= n
    ensures FirstFail(n, s, [c]) == (if StepEx(n, s, c).1 == Success then 1 else 0, StepEx(n, s, c).1)
  {
  }

  lemma {:induction false} RunExConcat(n: nat, s: State, a: seq<byte>, b: seq<byte>)
    requires |s.buf| <= n
    ensures RunEx(n, s, a + b) == Then(RunEx(n, s, a), RunEx(n, RunEx(n, s, a).state, b))
    decreases |a|
  {
    hide StepEx;
    if a == [] {
      assert a + b == b;
    } else {
      assert (a + b)[1..] == a[1..] + b;
      RunExConcat(n, StepEx(n, s, a[0]).0.state, a[1..], b);
    }
  }

  lemma RunExSnoc(n: nat, s: State, a: seq<byte>, c: byte)
    requires |s.buf| <= n
    ensures RunEx(n, s, a + [c]) == Then(RunEx(n, s, a), StepEx(n, RunEx(n, s, a).state, c).0)
  {
    RunExConcat(n, s, a, [c]);
  }

  lemma {:induction false} FirstFailConcat(n: nat, s: State, a: seq<byte>, b: seq<byte>)
    requires |s.buf| <= n
    ensures FirstFail(n, s, a + b) ==
            if FirstFail(n, s, a).0 < |a| then FirstFail(n, s, a)
            else var r := FirstFail(n, RunEx(n, s, a).state, b); (|a| + r.0, r.1)
    decreases |a|
  {
    hide StepEx;
    if a == [] {
      assert a + b == b;
    } else {
      assert (a + b)[1..] == a[1..] + b;
      FirstFailConcat(n, StepEx(n, s, a[0]).0.state, a[1..], b);
    }
  }

  /** Up to overflow the two variants are the same machine: neither overflows unless the
      other does, and without overflow they deliver the same messages and end alike. */
  lemma {:induction false} ExAgrees(n: nat, s: State, data: seq<byte>)
    requires 1 <= n && |s.buf| <= n
    ensures Run(n, s, data).overflows == 0 <==> RunEx(n, s, data).overflows == 0
    ensures Run(n, s, data).overflows == 0 ==> Run(n, s, data) == RunEx(n, s, data)
    decreases |data|
  {
    if data != [] && !Full(n, s) {
      assert StepEx(n, s, data[0]).0 == Step(n, s, data[0]);
      ExAgrees(n, Step(n, s, data[0]).state, data[1..]);
    }
  }

  lemma {:induction false} RunExBounds(n: nat, s: State, data: seq<byte>)
    requires 2 <= n && Reachable(n, s)
    ensures Reachable(n, RunEx(n, s, data).state)
    ensures forall m | m in RunEx(n, s, data).msgs :: |m| <= n - 2
    decreases |data|
  {
    if data != [] {
      RunExBounds(n, StepEx(n, s, data[0]).0.state, data[1..]);
    }
  }

  /** consume_ex resynchronises at END just as consume does. */
  lemma ExSelfSynchronising(n: nat, s: State, a: seq<byte>, b: seq<byte>)
    requires |s.buf| <= n
    ensures RunEx(n, s, a + [END] + b).msgs == RunEx(n, s, a + [END]).msgs + RunEx(n, RESET, b).msgs
    ensures RunEx(n, s, a + [END] + b).state == RunEx(n, RESET, b).state
  {
    RunExSnoc(n, s, a, END);
    RunExConcat(n, s, a + [END], b);
  }

  lemma ExDeliveredIffFits(n: nat, p: seq<byte>)
    requires 2 <= n
    ensures RunEx(n, RESET, Encode(p)).msgs == [p] <==> |p| <= n - 2
  {
    if |p| <= n - 2 {
      DeliveredIffFits(n, p);
      ExAgrees(n, RESET, Encode(p));
    } else {
      RunExBounds(n, RESET, Encode(p));
      assert p in [p];
    }
  }
}
