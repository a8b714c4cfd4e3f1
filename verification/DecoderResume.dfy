/** What a caller gets that takes the count of consume_ex at its word.  The count leaves out the
    byte that failed, although the decoder has processed it, so resuming behind the count feeds
    that byte once more. */
module DecoderResume {
  import opened Slip
  import opened DecoderSpec

  /** A reset decoder gets stuck on the first byte exactly if its buffer is below two bytes;
      resuming then never ends. */
  lemma StuckIff(n: nat, data: seq<byte>)
    requires data != []
    ensures FirstFail(n, RESET, data).0 == 0 <==> n < 2
  {
  }

  /** All calls of a caller that resumes behind the count until there is nothing left. */
  function Resume(n: nat, s: State, data: seq<byte>): (r: Out)
    requires 2 <= n && |s.buf| <= n
    decreases |data|, if s == RESET then 0 else 1
  {
    var (k, e) := FirstFail(n, s, data);
    if e == Success then RunEx(n, s, data)
    else StuckIff(n, data); Then(RunEx(n, s, data[..k + 1]), Resume(n, RESET, data[k..]))
  }

  predicate BadPair(n: nat, s: State, c: byte)
    requires |s.buf| <= n
  {
    !Full(n, s) && s.esc && Unescape(c) == None
  }

  /** The decoder that this caller sees: consume, except that the second byte of a bad pair is
      read again as the first of what follows. */
  function StepAgain(n: nat, s: State, c: byte): (r: Out)
    requires 2 <= n && |s.buf| <= n
    ensures |r.state.buf| <= n
  {
    if BadPair(n, s, c) then Step(n, RESET, c) else Step(n, s, c)
  }

  function RunAgain(n: nat, s: State, data: seq<byte>): (r: Out)
    requires 2 <= n && |s.buf| <= n
    ensures |r.state.buf| <= n
    decreases |data|
  {
    if data == [] then Out(s, [], 0)
    else var a := StepAgain(n, s, data[0]); Then(a, RunAgain(n, a.state, data[1..]))
  }

  // ------------------------------------------------------ from calls to single bytes

  lemma ThenAssoc(a: Out, b: Out, c: Out)
    ensures Then(Then(a, b), c) == Then(a, Then(b, c))
  {
  }

  lemma StepIsBoth(n: nat, s: State, c: byte)
    requires 2 <= n && |s.buf| <= n
    ensures var (a, e) := StepEx(n, s, c);
            StepAgain(n, s, c) == if e == Success then a else Then(a, StepEx(n, RESET, c).0)
    ensures StepEx(n, RESET, c).1 == Success
  {
  }

  /** A byte that is accepted belongs to the first call alone. */
  lemma ResumeNext(n: nat, s: State, data: seq<byte>)
    requires 2 <= n && |s.buf| <= n && data != [] && StepEx(n, s, data[0]).1 == Success
    ensures var a := StepEx(n, s, data[0]).0;
            Resume(n, s, data) == Then(a, Resume(n, a.state, data[1..]))
  {
    hide StepEx, FirstFail, RunEx;
    var a, rest := StepEx(n, s, data[0]).0, data[1..];
    var (k, e) := FirstFail(n, a.state, rest);
    PassesFirst(n, s, data, |data|);
    assert data[..|data|] == data && data[1..|data|] == rest;
    if e != Success {
      PassesFirst(n, s, data, k + 2);
      assert data[1..k + 2] == rest[..k + 1];
      assert data[k + 1..] == rest[k..];
      ThenAssoc(a, RunEx(n, a.state, rest[..k + 1]), Resume(n, RESET, rest[k..]));
    }
  }

  lemma PassesFirst(n: nat, s: State, data: seq<byte>, j: nat)
    requires |s.buf| <= n && data != [] && StepEx(n, s, data[0]).1 == Success && 1 <= j <= |data|
    ensures var a := StepEx(n, s, data[0]).0;
            && FirstFail(n, s, data) == (1 + FirstFail(n, a.state, data[1..]).0, FirstFail(n, a.state, data[1..]).1)
            && RunEx(n, s, data[..j]) == Then(a, RunEx(n, a.state, data[1..j]))
  {
    hide StepEx;
    assert data[..j][1..] == data[1..j];
  }

  /** A byte that fails ends one call and begins the next. */
  lemma ResumeFailed(n: nat, s: State, data: seq<byte>)
    requires 2 <= n && |s.buf| <= n && data != [] && StepEx(n, s, data[0]).1 != Success
    ensures Resume(n, s, data) == Then(StepEx(n, s, data[0]).0, Resume(n, RESET, data))
  {
    hide StepEx, FirstFail, RunEx;
    FailsAtOnce(n, s, data);
    assert data[0..] == data;
  }

  lemma FailsAtOnce(n: nat, s: State, data: seq<byte>)
    requires |s.buf| <= n && data != [] && StepEx(n, s, data[0]).1 != Success
    ensures FirstFail(n, s, data) == (0, StepEx(n, s, data[0]).1)
    ensures RunEx(n, s, data[..1]) == StepEx(n, s, data[0]).0
  {
    hide StepEx;
    var a := StepEx(n, s, data[0]).0;
    assert data[..1] == [data[0]];
    RunExEmpty(n, a.state);
    assert a.msgs + [] == a.msgs;
  }

  /** Resuming is running the decoder that reads bad partners twice. */
  lemma {:induction false} ResumeLaw(n: nat, s: State, data: seq<byte>)
    requires 2 <= n && |s.buf| <= n
    ensures Resume(n, s, data) == RunAgain(n, s, data)
    decreases |data|
  {
    hide StepEx, StepAgain, Resume, RunEx;
    if data == [] {
      ResumeNothing(n, s);
      return;
    }
    var c, rest := data[0], data[1..];
    StepIsBoth(n, s, c);
    var (a, e) := StepEx(n, s, c);
    if e == Success {
      ResumeNext(n, s, data);
      ResumeLaw(n, a.state, rest);
    } else {
      var b := StepEx(n, RESET, c).0;
      ResumeFailed(n, s, data);
      ResumeNext(n, RESET, data);
      ResumeLaw(n, b.state, rest);
      ThenAssoc(a, b, Resume(n, b.state, rest));
    }
  }

  lemma ResumeNothing(n: nat, s: State)
    requires 2 <= n && |s.buf| <= n
    ensures Resume(n, s, []) == Out(s, [], 0)
  {
  }

  // ------------------------------------------------------------ without bad pairs

  predicate NoBadPair(n: nat, s: State, data: seq<byte>)
    requires 1 <= n && |s.buf| <= n
    decreases |data|
  {
    data == [] || (!BadPair(n, s, data[0]) && NoBadPair(n, Step(n, s, data[0]).state, data[1..]))
  }

  /** On input without a bad pair the caller gets exactly what consume delivers, overflows
      included: the byte that consume_ex alone would lose is fed again. */
  lemma {:induction false} ResumeIsConsume(n: nat, s: State, data: seq<byte>)
    requires 2 <= n && |s.buf| <= n && NoBadPair(n, s, data)
    ensures Resume(n, s, data) == Run(n, s, data)
    decreases |data|
  {
    hide Resume, BadPair;
    ResumeLaw(n, s, data);
    if data != [] {
      var t := Step(n, s, data[0]).state;
      ResumeIsConsume(n, t, data[1..]);
      ResumeLaw(n, t, data[1..]);
    }
  }

  // --------------------------------------------------------- law for arbitrary input

  lemma {:induction false} AgainConcat(n: nat, s: State, a: seq<byte>, b: seq<byte>)
    requires 2 <= n && |s.buf| <= n
    ensures RunAgain(n, s, a + b) == Then(RunAgain(n, s, a), RunAgain(n, RunAgain(n, s, a).state, b))
    decreases |a|
  {
    hide StepAgain;
    if a == [] {
      assert a + b == b;
    } else {
      assert (a + b)[1..] == a[1..] + b;
      AgainConcat(n, StepAgain(n, s, a[0]).state, a[1..], b);
    }
  }

  lemma AgainOne(n: nat, s: State, c: byte)
    requires 2 <= n && |s.buf| <= n
    ensures RunAgain(n, s, [c]) == StepAgain(n, s, c)
  {
    var a := StepAgain(n, s, c);
    assert RunAgain(n, a.state, []) == Out(a.state, [], 0);
    assert a.msgs + [] == a.msgs;
  }

  lemma AgainByte(n: nat, buf: seq<byte>, b: byte)
    requires 2 <= n && |buf| < n
    ensures RunAgain(n, State(buf, false), EscapeByte(b)) == Run(n, State(buf, false), EscapeByte(b))
  {
    var s := State(buf, false);
    if Special(b) {
      var c := EscapeByte(b)[1];
      assert EscapeByte(b) == [ESC] + [c] && Unescape(c) == Some(b);
      RunConcat(n, s, [ESC], [c]);
      AgainConcat(n, s, [ESC], [c]);
      AgainOne(n, s, ESC);
      AgainOne(n, Step(n, s, ESC).state, c);
    } else {
      AgainOne(n, s, b);
    }
  }

  /** Escaped payload contains no bad pair. */
  lemma {:induction false} AgainEscaped(n: nat, buf: seq<byte>, p: seq<byte>)
    requires 2 <= n && |buf| < n
    ensures RunAgain(n, State(buf, false), Escape(p)) == Run(n, State(buf, false), Escape(p))
    ensures !Run(n, State(buf, false), Escape(p)).state.esc
    decreases |p|
  {
    hide Run, RunAgain, EscapeByte;
    var s := State(buf, false);
    if p == [] {
      AgainNothing(n, s);
    } else {
      AgainByte(n, buf, p[0]);
      RunEscapedByte(n, buf, p[0]);
      RunConcat(n, s, EscapeByte(p[0]), Escape(p[1..]));
      AgainConcat(n, s, EscapeByte(p[0]), Escape(p[1..]));
      AgainEscaped(n, Run(n, s, EscapeByte(p[0])).state.buf, p[1..]);
    }
  }

  lemma AgainNothing(n: nat, s: State)
    requires 2 <= n && |s.buf| <= n
    ensures RunAgain(n, s, []) == Run(n, s, []) == Out(s, [], 0)
  {
  }

  /** Up to the byte after it, escaped payload runs as in consume. */
  lemma AgainAfterEscaped(n: nat, p: seq<byte>, c: byte)
    requires 2 <= n
    ensures RunAgain(n, RESET, Escape(p) + [c]) == Run(n, RESET, Escape(p) + [c])
  {
    hide Run, RunAgain, Escape;
    AgainEscaped(n, [], p);
    var s := Run(n, RESET, Escape(p)).state;
    AgainConcat(n, RESET, Escape(p), [c]);
    AgainOne(n, s, c);
    RunSnoc(n, RESET, Escape(p), c);
  }

  /** How often `k` payload bytes overflow a buffer that `w` of them fill. */
  function Fills(w: nat, k: nat): nat
    requires 1 <= w
  {
    DivModBounds(w, k);
    k / w
  }

  /** After escaped payload and a lone ESC, a byte that is no partner starts afresh. */
  lemma AgainStartsAfresh(n: nat, p: seq<byte>, y: seq<byte>)
    requires 2 <= n && y != [] && Unescape(y[0]) == None
    ensures RunAgain(n, RESET, Escape(p) + [ESC] + y) ==
            Then(Out(RESET, [], Fills(n - 1, |p|)), RunAgain(n, RESET, y))
  {
    hide Run, Escape;
    DivModBounds(n - 1, |p|);
    AgainAfterEscaped(n, p, ESC);
    StepAfterEscaped(n, p, ESC);
    AgainConcat(n, RESET, Escape(p) + [ESC], y);
    AfreshFrom(n, RunAgain(n, RESET, Escape(p) + [ESC]).state, y);
  }

  lemma AfreshFrom(n: nat, s: State, y: seq<byte>)
    requires 2 <= n && |s.buf| <= n && y != [] && BadPair(n, s, y[0])
    ensures RunAgain(n, s, y) == RunAgain(n, RESET, y)
  {
    hide Unescape, Step;
    assert StepAgain(n, s, y[0]) == StepAgain(n, RESET, y[0]);
  }

  /** What an END-free segment comes to: the payload behind its last bad ESC, partner included;
      nothing if an ESC is left alone at its end. */
  function Reread(s: seq<byte>): seq<byte>
    decreases |s|
  {
    var r := Parse(s);
    match r.stop
    case AtEnd | Truncated => []
    case NoEnd => r.payload
    case BadEscape => if r.used < 2 then [] else Reread(s[r.used - 1..])
  }

  function RereadOverflows(w: nat, s: seq<byte>): nat
    requires 1 <= w
    decreases |s|
  {
    var r := Parse(s);
    Fills(w, |r.payload|) + if r.stop == BadEscape && r.used >= 2 then RereadOverflows(w, s[r.used - 1..]) else 0
  }

  /** What overflow leaves of a payload, as in FrameLaw. */
  function Cut(n: nat, p: seq<byte>): seq<byte>
    requires 2 <= n
  {
    DivModBounds(n - 1, |p|);
    Last(p, |p| % (n - 1))
  }

  /** The resuming caller on an arbitrary END-free segment and its END: it always gets exactly
      one message, be it an empty one. */
  lemma {:induction false} AgainSegmentLaw(n: nat, s: seq<byte>)
    requires 2 <= n && END !in s
    ensures RunAgain(n, RESET, s + [END]) == Out(RESET, [Cut(n, Reread(s))], RereadOverflows(n - 1, s))
    decreases |s|
  {
    hide RunAgain, Parse, Escape, Reread, RereadOverflows, Cut, Fills, Then, Unescape;
    var x := ShapeOfParse(s);
    var Parsed(stop, p, used) := Parse(s);
    RereadUnfold(s);
    OverflowsUnfold(n - 1, s);
    NeverAtEnd(s);
    match stop
    case NoEnd =>
      AgainFrame(n, p);
    case Truncated =>
      AgainEscapedEnd(n, p);
      CutNothing(n);
    case BadEscape =>
      var y := s[used - 1..];
      AgainSegmentLaw(n, y);
      PairSplits(s, used, Escape(p), x);
      AgainStartsAfresh(n, p, y + [END]);
      ThenOne(Fills(n - 1, |p|), Cut(n, Reread(y)), RereadOverflows(n - 1, y));
  }

  lemma ThenOne(j: nat, m: seq<byte>, k: nat)
    ensures Then(Out(RESET, [], j), Out(RESET, [m], k)) == Out(RESET, [m], j + k)
  {
  }

  lemma NeverAtEnd(s: seq<byte>)
    requires END !in s
    ensures Parse(s).stop != AtEnd
  {
    hide Parse;
    if Parse(s).stop == AtEnd {
      EncodeDecode(s);
    }
  }

  lemma PairSplits(s: seq<byte>, used: nat, e: seq<byte>, x: byte)
    requires used <= |s| && s[..used] == e + [ESC, x]
    ensures 2 <= used && s[used - 1] == x && s + [END] == e + [ESC] + (s[used - 1..] + [END])
  {
    assert s[..used][used - 1] == x;
    assert s[..used - 1] == s[..used][..used - 1] == e + [ESC];
  }

  lemma AgainFrame(n: nat, p: seq<byte>)
    requires 2 <= n
    ensures RunAgain(n, RESET, Escape(p) + [END]) == Out(RESET, [Cut(n, p)], Fills(n - 1, |p|))
  {
    hide RunAgain, Run, Escape;
    AgainAfterEscaped(n, p, END);
    FrameLaw(n, p);
  }

  lemma CutNothing(n: nat)
    requires 2 <= n
    ensures Cut(n, []) == []
  {
  }

  lemma RereadUnfold(s: seq<byte>)
    ensures var r := Parse(s);
            && (r.stop == NoEnd ==> Reread(s) == r.payload)
            && (r.stop == Truncated ==> Reread(s) == [])
            && (r.stop == BadEscape && 2 <= r.used ==> Reread(s) == Reread(s[r.used - 1..]))
  {
    hide Parse;
  }

  lemma OverflowsUnfold(w: nat, s: seq<byte>)
    requires 1 <= w
    ensures var r := Parse(s);
            RereadOverflows(w, s) ==
            Fills(w, |r.payload|)
            + if r.stop == BadEscape && r.used >= 2 then RereadOverflows(w, s[r.used - 1..]) else 0
  {
    hide Parse;
  }

  lemma AgainEscapedEnd(n: nat, p: seq<byte>)
    requires 2 <= n
    ensures RunAgain(n, RESET, Escape(p) + [ESC] + [END]) == Out(RESET, [[]], Fills(n - 1, |p|))
  {
    hide RunAgain, Escape, Fills;
    AgainStartsAfresh(n, p, [END]);
    AgainOne(n, RESET, END);
  }

  function RereadStream(n: nat, segments: seq<seq<byte>>): (r: seq<seq<byte>>)
    requires 2 <= n
    ensures |r| == |segments|
  {
    if segments == [] then [] else [Cut(n, Reread(segments[0]))] + RereadStream(n, segments[1..])
  }

  lemma {:induction false} AgainNoEnd(n: nat, s: State, x: seq<byte>)
    requires 2 <= n && |s.buf| <= n && END !in x
    ensures RunAgain(n, s, x).msgs == []
    decreases |x|
  {
    if x != [] {
      AgainNoEnd(n, StepAgain(n, s, x[0]).state, x[1..]);
    }
  }

  /** The complete meaning of resuming, on every stream: one message per END. */
  lemma {:induction false} ResumeStreamLaw(n: nat, x: seq<byte>)
    requires 2 <= n
    ensures Resume(n, RESET, x).msgs == RereadStream(n, Segments(x))
    decreases |x|
  {
    hide Resume, RunAgain, Reread, Cut;
    ResumeLaw(n, RESET, x);
    if END !in x {
      AgainNoEnd(n, RESET, x);
    } else {
      var i := FirstEnd(x);
      var a, b := x[..i], x[i + 1..];
      assert x == (a + [END]) + b;
      AgainSegmentLaw(n, a);
      AgainConcat(n, RESET, a + [END], b);
      ResumeStreamLaw(n, b);
      ResumeLaw(n, RESET, b);
      assert Segments(x)[1..] == Segments(b);
    }
  }

  // ------------------------------------------------------- against plain consume

  /** No END of these segments is taken for the partner of an ESC. */
  ghost predicate AllSurvive(segments: seq<seq<byte>>) {
    forall s | s in segments :: Surviving(s).Some?
  }

  lemma AllSurviveCons(segments: seq<seq<byte>>)
    requires segments != []
    ensures AllSurvive(segments) <==> Surviving(segments[0]).Some? && AllSurvive(segments[1..])
  {
    hide Surviving;
    assert segments == [segments[0]] + segments[1..];
    if Surviving(segments[0]).Some? && AllSurvive(segments[1..]) {
      forall s | s in segments ensures Surviving(s).Some? {
        assert s == segments[0] || s in segments[1..];
      }
    }
  }

  lemma {:induction false} CountMessages(n: nat, segments: seq<seq<byte>>)
    requires 2 <= n
    ensures |StreamMessages(n, segments)| <= |segments|
    ensures |StreamMessages(n, segments)| == |segments| <==> AllSurvive(segments)
    decreases |segments|
  {
    hide Surviving, AllSurvive;
    if segments == [] {
      NoneSurvive();
    } else {
      AllSurviveCons(segments);
      CountMessages(n, segments[1..]);
    }
  }

  lemma NoneSurvive()
    ensures AllSurvive([])
  {
  }

  /** The caller gets at least as many messages as consume delivers, and the same number exactly
      if no END is taken for the partner of an ESC. */
  lemma SameNumberIff(n: nat, x: seq<byte>)
    requires 2 <= n
    ensures var a, b := |Run(n, RESET, x).msgs|, |Resume(n, RESET, x).msgs|;
            a <= b && (a == b <==> AllSurvive(Segments(x)))
  {
    hide Run, Resume, Segments, AllSurvive, StreamMessages;
    StreamLaw(n, x);
    ResumeStreamLaw(n, x);
    CountMessages(n, Segments(x));
  }

  /** The simplest case: after any payload, an ESC before the END costs consume the frame and
      gives the resuming caller an empty message. */
  lemma EscapedEnd(n: nat, p: seq<byte>)
    requires 2 <= n
    ensures Run(n, RESET, Escape(p) + [ESC, END]).msgs == []
    ensures Resume(n, RESET, Escape(p) + [ESC, END]).msgs == [[]]
  {
    hide Run, Resume, RunAgain, Escape;
    BadPairResets(n, p, END);
    ResumeLaw(n, RESET, Escape(p) + [ESC, END]);
    AgainEscapedEnd(n, p);
    assert Escape(p) + [ESC, END] == Escape(p) + [ESC] + [END];
  }
}
