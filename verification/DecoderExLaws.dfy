/** The error-reporting decoder beyond its first overflow.  A byte that meets a full buffer is
    dropped together with the buffer, whatever that byte is: a data byte, the END of the frame,
    or the first half of an escape pair. */
module DecoderExLaws {
  import opened Slip
  import opened DecoderSpec

  // ---------------------------------------------------------- law for arbitrary input

  /** What consume_ex makes of an END-free segment and its END.  Once n - 1 bytes are buffered
      the next byte is lost and decoding starts afresh behind it; short of that, bad pairs and
      a lone ESC discard what precedes them. */
  function ExSegment(n: nat, s: seq<byte>): Out
    requires 2 <= n
    decreases |s|
  {
    var r := Parse(s);
    if |r.payload| >= n - 1 then
      var j := |Escape(r.payload[..n - 1])|;
      if j < |s| then Overflowed(ExSegment(n, s[j + 1..])) else Out(RESET, [], 1)
    else
      match r.stop
      case NoEnd => Out(RESET, [r.payload], 0)
      case AtEnd | Truncated => Out(RESET, [], 0)
      case BadEscape => if r.used == 0 then Out(RESET, [], 0) else ExSegment(n, s[r.used..])
  }

  function Overflowed(r: Out): Out {
    r.(overflows := r.overflows + 1)
  }

  lemma ThenClean(r: Out)
    ensures Then(Out(RESET, [], 0), r) == r && Then(Out(RESET, [], 1), r) == Overflowed(r)
  {
    assert [] + r.msgs == r.msgs;
  }

  /** n - 1 bytes fill the buffer without overflow, and the next byte is lost. */
  lemma FillAndDrop(n: nat, q: seq<byte>, c: byte)
    requires 2 <= n && |q| == n - 1
    ensures RunEx(n, RESET, Escape(q) + [c]) == Out(RESET, [], 1)
  {
    hide Run, RunEx, Escape, Accept;
    DivModUnique(n - 1, |q|, 1, 0);
    RunEscaped(n, q);
    ExAgrees(n, RESET, Escape(q));
    RunExSnoc(n, RESET, Escape(q), c);
    assert RunEx(n, RESET, Escape(q) + [c]).msgs == [];
    assert RunEx(n, RESET, Escape(q) + [c]).state == RESET;
    assert RunEx(n, RESET, Escape(q) + [c]).overflows == 1;
  }

  lemma DropAndGoOn(n: nat, q: seq<byte>, c: byte, rest: seq<byte>)
    requires 2 <= n && |q| == n - 1
    ensures RunEx(n, RESET, Escape(q) + [c] + rest) == Overflowed(RunEx(n, RESET, rest))
  {
    hide RunEx, Escape;
    FillAndDrop(n, q, c);
    RunExConcat(n, RESET, Escape(q) + [c], rest);
    ThenClean(RunEx(n, RESET, rest));
  }

  lemma SmallQuotient(n: nat, k: nat)
    requires 2 <= n && k < n - 1
    ensures k / (n - 1) == 0
  {
    DivModUnique(n - 1, k, 0, k);
  }

  lemma PairAndGoOn(n: nat, p: seq<byte>, x: byte, rest: seq<byte>)
    requires 2 <= n && |p| < n - 1 && Unescape(x) == None
    ensures RunEx(n, RESET, Escape(p) + [ESC, x] + rest) == RunEx(n, RESET, rest)
  {
    hide Run, RunEx, Escape;
    SmallQuotient(n, |p|);
    BadPairResets(n, p, x);
    ExAgrees(n, RESET, Escape(p) + [ESC, x]);
    RunExConcat(n, RESET, Escape(p) + [ESC, x], rest);
    ThenClean(RunEx(n, RESET, rest));
  }

  lemma LoneEscape(n: nat, p: seq<byte>)
    requires 2 <= n && |p| < n - 1
    ensures RunEx(n, RESET, Escape(p) + [ESC] + [END]) == Out(RESET, [], 0)
  {
    hide Run, RunEx, Escape;
    SmallQuotient(n, |p|);
    BadPairResets(n, p, END);
    assert Escape(p) + [ESC] + [END] == Escape(p) + [ESC, END];
    ExAgrees(n, RESET, Escape(p) + [ESC, END]);
  }

  /** The first n - 1 payload bytes of a segment, in their escaped form, are a prefix of it. */
  lemma EscapedPrefix(s: seq<byte>, k: nat)
    requires k <= |Parse(s).payload|
    ensures Escape(Parse(s).payload[..k]) <= s
  {
    hide Parse, Escape;
    var x := ShapeOfParse(s);
    var p := Parse(s).payload;
    EscapeConcat(p[..k], p[k..]);
    assert p == p[..k] + p[k..];
    assert Escape(p) <= s;
  }

  lemma {:induction false} ExSegmentLaw(n: nat, s: seq<byte>)
    requires 2 <= n && END !in s
    ensures RunEx(n, RESET, s + [END]) == ExSegment(n, s)
    decreases |s|
  {
    hide RunEx, Parse, Escape;
    var Parsed(stop, p, used) := Parse(s);
    if |p| >= n - 1 {
      var q := p[..n - 1];
      var j := |Escape(q)|;
      EscapedPrefix(s, n - 1);
      assert s[..j] == Escape(q);
      if j < |s| {
        var rest := s[j + 1..];
        ExSegmentLaw(n, rest);
        DropAndGoOn(n, q, s[j], rest + [END]);
        assert s + [END] == Escape(q) + [s[j]] + (rest + [END]);
      } else {
        FillAndDrop(n, q, END);
        assert s == Escape(q);
      }
      return;
    }
    var x := ShapeOfParse(s);
    match stop
    case AtEnd =>
      EncodeDecode(s);
    case NoEnd =>
      DeliveredIffFits(n, p);
      ExAgrees(n, RESET, Encode(p));
    case Truncated =>
      LoneEscape(n, p);
    case BadEscape =>
      var rest := s[used..];
      ExSegmentLaw(n, rest);
      PairAndGoOn(n, p, x, rest + [END]);
      assert s[..used] == Escape(p) + [ESC, x];
      assert s + [END] == Escape(p) + [ESC, x] + (rest + [END]);
  }

  function ExStream(n: nat, segments: seq<seq<byte>>): seq<seq<byte>>
    requires 2 <= n
  {
    if segments == [] then [] else ExSegment(n, segments[0]).msgs + ExStream(n, segments[1..])
  }

  lemma {:induction false} ExNoEndNoMessages(n: nat, s: State, x: seq<byte>)
    requires |s.buf| <= n && END !in x
    ensures RunEx(n, s, x).msgs == []
    decreases |x|
  {
    if x != [] {
      ExNoEndNoMessages(n, StepEx(n, s, x[0]).0.state, x[1..]);
    }
  }

  /** The complete meaning of consume_ex, fed byte by byte: on every stream it delivers,
      segment by segment, what ExSegmentLaw says, and nothing else. */
  lemma {:induction false} ExStreamLaw(n: nat, x: seq<byte>)
    requires 2 <= n
    ensures RunEx(n, RESET, x).msgs == ExStream(n, Segments(x))
    decreases |x|
  {
    hide RunEx, ExSegment;
    if END !in x {
      ExNoEndNoMessages(n, RESET, x);
    } else {
      var i := FirstEnd(x);
      var a, b := x[..i], x[i + 1..];
      assert x == a + [END] + b;
      ExSelfSynchronising(n, RESET, a, b);
      ExSegmentLaw(n, a);
      ExStreamLaw(n, b);
      assert Segments(x)[1..] == Segments(b);
    }
  }

  // --------------------------------------------------------------- law for frames

  /** The second byte of an escape pair. */
  function Partner(b: byte): (r: byte)
    requires Special(b)
    ensures !Special(r) && EscapeByte(b) == [ESC, r]
  {
    EscapeByte(b)[1]
  }

  /** The payload that seems to follow once the byte after a full buffer is lost: of an escape
      pair, the partner remains and is taken for data. */
  function ExRest(n: nat, p: seq<byte>): (r: seq<byte>)
    requires 2 <= n <= |p|
    ensures |r| < |p|
  {
    (if Special(p[n - 1]) then [Partner(p[n - 1])] else []) + p[n..]
  }

  /** What is buffered when the END of the frame arrives. */
  function ExTail(n: nat, p: seq<byte>): (r: seq<byte>)
    requires 2 <= n
    ensures |r| < n
    decreases |p|
  {
    if |p| < n then p else ExTail(n, ExRest(n, p))
  }

  function ExLosses(n: nat, p: seq<byte>): nat
    requires 2 <= n
    decreases |p|
  {
    if |p| < n - 1 then 0 else if |p| == n - 1 then 1 else 1 + ExLosses(n, ExRest(n, p))
  }

  lemma EscapedRest(n: nat, p: seq<byte>)
    requires 2 <= n <= |p|
    ensures var j := |Escape(p[..n - 1])|;
            j < |Escape(p)| && Escape(p)[j + 1..] == Escape(ExRest(n, p))
  {
    hide Escape, EscapeByte;
    var b, rest := p[n - 1], p[n..];
    assert p == p[..n] + rest;
    EscapeConcat(p[..n], rest);
    EscapeNext(p, n - 1);
    var e := Escape(p[..n - 1]);
    var esc := EscapeByte(b);
    assert Escape(p) == e + esc + Escape(rest);
    assert Escape(p)[|e| + 1..] == esc[1..] + Escape(rest);
    if Special(b) {
      EscapeOne(Partner(b));
      EscapeConcat([Partner(b)], rest);
      assert esc[1..] == [Partner(b)];
    } else {
      assert esc[1..] == [];
      assert ExRest(n, p) == rest && [] + Escape(rest) == Escape(rest);
    }
  }

  lemma EscapeOne(b: byte)
    requires !Special(b)
    ensures Escape([b]) == [b]
  {
  }

  lemma {:induction false} ExSegmentOfPayload(n: nat, p: seq<byte>)
    requires 2 <= n
    ensures ExSegment(n, Escape(p)) ==
            Out(RESET, if |ExTail(n, p)| == n - 1 then [] else [ExTail(n, p)], ExLosses(n, p))
    decreases |p|
  {
    hide Escape, Parse;
    ParseOfShape(Escape(p), NoEnd, p, 0);
    if |p| >= n {
      EscapedRest(n, p);
      ExSegmentOfPayload(n, ExRest(n, p));
    } else if |p| == n - 1 {
      assert p[..n - 1] == p;
    }
  }

  /** Exact law of consume_ex for frames, with its overflow count. */
  lemma ExFrameLaw(n: nat, p: seq<byte>)
    requires 2 <= n
    ensures RunEx(n, RESET, Encode(p)) ==
            Out(RESET, if |ExTail(n, p)| == n - 1 then [] else [ExTail(n, p)], ExLosses(n, p))
  {
    hide RunEx, Escape, ExSegment;
    EscapeHasNoEnd(p);
    ExSegmentLaw(n, Escape(p));
    ExSegmentOfPayload(n, p);
  }

  /** How many payload bytes survive the last loss, and whether that loss split a pair. */
  function ExKept(n: nat, p: seq<byte>): (r: (nat, bool))
    requires 2 <= n
    ensures r.0 <= |p| && (|p| >= n ==> r.0 + n <= |p|) && (|p| < n ==> r == (|p|, false))
    decreases |p|
  {
    if |p| < n then (|p|, false)
    else
      var t := ExRest(n, p);
      if |t| < n then (|p| - n, Special(p[n - 1])) else ExKept(n, t)
  }

  /** What is buffered at the end is a suffix of the payload, behind the stray partner of a
      split pair if there is one. */
  lemma {:induction false} ExTailShape(n: nat, p: seq<byte>)
    requires 2 <= n
    ensures var (k, split) := ExKept(n, p);
            if split then k < |p| && Special(p[|p| - k - 1]) && ExTail(n, p) == [Partner(p[|p| - k - 1])] + Last(p, k)
            else ExTail(n, p) == Last(p, k)
    decreases |p|
  {
    hide EscapeByte, Partner, ExRest;
    if |p| >= n {
      var t := ExRest(n, p);
      var (k, split) := ExKept(n, p);
      RestSuffix(n, p, k);
      if |t| >= n {
        ExTailShape(n, t);
      } else {
        RestWhole(n, p);
      }
    }
  }

  /** What follows a loss ends like the payload. */
  lemma RestSuffix(n: nat, p: seq<byte>, k: nat)
    requires 2 <= n && k + n <= |p|
    ensures var t := ExRest(n, p);
            |t| <= |p| - n + 1 && k <= |t| && Last(t, k) == Last(p, k)
            && (k + n < |p| ==> k < |t| && t[|t| - k - 1] == p[|p| - k - 1])
  {
  }

  lemma RestWhole(n: nat, p: seq<byte>)
    requires 2 <= n <= |p|
    ensures ExRest(n, p) == (if Special(p[n - 1]) then [Partner(p[n - 1])] else []) + Last(p, |p| - n)
  {
  }

  /** The two variants agree on a frame exactly if consume_ex has not split a pair at its last
      loss and as much survives there as in consume. */
  lemma VariantsAgreeIff(n: nat, p: seq<byte>)
    requires 2 <= n
    ensures var (k, split) := ExKept(n, p);
            Run(n, RESET, Encode(p)).msgs == RunEx(n, RESET, Encode(p)).msgs <==> !split && k == |p| % (n - 1)
  {
    hide Run, RunEx, Encode, ExTail, ExKept;
    FrameLaw(n, p);
    ExFrameLaw(n, p);
    ExTailShape(n, p);
    DivModBounds(n - 1, |p|);
    var (k, split) := ExKept(n, p);
    var m, t := Last(p, |p| % (n - 1)), ExTail(n, p);
    assert [m] == [t] <==> m == t by { assert [m][0] == m && [t][0] == t; }
    if split {
      StrayPartner(p, k, |p| % (n - 1));
    }
  }

  lemma StrayPartner(p: seq<byte>, k: nat, j: nat)
    requires k < |p| && Special(p[|p| - k - 1]) && j <= |p|
    ensures [Partner(p[|p| - k - 1])] + Last(p, k) != Last(p, j)
  {
    if j == k + 1 {
      assert Last(p, j)[0] == p[|p| - k - 1];
    } else {
      assert |[Partner(p[|p| - k - 1])] + Last(p, k)| != |Last(p, j)|;
    }
  }

  /** consume_ex swallows the END of a frame, and so delivers nothing, exactly if the buffer is
      full when it arrives. */
  lemma SwallowsEndIff(n: nat, p: seq<byte>)
    requires 2 <= n
    ensures var (k, split) := ExKept(n, p);
            RunEx(n, RESET, Encode(p)).msgs == [] <==> k + (if split then 1 else 0) == n - 1
  {
    hide RunEx, Encode, ExTail, ExKept;
    ExFrameLaw(n, p);
    ExTailShape(n, p);
  }

  ghost predicate Suffix(m: seq<byte>, p: seq<byte>) {
    |m| <= |p| && m == Last(p, |m|)
  }

  lemma TailIsSuffixIff(n: nat, p: seq<byte>)
    requires 2 <= n
    ensures Suffix(ExTail(n, p), p) <==> !ExKept(n, p).1
  {
    hide ExTail, ExKept, EscapeByte;
    ExTailShape(n, p);
    var (k, split) := ExKept(n, p);
    if split {
      StrayPartner(p, k, k + 1);
    }
  }

  lemma OnlyMessage(t: seq<byte>, p: seq<byte>, msgs: seq<seq<byte>>)
    requires msgs == [] || msgs == [t]
    ensures (exists m :: m in msgs && !Suffix(m, p)) <==> msgs != [] && !Suffix(t, p)
  {
    if msgs != [] {
      assert t in msgs;
    }
  }

  /** It delivers something that is no suffix of the payload exactly if its last loss split a
      pair and the END was not swallowed. */
  lemma ForgesIff(n: nat, p: seq<byte>)
    requires 2 <= n
    ensures var (k, split) := ExKept(n, p);
            (exists m :: m in RunEx(n, RESET, Encode(p)).msgs && !Suffix(m, p)) <==> split && k + 1 != n - 1
  {
    hide RunEx, Encode, ExTail, ExKept, Suffix, Last;
    ExFrameLaw(n, p);
    SwallowsEndIff(n, p);
    TailIsSuffixIff(n, p);
    OnlyMessage(ExTail(n, p), p, RunEx(n, RESET, Encode(p)).msgs);
  }

  /** An overflow in consume never does that. */
  lemma ConsumeNeverForges(n: nat, p: seq<byte>)
    requires 2 <= n
    ensures forall m | m in Run(n, RESET, Encode(p)).msgs :: Suffix(m, p)
  {
    hide Run, Encode;
    FrameLaw(n, p);
    DivModBounds(n - 1, |p|);
  }

  /** The simplest case: the pair that follows a full buffer is split, and its partner alone is
      delivered. */
  lemma ExSplitsPair(n: nat, p: seq<byte>)
    requires 3 <= n && |p| == n && Special(p[n - 1])
    ensures RunEx(n, RESET, Encode(p)) == Out(RESET, [[Partner(p[n - 1])]], 1)
  {
    hide RunEx, Encode;
    ExFrameLaw(n, p);
    assert ExRest(n, p) == [Partner(p[n - 1])];
  }

  // ------------------------------------------------------------- the first failure

  /** Escaped payload that the buffer can hold passes without a report. */
  lemma {:induction false} EscapedPasses(n: nat, buf: seq<byte>, p: seq<byte>)
    requires 2 <= n && |buf| + |p| <= n - 1
    ensures FirstFail(n, State(buf, false), Escape(p)) == (|Escape(p)|, Success)
    ensures RunEx(n, State(buf, false), Escape(p)) == Out(State(buf + p, false), [], 0)
    decreases |p|
  {
    hide FirstFail, RunEx, EscapeByte;
    var s := State(buf, false);
    if p == [] {
      RunExEmpty(n, s);
      assert buf + [] == buf;
    } else {
      var e, rest := EscapeByte(p[0]), Escape(p[1..]);
      BytePasses(n, buf, p[0]);
      FirstFailConcat(n, s, e, rest);
      RunExConcat(n, s, e, rest);
      EscapedPasses(n, buf + [p[0]], p[1..]);
      assert buf + [p[0]] + p[1..] == buf + p;
    }
  }

  lemma BytePasses(n: nat, buf: seq<byte>, b: byte)
    requires 2 <= n && |buf| + 1 <= n - 1
    ensures FirstFail(n, State(buf, false), EscapeByte(b)) == (|EscapeByte(b)|, Success)
    ensures RunEx(n, State(buf, false), EscapeByte(b)) == Out(State(buf + [b], false), [], 0)
  {
    var s := State(buf, false);
    if Special(b) {
      var c := Partner(b);
      assert EscapeByte(b) == [ESC] + [c] && Unescape(c) == Some(b);
      FirstFailConcat(n, s, [ESC], [c]);
      RunExConcat(n, s, [ESC], [c]);
      StepPasses(n, s, ESC);
      StepPasses(n, State(buf, true), c);
    } else {
      StepPasses(n, s, b);
    }
  }

  lemma StepPasses(n: nat, s: State, c: byte)
    requires |s.buf| <= n && StepEx(n, s, c).1 == Success
    ensures FirstFail(n, s, [c]) == (1, Success) && RunEx(n, s, [c]) == StepEx(n, s, c).0
  {
    var a := StepEx(n, s, c).0;
    FirstFailOne(n, s, c);
    RunExEmpty(n, a.state);
    assert a.msgs + [] == a.msgs;
  }

  /** The byte behind escaped payload that fits decides like a single step. */
  lemma FailBehind(n: nat, p: seq<byte>, c: byte, rest: seq<byte>)
    requires 2 <= n && |p| <= n - 1
    ensures var (a, e) := StepEx(n, State(p, false), c);
            FirstFail(n, RESET, Escape(p) + [c] + rest) ==
            if e != Success then (|Escape(p)|, e)
            else var r := FirstFail(n, a.state, rest); (|Escape(p)| + 1 + r.0, r.1)
  {
    hide FirstFail, RunEx, Escape, StepEx;
    var s := State(p, false);
    EscapedPasses(n, [], p);
    assert [] + p == p;
    assert Escape(p) + [c] + rest == Escape(p) + ([c] + rest);
    FirstFailConcat(n, RESET, Escape(p), [c] + rest);
    FirstFailConcat(n, s, [c], rest);
    FirstFailOne(n, s, c);
    if StepEx(n, s, c).1 == Success {
      StepPasses(n, s, c);
    }
  }

  /** The first failure in any input, from the parse of its segments: an overflow at the byte
      behind n - 1 payload bytes, or a bad escape at the byte behind the ESC. */
  function FirstError(n: nat, x: seq<byte>): (nat, ErrorCode)
    requires 2 <= n
    decreases |x|
  {
    var r := Parse(x);
    if |r.payload| >= n - 1 && |Escape(r.payload[..n - 1])| < |x| then
      (|Escape(r.payload[..n - 1])|, RXBufferOverflow)
    else
      match r.stop
      case NoEnd | Truncated => (|x|, Success)
      case BadEscape => (|Escape(r.payload)| + 1, DecodeInvalidEscapeSequence)
      case AtEnd =>
        if r.used == 0 then (0, Success)
        else var f := FirstError(n, x[r.used..]); (r.used + f.0, f.1)
  }

  /** consume_ex of a batch, from the reset state, stops exactly there with that code. */
  lemma {:induction false} FirstFailLaw(n: nat, x: seq<byte>)
    requires 2 <= n
    ensures FirstFail(n, RESET, x) == FirstError(n, x)
    decreases |x|
  {
    hide FirstFail, Parse, Escape, StepEx;
    var Parsed(stop, p, used) := Parse(x);
    if |p| >= n - 1 && |Escape(p[..n - 1])| < |x| {
      var q := p[..n - 1];
      var j := |Escape(q)|;
      EscapedPrefix(x, n - 1);
      OverflowFails(n, q, x[j], x[j + 1..]);
      assert x == Escape(q) + [x[j]] + x[j + 1..];
      return;
    }
    var c := ShapeOfParse(x);
    FitsOrEnds(n, x);
    match stop
    case NoEnd =>
      EscapedPasses(n, [], p);
    case Truncated =>
      LonePasses(n, p);
    case BadEscape =>
      BadPairFails(n, p, c, x[used..]);
      assert x == Escape(p) + [ESC, c] + x[used..];
    case AtEnd =>
      FirstFailLaw(n, x[used..]);
      EndPasses(n, p, x[used..]);
      assert x == Escape(p) + [END] + x[used..];
  }

  /** Without an overflow the payload leaves room for the byte behind it, if there is one. */
  lemma FitsOrEnds(n: nat, x: seq<byte>)
    requires 2 <= n
    requires |Parse(x).payload| >= n - 1 ==> |x| <= |Escape(Parse(x).payload[..n - 1])|
    ensures |Parse(x).payload| <= n - 1
    ensures Parse(x).stop != NoEnd ==> |Parse(x).payload| < n - 1
  {
    hide Parse, Escape;
    var p := Parse(x).payload;
    var c := ShapeOfParse(x);
    if |p| >= n - 1 {
      assert p == p[..n - 1] + p[n - 1..];
      EscapeConcat(p[..n - 1], p[n - 1..]);
      EscapeLength(p[n - 1..]);
    }
  }

  lemma {:induction false} EscapeLength(p: seq<byte>)
    ensures |Escape(p)| >= |p|
  {
    EncodedSize(p);
  }

  lemma OverflowFails(n: nat, q: seq<byte>, c: byte, rest: seq<byte>)
    requires 2 <= n && |q| == n - 1
    ensures FirstFail(n, RESET, Escape(q) + [c] + rest) == (|Escape(q)|, RXBufferOverflow)
  {
    hide FirstFail, Escape;
    FailBehind(n, q, c, rest);
  }

  lemma BadPairFails(n: nat, p: seq<byte>, c: byte, rest: seq<byte>)
    requires 2 <= n && |p| < n - 1 && Unescape(c) == None
    ensures FirstFail(n, RESET, Escape(p) + [ESC, c] + rest) == (|Escape(p)| + 1, DecodeInvalidEscapeSequence)
  {
    hide FirstFail, Escape;
    FailBehind(n, p, ESC, [c] + rest);
    assert Escape(p) + [ESC] + ([c] + rest) == Escape(p) + [ESC, c] + rest;
    FirstFailConcat(n, State(p, true), [c], rest);
    FirstFailOne(n, State(p, true), c);
  }

  lemma EndPasses(n: nat, p: seq<byte>, rest: seq<byte>)
    requires 2 <= n && |p| < n - 1
    ensures var r := FirstFail(n, RESET, rest);
            FirstFail(n, RESET, Escape(p) + [END] + rest) == (|Encode(p)| + r.0, r.1)
  {
    hide FirstFail, Escape;
    FailBehind(n, p, END, rest);
  }

  lemma LonePasses(n: nat, p: seq<byte>)
    requires 2 <= n && |p| < n - 1
    ensures FirstFail(n, RESET, Escape(p) + [ESC]) == (|Escape(p)| + 1, Success)
  {
    hide FirstFail, Escape;
    FailBehind(n, p, ESC, []);
    RunExEmpty(n, State(p, true));
    assert Escape(p) + [ESC] + [] == Escape(p) + [ESC];
  }
}
