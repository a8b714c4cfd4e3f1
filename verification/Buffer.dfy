/** One-shot encoding and decoding between buffers.  The legacy forms answer None where the
    source answers ENCODE_ERROR or DECODE_ERROR; the Ex forms say what failed and where. */
module Buffer {
  import opened Slip

  datatype Result = Value(value: nat) | Failure(code: ErrorCode, position: nat)

  /** `w` written over the front of `b`. */
  function Overlay(b: seq<byte>, w: seq<byte>): (r: seq<byte>)
    requires |w| <= |b|
    ensures |r| == |b| && r[..|w|] == w && r[|w|..] == b[|w|..]
  {
    w + b[|w|..]
  }

  lemma OverlayNothing(b: seq<byte>)
    ensures Overlay(b, []) == b
  {
  }

  /** Writing the next byte of an output buffer whose original content was `before`. */
  method Put(out: array<byte>, i: nat, b: byte, ghost before: seq<byte>, ghost done: seq<byte>)
    requires i < out.Length == |before| && i == |done|
    requires out[..] == Overlay(before, done)
    modifies out
    ensures out[..] == Overlay(before, done + [b])
  {
    ghost var was := out[..];
    out[i] := b;
    assert out[..] == was[i := b];
  }

  // -------------------------------------------------------------------- encoding

  method EncodedLength(input: seq<byte>) returns (n: nat)
    ensures n == |Encode(input)|
  {
    var outlen := 0;
    for i := 0 to |input|
      invariant outlen == |Escape(input[..i])|
    {
      EscapeNext(input, i);
      if input[i] == END || input[i] == ESC {
        outlen := outlen + 2;
      } else {
        outlen := outlen + 1;
      }
    }
    assert input[..|input|] == input;
    return outlen + 1;
  }

  /** The payload bytes that encoding into `outlen` bytes gets through: each byte must leave
      room for one more. */
  function FittingBytes(input: seq<byte>, outlen: nat): (k: nat)
    ensures k <= |input|
    ensures k < |input| ==> outlen <= |Escape(input[..k + 1])|
    ensures k > 0 ==> |Escape(input[..k])| < outlen
  {
    if input == [] then 0
    else
      var w := |EscapeByte(input[0])|;
      EscapeHead(input);
      if w >= outlen then 0
      else 1 + FittingBytes(input[1..], outlen - w)
  }

  lemma EscapeHead(input: seq<byte>)
    requires input != []
    ensures forall k: nat | k < |input| ::
              |Escape(input[..k + 1])| == |EscapeByte(input[0])| + |Escape(input[1..][..k])|
  {
    forall k: nat | k < |input|
      ensures |Escape(input[..k + 1])| == |EscapeByte(input[0])| + |Escape(input[1..][..k])|
    {
      assert input[..k + 1][1..] == input[1..][..k];
    }
  }

  /** The index is determined by its bounds. */
  lemma FittingIs(input: seq<byte>, outlen: nat, k: nat)
    requires k <= |input|
    requires k < |input| ==> outlen <= |Escape(input[..k + 1])|
    requires k > 0 ==> |Escape(input[..k])| < outlen
    ensures FittingBytes(input, outlen) == k
  {
    var f := FittingBytes(input, outlen);
    if f < k {
      EscapePrefixShorter(input, f + 1, k);
    } else if k < f {
      EscapePrefixShorter(input, k + 1, f);
    }
  }

  /** The result of an encoding attempt, check by check: the initial size check, the loop over
      the payload, and the check for the END byte. */
  function EncodeOutcome(input: seq<byte>, outlen: nat): Result {
    if outlen < |input| then Failure(EncodeBufferTooSmall, 0)
    else
      var k := FittingBytes(input, outlen);
      if k < |input| then Failure(EncodeBufferTooSmall, k)
      else if |Escape(input)| + 1 > outlen then Failure(EncodeBufferTooSmall, |input|)
      else Value(|Escape(input)| + 1)
  }

  /** The bytes that it leaves in the output buffer. */
  function EncodeWrites(input: seq<byte>, outlen: nat): seq<byte> {
    if outlen < |input| then []
    else Escape(input[..FittingBytes(input, outlen)]) + if EncodeOutcome(input, outlen).Value? then [END] else []
  }

  /** All checks together ask for the predicted length. */
  lemma EncodeChecks(input: seq<byte>, outlen: nat)
    ensures |Encode(input)| <= outlen ==>
              EncodeOutcome(input, outlen) == Value(|Encode(input)|) && EncodeWrites(input, outlen) == Encode(input)
    ensures outlen < |Encode(input)| ==>
              && EncodeOutcome(input, outlen) ==
                 Failure(EncodeBufferTooSmall, if outlen < |input| then 0 else FittingBytes(input, outlen))
              && EncodeWrites(input, outlen) ==
                 (if outlen < |input| then [] else Escape(input[..FittingBytes(input, outlen)]))
  {
    EncodedSize(input);
    assert input[..|input|] == input;
    var k := FittingBytes(input, outlen);
    if k < |input| {
      EscapePrefixShorter(input, k + 1, |input|);
    }
    assert Escape(input[..k]) + [] == Escape(input[..k]);
  }

  lemma EncodeWritesFit(input: seq<byte>, outlen: nat)
    ensures |EncodeWrites(input, outlen)| <= outlen
  {
    EncodeChecks(input, outlen);
  }

  /** Encoding into `outlen` bytes succeeds exactly if the predicted length fits; a failure
      after the initial size check is reported at the first byte whose encoded prefix fills
      the buffer, and leaves what precedes that byte. */
  lemma EncodeOutcomeLaw(input: seq<byte>, outlen: nat)
    ensures EncodeOutcome(input, outlen).Value? <==> |Encode(input)| <= outlen
    ensures EncodeOutcome(input, outlen).Value? ==>
              EncodeOutcome(input, outlen) == Value(|Encode(input)|) && EncodeWrites(input, outlen) == Encode(input)
    ensures outlen < |Encode(input)| ==>
              var r := EncodeOutcome(input, outlen);
              && r.code == EncodeBufferTooSmall && r.position <= |input|
              && EncodeWrites(input, outlen) == Escape(input[..r.position])
    ensures outlen < |input| || (outlen == 0 && input == []) ==> EncodeOutcome(input, outlen).position == 0
    ensures |input| <= outlen < |Encode(input)| && input != [] ==>
              var k := EncodeOutcome(input, outlen).position;
              && k < |input| && outlen <= |Escape(input[..k + 1])|
              && forall j: nat | j <= k && j > 0 :: |Escape(input[..j])| < outlen
  {
    EncodedSize(input);
    EncodeChecks(input, outlen);
    if |input| <= outlen < |Encode(input)| && input != [] {
      var k := FittingBytes(input, outlen);
      assert input[..|input|] == input;
      forall j: nat | j <= k && j > 0 ensures |Escape(input[..j])| < outlen {
        EscapePrefixShorter(input, j, k);
      }
    }
  }

  method EncodePacketEx(input: seq<byte>, out: array<byte>) returns (r: Result)
    modifies out
    ensures r == EncodeOutcome(input, out.Length)
    ensures |EncodeWrites(input, out.Length)| <= out.Length
    ensures out[..] == Overlay(old(out[..]), EncodeWrites(input, out.Length))
  {
    hide FittingBytes, Escape, EscapeByte, Overlay, EncodeOutcome, EncodeWrites;
    EncodeChecks(input, out.Length);
    ghost var o := out[..];
    OverlayNothing(o);
    EncodedSize(input);
    EncodeWritesFit(input, out.Length);
    if out.Length < |input| {
      return Failure(EncodeBufferTooSmall, 0);
    }
    var w := 0;
    EscapeNothing(input);
    for pos := 0 to |input|
      invariant w <= out.Length && w == |Escape(input[..pos])|
      invariant pos > 0 ==> w < out.Length
      invariant out[..] == Overlay(o, Escape(input[..pos]))
    {
      var c := input[pos];
      ghost var done := Escape(input[..pos]);
      EscapeNext(input, pos);
      EscapeShape(c);
      if c == END {
        if w + 2 >= out.Length {
          StopsAt(input, out.Length, pos);
          return Failure(EncodeBufferTooSmall, pos);
        }
        Put(out, w, ESC, o, done);
        Put(out, w + 1, ESCEND, o, done + [ESC]);
        assert done + [ESC] + [ESCEND] == done + [ESC, ESCEND];
        w := w + 2;
      } else if c == ESC {
        if w + 2 >= out.Length {
          StopsAt(input, out.Length, pos);
          return Failure(EncodeBufferTooSmall, pos);
        }
        Put(out, w, ESC, o, done);
        Put(out, w + 1, ESCESC, o, done + [ESC]);
        assert done + [ESC] + [ESCESC] == done + [ESC, ESCESC];
        w := w + 2;
      } else {
        if w + 1 >= out.Length {
          StopsAt(input, out.Length, pos);
          return Failure(EncodeBufferTooSmall, pos);
        }
        Put(out, w, c, o, done);
        w := w + 1;
      }
    }
    assert input[..|input|] == input;
    if w + 1 > out.Length {
      FittingIs(input, out.Length, |input|);
      return Failure(EncodeBufferTooSmall, |input|);
    }
    Put(out, w, END, o, Escape(input));
    return Value(w + 1);
  }

  method EncodePacket(input: seq<byte>, out: array<byte>) returns (r: Option<nat>)
    modifies out
    ensures r == if EncodeOutcome(input, out.Length).Value? then Some(|Encode(input)|) else None
    ensures |EncodeWrites(input, out.Length)| <= out.Length
    ensures out[..] == Overlay(old(out[..]), EncodeWrites(input, out.Length))
  {
    hide FittingBytes, Escape, EscapeByte, Overlay, EncodeOutcome, EncodeWrites;
    EncodeChecks(input, out.Length);
    ghost var o := out[..];
    OverlayNothing(o);
    EncodedSize(input);
    EncodeWritesFit(input, out.Length);
    if out.Length < |input| {
      return None;
    }
    var w := 0;
    EscapeNothing(input);
    for i := 0 to |input|
      invariant w <= out.Length && w == |Escape(input[..i])|
      invariant i > 0 ==> w < out.Length
      invariant out[..] == Overlay(o, Escape(input[..i]))
    {
      var c := input[i];
      ghost var done := Escape(input[..i]);
      EscapeNext(input, i);
      EscapeShape(c);
      if c == END {
        if w + 2 >= out.Length {
          StopsAt(input, out.Length, i);
          return None;
        }
        Put(out, w, ESC, o, done);
        Put(out, w + 1, ESCEND, o, done + [ESC]);
        assert done + [ESC] + [ESCEND] == done + [ESC, ESCEND];
        w := w + 2;
      } else if c == ESC {
        if w + 2 >= out.Length {
          StopsAt(input, out.Length, i);
          return None;
        }
        Put(out, w, ESC, o, done);
        Put(out, w + 1, ESCESC, o, done + [ESC]);
        assert done + [ESC] + [ESCESC] == done + [ESC, ESCESC];
        w := w + 2;
      } else {
        if w + 1 >= out.Length {
          StopsAt(input, out.Length, i);
          return None;
        }
        Put(out, w, c, o, done);
        w := w + 1;
      }
    }
    assert input[..|input|] == input;
    if w + 1 > out.Length {
      FittingIs(input, out.Length, |input|);
      return None;
    }
    Put(out, w, END, o, Escape(input));
    return Some(w + 1);
  }

  lemma EscapeNothing(input: seq<byte>)
    ensures Escape(input[..0]) == []
  {
  }

  lemma EscapeShape(c: byte)
    ensures EscapeByte(c) == if c == END then [ESC, ESCEND] else if c == ESC then [ESC, ESCESC] else [c]
  {
  }

  /** An attempt that cannot place byte `i` with room to spare stops there. */
  lemma StopsAt(input: seq<byte>, outlen: nat, i: nat)
    requires i < |input| && outlen <= |Escape(input[..i + 1])|
    requires i > 0 ==> |Escape(input[..i])| < outlen
    ensures FittingBytes(input, outlen) == i && outlen < |Encode(input)|
  {
    FittingIs(input, outlen, i);
    EscapePrefixShorter(input, i + 1, |input|);
    assert input[..|input|] == input;
  }

  // -------------------------------------------------------------------- decoding

  /** The error that a scan stopping for this reason is reported as. */
  function StopCode(stop: Stop): ErrorCode {
    match stop
    case AtEnd => Success
    case NoEnd => DecodeNoEndMarker
    case Truncated => DecodeTruncatedEscape
    case BadEscape => DecodeInvalidEscapeSequence
  }

  function LengthOutcome(x: seq<byte>): Result {
    var r := Parse(x);
    if r.stop == AtEnd then Value(|r.payload|) else Failure(StopCode(r.stop), |r.payload|)
  }

  /** The result of a decoding attempt, token by token, with `pos` tokens written so far. */
  function DecodeScan(x: seq<byte>, outlen: nat, pos: nat): Result
    decreases |x|
  {
    match First(x)
    case Halt(stop, _) => if stop == AtEnd then Value(pos) else Failure(StopCode(stop), pos)
    case Byte(_, w) =>
      if pos >= outlen then Failure(DecodeBufferTooSmall, pos) else DecodeScan(x[w..], outlen, pos + 1)
  }

  function DecodeOutcome(x: seq<byte>, outlen: nat): Result {
    DecodeScan(x, outlen, 0)
  }

  /** The buffer runs out at its end, unless the scan stops before. */
  lemma {:induction false} DecodeScanLaw(x: seq<byte>, outlen: nat, pos: nat)
    requires pos <= outlen
    ensures var r := Parse(x);
            var t := pos + |r.payload|;
            DecodeScan(x, outlen, pos) ==
            if outlen < t then Failure(DecodeBufferTooSmall, outlen)
            else if r.stop == AtEnd then Value(t) else Failure(StopCode(r.stop), t)
    decreases |x|
  {
    match First(x)
    case Halt(_, _) =>
    case Byte(_, w) =>
      if pos < outlen {
        DecodeScanLaw(x[w..], outlen, pos + 1);
      }
  }

  function DecodeWrites(x: seq<byte>, outlen: nat): seq<byte> {
    var p := Parse(x).payload;
    if outlen < |p| then p[..outlen] else p
  }

  /** Error precedence: if the length scan stops at token t, decoding has the same outcome
      when the buffer holds t bytes and runs out of buffer, at position outlen, otherwise.  A
      success means that the written bytes are the packet framed at the front of `x`. */
  lemma DecodeOutcomeLaw(x: seq<byte>, outlen: nat)
    ensures var t := match LengthOutcome(x) case Value(v) => v case Failure(_, p) => p;
            DecodeOutcome(x, outlen) == if t <= outlen then LengthOutcome(x) else Failure(DecodeBufferTooSmall, outlen)
    ensures DecodeOutcome(x, outlen).Value? <==>
              exists p :: Encode(p) <= x && |p| <= outlen
    ensures forall p | Encode(p) <= x && |p| <= outlen ::
              DecodeOutcome(x, outlen) == Value(|p|) && DecodeWrites(x, outlen) == p
  {
    DecodeScanLaw(x, outlen, 0);
    forall p | Encode(p) <= x {
      ParseOfShape(x, AtEnd, p, 0);
    }
    var n := ShapeOfParse(x);
    if DecodeOutcome(x, outlen).Value? {
      assert Encode(Parse(x).payload) <= x;
    }
  }

  lemma StopsAtEnd(x: seq<byte>, t: nat)
    ensures Parse(x).stop == AtEnd && |Parse(x).payload| == t <==> exists p :: |p| == t && Encode(p) <= x
  {
    hide Parse, Escape, Unescape;
    var c := ShapeOfParse(x);
    forall p | Encode(p) <= x {
      ParseOfShape(x, AtEnd, p, 0);
    }
  }

  lemma StopsWithoutEnd(x: seq<byte>, t: nat)
    ensures Parse(x).stop == NoEnd && |Parse(x).payload| == t <==> exists p :: |p| == t && x == Escape(p)
  {
    hide Parse, Escape, Unescape;
    var c := ShapeOfParse(x);
    forall p | x == Escape(p) {
      ParseOfShape(x, NoEnd, p, 0);
    }
  }

  lemma StopsTruncated(x: seq<byte>, t: nat)
    ensures Parse(x).stop == Truncated && |Parse(x).payload| == t <==>
            exists p :: |p| == t && x == Escape(p) + [ESC]
  {
    hide Parse, Escape, Unescape;
    var c := ShapeOfParse(x);
    forall p | x == Escape(p) + [ESC] {
      ParseOfShape(x, Truncated, p, 0);
    }
  }

  lemma StopsAtBadPair(x: seq<byte>, t: nat)
    ensures Parse(x).stop == BadEscape && |Parse(x).payload| == t <==>
            exists p, n :: |p| == t && Unescape(n) == None && Escape(p) + [ESC, n] <= x
  {
    hide Parse, Escape, Unescape;
    var c := ShapeOfParse(x);
    forall p, n | Unescape(n) == None && Escape(p) + [ESC, n] <= x {
      ParseOfShape(x, BadEscape, p, n);
    }
  }

  /** Which input gets which code and position, said about the input alone. */
  lemma LengthCodes(x: seq<byte>, t: nat)
    ensures LengthOutcome(x) == Value(t) <==> exists p :: |p| == t && Encode(p) <= x
    ensures LengthOutcome(x) == Failure(DecodeNoEndMarker, t) <==> exists p :: |p| == t && x == Escape(p)
    ensures LengthOutcome(x) == Failure(DecodeTruncatedEscape, t) <==>
              exists p :: |p| == t && x == Escape(p) + [ESC]
    ensures LengthOutcome(x) == Failure(DecodeInvalidEscapeSequence, t) <==>
              exists p, n :: |p| == t && Unescape(n) == None && Escape(p) + [ESC, n] <= x
    ensures LengthOutcome(x).Failure? ==>
              LengthOutcome(x).code in {DecodeNoEndMarker, DecodeTruncatedEscape, DecodeInvalidEscapeSequence}
  {
    hide Parse, Escape, Unescape;
    StopsAtEnd(x, t);
    StopsWithoutEnd(x, t);
    StopsTruncated(x, t);
    StopsAtBadPair(x, t);
  }

  /** The same for decoding into `outlen` bytes: the codes of the length scan for a payload that
      fits, and DecodeBufferTooSmall at `outlen` for input that holds more. */
  lemma DecodeCodes(x: seq<byte>, outlen: nat, t: nat)
    ensures DecodeOutcome(x, outlen) == Failure(DecodeNoEndMarker, t) <==>
              t <= outlen && exists p :: |p| == t && x == Escape(p)
    ensures DecodeOutcome(x, outlen) == Failure(DecodeTruncatedEscape, t) <==>
              t <= outlen && exists p :: |p| == t && x == Escape(p) + [ESC]
    ensures DecodeOutcome(x, outlen) == Failure(DecodeInvalidEscapeSequence, t) <==>
              t <= outlen && exists p, n :: |p| == t && Unescape(n) == None && Escape(p) + [ESC, n] <= x
    ensures DecodeOutcome(x, outlen) == Failure(DecodeBufferTooSmall, t) <==>
              t == outlen && exists p :: |p| == outlen + 1 && Escape(p) <= x
  {
    hide LengthOutcome, DecodeOutcome, Escape, Unescape;
    LengthCodes(x, t);
    DecodeOutcomeLaw(x, outlen);
    LongerIff(x, outlen);
  }

  /** The scan gets beyond `k` bytes exactly if the input starts with more in escaped form. */
  lemma LongerIff(x: seq<byte>, k: nat)
    ensures (match LengthOutcome(x) case Value(v) => v case Failure(_, p) => p) > k <==>
            exists p :: |p| == k + 1 && Escape(p) <= x
  {
    hide Parse, Escape;
    var c := ShapeOfParse(x);
    var p := Parse(x).payload;
    if |p| > k {
      var q := p[..k + 1];
      assert p == q + p[k + 1..];
      EscapeConcat(q, p[k + 1..]);
      assert Escape(p) <= x;
      assert |q| == k + 1 && Escape(q) <= x;
    }
    forall q | Escape(q) <= x ensures |p| >= |q| {
      ParseEscaped(q, x[|Escape(q)|..]);
      assert x == Escape(q) + x[|Escape(q)|..];
    }
  }

  /** What decoding leaves in the buffer, on failure too: whatever the input decodes to, cut at
      the end of the buffer. */
  lemma DecodeWritesLaw(x: seq<byte>, outlen: nat, stop: Stop, p: seq<byte>, n: byte)
    requires Shape(x, stop, p, n)
    ensures DecodeWrites(x, outlen) == p[..Min(outlen, |p|)]
  {
    hide Parse, Escape;
    ParseOfShape(x, stop, p, n);
  }

  /** Decoding undoes encoding, whatever follows the frame in the input buffer. */
  lemma BufferRoundTrip(p: seq<byte>, trailing: seq<byte>, outlen: nat)
    requires |p| <= outlen
    ensures LengthOutcome(Encode(p) + trailing) == Value(|p|)
    ensures DecodeOutcome(Encode(p) + trailing, outlen) == Value(|p|)
    ensures DecodeWrites(Encode(p) + trailing, outlen) == p
  {
    DecodeEncode(p, trailing);
    DecodeScanLaw(Encode(p) + trailing, outlen, 0);
  }

  /** `p` has been decoded from the first `i` bytes of `x`, so the rest decides the parse. */
  ghost predicate Scanned(x: seq<byte>, i: nat, p: seq<byte>) {
    i <= |x| && Parse(x) == After(p, i, Parse(x[i..]))
  }

  lemma ScanStart(x: seq<byte>)
    ensures Scanned(x, 0, [])
  {
  }

  lemma ScanByte(x: seq<byte>, i: nat, p: seq<byte>)
    requires Scanned(x, i, p) && First(x[i..]).Byte?
    ensures var t := First(x[i..]); i + t.width <= |x| && Scanned(x, i + t.width, p + [t.b])
  {
    var t := First(x[i..]);
    assert x[i..][t.width..] == x[i + t.width..];
    AfterAfter(p, i, [t.b], t.width, Parse(x[i + t.width..]));
  }

  lemma ScanHalt(x: seq<byte>, i: nat, p: seq<byte>)
    requires Scanned(x, i, p) && First(x[i..]).Halt?
    ensures Parse(x).stop == First(x[i..]).stop && Parse(x).payload == p
  {
  }

  /** What the front of the unread input is, by its first bytes. */
  lemma FirstAt(x: seq<byte>, i: nat)
    requires i <= |x|
    ensures First(x[i..]) ==
            if i == |x| then Halt(NoEnd, 0)
            else if x[i] == END then Halt(AtEnd, 1)
            else if x[i] != ESC then Byte(x[i], 1)
            else if i + 1 == |x| then Halt(Truncated, 1)
            else if Unescape(x[i + 1]) == None then Halt(BadEscape, 2)
            else Byte(Unescape(x[i + 1]).value, 2)
  {
  }

  method DecodedLengthEx(x: seq<byte>) returns (r: Result)
    ensures r == LengthOutcome(x)
  {
    hide Parse, First;
    var p, outlen, pos := 0, 0, 0;
    ghost var done: seq<byte> := [];
    ScanStart(x);
    while p < |x|
      invariant p <= |x| && Scanned(x, p, done) && outlen == pos == |done|
    {
      FirstAt(x, p);
      ghost var i := p;
      var c := x[p];
      p := p + 1;
      if c == END {
        ScanHalt(x, i, done);
        return Value(outlen);
      }
      if c == ESC {
        if p >= |x| {
          ScanHalt(x, i, done);
          return Failure(DecodeTruncatedEscape, pos);
        }
        var n := x[p];
        p := p + 1;
        if n == ESCEND || n == ESCESC {
          outlen := outlen + 1;
        } else {
          ScanHalt(x, i, done);
          return Failure(DecodeInvalidEscapeSequence, pos);
        }
      } else {
        outlen := outlen + 1;
      }
      ScanByte(x, i, done);
      done := done + [First(x[i..]).b];
      pos := pos + 1;
    }
    FirstAt(x, p);
    ScanHalt(x, p, done);
    return Failure(DecodeNoEndMarker, pos);
  }

  method DecodedLength(x: seq<byte>) returns (r: Option<nat>)
    ensures r == if LengthOutcome(x).Value? then Some(LengthOutcome(x).value) else None
  {
    hide Parse, First;
    var p, outlen := 0, 0;
    ghost var done: seq<byte> := [];
    ScanStart(x);
    while p < |x|
      invariant p <= |x| && Scanned(x, p, done) && outlen == |done|
    {
      FirstAt(x, p);
      ghost var i := p;
      var c := x[p];
      p := p + 1;
      if c == END {
        ScanHalt(x, i, done);
        return Some(outlen);
      }
      if c == ESC {
        if p >= |x| {
          ScanHalt(x, i, done);
          return None;
        }
        var n := x[p];
        p := p + 1;
        if n == ESCEND || n == ESCESC {
          outlen := outlen + 1;
        } else {
          ScanHalt(x, i, done);
          return None;
        }
      } else {
        outlen := outlen + 1;
      }
      ScanByte(x, i, done);
      done := done + [First(x[i..]).b];
    }
    FirstAt(x, p);
    ScanHalt(x, p, done);
    return None;
  }

  /** A scan that has filled the buffer and finds another byte will not fit. */
  lemma ScanFull(x: seq<byte>, i: nat, p: seq<byte>)
    requires Scanned(x, i, p) && First(x[i..]).Byte?
    ensures DecodeOutcome(x, |p|) == Failure(DecodeBufferTooSmall, |p|)
    ensures DecodeWrites(x, |p|) == p
  {
    DecodeScanLaw(x, |p|, 0);
  }

  method DecodePacketEx(x: seq<byte>, out: array<byte>) returns (r: Result)
    modifies out
    ensures r == DecodeOutcome(x, out.Length)
    ensures |DecodeWrites(x, out.Length)| <= out.Length
    ensures out[..] == Overlay(old(out[..]), DecodeWrites(x, out.Length))
  {
    hide Parse, First, Overlay, DecodeScan;
    DecodeScanLaw(x, out.Length, 0);
    ghost var o, done := out[..], [];
    OverlayNothing(o);
    ScanStart(x);
    var p, w, pos := 0, 0, 0;
    while p < |x|
      invariant p <= |x| && Scanned(x, p, done) && w == pos == |done| <= out.Length
      invariant out[..] == Overlay(o, done)
    {
      FirstAt(x, p);
      ghost var i := p;
      var c := x[p];
      p := p + 1;
      if c == END {
        ScanHalt(x, i, done);
        return Value(w);
      }
      if c == ESC {
        if p >= |x| {
          ScanHalt(x, i, done);
          return Failure(DecodeTruncatedEscape, pos);
        }
        var n := x[p];
        p := p + 1;
        var decoded: byte;
        if n == ESCEND {
          decoded := END;
        } else if n == ESCESC {
          decoded := ESC;
        } else {
          ScanHalt(x, i, done);
          return Failure(DecodeInvalidEscapeSequence, pos);
        }
        if w >= out.Length {
          ScanFull(x, i, done);
          return Failure(DecodeBufferTooSmall, pos);
        }
        Put(out, w, decoded, o, done);
      } else {
        if w >= out.Length {
          ScanFull(x, i, done);
          return Failure(DecodeBufferTooSmall, pos);
        }
        Put(out, w, c, o, done);
      }
      ScanByte(x, i, done);
      done := done + [First(x[i..]).b];
      w := w + 1;
      pos := pos + 1;
    }
    FirstAt(x, p);
    ScanHalt(x, p, done);
    return Failure(DecodeNoEndMarker, pos);
  }

  method DecodePacket(x: seq<byte>, out: array<byte>) returns (r: Option<nat>)
    modifies out
    ensures r == if DecodeOutcome(x, out.Length).Value? then Some(DecodeOutcome(x, out.Length).value) else None
    ensures |DecodeWrites(x, out.Length)| <= out.Length
    ensures out[..] == Overlay(old(out[..]), DecodeWrites(x, out.Length))
  {
    hide Parse, First, Overlay, DecodeScan;
    DecodeScanLaw(x, out.Length, 0);
    ghost var o, done := out[..], [];
    OverlayNothing(o);
    ScanStart(x);
    var p, w := 0, 0;
    while p < |x|
      invariant p <= |x| && Scanned(x, p, done) && w == |done| <= out.Length
      invariant out[..] == Overlay(o, done)
    {
      FirstAt(x, p);
      ghost var i := p;
      var c := x[p];
      p := p + 1;
      if c == END {
        ScanHalt(x, i, done);
        return Some(w);
      }
      if c == ESC {
        if p >= |x| {
          ScanHalt(x, i, done);
          return None;
        }
        var n := x[p];
        p := p + 1;
        var decoded: byte;
        if n == ESCEND {
          decoded := END;
        } else if n == ESCESC {
          decoded := ESC;
        } else {
          ScanHalt(x, i, done);
          return None;
        }
        if w >= out.Length {
          ScanFull(x, i, done);
          return None;
        }
        Put(out, w, decoded, o, done);
      } else {
        if w >= out.Length {
          ScanFull(x, i, done);
          return None;
        }
        Put(out, w, c, o, done);
      }
      ScanByte(x, i, done);
      done := done + [First(x[i..]).b];
      w := w + 1;
    }
    FirstAt(x, p);
    ScanHalt(x, p, done);
    return None;
  }
}
