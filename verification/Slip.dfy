/** The SLIP byte code itself: escaping, framing and the left-to-right parser that
    undoes it.  Everything else in the project is stated in terms of these definitions. */
module Slip {

  type byte = bv8

  const END: byte := 0xC0
  const ESC: byte := 0xDB
  const ESCEND: byte := 0xDC
  const ESCESC: byte := 0xDD

  datatype Option<+T> = None | Some(value: T)

  function Min(a: nat, b: nat): nat {
    if a <= b then a else b
  }

  /** The error codes that the modelled operations report. */
  datatype ErrorCode =
    | Success
    | EncodeBufferTooSmall
    | EncodeInternalError
    | DecodeBufferTooSmall
    | DecodeNoEndMarker
    | DecodeInvalidEscapeSequence
    | DecodeTruncatedEscape
    | RXBufferOverflow

  // ---------------------------------------------------------------- escaping

  predicate Special(b: byte) {
    b == END || b == ESC
  }

  /** What one payload byte looks like on the wire. */
  function EscapeByte(b: byte): (r: seq<byte>)
    ensures |r| == if Special(b) then 2 else 1
    ensures END !in r
  {
    if b == END then [ESC, ESCEND] else if b == ESC then [ESC, ESCESC] else [b]
  }

  /** The four values of the wire format: 0xC0 ends a frame, and 0xDB announces 0xDC or 0xDD. */
  lemma WireBytes(b: byte)
    ensures EscapeByte(b) == if b == 0xC0 then [0xDB, 0xDC] else if b == 0xDB then [0xDB, 0xDD] else [b]
    ensures Encode([b]) == EscapeByte(b) + [0xC0]
  {
    assert Escape([b]) == EscapeByte(b) + [];
  }

  /** The payload byte that ESC followed by `n` stands for, if any. */
  function Unescape(n: byte): (r: Option<byte>)
    ensures r.Some? ==> Special(r.value) && EscapeByte(r.value) == [ESC, n]
    ensures r.None? <==> n != ESCEND && n != ESCESC
  {
    if n == ESCEND then Some(END) else if n == ESCESC then Some(ESC) else None
  }

  function Escape(p: seq<byte>): seq<byte> {
    if p == [] then [] else EscapeByte(p[0]) + Escape(p[1..])
  }

  /** One complete frame. */
  function Encode(p: seq<byte>): seq<byte> {
    Escape(p) + [END]
  }

  lemma {:induction false} EscapeConcat(p: seq<byte>, q: seq<byte>)
    ensures Escape(p + q) == Escape(p) + Escape(q)
  {
    if p == [] {
      assert p + q == q;
    } else {
      assert (p + q)[1..] == p[1..] + q;
      EscapeConcat(p[1..], q);
    }
  }

  lemma EscapeSnoc(p: seq<byte>, b: byte)
    ensures Escape(p + [b]) == Escape(p) + EscapeByte(b)
  {
    EscapeConcat(p, [b]);
    assert Escape([b]) == EscapeByte(b);
  }

  /** Escaping the first i + 1 bytes, one byte further than the first i. */
  lemma EscapeNext(p: seq<byte>, i: nat)
    requires i < |p|
    ensures Escape(p[..i + 1]) == Escape(p[..i]) + EscapeByte(p[i])
  {
    assert p[..i + 1] == p[..i] + [p[i]];
    EscapeSnoc(p[..i], p[i]);
  }

  function SpecialCount(p: seq<byte>): nat {
    if p == [] then 0 else (if Special(p[0]) then 1 else 0) + SpecialCount(p[1..])
  }

  /** A frame costs one byte per payload byte, one more per special byte and one END;
      so its length lies between n + 1 and 2n + 1. */
  lemma {:induction false} EncodedSize(p: seq<byte>)
    ensures |Encode(p)| == |p| + SpecialCount(p) + 1
    ensures |p| + 1 <= |Encode(p)| <= 2 * |p| + 1
  {
    if p != [] {
      EncodedSize(p[1..]);
    }
  }

  lemma EscapePrefixShorter(p: seq<byte>, i: nat, j: nat)
    requires i <= j <= |p|
    ensures |Escape(p[..i])| + (j - i) <= |Escape(p[..j])|
  {
    assert p[..j] == p[..i] + p[i..j];
    EscapeConcat(p[..i], p[i..j]);
    EncodedSize(p[i..j]);
  }

  lemma {:induction false} EscapeHasNoEnd(p: seq<byte>)
    ensures END !in Escape(p)
  {
    if p != [] {
      EscapeHasNoEnd(p[1..]);
    }
  }

  // ----------------------------------------------------------------- parsing

  /** Why a left-to-right scan stops. */
  datatype Stop = AtEnd | NoEnd | Truncated | BadEscape

  /** `payload` is what was decoded before the stop, `used` how much input was read. */
  datatype Parsed = Parsed(stop: Stop, payload: seq<byte>, used: nat)

  /** What stands at the front of an input: one (possibly escaped) payload byte, or a
      reason to stop; `width` input bytes belong to it. */
  datatype Token = Byte(b: byte, width: nat) | Halt(stop: Stop, width: nat)

  function First(x: seq<byte>): (t: Token)
    ensures t.width <= |x|
    ensures t.Byte? ==> x[..t.width] == EscapeByte(t.b)
  {
    if x == [] then Halt(NoEnd, 0)
    else if x[0] == END then Halt(AtEnd, 1)
    else if x[0] != ESC then Byte(x[0], 1)
    else if |x| == 1 then Halt(Truncated, 1)
    else
      match Unescape(x[1])
      case None => Halt(BadEscape, 2)
      case Some(b) => Byte(b, 2)
  }

  function Parse(x: seq<byte>): (r: Parsed)
    ensures r.used <= |x|
    decreases |x|
  {
    match First(x)
    case Halt(stop, w) => Parsed(stop, [], w)
    case Byte(b, w) => After([b], w, Parse(x[w..]))
  }

  /** A parse that first reads `width` bytes decoding to `p`, and then does `r`. */
  function After(p: seq<byte>, width: nat, r: Parsed): Parsed {
    Parsed(r.stop, p + r.payload, width + r.used)
  }

  /** The input read by a scan that stops for reason `stop` having decoded `p`;
      `n` is the byte after a bad ESC. */
  function Read(stop: Stop, p: seq<byte>, n: byte): seq<byte> {
    match stop
    case AtEnd => Encode(p)
    case NoEnd => Escape(p)
    case Truncated => Escape(p) + [ESC]
    case BadEscape => Escape(p) + [ESC, n]
  }

  /** The shape of inputs, without a parser: `x` begins with the escaped form of `p`
      followed by whatever makes a scan stop there. */
  ghost predicate Shape(x: seq<byte>, stop: Stop, p: seq<byte>, n: byte) {
    match stop
    case AtEnd => Read(stop, p, n) <= x
    case NoEnd => Read(stop, p, n) == x
    case Truncated => Read(stop, p, n) == x
    case BadEscape => Unescape(n) == None && Read(stop, p, n) <= x
  }

  lemma ParseByte(b: byte, x: seq<byte>)
    ensures Parse(EscapeByte(b) + x) == After([b], |EscapeByte(b)|, Parse(x))
  {
  }

  lemma AfterAfter(p: seq<byte>, v: nat, q: seq<byte>, w: nat, r: Parsed)
    ensures After(p, v, After(q, w, r)) == After(p + q, v + w, r)
  {
  }

  /** Parsing any input that starts with escaped payload peels the payload off. */
  lemma {:induction false} ParseEscaped(p: seq<byte>, x: seq<byte>)
    ensures Parse(Escape(p) + x) == After(p, |Escape(p)|, Parse(x))
  {
    hide Parse;
    if p == [] {
      assert Escape(p) + x == x;
    } else {
      var e, f := EscapeByte(p[0]), Escape(p[1..]);
      calc {
        Parse(Escape(p) + x);
        { assert Escape(p) + x == e + (f + x); }
        Parse(e + (f + x));
        { ParseByte(p[0], f + x); }
        After([p[0]], |e|, Parse(f + x));
        { ParseEscaped(p[1..], x); }
        After([p[0]], |e|, After(p[1..], |f|, Parse(x)));
        { AfterAfter([p[0]], |e|, p[1..], |f|, Parse(x)); }
        After([p[0]] + p[1..], |e| + |f|, Parse(x));
        { assert [p[0]] + p[1..] == p; }
        After(p, |Escape(p)|, Parse(x));
      }
    }
  }

  /** Completeness: on every input of a given shape the parser reports that shape. */
  lemma ParseOfShape(x: seq<byte>, stop: Stop, p: seq<byte>, n: byte)
    requires Shape(x, stop, p, n)
    ensures Parse(x) == Parsed(stop, p, |Read(stop, p, n)|)
  {
    hide Escape, Parse;
    var rest := x[|Escape(p)|..];
    assert x == Escape(p) + rest;
    ParseEscaped(p, rest);
    ParseHalt(rest);
    match stop
    case AtEnd => assert rest[0] == END;
    case NoEnd => assert rest == [];
    case Truncated => assert rest == [ESC];
    case BadEscape => assert rest[0] == ESC && rest[1] == n;
  }

  lemma ParseHalt(x: seq<byte>)
    ensures First(x).Halt? ==> Parse(x) == Parsed(First(x).stop, [], First(x).width)
  {
  }

  lemma ParseNext(x: seq<byte>)
    ensures var t := First(x); t.Byte? ==> Parse(x) == After([t.b], t.width, Parse(x[t.width..]))
  {
  }

  lemma ShapeOfHalt(x: seq<byte>, n: byte)
    requires First(x).Halt? && (First(x).stop == BadEscape ==> |x| >= 2 && x[1] == n)
    ensures Shape(x, First(x).stop, [], n) && x[..First(x).width] == Read(First(x).stop, [], n)
  {
  }

  /** Soundness: whatever the parser reports, the input has that shape. */
  lemma {:induction false} ShapeOfParse(x: seq<byte>) returns (n: byte)
    ensures Shape(x, Parse(x).stop, Parse(x).payload, n)
    ensures x[..Parse(x).used] == Read(Parse(x).stop, Parse(x).payload, n)
    decreases |x|
  {
    hide Escape, EscapeByte, Parse, Shape, Read;
    match First(x)
    case Halt(stop, w) =>
      n := if stop == BadEscape then x[1] else 0;
      ParseHalt(x);
      ShapeOfHalt(x, n);
    case Byte(b, w) =>
      n := ShapeOfParse(x[w..]);
      ParseNext(x);
      ShapeAfter(x, Parse(x[w..]), b, n);
  }

  lemma ShapeAfter(x: seq<byte>, r: Parsed, b: byte, n: byte)
    requires EscapeByte(b) <= x && r.used <= |x| - |EscapeByte(b)|
    requires Shape(x[|EscapeByte(b)|..], r.stop, r.payload, n)
    requires x[|EscapeByte(b)|..][..r.used] == Read(r.stop, r.payload, n)
    ensures Shape(x, r.stop, [b] + r.payload, n)
    ensures x[..|EscapeByte(b)| + r.used] == Read(r.stop, [b] + r.payload, n)
  {
    hide Escape, EscapeByte;
    var w := |EscapeByte(b)|;
    ReadAfter(r.stop, b, r.payload, n);
    assert x == EscapeByte(b) + x[w..];
    assert x[..w + r.used] == EscapeByte(b) + x[w..][..r.used];
  }

  lemma ReadAfter(stop: Stop, b: byte, p: seq<byte>, n: byte)
    ensures Read(stop, [b] + p, n) == EscapeByte(b) + Read(stop, p, n)
  {
  }

  /** The parser decides the declarative grammar: it stops for reason `stop` with payload
      `p` exactly on the inputs of that shape.  With `stop == AtEnd` this says that encoding
      and decoding are mutual inverses, trailing bytes included. */
  lemma ParseIff(x: seq<byte>, stop: Stop, p: seq<byte>)
    ensures (Parse(x).stop == stop && Parse(x).payload == p) <==> exists n :: Shape(x, stop, p, n)
  {
    var n := ShapeOfParse(x);
    forall k | Shape(x, stop, p, k) {
      ParseOfShape(x, stop, p, k);
    }
  }

  /** Round trip, whatever follows the frame. */
  lemma DecodeEncode(p: seq<byte>, trailing: seq<byte>)
    ensures Parse(Encode(p) + trailing) == Parsed(AtEnd, p, |Encode(p)|)
  {
    ParseOfShape(Encode(p) + trailing, AtEnd, p, 0);
  }

  /** The other round trip: a successful parse read exactly the encoding of its result,
      and it ended at the first END of the input. */
  lemma EncodeDecode(x: seq<byte>)
    requires Parse(x).stop == AtEnd
    ensures var r := Parse(x);
            && x[..r.used] == Encode(r.payload)
            && 0 < r.used && x[r.used - 1] == END && END !in x[..r.used - 1]
  {
    var n := ShapeOfParse(x);
    var r := Parse(x);
    EscapeHasNoEnd(r.payload);
    assert x[..r.used - 1] == Escape(r.payload);
    assert x[r.used - 1] == x[..r.used][r.used - 1];
  }

  // ------------------------------------------------------ streams of frames

  function EncodeAll(ps: seq<seq<byte>>): seq<byte> {
    if ps == [] then [] else Encode(ps[0]) + EncodeAll(ps[1..])
  }

  /** No frame is a proper prefix of another frame. */
  lemma PrefixFree(p: seq<byte>, q: seq<byte>)
    requires Encode(p) <= Encode(q)
    ensures p == q
  {
    DecodeEncode(p, Encode(q)[|Encode(p)|..]);
    assert Encode(p) + Encode(q)[|Encode(p)|..] == Encode(q);
    DecodeEncode(q, []);
    assert Encode(q) + [] == Encode(q);
  }

  /** A concatenation of frames determines the packets it was built from. */
  lemma {:induction false} UniqueFrames(ps: seq<seq<byte>>, qs: seq<seq<byte>>)
    requires EncodeAll(ps) == EncodeAll(qs)
    ensures ps == qs
  {
    if ps == [] || qs == [] {
      assert |EncodeAll(ps)| == 0;
    } else {
      DecodeEncode(ps[0], EncodeAll(ps[1..]));
      DecodeEncode(qs[0], EncodeAll(qs[1..]));
      assert EncodeAll(ps)[|Encode(ps[0])|..] == EncodeAll(ps[1..]);
      assert EncodeAll(qs)[|Encode(qs[0])|..] == EncodeAll(qs[1..]);
      UniqueFrames(ps[1..], qs[1..]);
    }
  }
}
