/** The streaming decoder object: it fills the caller's receive buffer in place.  The
    message callback is the log `messages`, the overflow callback the counter `overflows`. */
module DecoderObject {
  import opened Slip
  import opened DecoderSpec

  /** `position` is the error position; without an error the code is Success. */
  datatype ConsumeResult = ConsumeResult(consumed: nat, error: ErrorCode, position: nat)

  class Decoder {
    const rxbuf: array<byte>
    var rxbufPos: nat
    var lastCharIsEsc: bool
    var lastError: ErrorCode
    var consumedCount: nat
    var messages: seq<seq<byte>>
    var overflows: nat

    /** Whatever happened before, the recorded last error is Success: every failure path
        runs Reset after recording its error. */
    ghost predicate Valid()
      reads this
    {
      rxbufPos <= rxbuf.Length && lastError == Success
    }

    ghost function Abs(): (s: State)
      reads this, rxbuf
      requires Valid()
      ensures |s.buf| <= rxbuf.Length
    {
      State(rxbuf[..rxbufPos], lastCharIsEsc)
    }

    /** The object is in the state that `r` ends in, and its log and counter, which were `log`
        and `count`, have grown by what `r` delivers and loses. */
    ghost predicate Did(r: Out, log: seq<seq<byte>>, count: nat)
      reads this, rxbuf
      requires Valid()
    {
      Abs() == r.state && messages == log + r.msgs && overflows == count + r.overflows
    }

    constructor (buffer: array<byte>)
      ensures Valid() && rxbuf == buffer && Abs() == RESET && messages == [] && overflows == 0
    {
      rxbuf := buffer;
      rxbufPos, lastCharIsEsc, lastError, consumedCount := 0, false, Success, 0;
      messages, overflows := [], 0;
    }

    method Reset()
      modifies this`rxbufPos, this`lastCharIsEsc, this`lastError, this`consumedCount
      ensures Valid() && Abs() == RESET && consumedCount == 0
    {
      rxbufPos := 0;
      lastCharIsEsc := false;
      lastError := Success;
      consumedCount := 0;
    }

    method Consume(c: byte)
      requires Valid() && 1 <= rxbuf.Length
      modifies this, rxbuf
      ensures Valid()
      ensures var s := Step(rxbuf.Length, old(Abs()), c);
              Abs() == s.state && messages == old(messages) + s.msgs && overflows == old(overflows) + s.overflows
      ensures consumedCount == if Resets(rxbuf.Length, old(Abs()), c) then 1 else old(consumedCount) + 1
    {
      if rxbuf.Length - rxbufPos < 2 {
        overflows := overflows + 1;
        lastError := RXBufferOverflow;
        Reset();
      }
      if lastCharIsEsc {
        if c == ESCEND {
          rxbuf[rxbufPos] := END;
          rxbufPos := rxbufPos + 1;
        } else if c == ESCESC {
          rxbuf[rxbufPos] := ESC;
          rxbufPos := rxbufPos + 1;
        } else {
          lastError := DecodeInvalidEscapeSequence;
          Reset();
        }
        lastCharIsEsc := false;
      } else {
        if c == END {
          messages := messages + [rxbuf[..rxbufPos]];
          Reset();
        } else if c == ESC {
          lastCharIsEsc := true;
        } else {
          rxbuf[rxbufPos] := c;
          rxbufPos := rxbufPos + 1;
        }
      }
      consumedCount := consumedCount + 1;
    }

    /** The position it reports is always 0, since Reset clears the counter before the
        position is read. */
    method ConsumeEx(c: byte) returns (r: ConsumeResult)
      requires Valid()
      modifies this, rxbuf
      ensures Valid()
      ensures var s := StepEx(rxbuf.Length, old(Abs()), c).0;
              Abs() == s.state && messages == old(messages) + s.msgs && overflows == old(overflows) + s.overflows
      ensures r == ConsumeResult(1, StepEx(rxbuf.Length, old(Abs()), c).1, 0)
      ensures consumedCount == if r.error != Success then 0
                               else if Resets(rxbuf.Length, old(Abs()), c) then 1 else old(consumedCount) + 1
    {
      if rxbuf.Length - rxbufPos < 2 {
        overflows := overflows + 1;
        lastError := RXBufferOverflow;
        Reset();
        return ConsumeResult(1, RXBufferOverflow, consumedCount);
      }
      if lastCharIsEsc {
        if c == ESCEND {
          rxbuf[rxbufPos] := END;
          rxbufPos := rxbufPos + 1;
        } else if c == ESCESC {
          rxbuf[rxbufPos] := ESC;
          rxbufPos := rxbufPos + 1;
        } else {
          lastError := DecodeInvalidEscapeSequence;
          Reset();
          return ConsumeResult(1, DecodeInvalidEscapeSequence, consumedCount);
        }
        lastCharIsEsc := false;
      } else {
        if c == END {
          messages := messages + [rxbuf[..rxbufPos]];
          Reset();
        } else if c == ESC {
          lastCharIsEsc := true;
        } else {
          rxbuf[rxbufPos] := c;
          rxbufPos := rxbufPos + 1;
        }
      }
      consumedCount := consumedCount + 1;
      return ConsumeResult(1, Success, 0);
    }

    method ConsumeAll(data: seq<byte>)
      requires Valid() && 1 <= rxbuf.Length
      modifies this, rxbuf
      ensures Valid()
      ensures var s := Run(rxbuf.Length, old(Abs()), data);
              Abs() == s.state && messages == old(messages) + s.msgs && overflows == old(overflows) + s.overflows
    {
      hide Run, Step;
      ghost var s := Abs();
      RunEmpty(rxbuf.Length, s);
      for i := 0 to |data|
        invariant Valid()
        invariant Did(Run(rxbuf.Length, s, data[..i]), old(messages), old(overflows))
      {
        RunSnoc(rxbuf.Length, s, data[..i], data[i]);
        assert data[..i + 1] == data[..i] + [data[i]];
        Consume(data[i]);
      }
      assert data[..|data|] == data;
    }

    /** Splitting the input into chunks makes no difference. */
    method ConsumeChunk(data: seq<byte>, chunkSize: nat) returns (consumed: nat)
      requires Valid() && 1 <= rxbuf.Length
      requires chunkSize > 0 || data == []
      modifies this, rxbuf
      ensures Valid()
      ensures var s := Run(rxbuf.Length, old(Abs()), data);
              Abs() == s.state && messages == old(messages) + s.msgs && overflows == old(overflows) + s.overflows
      ensures consumed == |data|
    {
      hide Run;
      ghost var s := Abs();
      RunEmpty(rxbuf.Length, s);
      consumed := 0;
      while consumed < |data|
        invariant Valid() && consumed <= |data|
        invariant Did(Run(rxbuf.Length, s, data[..consumed]), old(messages), old(overflows))
      {
        var n := Min(chunkSize, |data| - consumed);
        RunConcat(rxbuf.Length, s, data[..consumed], data[consumed..consumed + n]);
        assert data[..consumed + n] == data[..consumed] + data[consumed..consumed + n];
        ConsumeAll(data[consumed..consumed + n]);
        consumed := consumed + n;
      }
      assert data[..|data|] == data;
    }

    /** Processing stops right after the first byte that fails, and that byte is not
        counted as consumed. */
    method ConsumeAllEx(data: seq<byte>) returns (r: ConsumeResult)
      requires Valid()
      modifies this, rxbuf
      ensures Valid()
      ensures var (k, e) := FirstFail(rxbuf.Length, old(Abs()), data); r == ConsumeResult(k, e, 0)
      ensures var s := RunEx(rxbuf.Length, old(Abs()), data[..Min(r.consumed + 1, |data|)]);
              Abs() == s.state && messages == old(messages) + s.msgs && overflows == old(overflows) + s.overflows
    {
      hide RunEx, FirstFail, StepEx;
      ghost var s, n := Abs(), rxbuf.Length;
      RunExEmpty(n, s);
      var consumed := 0;
      for i := 0 to |data|
        invariant Valid() && consumed == i
        invariant FirstFail(n, s, data[..i]) == (i, Success)
        invariant Did(RunEx(n, s, data[..i]), old(messages), old(overflows))
      {
        assert data[..i + 1] == data[..i] + [data[i]];
        RunExSnoc(n, s, data[..i], data[i]);
        FirstFailConcat(n, s, data[..i], [data[i]]);
        FirstFailOne(n, Abs(), data[i]);
        FirstFailConcat(n, s, data[..i + 1], data[i + 1..]);
        assert data == data[..i + 1] + data[i + 1..];
        var one := ConsumeEx(data[i]);
        if one.error != Success {
          return ConsumeResult(consumed, one.error, one.position);
        }
        consumed := consumed + 1;
      }
      assert data[..|data|] == data;
      return ConsumeResult(consumed, Success, 0);
    }

    /** Only whole chunks are counted, although the bytes of the failing chunk up to and
        including the bad one have been processed. */
    method ConsumeChunkEx(data: seq<byte>, chunkSize: nat) returns (r: ConsumeResult)
      requires Valid()
      requires chunkSize > 0 || data == []
      modifies this, rxbuf
      ensures Valid()
      ensures var (k, e) := FirstFail(rxbuf.Length, old(Abs()), data);
              && r == ConsumeResult(if e == Success then k else k / chunkSize * chunkSize, e, 0)
              && var s := RunEx(rxbuf.Length, old(Abs()), data[..Min(k + 1, |data|)]);
                 Abs() == s.state && messages == old(messages) + s.msgs && overflows == old(overflows) + s.overflows
    {
      hide RunEx, FirstFail;
      ghost var s, n := Abs(), rxbuf.Length;
      RunExEmpty(n, s);
      ghost var chunks := 0;
      var consumed := 0;
      while consumed < |data|
        invariant Valid() && consumed <= |data|
        invariant consumed == chunks * chunkSize || consumed == |data|
        invariant FirstFail(n, s, data[..consumed]) == (consumed, Success)
        invariant Did(RunEx(n, s, data[..consumed]), old(messages), old(overflows))
      {
        var w := Min(chunkSize, |data| - consumed);
        ghost var before, chunk, mid := data[..consumed], data[consumed..consumed + w], Abs();
        assert data[..consumed + w] == before + chunk;
        assert data == before + chunk + data[consumed + w..];
        FirstFailConcat(n, s, before, chunk);
        FirstFailConcat(n, s, before + chunk, data[consumed + w..]);
        var part := ConsumeAllEx(data[consumed..consumed + w]);
        ghost var done := chunk[..Min(part.consumed + 1, w)];
        RunExConcat(n, s, before, done);
        if part.error != Success {
          assert data[..consumed + part.consumed + 1] == before + done;
          DivModUnique(chunkSize, consumed + part.consumed, chunks, part.consumed);
          return ConsumeResult(consumed, part.error, part.position);
        }
        assert done == chunk;
        consumed := consumed + part.consumed;
        chunks := chunks + 1;
      }
      assert data[..|data|] == data;
      return ConsumeResult(consumed, Success, 0);
    }
  }
}
