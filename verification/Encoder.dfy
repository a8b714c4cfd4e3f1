/** The streaming encoder object: a ring buffer in front of a non-blocking sink. */
module EncoderObject {
  import opened Slip
  import opened EncoderSpec
  import opened EncoderLaws
  import opened EncoderChunks

  /** Status of the _ex operations with the error code and position that go with it. */
  datatype PushResult = PushResult(status: Status, consumed: nat, error: ErrorCode, position: nat)

  class Encoder {
    const sink: Sink
    const txBuf: array<byte>
    var txHead: nat
    var txTail: nat
    var txSize: nat
    var maxSendChunk: nat
    var endPending: bool
    /** The sink's memory of what it was offered, and what it took. */
    var offered: seq<byte>
    ghost var accepted: seq<byte>

    /** A capacity of zero is allowed: such an encoder never touches its buffer. */
    ghost predicate Valid()
      reads this
    {
      && txSize <= txBuf.Length
      && (if txBuf.Length == 0 then txHead == txTail == 0
          else txHead < txBuf.Length && txTail == (txHead + txSize) % txBuf.Length)
    }

    /** The queued bytes in order. */
    ghost function Contents(): (q: seq<byte>)
      reads this, txBuf
      requires Valid()
      ensures |q| == txSize
    {
      Window(txBuf[..], txHead, txSize)
    }

    ghost function Abs(): (s: Enc)
      reads this, txBuf
      requires Valid()
      ensures |s.queue| <= txBuf.Length
    {
      Enc(Contents(), endPending, maxSendChunk, offered, accepted)
    }

    constructor (sink: Sink, txBufferSize: nat, maxSendChunk: nat)
      ensures Valid() && fresh(txBuf) && this.sink == sink && txBuf.Length == txBufferSize
      ensures Abs() == Fresh(maxSendChunk)
    {
      this.sink := sink;
      txBuf := new byte[txBufferSize];
      txHead, txTail, txSize := 0, 0, 0;
      this.maxSendChunk, endPending := maxSendChunk, false;
      offered, accepted := [], [];
    }

    method SetMaxSendChunk(n: nat)
      requires Valid()
      modifies this`maxSendChunk
      ensures Valid() && Abs() == old(Abs()).(chunk := n)
    {
      maxSendChunk := n;
    }

    method QueueByte(b: byte) returns (ok: bool)
      requires Valid()
      modifies this`txTail, this`txSize, txBuf
      ensures Valid()
      ensures ok <==> |old(Contents())| < txBuf.Length
      ensures Contents() == old(Contents()) + if ok then [b] else []
    {
      if txSize >= txBuf.Length { return false; }
      hide Window;
      WindowAppend(txBuf[..], txHead, txSize, b);
      txBuf[txTail] := b;
      txTail := (txTail + 1) % txBuf.Length;
      txSize := txSize + 1;
      return true;
    }

    method DequeueByte() returns (ok: bool, b: byte)
      requires Valid()
      modifies this`txHead, this`txSize
      ensures Valid()
      ensures ok <==> old(Contents()) != []
      ensures if ok then old(Contents()) == [b] + Contents() else Contents() == old(Contents())
    {
      if txSize == 0 { return false, 0; }
      hide Window;
      WindowDrop(txBuf[..], txHead, txSize);
      b := txBuf[txHead];
      txHead := (txHead + 1) % txBuf.Length;
      txSize := txSize - 1;
      return true, b;
    }

    method Flush() returns (st: Status)
      requires Valid()
      modifies this`txHead, this`txSize, this`offered, this`accepted
      ensures Valid()
      ensures Reply(Abs(), st) == EncoderSpec.Flush(sink, old(Abs()))
    {
      hide Window, FlushUpTo;
      var sent := 0;
      while txSize > 0 && sent < maxSendChunk
        invariant Valid() && sent <= maxSendChunk
        invariant FlushUpTo(sink, Abs(), maxSendChunk - sent) == EncoderSpec.Flush(sink, old(Abs()))
      {
        FlushUnfold(sink, Abs(), maxSendChunk - sent);
        WindowDrop(txBuf[..], txHead, txSize);
        ghost var q := Contents();
        var b := txBuf[txHead];
        offered := offered + [b];
        st := sink(offered);
        if st == Ok {
          var _, _ := DequeueByte();
          assert Contents() == q[1..];
          accepted := accepted + [b];
          sent := sent + 1;
        } else {
          return;
        }
      }
      FlushUnfold(sink, Abs(), maxSendChunk - sent);
      return Ok;
    }

    /** The position of an error is the number of bytes this flush got out before it. */
    method FlushEx() returns (st: Status, error: ErrorCode, position: nat)
      requires Valid()
      modifies this`txHead, this`txSize, this`offered, this`accepted
      ensures Valid()
      ensures Reply(Abs(), st) == EncoderSpec.Flush(sink, old(Abs()))
      ensures if st == Error then error == EncodeInternalError && position == |accepted| - |old(accepted)|
              else error == Success && position == 0
    {
      hide Window, FlushUpTo;
      var sent := 0;
      while txSize > 0 && sent < maxSendChunk
        invariant Valid() && sent <= maxSendChunk
        invariant |accepted| == |old(accepted)| + sent
        invariant FlushUpTo(sink, Abs(), maxSendChunk - sent) == EncoderSpec.Flush(sink, old(Abs()))
      {
        FlushUnfold(sink, Abs(), maxSendChunk - sent);
        WindowDrop(txBuf[..], txHead, txSize);
        ghost var q := Contents();
        var b := txBuf[txHead];
        offered := offered + [b];
        st := sink(offered);
        if st == Ok {
          var _, _ := DequeueByte();
          assert Contents() == q[1..];
          accepted := accepted + [b];
          sent := sent + 1;
        } else if st == RetryLater {
          return RetryLater, Success, 0;
        } else {
          return Error, EncodeInternalError, sent;
        }
      }
      FlushUnfold(sink, Abs(), maxSendChunk - sent);
      return Ok, Success, 0;
    }

    method EnsureFree(n: nat) returns (st: Status)
      requires Valid()
      modifies this`txHead, this`txSize, this`offered, this`accepted
      ensures Valid()
      ensures Reply(Abs(), st) == EncoderSpec.EnsureFree(txBuf.Length, sink, old(Abs()), n)
    {
      if txBuf.Length - txSize >= n { return Ok; }
      st := Flush();
      if st != Ok { return; }
      return if txBuf.Length - txSize >= n then Ok else RetryLater;
    }

    /** Once room has been made the queue cannot refuse, so the returns in the source that
        would leave half an escape pair behind are dead. */
    method EncodeOne(data: seq<byte>) returns (st: Status, consumed: nat)
      requires Valid()
      modifies this, txBuf
      ensures Valid()
      ensures data == [] ==> st == Ok && consumed == 0 && Abs() == old(Abs())
      ensures data != [] ==>
                && Reply(Abs(), st) == EncoderSpec.EncodeOne(txBuf.Length, sink, old(Abs()), data[0])
                && consumed == if st == Ok then 1 else 0
    {
      if data == [] { return Ok, 0; }
      var c := data[0];
      if c == END {
        st := EnsureFree(2);
        if st != Ok { return st, 0; }
        QueuePair(ESC, ESCEND);
      } else if c == ESC {
        st := EnsureFree(2);
        if st != Ok { return st, 0; }
        QueuePair(ESC, ESCESC);
      } else {
        st := EnsureFree(1);
        if st != Ok { return st, 0; }
        var ok := QueueByte(c);
        assert ok;
      }
      return Ok, 1;
    }

    method QueuePair(a: byte, b: byte)
      requires Valid() && |Contents()| + 2 <= txBuf.Length
      modifies this`txTail, this`txSize, txBuf
      ensures Valid() && Contents() == old(Contents()) + [a, b]
    {
      ghost var q := Contents();
      var ok := QueueByte(a);
      assert ok;
      ok := QueueByte(b);
      assert ok;
      assert q + [a] + [b] == q + [a, b];
    }

    method PushPacket(data: seq<byte>) returns (st: Status, consumed: nat)
      requires Valid()
      modifies this, txBuf
      ensures Valid()
      ensures var r := Push(txBuf.Length, sink, old(Abs()), data);
              Abs() == r.enc && st == r.status && consumed == r.consumed
    {
      hide Window, EncoderSpec.Flush, EncoderSpec.EnsureFree, EncoderSpec.EncodeOne;
      ghost var goal := Push(txBuf.Length, sink, Abs(), data);
      consumed := 0;
      st := Flush();
      if st == Error { return; }
      if st == RetryLater { return; }
      if endPending {
        st := EnsureFree(1);
        if st != Ok { return; }
        var _ := QueueByte(END);
        endPending := false;
        st := Flush();
        if st != Ok { return; }
      }
      while consumed < |data|
        invariant Valid() && consumed <= |data|
        invariant PushPayload(txBuf.Length, sink, Abs(), data, consumed, Error) == goal
      {
        var c: nat;
        st, c := EncodeOne(data[consumed..]);
        if st != Ok { return; }
        consumed := consumed + c;
        st := Flush();
        if st == Error { return; }
        if st == RetryLater { return; }
      }
      st := EnsureFree(1);
      if st != Ok {
        if st == RetryLater { endPending := true; }
        return;
      }
      var _ := QueueByte(END);
      st := Flush();
    }

    method PushPacketEx(data: seq<byte>) returns (r: PushResult)
      requires Valid()
      modifies this, txBuf
      ensures Valid()
      ensures var p := Push(txBuf.Length, sink, old(Abs()), data);
              Abs() == p.enc && r.status == p.status && r.consumed == p.consumed
      ensures if r.status == Error then r.error == EncodeInternalError && r.position == r.consumed
              else r.error == Success && r.position == 0
    {
      hide Window, EncoderSpec.Flush, EncoderSpec.EnsureFree, EncoderSpec.EncodeOne;
      ghost var goal := PushEx(txBuf.Length, sink, Abs(), data);
      PushExAgrees(txBuf.Length, sink, Abs(), data);
      var consumed := 0;
      var st, error, sent := FlushEx();
      if st != Ok { return PushResult(st, consumed, error, if st == Error then consumed else 0); }
      if endPending {
        st := EnsureFree(1);
        if st == RetryLater { return PushResult(RetryLater, consumed, Success, 0); }
        if st == Error { return PushResult(Error, consumed, EncodeInternalError, consumed); }
        var _ := QueueByte(END);
        endPending := false;
        st, error, sent := FlushEx();
        if st != Ok { return PushResult(st, consumed, error, if st == Error then consumed else 0); }
      }
      while consumed < |data|
        invariant Valid() && consumed <= |data|
        invariant PushPayload(txBuf.Length, sink, Abs(), data, consumed, RetryLater) == goal
      {
        var c: nat;
        st, c := EncodeOne(data[consumed..]);
        if st == RetryLater { return PushResult(RetryLater, consumed, Success, 0); }
        if st == Error { return PushResult(Error, consumed, EncodeInternalError, consumed); }
        consumed := consumed + c;
        st, error, sent := FlushEx();
        if st != Ok { return PushResult(st, consumed, error, if st == Error then consumed else 0); }
      }
      st := EnsureFree(1);
      if st != Ok {
        if st == RetryLater { endPending := true; }
        return PushResult(RetryLater, consumed, Success, 0);
      }
      var _ := QueueByte(END);
      st, error, sent := FlushEx();
      if st != Ok { return PushResult(st, consumed, error, if st == Error then consumed else 0); }
      return PushResult(Ok, consumed, Success, 0);
    }

    method PushPacketChunk(data: seq<byte>, chunkSize: nat) returns (st: Status, consumed: nat)
      requires Valid()
      requires chunkSize > 0 || data == []
      modifies this, txBuf
      ensures Valid()
      ensures Chunked(Abs(), st, consumed) == PushChunks(txBuf.Length, sink, old(Abs()), data, chunkSize, 0)
    {
      hide Window, PushWith;
      ghost var goal := PushChunks(txBuf.Length, sink, Abs(), data, chunkSize, 0);
      consumed := 0;
      while consumed < |data|
        invariant Valid() && consumed <= |data|
        invariant PushChunks(txBuf.Length, sink, Abs(), data, chunkSize, consumed) == goal
      {
        var n := Min(chunkSize, |data| - consumed);
        PushConserves(txBuf.Length, sink, Abs(), data[consumed..consumed + n], Error);
        var status, c := PushPacket(data[consumed..consumed + n]);
        if status != Ok { return status, consumed; }
        consumed := consumed + c;
      }
      return Ok, consumed;
    }

    method PushPacketChunkEx(data: seq<byte>, chunkSize: nat) returns (r: PushResult)
      requires Valid()
      requires chunkSize > 0 || data == []
      modifies this, txBuf
      ensures Valid()
      ensures var c := PushChunks(txBuf.Length, sink, old(Abs()), data, chunkSize, 0);
              Abs() == c.enc && r.status == c.status && r.consumed == c.consumed
      ensures if r.status == Error then r.error == EncodeInternalError && r.position == r.consumed
              else r.error == Success && r.position == 0
    {
      hide Window, PushWith;
      ghost var goal := PushChunks(txBuf.Length, sink, Abs(), data, chunkSize, 0);
      var consumed := 0;
      while consumed < |data|
        invariant Valid() && consumed <= |data|
        invariant PushChunks(txBuf.Length, sink, Abs(), data, chunkSize, consumed) == goal
      {
        var n := Min(chunkSize, |data| - consumed);
        PushConserves(txBuf.Length, sink, Abs(), data[consumed..consumed + n], Error);
        r := PushPacketEx(data[consumed..consumed + n]);
        if r.status == RetryLater { return PushResult(RetryLater, consumed, Success, 0); }
        if r.status == Error { return PushResult(Error, consumed, r.error, consumed); }
        consumed := consumed + r.consumed;
      }
      return PushResult(Ok, consumed, Success, 0);
    }
  }

  /** `size` bytes of a ring buffer from `head` on: a window into the buffer laid out twice. */
  ghost function Window(buf: seq<byte>, head: nat, size: nat): (q: seq<byte>)
    requires size <= |buf| && (head < |buf| || head == size == 0)
    ensures |q| == size
  {
    (buf + buf)[head..head + size]
  }

  lemma Wrap(x: nat, n: nat)
    requires 0 < n && x < 2 * n
    ensures x % n == if x < n then x else x - n
  {
  }

  lemma WindowAppend(buf: seq<byte>, head: nat, size: nat, b: byte)
    requires size < |buf| && head < |buf|
    ensures var tail := (head + size) % |buf|;
            && (tail + 1) % |buf| == (head + size + 1) % |buf|
            && Window(buf[tail := b], head, size + 1) == Window(buf, head, size) + [b]
  {
    var n, tail := |buf|, (head + size) % |buf|;
    Wrap(head + size, n);
    Wrap(tail + 1, n);
    Wrap(head + size + 1, n);
    var u, v := buf + buf, buf[tail := b] + buf[tail := b];
    assert forall j | head <= j < head + size :: v[j] == u[j];
    assert v[head + size] == b;
  }

  lemma WindowDrop(buf: seq<byte>, head: nat, size: nat)
    requires 0 < size <= |buf| && head < |buf|
    ensures var next := (head + 1) % |buf|;
            && (next + (size - 1)) % |buf| == (head + size) % |buf|
            && Window(buf, head, size) == [buf[head]] + Window(buf, next, size - 1)
  {
    var n, next := |buf|, (head + 1) % |buf|;
    Wrap(head + 1, n);
    Wrap(head + size, n);
    Wrap(next + (size - 1), n);
    var u := buf + buf;
    assert u[next..next + (size - 1)] == u[head + 1..head + size];
  }
}
