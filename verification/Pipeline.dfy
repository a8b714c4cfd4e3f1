/** Frames protected by a CRC, from the sender's payload to the receiver's verdict. */
module Pipeline {
  import opened Slip
  import opened Buffer
  import opened DecoderSpec
  import opened Crc32
  import opened CrcLaws
  import opened DecoderObject

  /** Appending the CRC, framing and streaming delivers one message, which verification
      accepts exactly if the payload is not empty and from which the payload is recovered. */
  lemma CrcFrameLaw(n: nat, p: seq<byte>)
    requires |p| + 6 <= n
    ensures Run(n, RESET, Encode(WithCrc(p))) == Out(RESET, [WithCrc(p)], 0)
    ensures Verified(WithCrc(p)) <==> p != []
    ensures WithCrc(p)[..|p|] == p
  {
    hide Run, Escape, Crc;
    DeliveredIffFits(n, WithCrc(p));
    if p == [] {
      NothingVerified(WithCrc(p));
    }
  }

  /** A frame whose payload was corrupted on the way, the CRC bytes being intact and the
      corruption within three consecutive bytes, is delivered but not accepted. */
  lemma CorruptFrameRejected(n: nat, pre: seq<byte>, u: seq<byte>, v: seq<byte>, post: seq<byte>)
    requires |u| == |v| <= 3 && u != v && |pre| + |u| + |post| + 6 <= n
    ensures var m := pre + v + post + ToBytes(Crc(INITIAL, pre + u + post));
            Run(n, RESET, Encode(m)) == Out(RESET, [m], 0) && !Verified(m)
  {
    hide Run, Escape, Crc, ToBytes;
    var m := pre + v + post + ToBytes(Crc(INITIAL, pre + u + post));
    DeliveredIffFits(n, m);
    CorruptionRejected(pre, u, v, post);
  }

  /** The whole path through the operations themselves.  It fails exactly if the wire buffer
      cannot hold the frame. */
  method SendAndReceive(payload: array<byte>, length: nat, wire: array<byte>, decoder: Decoder)
    returns (accepted: bool, received: Option<seq<byte>>)
    requires length + 4 <= payload.Length
    requires decoder.Valid() && decoder.Abs() == RESET && length + 6 <= decoder.rxbuf.Length
    requires payload != wire && payload != decoder.rxbuf && wire != decoder.rxbuf
    modifies payload, wire, decoder, decoder.rxbuf
    ensures received.Some? <==> |Encode(WithCrc(old(payload[..length])))| <= wire.Length
    ensures received.Some? ==>
              && received.value == old(payload[..length]) && (accepted <==> length > 0)
              && decoder.Valid() && decoder.messages == old(decoder.messages) + [WithCrc(received.value)]
    ensures received.None? ==> !accepted && decoder.messages == old(decoder.messages)
  {
    hide Run, Escape, Encode, Crc, ToBytes, Verified;
    ghost var p := payload[..length];
    var total := AppendCrc32(payload, length);
    EncodeOutcomeLaw(WithCrc(p), wire.Length);
    var written := EncodePacket(payload[..total], wire);
    if written == None {
      return false, None;
    }
    assert wire[..written.value] == Encode(WithCrc(p));
    CrcFrameLaw(decoder.rxbuf.Length, p);
    decoder.ConsumeAll(wire[..written.value]);
    var message := decoder.messages[|decoder.messages| - 1];
    accepted := VerifyCrc32(message);
    var n, _ := ExtractCrc32(message);
    received := Some(message[..n]);
  }
}
