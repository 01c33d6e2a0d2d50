/** What a frame is, byte by byte, and what a whole frame means to the decoder
    (src/elk_programmer/protocol/framing.py). */
module FramingLaws {
  import opened Bytes
  import opened Crc
  import opened Framing
  import opened FramingTheorems

  /** Byte k of the body stands at p[k], and twice if it is 0x10; the next stands right behind it. */
  predicate ByteAt(body: seq<byte>, p: seq<nat>, w: seq<byte>, k: nat)
    requires |p| == |body| + 1 && k < |body|
  {
    && p[k + 1] == p[k] + (if body[k] == 0x10 then 2 else 1)
    && p[k + 1] <= |w| && w[p[k]] == body[k]
    && (body[k] == 0x10 ==> w[p[k] + 1] == 0x10)
  }

  /** w is the body with every 0x10 doubled. */
  predicate Doubled(body: seq<byte>, p: seq<nat>, w: seq<byte>) {
    && |p| == |body| + 1 && p[0] == 0 && p[|body|] == |w|
    && forall k | 0 <= k < |body| :: ByteAt(body, p, w, k)
  }

  lemma DoubledMore(body: seq<byte>, p: seq<nat>, w: seq<byte>, b: byte)
    requires Doubled(body, p, w)
    ensures Doubled(body + [b], p + [|w| + |StuffByte(b)|], w + StuffByte(b))
  {
    var all, q, more := body + [b], p + [|w| + |StuffByte(b)|], w + StuffByte(b);
    forall k | 0 <= k < |all| ensures ByteAt(all, q, more, k) {
      if k < |body| {
        assert ByteAt(body, p, w, k);
      } else {
        assert more[|w|..] == StuffByte(b);
      }
    }
  }

  lemma {:induction false} StuffDoubles(body: seq<byte>) returns (p: seq<nat>)
    ensures Doubled(body, p, Stuff(body))
    decreases |body|
  {
    p := [0];
    if body != [] {
      var n := |body| - 1;
      p := StuffDoubles(body[..n]);
      assert body[..n] + [body[n]] == body;
      DoubledMore(body[..n], p, Stuff(body[..n]), body[n]);
      StuffSnoc(body[..n], body[n]);
      p := p + [|Stuff(body)|];
    }
  }

  /** A frame is 10 02, the body with every 10 doubled, 10 03, and the CRC of the body, high byte first. */
  lemma WireIs(body: seq<byte>) returns (p: seq<nat>, w: seq<byte>)
    ensures Doubled(body, p, w)
    ensures var crc := Crc16(body, 0);
            Wire(body) == [0x10, 0x02] + w + [0x10, 0x03, (crc >> 8) as byte, (crc & 0xFF) as byte]
  {
    p := StuffDoubles(body);
    w := Stuff(body);
  }

  /** Between frames, a whole frame with any two CRC bytes is one event: a debug frame if its body starts
      with FF, otherwise a message if those are the CRC of its body, and a CRC error if not. */
  lemma FrameMeans(d: Snapshot, body: seq<byte>, crc: bv16)
    requires d.state == IDLE
    ensures Run(d, [0x10, 0x02] + Stuff(body) + [0x10, 0x03, (crc >> 8) as byte, (crc & 0xFF) as byte]).events ==
            [Event(if body != [] && body[0] == 0xFF then DEBUG
                   else if crc == Crc16(body, 0) then MESSAGE else CRC_ERROR, body)]
  {
    FrameReceived(d, body, crc);
    SameBytesSameCrc(crc, Crc16(body, 0));
  }

  /** Outside a frame 10 06 is an ACK and 10 15 a NAK, and bytes without a 10 are nothing. */
  lemma BareReplies(d: Snapshot, noise: seq<byte>)
    requires d.state == IDLE && 0x10 !in noise
    ensures Run(d, noise + [0x10, 0x06]).events == [Event(ACKED, [])]
    ensures Run(d, noise + [0x10, 0x15]).events == [Event(NAKED, [])]
  {
    IdleIgnores(d, noise);
    RunConcat(d, noise, [0x10, 0x06]);
    RunConcat(d, noise, [0x10, 0x15]);
    RunTwo(d, 0x10, 0x06);
    RunTwo(d, 0x10, 0x15);
  }
}
