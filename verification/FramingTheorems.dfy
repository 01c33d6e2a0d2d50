/** Round trip, self-synchronisation and soundness of the RP decoder. */
module FramingTheorems {
  import opened Bytes
  import opened Crc
  import opened Framing
  import CrcTheorems

  // ---- One frame ----

  /** The states from which the next complete frame is always received. */
  predicate Synchronised(d: Snapshot) {
    d.state in {IDLE, DLE1, BODY}
  }

  lemma RunTwo(d: Snapshot, x: byte, y: byte)
    ensures Run(d, [x, y]) ==
            Output(Step(Step(d, x).next, y).next, Step(d, x).events + Step(Step(d, x).next, y).events)
  {
    RunSnoc(d, [x], y);
    RunOne(d, x);
    assert [x] + [y] == [x, y];
  }

  lemma RunOpening(d: Snapshot)
    requires Synchronised(d)
    ensures Run(d, [DLE, STX]) == Output(Snapshot(BODY, [], d.crcHi), [])
  {
    RunTwo(d, DLE, STX);
  }

  lemma RunStuffByte(d: Snapshot, b: byte)
    requires d.state == BODY
    ensures Run(d, StuffByte(b)) == Output(d.(body := d.body + [b]), [])
  {
    if b == DLE { RunTwo(d, DLE, DLE); } else { RunOne(d, b); }
  }

  lemma RunSilently(d: Snapshot, a: seq<byte>, mid: Snapshot, b: seq<byte>, end: Snapshot)
    requires Run(d, a) == Output(mid, []) && Run(mid, b) == Output(end, [])
    ensures Run(d, a + b) == Output(end, [])
  {
    RunConcat(d, a, b);
  }

  /** Inside a frame these bytes make the body this one, and complete nothing. */
  predicate Gathers(d: Snapshot, data: seq<byte>, whole: seq<byte>) {
    Run(d, data) == Output(d.(body := whole), [])
  }

  lemma GathersThen(d: Snapshot, a: seq<byte>, mid: seq<byte>, b: seq<byte>, whole: seq<byte>)
    requires Gathers(d, a, mid) && Gathers(d.(body := mid), b, whole)
    ensures Gathers(d, a + b, whole)
  {
    RunSilently(d, a, d.(body := mid), b, d.(body := whole));
  }

  lemma GathersByte(d: Snapshot, b: byte)
    requires d.state == BODY
    ensures Gathers(d, StuffByte(b), d.body + [b])
  {
    RunStuffByte(d, b);
  }

  lemma FirstThenRest<T>(s: seq<T>, more: seq<T>)
    requires more != []
    ensures s + [more[0]] + more[1..] == s + more
  {}

  lemma {:induction false} GathersStuffed(d: Snapshot, body: seq<byte>)
    requires d.state == BODY
    ensures Gathers(d, Stuff(body), d.body + body)
    decreases |body|
  {
    if body == [] {
      assert d.body + body == d.body;
    } else {
      var mid := d.body + [body[0]];
      GathersByte(d, body[0]);
      GathersStuffed(d.(body := mid), body[1..]);
      GathersThen(d, StuffByte(body[0]), mid, Stuff(body[1..]), mid + body[1..]);
      FirstThenRest(d.body, body);
    }
  }

  lemma RunStuffed(d: Snapshot, body: seq<byte>)
    requires d.state == BODY
    ensures Run(d, Stuff(body)) == Output(d.(body := d.body + body), [])
  {
    GathersStuffed(d, body);
  }

  lemma RunTrailer(d: Snapshot, crc: bv16)
    requires d.state == BODY
    ensures Run(d, Trailer(crc)) ==
            Output(Snapshot(IDLE, d.body, HighByte(crc)), [Verdict(d.body, HighByte(crc), LowByte(crc))])
  {
    var hi, lo := HighByte(crc), LowByte(crc);
    var waiting := d.(state := CRC1);
    assert Trailer(crc) == [DLE, ETX] + [hi, lo];
    RunConcat(d, [DLE, ETX], [hi, lo]);
    RunTwo(d, DLE, ETX);
    RunTwo(waiting, hi, lo);
  }

  /** A frame with any CRC bytes, met in a synchronised state, gives exactly one verdict on its body. */
  lemma FrameReceived(d: Snapshot, body: seq<byte>, crc: bv16)
    requires Synchronised(d)
    ensures Run(d, WireWith(body, crc)) ==
            Output(Snapshot(IDLE, body, HighByte(crc)), [Verdict(body, HighByte(crc), LowByte(crc))])
  {
    var entered := Snapshot(BODY, [], d.crcHi);
    RunOpening(d);
    RunStuffed(entered, body);
    RunTrailer(entered.(body := body), crc);
    assert [] + body == body;
    RunConcat(d, [DLE, STX], Stuff(body));
    RunConcat(d, [DLE, STX] + Stuff(body), Trailer(crc));
  }

  // ---- Streams of frames and bare replies ----

  datatype Item = Frame(body: seq<byte>) | AckReply | NakReply

  function ItemWire(item: Item): seq<byte> {
    match item
    case Frame(body) => Wire(body)
    case AckReply => [0x10, 0x06]
    case NakReply => [0x10, 0x15]
  }

  function ItemEvent(item: Item): Event {
    match item
    case Frame(body) => Event(if |body| > 0 && body[0] == 0xFF then DEBUG else MESSAGE, body)
    case AckReply => Event(ACKED, [])
    case NakReply => Event(NAKED, [])
  }

  function StreamWire(items: seq<Item>): seq<byte> {
    if items == [] then [] else ItemWire(items[0]) + StreamWire(items[1..])
  }

  function StreamEvents(items: seq<Item>): seq<Event> {
    if items == [] then [] else [ItemEvent(items[0])] + StreamEvents(items[1..])
  }

  /** A bare ACK or NAK is only seen outside a body; a frame also inside an abandoned one. */
  predicate Receivable(d: Snapshot, item: Item) {
    Synchronised(d) && (item.Frame? || d.state != BODY)
  }

  lemma ItemReceived(d: Snapshot, item: Item)
    requires Receivable(d, item)
    ensures Run(d, ItemWire(item)).events == [ItemEvent(item)]
    ensures Run(d, ItemWire(item)).next.state == IDLE
  {
    match item
    case Frame(body) => FrameReceived(d, body, Crc16(body, 0));
    case AckReply => RunTwo(d, DLE, ACK);
    case NakReply => RunTwo(d, DLE, NAK);
  }

  /** From IDLE a stream of items decodes to exactly those items, in order. */
  lemma {:induction false} StreamReceived(d: Snapshot, items: seq<Item>)
    requires d.state == IDLE
    ensures Run(d, StreamWire(items)).events == StreamEvents(items)
    ensures Run(d, StreamWire(items)).next.state == IDLE
    decreases |items|
  {
    if items != [] {
      ItemReceived(d, items[0]);
      RunConcat(d, ItemWire(items[0]), StreamWire(items[1..]));
      StreamReceived(Run(d, ItemWire(items[0])).next, items[1..]);
    }
  }

  /** Stream round trip: encode any items, cut the bytes anywhere, and a fresh decoder
      reports exactly those items. */
  lemma StreamRoundTrip(items: seq<Item>, chunks: seq<seq<byte>>)
    requires Concat(chunks) == StreamWire(items)
    ensures RunChunks(START, chunks).events == StreamEvents(items)
  {
    ChunkingIrrelevant(START, chunks);
    StreamReceived(START, items);
  }

  // ---- Self-synchronisation ----

  lemma {:induction false} StuffedKeepsSync(d: Snapshot, body: seq<byte>)
    requires Synchronised(d)
    ensures Synchronised(Run(d, Stuff(body)).next)
    decreases |body|
  {
    if body != [] {
      var b := body[0];
      var next := Run(d, StuffByte(b)).next;
      assert Synchronised(next) by {
        if b == DLE { RunTwo(d, DLE, DLE); } else { RunOne(d, b); }
      }
      RunConcat(d, StuffByte(b), Stuff(body[1..]));
      StuffedKeepsSync(next, body[1..]);
    }
  }

  lemma OpeningSynchronises(d: Snapshot)
    ensures Synchronised(Run(d, [DLE, STX]).next)
  {
    RunTwo(d, DLE, STX);
  }

  lemma TrailerKeepsSync(d: Snapshot, crc: bv16)
    requires Synchronised(d)
    ensures Synchronised(Run(d, Trailer(crc)).next)
  {
    if d.state == BODY {
      RunTrailer(d, crc);
    } else {
      var hi, lo := HighByte(crc), LowByte(crc);
      assert Trailer(crc) == [DLE, ETX] + [hi, lo];
      RunConcat(d, [DLE, ETX], [hi, lo]);
      RunTwo(d, DLE, ETX);
      RunTwo(Run(d, [DLE, ETX]).next, hi, lo);
    }
  }

  /** Whatever state noise left the decoder in, one complete frame (with any CRC bytes)
      leaves it synchronised. */
  lemma FrameSynchronises(d: Snapshot, body: seq<byte>, crc: bv16)
    ensures Synchronised(Run(d, WireWith(body, crc)).next)
  {
    var entered := Run(d, [DLE, STX]).next;
    var stuffed := Run(entered, Stuff(body)).next;
    OpeningSynchronises(d);
    StuffedKeepsSync(entered, body);
    TrailerKeepsSync(stuffed, crc);
    RunConcat(d, [DLE, STX], Stuff(body));
    RunConcat(d, [DLE, STX] + Stuff(body), Trailer(crc));
  }

  /** Noise costs at most one frame: after arbitrary bytes and one frame, the next frame
      and every item behind it is reported, once each and in order. */
  lemma NoiseCostsOneFrame(d: Snapshot, noise: seq<byte>, lost: seq<byte>, body: seq<byte>, items: seq<Item>)
    ensures var before := Run(d, noise + Wire(lost));
            Run(d, noise + Wire(lost) + StreamWire([Frame(body)] + items)).events ==
            before.events + StreamEvents([Frame(body)] + items)
  {
    var all := [Frame(body)] + items;
    var before := Run(d, noise + Wire(lost));
    RunConcat(d, noise, Wire(lost));
    FrameSynchronises(Run(d, noise).next, lost, Crc16(lost, 0));
    RunConcat(d, noise + Wire(lost), StreamWire(all));
    RunConcat(before.next, Wire(body), StreamWire(items));
    ItemReceived(before.next, Frame(body));
    StreamReceived(Run(before.next, Wire(body)).next, items);
    assert all[1..] == items;
  }

  lemma {:induction false} IdleIgnores(d: Snapshot, data: seq<byte>)
    requires d.state == IDLE && DLE !in data
    ensures Run(d, data) == Output(d, [])
    decreases |data|
  {
    if data != [] { IdleIgnores(d, data[1..]); }
  }

  /** The bound is tight: a decoder waiting for a last CRC byte takes the DLE of the next
      frame for it, so the frame itself is not reported (here a frame without escapes). */
  lemma OneFrameCanBeLost(d: Snapshot, b: byte)
    requires d.state == CRC2 && b != DLE
    requires HighByte(Crc16([b], 0)) != DLE && LowByte(Crc16([b], 0)) != DLE
    ensures Run(d, Wire([b])).events == [Verdict(d.body, d.crcHi, DLE)]
  {
    var hi, lo := HighByte(Crc16([b], 0)), LowByte(Crc16([b], 0));
    var idle := d.(state := IDLE);
    assert Stuff([b]) == [b] + Stuff([]);
    assert Wire([b]) == [DLE] + ([STX, b] + ([DLE, ETX] + [hi, lo]));
    RunConcat(d, [DLE], [STX, b] + ([DLE, ETX] + [hi, lo]));
    RunOne(d, DLE);
    IdleIgnoresFrame(idle, [STX, b], [hi, lo]);
  }

  lemma IdleIgnoresFrame(d: Snapshot, a: seq<byte>, b: seq<byte>)
    requires d.state == IDLE && DLE !in a && DLE !in b
    ensures Run(d, a + ([DLE, ETX] + b)) == Output(d, [])
  {
    RunConcat(d, a, [DLE, ETX] + b);
    IdleIgnores(d, a);
    RunConcat(d, [DLE, ETX], b);
    RunTwo(d, DLE, ETX);
    IdleIgnores(d, b);
  }

  // ---- Soundness: nothing is reported that was not sent ----

  /** What the bytes received so far must end with for the decoder to be in `d`. */
  predicate Explains(past: seq<byte>, d: Snapshot) {
    match d.state
    case IDLE => true
    case DLE1 => EndsWith(past, [DLE])
    case BODY => EndsWith(past, [DLE, STX] + Stuff(d.body))
    case DLE2 => EndsWith(past, [DLE, STX] + Stuff(d.body) + [DLE])
    case CRC1 => EndsWith(past, [DLE, STX] + Stuff(d.body) + [DLE, ETX])
    case CRC2 => EndsWith(past, [DLE, STX] + Stuff(d.body) + [DLE, ETX, d.crcHi])
  }

  /** A frame with these two bytes in the place of its CRC. */
  function FrameWith(body: seq<byte>, hi: byte, lo: byte): seq<byte> {
    [0x10, 0x02] + Stuff(body) + [0x10, 0x03, hi, lo]
  }

  /** The wire form that an event must have had: a message its own frame, a CRC error a frame with other
      CRC bytes, a debug frame any. */
  ghost predicate Justified(past: seq<byte>, ev: Event) {
    match ev.kind
    case MESSAGE => EndsWith(past, Wire(ev.body))
    case ACKED => ev.body == [] && EndsWith(past, [0x10, 0x06])
    case NAKED => ev.body == [] && EndsWith(past, [0x10, 0x15])
    case DEBUG => |ev.body| > 0 && ev.body[0] == 0xFF && exists hi, lo :: EndsWith(past, FrameWith(ev.body, hi, lo))
    case CRC_ERROR =>
      exists hi, lo :: EndsWith(past, FrameWith(ev.body, hi, lo)) && FrameWith(ev.body, hi, lo) != Wire(ev.body)
  }

  lemma BytesOfOneCrc(crc: bv16, hi: byte, lo: byte)
    requires hi == HighByte(crc) && lo == LowByte(crc)
    ensures [DLE, ETX, hi] + [lo] == Trailer(crc)
  {}

  lemma BodyExplained(past: seq<byte>, d: Snapshot, b: byte)
    requires d.state == BODY && Explains(past, d)
    ensures Explains(past + [b], Step(d, b).next)
  {
    var entered := [DLE, STX] + Stuff(d.body);
    EndsWithExtended(past, entered, [b]);
    if b != DLE {
      StuffSnoc(d.body, b);
      assert entered + [b] == [DLE, STX] + Stuff(d.body + [b]);
    }
  }

  lemma EscapeExplained(past: seq<byte>, d: Snapshot, b: byte)
    requires d.state == DLE2 && Explains(past, d)
    ensures Explains(past + [b], Step(d, b).next)
  {
    var entered := [DLE, STX] + Stuff(d.body);
    EndsWithExtended(past, entered + [DLE], [b]);
    assert entered + [DLE] + [b] == entered + [DLE, b];
    if b == DLE {
      StuffSnoc(d.body, DLE);
      assert entered + [DLE, DLE] == [DLE, STX] + Stuff(d.body + [DLE]);
    } else if b == STX {
      EndsWithTail(past + [b], entered, [DLE, STX]);
      assert [DLE, STX] + Stuff([]) == [DLE, STX];
    }
  }

  lemma FirstCrcByteExplained(past: seq<byte>, d: Snapshot, b: byte)
    requires d.state == CRC1 && Explains(past, d)
    ensures Explains(past + [b], Step(d, b).next)
  {
    var entered := [DLE, STX] + Stuff(d.body);
    EndsWithExtended(past, entered + [DLE, ETX], [b]);
    assert entered + [DLE, ETX] + [b] == entered + [DLE, ETX, b];
  }

  lemma WireCompleted(body: seq<byte>, hi: byte, lo: byte)
    requires hi == HighByte(Crc16(body, 0)) && lo == LowByte(Crc16(body, 0))
    ensures [DLE, STX] + Stuff(body) + [DLE, ETX, hi] + [lo] == Wire(body)
  {
    var entered := [DLE, STX] + Stuff(body);
    BytesOfOneCrc(Crc16(body, 0), hi, lo);
    assert entered + [DLE, ETX, hi] + [lo] == entered + ([DLE, ETX, hi] + [lo]);
  }

  lemma OtherFrame(body: seq<byte>, hi: byte, lo: byte)
    requires hi != HighByte(Crc16(body, 0)) || lo != LowByte(Crc16(body, 0))
    ensures FrameWith(body, hi, lo) != Wire(body)
  {
    var n := 2 + |Stuff(body)|;
    assert FrameWith(body, hi, lo)[n + 2] == hi && FrameWith(body, hi, lo)[n + 3] == lo;
    assert Wire(body)[n + 2] == HighByte(Crc16(body, 0)) && Wire(body)[n + 3] == LowByte(Crc16(body, 0));
  }

  lemma LastByteExplained(past: seq<byte>, d: Snapshot, b: byte)
    requires d.state == CRC2 && Explains(past, d)
    ensures Justified(past + [b], Verdict(d.body, d.crcHi, b))
  {
    var crc, entered := Crc16(d.body, 0), [DLE, STX] + Stuff(d.body);
    EndsWithExtended(past, entered + [DLE, ETX, d.crcHi], [b]);
    assert entered + [DLE, ETX, d.crcHi] + [b] == FrameWith(d.body, d.crcHi, b);
    if d.crcHi == HighByte(crc) && b == LowByte(crc) {
      WireCompleted(d.body, d.crcHi, b);
    } else {
      OtherFrame(d.body, d.crcHi, b);
    }
  }

  lemma StepExplained(past: seq<byte>, d: Snapshot, b: byte)
    requires Explains(past, d)
    ensures Explains(past + [b], Step(d, b).next)
    ensures forall ev | ev in Step(d, b).events :: Justified(past + [b], ev)
  {
    match d.state
    case IDLE =>
    case DLE1 =>
      EndsWithExtended(past, [DLE], [b]);
      assert [DLE] + [b] == [DLE, b];
      assert [DLE, STX] + Stuff([]) == [DLE, STX];
    case BODY => BodyExplained(past, d, b);
    case DLE2 => EscapeExplained(past, d, b);
    case CRC1 => FirstCrcByteExplained(past, d, b);
    case CRC2 => LastByteExplained(past, d, b);
  }

  lemma EndsWithTail(s: seq<byte>, a: seq<byte>, b: seq<byte>)
    requires EndsWith(s, a + b)
    ensures EndsWith(s, b)
  {
    var k := |s| - |a + b|;
    assert s[k..][|a|..] == b;
  }

  /** Some prefix of the input, longer than what came before, ends with what the event must have had. */
  ghost predicate JustifiedIn(past: seq<byte>, data: seq<byte>, ev: Event) {
    exists cut :: 0 < cut <= |data| && Justified(past + data[..cut], ev)
  }

  lemma JustifiedFirst(past: seq<byte>, data: seq<byte>, ev: Event)
    requires data != [] && Justified(past + [data[0]], ev)
    ensures JustifiedIn(past, data, ev)
  {
    assert data[..1] == [data[0]];
  }

  lemma JustifiedLater(past: seq<byte>, data: seq<byte>, ev: Event)
    requires data != [] && JustifiedIn(past + [data[0]], data[1..], ev)
    ensures JustifiedIn(past, data, ev)
  {
    var cut :| 0 < cut <= |data| - 1 && Justified(past + [data[0]] + data[1..][..cut], ev);
    assert past + [data[0]] + data[1..][..cut] == past + data[..cut + 1];
  }

  /** Every event a decoder reports was literally on the wire: some prefix of the input, longer than
      what came before, ends for a message with exactly the bytes `encode_frame` would have produced for it,
      and for a CRC error with a frame of that body that carries another CRC. */
  lemma {:induction false} DecoderSound(past: seq<byte>, d: Snapshot, data: seq<byte>)
    requires Explains(past, d)
    ensures Explains(past + data, Run(d, data).next)
    ensures forall ev | ev in Run(d, data).events :: JustifiedIn(past, data, ev)
    decreases |data|
  {
    if data == [] {
      assert past + data == past;
    } else {
      var b, rest := data[0], data[1..];
      StepExplained(past, d, b);
      DecoderSound(past + [b], Step(d, b).next, rest);
      assert past + [b] + rest == past + data;
      forall ev | ev in Run(d, data).events ensures JustifiedIn(past, data, ev) {
        if ev in Step(d, b).events {
          JustifiedFirst(past, data, ev);
        } else {
          JustifiedLater(past, data, ev);
        }
      }
    }
  }

  /** From a fresh decoder: no message is ever reported without its complete frame in the input. */
  lemma NoForgedMessages(data: seq<byte>, body: seq<byte>)
    requires Event(MESSAGE, body) in Run(START, data).events
    ensures exists before, after :: data == before + Wire(body) + after
  {
    DecoderSound([], START, data);
    var cut :| 0 < cut <= |data| && Justified([] + data[..cut], Event(MESSAGE, body));
    assert [] + data[..cut] == data[..cut];
    var k := cut - |Wire(body)|;
    assert data == data[..k] + Wire(body) + data[cut..];
  }

  // ---- Damage ----

  /** A frame whose body was damaged within two adjacent bytes, but which kept its length and
      its CRC bytes, is never reported as a message, from any synchronised state. */
  lemma AdjacentDamageRejected(d: Snapshot, sent: seq<byte>, got: seq<byte>, i: nat)
    requires Synchronised(d)
    requires |sent| == |got| && sent != got
    requires forall k | 0 <= k < |sent| && k != i && k != i + 1 :: sent[k] == got[k]
    ensures Run(d, WireWith(got, Crc16(sent, 0))).events ==
            [Event(if got[0] == 0xFF then DEBUG else CRC_ERROR, got)]
  {
    CrcTheorems.AdjacentBytesDetected(sent, got, 0, i);
    FrameReceived(d, got, Crc16(sent, 0));
    SameBytesSameCrc(Crc16(sent, 0), Crc16(got, 0));
  }

  lemma SameBytesSameCrc(c: bv16, d: bv16)
    ensures HighByte(c) == HighByte(d) && LowByte(c) == LowByte(d) ==> c == d
  {}
}
