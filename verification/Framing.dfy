/** The RP wire framing: DLE byte stuffing, CRC trailer, incremental decoder
    (src/elk_programmer/protocol/framing.py). */
module Framing {
  import opened Bytes
  import opened Crc

  const DLE: byte := 0x10
  const STX: byte := 0x02
  const ETX: byte := 0x03
  const ACK: byte := 0x06
  const NAK: byte := 0x15
  const DEBUG_STREAM: byte := 0xFF

  // ---- Encoding ----

  function StuffByte(b: byte): seq<byte> {
    if b == DLE then [b, DLE] else [b]
  }

  function Stuff(body: seq<byte>): seq<byte> {
    if body == [] then [] else StuffByte(body[0]) + Stuff(body[1..])
  }

  function Trailer(crc: bv16): seq<byte> {
    [DLE, ETX, HighByte(crc), LowByte(crc)]
  }

  /** The wire bytes of a body with a given CRC; `Wire` uses the body's own. */
  function WireWith(body: seq<byte>, crc: bv16): seq<byte> {
    [DLE, STX] + Stuff(body) + Trailer(crc)
  }

  function Wire(body: seq<byte>): seq<byte> {
    WireWith(body, Crc16(body, 0))
  }

  lemma {:induction false} StuffSnoc(body: seq<byte>, b: byte)
    ensures Stuff(body + [b]) == Stuff(body) + StuffByte(b)
  {
    if body == [] {
      assert body + [b] == [b];
      assert Stuff([b]) == StuffByte(b) + Stuff([]);
    } else {
      assert (body + [b])[1..] == body[1..] + [b];
      StuffSnoc(body[1..], b);
    }
  }

  /** `encode_frame`: None is the ValueError on an empty body. */
  method EncodeFrame(body: seq<byte>) returns (frame: Option<seq<byte>>)
    ensures frame == if body == [] then None else Some(Wire(body))
  {
    if body == [] {
      return None;
    }
    var out := [DLE, STX];
    for i := 0 to |body|
      invariant out == [DLE, STX] + Stuff(body[..i])
    {
      assert body[..i + 1] == body[..i] + [body[i]];
      StuffSnoc(body[..i], body[i]);
      out := out + [body[i]];
      if body[i] == DLE {
        out := out + [DLE];
      }
    }
    assert body[..|body|] == body;
    var crc := ComputeCrc16(body, 0);
    out := out + [DLE, ETX, HighByte(crc), LowByte(crc)];
    return Some(out);
  }

  // ---- Decoding ----

  datatype Kind = MESSAGE | ACKED | NAKED | CRC_ERROR | DEBUG

  datatype Event = Event(kind: Kind, body: seq<byte>)

  datatype State = IDLE | DLE1 | BODY | DLE2 | CRC1 | CRC2

  /** The decoder's three fields as a value. */
  datatype Snapshot = Snapshot(state: State, body: seq<byte>, crcHi: byte)

  datatype Output = Output(next: Snapshot, events: seq<Event>)

  const START := Snapshot(IDLE, [], 0)

  /** What a completed frame is reported as: debug stream first, then the CRC check. */
  function Verdict(body: seq<byte>, hi: byte, lo: byte): Event {
    if |body| > 0 && body[0] == DEBUG_STREAM then Event(DEBUG, body)
    else if hi == HighByte(Crc16(body, 0)) && lo == LowByte(Crc16(body, 0)) then Event(MESSAGE, body)
    else Event(CRC_ERROR, body)
  }

  function Step(d: Snapshot, b: byte): Output {
    match d.state
    case IDLE => Output(if b == DLE then d.(state := DLE1) else d, [])
    case DLE1 =>
      if b == STX then Output(Snapshot(BODY, [], d.crcHi), [])
      else if b == ACK then Output(d.(state := IDLE), [Event(ACKED, [])])
      else if b == NAK then Output(d.(state := IDLE), [Event(NAKED, [])])
      else if b != DLE then Output(d.(state := IDLE), [])
      else Output(d, [])
    case BODY =>
      Output(if b == DLE then d.(state := DLE2) else d.(body := d.body + [b]), [])
    case DLE2 =>
      if b == DLE then Output(Snapshot(BODY, d.body + [DLE], d.crcHi), [])
      else if b == ETX then Output(d.(state := CRC1), [])
      else if b == STX then Output(Snapshot(BODY, [], d.crcHi), [])
      else Output(d.(state := IDLE), [])
    case CRC1 => Output(d.(state := CRC2, crcHi := b), [])
    case CRC2 => Output(d.(state := IDLE), [Verdict(d.body, d.crcHi, b)])
  }

  function Run(d: Snapshot, data: seq<byte>): Output
    decreases |data|
  {
    if data == [] then Output(d, [])
    else
      var first := Step(d, data[0]);
      var rest := Run(first.next, data[1..]);
      Output(rest.next, first.events + rest.events)
  }

  class Decoder {
    var state: State
    var body: seq<byte>
    var crcHi: byte

    constructor ()
      ensures Value() == START
    {
      state, body, crcHi := IDLE, [], 0;
    }

    function Value(): Snapshot
      reads this
    {
      Snapshot(state, body, crcHi)
    }

    /** `_step`: None when the byte completes nothing. */
    method StepByte(b: byte) returns (ev: Option<Event>)
      modifies this
      ensures Step(old(Value()), b) == Output(Value(), if ev.None? then [] else [ev.value])
    {
      if state == IDLE {
        if b == DLE { state := DLE1; }
        return None;
      }
      if state == DLE1 {
        if b == STX {
          body, state := [], BODY;
        } else if b == ACK {
          state := IDLE;
          return Some(Event(ACKED, []));
        } else if b == NAK {
          state := IDLE;
          return Some(Event(NAKED, []));
        } else if b != DLE {
          state := IDLE;
        }
        return None;
      }
      if state == BODY {
        if b == DLE { state := DLE2; } else { body := body + [b]; }
        return None;
      }
      if state == DLE2 {
        if b == DLE {
          body, state := body + [DLE], BODY;
        } else if b == ETX {
          state := CRC1;
        } else if b == STX {
          body, state := [], BODY;
        } else {
          state := IDLE;
        }
        return None;
      }
      if state == CRC1 {
        crcHi, state := b, CRC2;
        return None;
      }
      state := IDLE;
      if |body| > 0 && body[0] == DEBUG_STREAM {
        return Some(Event(DEBUG, body));
      }
      var expected := ComputeCrc16(body, 0);
      if crcHi != HighByte(expected) || b != LowByte(expected) {
        return Some(Event(CRC_ERROR, body));
      }
      return Some(Event(MESSAGE, body));
    }

    method Feed(data: seq<byte>) returns (events: seq<Event>)
      modifies this
      ensures Run(old(Value()), data) == Output(Value(), events)
    {
      events := [];
      for i := 0 to |data|
        invariant Run(old(Value()), data[..i]) == Output(Value(), events)
      {
        RunSnoc(old(Value()), data[..i], data[i]);
        assert data[..i + 1] == data[..i] + [data[i]];
        var ev := StepByte(data[i]);
        if ev.Some? {
          events := events + [ev.value];
        }
      }
      assert data[..|data|] == data;
    }
  }

  // ---- Feeding in chunks ----

  /** `feed` distributes over concatenation. */
  lemma {:induction false} RunConcat(d: Snapshot, a: seq<byte>, b: seq<byte>)
    ensures Run(d, a + b) == Output(Run(Run(d, a).next, b).next, Run(d, a).events + Run(Run(d, a).next, b).events)
    decreases |a|
  {
    if a == [] {
      assert a + b == b;
    } else {
      assert (a + b)[1..] == a[1..] + b;
      RunConcat(Step(d, a[0]).next, a[1..], b);
    }
  }

  lemma RunSnoc(d: Snapshot, a: seq<byte>, b: byte)
    ensures Run(d, a + [b]) ==
            Output(Step(Run(d, a).next, b).next, Run(d, a).events + Step(Run(d, a).next, b).events)
  {
    RunConcat(d, a, [b]);
    RunOne(Run(d, a).next, b);
  }

  lemma RunOne(d: Snapshot, b: byte)
    ensures Run(d, [b]) == Step(d, b)
  {
    assert [b][1..] == [];
    assert Step(d, b).events + [] == Step(d, b).events;
  }

  /** Feeding a list of chunks one after the other. */
  function RunChunks(d: Snapshot, chunks: seq<seq<byte>>): Output
    decreases |chunks|
  {
    if chunks == [] then Output(d, [])
    else
      var first := Run(d, chunks[0]);
      var rest := RunChunks(first.next, chunks[1..]);
      Output(rest.next, first.events + rest.events)
  }

  /** How the bytes are cut into chunks never matters. */
  lemma {:induction false} ChunkingIrrelevant(d: Snapshot, chunks: seq<seq<byte>>)
    ensures RunChunks(d, chunks) == Run(d, Concat(chunks))
    decreases |chunks|
  {
    if chunks != [] {
      ChunkingIrrelevant(Run(d, chunks[0]).next, chunks[1..]);
      RunConcat(d, chunks[0], Concat(chunks[1..]));
    }
  }
}
