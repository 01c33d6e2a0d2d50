/** The RP request/reply session (src/elk_programmer/protocol/session.py, messages.py).
    The transport is an oracle: the list of everything its `read` calls will return, each
    with the time it takes. When the list is exhausted the transport stays silent, so
    every wait after that ends at its deadline. */
module Session {
  import opened Bytes
  import opened Framing

  const ACK_RESULT: int := 4102
  const SYSTEM: byte := 0x7F
  const REPLY_DATA_OFFSET: nat := 4

  datatype Request = Request(body: seq<byte>, expected: int, attempts: int, timeout: real)

  datatype Read = Read(data: seq<byte>, elapsed: real)

  datatype TraceEntry = Tx(body: seq<byte>) | Rx(event: Event)

  /** How a request ends. `IndexFault` is the IndexError of an empty message body,
      `NoAttempts` the failed assertion of a request that allows no attempt, and
      `EmptyRequest` the ValueError of `encode_frame`. */
  datatype Outcome =
    | Reply(body: seq<byte>)
    | TimedOut
    | WrongReply
    | Disconnected
    | IndexFault
    | NoAttempts
    | EmptyRequest

  predicate Retryable(o: Outcome) {
    o.TimedOut? || o.WrongReply?
  }

  predicate IsPanelDisconnect(body: seq<byte>) {
    |body| >= 2 && body[0] == SYSTEM && body[1] == 0x01
  }

  /** What one received event means for a waiting request; None keeps waiting. */
  function Classify(ev: Event, req: Request): Option<Outcome> {
    match ev.kind
    case DEBUG => None
    case CRC_ERROR => Some(WrongReply)
    case NAKED => Some(WrongReply)
    case ACKED => if req.expected == ACK_RESULT then Some(Reply([])) else None
    case MESSAGE =>
      if IsPanelDisconnect(ev.body) then Some(Disconnected)
      else if ev.body == [] then Some(IndexFault)
      else if ev.body[0] as int == req.expected then Some(Reply(ev.body))
      else Some(WrongReply)
  }

  /** How many events of a chunk are looked at, and what they decide. The rest is dropped. */
  datatype Scanned = Scanned(seen: nat, outcome: Option<Outcome>)

  function Scan(events: seq<Event>, req: Request): (s: Scanned)
    ensures s.seen <= |events|
  {
    if events == [] then Scanned(0, None)
    else
      var first := Classify(events[0], req);
      if first.Some? then Scanned(1, first)
      else
        var rest := Scan(events[1..], req);
        Scanned(rest.seen + 1, rest.outcome)
  }

  /** The deciding event is the last one looked at; everything before it was passed over. */
  lemma {:induction false} ScanFacts(events: seq<Event>, req: Request)
    ensures var s := Scan(events, req);
            && (s.outcome.Some? ==> s.seen > 0 && Classify(events[s.seen - 1], req) == s.outcome)
            && (s.outcome.None? ==> s.seen == |events|)
            && forall i | 0 <= i < s.seen - (if s.outcome.Some? then 1 else 0) :: Classify(events[i], req).None?
  {
    if events != [] { ScanFacts(events[1..], req); }
  }

  function Received(events: seq<Event>): seq<TraceEntry> {
    seq(|events|, i requires 0 <= i < |events| => Rx(events[i]))
  }

  /** Everything a session changes, as a value. */
  datatype Link = Link(dec: Snapshot, incoming: seq<Read>, written: seq<seq<byte>>, trace: seq<TraceEntry>)

  datatype Ended = Ended(link: Link, outcome: Outcome)

  /** One read and the events it completes. */
  function Absorb(l: Link, req: Request): (r: (Link, Option<Outcome>))
    requires l.incoming != []
  {
    var out := Run(l.dec, l.incoming[0].data);
    var s := Scan(out.events, req);
    (l.(dec := out.next, incoming := l.incoming[1..], trace := l.trace + Received(out.events[..s.seen])), s.outcome)
  }

  function Await(l: Link, req: Request, remaining: real): Ended
    decreases |l.incoming|
  {
    if remaining <= 0.0 || l.incoming == [] then Ended(l, TimedOut)
    else
      var (next, o) := Absorb(l, req);
      if o.Some? then Ended(next, o.value)
      else Await(next, req, remaining - l.incoming[0].elapsed)
  }

  function Written(l: Link, req: Request): Link {
    l.(written := l.written + [Wire(req.body)], trace := l.trace + [Tx(req.body)])
  }

  /** `left` attempts remain; `last` is how the previous one failed. */
  function Attempts(l: Link, req: Request, left: nat, last: Outcome): Ended
    decreases left
  {
    if left == 0 then Ended(l, last)
    else
      var e := Await(Written(l, req), req, req.timeout);
      if Retryable(e.outcome) then Attempts(e.link, req, left - 1, e.outcome) else e
  }

  function Exchange(l: Link, req: Request): Ended {
    if req.attempts <= 0 then Ended(l, NoAttempts)
    else if req.body == [] then Ended(l.(trace := l.trace + [Tx([])]), EmptyRequest)
    else Attempts(l, req, req.attempts, NoAttempts)
  }

  // ---- Record reads ----

  datatype Fetched = Data(raw: seq<byte>) | Failed(outcome: Outcome) | BadItem

  /** `header`: None is the ValueError for an item out of range. */
  function Header(opcode: byte, sub: byte, item: int): Option<seq<byte>> {
    if 0 <= item <= 0xFFFF then Some([opcode, sub, (item / 256) as bv8, (item % 256) as bv8]) else None
  }

  /** A header exists exactly for items of sixteen bits, and from it the item can be read back. */
  lemma HeaderNamesItem(opcode: byte, sub: byte, item: int)
    ensures Header(opcode, sub, item).Some? <==> 0 <= item < 0x1_0000
    ensures Header(opcode, sub, item).Some? ==>
              var h := Header(opcode, sub, item).value;
              |h| == REPLY_DATA_OFFSET && h[0] == opcode && h[1] == sub && ToInt(h[2]) * 256 + ToInt(h[3]) == item
  {
    if 0 <= item <= 0xFFFF {
      IntFromTo(item / 256);
      IntFromTo(item % 256);
    }
  }

  function ReadRequest(opcode: byte, header: seq<byte>): Request {
    Request(header, opcode as int, 4, 0.8)
  }

  function Slice(body: seq<byte>, size: nat): Fetched {
    if |body| >= REPLY_DATA_OFFSET + size then Data(body[REPLY_DATA_OFFSET..REPLY_DATA_OFFSET + size])
    else Failed(WrongReply)
  }

  function Fetch(l: Link, opcode: byte, sub: byte, item: int, size: nat): (Link, Fetched) {
    match Header(opcode, sub, item)
    case None => (l, BadItem)
    case Some(h) =>
      var e := Exchange(l, ReadRequest(opcode, h));
      (e.link, if e.outcome.Reply? then Slice(e.outcome.body, size) else Failed(e.outcome))
  }

  // ---- The CRC of a stored record ----

  const GROUP_CRC: byte := 0x7E
  const CRC_LENGTH_MIN: nat := 6

  datatype PanelCrc = PanelCrc(crc: bv16) | NoCrc(outcome: Outcome) | BadCrcItem

  function JoinBytes(hi: byte, lo: byte): bv16 {
    ((hi as bv16) << 8) | (lo as bv16)
  }

  function CrcOf(body: seq<byte>): PanelCrc {
    if |body| < CRC_LENGTH_MIN then NoCrc(WrongReply) else PanelCrc(JoinBytes(body[4], body[5]))
  }

  /** `record` is the opcode of the table. */
  function FetchCrc(l: Link, record: byte, item: int): (Link, PanelCrc) {
    match Header(GROUP_CRC, record, item)
    case None => (l, BadCrcItem)
    case Some(h) =>
      var e := Exchange(l, ReadRequest(GROUP_CRC, h));
      (e.link, if e.outcome.Reply? then CrcOf(e.outcome.body) else NoCrc(e.outcome))
  }

  // ---- The object ----

  class Session {
    const decoder: Decoder
    var incoming: seq<Read>
    var written: seq<seq<byte>>
    var trace: seq<TraceEntry>

    constructor (incoming: seq<Read>)
      ensures Value() == Link(START, incoming, [], [])
      ensures fresh(decoder)
    {
      decoder := new Decoder();
      this.incoming := incoming;
      written, trace := [], [];
    }

    function Value(): Link
      reads this, decoder
    {
      Link(decoder.Value(), incoming, written, trace)
    }

    /** The event loop inside `_await_reply`: record each event until one decides. */
    method Dispatch(events: seq<Event>, req: Request) returns (outcome: Option<Outcome>)
      modifies this`trace
      ensures outcome == Scan(events, req).outcome
      ensures trace == old(trace) + Received(events[..Scan(events, req).seen])
    {
      ghost var s := Scan(events, req);
      ScanFacts(events, req);
      for i := 0 to |events|
        invariant i <= s.seen
        invariant s.outcome.Some? ==> i < s.seen
        invariant trace == old(trace) + Received(events[..i])
      {
        var ev := events[i];
        trace := trace + [Rx(ev)];
        assert Received(events[..i + 1]) == Received(events[..i]) + [Rx(ev)];
        if ev.kind == DEBUG {
          continue;
        }
        if ev.kind == CRC_ERROR {
          return Some(WrongReply);
        }
        if ev.kind == NAKED {
          return Some(WrongReply);
        }
        if ev.kind == ACKED {
          if req.expected == ACK_RESULT {
            return Some(Reply([]));
          }
          continue;
        }
        if IsPanelDisconnect(ev.body) {
          return Some(Disconnected);
        }
        if ev.body == [] {
          return Some(IndexFault);
        }
        if ev.body[0] as int == req.expected {
          return Some(Reply(ev.body));
        }
        return Some(WrongReply);
      }
      return None;
    }

    /** `_await_reply`; the outcome stands for the value returned or the exception raised. */
    method AwaitReply(req: Request) returns (outcome: Outcome)
      modifies this, decoder
      ensures Await(old(Value()), req, req.timeout) == Ended(Value(), outcome)
    {
      var remaining := req.timeout;
      while true
        invariant Await(Value(), req, remaining) == Await(old(Value()), req, req.timeout)
        decreases |incoming|
      {
        if remaining <= 0.0 || incoming == [] {
          return TimedOut;
        }
        ghost var before := Value();
        var read := incoming[0];
        incoming := incoming[1..];
        if read.data == [] {
          assert Absorb(before, req).0 == Value();
        } else {
          var events := decoder.Feed(read.data);
          var decided := Dispatch(events, req);
          assert Absorb(before, req) == (Value(), decided);
          if decided.Some? {
            return decided.value;
          }
        }
        remaining := remaining - read.elapsed;
      }
      outcome := TimedOut;
    }

    method SendReceive(req: Request) returns (outcome: Outcome)
      modifies this, decoder
      ensures Exchange(old(Value()), req) == Ended(Value(), outcome)
    {
      var last := NoAttempts;
      if req.attempts <= 0 {
        return last;
      }
      for attempt := 1 to req.attempts + 1
        invariant req.body == [] ==> attempt == 1
        invariant attempt == 1 ==> Value() == old(Value())
        invariant req.body != [] ==>
          Attempts(Value(), req, req.attempts - attempt + 1, last) == Exchange(old(Value()), req)
      {
        trace := trace + [Tx(req.body)];
        var frame := EncodeFrame(req.body);
        if frame.None? {
          return EmptyRequest;
        }
        written := written + [frame.value];
        outcome := AwaitReply(req);
        if !Retryable(outcome) {
          return outcome;
        }
        last := outcome;
      }
      return last;
    }

    method ReadRecord(opcode: byte, sub: byte, item: int, size: nat) returns (result: Fetched)
      modifies this, decoder
      ensures Fetch(old(Value()), opcode, sub, item, size) == (Value(), result)
    {
      var header := Header(opcode, sub, item);
      if header.None? {
        return BadItem;
      }
      var outcome := SendReceive(ReadRequest(opcode, header.value));
      if !outcome.Reply? {
        return Failed(outcome);
      }
      return Slice(outcome.body, size);
    }

    /** `record_crc`. */
    method RecordCrc(record: byte, item: int) returns (result: PanelCrc)
      modifies this, decoder
      ensures FetchCrc(old(Value()), record, item) == (Value(), result)
    {
      var header := Header(GROUP_CRC, record, item);
      if header.None? {
        return BadCrcItem;
      }
      var outcome := SendReceive(ReadRequest(GROUP_CRC, header.value));
      if !outcome.Reply? {
        return NoCrc(outcome);
      }
      return CrcOf(outcome.body);
    }
  }
}
