/** What a session guarantees for every transport, and what it guarantees only while
    replies stay in step with requests. */
module SessionTheorems {
  import opened Bytes
  import opened Crc
  import opened Framing
  import opened FramingTheorems
  import opened Session

  // ---- Every transport: bounded, identical writes ----

  function Repeat<T>(x: T, n: nat): seq<T> {
    seq(n, _ => x)
  }

  lemma {:induction false} AwaitWritesNothing(l: Link, req: Request, remaining: real)
    ensures Await(l, req, remaining).link.written == l.written
    decreases |l.incoming|
  {
    if remaining > 0.0 && l.incoming != [] {
      var (next, o) := Absorb(l, req);
      if o.None? { AwaitWritesNothing(next, req, remaining - l.incoming[0].elapsed); }
    }
  }

  lemma {:induction false} AttemptsWrites(l: Link, req: Request, left: nat, last: Outcome) returns (n: nat)
    ensures n <= left && (left > 0 ==> n > 0)
    ensures Attempts(l, req, left, last).link.written == l.written + Repeat(Wire(req.body), n)
    ensures n < left ==> !Retryable(Attempts(l, req, left, last).outcome)
    decreases left
  {
    if left == 0 {
      return 0;
    }
    var w := Written(l, req);
    var e := Await(w, req, req.timeout);
    AwaitWritesNothing(w, req, req.timeout);
    n := 1;
    assert Repeat(Wire(req.body), 1) == [Wire(req.body)];
    if Retryable(e.outcome) {
      var m := AttemptsWrites(e.link, req, left - 1, e.outcome);
      n := m + 1;
      assert Repeat(Wire(req.body), n) == [Wire(req.body)] + Repeat(Wire(req.body), m);
    }
  }

  /** A request writes one and the same frame, at least once and at most `attempts` times,
      and fewer times only when something other than a timeout or wrong reply ended it. */
  lemma ExchangeWrites(l: Link, req: Request) returns (n: nat)
    requires req.attempts > 0 && req.body != []
    ensures 1 <= n <= req.attempts
    ensures Exchange(l, req).link.written == l.written + Repeat(Wire(req.body), n)
    ensures n < req.attempts ==> Exchange(l, req).outcome != TimedOut && Exchange(l, req).outcome != WrongReply
  {
    n := AttemptsWrites(l, req, req.attempts, NoAttempts);
  }

  // ---- Every transport: a hang-up or an empty message ends the request ----

  /** How a received message ends any request at once: a hang-up, or a body with no first byte. */
  function FatalOf(t: TraceEntry): Option<Outcome> {
    if !t.Rx? || t.event.kind != MESSAGE then None
    else if |t.event.body| >= 2 && t.event.body[0] == 0x7F && t.event.body[1] == 0x01 then Some(Disconnected)
    else if t.event.body == [] then Some(IndexFault)
    else None
  }

  predicate Harmless(added: seq<TraceEntry>) {
    forall i | 0 <= i < |added| :: FatalOf(added[i]).None?
  }

  /** In what a request added to the trace, a fatal message can only be the last entry, and it is
      there exactly when the request ended in its way. */
  predicate FatalIsLast(added: seq<TraceEntry>, o: Outcome) {
    && (forall i | 0 <= i < |added| - 1 :: FatalOf(added[i]).None?)
    && (o.Disconnected? || o.IndexFault? <==> |added| > 0 && FatalOf(added[|added| - 1]).Some?)
    && (o.Disconnected? || o.IndexFault? ==> FatalOf(added[|added| - 1]) == Some(o))
  }

  lemma FatalDecides(ev: Event, req: Request)
    ensures FatalOf(Rx(ev)).Some? ==> Classify(ev, req) == FatalOf(Rx(ev))
    ensures Classify(ev, req) == Some(Disconnected) || Classify(ev, req) == Some(IndexFault) ==>
              FatalOf(Rx(ev)) == Classify(ev, req)
  {}

  /** Of the events of one read, only the deciding one can be fatal. */
  lemma ScanTrace(events: seq<Event>, req: Request, s: Scanned, added: seq<TraceEntry>)
    requires s == Scan(events, req) && added == Received(events[..s.seen])
    ensures if s.outcome.Some? then FatalIsLast(added, s.outcome.value) else Harmless(added)
  {
    ScanFacts(events, req);
    forall i | 0 <= i < |added| && FatalOf(added[i]).Some?
      ensures s.outcome.Some? && i == s.seen - 1 && FatalOf(added[i]) == s.outcome
    {
      FatalDecides(events[i], req);
    }
    if s.outcome.Some? {
      FatalDecides(events[s.seen - 1], req);
      assert added[s.seen - 1] == Rx(events[s.seen - 1]);
    }
  }

  lemma AbsorbTrace(l: Link, req: Request) returns (added: seq<TraceEntry>)
    requires l.incoming != []
    ensures Absorb(l, req).0.trace == l.trace + added
    ensures if Absorb(l, req).1.Some? then FatalIsLast(added, Absorb(l, req).1.value) else Harmless(added)
  {
    var events := Run(l.dec, l.incoming[0].data).events;
    var s := Scan(events, req);
    added := Received(events[..s.seen]);
    ScanTrace(events, req, s, added);
  }

  lemma HarmlessPrefix(a: seq<TraceEntry>, b: seq<TraceEntry>, o: Outcome)
    requires Harmless(a)
    requires FatalIsLast(b, o)
    ensures FatalIsLast(a + b, o)
  {}

  lemma {:induction false} AwaitTrace(l: Link, req: Request, remaining: real) returns (added: seq<TraceEntry>)
    ensures Await(l, req, remaining).link.trace == l.trace + added
    ensures FatalIsLast(added, Await(l, req, remaining).outcome)
    decreases |l.incoming|
  {
    if remaining <= 0.0 || l.incoming == [] {
      return [];
    }
    var (next, o) := Absorb(l, req);
    added := AbsorbTrace(l, req);
    if o.None? {
      var more := AwaitTrace(next, req, remaining - l.incoming[0].elapsed);
      HarmlessPrefix(added, more, Await(l, req, remaining).outcome);
      assert l.trace + added + more == l.trace + (added + more);
      added := added + more;
    }
  }

  lemma {:induction false} AttemptsTrace(l: Link, req: Request, left: nat, last: Outcome)
    returns (added: seq<TraceEntry>)
    requires Retryable(last) || last == NoAttempts
    ensures Attempts(l, req, left, last).link.trace == l.trace + added
    ensures FatalIsLast(added, Attempts(l, req, left, last).outcome)
    decreases left
  {
    if left == 0 {
      return [];
    }
    var w := Written(l, req);
    var e := Await(w, req, req.timeout);
    var heard := AwaitTrace(w, req, req.timeout);
    HarmlessPrefix([Tx(req.body)], heard, e.outcome);
    added := [Tx(req.body)] + heard;
    assert e.link.trace == l.trace + added;
    if Retryable(e.outcome) {
      var more := AttemptsTrace(e.link, req, left - 1, e.outcome);
      var o := Attempts(l, req, left, last).outcome;
      assert Harmless(added);
      HarmlessPrefix(added, more, o);
      assert l.trace + added + more == l.trace + (added + more);
      added := added + more;
    }
  }

  /** A `7F 01` or an empty message from the panel is never retried: nothing is sent or heard after
      it, and the request ends as disconnected or faulting exactly when the last thing heard was
      the one or the other. */
  lemma HangUpNeverRetried(l: Link, req: Request) returns (added: seq<TraceEntry>)
    ensures Exchange(l, req).link.trace == l.trace + added
    ensures FatalIsLast(added, Exchange(l, req).outcome)
  {
    if req.attempts <= 0 {
      added := [];
    } else if req.body == [] {
      added := [Tx([])];
    } else {
      added := AttemptsTrace(l, req, req.attempts, NoAttempts);
    }
  }

  // ---- Every transport: replies are genuine ----

  function DataOf(incoming: seq<Read>): seq<byte> {
    if incoming == [] then [] else incoming[0].data + DataOf(incoming[1..])
  }

  lemma {:induction false} DataOfConcat(a: seq<Read>, b: seq<Read>)
    ensures DataOf(a + b) == DataOf(a) + DataOf(b)
  {
    if a == [] {
      assert a + b == b;
    } else {
      assert (a + b)[1..] == a[1..] + b;
      DataOfConcat(a[1..], b);
    }
  }

  /** `wire` was received, and its last byte after the first `from` bytes. */
  predicate Arrived(received: seq<byte>, from: nat, wire: seq<byte>) {
    exists cut :: from < cut <= |received| && EndsWith(received[..cut], wire)
  }

  /** The outcome was brought about by what was received after the first `from` bytes: a reply the
      request asked for, the panel's hang-up, or the empty message the session trips over. */
  ghost predicate Genuine(received: seq<byte>, from: nat, req: Request, o: Outcome) {
    match o
    case Reply(body) =>
      if body == [] then req.expected == 4102 && Arrived(received, from, [0x10, 0x06])
      else body[0] as int == req.expected && Arrived(received, from, Wire(body))
    case Disconnected =>
      exists body :: |body| >= 2 && body[0] == 0x7F && body[1] == 0x01 && Arrived(received, from, Wire(body))
    case IndexFault => Arrived(received, from, EMPTY_FRAME)
    case _ => true
  }

  /** The frame of an empty body, with its CRC of zero. */
  const EMPTY_FRAME: seq<byte> := [0x10, 0x02, 0x10, 0x03, 0x00, 0x00]

  lemma EmptyFrameIs()
    ensures Wire([]) == EMPTY_FRAME
  {}

  lemma JustifiedIsGenuine(past: seq<byte>, data: seq<byte>, ev: Event, req: Request)
    requires JustifiedIn(past, data, ev)
    requires Classify(ev, req).Some?
    ensures Genuine(past + data, |past|, req, Classify(ev, req).value)
  {
    var cut :| 0 < cut <= |data| && Justified(past + data[..cut], ev);
    assert (past + data)[..|past| + cut] == past + data[..cut];
    EmptyFrameIs();
    if Classify(ev, req) == Some(Disconnected) {
      assert IsPanelDisconnect(ev.body) && Arrived(past + data, |past|, Wire(ev.body));
    }
  }

  lemma LaterIsGenuine(received: seq<byte>, from: nat, later: nat, req: Request, o: Outcome)
    requires Genuine(received, later, req, o) && from <= later
    ensures Genuine(received, from, req, o)
  {}

  lemma AbsorbGenuine(past: seq<byte>, l: Link, req: Request)
    requires l.incoming != [] && Explains(past, l.dec)
    ensures Explains(past + l.incoming[0].data, Absorb(l, req).0.dec)
    ensures Absorb(l, req).1.Some? ==> Genuine(past + l.incoming[0].data, |past|, req, Absorb(l, req).1.value)
  {
    var data := l.incoming[0].data;
    var events := Run(l.dec, data).events;
    var s := Scan(events, req);
    ScanFacts(events, req);
    DecoderSound(past, l.dec, data);
    if s.outcome.Some? {
      var ev := events[s.seen - 1];
      assert ev in events;
      JustifiedIsGenuine(past, data, ev, req);
    }
  }

  /** `consumed` takes the link from `l` to the end `e`, whose outcome is genuine. */
  ghost predicate Served(past: seq<byte>, l: Link, req: Request, consumed: seq<Read>, e: Ended) {
    && l.incoming == consumed + e.link.incoming
    && Explains(past + DataOf(consumed), e.link.dec)
    && Genuine(past + DataOf(consumed), |past|, req, e.outcome)
  }

  lemma ReceivedThen(past: seq<byte>, first: seq<Read>, more: seq<Read>)
    ensures past + DataOf(first) + DataOf(more) == past + DataOf(first + more)
  {
    DataOfConcat(first, more);
    assert past + DataOf(first) + DataOf(more) == past + (DataOf(first) + DataOf(more));
  }

  lemma Regrouped<T>(a: seq<T>, b: seq<T>, c: seq<T>)
    ensures a + b + c == a + (b + c)
  {}

  lemma ServedThen(past: seq<byte>, l: Link, req: Request, first: seq<Read>, mid: Link, more: seq<Read>, e: Ended)
    requires l.incoming == first + mid.incoming
    requires Served(past + DataOf(first), mid, req, more, e)
    ensures Served(past, l, req, first + more, e)
  {
    ReceivedThen(past, first, more);
    Regrouped(first, more, e.link.incoming);
    LaterIsGenuine(past + DataOf(first + more), |past|, |past + DataOf(first)|, req, e.outcome);
  }

  /** Outcomes that something received brings about. */
  predicate Caused(o: Outcome) {
    o.Reply? || o.Disconnected? || o.IndexFault?
  }

  lemma NothingConsumed(past: seq<byte>, l: Link, req: Request, e: Ended)
    requires Explains(past, l.dec) && e.link.dec == l.dec && e.link.incoming == l.incoming && !Caused(e.outcome)
    ensures Served(past, l, req, [], e)
  {
    assert past + DataOf([]) == past;
  }

  lemma {:induction false} AwaitGenuine(past: seq<byte>, l: Link, req: Request, remaining: real)
    returns (consumed: seq<Read>)
    requires Explains(past, l.dec)
    ensures Served(past, l, req, consumed, Await(l, req, remaining))
    decreases |l.incoming|
  {
    var e := Await(l, req, remaining);
    if remaining <= 0.0 || l.incoming == [] {
      NothingConsumed(past, l, req, e);
      return [];
    }
    var read := l.incoming[0];
    var (next, o) := Absorb(l, req);
    AbsorbGenuine(past, l, req);
    consumed := [read];
    assert DataOf(consumed) == read.data by {
      assert consumed[1..] == [] && read.data + DataOf([]) == read.data;
    }
    assert l.incoming == consumed + next.incoming;
    if o.None? {
      var more := AwaitGenuine(past + read.data, next, req, remaining - read.elapsed);
      ServedThen(past, l, req, consumed, next, more, e);
      consumed := consumed + more;
    }
  }

  lemma {:induction false} AttemptsGenuine(past: seq<byte>, l: Link, req: Request, left: nat, last: Outcome)
    returns (consumed: seq<Read>)
    requires Explains(past, l.dec) && !Caused(last)
    ensures Served(past, l, req, consumed, Attempts(l, req, left, last))
    decreases left
  {
    if left == 0 {
      NothingConsumed(past, l, req, Ended(l, last));
      return [];
    }
    var w := Written(l, req);
    var e := Await(w, req, req.timeout);
    consumed := AwaitGenuine(past, w, req, req.timeout);
    if Retryable(e.outcome) {
      var more := AttemptsGenuine(past + DataOf(consumed), e.link, req, left - 1, e.outcome);
      ServedThen(past, l, req, consumed, e.link, more, Attempts(l, req, left, last));
      consumed := consumed + more;
    }
  }

  /** Whatever the transport does, a returned body starts with the expected opcode and its whole
      CRC-checked frame was received, its last byte during this request; the empty body is only
      ever an expected ACK; and a request faults only over the six bytes of an empty frame. */
  lemma ReplyIsGenuine(past: seq<byte>, l: Link, req: Request) returns (consumed: seq<Read>)
    requires Explains(past, l.dec)
    ensures Served(past, l, req, consumed, Exchange(l, req))
  {
    if req.attempts <= 0 || req.body == [] {
      NothingConsumed(past, l, req, Exchange(l, req));
      consumed := [];
    } else {
      consumed := AttemptsGenuine(past, l, req, req.attempts, NoAttempts);
    }
  }
}
