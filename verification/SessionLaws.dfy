/** What a wait and a request do, event by event and read by read (src/elk_programmer/protocol/session.py):
    which events are passed over, which decide and how, when time runs out, and what is tried again. */
module SessionLaws {
  import opened Bytes
  import opened Framing
  import opened Session
  import opened SessionTheorems

  // ---- One event ----

  predicate HangsUp(body: seq<byte>) {
    |body| >= 2 && body[0] == 0x7F && body[1] == 0x01
  }

  /** Debug frames are passed over, and ACKs that are not asked for. */
  predicate PassedOver(ev: Event, expected: int) {
    ev.kind == DEBUG || (ev.kind == ACKED && expected != 4102)
  }

  /** The event ends the wait so: a reply has the expected opcode in its first byte. */
  predicate EndsWait(ev: Event, expected: int, o: Outcome) {
    match o
    case Reply(body) =>
      || (ev.kind == ACKED && expected == 4102 && body == [])
      || (ev.kind == MESSAGE && body == ev.body && body != [] && !HangsUp(body) && body[0] as int == expected)
    case WrongReply =>
      || ev.kind == CRC_ERROR || ev.kind == NAKED
      || (ev.kind == MESSAGE && ev.body != [] && !HangsUp(ev.body) && ev.body[0] as int != expected)
    case Disconnected => ev.kind == MESSAGE && HangsUp(ev.body)
    case IndexFault => ev.kind == MESSAGE && ev.body == []
    case _ => false
  }

  // ---- One wait ----

  predicate AllPassedOver(events: seq<Event>, expected: int) {
    forall i | 0 <= i < |events| :: PassedOver(events[i], expected)
  }

  /** Of these events of a read the wait looks at the first ones: at all of them if all are passed over,
      and otherwise up to the first that is not, which ends it. */
  predicate LooksAt(events: seq<Event>, expected: int, heard: seq<Event>, o: Option<Outcome>) {
    && heard <= events
    && match o
       case None => heard == events && AllPassedOver(events, expected)
       case Some(end) =>
         heard != [] && AllPassedOver(heard[..|heard| - 1], expected) && EndsWait(heard[|heard| - 1], expected, end)
  }

  /** One read of a wait: it is made while time is left, and costs what it takes. */
  predicate ReadStep(read: Read, d: Snapshot, left: real, next: Snapshot, later: real, expected: int,
                     heard: seq<Event>, o: Option<Outcome>) {
    && left > 0.0 && later == left - read.elapsed
    && next == Run(d, read.data).next && LooksAt(Run(d, read.data).events, expected, heard, o)
  }

  /** What the wait looked at is recorded in the trace, in order. */
  predicate Records(before: seq<TraceEntry>, heard: seq<Event>, after: seq<TraceEntry>) {
    && |after| == |before| + |heard| && before <= after
    && forall i | 0 <= i < |heard| :: after[|before| + i] == Rx(heard[i])
  }

  /** Only the last of n reads can end a wait, and none does if it times out. */
  function StepEnd(i: int, n: int, o: Outcome): Option<Outcome> {
    if i < n - 1 || o == TimedOut then None else Some(o)
  }

  /** A wait of this length from `l` that takes the first n reads: ds are the decoder's states between them,
      ts the time left, and hs what it looked at in each. It ends on an event of its last read, or when no
      time or no read is left. */
  predicate WaitRun(l: Link, expected: int, timeout: real, n: nat, ds: seq<Snapshot>, ts: seq<real>,
                    hs: seq<seq<Event>>, e: Ended) {
    && n <= |l.incoming| && |ds| == |ts| == n + 1 && |hs| == n
    && ds[0] == l.dec && ts[0] == timeout
    && (forall i | 0 <= i < n ::
          ReadStep(l.incoming[i], ds[i], ts[i], ds[i + 1], ts[i + 1], expected, hs[i], StepEnd(i, n, e.outcome)))
    && (if e.outcome == TimedOut then ts[n] <= 0.0 || n == |l.incoming| else n > 0)
    && e.link.dec == ds[n] && e.link.incoming == l.incoming[n..] && e.link.written == l.written
    && Records(l.trace, Concat(hs), e.link.trace)
  }

  lemma ClassifyIs(ev: Event, req: Request)
    ensures Classify(ev, req).None? ==> PassedOver(ev, req.expected)
    ensures Classify(ev, req).Some? ==> EndsWait(ev, req.expected, Classify(ev, req).value)
  {}

  lemma ScanIs(events: seq<Event>, req: Request)
    ensures LooksAt(events, req.expected, events[..Scan(events, req).seen], Scan(events, req).outcome)
  {
    var s := Scan(events, req);
    ScanFacts(events, req);
    forall i | 0 <= i < |events| && Classify(events[i], req).None? ensures PassedOver(events[i], req.expected) {
      ClassifyIs(events[i], req);
    }
    if s.outcome.Some? {
      ClassifyIs(events[s.seen - 1], req);
      assert AllPassedOver(events[..s.seen - 1], req.expected);
      assert events[..s.seen][..s.seen - 1] == events[..s.seen - 1];
    }
  }

  lemma AbsorbIs(l: Link, req: Request, left: real) returns (heard: seq<Event>)
    requires l.incoming != [] && left > 0.0
    ensures var (next, o) := Absorb(l, req);
            && ReadStep(l.incoming[0], l.dec, left, next.dec, left - l.incoming[0].elapsed, req.expected, heard, o)
            && next.incoming == l.incoming[1..] && next.written == l.written
            && Records(l.trace, heard, next.trace)
  {
    var events := Run(l.dec, l.incoming[0].data).events;
    ScanIs(events, req);
    heard := events[..Scan(events, req).seen];
  }

  lemma ConcatFirst(first: seq<Event>, more: seq<seq<Event>>)
    ensures Concat([first] + more) == first + Concat(more)
  {
    assert ([first] + more)[1..] == more;
  }

  lemma RecordsMore(a: seq<TraceEntry>, first: seq<Event>, b: seq<TraceEntry>, more: seq<Event>, c: seq<TraceEntry>)
    requires Records(a, first, b) && Records(b, more, c)
    ensures Records(a, first + more, c)
  {
    forall i | 0 <= i < |first + more| ensures c[|a| + i] == Rx((first + more)[i]) {
      if i < |first| { assert b[|a| + i] == c[|a| + i]; }
    }
  }

  lemma WaitOnce(l: Link, expected: int, timeout: real, heard: seq<Event>, e: Ended)
    requires l.incoming != [] && e.link.incoming == l.incoming[1..] && e.link.written == l.written
    requires ReadStep(l.incoming[0], l.dec, timeout, e.link.dec, timeout - l.incoming[0].elapsed, expected, heard,
                      Some(e.outcome))
    requires Records(l.trace, heard, e.link.trace)
    ensures WaitRun(l, expected, timeout, 1, [l.dec, e.link.dec], [timeout, timeout - l.incoming[0].elapsed],
                    [heard], e)
  {
    ConcatFirst(heard, []);
    assert [heard] + [] == [heard] && heard + [] == heard;
  }

  lemma StepsMore(l: Link, expected: int, timeout: real, mid: Link, heard: seq<Event>, n: nat, ds: seq<Snapshot>,
                  ts: seq<real>, hs: seq<seq<Event>>, e: Ended, i: nat)
    requires l.incoming != [] && mid.incoming == l.incoming[1..] && i <= n
    requires ReadStep(l.incoming[0], l.dec, timeout, mid.dec, timeout - l.incoming[0].elapsed, expected, heard, None)
    requires WaitRun(mid, expected, timeout - l.incoming[0].elapsed, n, ds, ts, hs, e)
    ensures var cs, us, gs := [l.dec] + ds, [timeout] + ts, [heard] + hs;
            ReadStep(l.incoming[i], cs[i], us[i], cs[i + 1], us[i + 1], expected, gs[i],
                     StepEnd(i, n + 1, e.outcome))
  {
    if i > 0 { assert mid.incoming[i - 1] == l.incoming[i]; }
  }

  lemma WaitMore(l: Link, expected: int, timeout: real, mid: Link, heard: seq<Event>, n: nat, ds: seq<Snapshot>,
                 ts: seq<real>, hs: seq<seq<Event>>, e: Ended)
    requires l.incoming != [] && mid.incoming == l.incoming[1..] && mid.written == l.written
    requires ReadStep(l.incoming[0], l.dec, timeout, mid.dec, timeout - l.incoming[0].elapsed, expected, heard, None)
    requires Records(l.trace, heard, mid.trace)
    requires WaitRun(mid, expected, timeout - l.incoming[0].elapsed, n, ds, ts, hs, e)
    ensures WaitRun(l, expected, timeout, n + 1, [l.dec] + ds, [timeout] + ts, [heard] + hs, e)
  {
    var cs, us, gs := [l.dec] + ds, [timeout] + ts, [heard] + hs;
    forall i | 0 <= i < n + 1
      ensures ReadStep(l.incoming[i], cs[i], us[i], cs[i + 1], us[i + 1], expected, gs[i],
                       StepEnd(i, n + 1, e.outcome))
    {
      StepsMore(l, expected, timeout, mid, heard, n, ds, ts, hs, e, i);
    }
    assert mid.incoming[n..] == l.incoming[n + 1..];
    ConcatFirst(heard, hs);
    RecordsMore(l.trace, heard, mid.trace, Concat(hs), e.link.trace);
  }

  lemma {:induction false} AwaitRuns(l: Link, req: Request, remaining: real)
    returns (n: nat, ds: seq<Snapshot>, ts: seq<real>, hs: seq<seq<Event>>)
    ensures WaitRun(l, req.expected, remaining, n, ds, ts, hs, Await(l, req, remaining))
    decreases |l.incoming|
  {
    if remaining <= 0.0 || l.incoming == [] {
      n, ds, ts, hs := 0, [l.dec], [remaining], [];
    } else {
      var (next, o) := Absorb(l, req);
      var heard := AbsorbIs(l, req, remaining);
      if o.Some? {
        WaitOnce(l, req.expected, remaining, heard, Ended(next, o.value));
        n, ds, ts, hs := 1, [l.dec, next.dec], [remaining, remaining - l.incoming[0].elapsed], [heard];
      } else {
        n, ds, ts, hs := AwaitRuns(next, req, remaining - l.incoming[0].elapsed);
        WaitMore(l, req.expected, remaining, next, heard, n, ds, ts, hs, Await(l, req, remaining));
        n, ds, ts, hs := n + 1, [l.dec] + ds, [remaining] + ts, [heard] + hs;
      }
    }
  }

  // ---- One request ----

  /** Writing the body and waiting for what is expected takes the link from `l` to `e`. */
  ghost predicate AttemptRun(l: Link, body: seq<byte>, expected: int, timeout: real, e: Ended) {
    exists n, ds, ts, hs ::
      WaitRun(Link(l.dec, l.incoming, l.written + [Wire(body)], l.trace + [Tx(body)]), expected, timeout, n, ds, ts,
              hs, e)
  }

  /** The link as attempt i finds it. */
  function LinkOf(l: Link, ends: seq<Ended>, i: nat): Link
    requires i <= |ends|
  {
    if i == 0 then l else ends[i - 1].link
  }

  ghost predicate AttemptAt(l: Link, req: Request, ends: seq<Ended>, i: nat)
    requires i < |ends|
  {
    AttemptRun(LinkOf(l, ends, i), req.body, req.expected, req.timeout, ends[i])
  }

  /** Tried again after a timeout or a wrong reply, as long as attempts are left, and not otherwise. */
  predicate TriedAgain(ends: seq<Ended>, attempts: int)
    requires ends != []
  {
    var last := ends[|ends| - 1].outcome;
    && |ends| <= attempts
    && (forall i | 0 <= i < |ends| - 1 :: ends[i].outcome == TimedOut || ends[i].outcome == WrongReply)
    && (|ends| == attempts || (last != TimedOut && last != WrongReply))
  }

  /** The attempts of a request, one after the other; it ends as the last one. */
  ghost predicate RequestRun(l: Link, req: Request, attempts: int, ends: seq<Ended>, e: Ended) {
    && ends != [] && ends[|ends| - 1] == e && TriedAgain(ends, attempts)
    && forall i | 0 <= i < |ends| :: AttemptAt(l, req, ends, i)
  }

  lemma AttemptIs(l: Link, req: Request)
    ensures AttemptRun(l, req.body, req.expected, req.timeout, Await(Written(l, req), req, req.timeout))
  {
    var n, ds, ts, hs := AwaitRuns(Written(l, req), req, req.timeout);
  }

  lemma RequestOnce(l: Link, req: Request, attempts: int, e: Ended)
    requires AttemptRun(l, req.body, req.expected, req.timeout, e)
    requires attempts == 1 || (attempts > 1 && e.outcome != TimedOut && e.outcome != WrongReply)
    ensures RequestRun(l, req, attempts, [e], e)
  {}

  lemma LaterAttempt(l: Link, req: Request, first: Ended, ends: seq<Ended>, i: nat)
    requires i < |ends| && AttemptAt(first.link, req, ends, i)
    ensures AttemptAt(l, req, [first] + ends, i + 1)
  {
    assert LinkOf(l, [first] + ends, i + 1) == LinkOf(first.link, ends, i);
  }

  lemma TriedOnceMore(first: Ended, ends: seq<Ended>, attempts: int)
    requires ends != [] && TriedAgain(ends, attempts) && (first.outcome == TimedOut || first.outcome == WrongReply)
    ensures TriedAgain([first] + ends, attempts + 1)
  {}

  lemma RequestMore(l: Link, req: Request, attempts: int, first: Ended, ends: seq<Ended>, e: Ended)
    requires AttemptRun(l, req.body, req.expected, req.timeout, first)
    requires first.outcome == TimedOut || first.outcome == WrongReply
    requires RequestRun(first.link, req, attempts, ends, e)
    ensures RequestRun(l, req, attempts + 1, [first] + ends, e)
  {
    TriedOnceMore(first, ends, attempts);
    forall i | 0 <= i < |ends| + 1 ensures AttemptAt(l, req, [first] + ends, i) {
      if i > 0 { LaterAttempt(l, req, first, ends, i - 1); }
    }
  }

  lemma AttemptsStep(l: Link, req: Request, left: nat, last: Outcome, e: Ended)
    requires left > 0 && e == Await(Written(l, req), req, req.timeout)
    ensures AttemptRun(l, req.body, req.expected, req.timeout, e)
    ensures left > 1 && (e.outcome == TimedOut || e.outcome == WrongReply) ==>
              Attempts(l, req, left, last) == Attempts(e.link, req, left - 1, e.outcome)
    ensures left == 1 || (e.outcome != TimedOut && e.outcome != WrongReply) ==> Attempts(l, req, left, last) == e
  {
    AttemptIs(l, req);
  }

  lemma {:induction false} AttemptsRun(l: Link, req: Request, left: nat, last: Outcome) returns (ends: seq<Ended>)
    requires left > 0
    ensures RequestRun(l, req, left, ends, Attempts(l, req, left, last))
    decreases left
  {
    var e := Await(Written(l, req), req, req.timeout);
    AttemptsStep(l, req, left, last, e);
    if left > 1 && (e.outcome == TimedOut || e.outcome == WrongReply) {
      ends := AttemptsRun(e.link, req, left - 1, e.outcome);
      RequestMore(l, req, left - 1, e, ends, Attempts(e.link, req, left - 1, e.outcome));
      ends := [e] + ends;
    } else {
      RequestOnce(l, req, left, e);
      ends := [e];
    }
  }

  /** Whatever the transport does, a request with a body and an attempt runs so; one without an attempt
      fails at once, and one without a body is refused by the encoder. Neither writes or reads anything. */
  lemma RequestRuns(l: Link, req: Request) returns (ends: seq<Ended>)
    ensures var e := Exchange(l, req);
            if req.attempts <= 0 then e == Ended(l, NoAttempts)
            else if req.body == [] then
              e.outcome == EmptyRequest && e.link.written == l.written && e.link.incoming == l.incoming
            else RequestRun(l, req, req.attempts, ends, e)
  {
    ends := [];
    if req.attempts > 0 && req.body != [] { ends := AttemptsRun(l, req, req.attempts, NoAttempts); }
  }

  // ---- Record reads ----

  /** Asking with this body at most four times, waiting 0.8 seconds each time. */
  ghost predicate AsksFour(l: Link, body: seq<byte>, opcode: byte, ends: seq<Ended>, e: Ended) {
    RequestRun(l, Request(body, opcode as int, 4, 0.8), 4, ends, e)
  }

  /** A record read asks with opcode, sub-code and the item in two bytes, and returns as many bytes as the
      record has, from the fifth byte of the reply; a reply that is too short is a wrong one, and an item of
      more than sixteen bits is refused before anything is written. */
  lemma ReadIs(l: Link, opcode: byte, sub: byte, item: int, size: nat)
    returns (body: seq<byte>, ends: seq<Ended>, e: Ended)
    ensures !(0 <= item <= 65535) ==> Fetch(l, opcode, sub, item, size) == (l, BadItem)
    ensures 0 <= item <= 65535 ==>
              && |body| == 4 && body[0] == opcode && body[1] == sub
              && body[2] as int * 256 + body[3] as int == item
              && AsksFour(l, body, opcode, ends, e)
              && var (next, f) := Fetch(l, opcode, sub, item, size);
                 && next == e.link
                 && match e.outcome
                    case Reply(reply) =>
                      if |reply| < 4 + size then f == Failed(WrongReply)
                      else f.Data? && |f.raw| == size && forall i | 0 <= i < size :: f.raw[i] == reply[4 + i]
                    case _ => f == Failed(e.outcome)
  {
    body, ends, e := [], [], Ended(l, TimedOut);
    HeaderNamesItem(opcode, sub, item);
    if 0 <= item <= 65535 {
      body := Header(opcode, sub, item).value;
      e := Exchange(l, ReadRequest(opcode, body));
      ends := RequestRuns(l, ReadRequest(opcode, body));
    }
  }
}
