/** Replies are matched by opcode alone, so which request a reply belongs to depends on
    timing. While every write is answered once before its deadline, reply k is taken for
    write k over a whole session. `SessionReads` says when exactly that breaks otherwise. */
module SessionInStep {
  import opened Bytes
  import opened Crc
  import opened Framing
  import opened FramingTheorems
  import opened Session
  import opened SessionTheorems
  import opened SessionWaits

  // ---- One answer to one write ----

  /** What the panel sends back for one write: a frame, intact or damaged according to its
      CRC bytes, or a bare NAK. */
  datatype Answer = Framed(body: seq<byte>, crc: bv16) | BareNak

  function AnswerWire(a: Answer): seq<byte> {
    match a
    case Framed(body, crc) => WireWith(body, crc)
    case BareNak => [0x10, 0x15]
  }

  function AnswerEvent(a: Answer): Event {
    match a
    case Framed(body, crc) => Verdict(body, HighByte(crc), LowByte(crc))
    case BareNak => Event(NAKED, [])
  }

  /** A debug frame is not an answer; anything else here decides the request. */
  predicate IsAnswer(a: Answer) {
    AnswerEvent(a).kind != DEBUG
  }

  function Meaning(a: Answer, req: Request): Outcome
    requires IsAnswer(a)
  {
    Classify(AnswerEvent(a), req).value
  }

  lemma AnswerHeard(d: Snapshot, a: Answer)
    requires d.state == IDLE
    ensures Run(d, AnswerWire(a)).events == [AnswerEvent(a)]
    ensures Run(d, AnswerWire(a)).next.state == IDLE
  {
    match a
    case Framed(body, crc) => FrameReceived(d, body, crc);
    case BareNak => RunTwo(d, DLE, NAK);
  }

  lemma AnswerPending(d: Snapshot, a: Answer)
    requires d.state == IDLE
    ensures Run(d, AnswerWire(a)[..|AnswerWire(a)| - 1]).events == []
  {
    match a
    case Framed(body, crc) =>
      FrameButLast(body, crc);
      FramePending(d, body, HighByte(crc));
    case BareNak =>
      RunOne(d, DLE);
      assert [DLE, NAK][..1] == [DLE];
  }

  lemma FrameButLast(body: seq<byte>, crc: bv16)
    ensures WireWith(body, crc)[..|WireWith(body, crc)| - 1] ==
            [DLE, STX] + Stuff(body) + [DLE, ETX, HighByte(crc)]
  {}

  lemma FramePending(d: Snapshot, body: seq<byte>, hi: byte)
    requires d.state == IDLE
    ensures Run(d, [DLE, STX] + Stuff(body) + [DLE, ETX, hi]).events == []
  {
    var whole := BodyEntered(d, body);
    RunTrailerPending(whole, hi);
    RunConcat(d, [DLE, STX] + Stuff(body), [DLE, ETX, hi]);
  }

  lemma BodyEntered(d: Snapshot, body: seq<byte>) returns (whole: Snapshot)
    requires d.state == IDLE
    ensures whole.state == BODY && Run(d, [DLE, STX] + Stuff(body)) == Output(whole, [])
  {
    var entered := Snapshot(BODY, [], d.crcHi);
    whole := entered.(body := entered.body + body);
    RunOpening(d);
    RunStuffed(entered, body);
    RunSilently(d, [DLE, STX], entered, Stuff(body), whole);
  }

  lemma RunTrailerPending(d: Snapshot, hi: byte)
    requires d.state == BODY
    ensures Run(d, [DLE, ETX, hi]).events == []
  {
    RunTwo(d, DLE, ETX);
    RunSnoc(d, [DLE, ETX], hi);
    assert [DLE, ETX] + [hi] == [DLE, ETX, hi];
  }

  // ---- Delivery of an answer in time ----

  function Elapsed(group: seq<Read>): real {
    if group == [] then 0.0 else group[0].elapsed + Elapsed(group[1..])
  }

  predicate NonNegative(group: seq<Read>) {
    forall r | r in group :: r.elapsed >= 0.0
  }

  /** The answer's bytes, cut anyhow, its last byte in the last read, before the deadline. */
  predicate OnTime(group: seq<Read>, a: Answer, timeout: real) {
    && group != [] && group[|group| - 1].data != []
    && DataOf(group) == AnswerWire(a)
    && NonNegative(group) && Elapsed(group) < timeout
  }

  lemma {:induction false} ElapsedNonNegative(group: seq<Read>)
    requires NonNegative(group)
    ensures Elapsed(group) >= 0.0
  {
    if group != [] { ElapsedNonNegative(group[1..]); }
  }

  lemma LastDataNonEmpty(group: seq<Read>)
    requires group != [] && group[|group| - 1].data != []
    ensures DataOf(group) != []
  {
    if |group| > 1 { LastDataNonEmpty(group[1..]); }
  }

  lemma QuietChunk(d: Snapshot, chunk: seq<byte>, later: seq<byte>, end: Snapshot, ev: Event)
    requires later != []
    requires Run(d, chunk + later) == Output(end, [ev])
    requires Run(d, (chunk + later)[..|chunk + later| - 1]).events == []
    ensures Run(d, chunk).events == []
    ensures Run(Run(d, chunk).next, later) == Output(end, [ev])
    ensures Run(Run(d, chunk).next, later[..|later| - 1]).events == []
  {
    var almost := later[..|later| - 1];
    assert (chunk + later)[..|chunk + later| - 1] == chunk + almost;
    RunConcat(d, chunk, later);
    RunConcat(d, chunk, almost);
  }

  lemma AbsorbQuiet(l: Link, req: Request)
    requires l.incoming != [] && Run(l.dec, l.incoming[0].data).events == []
    ensures Absorb(l, req) == (l.(dec := Run(l.dec, l.incoming[0].data).next, incoming := l.incoming[1..]), None)
  {
    assert Received([]) == [] && l.trace + [] == l.trace;
  }

  lemma AbsorbDecisive(l: Link, req: Request, ev: Event)
    requires l.incoming != [] && Run(l.dec, l.incoming[0].data).events == [ev] && Classify(ev, req).Some?
    ensures Absorb(l, req) ==
            (Link(Run(l.dec, l.incoming[0].data).next, l.incoming[1..], l.written, l.trace + [Rx(ev)]),
             Classify(ev, req))
  {
    assert Scan([ev], req) == Scanned(1, Classify(ev, req));
    assert Received([ev][..1]) == [Rx(ev)];
  }

  /** The next reads, `group`, carry `data`, and only its last byte completes an event. */
  predicate Arriving(l: Link, group: seq<Read>, rest: seq<Read>, data: seq<byte>, end: Snapshot, ev: Event) {
    && l.incoming == group + rest && data == DataOf(group)
    && group != [] && group[|group| - 1].data != []
    && Run(l.dec, data) == Output(end, [ev])
    && (data != [] ==> Run(l.dec, data[..|data| - 1]).events == [])
  }

  lemma DataOfOne(read: Read)
    ensures DataOf([read]) == read.data
  {
    assert [read][1..] == [] && read.data + DataOf([]) == read.data;
  }

  lemma LastArrives(l: Link, req: Request, read: Read, rest: seq<Read>, data: seq<byte>, end: Snapshot, ev: Event)
    requires Arriving(l, [read], rest, data, end, ev) && Classify(ev, req).Some?
    ensures l.incoming != [] && l.incoming[0] == read
    ensures Absorb(l, req) == (Link(end, rest, l.written, l.trace + [Rx(ev)]), Classify(ev, req))
  {
    DataOfOne(read);
    assert l.incoming[0] == read && l.incoming[1..] == rest;
    AbsorbDecisive(l, req, ev);
  }

  lemma DataOfCons(read: Read, tail: seq<Read>)
    ensures DataOf([read] + tail) == read.data + DataOf(tail)
  {
    assert ([read] + tail)[1..] == tail;
  }

  lemma IncomingSplit(incoming: seq<Read>, read: Read, tail: seq<Read>, rest: seq<Read>)
    requires incoming == [read] + tail + rest
    ensures incoming[0] == read && incoming[1..] == tail + rest
  {}

  lemma EarlierArrives(l: Link, req: Request, read: Read, tail: seq<Read>, rest: seq<Read>,
                       data: seq<byte>, end: Snapshot, ev: Event) returns (next: Link)
    requires Arriving(l, [read] + tail, rest, data, end, ev) && tail != []
    ensures l.incoming != [] && l.incoming[0] == read && Absorb(l, req) == (next, None)
    ensures Arriving(next, tail, rest, DataOf(tail), end, ev)
    ensures next.written == l.written && next.trace == l.trace
  {
    DataOfCons(read, tail);
    IncomingSplit(l.incoming, read, tail, rest);
    LastDataNonEmpty(tail);
    QuietChunk(l.dec, read.data, DataOf(tail), end, ev);
    AbsorbQuiet(l, req);
    next := l.(dec := Run(l.dec, read.data).next, incoming := tail + rest);
  }

  /** The wait ends over this event, the decoder in this state and these reads left. */
  predicate EndsOver(l: Link, req: Request, remaining: real, rest: seq<Read>, end: Snapshot, ev: Event) {
    && Classify(ev, req).Some?
    && Await(l, req, remaining) ==
       Ended(Link(end, rest, l.written, l.trace + [Rx(ev)]), Classify(ev, req).value)
  }

  lemma LastHeard(l: Link, req: Request, remaining: real, read: Read, rest: seq<Read>,
                  data: seq<byte>, end: Snapshot, ev: Event)
    requires Arriving(l, [read], rest, data, end, ev) && Classify(ev, req).Some? && 0.0 < remaining
    ensures EndsOver(l, req, remaining, rest, end, ev)
  {
    LastArrives(l, req, read, rest, data, end, ev);
    AwaitDecides(l, req, remaining, Link(end, rest, l.written, l.trace + [Rx(ev)]), Classify(ev, req).value);
  }

  lemma LaterHeard(l: Link, req: Request, remaining: real, next: Link, later: real, rest: seq<Read>, end: Snapshot,
                   ev: Event)
    requires remaining > 0.0 && l.incoming != [] && later == remaining - l.incoming[0].elapsed
    requires Absorb(l, req) == (next, None) && next.written == l.written && next.trace == l.trace
    requires EndsOver(next, req, later, rest, end, ev)
    ensures EndsOver(l, req, remaining, rest, end, ev)
  {
    AwaitContinues(l, req, remaining, next);
  }

  lemma TimeLeft(group: seq<Read>, remaining: real)
    requires group != [] && NonNegative(group) && Elapsed(group) < remaining
    ensures NonNegative(group[1..]) && 0.0 < remaining && Elapsed(group[1..]) < remaining - group[0].elapsed
  {
    ElapsedNonNegative(group);
    ElapsedNonNegative(group[1..]);
  }

  lemma {:induction false} AwaitHears(l: Link, req: Request, remaining: real, group: seq<Read>, rest: seq<Read>,
                                      data: seq<byte>, end: Snapshot, ev: Event)
    requires Arriving(l, group, rest, data, end, ev) && Classify(ev, req).Some?
    requires NonNegative(group) && Elapsed(group) < remaining
    ensures EndsOver(l, req, remaining, rest, end, ev)
    decreases |group|
  {
    var read, tail := group[0], group[1..];
    TimeLeft(group, remaining);
    if tail == [] {
      assert group == [read];
      LastHeard(l, req, remaining, read, rest, data, end, ev);
    } else {
      assert group == [read] + tail;
      var next := EarlierArrives(l, req, read, tail, rest, data, end, ev);
      var later := remaining - read.elapsed;
      AwaitHears(next, req, later, tail, rest, DataOf(tail), end, ev);
      LaterHeard(l, req, remaining, next, later, rest, end, ev);
    }
  }

  /** An answer that arrives in time ends exactly the wait it arrives in. */
  lemma AwaitTakesItsAnswer(l: Link, req: Request, group: seq<Read>, rest: seq<Read>, a: Answer)
    requires l.dec.state == IDLE && l.incoming == group + rest
    requires IsAnswer(a) && OnTime(group, a, req.timeout)
    ensures var e := Await(l, req, req.timeout);
            && e.outcome == Meaning(a, req) && e.link.dec.state == IDLE && e.link.incoming == rest
            && e.link.written == l.written
  {
    AnswerHeard(l.dec, a);
    AnswerPending(l.dec, a);
    AwaitHears(l, req, req.timeout, group, rest, AnswerWire(a), Run(l.dec, AnswerWire(a)).next, AnswerEvent(a));
  }

  // ---- A request in step ----

  /** An answer and the reads that deliver it. */
  datatype Delivery = Delivery(group: seq<Read>, answer: Answer)

  /** It comes whole, less than `within` after the write that it answers. */
  predicate InTime(d: Delivery, within: real) {
    IsAnswer(d.answer) && OnTime(d.group, d.answer, within)
  }

  function ReadsOf(ds: seq<Delivery>): seq<Read> {
    if ds == [] then [] else ds[0].group + ReadsOf(ds[1..])
  }

  /** The k-th write from now on is answered by the k-th delivery, in time. */
  predicate InStep(l: Link, ds: seq<Delivery>, within: real) {
    l.dec.state == IDLE && l.incoming == ReadsOf(ds) && forall k | 0 <= k < |ds| :: InTime(ds[k], within)
  }

  /** The wait ended with what the answer means to the request. */
  predicate TookAnswer(w: Wait, a: Answer, req: Request) {
    IsAnswer(a) && w.outcome == Meaning(a, req)
  }

  /** The waits of the request took their own answers and left the link in step with the others. */
  predicate TookInStep(req: Request, waits: seq<Wait>, end: Link, ds: seq<Delivery>, within: real) {
    && |waits| <= |ds| && InStep(end, ds[|waits|..], within)
    && forall k | 0 <= k < |waits| :: TookAnswer(waits[k], ds[k].answer, req)
  }

  /** The first wait takes the first answer and leaves the link in step with the others. */
  lemma FirstInStep(l: Link, req: Request, ds: seq<Delivery>, within: real, e: Ended)
    requires InStep(l, ds, within) && within <= req.timeout && ds != []
    requires e == Await(Written(l, req), req, req.timeout)
    ensures TookAnswer(WaitAfter(l, req), ds[0].answer, req) && InStep(e.link, ds[1..], within)
  {
    assert InTime(ds[0], within) && OnTime(ds[0].group, ds[0].answer, req.timeout);
    AwaitTakesItsAnswer(Written(l, req), req, ds[0].group, ReadsOf(ds[1..]), ds[0].answer);
  }

  lemma DropSum<T>(s: seq<T>, n: nat, m: nat)
    requires n + m <= |s|
    ensures s[n..][m..] == s[n + m..]
  {}

  lemma TookOne(req: Request, w: Wait, end: Link, ds: seq<Delivery>, within: real)
    requires ds != [] && TookAnswer(w, ds[0].answer, req) && InStep(end, ds[1..], within)
    ensures TookInStep(req, [w], end, ds, within)
  {}

  lemma TookLater(req: Request, w: Wait, more: seq<Wait>, end: Link, ds: seq<Delivery>, within: real)
    requires ds != [] && TookAnswer(w, ds[0].answer, req) && TookInStep(req, more, end, ds[1..], within)
    ensures TookInStep(req, [w] + more, end, ds, within)
  {
    var all := [w] + more;
    DropSum(ds, 1, |more|);
    forall k | 0 <= k < |all| ensures TookAnswer(all[k], ds[k].answer, req) {
      if k > 0 { assert TookAnswer(more[k - 1], ds[1..][k - 1].answer, req); }
    }
  }

  lemma LastTook(l: Link, req: Request, left: nat, last: Outcome, ds: seq<Delivery>, within: real, e: Ended)
    requires InStep(l, ds, within) && within <= req.timeout && ds != []
    requires e == Await(Written(l, req), req, req.timeout) && (left == 1 || (left > 0 && !Retryable(e.outcome)))
    ensures TookInStep(req, AttemptWaits(l, req, left), Attempts(l, req, left, last).link, ds, within)
  {
    FirstInStep(l, req, ds, within, e);
    TookOne(req, WaitAfter(l, req), e.link, ds, within);
    LastAttempt(l, req, left, last, e);
  }

  lemma LaterTook(l: Link, req: Request, left: nat, last: Outcome, ds: seq<Delivery>, within: real, e: Ended,
                  more: seq<Wait>, end: Ended)
    requires InStep(l, ds, within) && within <= req.timeout && ds != []
    requires e == Await(Written(l, req), req, req.timeout) && left > 0 && Retryable(e.outcome)
    requires more == AttemptWaits(e.link, req, left - 1) && end == Attempts(e.link, req, left - 1, e.outcome)
    requires TookInStep(req, more, end.link, ds[1..], within)
    ensures TookInStep(req, AttemptWaits(l, req, left), Attempts(l, req, left, last).link, ds, within)
  {
    FirstInStep(l, req, ds, within, e);
    TookLater(req, WaitAfter(l, req), more, end.link, ds, within);
    MoreAttempts(l, req, left, last, e);
  }

  /** While each write that is made is answered once and in time, each wait of a request takes the
      answer to the write before it. */
  lemma {:induction false} AttemptsInStep(l: Link, req: Request, left: nat, last: Outcome, ds: seq<Delivery>,
                                          within: real)
    requires InStep(l, ds, within) && within <= req.timeout && left > 0
    requires |AttemptWaits(l, req, left)| <= |ds|
    ensures TookInStep(req, AttemptWaits(l, req, left), Attempts(l, req, left, last).link, ds, within)
    decreases left
  {
    var e := Await(Written(l, req), req, req.timeout);
    AttemptWaitsUnfold(l, req, left, e);
    if left == 1 || !Retryable(e.outcome) {
      LastTook(l, req, left, last, ds, within, e);
    } else {
      FirstInStep(l, req, ds, within, e);
      AttemptsInStep(e.link, req, left - 1, e.outcome, ds[1..], within);
      LaterTook(l, req, left, last, ds, within, e, AttemptWaits(e.link, req, left - 1),
                Attempts(e.link, req, left - 1, e.outcome));
    }
  }

  // ---- A session in step ----

  /** Every request waits at least that long for each answer. */
  predicate AllWait(reqs: seq<Request>, within: real) {
    forall r | r in reqs :: Sendable(r) && within <= r.timeout
  }

  lemma WaitParts(reqs: seq<Request>, within: real)
    requires AllWait(reqs, within) && reqs != []
    ensures Sendable(reqs[0]) && within <= reqs[0].timeout && AllWait(reqs[1..], within)
  {
    assert reqs[0] in reqs;
  }

  lemma ExchangeInStep(l: Link, req: Request, ds: seq<Delivery>, within: real)
    requires InStep(l, ds, within) && Sendable(req) && within <= req.timeout && |Waits(l, req)| <= |ds|
    ensures TookInStep(req, Waits(l, req), Exchange(l, req).link, ds, within)
  {
    AttemptsInStep(l, req, req.attempts, NoAttempts, ds, within);
  }

  lemma LeavesInStep(l: Link, req: Request, ds: seq<Delivery>, within: real, n: nat)
    requires InStep(l, ds, within) && Sendable(req) && within <= req.timeout && n == |Waits(l, req)| <= |ds|
    ensures InStep(Exchange(l, req).link, ds[n..], within)
  {
    ExchangeInStep(l, req, ds, within);
  }

  /** In step with the answers that follow those to these writes. */
  predicate InStepAfter(end: Link, ds: seq<Delivery>, within: real, waits: seq<Wait>) {
    |waits| <= |ds| && InStep(end, ds[|waits|..], within)
  }

  lemma InStepNow(l: Link, ds: seq<Delivery>, within: real)
    requires InStep(l, ds, within)
    ensures InStepAfter(l, ds, within, [])
  {
    assert ds[0..] == ds;
  }

  lemma InStepThen(end: Link, ds: seq<Delivery>, within: real, before: seq<Wait>, waits: seq<Wait>)
    requires |before| + |waits| <= |ds| && InStep(end, ds[|before|..][|waits|..], within)
    ensures InStepAfter(end, ds, within, before + waits)
  {
    DropSum(ds, |before|, |waits|);
    assert ds[|before + waits|..] == ds[|before|..][|waits|..];
  }

  lemma InStepNext(mid: Link, req: Request, ds: seq<Delivery>, within: real, before: seq<Wait>, waits: seq<Wait>)
    requires InStepAfter(mid, ds, within, before) && Sendable(req) && within <= req.timeout
    requires waits == Waits(mid, req) && |before| + |waits| <= |ds|
    ensures InStepAfter(Exchange(mid, req).link, ds, within, before + waits)
  {
    LeavesInStep(mid, req, ds[|before|..], within, |waits|);
    InStepThen(Exchange(mid, req).link, ds, within, before, waits);
  }

  /** Every request finds the link in step with the answers that are left. */
  lemma {:induction false} InStepBefore(l: Link, reqs: seq<Request>, ds: seq<Delivery>, within: real,
                                        ws: seq<seq<Wait>>, j: nat)
    requires InStep(l, ds, within) && AllWait(reqs, within) && ws == RunWaits(l, reqs)
    requires j <= |reqs| && |Before(ws, j)| <= |ds|
    ensures InStepAfter(LinkBefore(l, reqs, j), ds, within, Before(ws, j))
  {
    if j == 0 {
      BeforeFirst(ws);
      InStepNow(l, ds, within);
    } else {
      var mid, req := LinkBefore(l, reqs, j - 1), reqs[j - 1];
      assert req in reqs;
      RequestAt(l, reqs, j - 1);
      BeforeNext(ws, j - 1);
      InStepBefore(l, reqs, ds, within, ws, j - 1);
      InStepNext(mid, req, ds, within, Before(ws, j - 1), ws[j - 1]);
    }
  }

  /** Over a whole session in which each write is answered once and in time, every wait ends with
      what the answer to the write before it means to the request that made it: no reply is ever
      taken for another write. */
  lemma SessionStaysInStep(l: Link, reqs: seq<Request>, ds: seq<Delivery>, within: real,
                           ws: seq<seq<Wait>>, j: nat, i: nat)
    requires InStep(l, ds, within) && AllWait(reqs, within) && ws == RunWaits(l, reqs) && Writes(ws) <= |ds|
    requires j < |reqs| && i < |ws[j]|
    ensures var k := |Before(ws, j)| + i; k < Writes(ws) && TookAnswer(ws[j][i], ds[k].answer, reqs[j])
  {
    var b, mid := |Before(ws, j)|, LinkBefore(l, reqs, j);
    assert reqs[j] in reqs;
    BeforeNext(ws, j);
    InStepBefore(l, reqs, ds, within, ws, j);
    RequestAt(l, reqs, j);
    ExchangeInStep(mid, reqs[j], ds[b..], within);
    assert TookAnswer(ws[j][i], ds[b..][i].answer, reqs[j]);
  }
}
