/** Small schedules that show how a session fails, and how it recovers by luck. */
module SessionSchedules {
  import opened Bytes
  import opened Crc
  import opened Framing
  import opened FramingTheorems
  import opened Session
  import opened SessionTheorems
  import opened SessionWaits
  import opened SessionInStep

  /** A read whose first event decides ends the attempt it meets; its other events are lost. */
  lemma DecidedAtOnce(l: Link, req: Request, left: nat, last: Outcome, read: Read, rest: seq<Read>,
                      end: Snapshot, events: seq<Event>, o: Outcome)
    requires l.incoming == [read] + rest && Run(l.dec, read.data) == Output(end, events)
    requires events != [] && Classify(events[0], req) == Some(o) && !Retryable(o)
    requires left > 0 && req.timeout > 0.0
    ensures var e := Attempts(l, req, left, last);
            e.outcome == o && e.link.dec == end && e.link.incoming == rest
  {
    var w := Written(l, req);
    assert w.incoming[0] == read && w.incoming[1..] == rest;
    AwaitDecides(w, req, req.timeout, Absorb(w, req).0, o);
    LastAttempt(l, req, left, last, Await(w, req, req.timeout));
  }

  lemma ReplyHeard(d: Snapshot, body: seq<byte>)
    requires d.state == IDLE && body != [] && body[0] != DEBUG_STREAM
    ensures Run(d, Wire(body)) == Output(Snapshot(IDLE, body, HighByte(Crc16(body, 0))), [Event(MESSAGE, body)])
  {
    FrameReceived(d, body, Crc16(body, 0));
  }

  predicate ReplyTo(body: seq<byte>, opcode: byte) {
    body != [] && body[0] == opcode && opcode != DEBUG_STREAM && opcode != SYSTEM
  }

  predicate Delivers(r: (Link, Fetched), body: seq<byte>, size: nat, rest: seq<Read>) {
    && |body| >= REPLY_DATA_OFFSET + size
    && r.1 == Data(body[REPLY_DATA_OFFSET..REPLY_DATA_OFFSET + size])
    && r.0.dec.state == IDLE && r.0.incoming == rest
  }

  /** One read holding a whole reply ends the record read it meets, whichever item was asked for. */
  lemma ReplyTaken(l: Link, opcode: byte, sub: byte, item: int, body: seq<byte>, size: nat, rest: seq<Read>)
    requires l.dec.state == IDLE && l.incoming == [Read(Wire(body), 0.1)] + rest && 0 <= item <= 0xFFFF
    requires ReplyTo(body, opcode) && |body| >= REPLY_DATA_OFFSET + size
    ensures Delivers(Fetch(l, opcode, sub, item, size), body, size, rest)
  {
    ReplyHeard(l.dec, body);
    DecidedAtOnce(l, ReadRequest(opcode, Header(opcode, sub, item).value), 4, NoAttempts, Read(Wire(body), 0.1), rest,
                  Snapshot(IDLE, body, HighByte(Crc16(body, 0))), [Event(MESSAGE, body)], Reply(body));
  }

  /** A read that brings nothing and takes the whole timeout makes the first attempt time out. */
  lemma FirstTimesOut(l: Link, req: Request, last: Outcome)
    requires l.dec == START && l.incoming != [] && l.incoming[0] == Read([], 0.8) && req.timeout == 0.8
    ensures Attempts(l, req, 4, last) == Attempts(Written(l, req).(incoming := l.incoming[1..]), req, 3, TimedOut)
  {
    var w := Written(l, req);
    var next := w.(incoming := w.incoming[1..]);
    assert Received([]) == [] && w.trace + [] == w.trace;
    assert Absorb(w, req) == (next, None);
    AwaitContinues(w, req, req.timeout, next);
    MoreAttempts(l, req, 4, last, Ended(next, TimedOut));
  }

  /** Its retry takes the first reply of the next read; the others in that read are lost. */
  lemma RetryTakes(l: Link, opcode: byte, sub: byte, item: int, read: Read, rest: seq<Read>,
                   end: Snapshot, events: seq<Event>, body: seq<byte>, size: nat)
    requires l.dec == START && l.incoming == [Read([], 0.8)] + ([read] + rest) && 0 <= item <= 0xFFFF
    requires ReplyTo(body, opcode) && |body| >= REPLY_DATA_OFFSET + size
    requires Run(START, read.data) == Output(end, events) && end.state == IDLE
    requires events != [] && events[0] == Event(MESSAGE, body)
    ensures Delivers(Fetch(l, opcode, sub, item, size), body, size, rest)
  {
    var req := ReadRequest(opcode, Header(opcode, sub, item).value);
    var retried := Written(l, req).(incoming := [read] + rest);
    assert l.incoming[1..] == [read] + rest;
    FirstTimesOut(l, req, NoAttempts);
    DecidedAtOnce(retried, req, 3, TimedOut, read, rest, end, events, Reply(body));
  }

  /** The smallest schedule that fails: the first write for `item` times out, its retry is answered,
      and the answer to the first write, arriving late, is taken for the next item's. This holds for
      any two items and any plausible reply. */
  lemma LateReplyMisattributed(opcode: byte, sub: byte, item: int, other: int, body: seq<byte>, size: nat)
    requires 0 <= item <= 0xFFFF && 0 <= other <= 0xFFFF
    requires |body| >= REPLY_DATA_OFFSET + size && ReplyTo(body, opcode)
    ensures var late := Read(Wire(body), 0.1);
            var l := Link(START, [Read([], 0.8), late, late], [], []);
            var (after, first) := Fetch(l, opcode, sub, item, size);
            var (_, second) := Fetch(after, opcode, sub, other, size);
            first == second == Data(body[REPLY_DATA_OFFSET..REPLY_DATA_OFFSET + size])
  {
    var late := Read(Wire(body), 0.1);
    var l := Link(START, [Read([], 0.8), late, late], [], []);
    ReplyHeard(START, body);
    RetryTakes(l, opcode, sub, item, late, [late], Snapshot(IDLE, body, HighByte(Crc16(body, 0))),
               [Event(MESSAGE, body)], body, size);
    assert [late] == [late] + [];
    ReplyTaken(Fetch(l, opcode, sub, item, size).0, opcode, sub, other, body, size, []);
  }

  lemma TwoRepliesHeard(body: seq<byte>) returns (end: Snapshot, events: seq<Event>)
    requires body != [] && body[0] != DEBUG_STREAM
    ensures Run(START, Wire(body) + Wire(body)) == Output(end, events) && end.state == IDLE
    ensures events == [Event(MESSAGE, body), Event(MESSAGE, body)]
  {
    end := Snapshot(IDLE, body, HighByte(Crc16(body, 0)));
    events := [Event(MESSAGE, body)] + [Event(MESSAGE, body)];
    ReplyHeard(START, body);
    ReplyHeard(end, body);
    RunConcat(START, Wire(body), Wire(body));
  }

  /** The same timeout does no harm when both answers for `item` come in one read: the late one is
      taken, the other lost with it, and the next item gets its own answer. */
  lemma SharedReadMakesUp(opcode: byte, sub: byte, item: int, other: int, mine: seq<byte>, its: seq<byte>, size: nat)
    requires 0 <= item <= 0xFFFF && 0 <= other <= 0xFFFF
    requires |mine| >= REPLY_DATA_OFFSET + size && ReplyTo(mine, opcode)
    requires |its| >= REPLY_DATA_OFFSET + size && ReplyTo(its, opcode)
    ensures var l := Link(START, [Read([], 0.8), Read(Wire(mine) + Wire(mine), 0.1), Read(Wire(its), 0.1)], [], []);
            var (after, first) := Fetch(l, opcode, sub, item, size);
            var (_, second) := Fetch(after, opcode, sub, other, size);
            && first == Data(mine[REPLY_DATA_OFFSET..REPLY_DATA_OFFSET + size])
            && second == Data(its[REPLY_DATA_OFFSET..REPLY_DATA_OFFSET + size])
  {
    var both, last := Read(Wire(mine) + Wire(mine), 0.1), Read(Wire(its), 0.1);
    var l := Link(START, [Read([], 0.8), both, last], [], []);
    var end, events := TwoRepliesHeard(mine);
    RetryTakes(l, opcode, sub, item, both, [last], end, events, mine, size);
    assert [last] == [last] + [];
    ReplyTaken(Fetch(l, opcode, sub, item, size).0, opcode, sub, other, its, size, []);
  }

  lemma EmptyHeard(d: Snapshot)
    requires d.state == IDLE
    ensures Run(d, EMPTY_FRAME) == Output(Snapshot(IDLE, [], 0), [Event(MESSAGE, [])])
  {
    EmptyFrameIs();
    FrameReceived(d, [], Crc16([], 0));
  }

  /** Those six bytes, received whole while a request waits, make it fault, whatever it asked for. */
  lemma EmptyMessageFaults(l: Link, req: Request, elapsed: real, rest: seq<Read>)
    requires l.dec.state == IDLE && l.incoming == [Read(EMPTY_FRAME, elapsed)] + rest
    requires req.attempts > 0 && req.body != [] && 0.0 < req.timeout
    ensures Exchange(l, req).outcome == IndexFault
  {
    EmptyHeard(l.dec);
    DecidedAtOnce(l, req, req.attempts, NoAttempts, Read(EMPTY_FRAME, elapsed), rest,
                  Snapshot(IDLE, [], 0), [Event(MESSAGE, [])], IndexFault);
  }
}
