/** The waits of a session, whatever its transport does: every write is followed by one wait, so
    they number the writes and say which request made each. */
module SessionWaits {
  import opened Bytes
  import opened Framing
  import opened Session
  import opened SessionTheorems

  // ---- One wait ----

  /** The events other than debug frames, which every wait passes over. */
  function Answering(events: seq<Event>): seq<Event> {
    if events == [] then []
    else (if events[0].kind == DEBUG then [] else [events[0]]) + Answering(events[1..])
  }

  /** How many such events the next read completes. */
  function CompletedByRead(l: Link): nat
    requires l.incoming != []
  {
    |Answering(Run(l.dec, l.incoming[0].data).events)|
  }

  /** How a wait ended, and how many answering events were completed during it. A wait looks at the
      events of a read up to the one that decides; the others of that read are lost. */
  datatype Wait = Wait(outcome: Outcome, completed: nat)

  function CompletedIn(l: Link, req: Request, remaining: real): nat
    decreases |l.incoming|
  {
    if remaining <= 0.0 || l.incoming == [] then 0
    else
      var (next, o) := Absorb(l, req);
      CompletedByRead(l) + if o.Some? then 0 else CompletedIn(next, req, remaining - l.incoming[0].elapsed)
  }

  /** The wait after writing the request. */
  function WaitAfter(l: Link, req: Request): Wait {
    Wait(Await(Written(l, req), req, req.timeout).outcome, CompletedIn(Written(l, req), req, req.timeout))
  }

  lemma AwaitDecides(l: Link, req: Request, remaining: real, next: Link, o: Outcome)
    requires remaining > 0.0 && l.incoming != [] && Absorb(l, req) == (next, Some(o))
    ensures Await(l, req, remaining) == Ended(next, o)
    ensures CompletedIn(l, req, remaining) == CompletedByRead(l)
  {}

  lemma AwaitContinues(l: Link, req: Request, remaining: real, next: Link)
    requires remaining > 0.0 && l.incoming != [] && Absorb(l, req) == (next, None)
    ensures Await(l, req, remaining) == Await(next, req, remaining - l.incoming[0].elapsed)
    ensures CompletedIn(l, req, remaining) ==
            CompletedByRead(l) + CompletedIn(next, req, remaining - l.incoming[0].elapsed)
  {}

  // ---- One request ----

  function AttemptWaits(l: Link, req: Request, left: nat): (r: seq<Wait>)
    ensures |r| <= left
    decreases left
  {
    if left == 0 then []
    else
      var e := Await(Written(l, req), req, req.timeout);
      [WaitAfter(l, req)] + if Retryable(e.outcome) then AttemptWaits(e.link, req, left - 1) else []
  }

  function Waits(l: Link, req: Request): seq<Wait> {
    if req.attempts <= 0 || req.body == [] then [] else AttemptWaits(l, req, req.attempts)
  }

  lemma AttemptsUnfold(l: Link, req: Request, left: nat, last: Outcome, e: Ended)
    requires left > 0 && e == Await(Written(l, req), req, req.timeout)
    ensures Attempts(l, req, left, last) ==
            if Retryable(e.outcome) then Attempts(e.link, req, left - 1, e.outcome) else e
  {}

  lemma AttemptWaitsUnfold(l: Link, req: Request, left: nat, e: Ended)
    requires left > 0 && e == Await(Written(l, req), req, req.timeout)
    ensures AttemptWaits(l, req, left) ==
            [WaitAfter(l, req)] + if Retryable(e.outcome) then AttemptWaits(e.link, req, left - 1) else []
    ensures WaitAfter(l, req).outcome == e.outcome
  {}

  /** A wait is the last of a request if it ends it or no attempt is left. */
  lemma LastAttempt(l: Link, req: Request, left: nat, last: Outcome, e: Ended)
    requires e == Await(Written(l, req), req, req.timeout)
    requires left == 1 || (left > 0 && !Retryable(e.outcome))
    ensures Attempts(l, req, left, last) == e && AttemptWaits(l, req, left) == [WaitAfter(l, req)]
  {
    assert [WaitAfter(l, req)] + [] == [WaitAfter(l, req)];
  }

  lemma MoreAttempts(l: Link, req: Request, left: nat, last: Outcome, e: Ended)
    requires left > 0 && e == Await(Written(l, req), req, req.timeout) && Retryable(e.outcome)
    ensures Attempts(l, req, left, last) == Attempts(e.link, req, left - 1, e.outcome)
    ensures AttemptWaits(l, req, left) == [WaitAfter(l, req)] + AttemptWaits(e.link, req, left - 1)
  {}

  /** The request ended as its last wait did: every wait before it was retried, and it is the last
      either because it decided the request or because no attempt was left. */
  predicate LastWaitEnds(waits: seq<Wait>, attempts: int, o: Outcome) {
    && waits != [] && o == waits[|waits| - 1].outcome
    && (forall i | 0 <= i < |waits| - 1 :: waits[i].outcome == TimedOut || waits[i].outcome == WrongReply)
    && (|waits| == attempts || (o != TimedOut && o != WrongReply))
  }

  lemma LastWaitEndsLater(w: Wait, more: seq<Wait>, attempts: int, o: Outcome)
    requires LastWaitEnds(more, attempts, o) && Retryable(w.outcome)
    ensures LastWaitEnds([w] + more, attempts + 1, o)
  {}

  lemma {:induction false} AttemptsEnd(l: Link, req: Request, left: nat, last: Outcome)
    requires left > 0
    ensures LastWaitEnds(AttemptWaits(l, req, left), left, Attempts(l, req, left, last).outcome)
    decreases left
  {
    var e := Await(Written(l, req), req, req.timeout);
    if left == 1 || !Retryable(e.outcome) {
      LastAttempt(l, req, left, last, e);
    } else {
      AttemptsEnd(e.link, req, left - 1, e.outcome);
      MoreAttempts(l, req, left, last, e);
      LastWaitEndsLater(WaitAfter(l, req), AttemptWaits(e.link, req, left - 1), left - 1,
                        Attempts(e.link, req, left - 1, e.outcome).outcome);
    }
  }

  // ---- Sessions ----

  /** Requests the protocol builds: a body and at least one attempt. */
  predicate Sendable(req: Request) {
    req.attempts > 0 && req.body != []
  }

  predicate AllSendable(reqs: seq<Request>) {
    forall r | r in reqs :: Sendable(r)
  }

  lemma SendableParts(reqs: seq<Request>)
    requires AllSendable(reqs) && reqs != []
    ensures Sendable(reqs[0]) && AllSendable(reqs[1..])
  {
    assert reqs[0] in reqs;
  }

  function RunAll(l: Link, reqs: seq<Request>): (Link, seq<Outcome>)
    decreases |reqs|
  {
    if reqs == [] then (l, [])
    else
      var e := Exchange(l, reqs[0]);
      var (end, outcomes) := RunAll(e.link, reqs[1..]);
      (end, [e.outcome] + outcomes)
  }

  /** The waits of every request. */
  function RunWaits(l: Link, reqs: seq<Request>): (r: seq<seq<Wait>>)
    ensures |r| == |reqs|
    decreases |reqs|
  {
    if reqs == [] then [] else [Waits(l, reqs[0])] + RunWaits(Exchange(l, reqs[0]).link, reqs[1..])
  }

  lemma RunAllFirst(l: Link, reqs: seq<Request>, e: Ended)
    requires reqs != [] && e == Exchange(l, reqs[0])
    ensures RunAll(l, reqs).1 == [e.outcome] + RunAll(e.link, reqs[1..]).1
    ensures RunAll(l, reqs).0 == RunAll(e.link, reqs[1..]).0
    ensures RunWaits(l, reqs) == [Waits(l, reqs[0])] + RunWaits(e.link, reqs[1..])
    ensures |RunAll(l, reqs).1| == 1 + |RunAll(e.link, reqs[1..]).1|
  {}

  lemma {:induction false} OutcomeEach(l: Link, reqs: seq<Request>)
    ensures |RunAll(l, reqs).1| == |reqs|
    decreases |reqs|
  {
    if reqs != [] { OutcomeEach(Exchange(l, reqs[0]).link, reqs[1..]); }
  }

  /** Whatever the transport does, every request of a session ends as its last wait did. */
  lemma {:induction false} SessionOutcomes(l: Link, reqs: seq<Request>, j: nat)
    requires AllSendable(reqs) && j < |reqs| == |RunAll(l, reqs).1|
    ensures LastWaitEnds(RunWaits(l, reqs)[j], reqs[j].attempts, RunAll(l, reqs).1[j])
    decreases j
  {
    var e := Exchange(l, reqs[0]);
    SendableParts(reqs);
    RunAllFirst(l, reqs, e);
    if j == 0 {
      AttemptsEnd(l, reqs[0], reqs[0].attempts, NoAttempts);
    } else {
      SessionOutcomes(e.link, reqs[1..], j - 1);
    }
  }

  // ---- Who made which write ----

  /** Every wait follows one write. */
  function Writes(ws: seq<seq<Wait>>): nat {
    |Concat(ws)|
  }

  /** The waits before request j. */
  function Before(ws: seq<seq<Wait>>, j: nat): seq<Wait>
    requires j <= |ws|
  {
    Concat(ws[..j])
  }

  lemma ConcatTwo<T>(first: seq<T>, more: seq<seq<T>>)
    ensures Concat([first] + more) == first + Concat(more)
  {
    assert ([first] + more)[1..] == more;
  }

  lemma BeforeFirst(ws: seq<seq<Wait>>)
    ensures Before(ws, 0) == []
  {}

  lemma BeforeLater(first: seq<Wait>, more: seq<seq<Wait>>, j: nat)
    requires j <= |more|
    ensures Before([first] + more, j + 1) == first + Before(more, j)
  {
    assert ([first] + more)[..j + 1] == [first] + more[..j];
    ConcatTwo(first, more[..j]);
  }

  /** The waits of a session are those before request j, its own, and those after. */
  lemma {:induction false} BeforeNext(ws: seq<seq<Wait>>, j: nat)
    requires j < |ws|
    ensures Before(ws, j + 1) == Before(ws, j) + ws[j] && Before(ws, j + 1) <= Concat(ws)
    decreases |ws|
  {
    assert [ws[0]] + ws[1..] == ws;
    BeforeLater(ws[0], ws[1..], j);
    if j == 0 {
      BeforeFirst(ws);
      BeforeFirst(ws[1..]);
    } else {
      BeforeNext(ws[1..], j - 1);
      BeforeLater(ws[0], ws[1..], j - 1);
    }
  }

  /** The link as request j finds it. */
  function LinkBefore(l: Link, reqs: seq<Request>, j: nat): Link
    requires j <= |reqs|
    decreases j
  {
    if j == 0 then l else LinkBefore(Exchange(l, reqs[0]).link, reqs[1..], j - 1)
  }

  lemma {:induction false} RequestAt(l: Link, reqs: seq<Request>, j: nat)
    requires j < |reqs|
    ensures RunWaits(l, reqs)[j] == Waits(LinkBefore(l, reqs, j), reqs[j])
    ensures |RunAll(l, reqs).1| == |reqs|
    ensures RunAll(l, reqs).1[j] == Exchange(LinkBefore(l, reqs, j), reqs[j]).outcome
    ensures LinkBefore(l, reqs, j + 1) == Exchange(LinkBefore(l, reqs, j), reqs[j]).link
    decreases j
  {
    OutcomeEach(l, reqs);
    RunAllFirst(l, reqs, Exchange(l, reqs[0]));
    if j > 0 { RequestAt(Exchange(l, reqs[0]).link, reqs[1..], j - 1); }
  }

  /** The request that made write number k. */
  function OwnerOf(ws: seq<seq<Wait>>, k: nat): (j: nat)
    requires k < Writes(ws)
    ensures j < |ws|
  {
    if k < |ws[0]| then 0 else 1 + OwnerOf(ws[1..], k - |ws[0]|)
  }

  lemma {:induction false} OwnerBefore(ws: seq<seq<Wait>>, k: nat, j: nat)
    requires k < Writes(ws) && j <= |ws|
    ensures OwnerOf(ws, k) < j <==> k < |Before(ws, j)|
    decreases |ws|
  {
    if j > 0 {
      assert [ws[0]] + ws[1..] == ws;
      BeforeLater(ws[0], ws[1..], j - 1);
      if k >= |ws[0]| { OwnerBefore(ws[1..], k - |ws[0]|, j - 1); }
    } else {
      BeforeFirst(ws);
    }
  }

  // ---- Every write of a session ----

  lemma RepeatOneMore<T>(s: seq<T>, x: T, n: nat)
    requires n > 0
    ensures s + [x] + Repeat(x, n - 1) == s + Repeat(x, n)
  {}

  /** One frame for each wait. */
  lemma {:induction false} AttemptsWriteEach(l: Link, req: Request, left: nat, last: Outcome, end: Ended)
    requires end == Attempts(l, req, left, last)
    ensures end.link.written == l.written + Repeat(Wire(req.body), |AttemptWaits(l, req, left)|)
    decreases left
  {
    if left == 0 {
      assert l.written + Repeat(Wire(req.body), 0) == l.written;
    } else {
      var e := Await(Written(l, req), req, req.timeout);
      AwaitWritesNothing(Written(l, req), req, req.timeout);
      AttemptWaitsUnfold(l, req, left, e);
      AttemptsUnfold(l, req, left, last, e);
      if Retryable(e.outcome) {
        AttemptsWriteEach(e.link, req, left - 1, e.outcome, end);
        RepeatOneMore(l.written, Wire(req.body), |AttemptWaits(l, req, left)|);
      } else {
        assert Repeat(Wire(req.body), 1) == [Wire(req.body)];
      }
    }
  }

  /** The frames written: each request's own, once for each of its waits. */
  function Frames(reqs: seq<Request>, ws: seq<seq<Wait>>): (r: seq<seq<byte>>)
    requires |reqs| == |ws|
    ensures |r| == Writes(ws)
  {
    if ws == [] then []
    else Repeat(Wire(reqs[0].body), |ws[0]|) + Frames(reqs[1..], ws[1..])
  }

  lemma {:induction false} FrameIsOwners(reqs: seq<Request>, ws: seq<seq<Wait>>, k: nat)
    requires |reqs| == |ws| && k < Writes(ws)
    ensures Frames(reqs, ws)[k] == Wire(reqs[OwnerOf(ws, k)].body)
    decreases |ws|
  {
    if k >= |ws[0]| { FrameIsOwners(reqs[1..], ws[1..], k - |ws[0]|); }
  }

  lemma FramesFirst(req: Request, more: seq<Request>, first: seq<Wait>, ws: seq<seq<Wait>>, written: seq<seq<byte>>)
    requires |more| == |ws|
    ensures written + Repeat(Wire(req.body), |first|) + Frames(more, ws) == written + Frames([req] + more, [first] + ws)
  {
    assert ([req] + more)[1..] == more && ([first] + ws)[1..] == ws;
  }

  /** A session writes these frames and no other. */
  lemma {:induction false} SessionWrites(l: Link, reqs: seq<Request>, ws: seq<seq<Wait>>, end: Link)
    requires AllSendable(reqs) && ws == RunWaits(l, reqs) && end == RunAll(l, reqs).0
    ensures end.written == l.written + Frames(reqs, ws)
    decreases |reqs|
  {
    if reqs == [] {
      assert l.written + Frames(reqs, ws) == l.written;
    } else {
      var req, e := reqs[0], Exchange(l, reqs[0]);
      SendableParts(reqs);
      AttemptsWriteEach(l, req, req.attempts, NoAttempts, e);
      RunAllFirst(l, reqs, e);
      SessionWrites(e.link, reqs[1..], RunWaits(e.link, reqs[1..]), end);
      FramesFirst(req, reqs[1..], Waits(l, req), RunWaits(e.link, reqs[1..]), l.written);
      assert [req] + reqs[1..] == reqs;
    }
  }

  /** Whatever the transport does, write number k of a session is the frame of the request that
      owns it. */
  lemma WriteIsOwners(l: Link, reqs: seq<Request>, k: nat)
    requires AllSendable(reqs) && k < Writes(RunWaits(l, reqs))
    ensures var ws, written := RunWaits(l, reqs), RunAll(l, reqs).0.written;
            |written| == |l.written| + Writes(ws) && written[|l.written| + k] == Wire(reqs[OwnerOf(ws, k)].body)
  {
    SessionWrites(l, reqs, RunWaits(l, reqs), RunAll(l, reqs).0);
    FrameIsOwners(reqs, RunWaits(l, reqs), k);
  }
}
