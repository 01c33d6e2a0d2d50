/** Which answer a wait takes when the panel answers every write once and in order, but at any
    time and cut into reads anyhow. A wait takes the first answer completed by the read that ends
    it; the others completed by that read are lost. So the answers ever looked at are those that
    lead their read, in order, and which those are depends on the transport alone. */
module SessionPairing {
  import opened Bytes
  import opened Framing
  import opened Session
  import opened SessionTheorems
  import opened SessionWaits
  import opened SessionInStep

  // ---- Answers that come in order, at any time ----

  /** An answer still to come, as the decoder will report it, and whether it is the first that its
      read completes. */
  datatype Due = Due(event: Event, leads: bool)

  /** What one read completes. */
  function Batch(events: seq<Event>): (r: seq<Due>)
    ensures |r| == |events|
  {
    seq(|events|, i requires 0 <= i < |events| => Due(events[i], i == 0))
  }

  /** The answering events that these reads complete, read by read. */
  function Dues(d: Snapshot, incoming: seq<Read>): seq<Due>
    decreases |incoming|
  {
    if incoming == [] then []
    else
      var out := Run(d, incoming[0].data);
      Batch(Answering(out.events)) + Dues(out.next, incoming[1..])
  }

  /** A frame that is not a debug frame, intact or damaged, or a NAK: it decides any request. */
  predicate Decides(ev: Event) {
    ev.kind != DEBUG && ev.kind != ACKED
  }

  function Decision(ev: Event, req: Request): Outcome
    requires Decides(ev)
  {
    Classify(ev, req).value
  }

  predicate AllDecide(dues: seq<Due>) {
    forall i | 0 <= i < |dues| :: Decides(dues[i].event)
  }

  /** The reads still to come complete these answers, in order, and nothing else but debug frames.
      Part of the first may have been received before. */
  predicate Pending(l: Link, dues: seq<Due>) {
    AllDecide(dues) && Dues(l.dec, l.incoming) == dues
  }

  // ---- Any cutting of whole answers ----

  function Wires(sent: seq<Answer>): seq<byte> {
    if sent == [] then [] else AnswerWire(sent[0]) + Wires(sent[1..])
  }

  function Events(answers: seq<Answer>): (r: seq<Event>)
    ensures |r| == |answers|
  {
    seq(|answers|, i requires 0 <= i < |answers| => AnswerEvent(answers[i]))
  }

  function EventsOf(dues: seq<Due>): (r: seq<Event>)
    ensures |r| == |dues|
  {
    seq(|dues|, i requires 0 <= i < |dues| => dues[i].event)
  }

  lemma {:induction false} AnsweringConcat(a: seq<Event>, b: seq<Event>)
    ensures Answering(a + b) == Answering(a) + Answering(b)
  {
    if a == [] {
      assert a + b == b;
    } else {
      assert (a + b)[1..] == a[1..] + b;
      AnsweringConcat(a[1..], b);
    }
  }

  lemma BatchHeard(events: seq<Event>, more: seq<Due>)
    ensures EventsOf(Batch(events) + more) == events + EventsOf(more)
  {}

  /** How the bytes are cut into reads does not change what is heard, only what leads. */
  lemma {:induction false} CutDoesNotMatter(d: Snapshot, incoming: seq<Read>)
    ensures EventsOf(Dues(d, incoming)) == Answering(Run(d, DataOf(incoming)).events)
    decreases |incoming|
  {
    if incoming != [] {
      var out := Run(d, incoming[0].data);
      RunConcat(d, incoming[0].data, DataOf(incoming[1..]));
      AnsweringConcat(out.events, Run(out.next, DataOf(incoming[1..])).events);
      CutDoesNotMatter(out.next, incoming[1..]);
      BatchHeard(Answering(out.events), Dues(out.next, incoming[1..]));
    }
  }

  lemma {:induction false} WiresHeard(d: Snapshot, sent: seq<Answer>)
    requires d.state == IDLE
    ensures Run(d, Wires(sent)).events == Events(sent)
    decreases |sent|
  {
    if sent != [] {
      AnswerHeard(d, sent[0]);
      RunConcat(d, AnswerWire(sent[0]), Wires(sent[1..]));
      WiresHeard(Run(d, AnswerWire(sent[0])).next, sent[1..]);
      assert Events(sent) == [AnswerEvent(sent[0])] + Events(sent[1..]);
    }
  }

  lemma NeverAck(a: Answer)
    ensures AnswerEvent(a).kind != ACKED
  {}

  lemma {:induction false} AnsweringDecides(events: seq<Event>)
    requires forall ev | ev in events :: ev.kind != ACKED
    ensures forall ev | ev in Answering(events) :: Decides(ev)
  {
    if events != [] { AnsweringDecides(events[1..]); }
  }

  /** Whatever whole answers and debug frames come in order, those answers are pending, however the
      bytes are cut into reads. */
  lemma AnyCutIsPending(l: Link, sent: seq<Answer>) returns (dues: seq<Due>)
    requires l.dec.state == IDLE && DataOf(l.incoming) == Wires(sent)
    ensures Pending(l, dues) && EventsOf(dues) == Answering(Events(sent))
  {
    dues := Dues(l.dec, l.incoming);
    WiresHeard(l.dec, sent);
    CutDoesNotMatter(l.dec, l.incoming);
    forall i | 0 <= i < |sent| ensures Events(sent)[i].kind != ACKED { NeverAck(sent[i]); }
    AnsweringDecides(Events(sent));
    forall i | 0 <= i < |dues| ensures Decides(dues[i].event) {
      assert EventsOf(dues)[i] in Answering(Events(sent));
    }
  }

  // ---- One read ----

  /** The next `n` answers come with one read. */
  predicate ComeTogether(dues: seq<Due>, n: nat) {
    n <= |dues| && forall i | 0 <= i < n :: dues[i].leads <==> i == 0
  }

  /** The answers a read completes come off the front of those pending, and the first of them leads. */
  lemma ReadCompletes(l: Link, dues: seq<Due>, next: Link, n: nat)
    requires Pending(l, dues) && l.incoming != [] && n == CompletedByRead(l)
    requires next.dec == Run(l.dec, l.incoming[0].data).next && next.incoming == l.incoming[1..]
    ensures ComeTogether(dues, n) && Pending(next, dues[n..])
    ensures n > 0 ==> Answering(Run(l.dec, l.incoming[0].data).events)[0] == dues[0].event
  {
    var batch, later := Batch(Answering(Run(l.dec, l.incoming[0].data).events)), Dues(next.dec, next.incoming);
    assert dues == batch + later && dues[n..] == later;
    forall i | 0 <= i < n ensures dues[i] == batch[i] {}
  }

  lemma AbsorbMoves(l: Link, req: Request)
    requires l.incoming != []
    ensures var next := Absorb(l, req).0;
            && next.dec == Run(l.dec, l.incoming[0].data).next && next.incoming == l.incoming[1..]
            && next.written == l.written
  {}

  lemma {:induction false} ScanAnswering(events: seq<Event>, req: Request)
    requires Answering(events) != [] ==> Classify(Answering(events)[0], req).Some?
    ensures Scan(events, req).outcome == if Answering(events) == [] then None else Classify(Answering(events)[0], req)
  {
    if events != [] && events[0].kind == DEBUG { ScanAnswering(events[1..], req); }
  }

  /** The first answer a read completes decides whatever request waits, and nothing else does. */
  lemma FirstAnswerDecides(l: Link, req: Request, dues: seq<Due>, n: nat)
    requires Pending(l, dues) && l.incoming != [] && n == CompletedByRead(l)
    ensures ComeTogether(dues, n) && Pending(Absorb(l, req).0, dues[n..])
    ensures Absorb(l, req).1 == if n == 0 then None else Some(Decision(dues[0].event, req))
  {
    AbsorbMoves(l, req);
    ReadCompletes(l, dues, Absorb(l, req).0, n);
    ScanAnswering(Run(l.dec, l.incoming[0].data).events, req);
  }

  // ---- One wait ----

  /** A wait that completed the first `n` of these answers took the first of them, which leads; the
      others are lost. If it completed none it timed out. */
  predicate Took(req: Request, dues: seq<Due>, n: nat, o: Outcome)
    requires AllDecide(dues)
  {
    ComeTogether(dues, n) && if n == 0 then o == TimedOut else o == Decision(dues[0].event, req)
  }

  /** A wait takes the first answer of the read that ends it, or times out and takes none. */
  lemma {:induction false} WaitTakesNextAnswer(l: Link, req: Request, remaining: real, dues: seq<Due>, e: Ended, n: nat)
    requires Pending(l, dues) && e == Await(l, req, remaining) && n == CompletedIn(l, req, remaining)
    ensures Took(req, dues, n, e.outcome) && Pending(e.link, dues[n..])
    decreases |l.incoming|
  {
    if remaining <= 0.0 || l.incoming == [] {
      assert dues[0..] == dues;
    } else {
      var (next, o) := Absorb(l, req);
      FirstAnswerDecides(l, req, dues, CompletedByRead(l));
      if CompletedByRead(l) == 0 {
        assert dues[0..] == dues;
        AwaitContinues(l, req, remaining, next);
        WaitTakesNextAnswer(next, req, remaining - l.incoming[0].elapsed, dues, e, n);
      } else {
        AwaitDecides(l, req, remaining, next, o.value);
      }
    }
  }

  // ---- One request ----

  function Completed(waits: seq<Wait>): nat {
    if waits == [] then 0 else waits[0].completed + Completed(waits[1..])
  }

  lemma {:induction false} CompletedConcat(a: seq<Wait>, b: seq<Wait>)
    ensures Completed(a + b) == Completed(a) + Completed(b)
  {
    if a == [] {
      assert a + b == b;
    } else {
      assert (a + b)[1..] == a[1..] + b;
      CompletedConcat(a[1..], b);
    }
  }

  lemma CompletedCons(w: Wait, more: seq<Wait>)
    ensures Completed([w] + more) == w.completed + Completed(more)
  {
    assert ([w] + more)[1..] == more;
  }

  /** The answers a request turned down, or lost together with one it turned down. */
  function TurnedDown(waits: seq<Wait>): nat
    requires waits != []
  {
    Completed(waits[..|waits| - 1])
  }

  predicate AllTimeOrTake(waits: seq<Wait>) {
    forall w | w in waits :: w.outcome.TimedOut? <==> w.completed == 0
  }

  /** The outcome is that of answer number `c`: the first leading answer that the request did not
      turn down, unless its attempts ran out on one that it did. */
  predicate EndsOn(req: Request, dues: seq<Due>, c: nat, o: Outcome)
    requires AllDecide(dues)
  {
    && c < |dues| && dues[c].leads && o == Decision(dues[c].event, req)
    && forall i | 0 <= i < c && dues[i].leads :: Retryable(Decision(dues[i].event, req))
  }

  /** What a request with these waits and this outcome did with the pending answers. */
  predicate Used(req: Request, dues: seq<Due>, waits: seq<Wait>, o: Outcome)
    requires AllDecide(dues)
  {
    && Completed(waits) <= |dues| && AllTimeOrTake(waits)
    && (waits != [] ==> (o.TimedOut? <==> waits[|waits| - 1].completed == 0))
    && (waits != [] && !o.TimedOut? ==> EndsOn(req, dues, TurnedDown(waits), o))
  }

  lemma DecisionEnds(ev: Event, req: Request)
    requires Decides(ev)
    ensures !Decision(ev, req).TimedOut?
  {}

  lemma TookTimesOut(req: Request, dues: seq<Due>, n: nat, o: Outcome)
    requires AllDecide(dues) && Took(req, dues, n, o)
    ensures o.TimedOut? <==> n == 0
  {
    if n > 0 { DecisionEnds(dues[0].event, req); }
  }

  lemma UsedOnce(req: Request, dues: seq<Due>, w: Wait)
    requires AllDecide(dues) && Took(req, dues, w.completed, w.outcome)
    ensures Used(req, dues, [w], w.outcome) && Completed([w]) == w.completed
  {
    CompletedCons(w, []);
    TookTimesOut(req, dues, w.completed, w.outcome);
    assert [w] + [] == [w] && [w][..0] == [];
  }

  /** The answer a later wait ends with comes after those the first wait completed. */
  lemma EndsOnLater(req: Request, dues: seq<Due>, n: nat, first: Outcome, c: nat, o: Outcome)
    requires AllDecide(dues) && Took(req, dues, n, first) && Retryable(first)
    requires AllDecide(dues[n..]) && EndsOn(req, dues[n..], c, o)
    ensures EndsOn(req, dues, n + c, o)
  {
    forall i | 0 <= i < n + c && dues[i].leads ensures Retryable(Decision(dues[i].event, req)) {
      if i >= n { assert dues[n..][i - n] == dues[i]; }
    }
  }

  lemma TurnedDownMore(w: Wait, more: seq<Wait>)
    requires more != []
    ensures TurnedDown([w] + more) == w.completed + TurnedDown(more)
  {
    assert ([w] + more)[..|more|] == [w] + more[..|more| - 1];
    CompletedCons(w, more[..|more| - 1]);
  }

  lemma UsedMore(req: Request, dues: seq<Due>, w: Wait, more: seq<Wait>, o: Outcome)
    requires AllDecide(dues) && Took(req, dues, w.completed, w.outcome) && Retryable(w.outcome)
    requires AllDecide(dues[w.completed..]) && Used(req, dues[w.completed..], more, o) && more != []
    ensures Used(req, dues, [w] + more, o) && Completed([w] + more) == w.completed + Completed(more)
  {
    CompletedCons(w, more);
    TookTimesOut(req, dues, w.completed, w.outcome);
    TurnedDownMore(w, more);
    if !o.TimedOut? { EndsOnLater(req, dues, w.completed, w.outcome, TurnedDown(more), o); }
  }

  lemma DropMore<T>(s: seq<T>, n: nat, m: nat)
    requires n + m <= |s|
    ensures s[n..][m..] == s[n + m..]
  {}

  /** The first wait of a request. */
  lemma FirstWait(l: Link, req: Request, dues: seq<Due>, e: Ended)
    requires Pending(l, dues) && e == Await(Written(l, req), req, req.timeout)
    ensures WaitAfter(l, req).outcome == e.outcome
    ensures Took(req, dues, WaitAfter(l, req).completed, e.outcome)
    ensures Pending(e.link, dues[WaitAfter(l, req).completed..])
  {
    WaitTakesNextAnswer(Written(l, req), req, req.timeout, dues, e, WaitAfter(l, req).completed);
  }

  /** A request with these waits ended so, and left the other answers pending. */
  predicate Answered(req: Request, dues: seq<Due>, waits: seq<Wait>, e: Ended)
    requires AllDecide(dues)
  {
    waits != [] && Used(req, dues, waits, e.outcome) && Pending(e.link, dues[Completed(waits)..])
  }

  lemma AnsweredOnce(req: Request, dues: seq<Due>, w: Wait, e: Ended)
    requires AllDecide(dues) && Took(req, dues, w.completed, w.outcome) && Pending(e.link, dues[w.completed..])
    requires e.outcome == w.outcome
    ensures Answered(req, dues, [w], e)
  {
    UsedOnce(req, dues, w);
  }

  lemma AnsweredLater(req: Request, dues: seq<Due>, w: Wait, more: seq<Wait>, e: Ended)
    requires AllDecide(dues) && Took(req, dues, w.completed, w.outcome) && Retryable(w.outcome)
    requires AllDecide(dues[w.completed..]) && Answered(req, dues[w.completed..], more, e)
    ensures Answered(req, dues, [w] + more, e)
  {
    UsedMore(req, dues, w, more, e.outcome);
    DropMore(dues, w.completed, Completed(more));
  }

  lemma LastTakes(l: Link, req: Request, left: nat, last: Outcome, dues: seq<Due>, e: Ended)
    requires Pending(l, dues) && e == Await(Written(l, req), req, req.timeout)
    requires left == 1 || (left > 0 && !Retryable(e.outcome))
    ensures Answered(req, dues, AttemptWaits(l, req, left), Attempts(l, req, left, last))
  {
    FirstWait(l, req, dues, e);
    AnsweredOnce(req, dues, WaitAfter(l, req), e);
    LastAttempt(l, req, left, last, e);
  }

  lemma LaterTake(l: Link, req: Request, left: nat, last: Outcome, dues: seq<Due>, e: Ended, n: nat,
                  more: seq<Wait>, end: Ended)
    requires Pending(l, dues) && e == Await(Written(l, req), req, req.timeout) && left > 1 && Retryable(e.outcome)
    requires n == WaitAfter(l, req).completed <= |dues| && AllDecide(dues[n..]) && Answered(req, dues[n..], more, end)
    requires more == AttemptWaits(e.link, req, left - 1) && end == Attempts(e.link, req, left - 1, e.outcome)
    ensures Answered(req, dues, AttemptWaits(l, req, left), Attempts(l, req, left, last))
  {
    FirstWait(l, req, dues, e);
    AnsweredLater(req, dues, WaitAfter(l, req), more, end);
    MoreAttempts(l, req, left, last, e);
  }

  /** Whatever the timing, a request ends with the first leading answer that it does not turn down,
      or with its last wait, and leaves the answers after those it completed pending. */
  lemma {:induction false} AttemptsTakeAnswers(l: Link, req: Request, left: nat, last: Outcome, dues: seq<Due>)
    requires Pending(l, dues) && left > 0
    ensures Answered(req, dues, AttemptWaits(l, req, left), Attempts(l, req, left, last))
    decreases left
  {
    var e := Await(Written(l, req), req, req.timeout);
    if left == 1 || !Retryable(e.outcome) {
      LastTakes(l, req, left, last, dues, e);
    } else {
      var n := WaitAfter(l, req).completed;
      FirstWait(l, req, dues, e);
      AttemptsTakeAnswers(e.link, req, left - 1, e.outcome, dues[n..]);
      LaterTake(l, req, left, last, dues, e, n, AttemptWaits(e.link, req, left - 1),
                Attempts(e.link, req, left - 1, e.outcome));
    }
  }

  /** Of the pending answers the first leads its read. */
  lemma {:induction false} FirstLeads(d: Snapshot, incoming: seq<Read>)
    requires Dues(d, incoming) != []
    ensures Dues(d, incoming)[0].leads
    decreases |incoming|
  {
    var out := Run(d, incoming[0].data);
    if Answering(out.events) == [] { FirstLeads(out.next, incoming[1..]); }
  }
}
