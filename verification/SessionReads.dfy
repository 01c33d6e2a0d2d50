/** Which item a record read returns, over whole sessions of reads against a panel that answers
    every write honestly, once and in order, but at any time and cut into reads anyhow. */
module SessionReads {
  import opened Bytes
  import opened Framing
  import opened Session
  import opened SessionTheorems
  import opened SessionWaits
  import opened SessionInStep
  import opened SessionPairing

  // ---- Whose answer a request ends with ----

  /** The number of the answer that request j ended with: those completed before it, and those it
      turned down or lost itself. */
  function AnswerNumber(ws: seq<seq<Wait>>, j: nat): nat
    requires j < |ws| && ws[j] != []
  {
    Completed(Before(ws, j)) + TurnedDown(ws[j])
  }

  /** No answer is completed before its write: the first n waits, which follow the first n writes,
      complete at most n answers. */
  predicate Causal(ws: seq<seq<Wait>>) {
    forall n: nat | n <= Writes(ws) :: Completed(Concat(ws)[..n]) <= n
  }

  /** Its last wait took an answer. */
  predicate GotAnswer(waits: seq<Wait>) {
    waits != [] && waits[|waits| - 1].completed > 0
  }

  lemma CausalBefore(ws: seq<seq<Wait>>, j: nat)
    requires Causal(ws) && j <= |ws|
    ensures |Before(ws, j)| <= Writes(ws) && Completed(Before(ws, j)) <= |Before(ws, j)|
  {
    var n := |Before(ws, j)|;
    BeforePrefix(ws, j);
    assert Concat(ws)[..n] == Before(ws, j);
  }

  lemma BeforePrefix(ws: seq<seq<Wait>>, j: nat)
    requires j <= |ws|
    ensures Before(ws, j) <= Concat(ws)
  {
    if j < |ws| {
      BeforeNext(ws, j);
    } else {
      assert ws[..j] == ws;
    }
  }

  lemma CompletedLast(waits: seq<Wait>)
    requires waits != []
    ensures Completed(waits) == TurnedDown(waits) + waits[|waits| - 1].completed
  {
    var n := |waits| - 1;
    assert waits[..n] + [waits[n]] == waits;
    CompletedConcat(waits[..n], [waits[n]]);
    CompletedCons(waits[n], []);
    assert [waits[n]] + [] == [waits[n]];
  }

  /** The answer that request j ended with is that of a write already made. */
  lemma AnswerIsWritten(ws: seq<seq<Wait>>, j: nat)
    requires j < |ws| && GotAnswer(ws[j]) && Causal(ws)
    ensures AnswerNumber(ws, j) < |Before(ws, j + 1)| <= Writes(ws)
  {
    BeforeNext(ws, j);
    CausalBefore(ws, j + 1);
    CompletedConcat(Before(ws, j), ws[j]);
    CompletedLast(ws[j]);
  }

  /** The request whose write the answer that request j ended with belongs to. */
  function AnsweredRequest(ws: seq<seq<Wait>>, j: nat): (i: nat)
    requires j < |ws| && GotAnswer(ws[j]) && Causal(ws)
    ensures i <= j
  {
    AnswerIsWritten(ws, j);
    OwnerBefore(ws, AnswerNumber(ws, j), j + 1);
    OwnerOf(ws, AnswerNumber(ws, j))
  }

  lemma OwnIfWrittenSince(ws: seq<seq<Wait>>, j: nat)
    requires j < |ws| && GotAnswer(ws[j]) && Causal(ws)
    ensures AnsweredRequest(ws, j) == j <==> |Before(ws, j)| <= AnswerNumber(ws, j)
  {
    AnswerIsWritten(ws, j);
    OwnerBefore(ws, AnswerNumber(ws, j), j);
  }

  function Timeouts(waits: seq<Wait>): nat {
    if waits == [] then 0 else (if waits[0].outcome.TimedOut? then 1 else 0) + Timeouts(waits[1..])
  }

  /** Answers lost because another was completed before them by the same read. */
  function Lost(waits: seq<Wait>): nat {
    if waits == [] then 0
    else (if waits[0].completed == 0 then 0 else waits[0].completed - 1) + Lost(waits[1..])
  }

  lemma {:induction false} WaitsAddUp(waits: seq<Wait>)
    requires AllTimeOrTake(waits)
    ensures Completed(waits) == |waits| - Timeouts(waits) + Lost(waits)
  {
    if waits != [] {
      assert waits[0] in waits;
      WaitsAddUp(waits[1..]);
    }
  }

  /** A request gets an answer of its own if and only if the timeouts before it are no more than the
      answers lost before it and those it turned down or lost itself: that many were late. */
  lemma OwnAnswerIff(ws: seq<seq<Wait>>, j: nat)
    requires j < |ws| && GotAnswer(ws[j]) && Causal(ws) && AllTimeOrTake(Before(ws, j))
    ensures AnsweredRequest(ws, j) == j <==> Timeouts(Before(ws, j)) <= Lost(Before(ws, j)) + TurnedDown(ws[j])
  {
    OwnIfWrittenSince(ws, j);
    WaitsAddUp(Before(ws, j));
  }

  // ---- Sessions of requests ----

  lemma ExchangeTakes(l: Link, req: Request, dues: seq<Due>)
    requires Pending(l, dues) && Sendable(req)
    ensures Answered(req, dues, Waits(l, req), Exchange(l, req))
  {
    AttemptsTakeAnswers(l, req, req.attempts, NoAttempts, dues);
  }

  lemma TimeOrTakeConcat(a: seq<Wait>, b: seq<Wait>)
    requires AllTimeOrTake(a) && AllTimeOrTake(b)
    ensures AllTimeOrTake(a + b)
  {}

  /** These waits complete the first answers and leave the others pending. */
  predicate Leaves(dues: seq<Due>, waits: seq<Wait>, later: Link) {
    Completed(waits) <= |dues| && Pending(later, dues[Completed(waits)..]) && AllTimeOrTake(waits)
  }

  lemma NothingLeft(l: Link, dues: seq<Due>)
    requires Pending(l, dues)
    ensures Leaves(dues, [], l)
  {
    assert dues[0..] == dues;
  }

  lemma LeavesNext(mid: Link, req: Request, dues: seq<Due>, before: seq<Wait>, waits: seq<Wait>)
    requires Leaves(dues, before, mid) && Sendable(req) && waits == Waits(mid, req)
    ensures Leaves(dues, before + waits, Exchange(mid, req).link)
  {
    ExchangeTakes(mid, req, dues[Completed(before)..]);
    CompletedConcat(before, waits);
    TimeOrTakeConcat(before, waits);
    DropMore(dues, Completed(before), Completed(waits));
  }

  /** So do the waits before request j. */
  lemma {:induction false} PendingBefore(l: Link, reqs: seq<Request>, dues: seq<Due>, ws: seq<seq<Wait>>, j: nat)
    requires Pending(l, dues) && j <= |reqs| && AllSendable(reqs) && ws == RunWaits(l, reqs)
    ensures Leaves(dues, Before(ws, j), LinkBefore(l, reqs, j))
  {
    if j == 0 {
      BeforeFirst(ws);
      NothingLeft(l, dues);
    } else {
      assert reqs[j - 1] in reqs;
      RequestAt(l, reqs, j - 1);
      BeforeNext(ws, j - 1);
      PendingBefore(l, reqs, dues, ws, j - 1);
      LeavesNext(LinkBefore(l, reqs, j - 1), reqs[j - 1], dues, Before(ws, j - 1), ws[j - 1]);
    }
  }

  /** The outcome is that of pending answer number `c`: of the leading answers from number `from` on,
      which is one of them, the first that the request did not turn down, or the last it was given. */
  predicate OnAnswer(req: Request, dues: seq<Due>, from: nat, c: nat, o: Outcome)
    requires AllDecide(dues)
  {
    && from <= c < |dues| && dues[from].leads && dues[c].leads && o == Decision(dues[c].event, req)
    && forall i | from <= i < c && dues[i].leads :: Retryable(Decision(dues[i].event, req))
  }

  lemma OnAnswerFrom(req: Request, dues: seq<Due>, from: nat, c: nat, o: Outcome)
    requires AllDecide(dues) && from <= |dues| && AllDecide(dues[from..]) && EndsOn(req, dues[from..], c, o)
    requires dues[from..][0].leads
    ensures OnAnswer(req, dues, from, from + c, o)
  {
    forall i | from <= i < from + c && dues[i].leads ensures Retryable(Decision(dues[i].event, req)) {
      assert dues[from..][i - from] == dues[i];
    }
  }

  lemma PendingLeads(l: Link, dues: seq<Due>)
    requires Pending(l, dues) && dues != []
    ensures dues[0].leads
  {
    FirstLeads(l.dec, l.incoming);
  }

  /** Request j with outcome `o` timed out, or ended with the answer of its number. */
  predicate EndedOn(ws: seq<seq<Wait>>, j: nat, req: Request, dues: seq<Due>, o: Outcome)
    requires j < |ws| && AllDecide(dues)
  {
    && ws[j] != [] && (o.TimedOut? <==> !GotAnswer(ws[j])) && AllTimeOrTake(Before(ws, j))
    && (!o.TimedOut? ==> OnAnswer(req, dues, Completed(Before(ws, j)), AnswerNumber(ws, j), o))
  }

  lemma EndedOnLast(ws: seq<seq<Wait>>, j: nat, req: Request, dues: seq<Due>, mid: Link, e: Ended)
    requires j < |ws| && AllDecide(dues) && Leaves(dues, Before(ws, j), mid)
    requires Answered(req, dues[Completed(Before(ws, j))..], ws[j], e)
    ensures EndedOn(ws, j, req, dues, e.outcome)
  {
    var n := Completed(Before(ws, j));
    if !e.outcome.TimedOut? {
      PendingLeads(mid, dues[n..]);
      OnAnswerFrom(req, dues, n, TurnedDown(ws[j]), e.outcome);
    }
  }

  /** Every request that did not time out ended with the answer of that number. */
  lemma RequestTakesAnswer(l: Link, reqs: seq<Request>, dues: seq<Due>, j: nat)
    requires Pending(l, dues) && j < |reqs| && AllSendable(reqs)
    ensures |RunAll(l, reqs).1| == |reqs|
    ensures EndedOn(RunWaits(l, reqs), j, reqs[j], dues, RunAll(l, reqs).1[j])
  {
    var ws, mid := RunWaits(l, reqs), LinkBefore(l, reqs, j);
    assert reqs[j] in reqs;
    RequestAt(l, reqs, j);
    PendingBefore(l, reqs, dues, ws, j);
    ExchangeTakes(mid, reqs[j], dues[Completed(Before(ws, j))..]);
    EndedOnLast(ws, j, reqs[j], dues, mid, Exchange(mid, reqs[j]));
  }

  // ---- What is written ----

  /** The frames that a session writes, in order. */
  function FramesWritten(l: Link, reqs: seq<Request>): seq<seq<byte>>
    requires AllSendable(reqs)
  {
    SessionWrites(l, reqs, RunWaits(l, reqs), RunAll(l, reqs).0);
    RunAll(l, reqs).0.written[|l.written|..]
  }

  lemma FramesAreOwners(l: Link, reqs: seq<Request>, k: nat)
    requires AllSendable(reqs) && k < Writes(RunWaits(l, reqs))
    ensures k < |FramesWritten(l, reqs)|
    ensures FramesWritten(l, reqs)[k] == Wire(reqs[OwnerOf(RunWaits(l, reqs), k)].body)
  {
    WriteIsOwners(l, reqs, k);
  }

  // ---- Reads from an honest panel ----

  /** Where a record lives: its opcode, sub-code and item. */
  datatype Address = Address(opcode: byte, sub: byte, item: int)

  predicate Valid(at: Address) { 0 <= at.item <= 0xFFFF }

  /** The address in the first four bytes of a body. */
  function AddressIn(body: seq<byte>): Address
    requires |body| >= 4
  {
    Address(body[0], body[1], body[2] as int * 256 + body[3] as int)
  }

  function RequestOf(at: Address): (r: Request)
    requires Valid(at)
    ensures Sendable(r)
  {
    ReadRequest(at.opcode, Header(at.opcode, at.sub, at.item).value)
  }

  lemma AddressOfRequest(at: Address)
    requires Valid(at)
    ensures |RequestOf(at).body| >= 4 && AddressIn(RequestOf(at).body) == at
  {
    HeaderNamesItem(at.opcode, at.sub, at.item);
  }

  function Requests(asked: seq<Address>): (r: seq<Request>)
    requires forall at | at in asked :: Valid(at)
    ensures |r| == |asked| && forall j | 0 <= j < |asked| :: r[j] == RequestOf(asked[j])
    ensures AllSendable(r)
  {
    seq(|asked|, j requires 0 <= j < |asked| => RequestOf(asked[j]))
  }

  /** What the panel holds; every record of an opcode has the size read for it. */
  type Memory = Address -> seq<byte>

  ghost predicate Sized(memory: Memory, size: byte -> nat) {
    forall at :: |memory(at)| == size(at.opcode)
  }

  /** An intact reply that does not hang up. */
  predicate Intact(ev: Event) {
    ev.kind == MESSAGE && ev.body != [] && !(|ev.body| >= 2 && ev.body[0] == 0x7F && ev.body[1] == 0x01)
  }

  /** An answer to a read: if it is an intact reply at all, it echoes the opcode and carries, after four
      bytes, what the panel holds there. Damaged frames and NAKs are honest too. */
  predicate Honest(ev: Event, at: Address, memory: Memory) {
    Intact(ev) ==>
      && ev.body[0] == at.opcode && |ev.body| >= 4 + |memory(at)|
      && ev.body[4..4 + |memory(at)|] == memory(at)
  }

  /** The k-th answer is honest for the address in the body of the k-th frame written. */
  ghost predicate HonestPanel(frames: seq<seq<byte>>, answers: seq<Event>, memory: Memory) {
    forall k, body | 0 <= k < |frames| && k < |answers| && |body| >= 4 && frames[k] == Wire(body) ::
      Honest(answers[k], AddressIn(body), memory)
  }

  function FetchedFrom(o: Outcome, size: nat): Fetched {
    if o.Reply? then Slice(o.body, size) else Failed(o)
  }

  lemma FetchIs(l: Link, at: Address, size: nat)
    requires Valid(at)
    ensures var e := Exchange(l, RequestOf(at));
            Fetch(l, at.opcode, at.sub, at.item, size) == (e.link, FetchedFrom(e.outcome, size))
  {}

  function FetchedAll(outcomes: seq<Outcome>, asked: seq<Address>, size: byte -> nat): (r: seq<Fetched>)
    requires |outcomes| == |asked|
    ensures |r| == |asked|
  {
    seq(|asked|, j requires 0 <= j < |asked| => FetchedFrom(outcomes[j], size(asked[j].opcode)))
  }

  lemma FetchedAllFirst(o: Outcome, more: seq<Outcome>, asked: seq<Address>, size: byte -> nat)
    requires |asked| == 1 + |more|
    ensures FetchedAll([o] + more, asked, size) ==
            [FetchedFrom(o, size(asked[0].opcode))] + FetchedAll(more, asked[1..], size)
  {}

  /** A session of record reads: what each returns, and how each of its waits ended. */
  function ReadAll(l: Link, asked: seq<Address>, size: byte -> nat): (r: seq<Fetched>)
    requires forall at | at in asked :: Valid(at)
    ensures |r| == |asked|
  {
    OutcomeEach(l, Requests(asked));
    FetchedAll(RunAll(l, Requests(asked)).1, asked, size)
  }

  function ReadWaits(l: Link, asked: seq<Address>): (r: seq<seq<Wait>>)
    requires forall at | at in asked :: Valid(at)
    ensures |r| == |asked|
  {
    RunWaits(l, Requests(asked))
  }

  /** It is one `read_record` after the other. */
  lemma ReadAllFirst(l: Link, asked: seq<Address>, size: byte -> nat)
    requires (forall at | at in asked :: Valid(at)) && asked != []
    ensures forall at | at in asked[1..] :: Valid(at)
    ensures var at := asked[0];
            var (next, f) := Fetch(l, at.opcode, at.sub, at.item, size(at.opcode));
            ReadAll(l, asked, size) == [f] + ReadAll(next, asked[1..], size)
  {
    var at := asked[0];
    var e := Exchange(l, RequestOf(at));
    FetchIs(l, at, size(at.opcode));
    assert Requests(asked)[1..] == Requests(asked[1..]);
    RunAllFirst(l, Requests(asked), e);
    OutcomeEach(e.link, Requests(asked[1..]));
    FetchedAllFirst(e.outcome, RunAll(e.link, Requests(asked[1..])).1, asked, size);
  }

  /** A session of reads whose answers come honestly, once per write and in order, at any time. */
  ghost predicate OrderlySession(l: Link, asked: seq<Address>, dues: seq<Due>, memory: Memory, size: byte -> nat) {
    && (forall at | at in asked :: Valid(at))
    && Pending(l, dues) && Causal(ReadWaits(l, asked))
    && HonestPanel(FramesWritten(l, Requests(asked)), EventsOf(dues), memory)
    && Sized(memory, size)
  }

  lemma DecisionOfReply(ev: Event, req: Request)
    requires Decides(ev) && Decision(ev, req).Reply?
    ensures Intact(ev) && Decision(ev, req) == Reply(ev.body) && ev.body[0] as int == req.expected
  {}

  /** An honest answer that ends a read carries what is held at the address it was given for. */
  lemma HonestReply(ev: Event, given: Address, at: Address, memory: Memory, size: byte -> nat)
    requires Decides(ev) && Valid(at) && Honest(ev, given, memory) && Sized(memory, size)
    requires FetchedFrom(Decision(ev, RequestOf(at)), size(at.opcode)).Data?
    ensures given.opcode == at.opcode
    ensures FetchedFrom(Decision(ev, RequestOf(at)), size(at.opcode)) == Data(memory(given))
  {
    DecisionOfReply(ev, RequestOf(at));
  }

  /** The k-th answer is honest for the item whose read made the k-th write. */
  lemma HonestForOwner(l: Link, asked: seq<Address>, dues: seq<Due>, memory: Memory, size: byte -> nat, k: nat)
    requires OrderlySession(l, asked, dues, memory, size) && k < Writes(ReadWaits(l, asked)) && k < |dues|
    ensures Honest(dues[k].event, asked[OwnerOf(ReadWaits(l, asked), k)], memory)
  {
    var owner := OwnerOf(ReadWaits(l, asked), k);
    assert asked[owner] in asked;
    FramesAreOwners(l, Requests(asked), k);
    AddressOfRequest(asked[owner]);
    assert EventsOf(dues)[k] == dues[k].event;
  }

  lemma ReadEnds(l: Link, asked: seq<Address>, dues: seq<Due>, size: byte -> nat, j: nat) returns (o: Outcome)
    requires (forall at | at in asked :: Valid(at)) && Pending(l, dues) && j < |asked|
    ensures EndedOn(ReadWaits(l, asked), j, RequestOf(asked[j]), dues, o)
    ensures ReadAll(l, asked, size)[j] == FetchedFrom(o, size(asked[j].opcode))
  {
    OutcomeEach(l, Requests(asked));
    RequestTakesAnswer(l, Requests(asked), dues, j);
    o := RunAll(l, Requests(asked)).1[j];
  }

  /** A read that returns data returns what the panel holds at the address of the read whose write
      that answer belongs to, this one or an earlier one. */
  lemma ReadTakesItemOf(l: Link, asked: seq<Address>, dues: seq<Due>, memory: Memory, size: byte -> nat, j: nat)
    requires OrderlySession(l, asked, dues, memory, size) && j < |asked|
    requires ReadAll(l, asked, size)[j].Data?
    ensures var ws := ReadWaits(l, asked);
            && GotAnswer(ws[j])
            && ReadAll(l, asked, size)[j] == Data(memory(asked[AnsweredRequest(ws, j)]))
  {
    var ws := ReadWaits(l, asked);
    var o := ReadEnds(l, asked, dues, size, j);
    AnswerIsWritten(ws, j);
    var c := AnswerNumber(ws, j);
    assert asked[j] in asked;
    HonestForOwner(l, asked, dues, memory, size, c);
    HonestReply(dues[c].event, asked[OwnerOf(ws, c)], asked[j], memory, size);
  }

  /** A request turns down damaged frames, NAKs, and intact replies with another opcode. */
  predicate TurnsDown(ev: Event, req: Request) {
    ev.kind == CRC_ERROR || ev.kind == NAKED || (Intact(ev) && ev.body[0] as int != req.expected)
  }

  lemma TurnsDownIs(ev: Event, req: Request)
    requires Decides(ev)
    ensures Retryable(Decision(ev, req)) <==> TurnsDown(ev, req)
  {}

  /** Request j turns down every late answer that it may be given: those not completed before it,
      of writes made before it, that are the first their read completes. */
  predicate TurnsDownLate(ws: seq<seq<Wait>>, j: nat, req: Request, dues: seq<Due>)
    requires j < |ws|
  {
    forall i | Completed(Before(ws, j)) <= i < |Before(ws, j)| && i < |dues| && dues[i].leads ::
      TurnsDown(dues[i].event, req)
  }

  lemma OwnIfLateTurnedDown(ws: seq<seq<Wait>>, j: nat, req: Request, dues: seq<Due>, o: Outcome)
    requires j < |ws| && AllDecide(dues) && Causal(ws) && EndedOn(ws, j, req, dues, o) && o.Reply?
    ensures GotAnswer(ws[j])
    ensures AnsweredRequest(ws, j) == j <==> TurnsDownLate(ws, j, req, dues)
  {
    OwnIfWrittenSince(ws, j);
    forall i | 0 <= i < |dues| ensures Retryable(Decision(dues[i].event, req)) <==> TurnsDown(dues[i].event, req) {
      TurnsDownIs(dues[i].event, req);
    }
    assert !TurnsDown(dues[AnswerNumber(ws, j)].event, req);
  }

  /** A read that returns data returns the item asked for, whatever the panel holds, if every late
      answer it may be given is one that it turns down; in particular while none is late. */
  lemma ReadReturnsItemAskedFor(l: Link, asked: seq<Address>, dues: seq<Due>, memory: Memory, size: byte -> nat,
                                j: nat)
    requires OrderlySession(l, asked, dues, memory, size) && j < |asked|
    requires TurnsDownLate(ReadWaits(l, asked), j, RequestOf(asked[j]), dues)
    ensures var f := ReadAll(l, asked, size)[j]; f.Data? ==> f.raw == memory(asked[j])
  {
    if ReadAll(l, asked, size)[j].Data? {
      ReadTakesItemOf(l, asked, dues, memory, size, j);
      var o := ReadEnds(l, asked, dues, size, j);
      OwnIfLateTurnedDown(ReadWaits(l, asked), j, RequestOf(asked[j]), dues, o);
    }
  }

  /** And only then, for a panel that holds different records at different places: otherwise the
      data is an earlier item's. */
  lemma ReadReturnsOwnItemIff(l: Link, asked: seq<Address>, dues: seq<Due>, memory: Memory, size: byte -> nat,
                              j: nat)
    requires OrderlySession(l, asked, dues, memory, size) && j < |asked|
    requires forall i | 0 <= i < j :: memory(asked[i]) != memory(asked[j])
    requires ReadAll(l, asked, size)[j].Data?
    ensures ReadAll(l, asked, size)[j].raw == memory(asked[j]) <==>
            TurnsDownLate(ReadWaits(l, asked), j, RequestOf(asked[j]), dues)
  {
    ReadTakesItemOf(l, asked, dues, memory, size, j);
    var o := ReadEnds(l, asked, dues, size, j);
    OwnIfLateTurnedDown(ReadWaits(l, asked), j, RequestOf(asked[j]), dues, o);
  }

  // ---- One table: no answer is ever turned down ----

  /** Every answer is an intact reply to this request. */
  predicate AlwaysReplies(req: Request, dues: seq<Due>) {
    forall i | 0 <= i < |dues| :: Intact(dues[i].event) && dues[i].event.body[0] as int == req.expected
  }

  lemma NoneLateIff(ws: seq<seq<Wait>>, j: nat, req: Request, dues: seq<Due>, o: Outcome)
    requires j < |ws| && AllDecide(dues) && Causal(ws) && EndedOn(ws, j, req, dues, o) && o.Reply?
    requires AlwaysReplies(req, dues)
    ensures TurnsDownLate(ws, j, req, dues) <==> Timeouts(Before(ws, j)) == Lost(Before(ws, j))
  {
    CausalBefore(ws, j);
    WaitsAddUp(Before(ws, j));
  }

  /** So when every answer is an intact reply to it, as in reads of one opcode, a read returns its own
      item if and only if each timeout before it was made up for by an answer lost before it. */
  lemma UniformReadsIff(l: Link, asked: seq<Address>, dues: seq<Due>, memory: Memory, size: byte -> nat, j: nat)
    requires OrderlySession(l, asked, dues, memory, size) && j < |asked|
    requires AlwaysReplies(RequestOf(asked[j]), dues)
    requires forall i | 0 <= i < j :: memory(asked[i]) != memory(asked[j])
    requires ReadAll(l, asked, size)[j].Data?
    ensures ReadAll(l, asked, size)[j].raw == memory(asked[j]) <==>
            Timeouts(Before(ReadWaits(l, asked), j)) == Lost(Before(ReadWaits(l, asked), j))
  {
    ReadReturnsOwnItemIff(l, asked, dues, memory, size, j);
    var o := ReadEnds(l, asked, dues, size, j);
    NoneLateIff(ReadWaits(l, asked), j, RequestOf(asked[j]), dues, o);
  }

  // ---- Answers in reads of their own: none is lost ----

  predicate AllLead(dues: seq<Due>) {
    forall i | 0 <= i < |dues| :: dues[i].leads
  }

  lemma {:induction false} LostConcat(a: seq<Wait>, b: seq<Wait>)
    ensures Lost(a + b) == Lost(a) + Lost(b)
  {
    if a == [] {
      assert a + b == b;
    } else {
      assert (a + b)[1..] == a[1..] + b;
      LostConcat(a[1..], b);
    }
  }

  lemma OneWaitLosesNone(req: Request, dues: seq<Due>, w: Wait, more: seq<Wait>)
    requires AllDecide(dues) && Took(req, dues, w.completed, w.outcome) && AllLead(dues) && Lost(more) == 0
    ensures Lost([w] + more) == 0
  {
    assert ([w] + more)[1..] == more;
    if w.completed > 0 { assert dues[w.completed - 1].leads; }
  }

  lemma {:induction false} AttemptsLoseNone(l: Link, req: Request, left: nat, dues: seq<Due>)
    requires Pending(l, dues) && AllLead(dues)
    ensures Lost(AttemptWaits(l, req, left)) == 0
    decreases left
  {
    if left > 0 {
      var e, w := Await(Written(l, req), req, req.timeout), WaitAfter(l, req);
      FirstWait(l, req, dues, e);
      if left == 1 || !Retryable(e.outcome) {
        LastAttempt(l, req, left, NoAttempts, e);
        assert [w] + [] == [w];
        OneWaitLosesNone(req, dues, w, []);
      } else {
        AttemptsLoseNone(e.link, req, left - 1, dues[w.completed..]);
        MoreAttempts(l, req, left, NoAttempts, e);
        OneWaitLosesNone(req, dues, w, AttemptWaits(e.link, req, left - 1));
      }
    }
  }

  lemma ExchangeLosesNone(mid: Link, req: Request, dues: seq<Due>, before: seq<Wait>)
    requires AllDecide(dues) && AllLead(dues) && Leaves(dues, before, mid) && Sendable(req)
    ensures Lost(Waits(mid, req)) == 0
  {
    AttemptsLoseNone(mid, req, req.attempts, dues[Completed(before)..]);
  }

  lemma {:induction false} SessionLosesNone(l: Link, reqs: seq<Request>, dues: seq<Due>, ws: seq<seq<Wait>>, j: nat)
    requires Pending(l, dues) && AllLead(dues) && AllSendable(reqs) && ws == RunWaits(l, reqs) && j <= |reqs|
    ensures Lost(Before(ws, j)) == 0
  {
    if j == 0 {
      BeforeFirst(ws);
    } else {
      var mid, req, before := LinkBefore(l, reqs, j - 1), reqs[j - 1], Before(ws, j - 1);
      assert req in reqs;
      RequestAt(l, reqs, j - 1);
      PendingBefore(l, reqs, dues, ws, j - 1);
      BeforeNext(ws, j - 1);
      SessionLosesNone(l, reqs, dues, ws, j - 1);
      ExchangeLosesNone(mid, req, dues, before);
      LostConcat(before, ws[j - 1]);
    }
  }

  /** And when no read completes two answers, if and only if no wait before it timed out. */
  lemma SeparateReadsIff(l: Link, asked: seq<Address>, dues: seq<Due>, memory: Memory, size: byte -> nat, j: nat)
    requires OrderlySession(l, asked, dues, memory, size) && j < |asked|
    requires AlwaysReplies(RequestOf(asked[j]), dues) && AllLead(dues)
    requires forall i | 0 <= i < j :: memory(asked[i]) != memory(asked[j])
    requires ReadAll(l, asked, size)[j].Data?
    ensures ReadAll(l, asked, size)[j].raw == memory(asked[j]) <==> Timeouts(Before(ReadWaits(l, asked), j)) == 0
  {
    UniformReadsIff(l, asked, dues, memory, size, j);
    SessionLosesNone(l, Requests(asked), dues, ReadWaits(l, asked), j);
  }

  // ---- Every answer in time: none is late ----

  function AnswersOf(ds: seq<Delivery>): (r: seq<Answer>)
    ensures |r| == |ds|
  {
    seq(|ds|, i requires 0 <= i < |ds| => ds[i].answer)
  }

  lemma {:induction false} DeliveriesCarryWires(ds: seq<Delivery>, within: real)
    requires forall k | 0 <= k < |ds| :: InTime(ds[k], within)
    ensures DataOf(ReadsOf(ds)) == Wires(AnswersOf(ds))
  {
    if ds != [] {
      GroupCarries(ds[0], within);
      DataOfConcat(ds[0].group, ReadsOf(ds[1..]));
      DeliveriesCarryWires(ds[1..], within);
      WiresFirst(ds);
    }
  }

  lemma GroupCarries(d: Delivery, within: real)
    requires InTime(d, within)
    ensures DataOf(d.group) == AnswerWire(d.answer)
  {}

  lemma WiresFirst(ds: seq<Delivery>)
    requires ds != []
    ensures Wires(AnswersOf(ds)) == AnswerWire(ds[0].answer) + Wires(AnswersOf(ds[1..]))
  {
    assert AnswersOf(ds)[1..] == AnswersOf(ds[1..]);
  }

  lemma {:induction false} AllAnswering(events: seq<Event>)
    requires forall i | 0 <= i < |events| :: events[i].kind != DEBUG
    ensures Answering(events) == events
  {
    if events != [] { AllAnswering(events[1..]); }
  }

  lemma InStepIsPending(l: Link, ds: seq<Delivery>, within: real) returns (dues: seq<Due>)
    requires InStep(l, ds, within)
    ensures Pending(l, dues) && EventsOf(dues) == Events(AnswersOf(ds)) && |dues| == |ds|
  {
    DeliveriesCarryWires(ds, within);
    dues := AnyCutIsPending(l, AnswersOf(ds));
    forall i | 0 <= i < |ds| ensures Events(AnswersOf(ds))[i].kind != DEBUG { assert InTime(ds[i], within); }
    AllAnswering(Events(AnswersOf(ds)));
  }

  predicate EachTookOne(waits: seq<Wait>) {
    forall i | 0 <= i < |waits| :: waits[i].completed == 1
  }

  lemma {:induction false} TookOneEach(waits: seq<Wait>)
    requires EachTookOne(waits)
    ensures Completed(waits) == |waits|
  {
    if waits != [] { TookOneEach(waits[1..]); }
  }

  /** In step, a wait completes the one answer it is given. */
  lemma WaitTakesOne(l: Link, req: Request, ds: seq<Delivery>, within: real, e: Ended)
    requires InStep(l, ds, within) && within <= req.timeout && ds != []
    requires e == Await(Written(l, req), req, req.timeout)
    ensures WaitAfter(l, req).completed == 1 && InStep(e.link, ds[1..], within)
  {
    var dues := InStepIsPending(l, ds, within);
    FirstWait(l, req, dues, e);
    FirstInStep(l, req, ds, within, e);
    var later := InStepIsPending(e.link, ds[1..], within);
    assert later == dues[WaitAfter(l, req).completed..];
  }

  lemma {:induction false} AttemptsTakeOne(l: Link, req: Request, left: nat, ds: seq<Delivery>, within: real)
    requires InStep(l, ds, within) && within <= req.timeout && left > 0 && |AttemptWaits(l, req, left)| <= |ds|
    ensures EachTookOne(AttemptWaits(l, req, left))
    decreases left
  {
    var e := Await(Written(l, req), req, req.timeout);
    AttemptWaitsUnfold(l, req, left, e);
    WaitTakesOne(l, req, ds, within, e);
    if left == 1 || !Retryable(e.outcome) {
      LastAttempt(l, req, left, NoAttempts, e);
    } else {
      AttemptsTakeOne(e.link, req, left - 1, ds[1..], within);
    }
  }

  lemma {:induction false} SessionTakesOne(l: Link, reqs: seq<Request>, ds: seq<Delivery>, within: real,
                                           ws: seq<seq<Wait>>)
    requires InStep(l, ds, within) && AllWait(reqs, within) && ws == RunWaits(l, reqs) && Writes(ws) <= |ds|
    ensures EachTookOne(Concat(ws))
    decreases |reqs|
  {
    if reqs != [] {
      var e, first := Exchange(l, reqs[0]), Waits(l, reqs[0]);
      WaitParts(reqs, within);
      RunAllFirst(l, reqs, e);
      ConcatTwo(first, RunWaits(e.link, reqs[1..]));
      AttemptsTakeOne(l, reqs[0], reqs[0].attempts, ds, within);
      LeavesInStep(l, reqs[0], ds, within, |first|);
      SessionTakesOne(e.link, reqs[1..], ds[|first|..], within, RunWaits(e.link, reqs[1..]));
    }
  }

  lemma NeverLate(ws: seq<seq<Wait>>, j: nat, req: Request, dues: seq<Due>)
    requires j < |ws| && EachTookOne(Concat(ws)) && AllDecide(dues)
    ensures Causal(ws) && TurnsDownLate(ws, j, req, dues)
  {
    forall n: nat | n <= Writes(ws) ensures Completed(Concat(ws)[..n]) <= n {
      TookOneEach(Concat(ws)[..n]);
    }
    BeforePrefix(ws, j);
    assert Before(ws, j) == Concat(ws)[..|Before(ws, j)|];
    TookOneEach(Before(ws, j));
  }

  lemma ReadsWait(asked: seq<Address>, within: real)
    requires (forall at | at in asked :: Valid(at)) && within <= 0.8
    ensures AllWait(Requests(asked), within)
  {}

  /** Hence when every write is answered honestly before its deadline, every read that returns data
      returns the item asked for. */
  lemma TimelyReadReturnsItem(l: Link, asked: seq<Address>, ds: seq<Delivery>, within: real, memory: Memory,
                              size: byte -> nat, j: nat)
    requires (forall at | at in asked :: Valid(at)) && j < |asked| && Sized(memory, size)
    requires InStep(l, ds, within) && within <= 0.8 && Writes(ReadWaits(l, asked)) <= |ds|
    requires HonestPanel(FramesWritten(l, Requests(asked)), Events(AnswersOf(ds)), memory)
    ensures var f := ReadAll(l, asked, size)[j]; f.Data? ==> f.raw == memory(asked[j])
  {
    var ws := ReadWaits(l, asked);
    var dues := InStepIsPending(l, ds, within);
    ReadsWait(asked, within);
    SessionTakesOne(l, Requests(asked), ds, within, ws);
    NeverLate(ws, j, RequestOf(asked[j]), dues);
    ReadReturnsItemAskedFor(l, asked, dues, memory, size, j);
  }
}
