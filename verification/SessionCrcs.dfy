/** Whose CRC a `record_crc` returns, over whole sessions of record reads and CRC requests against a panel
    that answers every write once and in order, but at any time and cut into reads anyhow
    (src/elk_programmer/protocol/session.py, messages.py). */
module SessionCrcs {
  import opened Bytes
  import opened Framing
  import opened Session
  import opened SessionTheorems
  import opened SessionWaits
  import opened SessionInStep
  import opened SessionPairing
  import opened SessionReads
  import Crc

  // ---- Calls ----

  /** A read of a record, or a request for the CRC of one: the opcode of its table and its item. */
  datatype Call = ReadCall(at: Address) | CrcCall(record: byte, item: int)

  predicate Callable(call: Call) {
    match call
    case ReadCall(at) => Valid(at)
    case CrcCall(_, item) => 0 <= item <= 0xFFFF
  }

  predicate AllCallable(calls: seq<Call>) {
    forall c | c in calls :: Callable(c)
  }

  function CrcRequest(record: byte, item: int): (r: Request)
    requires 0 <= item <= 0xFFFF
    ensures Sendable(r)
  {
    ReadRequest(GROUP_CRC, Header(GROUP_CRC, record, item).value)
  }

  function CallRequest(call: Call): (r: Request)
    requires Callable(call)
    ensures Sendable(r)
  {
    match call
    case ReadCall(at) => RequestOf(at)
    case CrcCall(record, item) => CrcRequest(record, item)
  }

  function CallRequests(calls: seq<Call>): (r: seq<Request>)
    requires AllCallable(calls)
    ensures |r| == |calls| && forall j | 0 <= j < |calls| :: r[j] == CallRequest(calls[j])
    ensures AllSendable(r)
  {
    seq(|calls|, j requires 0 <= j < |calls| => CallRequest(calls[j]))
  }

  /** The body that asks for a CRC is 7E, the table's opcode, and the item in two bytes. */
  lemma CrcBody(record: byte, item: int)
    requires 0 <= item <= 0xFFFF
    ensures var body := CrcRequest(record, item).body;
            |body| == 4 && body[0] == 0x7E && body[1] == record && body[2] as int * 256 + body[3] as int == item
  {
    HeaderNamesItem(GROUP_CRC, record, item);
  }

  /** Whatever the transport does, a CRC request for an item of sixteen bits writes the frame of that
      body between once and four times, and less than four times only if it ended otherwise than with a
      timeout or a wrong reply; for any other item it writes nothing. */
  lemma CrcWrites(l: Link, record: byte, item: int) returns (body: seq<byte>, n: nat)
    ensures 0 <= item <= 0xFFFF <==> n > 0
    ensures n <= 4 && FetchCrc(l, record, item).0.written == l.written + Repeat(Wire(body), n)
    ensures n > 0 ==>
              && |body| == 4 && body[0] == 0x7E && body[1] == record
              && body[2] as int * 256 + body[3] as int == item
    ensures 0 < n < 4 ==> Exchange(l, CrcRequest(record, item)).outcome !in {TimedOut, WrongReply}
    ensures n == 0 ==> FetchCrc(l, record, item) == (l, BadCrcItem)
  {
    body, n := [], 0;
    if 0 <= item <= 0xFFFF {
      CrcBody(record, item);
      body := CrcRequest(record, item).body;
      n := ExchangeWrites(l, CrcRequest(record, item));
    } else {
      assert l.written + Repeat(Wire(body), 0) == l.written;
    }
  }

  // ---- A panel that tells the CRC of what it holds ----

  /** What the panel has stored, by the opcode of the table and the item. */
  type Store = (byte, int) -> seq<byte>

  /** The fifth and sixth byte of a reply that has them are the CRC of these bytes, high byte first. */
  predicate CarriesCrc(reply: seq<byte>, stored: seq<byte>) {
    |reply| >= 6 ==>
      && reply[4] == (Crc.Crc16(stored, 0) >> 8) as byte
      && reply[5] == (Crc.Crc16(stored, 0) & 0xFF) as byte
  }

  /** An intact reply echoes the opcode of the body it answers; if that asks for a CRC, it carries that of
      what is stored at the table and item in the body. */
  predicate Tells(ev: Event, body: seq<byte>, store: Store)
    requires |body| >= 4
  {
    Intact(ev) ==>
      && ev.body[0] == body[0]
      && (body[0] == 0x7E ==> CarriesCrc(ev.body, store(body[1], body[2] as int * 256 + body[3] as int)))
  }

  /** The k-th answer tells what the body of the k-th frame written asks for. */
  ghost predicate TellingPanel(frames: seq<seq<byte>>, answers: seq<Event>, store: Store) {
    forall k, body | 0 <= k < |frames| && k < |answers| && |body| >= 4 && frames[k] == Wire(body) ::
      Tells(answers[k], body, store)
  }

  /** A session of calls whose answers come so, once per write and in order, at any time. */
  ghost predicate OrderlyCalls(l: Link, calls: seq<Call>, dues: seq<Due>, store: Store) {
    && AllCallable(calls)
    && Pending(l, dues) && Causal(RunWaits(l, CallRequests(calls)))
    && TellingPanel(FramesWritten(l, CallRequests(calls)), EventsOf(dues), store)
  }

  function CallWaits(l: Link, calls: seq<Call>): (r: seq<seq<Wait>>)
    requires AllCallable(calls)
    ensures |r| == |calls|
  {
    RunWaits(l, CallRequests(calls))
  }

  /** The link as call j finds it. */
  function LinkAt(l: Link, calls: seq<Call>, j: nat): Link
    requires AllCallable(calls) && j <= |calls|
  {
    LinkBefore(l, CallRequests(calls), j)
  }

  // ---- The answer taken ----

  lemma CallEnds(l: Link, calls: seq<Call>, dues: seq<Due>, j: nat)
    requires AllCallable(calls) && Pending(l, dues) && j < |calls|
    ensures EndedOn(CallWaits(l, calls), j, CallRequest(calls[j]), dues,
                    Exchange(LinkAt(l, calls, j), CallRequest(calls[j])).outcome)
  {
    RequestTakesAnswer(l, CallRequests(calls), dues, j);
    RequestAt(l, CallRequests(calls), j);
  }

  lemma TellsForOwner(l: Link, calls: seq<Call>, dues: seq<Due>, store: Store, k: nat)
    requires OrderlyCalls(l, calls, dues, store) && k < Writes(CallWaits(l, calls)) && k < |dues|
    ensures Callable(calls[OwnerOf(CallWaits(l, calls), k)])
    ensures var body := CallRequest(calls[OwnerOf(CallWaits(l, calls), k)]).body;
            |body| >= 4 && Tells(dues[k].event, body, store)
  {
    var owner := OwnerOf(CallWaits(l, calls), k);
    assert calls[owner] in calls;
    FramesAreOwners(l, CallRequests(calls), k);
    BodyHasFour(calls[owner]);
    assert EventsOf(dues)[k] == dues[k].event;
  }

  lemma BodyHasFour(call: Call)
    requires Callable(call)
    ensures |CallRequest(call).body| >= 4
    ensures call.ReadCall? ==> CallRequest(call).body[0] == call.at.opcode
  {
    if call.ReadCall? { AddressOfRequest(call.at); }
  }

  lemma JoinHalves(crc: bv16)
    ensures JoinBytes((crc >> 8) as byte, (crc & 0xFF) as byte) == crc
  {}

  lemma CrcRead(body: seq<byte>, stored: seq<byte>)
    requires CarriesCrc(body, stored)
    ensures CrcOf(body) == if |body| >= 6 then PanelCrc(Crc.Crc16(stored, 0)) else NoCrc(WrongReply)
  {
    JoinHalves(Crc.Crc16(stored, 0));
  }

  /** An intact reply to the body of a CRC request tells that CRC. */
  lemma CrcTold(ev: Event, record: byte, item: int, store: Store, req: Request)
    requires Decides(ev) && Decision(ev, req).Reply? && req.expected == 0x7E && 0 <= item <= 0xFFFF
    requires Tells(ev, CrcRequest(record, item).body, store)
    ensures var got := CrcOf(Decision(ev, req).body);
            got.PanelCrc? ==> got.crc == Crc.Crc16(store(record, item), 0)
  {
    CrcBody(record, item);
    DecisionOfReply(ev, req);
    CrcRead(ev.body, store(record, item));
  }

  /** The answer to a read is no reply to a CRC request. */
  lemma ReadTurnedDown(ev: Event, at: Address, store: Store, req: Request)
    requires Decides(ev) && Valid(at) && at.opcode != 0x7E && req.expected == 0x7E
    requires Tells(ev, RequestOf(at).body, store)
    ensures !Decision(ev, req).Reply?
  {
    AddressOfRequest(at);
    if Decision(ev, req).Reply? { DecisionOfReply(ev, req); }
  }

  /** Records are not read with the opcode of CRC requests. */
  predicate ProperReads(calls: seq<Call>) {
    forall c | c in calls && c.ReadCall? :: c.at.opcode != 0x7E
  }

  /** The CRC that call j returned, if it did, is that of what is stored for the CRC request whose write
      the answer it took belongs to, this one or an earlier one. */
  lemma CrcIsOfWrite(l: Link, calls: seq<Call>, dues: seq<Due>, store: Store, j: nat) returns (i: nat)
    requires OrderlyCalls(l, calls, dues, store) && ProperReads(calls) && j < |calls| && calls[j].CrcCall?
    requires FetchCrc(LinkAt(l, calls, j), calls[j].record, calls[j].item).1.PanelCrc?
    ensures var ws := CallWaits(l, calls);
            GotAnswer(ws[j]) && i == AnsweredRequest(ws, j) <= j && calls[i].CrcCall?
    ensures FetchCrc(LinkAt(l, calls, j), calls[j].record, calls[j].item).1.crc ==
            Crc.Crc16(store(calls[i].record, calls[i].item), 0)
  {
    var ws := CallWaits(l, calls);
    assert calls[j] in calls;
    var req := CallRequest(calls[j]);
    CallEnds(l, calls, dues, j);
    AnswerIsWritten(ws, j);
    var c := AnswerNumber(ws, j);
    i := AnsweredRequest(ws, j);
    TellsForOwner(l, calls, dues, store, c);
    assert calls[i] in calls;
    if calls[i].ReadCall? {
      ReadTurnedDown(dues[c].event, calls[i].at, store, req);
    } else {
      CrcTold(dues[c].event, calls[i].record, calls[i].item, store, req);
    }
  }

  lemma CrcEnds(l: Link, calls: seq<Call>, dues: seq<Due>, store: Store, j: nat)
    requires OrderlyCalls(l, calls, dues, store) && j < |calls| && calls[j].CrcCall?
    requires FetchCrc(LinkAt(l, calls, j), calls[j].record, calls[j].item).1.PanelCrc?
    ensures Callable(calls[j])
    ensures var ws := CallWaits(l, calls);
            GotAnswer(ws[j])
            && (AnsweredRequest(ws, j) == j <==> TurnsDownLate(ws, j, CallRequest(calls[j]), dues))
  {
    assert calls[j] in calls;
    CallEnds(l, calls, dues, j);
    OwnIfLateTurnedDown(CallWaits(l, calls), j, CallRequest(calls[j]), dues,
                        Exchange(LinkAt(l, calls, j), CallRequest(calls[j])).outcome);
  }

  /** A CRC that is returned is that of the item asked for, whatever the panel has stored, if the request
      turns down every late answer that it may be given; in particular while none is late. */
  lemma CrcIsOfItemAskedFor(l: Link, calls: seq<Call>, dues: seq<Due>, store: Store, j: nat)
    requires OrderlyCalls(l, calls, dues, store) && ProperReads(calls) && j < |calls| && calls[j].CrcCall?
    requires Callable(calls[j]) && TurnsDownLate(CallWaits(l, calls), j, CallRequest(calls[j]), dues)
    ensures var got := FetchCrc(LinkAt(l, calls, j), calls[j].record, calls[j].item).1;
            got.PanelCrc? ==> got.crc == Crc.Crc16(store(calls[j].record, calls[j].item), 0)
  {
    if FetchCrc(LinkAt(l, calls, j), calls[j].record, calls[j].item).1.PanelCrc? {
      var i := CrcIsOfWrite(l, calls, dues, store, j);
      CrcEnds(l, calls, dues, store, j);
    }
  }

  /** And only then, if the CRCs asked for before are others: otherwise it is an earlier item's. */
  lemma CrcIsOwnIff(l: Link, calls: seq<Call>, dues: seq<Due>, store: Store, j: nat)
    requires OrderlyCalls(l, calls, dues, store) && ProperReads(calls) && j < |calls| && calls[j].CrcCall?
    requires forall i | 0 <= i < j && calls[i].CrcCall? ::
      Crc.Crc16(store(calls[i].record, calls[i].item), 0) != Crc.Crc16(store(calls[j].record, calls[j].item), 0)
    requires FetchCrc(LinkAt(l, calls, j), calls[j].record, calls[j].item).1.PanelCrc?
    ensures Callable(calls[j])
    ensures FetchCrc(LinkAt(l, calls, j), calls[j].record, calls[j].item).1.crc ==
            Crc.Crc16(store(calls[j].record, calls[j].item), 0) <==>
            TurnsDownLate(CallWaits(l, calls), j, CallRequest(calls[j]), dues)
  {
    var i := CrcIsOfWrite(l, calls, dues, store, j);
    CrcEnds(l, calls, dues, store, j);
  }

  /** The first call of a session has no late answer to fear. */
  lemma FirstTurnsDownLate(l: Link, calls: seq<Call>, dues: seq<Due>)
    requires AllCallable(calls) && calls != [] && Callable(calls[0])
    ensures TurnsDownLate(CallWaits(l, calls), 0, CallRequest(calls[0]), dues)
  {
    BeforeFirst(CallWaits(l, calls));
  }

  lemma CallsWait(calls: seq<Call>, within: real)
    requires AllCallable(calls) && within <= 0.8
    ensures AllWait(CallRequests(calls), within)
  {}

  /** When every write is answered before its deadline, every CRC that is returned is that of the item
      asked for. */
  lemma TimelyCrcIsOfItem(l: Link, calls: seq<Call>, ds: seq<Delivery>, within: real, store: Store, j: nat)
    requires AllCallable(calls) && ProperReads(calls) && j < |calls| && calls[j].CrcCall?
    requires InStep(l, ds, within) && within <= 0.8 && Writes(CallWaits(l, calls)) <= |ds|
    requires TellingPanel(FramesWritten(l, CallRequests(calls)), Events(AnswersOf(ds)), store)
    ensures var got := FetchCrc(LinkAt(l, calls, j), calls[j].record, calls[j].item).1;
            got.PanelCrc? ==> got.crc == Crc.Crc16(store(calls[j].record, calls[j].item), 0)
  {
    var ws := CallWaits(l, calls);
    var dues := InStepIsPending(l, ds, within);
    assert calls[j] in calls;
    CallsWait(calls, within);
    SessionTakesOne(l, CallRequests(calls), ds, within, ws);
    NeverLate(ws, j, CallRequest(calls[j]), dues);
    CrcIsOfItemAskedFor(l, calls, dues, store, j);
  }
}
