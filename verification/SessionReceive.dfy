/** A bulk receive over a real session: the panel that `Receive` takes as a function from table and
    item to reply exists for every transport, and while no answer is late it is the panel's memory. */
module SessionReceive {
  import opened Bytes
  import opened Session
  import opened SessionWaits
  import opened SessionPairing
  import opened SessionReads
  import Specs
  import R = Receive

  /** WIRE: the opcode and sub-code of a table, and the item number if it has only one. */
  datatype WireMap = WireMap(opcode: byte, sub: byte, fixedItem: Option<int>)

  type Wires = map<string, WireMap>

  function AddressOf(wires: Wires, name: string, n: int): Address
    requires name in wires
  {
    var w := wires[name];
    Address(w.opcode, w.sub, if w.fixedItem.Some? then w.fixedItem.value else n)
  }

  /** Every item to read has a wire address with a sixteen-bit item. */
  predicate Wired(wires: Wires, jobs: seq<R.Job>) {
    forall j | j in jobs && j.Item? :: j.name in wires && Valid(AddressOf(wires, j.name, j.number))
  }

  /** The wire reads as many bytes as the table's records have. */
  ghost predicate SizesAgree(cfg: R.Config, wires: Wires, size: byte -> nat) {
    forall name | name in cfg.specs && name in wires :: cfg.specs[name].Size() == size(wires[name].opcode)
  }

  /** How the exceptions of `read_record` are told apart by the receive. */
  function ReplyOf(f: Fetched): R.Reply {
    match f
    case Data(raw) => R.Data(raw)
    case Failed(TimedOut) => R.NoReply
    case Failed(WrongReply) => R.Refused
    case Failed(Disconnected) => R.Broken
    case _ => R.Escapes
  }

  function FetchAt(l: Link, at: Address, size: byte -> nat): (Link, Fetched) {
    Fetch(l, at.opcode, at.sub, at.item, size(at.opcode))
  }

  /** What reading the item of a job, if it has one, does to the link, and the reply it gets. */
  function ReadJob(wires: Wires, size: byte -> nat, l: Link, job: R.Job): (Link, R.Reply)
    requires job.Item? ==> job.name in wires
  {
    if job.Unmapped? then (l, R.NoReply)
    else
      var (next, f) := FetchAt(l, AddressOf(wires, job.name, job.number), size);
      (next, ReplyOf(f))
  }

  /** A panel that gives this reply for the item of this job. */
  function OnePanel(job: R.Job, reply: R.Reply): R.Panel {
    (x: string, y: int) => if job == R.Item(x, y) then reply else R.NoReply
  }

  lemma OnePanelOk(cfg: R.Config, wires: Wires, size: byte -> nat, l: Link, job: R.Job)
    requires SizesAgree(cfg, wires, size) && (job.Item? ==> job.name in wires)
    ensures R.PanelOk(cfg, OnePanel(job, ReadJob(wires, size, l, job).1))
  {}

  /** `receive_all` with its session: each item is read over the link as the link then stands. */
  ghost function Live(cfg: R.Config, wires: Wires, size: byte -> nat, l: Link, s: R.State,
                      jobs: seq<R.Job>): (Link, R.State)
    requires R.ConfigOk(cfg) && R.TablesOk(cfg, s.tables) && R.JobsOk(cfg, jobs)
    requires Wired(wires, jobs) && SizesAgree(cfg, wires, size)
    decreases |jobs|
  {
    if !s.halt.Going? || jobs == [] then (l, s)
    else
      var job := jobs[0];
      var (next, reply) := ReadJob(wires, size, l, job);
      var panel := OnePanel(job, reply);
      OnePanelOk(cfg, wires, size, l, job);
      R.StepKeepsTablesOk(cfg, panel, s, job);
      Live(cfg, wires, size, next, R.Step(cfg, panel, s, job), jobs[1..])
  }

  /** What is left of the report and the receive after a read that ended so, of a record of this size. */
  predicate Reported(before: R.State, name: string, n: int, size: nat, o: Outcome, after: R.State) {
    var listed := if name in before.report.unanswered then before.report.unanswered[name] else [];
    var given := before.report.(unanswered := before.report.unanswered[name := listed + [n]]);
    var errors := before.report.errors;
    if o == TimedOut then after == before.(report := given)
    else if o == WrongReply || (o.Reply? && |o.body| < 4 + size) then
      after == before.(report := given.(errors := errors + [R.BadReply(name, n)]))
    else if o == Disconnected then
      after == R.State(before.tables, before.report.(errors := errors + [R.Stopped(name, n)]), R.Returned)
    else if o.Reply? then
      after.halt == R.Going && after.report.errors == errors
      && after.report.unanswered == before.report.unanswered
    else after == before.(halt := R.Raised)
  }

  lemma ReplyIs(wires: Wires, size: byte -> nat, l: Link, name: string, n: int, o: Outcome, reply: R.Reply)
    requires name in wires && Valid(AddressOf(wires, name, n))
    requires o == Exchange(l, RequestOf(AddressOf(wires, name, n))).outcome
    requires reply == ReadJob(wires, size, l, R.Item(name, n)).1
    ensures reply == ReplyOf(FetchedFrom(o, size(wires[name].opcode)))
  {
    FetchIs(l, AddressOf(wires, name, n), size(wires[name].opcode));
  }

  lemma StepReported(cfg: R.Config, s: R.State, name: string, n: int, size: nat, o: Outcome, panel: R.Panel)
    requires R.ConfigOk(cfg) && R.PanelOk(cfg, panel) && R.TablesOk(cfg, s.tables) && name in cfg.specs
    requires s.halt.Going? && panel(name, n) == ReplyOf(FetchedFrom(o, size))
    ensures Reported(s, name, n, size, o, R.Step(cfg, panel, s, R.Item(name, n)))
  {}

  /** How the end of a read shows in the report: a timeout gives the item up; so does a wrong reply or one
      that is too short, with an error; a hang-up ends the receive with an error; anything else escapes. */
  lemma OutcomeReported(cfg: R.Config, wires: Wires, size: byte -> nat, l: Link, s: R.State, name: string, n: int,
                        reply: R.Reply)
    requires R.ConfigOk(cfg) && R.TablesOk(cfg, s.tables) && SizesAgree(cfg, wires, size)
    requires name in cfg.specs && name in wires && s.halt.Going? && Valid(AddressOf(wires, name, n))
    requires reply == ReadJob(wires, size, l, R.Item(name, n)).1
    ensures R.PanelOk(cfg, OnePanel(R.Item(name, n), reply))
    ensures Reported(s, name, n, size(wires[name].opcode), Exchange(l, RequestOf(AddressOf(wires, name, n))).outcome,
                     R.Step(cfg, OnePanel(R.Item(name, n), reply), s, R.Item(name, n)))
  {
    var o := Exchange(l, RequestOf(AddressOf(wires, name, n))).outcome;
    OnePanelOk(cfg, wires, size, l, R.Item(name, n));
    ReplyIs(wires, size, l, name, n, o, reply);
    StepReported(cfg, s, name, n, size(wires[name].opcode), o, OnePanel(R.Item(name, n), reply));
  }

  // ---- The panel a session shows ----

  function Items(jobs: seq<R.Job>): nat {
    if jobs == [] then 0 else (if jobs[0].Item? then 1 else 0) + Items(jobs[1..])
  }

  function AddressesOf(wires: Wires, jobs: seq<R.Job>): (r: seq<Address>)
    requires Wired(wires, jobs)
    ensures |r| == Items(jobs) && forall at | at in r :: Valid(at)
  {
    if jobs == [] then []
    else if jobs[0].Unmapped? then AddressesOf(wires, jobs[1..])
    else [AddressOf(wires, jobs[0].name, jobs[0].number)] + AddressesOf(wires, jobs[1..])
  }

  /** The panel that gives the item of the k-th reading job the k-th reply. */
  function PanelFrom(jobs: seq<R.Job>, replies: seq<R.Reply>): R.Panel
    requires |replies| == Items(jobs)
  {
    if jobs == [] then (x: string, y: int) => R.NoReply
    else if jobs[0].Unmapped? then PanelFrom(jobs[1..], replies)
    else
      var later := PanelFrom(jobs[1..], replies[1..]);
      (x: string, y: int) => if jobs[0] == R.Item(x, y) then replies[0] else later(x, y)
  }

  function Replies(fetched: seq<Fetched>): (r: seq<R.Reply>)
    ensures |r| == |fetched|
  {
    seq(|fetched|, j requires 0 <= j < |fetched| => ReplyOf(fetched[j]))
  }

  /** What a session that reads every item would show. */
  function PanelOf(wires: Wires, size: byte -> nat, l: Link, jobs: seq<R.Job>): R.Panel
    requires Wired(wires, jobs)
  {
    PanelFrom(jobs, Replies(ReadAll(l, AddressesOf(wires, jobs), size)))
  }

  /** Replies of the size read for their addresses. */
  predicate RepliesSized(asked: seq<Address>, replies: seq<R.Reply>, size: byte -> nat) {
    && |asked| == |replies|
    && forall j | 0 <= j < |replies| && replies[j].Data? :: |replies[j].raw| == size(asked[j].opcode)
  }

  lemma ReadsAreSized(l: Link, asked: seq<Address>, size: byte -> nat)
    requires forall at | at in asked :: Valid(at)
    ensures RepliesSized(asked, Replies(ReadAll(l, asked, size)), size)
  {
    OutcomeEach(l, Requests(asked));
    FetchedSized(RunAll(l, Requests(asked)).1, asked, size);
  }

  lemma FetchedSized(outcomes: seq<Outcome>, asked: seq<Address>, size: byte -> nat)
    requires |outcomes| == |asked|
    ensures RepliesSized(asked, Replies(FetchedAll(outcomes, asked, size)), size)
  {}

  lemma {:induction false} PanelFromOk(cfg: R.Config, wires: Wires, size: byte -> nat, jobs: seq<R.Job>,
                                       replies: seq<R.Reply>)
    requires Wired(wires, jobs) && SizesAgree(cfg, wires, size)
    requires RepliesSized(AddressesOf(wires, jobs), replies, size)
    ensures R.PanelOk(cfg, PanelFrom(jobs, replies))
    decreases |jobs|
  {
    if jobs == [] {
    } else if jobs[0].Unmapped? {
      PanelFromOk(cfg, wires, size, jobs[1..], replies);
    } else {
      assert AddressesOf(wires, jobs)[1..] == AddressesOf(wires, jobs[1..]);
      PanelFromOk(cfg, wires, size, jobs[1..], replies[1..]);
    }
  }

  /** The reply for an item is that of its address. */
  lemma {:induction false} PanelIsReply(wires: Wires, jobs: seq<R.Job>, replies: seq<R.Reply>, name: string, n: int)
    returns (j: nat)
    requires Wired(wires, jobs) && R.Item(name, n) in jobs && |replies| == Items(jobs)
    ensures name in wires && j < |replies| && AddressesOf(wires, jobs)[j] == AddressOf(wires, name, n)
    ensures PanelFrom(jobs, replies)(name, n) == replies[j]
    decreases |jobs|
  {
    if jobs[0] == R.Item(name, n) {
      j := 0;
    } else if jobs[0].Unmapped? {
      j := PanelIsReply(wires, jobs[1..], replies, name, n);
    } else {
      var k := PanelIsReply(wires, jobs[1..], replies[1..], name, n);
      j := k + 1;
    }
  }

  // ---- A receive over the session is a receive from that panel ----

  /** The panels give the same reply for the item of a job. */
  predicate Agree(p: R.Panel, q: R.Panel, job: R.Job) {
    job.Item? ==> p(job.name, job.number) == q(job.name, job.number)
  }

  lemma StepLocal(cfg: R.Config, p: R.Panel, q: R.Panel, s: R.State, job: R.Job)
    requires R.ConfigOk(cfg) && R.PanelOk(cfg, p) && R.PanelOk(cfg, q) && R.TablesOk(cfg, s.tables)
    requires job.name in cfg.specs && Agree(p, q, job)
    ensures R.Step(cfg, p, s, job) == R.Step(cfg, q, s, job)
  {}

  /** A receive depends on the panel only at the items it reads. */
  lemma {:induction false} RunLocal(cfg: R.Config, p: R.Panel, q: R.Panel, s: R.State, jobs: seq<R.Job>)
    requires R.ConfigOk(cfg) && R.PanelOk(cfg, p) && R.PanelOk(cfg, q) && R.TablesOk(cfg, s.tables)
    requires R.JobsOk(cfg, jobs) && forall j | j in jobs :: Agree(p, q, j)
    ensures R.RunJobs(cfg, p, s, jobs) == R.RunJobs(cfg, q, s, jobs)
    decreases |jobs|
  {
    if s.halt.Going? && jobs != [] {
      assert jobs[0] in jobs;
      StepLocal(cfg, p, q, s, jobs[0]);
      R.StepKeepsTablesOk(cfg, p, s, jobs[0]);
      RunLocal(cfg, p, q, R.Step(cfg, p, s, jobs[0]), jobs[1..]);
    }
  }

  /** The first job gets the first reply, if it reads; the others get the rest. */
  function LaterReplies(job: R.Job, replies: seq<R.Reply>): seq<R.Reply>
    requires job.Item? ==> replies != []
  {
    if job.Item? then replies[1..] else replies
  }

  lemma LaterPanelAgrees(jobs: seq<R.Job>, replies: seq<R.Reply>)
    requires jobs != [] && Specs.Distinct(jobs) && |replies| == Items(jobs)
    ensures Specs.Distinct(jobs[1..]) && |LaterReplies(jobs[0], replies)| == Items(jobs[1..])
    ensures forall j | j in jobs[1..] ::
              Agree(PanelFrom(jobs, replies), PanelFrom(jobs[1..], LaterReplies(jobs[0], replies)), j)
  {
    forall j | j in jobs[1..] ensures j != jobs[0] {
      var k :| 0 <= k < |jobs[1..]| && jobs[1..][k] == j;
      assert jobs[k + 1] == j;
    }
  }

  /** Reading the first job and then the others reads all of them. */
  lemma ReplyFirst(wires: Wires, size: byte -> nat, l: Link, jobs: seq<R.Job>, replies: seq<R.Reply>)
    requires Wired(wires, jobs) && jobs != [] && replies == Replies(ReadAll(l, AddressesOf(wires, jobs), size))
    ensures (jobs[0].Item? ==> jobs[0].name in wires) && Wired(wires, jobs[1..])
    ensures var (next, reply) := ReadJob(wires, size, l, jobs[0]);
            && LaterReplies(jobs[0], replies) == Replies(ReadAll(next, AddressesOf(wires, jobs[1..]), size))
            && (jobs[0].Item? ==> reply == replies[0])
  {
    if jobs[0].Item? {
      AddressesFirst(wires, jobs);
      var asked := AddressesOf(wires, jobs);
      ReadAllFirst(l, asked, size);
      var (next, f) := FetchAt(l, asked[0], size);
      RepliesFirst(f, ReadAll(next, asked[1..], size));
    }
  }

  lemma AddressesFirst(wires: Wires, jobs: seq<R.Job>)
    requires Wired(wires, jobs) && jobs != [] && jobs[0].Item?
    ensures Wired(wires, jobs[1..]) && AddressesOf(wires, jobs)[1..] == AddressesOf(wires, jobs[1..])
    ensures jobs[0].name in wires && AddressesOf(wires, jobs)[0] == AddressOf(wires, jobs[0].name, jobs[0].number)
  {}

  lemma RepliesFirst(f: Fetched, more: seq<Fetched>)
    ensures Replies([f] + more)[0] == ReplyOf(f) && Replies([f] + more)[1..] == Replies(more)
  {}

  /** Whatever the transport does, a receive of distinct items over the session is a receive from
      that panel: `Receive` loses nothing by taking it as a function. */
  lemma {:induction false} LiveIsPanelRun(cfg: R.Config, wires: Wires, size: byte -> nat, l: Link, s: R.State,
                                          jobs: seq<R.Job>, replies: seq<R.Reply>)
    requires R.ConfigOk(cfg) && R.TablesOk(cfg, s.tables) && R.JobsOk(cfg, jobs) && Specs.Distinct(jobs)
    requires Wired(wires, jobs) && SizesAgree(cfg, wires, size)
    requires replies == Replies(ReadAll(l, AddressesOf(wires, jobs), size))
    ensures R.PanelOk(cfg, PanelFrom(jobs, replies))
    ensures Live(cfg, wires, size, l, s, jobs).1 == R.RunJobs(cfg, PanelFrom(jobs, replies), s, jobs)
    decreases |jobs|
  {
    ReadsAreSized(l, AddressesOf(wires, jobs), size);
    PanelFromOk(cfg, wires, size, jobs, replies);
    if s.halt.Going? && jobs != [] {
      ReplyFirst(wires, size, l, jobs, replies);
      var (next, reply) := ReadJob(wires, size, l, jobs[0]);
      var one, all := OnePanel(jobs[0], reply), PanelFrom(jobs, replies);
      OnePanelOk(cfg, wires, size, l, jobs[0]);
      LaterPanelAgrees(jobs, replies);
      StepLocal(cfg, one, all, s, jobs[0]);
      var t := R.Step(cfg, all, s, jobs[0]);
      R.StepKeepsTablesOk(cfg, all, s, jobs[0]);
      LiveIsPanelRun(cfg, wires, size, next, t, jobs[1..], LaterReplies(jobs[0], replies));
      RunLocal(cfg, all, PanelFrom(jobs[1..], LaterReplies(jobs[0], replies)), t, jobs[1..]);
    }
  }

  /** And while every read turns down the late answers it may be given, in particular while no answer
      is late, every record it receives is the one the panel holds for that item. */
  lemma PanelIsMemory(wires: Wires, size: byte -> nat, l: Link, jobs: seq<R.Job>, dues: seq<Due>, memory: Memory,
                      name: string, n: int, asked: seq<Address>, ws: seq<seq<Wait>>, reply: R.Reply)
    requires Wired(wires, jobs) && R.Item(name, n) in jobs
    requires asked == AddressesOf(wires, jobs)
    requires OrderlySession(l, asked, dues, memory, size) && ws == ReadWaits(l, asked)
    requires forall j | 0 <= j < |ws| :: TurnsDownLate(ws, j, RequestOf(asked[j]), dues)
    requires reply == PanelOf(wires, size, l, jobs)(name, n)
    ensures name in wires
    ensures var w := wires[name];
            var item := if w.fixedItem == None then n else w.fixedItem.value;
            reply.Data? ==> reply.raw == memory(Address(w.opcode, w.sub, item))
  {
    var fetched := ReadAll(l, asked, size);
    var j := PanelIsReply(wires, jobs, Replies(fetched), name, n);
    ReadReturnsItemAskedFor(l, asked, dues, memory, size, j);
  }
}
