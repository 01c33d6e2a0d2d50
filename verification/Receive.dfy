/** Bulk receive: read every item of every mapped table and merge it into the account
    (src/elk_programmer/protocol/sync.py). The panel is a total function from table and item
    to how `read_record` ends for it. */
module Receive {
  import opened Bytes
  import opened Specs
  import opened Records
  import opened RecordTheorems

  /** How `read_record` ended: a record, a Timeout, a WrongReply, any other SessionError, or an
      exception that is none, such as the IndexError of an empty message. */
  datatype Reply = Data(raw: seq<byte>) | NoReply | Refused | Broken | Escapes

  type Panel = (string, int) -> Reply

  type Tables = map<string, map<int, Record>>

  /** SPECS_BY_NAME, the table names with a wire mapping, and the caller's item limits. */
  datatype Config = Config(specs: map<string, RecordSpec>, wired: set<string>, limits: map<string, int>)

  predicate ConfigOk(cfg: Config) {
    forall name | name in cfg.specs :: WellFormed(cfg.specs[name])
  }

  /** `read_record` returns only records of the mapped size. */
  ghost predicate PanelOk(cfg: Config, panel: Panel) {
    forall name: string, n: int :: name in cfg.specs && panel(name, n).Data? ==>
      |panel(name, n).raw| == cfg.specs[name].Size()
  }

  predicate TablesOk(cfg: Config, tables: Tables) {
    forall name | name in tables && name in cfg.specs ::
      forall n | n in tables[name] :: WellTyped(cfg.specs[name].fields, tables[name][n])
  }

  function Local(tables: Tables, name: string, n: int): Option<Record> {
    if name in tables && n in tables[name] then Some(tables[name][n]) else None
  }

  // ---- Work list ----

  /** `item_range`. */
  function ItemCount(spec: RecordSpec, limit: Option<int>): nat {
    match limit
    case None => spec.count
    case Some(k) => if k < 0 then 0 else if k < spec.count then k else spec.count
  }

  function Range(first: int, count: nat): (r: seq<int>)
    ensures |r| == count
    ensures forall i | 0 <= i < count :: r[i] == first + i
  {
    seq(count, i => first + i)
  }

  datatype Job = Item(name: string, number: int) | Unmapped(name: string)

  function ItemJobs(name: string, items: seq<int>): seq<Job> {
    seq(|items|, i requires 0 <= i < |items| => Item(name, items[i]))
  }

  function ItemsOf(cfg: Config, name: string): seq<int>
    requires name in cfg.specs
  {
    var spec := cfg.specs[name];
    Range(spec.first, ItemCount(spec, if name in cfg.limits then Some(cfg.limits[name]) else None))
  }

  function TableJobs(cfg: Config, name: string): seq<Job>
    requires name in cfg.specs
  {
    if name in cfg.wired then ItemJobs(name, ItemsOf(cfg, name)) else [Unmapped(name)]
  }

  function Jobs(cfg: Config, names: seq<string>): seq<Job>
    requires forall name | name in names :: name in cfg.specs
  {
    if names == [] then [] else TableJobs(cfg, names[0]) + Jobs(cfg, names[1..])
  }

  // ---- One receive ----

  datatype Fault = NoWire(name: string) | BadReply(name: string, number: int) | Stopped(name: string, number: int)

  datatype Report = Report(
    read: map<string, nat>,
    changed: map<string, seq<int>>,
    unanswered: map<string, seq<int>>,
    errors: seq<Fault>)

  const EMPTY_REPORT := Report(map[], map[], map[], [])

  /** `setdefault(name, []).append(n)`. */
  function Append(m: map<string, seq<int>>, name: string, n: int): map<string, seq<int>> {
    m[name := Listed(m, name) + [n]]
  }

  function Listed(m: map<string, seq<int>>, name: string): seq<int> {
    if name in m then m[name] else []
  }

  function Counted(m: map<string, nat>, name: string): nat {
    if name in m then m[name] else 0
  }

  /** Whether the receive goes on, has returned its report early, or has let an exception out. */
  datatype Halt = Going | Returned | Raised

  datatype State = State(tables: Tables, report: Report, halt: Halt)

  /** The local record differs on the wire from what the panel sent. */
  predicate Differs(spec: RecordSpec, local: Option<Record>, raw: seq<byte>)
    requires WellFormed(spec) && (local.Some? ==> WellTyped(spec.fields, local.value))
  {
    local.None? || EncodeRecord(spec, local.value) != raw
  }

  function Merged(local: Option<Record>, decoded: Record): Record {
    if local.None? then decoded else local.value + decoded
  }

  function Stored(tables: Tables, name: string, n: int, record: Record): Tables {
    tables[name := (if name in tables then tables[name] else map[])[n := record]]
  }

  /** What one job adds to the report; `differs` matters only for an item that was read. */
  function NextReport(r: Report, job: Job, reply: Reply, differs: bool): Report {
    match job
    case Unmapped(name) => r.(errors := r.errors + [NoWire(name)])
    case Item(name, n) =>
      match reply
      case NoReply => r.(unanswered := Append(r.unanswered, name, n))
      case Refused => r.(unanswered := Append(r.unanswered, name, n), errors := r.errors + [BadReply(name, n)])
      case Broken => r.(errors := r.errors + [Stopped(name, n)])
      case Escapes => r
      case Data(_) =>
        r.(changed := if differs then Append(r.changed, name, n) else r.changed,
           read := r.read[name := Counted(r.read, name) + 1])
  }

  predicate IsRead(panel: Panel, job: Job) {
    job.Item? && panel(job.name, job.number).Data?
  }

  /** A SessionError that is neither a timeout nor a wrong reply ends the receive with its report;
      any other exception ends it without one. */
  function HaltOf(panel: Panel, job: Job): Halt {
    if !job.Item? then Going
    else match panel(job.name, job.number)
      case Broken => Returned
      case Escapes => Raised
      case _ => Going
  }

  predicate Stops(panel: Panel, job: Job) {
    !HaltOf(panel, job).Going?
  }

  /** Read, and different on the wire from the account as it stands in `tables`. */
  predicate IsChanged(cfg: Config, panel: Panel, tables: Tables, job: Job)
    requires ConfigOk(cfg) && TablesOk(cfg, tables) && job.name in cfg.specs
  {
    IsRead(panel, job) &&
    Differs(cfg.specs[job.name], Local(tables, job.name, job.number), panel(job.name, job.number).raw)
  }

  function NextTables(cfg: Config, panel: Panel, tables: Tables, job: Job): Tables
    requires ConfigOk(cfg) && PanelOk(cfg, panel) && job.name in cfg.specs
  {
    if IsRead(panel, job) then
      var decoded := DecodeRecord(cfg.specs[job.name], panel(job.name, job.number).raw).value;
      Stored(tables, job.name, job.number, Merged(Local(tables, job.name, job.number), decoded))
    else tables
  }

  function Answer(panel: Panel, job: Job): Reply {
    if job.Item? then panel(job.name, job.number) else NoReply
  }

  function Step(cfg: Config, panel: Panel, s: State, job: Job): State
    requires ConfigOk(cfg) && PanelOk(cfg, panel) && TablesOk(cfg, s.tables)
    requires job.name in cfg.specs
  {
    State(NextTables(cfg, panel, s.tables, job),
          NextReport(s.report, job, Answer(panel, job), IsChanged(cfg, panel, s.tables, job)),
          if s.halt.Going? then HaltOf(panel, job) else s.halt)
  }

  lemma MergedHolds(spec: RecordSpec, raw: seq<byte>, local: Option<Record>)
    requires WellFormed(spec) && |raw| == spec.Size()
    ensures Holds(spec.fields, raw, Merged(local, DecodeRecord(spec, raw).value))
    ensures WellTyped(spec.fields, Merged(local, DecodeRecord(spec, raw).value))
  {
    var decoded := DecodeRecord(spec, raw).value;
    DecodeHolds(spec.fields, raw, map[]);
    if local.Some? { HoldsOver(spec.fields, raw, local.value, decoded); }
    HoldsWellTyped(spec.fields, raw, Merged(local, decoded));
  }

  /** `dict.update`: the decoded values win. */
  lemma {:induction false} HoldsOver(fields: seq<Field>, raw: seq<byte>, local: Record, decoded: Record)
    requires AllEncodable(fields) && |raw| == TotalSize(fields) && Holds(fields, raw, decoded)
    ensures Holds(fields, raw, local + decoded)
    decreases |fields|
  {
    if fields != [] { HoldsOver(fields[1..], raw[fields[0].Size()..], local, decoded); }
  }

  lemma StepKeepsTablesOk(cfg: Config, panel: Panel, s: State, job: Job)
    requires ConfigOk(cfg) && PanelOk(cfg, panel) && TablesOk(cfg, s.tables) && job.name in cfg.specs
    ensures TablesOk(cfg, Step(cfg, panel, s, job).tables)
  {
    if job.Item? && panel(job.name, job.number).Data? {
      MergedHolds(cfg.specs[job.name], panel(job.name, job.number).raw, Local(s.tables, job.name, job.number));
    }
  }

  predicate JobsOk(cfg: Config, jobs: seq<Job>) {
    forall j | j in jobs :: j.name in cfg.specs
  }

  function RunJobs(cfg: Config, panel: Panel, s: State, jobs: seq<Job>): (r: State)
    requires ConfigOk(cfg) && PanelOk(cfg, panel) && TablesOk(cfg, s.tables) && JobsOk(cfg, jobs)
    ensures TablesOk(cfg, r.tables)
    decreases |jobs|
  {
    if !s.halt.Going? || jobs == [] then s
    else
      StepKeepsTablesOk(cfg, panel, s, jobs[0]);
      RunJobs(cfg, panel, Step(cfg, panel, s, jobs[0]), jobs[1..])
  }

  // ---- The source's nested loops ----

  class Account {
    var tables: Tables

    constructor (tables: Tables)
      ensures this.tables == tables
    {
      this.tables := tables;
    }
  }

  lemma {:induction false} JobsAreOk(cfg: Config, names: seq<string>)
    requires forall name | name in names :: name in cfg.specs
    ensures JobsOk(cfg, Jobs(cfg, names))
  {
    if names != [] { JobsAreOk(cfg, names[1..]); }
  }

  /** The body of the inner loop: read one item and merge it, or report why not. */
  method ReceiveItem(cfg: Config, panel: Panel, account: Account, report: Report, name: string, number: int)
    returns (after: Report, halt: Halt)
    requires ConfigOk(cfg) && PanelOk(cfg, panel) && TablesOk(cfg, account.tables) && name in cfg.specs
    modifies account
    ensures TablesOk(cfg, account.tables)
    ensures State(account.tables, after, halt) ==
            Step(cfg, panel, State(old(account.tables), report, Going), Item(name, number))
  {
    StepKeepsTablesOk(cfg, panel, State(account.tables, report, Going), Item(name, number));
    after, halt := report, Going;
    var reply := panel(name, number);
    if reply.NoReply? {
      after := after.(unanswered := Append(after.unanswered, name, number));
      return;
    }
    if reply.Refused? {
      after := after.(unanswered := Append(after.unanswered, name, number));
      after := after.(errors := after.errors + [BadReply(name, number)]);
      return;
    }
    if reply.Broken? {
      after := after.(errors := after.errors + [Stopped(name, number)]);
      halt := Returned;
      return;
    }
    if reply.Escapes? {
      halt := Raised;
      return;
    }
    var spec := cfg.specs[name];
    var decoded := DecodeRecordLoop(spec, reply.raw);
    var table := if name in account.tables then account.tables[name] else map[];
    if number !in table {
      after := after.(changed := Append(after.changed, name, number));
      account.tables := account.tables[name := table[number := decoded.value]];
    } else {
      var sent := EncodeRecordLoop(spec, table[number]);
      if sent != reply.raw {
        after := after.(changed := Append(after.changed, name, number));
      }
      account.tables := account.tables[name := table[number := table[number] + decoded.value]];
    }
    after := after.(read := after.read[name := Counted(after.read, name) + 1]);
  }

  lemma RunItemNext(cfg: Config, panel: Panel, s: State, name: string, items: seq<int>, i: nat, rest: seq<Job>,
                    next: State)
    requires ConfigOk(cfg) && PanelOk(cfg, panel) && TablesOk(cfg, s.tables) && JobsOk(cfg, rest)
    requires name in cfg.specs && i < |items| && s.halt.Going? && next == Step(cfg, panel, s, Item(name, items[i]))
    requires TablesOk(cfg, next.tables)
    ensures JobsOk(cfg, ItemJobs(name, items[i..]) + rest) && JobsOk(cfg, ItemJobs(name, items[i + 1..]) + rest)
    ensures RunJobs(cfg, panel, s, ItemJobs(name, items[i..]) + rest) ==
            RunJobs(cfg, panel, next, ItemJobs(name, items[i + 1..]) + rest)
  {
    var jobs := ItemJobs(name, items[i..]) + rest;
    assert jobs[0] == Item(name, items[i]) && jobs[1..] == ItemJobs(name, items[i + 1..]) + rest;
  }

  /** The inner loop: one table, with `rest` still to come after it. */
  method ReceiveTable(cfg: Config, panel: Panel, account: Account, report: Report, name: string, ghost rest: seq<Job>)
    returns (after: Report, halt: Halt)
    requires ConfigOk(cfg) && PanelOk(cfg, panel) && TablesOk(cfg, account.tables) && name in cfg.specs
    requires JobsOk(cfg, rest) && JobsOk(cfg, ItemJobs(name, ItemsOf(cfg, name)) + rest)
    modifies account
    ensures TablesOk(cfg, account.tables)
    ensures RunJobs(cfg, panel, State(old(account.tables), report, Going), ItemJobs(name, ItemsOf(cfg, name)) + rest) ==
            RunJobs(cfg, panel, State(account.tables, after, halt), rest)
  {
    var items := ItemsOf(cfg, name);
    after, halt := report, Going;
    ghost var end := RunJobs(cfg, panel, State(account.tables, report, Going), ItemJobs(name, items) + rest);
    assert items[0..] == items;
    for i := 0 to |items|
      invariant TablesOk(cfg, account.tables) && JobsOk(cfg, ItemJobs(name, items[i..]) + rest)
      invariant halt.Going?
      invariant RunJobs(cfg, panel, State(account.tables, after, halt), ItemJobs(name, items[i..]) + rest) == end
    {
      ghost var before := State(account.tables, after, Going);
      after, halt := ReceiveItem(cfg, panel, account, after, name, items[i]);
      RunItemNext(cfg, panel, before, name, items, i, rest, State(account.tables, after, halt));
      if !halt.Going? {
        return;
      }
    }
    assert ItemJobs(name, items[|items|..]) + rest == rest;
  }

  /** `receive_all`; None when an exception escapes it, the tables being as far as it got. */
  method ReceiveAll(cfg: Config, panel: Panel, account: Account, names: seq<string>) returns (result: Option<Report>)
    requires ConfigOk(cfg) && PanelOk(cfg, panel) && TablesOk(cfg, account.tables)
    requires forall name | name in names :: name in cfg.specs
    modifies account
    ensures JobsOk(cfg, Jobs(cfg, names))
    ensures var end := RunJobs(cfg, panel, State(old(account.tables), EMPTY_REPORT, Going), Jobs(cfg, names));
            account.tables == end.tables && result == if end.halt == Raised then None else Some(end.report)
  {
    JobsAreOk(cfg, names);
    var report := EMPTY_REPORT;
    ghost var end := RunJobs(cfg, panel, State(account.tables, EMPTY_REPORT, Going), Jobs(cfg, names));
    for t := 0 to |names|
      invariant TablesOk(cfg, account.tables) && JobsOk(cfg, Jobs(cfg, names[t..]))
      invariant RunJobs(cfg, panel, State(account.tables, report, Going), Jobs(cfg, names[t..])) == end
    {
      var name := names[t];
      assert names[t..][0] == name && names[t..][1..] == names[t + 1..];
      JobsAreOk(cfg, names[t + 1..]);
      ghost var rest := Jobs(cfg, names[t + 1..]);
      if name !in cfg.wired {
        assert ([Unmapped(name)] + rest)[1..] == rest;
        report := report.(errors := report.errors + [NoWire(name)]);
        continue;
      }
      var halt: Halt;
      report, halt := ReceiveTable(cfg, panel, account, report, name, rest);
      if halt == Returned {
        return Some(report);
      }
      if halt == Raised {
        return None;
      }
    }
    result := Some(report);
  }
}
