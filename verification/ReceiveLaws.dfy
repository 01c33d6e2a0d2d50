/** What a bulk receive covers and reports, item by item (src/elk_programmer/protocol/sync.py), told from
    the catalogue, the limits and the panel's replies. */
module ReceiveLaws {
  import opened Bytes
  import opened Positions
  import opened Specs
  import opened Records
  import opened RecordTheorems
  import opened RecordLaws
  import opened Receive
  import opened ReceiveTheorems

  // ---- Which items ----

  /** The item numbers of a table: as many as it has, from its first, or as many as the limit. */
  predicate Covered(cfg: Config, name: string, n: int)
    requires name in cfg.specs
  {
    var first := cfg.specs[name].first;
    first <= n < first + cfg.specs[name].count && (name in cfg.limits ==> n < first + cfg.limits[name])
  }

  predicate Due(cfg: Config, names: seq<string>, job: Job) {
    && job.name in names && job.name in cfg.specs
    && match job
       case Item(name, n) => name in cfg.wired && Covered(cfg, name, n)
       case Unmapped(name) => name !in cfg.wired
  }

  lemma InTable(cfg: Config, name: string, job: Job)
    requires name in cfg.specs
    ensures job in TableJobs(cfg, name) <==> job.name == name && Due(cfg, [name], job)
  {
    if name in cfg.wired {
      var items := ItemsOf(cfg, name);
      if job.Item? && job.name == name && Covered(cfg, name, job.number) {
        var i := job.number - cfg.specs[name].first;
        assert items[i] == job.number && ItemJobs(name, items)[i] == job;
      }
    }
  }

  /** A receive asks for exactly the covered items of the asked tables that are wired, and reports
      exactly the others. */
  lemma {:induction false} JobsCover(cfg: Config, names: seq<string>, job: Job)
    requires forall name | name in names :: name in cfg.specs
    ensures job in Jobs(cfg, names) <==> Due(cfg, names, job)
    decreases |names|
  {
    if names != [] {
      InTable(cfg, names[0], job);
      JobsCover(cfg, names[1..], job);
    }
  }

  /** The jobs of one table: its items in order, or that it has no wire. */
  lemma TableJobsAre(cfg: Config, name: string, i: nat)
    requires name in cfg.specs && i < |TableJobs(cfg, name)|
    ensures TableJobs(cfg, name)[i].name == name
    ensures |TableJobs(cfg, name)| > 1 ==> TableJobs(cfg, name)[i] == Item(name, cfg.specs[name].first + i)
  {}

  lemma LaterJob(cfg: Config, names: seq<string>, k: nat, b: nat)
    requires (forall name | name in names :: name in cfg.specs) && Distinct(names)
    requires names != [] && k < |Jobs(cfg, names[1..])| && b < |names| && Jobs(cfg, names[1..])[k].name == names[b]
    ensures b > 0 && names[1..][b - 1] == names[b]
  {
    JobsNamed(cfg, names[1..], Jobs(cfg, names[1..])[k]);
  }

  /** Two jobs in this order. */
  predicate InOrder(p: Job, q: Job, a: nat, b: nat) {
    a <= b && (a == b ==> p.Item? && q.Item? && p.number < q.number)
  }

  lemma FirstInOrder(cfg: Config, names: seq<string>, i: nat, q: Job, a: nat, b: nat)
    requires names != [] && names[0] in cfg.specs && Distinct(names) && a < |names| && b < |names|
    requires i < |TableJobs(cfg, names[0])| && TableJobs(cfg, names[0])[i].name == names[a] && q.name == names[b]
    requires b > 0 || exists k | i < k < |TableJobs(cfg, names[0])| :: TableJobs(cfg, names[0])[k] == q
    ensures InOrder(TableJobs(cfg, names[0])[i], q, a, b)
  {
    TableJobsAre(cfg, names[0], i);
    if b == 0 {
      var k :| i < k < |TableJobs(cfg, names[0])| && TableJobs(cfg, names[0])[k] == q;
      TableJobsAre(cfg, names[0], k);
    }
  }

  /** It goes from table to table as asked, and through the items of a table in ascending order. */
  lemma {:induction false} JobsInOrder(cfg: Config, names: seq<string>, i: nat, k: nat, a: nat, b: nat)
    requires (forall name | name in names :: name in cfg.specs) && Distinct(names)
    requires i < k < |Jobs(cfg, names)| && a < |names| && b < |names|
    requires Jobs(cfg, names)[i].name == names[a] && Jobs(cfg, names)[k].name == names[b]
    ensures InOrder(Jobs(cfg, names)[i], Jobs(cfg, names)[k], a, b)
    decreases |names|
  {
    var first, later := TableJobs(cfg, names[0]), Jobs(cfg, names[1..]);
    var n := |first|;
    if k < n {
      TableJobsAre(cfg, names[0], k);
      FirstInOrder(cfg, names, i, first[k], a, b);
    } else {
      LaterJob(cfg, names, k - n, b);
      if i < n {
        FirstInOrder(cfg, names, i, later[k - n], a, b);
      } else {
        LaterJob(cfg, names, i - n, a);
        JobsInOrder(cfg, names[1..], i - n, k - n, a - 1, b - 1);
      }
    }
  }

  /** The items of a table ascend. */
  predicate Ascends(jobs: seq<Job>, name: string) {
    forall i, k | 0 <= i < k < |jobs| :: jobs[i].Item? && jobs[k].Item? && jobs[i].name == jobs[k].name == name ==>
      jobs[i].number < jobs[k].number
  }

  lemma JobsAscend(cfg: Config, names: seq<string>, name: string)
    requires (forall n | n in names :: n in cfg.specs) && Distinct(names)
    ensures Ascends(Jobs(cfg, names), name)
  {
    var jobs := Jobs(cfg, names);
    forall i, k | 0 <= i < k < |jobs| && jobs[i].Item? && jobs[k].Item? && jobs[i].name == jobs[k].name == name
      ensures jobs[i].number < jobs[k].number
    {
      JobsNamed(cfg, names, jobs[i]);
      var a :| 0 <= a < |names| && names[a] == name;
      JobsInOrder(cfg, names, i, k, a, a);
    }
  }

  // ---- How far ----

  /** Only a broken session, or an exception that is none of the session's, stops the receive. */
  predicate EndsIt(panel: Panel, job: Job) {
    job.Item? && (panel(job.name, job.number) == Broken || panel(job.name, job.number) == Escapes)
  }

  /** The receive gets past the first c jobs, and no further. */
  predicate GetsTo(panel: Panel, jobs: seq<Job>, c: nat) {
    && c <= |jobs|
    && (forall i | 0 <= i < c :: !EndsIt(panel, jobs[i]))
    && (c < |jobs| ==> EndsIt(panel, jobs[c]))
  }

  lemma {:induction false} GetsSomewhere(panel: Panel, jobs: seq<Job>) returns (c: nat)
    ensures GetsTo(panel, jobs, c)
  {
    c := 0;
    if jobs != [] && !EndsIt(panel, jobs[0]) {
      var later := GetsSomewhere(panel, jobs[1..]);
      c := later + 1;
    }
  }

  lemma {:induction false} ReachedIs(panel: Panel, jobs: seq<Job>, c: nat)
    requires GetsTo(panel, jobs, c)
    ensures Reached(panel, jobs) == jobs[..c]
    decreases |jobs|
  {
    if c > 0 {
      ReachedIs(panel, jobs[1..], c - 1);
      assert jobs[..c] == [jobs[0]] + jobs[1..][..c - 1];
    }
  }

  // ---- The lists ----

  predicate Ascending(s: seq<int>) { forall i, k | 0 <= i < k < |s| :: s[i] < s[k] }

  lemma AscendingCons(x: int, s: seq<int>)
    requires Ascending(s) && forall y | y in s :: x < y
    ensures Ascending([x] + s)
  {
    assert forall k | 0 <= k < |s| :: s[k] in s;
  }

  lemma TailAscends(jobs: seq<Job>, name: string)
    requires Ascends(jobs, name) && jobs != []
    ensures Ascends(jobs[1..], name)
    ensures jobs[0].Item? && jobs[0].name == name ==> forall n | Item(name, n) in jobs[1..] :: jobs[0].number < n
  {
    forall n | Item(name, n) in jobs[1..] && jobs[0].Item? && jobs[0].name == name ensures jobs[0].number < n {
      var k :| 0 < k < |jobs| && jobs[k] == Item(name, n);
    }
  }

  lemma {:induction false} ReadAscending(panel: Panel, jobs: seq<Job>, name: string)
    requires Ascends(jobs, name)
    ensures Ascending(NumbersRead(panel, jobs, name))
    decreases |jobs|
  {
    if jobs != [] {
      TailAscends(jobs, name);
      ReadAscending(panel, jobs[1..], name);
      var rest := NumbersRead(panel, jobs[1..], name);
      forall n | n in rest ensures Item(name, n) in jobs[1..] { InNumbersRead(panel, jobs[1..], name, n); }
      if jobs[0].Item? && jobs[0].name == name { AscendingCons(jobs[0].number, rest); }
      assert [] + rest == rest;
    }
  }

  lemma {:induction false} UnansweredAscending(panel: Panel, jobs: seq<Job>, name: string)
    requires Ascends(jobs, name)
    ensures Ascending(NumbersUnanswered(panel, jobs, name))
    decreases |jobs|
  {
    if jobs != [] {
      TailAscends(jobs, name);
      UnansweredAscending(panel, jobs[1..], name);
      var rest := NumbersUnanswered(panel, jobs[1..], name);
      forall n | n in rest ensures Item(name, n) in jobs[1..] { InNumbersUnanswered(panel, jobs[1..], name, n); }
      if jobs[0].Item? && jobs[0].name == name { AscendingCons(jobs[0].number, rest); }
      assert [] + rest == rest;
    }
  }

  /** The items of one table among the first c jobs that were read, or given up, and nothing else. */
  predicate ListsRead(panel: Panel, jobs: seq<Job>, name: string, list: seq<int>) {
    && Ascending(list)
    && (forall n | n in list :: Item(name, n) in jobs && panel(name, n).Data?)
    && forall j | j in jobs && j.Item? && j.name == name && panel(name, j.number).Data? :: j.number in list
  }

  predicate ListsUnanswered(panel: Panel, jobs: seq<Job>, name: string, list: seq<int>) {
    && Ascending(list)
    && (forall n | n in list :: Item(name, n) in jobs && (panel(name, n) == NoReply || panel(name, n) == Refused))
    && forall j | j in jobs && j.Item? && j.name == name
                  && (panel(name, j.number) == NoReply || panel(name, j.number) == Refused) :: j.number in list
  }

  lemma ListsAre(panel: Panel, jobs: seq<Job>, name: string)
    requires Ascends(jobs, name)
    ensures ListsRead(panel, jobs, name, NumbersRead(panel, jobs, name))
    ensures ListsUnanswered(panel, jobs, name, NumbersUnanswered(panel, jobs, name))
  {
    ReadAscending(panel, jobs, name);
    UnansweredAscending(panel, jobs, name);
    forall n ensures n in NumbersRead(panel, jobs, name) <==> Item(name, n) in jobs && panel(name, n).Data? {
      InNumbersRead(panel, jobs, name, n);
    }
    forall n
      ensures n in NumbersUnanswered(panel, jobs, name) <==>
              Item(name, n) in jobs && (panel(name, n).NoReply? || panel(name, n).Refused?)
    {
      InNumbersUnanswered(panel, jobs, name, n);
    }
  }

  /** The report and the end of a receive, for one table. */
  predicate Reports(panel: Panel, jobs: seq<Job>, c: nat, end: State, name: string, list: seq<int>)
    requires c <= |jobs|
  {
    && ListsRead(panel, jobs[..c], name, list)
    && |list| == (if name in end.report.read then end.report.read[name] else 0)
    && ListsUnanswered(panel, jobs[..c], name,
                       if name in end.report.unanswered then end.report.unanswered[name] else [])
    && (end.halt == Going <==> c == |jobs|)
    && (end.halt == Returned <==> c < |jobs| && jobs[c].Item? && panel(jobs[c].name, jobs[c].number) == Broken)
  }

  lemma AddsToEmpty(r: Report, name: string, unanswered: seq<int>, read: seq<int>)
    requires Adds(EMPTY_REPORT, r, name, unanswered, read)
    ensures (if name in r.unanswered then r.unanswered[name] else []) == unanswered
    ensures (if name in r.read then r.read[name] else 0) == |read|
  {
    assert [] + unanswered == unanswered;
  }

  lemma HaltIs(panel: Panel, jobs: seq<Job>, c: nat, halt: Halt)
    requires GetsTo(panel, jobs, c) && halt == if c < |jobs| then HaltOf(panel, jobs[c]) else Going
    ensures halt == Going <==> c == |jobs|
    ensures halt == Returned <==>
            c < |jobs| && jobs[c].Item? && panel(jobs[c].name, jobs[c].number) == Broken
  {}

  lemma JobsReport(cfg: Config, panel: Panel, tables: Tables, jobs: seq<Job>, c: nat, name: string, end: State)
    requires ConfigOk(cfg) && PanelOk(cfg, panel) && TablesOk(cfg, tables) && JobsOk(cfg, jobs)
    requires GetsTo(panel, jobs, c) && Ascends(jobs, name)
    requires end == RunJobs(cfg, panel, State(tables, EMPTY_REPORT, Going), jobs)
    ensures Reports(panel, jobs, c, end, name, NumbersRead(panel, jobs[..c], name))
  {
    ReachedIs(panel, jobs, c);
    assert Ascends(jobs[..c], name);
    ListsAre(panel, jobs[..c], name);
    ReportCounts(cfg, panel, State(tables, EMPTY_REPORT, Going), jobs, name, end);
    AddsToEmpty(end.report, name, NumbersUnanswered(panel, jobs[..c], name), NumbersRead(panel, jobs[..c], name));
    HaltIs(panel, jobs, c, end.halt);
  }

  /** What the whole receive of distinct tables reports of one of them: as many items read as replied,
      and the items given up, in ascending order; it ends as the first job that ends it says. */
  lemma ReceiveReports(cfg: Config, panel: Panel, tables: Tables, names: seq<string>, c: nat, name: string)
    returns (list: seq<int>)
    requires ConfigOk(cfg) && PanelOk(cfg, panel) && TablesOk(cfg, tables)
    requires (forall n | n in names :: n in cfg.specs) && Distinct(names)
    requires GetsTo(panel, Jobs(cfg, names), c)
    ensures JobsOk(cfg, Jobs(cfg, names))
    ensures Reports(panel, Jobs(cfg, names), c,
                    RunJobs(cfg, panel, State(tables, EMPTY_REPORT, Going), Jobs(cfg, names)), name, list)
  {
    JobsAreOk(cfg, names);
    JobsAscend(cfg, names, name);
    JobsReport(cfg, panel, tables, Jobs(cfg, names), c, name,
               RunJobs(cfg, panel, State(tables, EMPTY_REPORT, Going), Jobs(cfg, names)));
    list := NumbersRead(panel, Jobs(cfg, names)[..c], name);
  }

  lemma {:induction false} ChangedAscending(cfg: Config, panel: Panel, tables: Tables, jobs: seq<Job>, name: string)
    requires ConfigOk(cfg) && TablesOk(cfg, tables) && JobsOk(cfg, jobs) && name in cfg.specs && Ascends(jobs, name)
    ensures Ascending(NumbersChanged(cfg, panel, tables, jobs, name))
    decreases |jobs|
  {
    if jobs != [] {
      TailAscends(jobs, name);
      ChangedAscending(cfg, panel, tables, jobs[1..], name);
      var rest := NumbersChanged(cfg, panel, tables, jobs[1..], name);
      forall n | n in rest ensures Item(name, n) in jobs[1..] {
        InNumbersChanged(cfg, panel, tables, jobs[1..], name, n);
      }
      if jobs[0].Item? && jobs[0].name == name { AscendingCons(jobs[0].number, rest); }
      assert [] + rest == rest;
    }
  }

  /** The account has this item and sends these bytes for it. */
  predicate HasAlready(cfg: Config, tables: Tables, name: string, n: int, raw: seq<byte>)
    requires ConfigOk(cfg) && TablesOk(cfg, tables) && name in cfg.specs
  {
    name in tables && n in tables[name] && EncodeRecord(cfg.specs[name], tables[name][n]) == raw
  }

  /** In ascending order the items read that the account lacked or would have sent otherwise. */
  ghost predicate ListsChanged(cfg: Config, panel: Panel, tables: Tables, jobs: seq<Job>, name: string, list: seq<int>)
    requires ConfigOk(cfg) && TablesOk(cfg, tables) && name in cfg.specs
  {
    && Ascending(list)
    && forall n :: n in list <==>
         Item(name, n) in jobs && panel(name, n).Data? && !HasAlready(cfg, tables, name, n, panel(name, n).raw)
  }

  lemma ChangedAre(cfg: Config, panel: Panel, tables: Tables, jobs: seq<Job>, name: string)
    requires ConfigOk(cfg) && TablesOk(cfg, tables) && JobsOk(cfg, jobs) && name in cfg.specs && Ascends(jobs, name)
    ensures ListsChanged(cfg, panel, tables, jobs, name, NumbersChanged(cfg, panel, tables, jobs, name))
  {
    ChangedAscending(cfg, panel, tables, jobs, name);
    forall n
      ensures n in NumbersChanged(cfg, panel, tables, jobs, name) <==>
        Item(name, n) in jobs && panel(name, n).Data? && !HasAlready(cfg, tables, name, n, panel(name, n).raw)
    {
      InNumbersChanged(cfg, panel, tables, jobs, name, n);
    }
  }

  lemma JobsChange(cfg: Config, panel: Panel, tables: Tables, jobs: seq<Job>, c: nat, name: string, end: State)
    requires ConfigOk(cfg) && PanelOk(cfg, panel) && TablesOk(cfg, tables) && JobsOk(cfg, jobs)
    requires GetsTo(panel, jobs, c) && JobsOk(cfg, jobs[..c]) && Distinct(jobs)
    requires end == RunJobs(cfg, panel, State(tables, EMPTY_REPORT, Going), jobs)
    ensures Listed(end.report.changed, name) == NumbersChanged(cfg, panel, tables, jobs[..c], name)
  {
    ReachedIs(panel, jobs, c);
    ReportChanged(cfg, panel, State(tables, EMPTY_REPORT, Going), jobs, name, end);
    var list := NumbersChanged(cfg, panel, tables, jobs[..c], name);
    assert [] + list == list;
  }

  /** The changed list of a table: in ascending order the items read that the account lacked or would have
      sent otherwise. */
  lemma ReceiveChanges(cfg: Config, panel: Panel, tables: Tables, names: seq<string>, c: nat, name: string)
    requires ConfigOk(cfg) && PanelOk(cfg, panel) && TablesOk(cfg, tables) && name in cfg.specs
    requires (forall n | n in names :: n in cfg.specs) && Distinct(names)
    requires GetsTo(panel, Jobs(cfg, names), c)
    ensures JobsOk(cfg, Jobs(cfg, names))
    ensures var jobs := Jobs(cfg, names);
            var changed := RunJobs(cfg, panel, State(tables, EMPTY_REPORT, Going), jobs).report.changed;
            ListsChanged(cfg, panel, tables, jobs[..c], name, if name in changed then changed[name] else [])
  {
    var jobs := Jobs(cfg, names);
    JobsDistinct(cfg, names);
    JobsAscend(cfg, names, name);
    assert JobsOk(cfg, jobs[..c]) && Ascends(jobs[..c], name);
    JobsChange(cfg, panel, tables, jobs, c, name, RunJobs(cfg, panel, State(tables, EMPTY_REPORT, Going), jobs));
    ChangedAre(cfg, panel, tables, jobs[..c], name);
  }

  /** After a receive of distinct tables, the record of every item read holds what the bytes of its reply
      mean, field by field. */
  lemma ReceivedRecordMeans(cfg: Config, panel: Panel, tables: Tables, names: seq<string>, c: nat, name: string,
                            n: int, o: seq<nat>)
    requires ConfigOk(cfg) && PanelOk(cfg, panel) && TablesOk(cfg, tables) && name in cfg.specs
    requires (forall x | x in names :: x in cfg.specs) && Distinct(names)
    requires GetsTo(panel, Jobs(cfg, names), c) && Item(name, n) in Jobs(cfg, names)[..c] && panel(name, n).Data?
    requires Offsets(cfg.specs[name].fields, o)
    ensures JobsOk(cfg, Jobs(cfg, names))
    ensures var after := RunJobs(cfg, panel, State(tables, EMPTY_REPORT, Going), Jobs(cfg, names)).tables;
            && name in after && n in after[name]
            && RecordMeans(cfg.specs[name].fields, o, panel(name, n).raw, after[name][n])
  {
    JobsDistinct(cfg, names);
    ReachedIs(panel, Jobs(cfg, names), c);
    var spec, raw, local := cfg.specs[name], panel(name, n).raw, Local(tables, name, n);
    ReadItemsMerged(cfg, panel, State(tables, EMPTY_REPORT, Going), Jobs(cfg, names), name, n);
    MergedHolds(spec, raw, local);
    HeldRecordMeans(spec.fields, o, raw, Merged(local, DecodeRecord(spec, raw).value));
  }

  lemma HeldRecordMeans(fields: seq<Field>, o: seq<nat>, raw: seq<byte>, record: Record)
    requires AllEncodable(fields) && Offsets(fields, o) && |raw| == TotalSize(fields) && Holds(fields, raw, record)
    ensures RecordMeans(fields, o, raw, record)
  {
    assert raw[0..] == raw;
    forall k | 0 <= k < |fields| ensures MeansAt(fields, o, raw, record, k) {
      HoldsPlaced(fields, o, raw, record, k);
    }
  }

  /** The list holds exactly the numbers from `first`, so many. */
  predicate IsRange(list: seq<int>, first: int, count: nat) {
    && Ascending(list) && (forall i | 0 <= i < |list| :: first <= list[i] < first + count)
    && forall n | first <= n < first + count :: n in list
  }

  lemma RangeFront(list: seq<int>, first: int, count: nat)
    requires IsRange(list, first, count) && count > 0
    ensures list != [] && list[|list| - 1] == first + count - 1
    ensures IsRange(list[..|list| - 1], first, count - 1)
  {
    var last := first + count - 1;
    assert last in list;
    var k :| 0 <= k < |list| && list[k] == last;
    var front := list[..|list| - 1];
    forall n | first <= n < last ensures n in front {
      assert n in list;
      var i :| 0 <= i < |list| && list[i] == n;
      assert front[i] == n;
    }
  }

  lemma {:induction false} RangeLength(list: seq<int>, first: int, count: nat)
    requires IsRange(list, first, count)
    ensures |list| == count
    decreases count
  {
    assert list == [] || first <= list[0] < first + count;
    if count > 0 {
      RangeFront(list, first, count);
      RangeLength(list[..|list| - 1], first, count - 1);
    }
  }

  /** If every covered item of a table is read and nothing ends the receive, it counts as many items as
      the table has, or as the limit allows. */
  lemma EveryItemCounted(cfg: Config, panel: Panel, tables: Tables, names: seq<string>, name: string)
    requires ConfigOk(cfg) && PanelOk(cfg, panel) && TablesOk(cfg, tables)
    requires (forall n | n in names :: n in cfg.specs) && Distinct(names)
    requires name in names && name in cfg.wired && GetsTo(panel, Jobs(cfg, names), |Jobs(cfg, names)|)
    requires forall n | Covered(cfg, name, n) :: panel(name, n).Data?
    ensures JobsOk(cfg, Jobs(cfg, names))
    ensures var report := RunJobs(cfg, panel, State(tables, EMPTY_REPORT, Going), Jobs(cfg, names)).report;
            (if name in report.read then report.read[name] else 0) ==
            (if name !in cfg.limits || cfg.specs[name].count <= cfg.limits[name] then cfg.specs[name].count
             else if cfg.limits[name] < 0 then 0 else cfg.limits[name])
  {
    var jobs := Jobs(cfg, names);
    var list := ReceiveReports(cfg, panel, tables, names, |jobs|, name);
    assert jobs[..|jobs|] == jobs;
    var spec := cfg.specs[name];
    var count: nat :=
      if name !in cfg.limits || spec.count <= cfg.limits[name] then spec.count
      else if cfg.limits[name] < 0 then 0 else cfg.limits[name];
    forall n ensures n in list <==> spec.first <= n < spec.first + count {
      JobsCover(cfg, names, Item(name, n));
    }
    assert forall i | 0 <= i < |list| :: list[i] in list;
    RangeLength(list, spec.first, count);
  }

  // ---- The errors ----

  predicate FaultOf(panel: Panel, job: Job, fault: Fault) {
    match fault
    case NoWire(name) => job == Unmapped(name)
    case BadReply(name, n) => job == Item(name, n) && panel(name, n) == Refused
    case Stopped(name, n) => job == Item(name, n) && panel(name, n) == Broken
  }

  predicate Faulty(panel: Panel, job: Job) {
    job.Unmapped? || panel(job.name, job.number) == Refused || panel(job.name, job.number) == Broken
  }

  /** The errors are those of the faulty jobs among these, in order: p says which. */
  predicate ErrorsOf(panel: Panel, jobs: seq<Job>, p: seq<int>, errors: seq<Fault>) {
    && |p| == |errors| && Rising(p, |jobs|)
    && (forall k | 0 <= k < |p| :: FaultOf(panel, jobs[p[k]], errors[k]))
    && forall i | 0 <= i < |jobs| && Faulty(panel, jobs[i]) :: i in p
  }

  /** What one job adds to the errors. */
  function ErrorsFrom(panel: Panel, job: Job): seq<Fault> {
    match job
    case Unmapped(name) => [NoWire(name)]
    case Item(name, n) =>
      if panel(name, n) == Refused then [BadReply(name, n)]
      else if panel(name, n) == Broken then [Stopped(name, n)]
      else []
  }

  lemma StepErrors(cfg: Config, panel: Panel, s: State, job: Job)
    requires ConfigOk(cfg) && PanelOk(cfg, panel) && TablesOk(cfg, s.tables) && job.name in cfg.specs
    ensures Step(cfg, panel, s, job).report.errors == s.report.errors + ErrorsFrom(panel, job)
  {}

  lemma ErrorsSame(panel: Panel, jobs: seq<Job>, p: seq<int>, errors: seq<Fault>, job: Job)
    requires ErrorsOf(panel, jobs, p, errors) && !Faulty(panel, job)
    ensures ErrorsOf(panel, jobs + [job], p, errors)
  {
    var all := jobs + [job];
    RisingMore(p, |jobs|);
    forall k | 0 <= k < |p| ensures FaultOf(panel, all[p[k]], errors[k]) { assert all[p[k]] == jobs[p[k]]; }
    forall i | 0 <= i < |all| && Faulty(panel, all[i]) ensures i in p { assert all[i] == jobs[i]; }
  }

  lemma ErrorsOneMore(panel: Panel, jobs: seq<Job>, p: seq<int>, errors: seq<Fault>, job: Job, fault: Fault)
    requires ErrorsOf(panel, jobs, p, errors) && FaultOf(panel, job, fault)
    ensures ErrorsOf(panel, jobs + [job], p + [|jobs|], errors + [fault])
  {
    var all, q, faults := jobs + [job], p + [|jobs|], errors + [fault];
    RisingMore(p, |jobs|);
    forall k | 0 <= k < |q| ensures FaultOf(panel, all[q[k]], faults[k]) {
      if k < |p| { assert all[p[k]] == jobs[p[k]] && FaultOf(panel, jobs[p[k]], errors[k]); }
    }
    forall i | 0 <= i < |all| && Faulty(panel, all[i]) ensures i in q {
      if i < |jobs| { assert all[i] == jobs[i] && i in p; }
    }
  }

  lemma ErrorsMore(panel: Panel, jobs: seq<Job>, p: seq<int>, errors: seq<Fault>, job: Job) returns (q: seq<int>)
    requires ErrorsOf(panel, jobs, p, errors)
    ensures ErrorsOf(panel, jobs + [job], q, errors + ErrorsFrom(panel, job))
  {
    if Faulty(panel, job) {
      q := p + [|jobs|];
      ErrorsOneMore(panel, jobs, p, errors, job, ErrorsFrom(panel, job)[0]);
      assert ErrorsFrom(panel, job) == [ErrorsFrom(panel, job)[0]];
    } else {
      q := p;
      ErrorsSame(panel, jobs, p, errors, job);
      assert errors + [] == errors;
    }
  }

  /** The jobs that are tried: those before the one that ends the receive, and that one. */
  function Tried(jobs: seq<Job>, c: nat): seq<Job>
    requires c <= |jobs|
  {
    jobs[..if c < |jobs| then c + 1 else c]
  }

  lemma TriedNext(done: seq<Job>, jobs: seq<Job>, c: nat)
    requires 0 < c <= |jobs|
    ensures done + [jobs[0]] + Tried(jobs[1..], c - 1) == done + Tried(jobs, c)
  {}

  lemma RunNext(cfg: Config, panel: Panel, s: State, jobs: seq<Job>)
    requires ConfigOk(cfg) && PanelOk(cfg, panel) && TablesOk(cfg, s.tables) && JobsOk(cfg, jobs) && s.halt.Going?
    requires jobs != []
    ensures var next := Step(cfg, panel, s, jobs[0]);
            && TablesOk(cfg, next.tables) && RunJobs(cfg, panel, s, jobs) == RunJobs(cfg, panel, next, jobs[1..])
            && (next.halt.Going? <==> !EndsIt(panel, jobs[0]))
            && (EndsIt(panel, jobs[0]) ==> RunJobs(cfg, panel, s, jobs) == next)
  {
    StepKeepsTablesOk(cfg, panel, s, jobs[0]);
  }

  lemma {:induction false} RunErrors(cfg: Config, panel: Panel, s: State, done: seq<Job>, jobs: seq<Job>, c: nat,
                                     p: seq<int>)
    returns (q: seq<int>)
    requires ConfigOk(cfg) && PanelOk(cfg, panel) && TablesOk(cfg, s.tables) && JobsOk(cfg, jobs) && s.halt.Going?
    requires GetsTo(panel, jobs, c) && ErrorsOf(panel, done, p, s.report.errors)
    ensures ErrorsOf(panel, done + Tried(jobs, c), q, RunJobs(cfg, panel, s, jobs).report.errors)
    decreases |jobs|
  {
    if jobs == [] {
      q := p;
      assert done + [] == done;
    } else {
      StepErrors(cfg, panel, s, jobs[0]);
      RunNext(cfg, panel, s, jobs);
      q := ErrorsMore(panel, done, p, s.report.errors, jobs[0]);
      if c == 0 {
        assert Tried(jobs, 0) == [jobs[0]];
      } else {
        q := RunErrors(cfg, panel, Step(cfg, panel, s, jobs[0]), done + [jobs[0]], jobs[1..], c - 1, q);
        TriedNext(done, jobs, c);
      }
    }
  }

  /** The errors of a receive: in the order of its jobs, the tables without a wire, the items refused,
      and the item that broke it off, if one did. */
  lemma ReceiveErrors(cfg: Config, panel: Panel, tables: Tables, names: seq<string>, c: nat) returns (p: seq<int>)
    requires ConfigOk(cfg) && PanelOk(cfg, panel) && TablesOk(cfg, tables)
    requires forall n | n in names :: n in cfg.specs
    requires GetsTo(panel, Jobs(cfg, names), c)
    ensures JobsOk(cfg, Jobs(cfg, names))
    ensures var jobs := Jobs(cfg, names);
            ErrorsOf(panel, Tried(jobs, c), p,
                     RunJobs(cfg, panel, State(tables, EMPTY_REPORT, Going), jobs).report.errors)
  {
    JobsAreOk(cfg, names);
    var jobs := Jobs(cfg, names);
    p := RunErrors(cfg, panel, State(tables, EMPTY_REPORT, Going), [], jobs, c, []);
    assert [] + Tried(jobs, c) == Tried(jobs, c);
  }
}
