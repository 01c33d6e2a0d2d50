/** What a bulk receive reports and what it does to the account. */
module ReceiveTheorems {
  import opened Bytes
  import opened Specs
  import opened Records
  import opened RecordTheorems
  import opened Receive

  // ---- The items a receive reaches ----

  /** The jobs before the first one that stops the receive. */
  function Reached(panel: Panel, jobs: seq<Job>): (r: seq<Job>)
    ensures r <= jobs
  {
    if jobs == [] || Stops(panel, jobs[0]) then [] else [jobs[0]] + Reached(panel, jobs[1..])
  }

  predicate IsUnanswered(panel: Panel, job: Job) {
    job.Item? && (panel(job.name, job.number).NoReply? || panel(job.name, job.number).Refused?)
  }

  /** The job's number if it is of table `name` and the condition holds. */
  function Own(condition: bool, job: Job, name: string): seq<int> {
    if condition && job.Item? && job.name == name then [job.number] else []
  }

  /** The item numbers of one table among some jobs, in order. */
  function NumbersRead(panel: Panel, jobs: seq<Job>, name: string): seq<int> {
    if jobs == [] then [] else Own(IsRead(panel, jobs[0]), jobs[0], name) + NumbersRead(panel, jobs[1..], name)
  }

  function NumbersUnanswered(panel: Panel, jobs: seq<Job>, name: string): seq<int> {
    if jobs == [] then []
    else Own(IsUnanswered(panel, jobs[0]), jobs[0], name) + NumbersUnanswered(panel, jobs[1..], name)
  }

  function NumbersChanged(cfg: Config, panel: Panel, tables: Tables, jobs: seq<Job>, name: string): seq<int>
    requires ConfigOk(cfg) && TablesOk(cfg, tables) && JobsOk(cfg, jobs)
    decreases |jobs|
  {
    if jobs == [] then []
    else Own(IsChanged(cfg, panel, tables, jobs[0]), jobs[0], name)
         + NumbersChanged(cfg, panel, tables, jobs[1..], name)
  }

  // ---- The report ----

  /** What one job that does not stop the receive adds to the lists of one table. */
  lemma ReportNext(r: Report, job: Job, reply: Reply, differs: bool, name: string)
    ensures var next, item := NextReport(r, job, reply, differs), job.Item?;
            && Listed(next.unanswered, name) ==
               Listed(r.unanswered, name) + Own(item && (reply.NoReply? || reply.Refused?), job, name)
            && Counted(next.read, name) == Counted(r.read, name) + |Own(item && reply.Data?, job, name)|
            && Listed(next.changed, name) == Listed(r.changed, name) + Own(item && reply.Data? && differs, job, name)
  {}

  lemma StepReport(cfg: Config, panel: Panel, s: State, job: Job, name: string, next: State)
    requires ConfigOk(cfg) && PanelOk(cfg, panel) && TablesOk(cfg, s.tables) && job.name in cfg.specs
    requires !Stops(panel, job) && next == Step(cfg, panel, s, job)
    ensures next.halt == s.halt
    ensures Listed(next.report.unanswered, name) ==
            Listed(s.report.unanswered, name) + Own(IsUnanswered(panel, job), job, name)
    ensures Counted(next.report.read, name) == Counted(s.report.read, name) + |Own(IsRead(panel, job), job, name)|
    ensures Listed(next.report.changed, name) ==
            Listed(s.report.changed, name) + Own(IsChanged(cfg, panel, s.tables, job), job, name)
  {
    ReportNext(s.report, job, Answer(panel, job), IsChanged(cfg, panel, s.tables, job), name);
  }

  lemma StopsAtOnce(cfg: Config, panel: Panel, s: State, jobs: seq<Job>)
    requires ConfigOk(cfg) && PanelOk(cfg, panel) && TablesOk(cfg, s.tables) && JobsOk(cfg, jobs)
    requires jobs != [] && s.halt.Going? && Stops(panel, jobs[0])
    ensures var end := RunJobs(cfg, panel, s, jobs);
            && end.halt == HaltOf(panel, jobs[0]) && end.tables == s.tables && Reached(panel, jobs) == []
            && end.report == if end.halt == Raised then s.report
                             else s.report.(errors := s.report.errors + [Stopped(jobs[0].name, jobs[0].number)])
  {}

  lemma ReachedNext(panel: Panel, jobs: seq<Job>)
    requires jobs != [] && !Stops(panel, jobs[0])
    ensures Reached(panel, jobs) == [jobs[0]] + Reached(panel, jobs[1..])
    ensures Reached(panel, jobs)[1..] == Reached(panel, jobs[1..])
  {}

  /** The lists of one table in `r` are those in `before` followed by the ones given. */
  predicate Adds(before: Report, r: Report, name: string, unanswered: seq<int>, read: seq<int>) {
    && Listed(r.unanswered, name) == Listed(before.unanswered, name) + unanswered
    && Counted(r.read, name) == Counted(before.read, name) + |read|
  }

  lemma AddsThen(a: Report, b: Report, c: Report, name: string, u: seq<int>, r: seq<int>, v: seq<int>, t: seq<int>)
    requires Adds(a, b, name, u, r) && Adds(b, c, name, v, t)
    ensures Adds(a, c, name, u + v, r + t)
  {}

  lemma NumbersCons(panel: Panel, job: Job, rest: seq<Job>, name: string)
    ensures NumbersUnanswered(panel, [job] + rest, name) ==
            Own(IsUnanswered(panel, job), job, name) + NumbersUnanswered(panel, rest, name)
    ensures NumbersRead(panel, [job] + rest, name) ==
            Own(IsRead(panel, job), job, name) + NumbersRead(panel, rest, name)
  {
    assert ([job] + rest)[1..] == rest;
  }

  lemma CountsFirst(panel: Panel, job: Job, rest: seq<Job>, name: string, a: Report, b: Report, c: Report)
    requires Adds(a, b, name, Own(IsUnanswered(panel, job), job, name), Own(IsRead(panel, job), job, name))
    requires Adds(b, c, name, NumbersUnanswered(panel, rest, name), NumbersRead(panel, rest, name))
    ensures Adds(a, c, name, NumbersUnanswered(panel, [job] + rest, name), NumbersRead(panel, [job] + rest, name))
  {
    AddsThen(a, b, c, name, Own(IsUnanswered(panel, job), job, name), Own(IsRead(panel, job), job, name),
             NumbersUnanswered(panel, rest, name), NumbersRead(panel, rest, name));
    NumbersCons(panel, job, rest, name);
  }

  /** The unanswered list and the read count of a table are exactly those of the reached items,
      and the receive ended early exactly when some item was not reached, in the way of that item. */
  lemma {:induction false} ReportCounts(cfg: Config, panel: Panel, s: State, jobs: seq<Job>, name: string, end: State)
    requires ConfigOk(cfg) && PanelOk(cfg, panel) && TablesOk(cfg, s.tables) && JobsOk(cfg, jobs) && s.halt.Going?
    requires end == RunJobs(cfg, panel, s, jobs)
    ensures Adds(s.report, end.report, name, NumbersUnanswered(panel, Reached(panel, jobs), name),
                 NumbersRead(panel, Reached(panel, jobs), name))
    ensures var reached := |Reached(panel, jobs)|;
            end.halt == if reached < |jobs| then HaltOf(panel, jobs[reached]) else Going
    decreases |jobs|
  {
    if jobs == [] {
    } else if Stops(panel, jobs[0]) {
      StopsAtOnce(cfg, panel, s, jobs);
    } else {
      var job, rest := jobs[0], Reached(panel, jobs[1..]);
      var next := Step(cfg, panel, s, job);
      StepKeepsTablesOk(cfg, panel, s, jobs[0]);
      ReportCounts(cfg, panel, next, jobs[1..], name, end);
      StepReport(cfg, panel, s, job, name, next);
      CountsFirst(panel, job, rest, name, s.report, next.report, end.report);
      ReachedNext(panel, jobs);
    }
  }

  lemma StepTouchesOneItem(cfg: Config, panel: Panel, s: State, job: Job, name: string, n: int)
    requires ConfigOk(cfg) && PanelOk(cfg, panel) && TablesOk(cfg, s.tables) && job.name in cfg.specs
    requires job != Item(name, n)
    ensures Local(Step(cfg, panel, s, job).tables, name, n) == Local(s.tables, name, n)
  {}

  lemma {:induction false} ChangedUnaffected(cfg: Config, panel: Panel, s: State, job: Job, jobs: seq<Job>,
                                             name: string, next: State)
    requires ConfigOk(cfg) && PanelOk(cfg, panel) && TablesOk(cfg, s.tables)
    requires job.name in cfg.specs && JobsOk(cfg, jobs) && job !in jobs
    requires next == Step(cfg, panel, s, job) && TablesOk(cfg, next.tables)
    ensures NumbersChanged(cfg, panel, next.tables, jobs, name) == NumbersChanged(cfg, panel, s.tables, jobs, name)
    decreases |jobs|
  {
    if jobs != [] {
      var j := jobs[0];
      if j.Item? { StepTouchesOneItem(cfg, panel, s, job, j.name, j.number); }
      ChangedUnaffected(cfg, panel, s, job, jobs[1..], name, next);
    }
  }

  lemma ReachedOk(cfg: Config, panel: Panel, jobs: seq<Job>)
    requires JobsOk(cfg, jobs)
    ensures JobsOk(cfg, Reached(panel, jobs))
  {
    var r := Reached(panel, jobs);
    forall j | j in r ensures j in jobs { var i :| 0 <= i < |r| && r[i] == j; assert jobs[i] == j; }
  }

  lemma NotReachedTwice(panel: Panel, jobs: seq<Job>)
    requires jobs != [] && Distinct(jobs)
    ensures jobs[0] !in Reached(panel, jobs[1..])
  {
    assert jobs[0] !in jobs[1..];
  }

  lemma ChangedCons(cfg: Config, panel: Panel, s: State, job: Job, rest: seq<Job>, name: string, next: State,
                    after: seq<int>)
    requires ConfigOk(cfg) && PanelOk(cfg, panel) && TablesOk(cfg, s.tables)
    requires job.name in cfg.specs && JobsOk(cfg, rest) && JobsOk(cfg, [job] + rest) && job !in rest
    requires !Stops(panel, job) && next == Step(cfg, panel, s, job) && TablesOk(cfg, next.tables)
    requires after == Listed(next.report.changed, name) + NumbersChanged(cfg, panel, next.tables, rest, name)
    ensures after == Listed(s.report.changed, name) + NumbersChanged(cfg, panel, s.tables, [job] + rest, name)
  {
    StepReport(cfg, panel, s, job, name, next);
    ChangedUnaffected(cfg, panel, s, job, rest, name, next);
    NumbersChangedCons(cfg, panel, s.tables, job, rest, name);
    Associate(Listed(s.report.changed, name), Own(IsChanged(cfg, panel, s.tables, job), job, name),
              NumbersChanged(cfg, panel, s.tables, rest, name));
  }

  lemma Associate(a: seq<int>, b: seq<int>, c: seq<int>)
    ensures a + b + c == a + (b + c)
  {}

  lemma NumbersChangedCons(cfg: Config, panel: Panel, tables: Tables, job: Job, rest: seq<Job>, name: string)
    requires ConfigOk(cfg) && TablesOk(cfg, tables)
    requires job.name in cfg.specs && JobsOk(cfg, rest) && JobsOk(cfg, [job] + rest)
    ensures NumbersChanged(cfg, panel, tables, [job] + rest, name) ==
            Own(IsChanged(cfg, panel, tables, job), job, name) + NumbersChanged(cfg, panel, tables, rest, name)
  {
    assert ([job] + rest)[1..] == rest;
  }

  /** The changed list of a table is exactly the reached items whose record was missing or
      encoded differently before the receive. */
  lemma {:induction false} ReportChanged(cfg: Config, panel: Panel, s: State, jobs: seq<Job>, name: string, end: State)
    requires ConfigOk(cfg) && PanelOk(cfg, panel) && TablesOk(cfg, s.tables) && JobsOk(cfg, jobs)
    requires JobsOk(cfg, Reached(panel, jobs))
    requires s.halt.Going? && Distinct(jobs) && end == RunJobs(cfg, panel, s, jobs)
    ensures Listed(end.report.changed, name) ==
            Listed(s.report.changed, name) + NumbersChanged(cfg, panel, s.tables, Reached(panel, jobs), name)
    decreases |jobs|
  {
    if jobs == [] {
    } else if Stops(panel, jobs[0]) {
      StopsAtOnce(cfg, panel, s, jobs);
    } else {
      var next := Step(cfg, panel, s, jobs[0]);
      StepKeepsTablesOk(cfg, panel, s, jobs[0]);
      ReachedNext(panel, jobs);
      ReachedOk(cfg, panel, jobs[1..]);
      NotReachedTwice(panel, jobs);
      ReportChanged(cfg, panel, next, jobs[1..], name, end);
      ChangedCons(cfg, panel, s, jobs[0], Reached(panel, jobs[1..]), name, next, Listed(end.report.changed, name));
    }
  }

  lemma {:induction false} InNumbersRead(panel: Panel, jobs: seq<Job>, name: string, n: int)
    ensures n in NumbersRead(panel, jobs, name) <==> Item(name, n) in jobs && panel(name, n).Data?
  {
    if jobs != [] { InNumbersRead(panel, jobs[1..], name, n); }
  }

  lemma {:induction false} InNumbersUnanswered(panel: Panel, jobs: seq<Job>, name: string, n: int)
    ensures n in NumbersUnanswered(panel, jobs, name) <==>
            Item(name, n) in jobs && (panel(name, n).NoReply? || panel(name, n).Refused?)
  {
    if jobs != [] { InNumbersUnanswered(panel, jobs[1..], name, n); }
  }

  lemma {:induction false} InNumbersChanged(cfg: Config, panel: Panel, tables: Tables, jobs: seq<Job>, name: string,
                                            n: int)
    requires ConfigOk(cfg) && TablesOk(cfg, tables) && JobsOk(cfg, jobs) && name in cfg.specs
    ensures n in NumbersChanged(cfg, panel, tables, jobs, name) <==>
            Item(name, n) in jobs && IsChanged(cfg, panel, tables, Item(name, n))
    decreases |jobs|
  {
    if jobs != [] { InNumbersChanged(cfg, panel, tables, jobs[1..], name, n); }
  }

  lemma {:induction false} ReachedDoesNotStop(panel: Panel, jobs: seq<Job>, j: Job)
    requires j in Reached(panel, jobs)
    ensures !Stops(panel, j)
  {
    if j != jobs[0] { ReachedDoesNotStop(panel, jobs[1..], j); }
  }

  /** Each item reached is exactly one of read or unanswered, and only items read are reported
      as changed. */
  lemma ItemsPartitioned(cfg: Config, panel: Panel, tables: Tables, jobs: seq<Job>, name: string, n: int)
    requires ConfigOk(cfg) && TablesOk(cfg, tables) && JobsOk(cfg, jobs) && name in cfg.specs
    ensures JobsOk(cfg, Reached(panel, jobs))
    ensures var reached := Reached(panel, jobs);
            && (Item(name, n) in reached <==>
                (n in NumbersRead(panel, reached, name)) != (n in NumbersUnanswered(panel, reached, name)))
            && (n in NumbersChanged(cfg, panel, tables, reached, name) ==> n in NumbersRead(panel, reached, name))
  {
    var reached := Reached(panel, jobs);
    ReachedOk(cfg, panel, jobs);
    InNumbersRead(panel, reached, name, n);
    InNumbersUnanswered(panel, reached, name, n);
    InNumbersChanged(cfg, panel, tables, reached, name, n);
    if Item(name, n) in reached { ReachedDoesNotStop(panel, jobs, Item(name, n)); }
  }

  // ---- The account ----

  /** An item that is not read keeps its local record, or its absence. */
  lemma {:induction false} UnreadItemsUntouched(cfg: Config, panel: Panel, s: State, jobs: seq<Job>, name: string,
                                                n: int)
    requires ConfigOk(cfg) && PanelOk(cfg, panel) && TablesOk(cfg, s.tables) && JobsOk(cfg, jobs)
    requires !(Item(name, n) in Reached(panel, jobs) && panel(name, n).Data?)
    ensures Local(RunJobs(cfg, panel, s, jobs).tables, name, n) == Local(s.tables, name, n)
    decreases |jobs|
  {
    if jobs != [] && s.halt.Going? && !Stops(panel, jobs[0]) {
      StepKeepsTablesOk(cfg, panel, s, jobs[0]);
      UnreadItemsUntouched(cfg, panel, Step(cfg, panel, s, jobs[0]), jobs[1..], name, n);
    }
  }

  /** An item that is read ends as its old local record overlaid with what the panel sent. */
  lemma {:induction false} ReadItemsMerged(cfg: Config, panel: Panel, s: State, jobs: seq<Job>, name: string, n: int)
    requires ConfigOk(cfg) && PanelOk(cfg, panel) && TablesOk(cfg, s.tables) && JobsOk(cfg, jobs)
    requires s.halt.Going? && Distinct(jobs) && name in cfg.specs
    requires Item(name, n) in Reached(panel, jobs) && panel(name, n).Data?
    ensures Local(RunJobs(cfg, panel, s, jobs).tables, name, n) ==
            Some(Merged(Local(s.tables, name, n), DecodeRecord(cfg.specs[name], panel(name, n).raw).value))
    decreases |jobs|
  {
    var next := Step(cfg, panel, s, jobs[0]);
    StepKeepsTablesOk(cfg, panel, s, jobs[0]);
    if jobs[0] == Item(name, n) {
      assert Item(name, n) !in jobs[1..];
      var rest := Reached(panel, jobs[1..]);
      assert Item(name, n) !in rest;
      UnreadItemsUntouched(cfg, panel, next, jobs[1..], name, n);
    } else {
      StepTouchesOneItem(cfg, panel, s, jobs[0], name, n);
      ReadItemsMerged(cfg, panel, next, jobs[1..], name, n);
    }
  }

  lemma {:induction false} DecodedKeys(fields: seq<Field>, raw: seq<byte>, record: Record, k: string)
    requires AllEncodable(fields) && |raw| == TotalSize(fields)
    requires k in DecodeFrom(fields, raw, record)
    ensures k in Keys(fields) || k in record
  {
    if k !in Keys(fields) { DecodeKeepsOtherKeys(fields, raw, record, k); }
  }

  /** After a receive, an item that was read encodes to the normal form of the panel's bytes,
      and every key of its old record that is not a wire field is as it was. */
  lemma ReadItemResult(cfg: Config, panel: Panel, s: State, jobs: seq<Job>, name: string, n: int)
    requires ConfigOk(cfg) && PanelOk(cfg, panel) && TablesOk(cfg, s.tables) && JobsOk(cfg, jobs)
    requires s.halt.Going? && Distinct(jobs) && name in cfg.specs
    requires Item(name, n) in Reached(panel, jobs) && panel(name, n).Data?
    ensures var spec, raw := cfg.specs[name], panel(name, n).raw;
            var before, after := Local(s.tables, name, n), Local(RunJobs(cfg, panel, s, jobs).tables, name, n);
            && after.Some? && WellTyped(spec.fields, after.value)
            && EncodeRecord(spec, after.value) == Normalised(spec, raw)
            && (before.Some? ==> forall k | k in before.value && k !in Keys(spec.fields) ::
                  k in after.value && after.value[k] == before.value[k])
  {
    var spec, raw := cfg.specs[name], panel(name, n).raw;
    var before := Local(s.tables, name, n);
    var decoded := DecodeRecord(spec, raw).value;
    var merged := Merged(before, decoded);
    ReadItemsMerged(cfg, panel, s, jobs, name, n);
    MergedHolds(spec, raw, before);
    EncodeHolding(spec.fields, raw, merged);
    if before.Some? {
      forall k | k in before.value && k !in Keys(spec.fields)
        ensures k in merged && merged[k] == before.value[k]
      {
        if k in decoded { DecodedKeys(spec.fields, raw, map[], k); }
      }
    }
  }

  /** A second receive from an unchanged panel reports as changed exactly the items whose
      bytes are not in normal form. */
  lemma SecondReceive(cfg: Config, panel: Panel, s: State, jobs: seq<Job>, name: string, n: int)
    requires ConfigOk(cfg) && PanelOk(cfg, panel) && TablesOk(cfg, s.tables) && JobsOk(cfg, jobs)
    requires s.halt.Going? && Distinct(jobs) && name in cfg.specs
    ensures var tables := RunJobs(cfg, panel, s, jobs).tables;
            var again := RunJobs(cfg, panel, State(tables, EMPTY_REPORT, Going), jobs);
            n in Listed(again.report.changed, name) <==>
              Item(name, n) in Reached(panel, jobs) && panel(name, n).Data?
              && !IsNormal(cfg.specs[name].fields, panel(name, n).raw)
  {
    var tables := RunJobs(cfg, panel, s, jobs).tables;
    var second := State(tables, EMPTY_REPORT, Going);
    ReachedOk(cfg, panel, jobs);
    ReportChanged(cfg, panel, second, jobs, name, RunJobs(cfg, panel, second, jobs));
    InNumbersChanged(cfg, panel, tables, Reached(panel, jobs), name, n);
    if Item(name, n) in Reached(panel, jobs) && panel(name, n).Data? {
      ReadItemResult(cfg, panel, s, jobs, name, n);
      NormalFixedPoints(cfg.specs[name].fields, panel(name, n).raw);
    }
  }

  // ---- The work list is free of repetition ----

  lemma {:induction false} JobsNamed(cfg: Config, names: seq<string>, j: Job)
    requires forall name | name in names :: name in cfg.specs
    requires j in Jobs(cfg, names)
    ensures j.name in names
  {
    if j !in TableJobs(cfg, names[0]) { JobsNamed(cfg, names[1..], j); }
  }

  lemma DistinctConcat<T>(a: seq<T>, b: seq<T>)
    requires Distinct(a) && Distinct(b) && forall x | x in a :: x !in b
    ensures Distinct(a + b)
  {
    var s := a + b;
    forall i, k | 0 <= i < k < |s| ensures s[i] != s[k] {
      if i < |a| <= k {
        assert s[i] in a && s[k] == b[k - |a|];
      }
    }
  }

  /** Distinct tables give distinct items, which is what the lemmas above ask for. */
  lemma {:induction false} JobsDistinct(cfg: Config, names: seq<string>)
    requires forall name | name in names :: name in cfg.specs
    requires Distinct(names)
    ensures Distinct(Jobs(cfg, names)) && JobsOk(cfg, Jobs(cfg, names))
  {
    JobsAreOk(cfg, names);
    if names != [] {
      var first, rest := TableJobs(cfg, names[0]), Jobs(cfg, names[1..]);
      JobsDistinct(cfg, names[1..]);
      forall j | j in first ensures j !in rest {
        if j in rest { JobsNamed(cfg, names[1..], j); }
      }
      DistinctConcat(first, rest);
    }
  }
}
