/** Tracking of remote programming sessions: app claims matched against the panel's own status
    (custom_components/elkm1/programming.py). Two unsynchronised sources drive it. */
module Tracker {
  import opened Bytes

  const HISTORY_LIMIT: nat := 20
  const CLAIM_UNMATCHED_AFTER_SECONDS: real := 300.0
  const SOURCE_UNATTRIBUTED := "unattributed"

  datatype Claim = Claim(source: string, user: string, purpose: string, claimedAt: real, rpSeen: bool)

  datatype SessionRecord = SessionRecord(
    source: string, user: string, purpose: string, started: real, ended: real, attributed: bool, rpSeen: bool)

  /** Repair issues, one per config entry and kind. */
  datatype Issue = Unattributed(entry: string) | ClaimUnmatched(entry: string)

  /** Events on the bus; the ended event carries the whole record. */
  datatype Notice =
    | STARTED(source: string, user: string, purpose: string, attributed: bool, rpSeen: bool)
    | ENDED(record: SessionRecord)

  datatype State = State(
    claim: Option<Claim>,
    unattributedStarted: Option<real>,
    rpConnected: bool,
    history: seq<SessionRecord>,
    sessionCount: int,
    issues: set<Issue>,
    bus: seq<Notice>)

  datatype Event =
    | ClaimSession(source: string, user: string, purpose: string, now: real)
    | EndSession(source: string, user: string, now: real)
    | RpStatus(entry: string, connected: bool, now: real)
    | CheckClaim(entry: string, now: real)

  // ---- Steps ----

  function LastOnes<T>(s: seq<T>, n: nat): seq<T> {
    if |s| <= n then s else s[|s| - n..]
  }

  /** `_append` and the ended event that always goes with it. */
  function Recorded(s: State, record: SessionRecord): State {
    s.(history := LastOnes(s.history + [record], HISTORY_LIMIT),
       sessionCount := s.sessionCount + 1,
       bus := s.bus + [ENDED(record)])
  }

  /** `_close_claim`; an empty user keeps the claim's own. */
  function Closed(s: State, now: real, user: string): State
    requires s.claim.Some?
  {
    var c := s.claim.value;
    var closer := if user == "" then c.user else user;
    Recorded(s, SessionRecord(c.source, closer, c.purpose, c.claimedAt, now, true, c.rpSeen))
      .(claim := None)
  }

  function WithoutUnattributed(issues: set<Issue>): set<Issue> {
    set i | i in issues && !i.Unattributed?
  }

  function WithoutUnmatched(issues: set<Issue>): set<Issue> {
    set i | i in issues && !i.ClaimUnmatched?
  }

  function Next(s: State, ev: Event): State {
    match ev
    case ClaimSession(source, user, purpose, now) =>
      var closed := if s.claim.Some? then Closed(s, now, "") else s;
      var adopting := s.unattributedStarted.Some?;
      closed.(claim := Some(Claim(source, user, purpose, now, s.rpConnected)),
              unattributedStarted := None,
              issues := if adopting then WithoutUnattributed(closed.issues) else closed.issues,
              bus := closed.bus + [STARTED(source, user, purpose, true, s.rpConnected)])
    case EndSession(_, user, now) =>
      if s.claim.None? then s
      else var closed := Closed(s, now, user); closed.(issues := WithoutUnmatched(closed.issues))
    case RpStatus(entry, connected, now) =>
      var t := s.(rpConnected := connected);
      if connected then
        if s.claim.Some? then
          t.(claim := Some(s.claim.value.(rpSeen := true)), issues := WithoutUnmatched(s.issues))
        else if s.unattributedStarted.None? then
          t.(unattributedStarted := Some(now),
             bus := s.bus + [STARTED(SOURCE_UNATTRIBUTED, "", "", false, true)],
             issues := s.issues + {Unattributed(entry)})
        else t
      else if s.unattributedStarted.Some? then
        Recorded(t, SessionRecord(SOURCE_UNATTRIBUTED, "", "", s.unattributedStarted.value, now, false, true))
          .(unattributedStarted := None)
      else t
    case CheckClaim(entry, now) =>
      if s.claim.None? || s.claim.value.rpSeen || now - s.claim.value.claimedAt < CLAIM_UNMATCHED_AFTER_SECONDS then s
      else s.(issues := s.issues + {ClaimUnmatched(entry)})
  }

  function Run(s: State, events: seq<Event>): State
    decreases |events|
  {
    if events == [] then s else Run(Next(s, events[0]), events[1..])
  }

  // ---- The object ----

  class ProgrammingTracker {
    var claim: Option<Claim>
    var unattributedStarted: Option<real>
    var rpConnected: bool
    var history: seq<SessionRecord>
    var sessionCount: int
    var issues: set<Issue>
    var bus: seq<Notice>

    /** A tracker that has loaded its storage. */
    constructor (claim: Option<Claim>, history: seq<SessionRecord>, sessionCount: int)
      ensures Value() == State(claim, None, false, history, sessionCount, {}, [])
    {
      this.claim, unattributedStarted, rpConnected := claim, None, false;
      this.history, this.sessionCount, issues, bus := history, sessionCount, {}, [];
    }

    function Value(): State
      reads this
    {
      State(claim, unattributedStarted, rpConnected, history, sessionCount, issues, bus)
    }

    method Append(record: SessionRecord)
      modifies this
      ensures Value() == old(Value()).(history := LastOnes(old(history) + [record], HISTORY_LIMIT),
                                       sessionCount := old(sessionCount) + 1)
    {
      history := history + [record];
      if |history| > HISTORY_LIMIT {
        history := history[|history| - HISTORY_LIMIT..];
      }
      sessionCount := sessionCount + 1;
    }

    method CloseClaim(ended: real, user: string)
      requires claim.Some?
      modifies this
      ensures Value() == Closed(old(Value()), ended, user)
    {
      var c := claim.value;
      var record :=
        SessionRecord(c.source, if user == "" then c.user else user, c.purpose, c.claimedAt, ended, true, c.rpSeen);
      Append(record);
      claim := None;
      bus := bus + [ENDED(record)];
    }

    method AsyncClaim(source: string, user: string, purpose: string, now: real)
      modifies this
      ensures Value() == Next(old(Value()), ClaimSession(source, user, purpose, now))
    {
      if claim.Some? {
        CloseClaim(now, "");
      }
      claim := Some(Claim(source, user, purpose, now, rpConnected));
      if unattributedStarted.Some? {
        unattributedStarted := None;
        issues := WithoutUnattributed(issues);
      }
      bus := bus + [STARTED(source, user, purpose, true, rpConnected)];
    }

    method AsyncEnd(source: string, user: string, now: real)
      modifies this
      ensures Value() == Next(old(Value()), EndSession(source, user, now))
    {
      if claim.None? {
        return;
      }
      CloseClaim(now, user);
      issues := WithoutUnmatched(issues);
    }

    method AsyncRpStatus(entry: string, connected: bool, now: real)
      modifies this
      ensures Value() == Next(old(Value()), RpStatus(entry, connected, now))
    {
      rpConnected := connected;
      if connected {
        if claim.Some? {
          claim := Some(claim.value.(rpSeen := true));
          issues := WithoutUnmatched(issues);
        } else if unattributedStarted.None? {
          unattributedStarted := Some(now);
          bus := bus + [STARTED(SOURCE_UNATTRIBUTED, "", "", false, true)];
          issues := issues + {Unattributed(entry)};
        }
      } else if unattributedStarted.Some? {
        var record := SessionRecord(SOURCE_UNATTRIBUTED, "", "", unattributedStarted.value, now, false, true);
        unattributedStarted := None;
        Append(record);
        bus := bus + [ENDED(record)];
      }
    }

    method AsyncCheckClaim(entry: string, now: real)
      modifies this
      ensures Value() == Next(old(Value()), CheckClaim(entry, now))
    {
      if claim.None? || claim.value.rpSeen {
        return;
      }
      if now - claim.value.claimedAt < CLAIM_UNMATCHED_AFTER_SECONDS {
        return;
      }
      issues := issues + {ClaimUnmatched(entry)};
    }
  }

  // ---- What the bus tells ----

  /** The session a listener believes open, and how many unattributed ones were adopted. */
  datatype Phase = CLOSED | UNATTRIBUTED | CLAIMED(source: string, purpose: string)

  datatype View = View(phase: Phase, adopted: nat)

  /** The open session a finished record belongs to. */
  function SessionOf(record: SessionRecord): Phase {
    if record.attributed then CLAIMED(record.source, record.purpose) else UNATTRIBUTED
  }

  /** A listener's automaton; None means the events do not make sense as sessions. */
  function Observe(v: Option<View>, n: Notice): Option<View> {
    match v
    case None => None
    case Some(view) =>
      match n
      case STARTED(source, _, purpose, true, _) =>
        (match view.phase
         case CLOSED => Some(view.(phase := CLAIMED(source, purpose)))
         case UNATTRIBUTED => Some(View(CLAIMED(source, purpose), view.adopted + 1))
         case CLAIMED(_, _) => None)
      case STARTED(_, _, _, false, _) => if view.phase == CLOSED then Some(view.(phase := UNATTRIBUTED)) else None
      case ENDED(record) => if view.phase == SessionOf(record) then Some(view.(phase := CLOSED)) else None
  }

  function Replay(start: Phase, bus: seq<Notice>): Option<View>
    decreases |bus|
  {
    if bus == [] then Some(View(start, 0)) else Observe(Replay(start, bus[..|bus| - 1]), bus[|bus| - 1])
  }

  function PhaseOf(s: State): Phase {
    if s.claim.Some? then CLAIMED(s.claim.value.source, s.claim.value.purpose)
    else if s.unattributedStarted.Some? then UNATTRIBUTED
    else CLOSED
  }

  /** The records of the ended events, in order: the full session log since the start. */
  function EndedRecords(bus: seq<Notice>): seq<SessionRecord>
    decreases |bus|
  {
    if bus == [] then []
    else
      var last := bus[|bus| - 1];
      EndedRecords(bus[..|bus| - 1]) + (if last.ENDED? then [last.record] else [])
  }

  function StartedCount(bus: seq<Notice>): nat
    decreases |bus|
  {
    if bus == [] then 0
    else StartedCount(bus[..|bus| - 1]) + if bus[|bus| - 1].STARTED? then 1 else 0
  }

  function OpenSessions(p: Phase): nat { if p == CLOSED then 0 else 1 }

  lemma ReplaySnoc(start: Phase, bus: seq<Notice>, n: Notice)
    ensures Replay(start, bus + [n]) == Observe(Replay(start, bus), n)
    ensures EndedRecords(bus + [n]) == EndedRecords(bus) + if n.ENDED? then [n.record] else []
    ensures StartedCount(bus + [n]) == StartedCount(bus) + if n.STARTED? then 1 else 0
  {
    assert (bus + [n])[..|bus|] == bus;
  }

  /** In any sensible sequence of events, every start is accounted for: it ended, is open, or
      was adopted by a claim. */
  lemma {:induction false} StartsBalance(start: Phase, bus: seq<Notice>)
    requires Replay(start, bus).Some?
    ensures var v := Replay(start, bus).value;
            StartedCount(bus) + OpenSessions(start) == |EndedRecords(bus)| + OpenSessions(v.phase) + v.adopted
    decreases |bus|
  {
    if bus != [] {
      StartsBalance(start, bus[..|bus| - 1]);
    }
  }

  // ---- Invariants over every run ----

  /** A state as it is just after loading: nothing heard from the panel and no issue raised. */
  predicate Loaded(s: State) {
    && s.unattributedStarted.None? && !s.rpConnected && s.issues == {} && s.bus == []
    && |s.history| <= HISTORY_LIMIT
  }

  ghost predicate Consistent(s: State) {
    && !(s.claim.Some? && s.unattributedStarted.Some?)
    && (s.claim.Some? && s.rpConnected ==> s.claim.value.rpSeen)
    && (s.unattributedStarted.Some? ==> s.rpConnected && exists e :: Unattributed(e) in s.issues)
    && (forall e :: ClaimUnmatched(e) in s.issues ==> s.claim.Some? && !s.claim.value.rpSeen && !s.rpConnected)
  }

  /** The stored state is the one the events on the bus tell. */
  ghost predicate MatchesBus(start: State, s: State) {
    var v := Replay(PhaseOf(start), s.bus);
    && v.Some? && v.value.phase == PhaseOf(s)
    && s.sessionCount == start.sessionCount + |EndedRecords(s.bus)|
    && s.history == LastOnes(start.history + EndedRecords(s.bus), HISTORY_LIMIT)
  }

  /** Keeping the last n of what was kept is keeping the last n of it all. */
  lemma LastOnesAgain<T>(past: seq<T>, log: seq<T>, x: T, n: nat)
    ensures LastOnes(LastOnes(past + log, n) + [x], n) == LastOnes(past + (log + [x]), n)
  {
    assert past + (log + [x]) == past + log + [x];
  }

  lemma RecordedMatches(start: State, s: State, record: SessionRecord)
    requires MatchesBus(start, s) && PhaseOf(s) == SessionOf(record)
    ensures var r := Recorded(s, record);
            && Replay(PhaseOf(start), r.bus) == Some(Replay(PhaseOf(start), s.bus).value.(phase := CLOSED))
            && r.sessionCount == start.sessionCount + |EndedRecords(r.bus)|
            && r.history == LastOnes(start.history + EndedRecords(r.bus), HISTORY_LIMIT)
  {
    ReplaySnoc(PhaseOf(start), s.bus, ENDED(record));
    LastOnesAgain(start.history, EndedRecords(s.bus), record, HISTORY_LIMIT);
  }

  lemma ClosedMatches(start: State, s: State, now: real, user: string)
    requires Consistent(s) && MatchesBus(start, s) && s.claim.Some?
    ensures MatchesBus(start, Closed(s, now, user))
  {
    var c := s.claim.value;
    RecordedMatches(start, s,
      SessionRecord(c.source, if user == "" then c.user else user, c.purpose, c.claimedAt, now, true, c.rpSeen));
  }

  lemma ClaimKeeps(start: State, s: State, ev: Event)
    requires ev.ClaimSession? && Consistent(s) && MatchesBus(start, s)
    ensures Consistent(Next(s, ev)) && MatchesBus(start, Next(s, ev))
  {
    var closed := if s.claim.Some? then Closed(s, ev.now, "") else s;
    if s.claim.Some? { ClosedMatches(start, s, ev.now, ""); }
    ReplaySnoc(PhaseOf(start), closed.bus, STARTED(ev.source, ev.user, ev.purpose, true, s.rpConnected));
  }

  lemma RpStatusKeeps(start: State, s: State, ev: Event)
    requires ev.RpStatus? && Consistent(s) && MatchesBus(start, s)
    ensures Consistent(Next(s, ev)) && MatchesBus(start, Next(s, ev))
  {
    if ev.connected {
      if s.claim.None? && s.unattributedStarted.None? {
        ReplaySnoc(PhaseOf(start), s.bus, STARTED(SOURCE_UNATTRIBUTED, "", "", false, true));
        assert Unattributed(ev.entry) in Next(s, ev).issues;
      }
    } else if s.unattributedStarted.Some? {
      RecordedMatches(start, s,
        SessionRecord(SOURCE_UNATTRIBUTED, "", "", s.unattributedStarted.value, ev.now, false, true));
    }
  }

  lemma StepKeeps(start: State, s: State, ev: Event)
    requires Consistent(s) && MatchesBus(start, s)
    ensures Consistent(Next(s, ev)) && MatchesBus(start, Next(s, ev))
  {
    match ev
    case ClaimSession(_, _, _, _) => ClaimKeeps(start, s, ev);
    case EndSession(_, user, now) => if s.claim.Some? { ClosedMatches(start, s, now, user); }
    case RpStatus(_, _, _) => RpStatusKeeps(start, s, ev);
    case CheckClaim(_, _) =>
  }

  /** Exactly when an issue is outstanding after a step. A claim-unmatched issue is raised only by
      a late check and goes only with the claim's end or with the panel connecting: replacing the
      claim leaves it. An unattributed issue goes only when a claim adopts the session. */
  lemma IssueHistory(s: State, ev: Event, e: string)
    requires Consistent(s)
    ensures ClaimUnmatched(e) in Next(s, ev).issues <==>
              || (ClaimUnmatched(e) in s.issues && !ev.EndSession? && !(ev.RpStatus? && ev.connected))
              || (ev.CheckClaim? && ev.entry == e && s.claim.Some? && !s.claim.value.rpSeen
                  && ev.now - s.claim.value.claimedAt >= CLAIM_UNMATCHED_AFTER_SECONDS)
    ensures Unattributed(e) in Next(s, ev).issues <==>
              || (Unattributed(e) in s.issues && !(ev.ClaimSession? && s.unattributedStarted.Some?))
              || (ev.RpStatus? && ev.connected && ev.entry == e && PhaseOf(s) == CLOSED)
  {}

  lemma {:induction false} RunKeeps(start: State, s: State, events: seq<Event>)
    requires Consistent(s) && MatchesBus(start, s)
    ensures Consistent(Run(s, events)) && MatchesBus(start, Run(s, events))
    decreases |events|
  {
    if events != [] {
      StepKeeps(start, s, events[0]);
      RunKeeps(start, Next(s, events[0]), events[1..]);
    }
  }

  /** From any loaded state, through any interleaving of claims, ends, panel status changes and
      claim checks: a claim and an unattributed session never coexist; a claim held while the
      panel is connected has been seen; an unattributed session means a connected panel and a
      raised issue; an outstanding claim-unmatched issue means an open, unseen claim and a
      disconnected panel; the events on the bus form sessions, each ended with the source and
      purpose it was started with, of which every start is ended, open or adopted; the counter
      counts the ended ones; and the history is the last twenty of the full session log. */
  lemma TrackerInvariants(start: State, events: seq<Event>)
    requires Loaded(start)
    ensures var s := Run(start, events);
            && !(s.claim.Some? && s.unattributedStarted.Some?)
            && (s.claim.Some? && s.rpConnected ==> s.claim.value.rpSeen)
            && (s.unattributedStarted.Some? ==> s.rpConnected && exists e :: Unattributed(e) in s.issues)
            && (forall e :: ClaimUnmatched(e) in s.issues ==> s.claim.Some? && !s.claim.value.rpSeen && !s.rpConnected)
            && Replay(PhaseOf(start), s.bus).Some?
            && StartedCount(s.bus) + OpenSessions(PhaseOf(start)) ==
               |EndedRecords(s.bus)| + OpenSessions(PhaseOf(s)) + Replay(PhaseOf(start), s.bus).value.adopted
            && s.sessionCount == start.sessionCount + |EndedRecords(s.bus)|
            && var log := start.history + EndedRecords(s.bus);
               s.history == if |log| <= 20 then log else log[|log| - 20..]
  {
    assert start.history + EndedRecords(start.bus) == start.history;
    RunKeeps(start, start, events);
    StartsBalance(PhaseOf(start), Run(start, events).bus);
  }

  // ---- Issues and claims over runs ----

  lemma {:induction false} RunSnoc(s: State, events: seq<Event>, ev: Event)
    ensures Run(s, events + [ev]) == Next(Run(s, events), ev)
    decreases |events|
  {
    if events == [] {
      assert [] + [ev] == [ev] && [ev][1..] == [];
    } else {
      assert (events + [ev])[1..] == events[1..] + [ev];
      RunSnoc(Next(s, events[0]), events[1..], ev);
    }
  }

  predicate IsLateCheck(s: State, ev: Event, e: string) {
    && ev.CheckClaim? && ev.entry == e && s.claim.Some? && !s.claim.value.rpSeen
    && ev.now - s.claim.value.claimedAt >= 300.0
  }

  predicate IsConnect(ev: Event) {
    ev.RpStatus? && ev.connected
  }

  predicate OpensUnattributed(s: State, ev: Event, e: string) {
    IsConnect(ev) && ev.entry == e && s.claim.None? && s.unattributedStarted.None?
  }

  predicate Adopts(s: State, ev: Event) {
    ev.ClaimSession? && s.unattributedStarted.Some?
  }

  /** Event k was a late check through entry e, and no end and no connecting panel came after it. */
  predicate UnmatchedSince(start: State, events: seq<Event>, e: string, k: nat) {
    && k < |events| && IsLateCheck(Run(start, events[..k]), events[k], e)
    && forall m | k < m < |events| :: !events[m].EndSession? && !IsConnect(events[m])
  }

  /** Event k opened an unattributed session through entry e, and no claim adopted one after it. */
  predicate UnattributedSince(start: State, events: seq<Event>, e: string, k: nat) {
    && k < |events| && OpensUnattributed(Run(start, events[..k]), events[k], e)
    && forall m | k < m < |events| :: !Adopts(Run(start, events[..m]), events[m])
  }

  lemma UnmatchedSnoc(start: State, front: seq<Event>, ev: Event, e: string, k: nat)
    ensures UnmatchedSince(start, front + [ev], e, k) <==>
              || (UnmatchedSince(start, front, e, k) && !ev.EndSession? && !IsConnect(ev))
              || (k == |front| && IsLateCheck(Run(start, front), ev, e))
  {
    var events := front + [ev];
    assert events[..|front|] == front && (k < |front| ==> events[..k] == front[..k]);
  }

  lemma UnattributedSnoc(start: State, front: seq<Event>, ev: Event, e: string, k: nat)
    ensures UnattributedSince(start, front + [ev], e, k) <==>
              || (UnattributedSince(start, front, e, k) && !Adopts(Run(start, front), ev))
              || (k == |front| && OpensUnattributed(Run(start, front), ev, e))
  {
    var events := front + [ev];
    assert events[..|front|] == front;
    assert forall m | 0 <= m < |front| :: events[..m] == front[..m];
  }

  /** The statement of `IssuesOverRuns` for one run. */
  ghost predicate IssuesExplained(start: State, events: seq<Event>, e: string) {
    && (ClaimUnmatched(e) in Run(start, events).issues <==> exists k :: UnmatchedSince(start, events, e, k))
    && (Unattributed(e) in Run(start, events).issues <==> exists k :: UnattributedSince(start, events, e, k))
  }

  lemma IssuesExplainedSnoc(start: State, front: seq<Event>, ev: Event, e: string)
    requires IssuesExplained(start, front, e) && Consistent(Run(start, front))
    ensures IssuesExplained(start, front + [ev], e)
  {
    RunSnoc(start, front, ev);
    IssueHistory(Run(start, front), ev, e);
    forall k: nat
      ensures UnmatchedSince(start, front + [ev], e, k) <==>
                || (UnmatchedSince(start, front, e, k) && !ev.EndSession? && !IsConnect(ev))
                || (k == |front| && IsLateCheck(Run(start, front), ev, e))
      ensures UnattributedSince(start, front + [ev], e, k) <==>
                || (UnattributedSince(start, front, e, k) && !Adopts(Run(start, front), ev))
                || (k == |front| && OpensUnattributed(Run(start, front), ev, e))
    {
      UnmatchedSnoc(start, front, ev, e, k);
      UnattributedSnoc(start, front, ev, e, k);
    }
    UnmatchedSnoc(start, front, ev, e, |front|);
    UnattributedSnoc(start, front, ev, e, |front|);
  }

  /** When an issue is outstanding after a run from a loaded state: a claim-unmatched one exactly
      when some check through its entry was late for an open, unseen claim and neither an end nor a
      connecting panel came after it; an unattributed one exactly when its entry opened an
      unattributed session and no claim adopted one after it. */
  lemma {:induction false} IssuesOverRuns(start: State, events: seq<Event>, e: string)
    requires Loaded(start)
    ensures ClaimUnmatched(e) in Run(start, events).issues <==> exists k :: UnmatchedSince(start, events, e, k)
    ensures Unattributed(e) in Run(start, events).issues <==> exists k :: UnattributedSince(start, events, e, k)
    decreases |events|
  {
    if events != [] {
      var front, ev := events[..|events| - 1], events[|events| - 1];
      assert start.history + EndedRecords(start.bus) == start.history;
      RunKeeps(start, start, front);
      IssuesOverRuns(start, front, e);
      IssuesExplainedSnoc(start, front, ev, e);
      assert events == front + [ev];
    }
  }

  lemma RunTwo(s: State, a: Event, b: Event)
    ensures Run(s, [a, b]) == Next(Next(s, a), b)
  {
    assert [a, b] == ([] + [a]) + [b];
    RunSnoc(s, [] + [a], b);
    RunSnoc(s, [], a);
  }

  /** So both issues outlive what they are about: an unattributed session that has ended keeps its
      issue, and a claim that replaced a late one carries the late one's. */
  lemma IssuesOutliveTheirCause(start: State, e: string, source: string, user: string, purpose: string, a: real,
                                b: real)
    requires Loaded(start) && start.claim.None?
    ensures var s := Run(start, [RpStatus(e, true, a), RpStatus(e, false, b)]);
            Unattributed(e) in s.issues && PhaseOf(s) == CLOSED && !s.rpConnected
    ensures var late := Next(start, ClaimSession(source, user, purpose, a));
            var check := CheckClaim(e, a + CLAIM_UNMATCHED_AFTER_SECONDS);
            var s := Run(late, [check, ClaimSession(source, user, purpose, b)]);
            ClaimUnmatched(e) in s.issues && s.claim == Some(Claim(source, user, purpose, b, false))
  {
    RunTwo(start, RpStatus(e, true, a), RpStatus(e, false, b));
    RunTwo(Next(start, ClaimSession(source, user, purpose, a)),
           CheckClaim(e, a + CLAIM_UNMATCHED_AFTER_SECONDS), ClaimSession(source, user, purpose, b));
  }

  /** The claim `c` was made by event k, is still open, and has been seen exactly if the panel was
      connected then or has connected since. */
  predicate ClaimedBy(start: State, events: seq<Event>, c: Claim, k: nat) {
    && k < |events| && events[k] == ClaimSession(c.source, c.user, c.purpose, c.claimedAt)
    && (forall m | k < m < |events| :: !events[m].ClaimSession? && !events[m].EndSession?)
    && (c.rpSeen <==> Run(start, events[..k]).rpConnected || exists m | k < m < |events| :: IsConnect(events[m]))
  }

  /** The claim `c` was loaded, is still open, and has been seen exactly if it had been or the panel
      has connected since. */
  predicate ClaimedBefore(start: State, events: seq<Event>, c: Claim) {
    && start.claim.Some? && (forall m | 0 <= m < |events| :: !events[m].ClaimSession? && !events[m].EndSession?)
    && c == start.claim.value.(rpSeen := start.claim.value.rpSeen ||
                                         exists m | 0 <= m < |events| :: IsConnect(events[m]))
  }

  lemma ClaimedBeforeSnoc(start: State, front: seq<Event>, ev: Event, c: Claim)
    requires ClaimedBefore(start, front, c) && !ev.ClaimSession? && !ev.EndSession?
    ensures ClaimedBefore(start, front + [ev], c.(rpSeen := c.rpSeen || IsConnect(ev)))
  {
    var events := front + [ev];
    assert forall m | 0 <= m < |front| :: events[m] == front[m];
    assert events[|front|] == ev;
  }

  lemma ClaimedBySnoc(start: State, front: seq<Event>, ev: Event, c: Claim, k: nat)
    requires ClaimedBy(start, front, c, k) && !ev.ClaimSession? && !ev.EndSession?
    ensures ClaimedBy(start, front + [ev], c.(rpSeen := c.rpSeen || IsConnect(ev)), k)
  {
    var events := front + [ev];
    assert events[..k] == front[..k];
    assert forall m | k < m < |front| :: events[m] == front[m];
    assert events[|front|] == ev;
  }

  /** The open claim, whose time and sighting the record of its session copies, is that of the last
      claim event, or the loaded one while nothing has claimed or ended since. */
  lemma {:induction false} OpenClaimIsLastClaim(start: State, events: seq<Event>)
    requires Loaded(start)
    ensures var s := Run(start, events);
            s.claim.Some? ==>
              ClaimedBefore(start, events, s.claim.value) || exists k :: ClaimedBy(start, events, s.claim.value, k)
    decreases |events|
  {
    if events != [] {
      var front, ev := events[..|events| - 1], events[|events| - 1];
      var s := Run(start, front);
      assert events == front + [ev];
      RunSnoc(start, front, ev);
      OpenClaimIsLastClaim(start, front);
      if ev.ClaimSession? {
        assert events[..|front|] == front;
        assert ClaimedBy(start, events, Next(s, ev).claim.value, |front|);
      } else if Next(s, ev).claim.Some? {
        if ClaimedBefore(start, front, s.claim.value) {
          ClaimedBeforeSnoc(start, front, ev, s.claim.value);
        } else {
          var k :| ClaimedBy(start, front, s.claim.value, k);
          ClaimedBySnoc(start, front, ev, s.claim.value, k);
        }
      }
    }
  }
}
