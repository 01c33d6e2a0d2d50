/** What the session tracker holds and announces after any run, told from the events alone
    (custom_components/elkm1/programming.py). */
module TrackerRuns {
  import opened Bytes
  import opened Tracker

  // ---- What is open, from the events ----

  predicate EndsClaims(ev: Event) { ev.ClaimSession? || ev.EndSession? }

  predicate Disconnects(ev: Event) { ev.RpStatus? && !ev.connected }

  /** Event k claimed, and nothing claimed or ended after it. */
  predicate ClaimedLast(events: seq<Event>, k: nat) {
    k < |events| && events[k].ClaimSession? && forall m | k < m < |events| :: !EndsClaims(events[m])
  }

  /** A claim is open: the last one, or the one that was loaded while nothing claimed or ended. */
  predicate ClaimOpen(start: State, events: seq<Event>) {
    || (exists k | 0 <= k < |events| :: ClaimedLast(events, k))
    || (start.claim.Some? && forall m | 0 <= m < |events| :: !EndsClaims(events[m]))
  }

  /** The panel said last that it is connected. */
  predicate ConnectedAfter(events: seq<Event>) {
    exists k | 0 <= k < |events| :: IsConnect(events[k]) && forall m | k < m < |events| :: !events[m].RpStatus?
  }

  /** The panel connected at event k with no claim open, and neither a claim nor a disconnect came after. */
  predicate UnclaimedSince(start: State, events: seq<Event>, k: nat) {
    && k < |events| && IsConnect(events[k]) && !ClaimOpen(start, events[..k])
    && forall m | k < m < |events| :: !events[m].ClaimSession? && !Disconnects(events[m])
  }

  predicate UnattributedOpen(start: State, events: seq<Event>) {
    exists k | 0 <= k < |events| :: UnclaimedSince(start, events, k)
  }

  /** The first of those connections gives the time. */
  predicate OpenedAt(start: State, events: seq<Event>, t: real) {
    exists k | 0 <= k < |events| ::
      UnclaimedSince(start, events, k) && !UnattributedOpen(start, events[..k]) && events[k].now == t
  }

  /** The open claim is what its event said, and has been seen exactly if the panel was connected then or
      has connected since. */
  predicate HeldClaim(start: State, events: seq<Event>, c: Claim) {
    || (exists k | 0 <= k < |events| ::
          && ClaimedLast(events, k) && events[k] == ClaimSession(c.source, c.user, c.purpose, c.claimedAt)
          && (c.rpSeen <==> ConnectedAfter(events[..k]) || exists m | k < m < |events| :: IsConnect(events[m])))
    || ClaimedBefore(start, events, c)
  }

  // ---- One event more ----

  lemma ClaimOpenStep(start: State, front: seq<Event>, ev: Event)
    ensures ClaimOpen(start, front + [ev]) <==> ev.ClaimSession? || (!ev.EndSession? && ClaimOpen(start, front))
  {
    var events := front + [ev];
    assert events[|front|] == ev && forall m | 0 <= m < |front| :: events[m] == front[m];
    if ev.ClaimSession? { assert ClaimedLast(events, |front|); }
    forall k | 0 <= k < |front| ensures ClaimedLast(events, k) <==> ClaimedLast(front, k) && !EndsClaims(ev) {}
  }

  lemma ConnectedStep(front: seq<Event>, ev: Event)
    ensures ConnectedAfter(front + [ev]) <==> IsConnect(ev) || (!ev.RpStatus? && ConnectedAfter(front))
  {
    var events := front + [ev];
    assert events[|front|] == ev && forall m | 0 <= m < |front| :: events[m] == front[m];
  }

  lemma UnclaimedStep(start: State, front: seq<Event>, ev: Event, k: nat)
    ensures UnclaimedSince(start, front + [ev], k) <==>
              || (UnclaimedSince(start, front, k) && !ev.ClaimSession? && !Disconnects(ev))
              || (k == |front| && IsConnect(ev) && !ClaimOpen(start, front))
  {
    var events := front + [ev];
    assert events[|front|] == ev && events[..|front|] == front;
    assert forall m | 0 <= m < |front| :: events[m] == front[m];
    if k < |front| { assert events[..k] == front[..k]; }
  }

  lemma UnattributedStep(start: State, front: seq<Event>, ev: Event)
    ensures UnattributedOpen(start, front + [ev]) <==>
              || (UnattributedOpen(start, front) && !ev.ClaimSession? && !Disconnects(ev))
              || (IsConnect(ev) && !ClaimOpen(start, front))
  {
    forall k: nat
      ensures UnclaimedSince(start, front + [ev], k) <==>
                || (UnclaimedSince(start, front, k) && !ev.ClaimSession? && !Disconnects(ev))
                || (k == |front| && IsConnect(ev) && !ClaimOpen(start, front))
    {
      UnclaimedStep(start, front, ev, k);
    }
    if UnattributedOpen(start, front) && !ev.ClaimSession? && !Disconnects(ev) {
      var k :| 0 <= k < |front| && UnclaimedSince(start, front, k);
      assert UnclaimedSince(start, front + [ev], k);
    }
    if IsConnect(ev) && !ClaimOpen(start, front) { assert UnclaimedSince(start, front + [ev], |front|); }
  }

  lemma OpenedStays(start: State, front: seq<Event>, ev: Event, t: real)
    requires OpenedAt(start, front, t) && !ev.ClaimSession? && !Disconnects(ev)
    ensures OpenedAt(start, front + [ev], t)
  {
    var k :| 0 <= k < |front|
      && UnclaimedSince(start, front, k) && !UnattributedOpen(start, front[..k]) && front[k].now == t;
    UnclaimedStep(start, front, ev, k);
    assert (front + [ev])[..k] == front[..k] && (front + [ev])[k] == front[k];
  }

  lemma OpenedNow(start: State, front: seq<Event>, ev: Event)
    requires IsConnect(ev) && !ClaimOpen(start, front) && !UnattributedOpen(start, front)
    ensures OpenedAt(start, front + [ev], ev.now)
  {
    UnclaimedStep(start, front, ev, |front|);
    assert (front + [ev])[..|front|] == front && (front + [ev])[|front|] == ev;
  }

  // ---- The state ----

  /** The tracker's state is what the events tell. */
  predicate StateTold(start: State, events: seq<Event>, s: State) {
    && (s.rpConnected <==> ConnectedAfter(events))
    && (s.claim.Some? <==> ClaimOpen(start, events))
    && (s.unattributedStarted.Some? <==> UnattributedOpen(start, events))
    && (s.claim.Some? ==> HeldClaim(start, events, s.claim.value))
    && (s.unattributedStarted.Some? ==> OpenedAt(start, events, s.unattributedStarted.value))
  }

  lemma StepConnected(s: State, ev: Event)
    ensures Next(s, ev).rpConnected <==> IsConnect(ev) || (!ev.RpStatus? && s.rpConnected)
    ensures Next(s, ev).claim.Some? <==> ev.ClaimSession? || (!ev.EndSession? && s.claim.Some?)
  {}

  lemma StepUnattributed(s: State, ev: Event)
    requires Consistent(s)
    ensures Next(s, ev).unattributedStarted.Some? <==>
              || (s.unattributedStarted.Some? && !ev.ClaimSession? && !Disconnects(ev))
              || (IsConnect(ev) && s.claim.None?)
    ensures Next(s, ev).unattributedStarted.Some? ==>
              Next(s, ev).unattributedStarted.value ==
              if s.unattributedStarted.Some? then s.unattributedStarted.value else ev.now
  {}

  lemma {:induction false} FlagsTold(start: State, events: seq<Event>)
    requires Loaded(start)
    ensures var s := Run(start, events);
            && (s.rpConnected <==> ConnectedAfter(events))
            && (s.claim.Some? <==> ClaimOpen(start, events))
            && (s.unattributedStarted.Some? <==> UnattributedOpen(start, events))
            && (s.unattributedStarted.Some? ==> OpenedAt(start, events, s.unattributedStarted.value))
    decreases |events|
  {
    if events != [] {
      var front, ev := events[..|events| - 1], events[|events| - 1];
      var s := Run(start, front);
      assert events == front + [ev];
      FlagsTold(start, front);
      RunConsistent(start, front);
      RunSnoc(start, front, ev);
      StepConnected(s, ev);
      StepUnattributed(s, ev);
      ConnectedStep(front, ev);
      ClaimOpenStep(start, front, ev);
      UnattributedStep(start, front, ev);
      if Next(s, ev).unattributedStarted.Some? {
        if s.unattributedStarted.Some? {
          OpenedStays(start, front, ev, s.unattributedStarted.value);
        } else {
          OpenedNow(start, front, ev);
        }
      }
    }
  }

  lemma RunConsistent(start: State, events: seq<Event>)
    requires Loaded(start)
    ensures Consistent(Run(start, events))
  {
    assert start.history + EndedRecords(start.bus) == start.history;
    RunKeeps(start, start, events);
  }

  /** After every run from a loaded state the tracker holds what the events tell: whether the panel is
      connected, the open claim, and the open unattributed session with its time. */
  lemma StateFollowsEvents(start: State, events: seq<Event>)
    requires Loaded(start)
    ensures StateTold(start, events, Run(start, events))
  {
    FlagsTold(start, events);
    OpenClaimIsLastClaim(start, events);
    var s := Run(start, events);
    if s.claim.Some? && !ClaimedBefore(start, events, s.claim.value) {
      var k: nat :| ClaimedBy(start, events, s.claim.value, k);
      FlagsTold(start, events[..k]);
      assert ClaimedLast(events, k);
    }
  }

  // ---- The announcements ----

  /** The record of a claim that event `ev` ended: what the claim said, from the claim to this event; an
      end with a user names that one, and otherwise it is the claim's own. */
  predicate ClaimRecord(start: State, past: seq<Event>, ev: Event, r: SessionRecord, c: Claim) {
    && HeldClaim(start, past, c) && EndsClaims(ev)
    && r.source == c.source && r.purpose == c.purpose && r.started == c.claimedAt && r.ended == ev.now
    && r.user == (if ev.EndSession? && ev.user != "" then ev.user else c.user)
    && r.attributed && (r.rpSeen <==> c.rpSeen)
  }

  /** The record of a session nobody claimed, from the panel's connecting to its disconnecting. */
  predicate UnattributedRecord(start: State, past: seq<Event>, ev: Event, r: SessionRecord) {
    && Disconnects(ev) && OpenedAt(start, past, r.started)
    && r == SessionRecord("unattributed", "", "", r.started, ev.now, false, true)
  }

  /** Event `ev`, after those before it, is what this announcement says. */
  ghost predicate Announces(start: State, past: seq<Event>, ev: Event, n: Notice) {
    match n
    case ENDED(r) => (exists c :: ClaimRecord(start, past, ev, r, c)) || UnattributedRecord(start, past, ev, r)
    case STARTED(source, user, purpose, attributed, rpSeen) =>
      if attributed then
        ev.ClaimSession? && ev == ClaimSession(source, user, purpose, ev.now) && (rpSeen <==> ConnectedAfter(past))
      else
        && IsConnect(ev) && !ClaimOpen(start, past) && !UnattributedOpen(start, past)
        && source == "unattributed" && user == "" && purpose == "" && rpSeen
  }

  /** An event ends a session if it claims or ends while a claim is open, or disconnects while an
      unattributed session is. */
  predicate EndsSession(start: State, past: seq<Event>, ev: Event) {
    (EndsClaims(ev) && ClaimOpen(start, past)) || (Disconnects(ev) && UnattributedOpen(start, past))
  }

  predicate StartsSession(start: State, past: seq<Event>, ev: Event) {
    ev.ClaimSession? || (IsConnect(ev) && !ClaimOpen(start, past) && !UnattributedOpen(start, past))
  }

  /** What one event adds to the bus: an end if it ends a session, then a start if it starts one. */
  ghost predicate Adds(start: State, past: seq<Event>, ev: Event, added: seq<Notice>) {
    && (forall i | 0 <= i < |added| :: Announces(start, past, ev, added[i]))
    && match (EndsSession(start, past, ev), StartsSession(start, past, ev))
       case (false, false) => added == []
       case (true, false) => |added| == 1 && added[0].ENDED?
       case (false, true) => |added| == 1 && added[0].STARTED?
       case (true, true) => |added| == 2 && added[0].ENDED? && added[1].STARTED?
  }

  lemma ClaimCloses(start: State, past: seq<Event>, s: State, ev: Event, user: string)
    requires StateTold(start, past, s) && s.claim.Some? && EndsClaims(ev)
    requires user == if ev.EndSession? then ev.user else ""
    ensures exists r :: Closed(s, ev.now, user).bus == s.bus + [ENDED(r)] && Announces(start, past, ev, ENDED(r))
  {
    var c := s.claim.value;
    var closer := if user == "" then c.user else user;
    var r := SessionRecord(c.source, closer, c.purpose, c.claimedAt, ev.now, true, c.rpSeen);
    assert ClaimRecord(start, past, ev, r, c);
    assert Closed(s, ev.now, user).bus == s.bus + [ENDED(r)];
  }

  lemma ClaimAdds(start: State, past: seq<Event>, s: State, ev: Event) returns (added: seq<Notice>)
    requires StateTold(start, past, s) && ev.ClaimSession?
    ensures Next(s, ev).bus == s.bus + added && Adds(start, past, ev, added)
  {
    var started := STARTED(ev.source, ev.user, ev.purpose, true, s.rpConnected);
    assert Announces(start, past, ev, started);
    if s.claim.Some? {
      ClaimCloses(start, past, s, ev, "");
      var r :| Closed(s, ev.now, "").bus == s.bus + [ENDED(r)] && Announces(start, past, ev, ENDED(r));
      added := [ENDED(r), started];
      assert s.bus + [ENDED(r)] + [started] == s.bus + added;
    } else {
      added := [started];
    }
  }

  lemma EndAdds(start: State, past: seq<Event>, s: State, ev: Event) returns (added: seq<Notice>)
    requires StateTold(start, past, s) && ev.EndSession?
    ensures Next(s, ev).bus == s.bus + added && Adds(start, past, ev, added)
  {
    if s.claim.Some? {
      ClaimCloses(start, past, s, ev, ev.user);
      var r :| Closed(s, ev.now, ev.user).bus == s.bus + [ENDED(r)] && Announces(start, past, ev, ENDED(r));
      added := [ENDED(r)];
    } else {
      added := [];
    }
  }

  lemma StatusAdds(start: State, past: seq<Event>, s: State, ev: Event) returns (added: seq<Notice>)
    requires StateTold(start, past, s) && Consistent(s) && ev.RpStatus?
    ensures Next(s, ev).bus == s.bus + added && Adds(start, past, ev, added)
  {
    if ev.connected && s.claim.None? && s.unattributedStarted.None? {
      added := [STARTED("unattributed", "", "", false, true)];
    } else if !ev.connected && s.unattributedStarted.Some? {
      var r := SessionRecord("unattributed", "", "", s.unattributedStarted.value, ev.now, false, true);
      assert UnattributedRecord(start, past, ev, r);
      added := [ENDED(r)];
    } else {
      added := [];
    }
  }

  /** Every event of every run from a loaded state adds to the bus exactly what it ends and starts: the
      end of the open session, with all its fields, and the start of the new one. */
  lemma EventAdds(start: State, past: seq<Event>, ev: Event) returns (added: seq<Notice>)
    requires Loaded(start)
    ensures Run(start, past + [ev]).bus == Run(start, past).bus + added && Adds(start, past, ev, added)
  {
    var s := Run(start, past);
    StateFollowsEvents(start, past);
    RunConsistent(start, past);
    RunSnoc(start, past, ev);
    match ev
    case ClaimSession(_, _, _, _) => added := ClaimAdds(start, past, s, ev);
    case EndSession(_, _, _) => added := EndAdds(start, past, s, ev);
    case RpStatus(_, _, _) => added := StatusAdds(start, past, s, ev);
    case CheckClaim(_, _) => added := [];
  }

  /** So the whole bus of a run is, event by event, what each event adds. */
  ghost predicate BusTold(start: State, events: seq<Event>, parts: seq<seq<Notice>>) {
    && |parts| == |events| && forall m | 0 <= m < |events| :: Adds(start, events[..m], events[m], parts[m])
  }

  lemma {:induction false} BusFollowsEvents(start: State, events: seq<Event>) returns (parts: seq<seq<Notice>>)
    requires Loaded(start)
    ensures BusTold(start, events, parts) && Run(start, events).bus == Concat(parts)
    decreases |events|
  {
    parts := [];
    if events != [] {
      var front, ev := events[..|events| - 1], events[|events| - 1];
      assert events == front + [ev];
      var first := BusFollowsEvents(start, front);
      var added := EventAdds(start, front, ev);
      parts := first + [added];
      forall m | 0 <= m < |events| ensures Adds(start, events[..m], events[m], parts[m]) {
        assert m < |front| ==> events[..m] == front[..m];
      }
      ConcatSnoc(first, added);
    }
  }

  lemma {:induction false} ConcatSnoc<T>(parts: seq<seq<T>>, last: seq<T>)
    ensures Concat(parts + [last]) == Concat(parts) + last
  {
    if parts == [] {
      assert [] + [last] == [last] && [last][1..] == [];
      assert Concat([last]) == last + Concat([]);
    } else {
      assert (parts + [last])[1..] == parts[1..] + [last];
      ConcatSnoc(parts[1..], last);
    }
  }
}
