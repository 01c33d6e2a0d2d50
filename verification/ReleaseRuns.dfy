/** What a release and a restore do, effect by effect (src/elk_programmer/hass.py): which effects they
    have in which order, what each does to the world, and how the call ends. */
module ReleaseRuns {
  import opened Positions
  import opened Release

  // ---- Effects ----

  /** Writing the marker with these ids, dropping it, and disabling or enabling an entry. */
  datatype Effect = Write(ids: seq<string>) | Unlink | Disable(id: string) | Enable(id: string)

  /** The fates of some effects, from position `from` of the script on; the process has stopped when the
      script is exhausted. */
  predicate Taken(script: seq<Fate>, from: nat, fates: seq<Fate>) {
    forall i | 0 <= i < |fates| :: fates[i] == if from + i < |script| then script[from + i] else Stops
  }

  predicate GoesPast(fate: Fate) { fate == Done || fate == Refused }

  predicate AllPast(fates: seq<Fate>) { forall i | 0 <= i < |fates| :: GoesPast(fates[i]) }

  predicate AllDone(fates: seq<Fate>) { forall i | 0 <= i < |fates| :: fates[i] == Done }

  /** What an effect does to the world: all of it or nothing, but for a marker write that is cut short. */
  predicate Performs(e: Effect, fate: Fate, before: World, after: World) {
    match e
    case Disable(id) => after == World(if fate == Done then before.enabled - {id} else before.enabled, before.marker)
    case Enable(id) => after == World(if fate == Done then before.enabled + {id} else before.enabled, before.marker)
    case Write(ids) =>
      after == World(before.enabled, if fate == Done then Ids(ids) else if fate == Torn then Unreadable
                                     else before.marker)
    case Unlink => after == World(before.enabled, if fate == Done then Absent else before.marker)
  }

  /** The worlds ws between effects with these fates. */
  predicate Performed(effects: seq<Effect>, fates: seq<Fate>, ws: seq<World>) {
    && |fates| == |effects| && |ws| == |effects| + 1
    && forall i | 0 <= i < |effects| :: Performs(effects[i], fates[i], ws[i], ws[i + 1])
  }

  /** The effects with those fates take the world from w to `after`. */
  ghost predicate Leads(effects: seq<Effect>, fates: seq<Fate>, w: World, after: World) {
    exists ws :: Performed(effects, fates, ws) && ws[0] == w && ws[|effects|] == after
  }

  lemma LeadsNowhere(w: World)
    ensures Leads([], [], w, w)
  {
    assert Performed([], [], [w]);
  }

  lemma LeadsOnce(e: Effect, fate: Fate, w: World, after: World)
    requires Performs(e, fate, w, after)
    ensures Leads([e], [fate], w, after)
  {
    assert Performed([e], [fate], [w, after]);
  }

  lemma LeadsOn(a: seq<Effect>, s: seq<Fate>, b: seq<Effect>, t: seq<Fate>, w: World, mid: World, after: World)
    requires Leads(a, s, w, mid) && Leads(b, t, mid, after)
    ensures Leads(a + b, s + t, w, after)
  {
    var vs :| Performed(a, s, vs) && vs[0] == w && vs[|a|] == mid;
    var us :| Performed(b, t, us) && us[0] == mid && us[|b|] == after;
    var ws := vs + us[1..];
    forall i | 0 <= i < |a + b| ensures Performs((a + b)[i], (s + t)[i], ws[i], ws[i + 1]) {
      if i >= |a| {
        var k := i - |a|;
        assert ws[i] == us[k] && ws[i + 1] == us[k + 1] && Performs(b[k], t[k], us[k], us[k + 1]);
      }
    }
    assert Performed(a + b, s + t, ws) && ws[|a + b|] == if b == [] then vs[|a|] else us[|b|];
  }

  lemma TakenOn(script: seq<Fate>, from: nat, s: seq<Fate>, t: seq<Fate>)
    requires Taken(script, from, s) && Taken(script, from + |s|, t)
    ensures Taken(script, from, s + t)
  {
    forall i | 0 <= i < |s + t| ensures (s + t)[i] == if from + i < |script| then script[from + i] else Stops {
      if i >= |s| { assert (s + t)[i] == t[i - |s|]; }
    }
  }

  lemma ScriptFrom(script: seq<Fate>, from: nat)
    requires from <= |script|
    ensures Taken(script, from, [First(script[from..])])
    ensures from < |script| ==> script[from..][1..] == script[from + 1..]
    ensures First(script[from..]) != Stops ==> from < |script|
  {}

  // ---- The loops ----

  /** Each of these entries, in order. */
  predicate Disables(ids: seq<string>, effects: seq<Effect>) {
    |effects| == |ids| && forall i | 0 <= i < |ids| :: effects[i] == Disable(ids[i])
  }

  predicate Enables(ids: seq<string>, effects: seq<Effect>) {
    |effects| == |ids| && forall i | 0 <= i < |ids| :: effects[i] == Enable(ids[i])
  }

  /** The entries with a refusal, in order: p says which. */
  predicate RefusedOf(ids: seq<string>, fates: seq<Fate>, p: seq<int>, failed: seq<string>) {
    && |ids| == |fates| && |p| == |failed| && Rising(p, |ids|)
    && (forall k | 0 <= k < |p| :: fates[p[k]] == Refused && failed[k] == ids[p[k]])
    && forall i | 0 <= i < |ids| && fates[i] == Refused :: i in p
  }

  /** The disabling loop got through, or was ended by the last effect. */
  predicate DisablingRun(ids: seq<string>, p: Pass, effects: seq<Effect>, fates: seq<Fate>) {
    var c := |p.collected|;
    && c <= |ids| && p.collected == ids[..c]
    && if p.end == Finished then c == |ids| && Disables(ids, effects) && |fates| == c && AllDone(fates)
       else
         && c < |ids| && Disables(ids[..c + 1], effects)
         && |fates| == c + 1 && AllDone(fates[..c]) && fates[c] != Done
         && (p.end == RefusedHere <==> fates[c] == Refused)
  }

  /** A loop that was not stopped leaves the rest of the script. */
  predicate LeavesRest(script: seq<Fate>, from: nat, p: Pass, fates: seq<Fate>) {
    p.end != Halted ==> from + |fates| <= |script| && p.rest == script[from + |fates|..]
  }

  lemma DisablingFirst(ids: seq<string>, q: Pass, effects: seq<Effect>, fates: seq<Fate>)
    requires ids != [] && DisablingRun(ids[1..], q, effects, fates)
    ensures DisablingRun(ids, q.(collected := [ids[0]] + q.collected), [Disable(ids[0])] + effects, [Done] + fates)
  {
    var c := |q.collected|;
    var es, fs := [Disable(ids[0])] + effects, [Done] + fates;
    var n := |effects|;
    forall i | 0 < i < n + 1 ensures es[i] == Disable(ids[i]) { assert effects[i - 1] == Disable(ids[1..][i - 1]); }
    if q.end != Finished { assert fs[..c + 1] == [Done] + fates[..c]; }
  }

  lemma DisableNext(enabled: set<string>, ids: seq<string>, script: seq<Fate>, from: nat)
    requires ids != [] && from <= |script|
    ensures var p := DisableEach(enabled, ids, script[from..]);
            match First(script[from..])
            case Done =>
              var q := DisableEach(enabled - {ids[0]}, ids[1..], script[from + 1..]);
              p == q.(collected := [ids[0]] + q.collected)
            case Refused => p == Pass(enabled, [], script[from + 1..], RefusedHere)
            case _ => p.enabled == enabled && p.collected == [] && p.end == Halted
  {
    ScriptFrom(script, from);
  }

  lemma DisablingStops(ids: seq<string>, script: seq<Fate>, from: nat, w: World, fate: Fate)
    requires ids != [] && from <= |script| && fate == First(script[from..]) && fate != Done
    ensures var p := DisableEach(w.enabled, ids, script[from..]);
            && DisablingRun(ids, p, [Disable(ids[0])], [fate]) && LeavesRest(script, from, p, [fate])
            && Leads([Disable(ids[0])], [fate], w, World(p.enabled, w.marker))
  {
    DisableNext(w.enabled, ids, script, from);
    ScriptFrom(script, from);
    LeadsOnce(Disable(ids[0]), fate, w, w);
  }

  lemma DisablingGoesOn(ids: seq<string>, script: seq<Fate>, from: nat, w: World, next: World, effects: seq<Effect>,
                        fates: seq<Fate>)
    requires ids != [] && from < |script| && script[from] == Done
    requires next == World(w.enabled - {ids[0]}, w.marker)
    requires var q := DisableEach(next.enabled, ids[1..], script[from + 1..]);
             && DisablingRun(ids[1..], q, effects, fates) && LeavesRest(script, from + 1, q, fates)
             && Leads(effects, fates, next, World(q.enabled, w.marker))
    ensures var p := DisableEach(w.enabled, ids, script[from..]);
            && DisablingRun(ids, p, [Disable(ids[0])] + effects, [Done] + fates)
            && LeavesRest(script, from, p, [Done] + fates)
            && Leads([Disable(ids[0])] + effects, [Done] + fates, w, World(p.enabled, w.marker))
  {
    var q := DisableEach(next.enabled, ids[1..], script[from + 1..]);
    ScriptFrom(script, from);
    DisableNext(w.enabled, ids, script, from);
    DisablingFirst(ids, q, effects, fates);
    LeadsOnce(Disable(ids[0]), Done, w, next);
    LeadsOn([Disable(ids[0])], [Done], effects, fates, w, next, World(q.enabled, w.marker));
  }

  lemma {:induction false} DisablingRuns(ids: seq<string>, script: seq<Fate>, from: nat, w: World)
    returns (effects: seq<Effect>, fates: seq<Fate>)
    requires from <= |script|
    ensures var p := DisableEach(w.enabled, ids, script[from..]);
            && DisablingRun(ids, p, effects, fates) && Taken(script, from, fates) && LeavesRest(script, from, p, fates)
            && Leads(effects, fates, w, World(p.enabled, w.marker))
    decreases |ids|
  {
    effects, fates := [], [];
    ScriptFrom(script, from);
    var fate := First(script[from..]);
    if ids == [] {
      LeadsNowhere(w);
    } else if fate == Done {
      var next := World(w.enabled - {ids[0]}, w.marker);
      effects, fates := DisablingRuns(ids[1..], script, from + 1, next);
      DisablingGoesOn(ids, script, from, w, next, effects, fates);
      TakenOn(script, from, [Done], fates);
      effects, fates := [Disable(ids[0])] + effects, [Done] + fates;
    } else {
      DisablingStops(ids, script, from, w, fate);
      effects, fates := [Disable(ids[0])], [fate];
    }
  }

  /** The enabling loop got through, over refusals too, or the process stopped at the last effect. */
  ghost predicate EnablingRun(ids: seq<string>, p: Pass, effects: seq<Effect>, fates: seq<Fate>) {
    if p.end == Finished then
      Enables(ids, effects) && |fates| == |ids| && AllPast(fates) && exists q :: RefusedOf(ids, fates, q, p.collected)
    else p.end == Halted && StoppedIn(ids, effects, fates)
  }

  predicate StoppedIn(ids: seq<string>, effects: seq<Effect>, fates: seq<Fate>) {
    && 0 < |effects| == |fates| <= |ids| && Enables(ids[..|effects|], effects)
    && AllPast(fates[..|fates| - 1]) && !GoesPast(fates[|fates| - 1])
  }

  /** The refused ones of the rest, by their positions in the whole. */
  lemma RefusedLater(ids: seq<string>, fate: Fate, fates: seq<Fate>, q: seq<int>, failed: seq<string>)
    requires ids != [] && RefusedOf(ids[1..], fates, q, failed)
    ensures Rising(Shifted(q, 1), |ids|) && Rising([0] + Shifted(q, 1), |ids|)
    ensures forall k | 0 <= k < |q| ::
              ([fate] + fates)[Shifted(q, 1)[k]] == Refused && failed[k] == ids[Shifted(q, 1)[k]]
    ensures forall i | 0 < i < |ids| && ([fate] + fates)[i] == Refused :: i in Shifted(q, 1)
  {
    var fs := [fate] + fates;
    RisingShifted(q, |fates|);
    forall k | 0 <= k < |q| ensures fs[q[k] + 1] == Refused && failed[k] == ids[q[k] + 1] {
      assert fs[q[k] + 1] == fates[q[k]] && ids[1..][q[k]] == ids[q[k] + 1];
    }
    forall i | 0 < i < |ids| && fs[i] == Refused ensures i in Shifted(q, 1) {
      assert fs[i] == fates[i - 1];
      InShifted(q, 1, i);
    }
  }

  lemma RefusedHead(ids: seq<string>, fates: seq<Fate>, r: seq<int>, failed: seq<string>)
    requires |ids| == |fates| && ids != [] && fates[0] == Refused && |r| == |failed|
    requires Rising(r, |ids|) && Rising([0] + r, |ids|)
    requires forall k | 0 <= k < |r| :: fates[r[k]] == Refused && failed[k] == ids[r[k]]
    requires forall i | 0 < i < |ids| && fates[i] == Refused :: i in r
    ensures RefusedOf(ids, fates, [0] + r, [ids[0]] + failed)
  {
    var p, names := [0] + r, [ids[0]] + failed;
    forall k | 0 <= k < |p| ensures fates[p[k]] == Refused && names[k] == ids[p[k]] {
      assert k > 0 ==> p[k] == r[k - 1] && names[k] == failed[k - 1];
    }
    forall i | 0 <= i < |ids| && fates[i] == Refused ensures i in p { InFirst(r, i); }
  }

  lemma RefusedFirst(ids: seq<string>, fate: Fate, fates: seq<Fate>, q: seq<int>, failed: seq<string>)
    returns (p: seq<int>)
    requires ids != [] && RefusedOf(ids[1..], fates, q, failed)
    ensures RefusedOf(ids, [fate] + fates, p, (if fate == Refused then [ids[0]] else []) + failed)
  {
    RefusedLater(ids, fate, fates, q, failed);
    if fate == Refused {
      p := [0] + Shifted(q, 1);
      RefusedHead(ids, [fate] + fates, Shifted(q, 1), failed);
    } else {
      p := Shifted(q, 1);
      assert [] + failed == failed;
    }
  }

  lemma EnablingFirst(ids: seq<string>, fate: Fate, q: Pass, effects: seq<Effect>, fates: seq<Fate>, p: Pass)
    requires ids != [] && GoesPast(fate) && EnablingRun(ids[1..], q, effects, fates)
    requires p.end == q.end && p.collected == (if fate == Refused then [ids[0]] else []) + q.collected
    ensures EnablingRun(ids, p, [Enable(ids[0])] + effects, [fate] + fates)
  {
    var es, fs := [Enable(ids[0])] + effects, [fate] + fates;
    forall i | 0 < i < |es| ensures es[i] == Enable(ids[i]) { assert effects[i - 1] == Enable(ids[1..][i - 1]); }
    if q.end == Finished {
      var r :| RefusedOf(ids[1..], fates, r, q.collected);
      var s := RefusedFirst(ids, fate, fates, r, q.collected);
    } else {
      assert fs[..|fs| - 1] == [fate] + fates[..|fates| - 1];
    }
  }

  lemma EnableNext(enabled: set<string>, ids: seq<string>, script: seq<Fate>, from: nat)
    requires ids != [] && from < |script| && GoesPast(script[from])
    ensures var q := EnableEach(if script[from] == Done then enabled + {ids[0]} else enabled, ids[1..],
                                script[from + 1..]);
            EnableEach(enabled, ids, script[from..]) ==
            q.(collected := (if script[from] == Refused then [ids[0]] else []) + q.collected)
  {
    ScriptFrom(script, from);
    var q := EnableEach(enabled + {ids[0]}, ids[1..], script[from + 1..]);
    assert [] + q.collected == q.collected;
  }

  lemma {:induction false} EnablingRuns(ids: seq<string>, script: seq<Fate>, from: nat, w: World)
    returns (effects: seq<Effect>, fates: seq<Fate>)
    requires from <= |script|
    ensures var p := EnableEach(w.enabled, ids, script[from..]);
            && EnablingRun(ids, p, effects, fates) && Taken(script, from, fates) && LeavesRest(script, from, p, fates)
            && Leads(effects, fates, w, World(p.enabled, w.marker))
    decreases |ids|
  {
    effects, fates := [], [];
    ScriptFrom(script, from);
    var fate := First(script[from..]);
    if ids == [] {
      LeadsNowhere(w);
      assert RefusedOf(ids, [], [], []);
    } else if GoesPast(fate) {
      var next := World(if fate == Done then w.enabled + {ids[0]} else w.enabled, w.marker);
      var q, p := EnableEach(next.enabled, ids[1..], script[from + 1..]), EnableEach(w.enabled, ids, script[from..]);
      EnableNext(w.enabled, ids, script, from);
      effects, fates := EnablingRuns(ids[1..], script, from + 1, next);
      EnablingFirst(ids, fate, q, effects, fates, p);
      LeadsOnce(Enable(ids[0]), fate, w, next);
      LeadsOn([Enable(ids[0])], [fate], effects, fates, w, next, World(q.enabled, w.marker));
      TakenOn(script, from, [fate], fates);
      effects, fates := [Enable(ids[0])] + effects, [fate] + fates;
    } else {
      LeadsOnce(Enable(ids[0]), fate, w, w);
      effects, fates := [Enable(ids[0])], [fate];
    }
  }

  // ---- A restore ----

  /** A restore enables each entry that the marker names. If none is refused it drops the marker and
      returns them; otherwise it writes the refused ones back and raises with them. It ends nowhere if the
      process stops before. */
  ghost predicate RestorePlan(ids: seq<string>, effects: seq<Effect>, fates: seq<Fate>, exit: Exit) {
    var n := |ids|;
    if |effects| <= n then StoppedIn(ids, effects, fates) && exit == Stopped
    else
      && |effects| == |fates| == n + 1 && Enables(ids, effects[..n]) && AllPast(fates[..n])
      && exists p, failed | RefusedOf(ids, fates[..n], p, failed) ::
           && effects[n] == (if failed == [] then Unlink else Write(failed))
           && exit == if fates[n] != Done then Stopped else if failed == [] then Returned(ids) else Raised(failed)
  }

  lemma RestoreEnds(w: World, script: seq<Fate>, p: Pass, ids: seq<string>, e: Effect, fate: Fate)
    requires ids == MarkerIds(w.marker) && p == EnableEach(w.enabled, ids, script) && p.end == Finished
    requires e == (if p.collected == [] then Unlink else Write(p.collected)) && fate == First(p.rest)
    ensures var (after, exit) := RestoreCall(w, script);
            && Performs(e, fate, World(p.enabled, w.marker), after)
            && exit == if fate != Done then Stopped
                       else if p.collected == [] then Returned(ids) else Raised(p.collected)
  {}

  lemma RestorePlanned(ids: seq<string>, p: Pass, effects: seq<Effect>, fates: seq<Fate>, e: Effect, fate: Fate,
                       exit: Exit)
    requires EnablingRun(ids, p, effects, fates) && p.end == Finished
    requires e == if p.collected == [] then Unlink else Write(p.collected)
    requires exit == if fate != Done then Stopped else if p.collected == [] then Returned(ids) else Raised(p.collected)
    ensures RestorePlan(ids, effects + [e], fates + [fate], exit)
  {
    var q :| RefusedOf(ids, fates, q, p.collected);
    assert (effects + [e])[..|ids|] == effects && (fates + [fate])[..|ids|] == fates;
  }

  /** Every restore has those effects on the world, and no other. */
  lemma RestoreRuns(w: World, script: seq<Fate>) returns (effects: seq<Effect>, fates: seq<Fate>)
    ensures var (after, exit) := RestoreCall(w, script);
            && Taken(script, 0, fates) && Leads(effects, fates, w, after)
            && RestorePlan(if w.marker.Ids? then w.marker.ids else [], effects, fates, exit)
  {
    var ids := MarkerIds(w.marker);
    assert script[0..] == script;
    effects, fates := EnablingRuns(ids, script, 0, w);
    var p := EnableEach(w.enabled, ids, script);
    if p.end == Finished {
      var e, fate := if p.collected == [] then Unlink else Write(p.collected), First(p.rest);
      var (after, exit) := RestoreCall(w, script);
      ScriptFrom(script, |fates|);
      RestoreEnds(w, script, p, ids, e, fate);
      RestorePlanned(ids, p, effects, fates, e, fate, exit);
      LeadsOnce(e, fate, World(p.enabled, w.marker), after);
      LeadsOn(effects, fates, [e], [fate], w, World(p.enabled, w.marker), after);
      TakenOn(script, 0, fates, [fate]);
      effects, fates := effects + [e], fates + [fate];
    }
  }

  // ---- A release ----

  /** The entries to disable: those listed with an id and enabled, in order; p says which. */
  predicate TargetsOf(listing: seq<string>, enabled: set<string>, p: seq<int>, targets: seq<string>) {
    && |p| == |targets| && Rising(p, |listing|)
    && (forall k | 0 <= k < |p| :: targets[k] == listing[p[k]] && targets[k] != "" && targets[k] in enabled)
    && forall i | 0 <= i < |listing| && listing[i] != "" && listing[i] in enabled :: i in p
  }

  lemma TargetsMore(listing: seq<string>, enabled: set<string>, p: seq<int>, targets: seq<string>, id: string)
    requires TargetsOf(listing, enabled, p, targets)
    ensures if id != "" && id in enabled then TargetsOf(listing + [id], enabled, p + [|listing|], targets + [id])
            else TargetsOf(listing + [id], enabled, p, targets)
  {
    var all := listing + [id];
    RisingMore(p, |listing|);
    forall i | 0 <= i < |listing| && all[i] != "" && all[i] in enabled ensures i in p { assert all[i] == listing[i]; }
  }

  lemma {:induction false} TargetsAreOf(listing: seq<string>, enabled: set<string>) returns (p: seq<int>)
    ensures TargetsOf(listing, enabled, p, Targets(listing, enabled))
    decreases |listing|
  {
    p := [];
    if listing != [] {
      var n := |listing| - 1;
      p := TargetsAreOf(listing[..n], enabled);
      TargetsMore(listing[..n], enabled, p, Targets(listing[..n], enabled), listing[n]);
      assert listing[..n] + [listing[n]] == listing;
      if listing[n] != "" && listing[n] in enabled { p := p + [n]; }
    }
  }

  /** After a refusal: each entry that was disabled is enabled, a refusal of that being passed over, and then
      the marker is dropped. It raises with the refused ones. */
  ghost predicate PutBackPlan(done: seq<string>, effects: seq<Effect>, fates: seq<Fate>, exit: Exit) {
    var k := |done|;
    if |effects| <= k then StoppedIn(done, effects, fates) && exit == Stopped
    else
      && |effects| == |fates| == k + 1 && Enables(done, effects[..k]) && AllPast(fates[..k]) && effects[k] == Unlink
      && if fates[k] != Done then exit == Stopped
         else exit.Raised? && exists p :: RefusedOf(done, fates[..k], p, exit.ids)
  }

  /** All targets were disabled. */
  predicate GotThrough(targets: seq<string>, effects: seq<Effect>, fates: seq<Fate>, exit: Exit) {
    Disables(targets, effects) && |fates| == |targets| && AllDone(fates) && exit == Returned(targets)
  }

  /** The disabling of target k was not done: the process stopped, or it was refused, and what was disabled
      before is put back. */
  ghost predicate GaveUpAt(targets: seq<string>, k: nat, effects: seq<Effect>, fates: seq<Fate>, exit: Exit) {
    && k < |targets| && k < |effects| == |fates|
    && Disables(targets[..k + 1], effects[..k + 1]) && AllDone(fates[..k]) && fates[k] != Done
    && if fates[k] != Refused then |effects| == k + 1 && exit == Stopped
       else PutBackPlan(targets[..k], effects[k + 1..], fates[k + 1..], exit)
  }

  /** A release writes the marker with all its targets, and then disables them in order. If all goes well it
      returns them; at the first refusal it puts back what it disabled. It ends nowhere if the process stops
      before; without a target it does nothing. */
  ghost predicate ReleasePlan(targets: seq<string>, effects: seq<Effect>, fates: seq<Fate>, exit: Exit) {
    if targets == [] then effects == [] && exit == Returned([])
    else
      && 0 < |effects| == |fates| && effects[0] == Write(targets)
      && if fates[0] != Done then |effects| == 1 && exit == Stopped
         else GotThrough(targets, effects[1..], fates[1..], exit)
              || exists k :: GaveUpAt(targets, k, effects[1..], fates[1..], exit)
  }

  lemma PutBackRuns(p: Pass, targets: seq<string>, script: seq<Fate>, from: nat)
    returns (effects: seq<Effect>, fates: seq<Fate>)
    requires from <= |script| && p.rest == script[from..]
    ensures var (after, exit) := RollBack(p, targets);
            && Taken(script, from, fates) && Leads(effects, fates, World(p.enabled, Ids(targets)), after)
            && PutBackPlan(p.collected, effects, fates, exit)
  {
    var w := World(p.enabled, Ids(targets));
    effects, fates := EnablingRuns(p.collected, script, from, w);
    var q := EnableEach(p.enabled, p.collected, p.rest);
    if q.end == Finished {
      var (after, exit) := RollBack(p, targets);
      var mid, fate := World(q.enabled, Ids(targets)), First(q.rest);
      ScriptFrom(script, from + |fates|);
      PutBackPlanned(p.collected, q, effects, fates, fate, exit);
      LeadsOnce(Unlink, fate, mid, after);
      LeadsOn(effects, fates, [Unlink], [fate], w, mid, after);
      TakenOn(script, from, fates, [fate]);
      effects, fates := effects + [Unlink], fates + [fate];
    }
  }

  lemma PutBackPlanned(done: seq<string>, q: Pass, effects: seq<Effect>, fates: seq<Fate>, fate: Fate, exit: Exit)
    requires EnablingRun(done, q, effects, fates) && q.end == Finished
    requires exit == if fate == Done then Raised(q.collected) else Stopped
    ensures PutBackPlan(done, effects + [Unlink], fates + [fate], exit)
  {
    assert (effects + [Unlink])[..|done|] == effects && (fates + [fate])[..|done|] == fates;
  }

  /** How the disabling loop of a release ends it, if there is nothing to put back. */
  lemma DisabledPlan(targets: seq<string>, p: Pass, effects: seq<Effect>, fates: seq<Fate>)
    requires DisablingRun(targets, p, effects, fates)
    ensures p.end == Finished ==> GotThrough(targets, effects, fates, Returned(p.collected))
    ensures p.end == Halted ==> GaveUpAt(targets, |p.collected|, effects, fates, Stopped)
  {
    if p.end == Finished { assert targets[..|targets|] == targets; }
    if p.end == Halted { assert effects[..|effects|] == effects; }
  }

  lemma GaveUp(targets: seq<string>, p: Pass, effects: seq<Effect>, fates: seq<Fate>, back: seq<Effect>,
               later: seq<Fate>, exit: Exit)
    requires DisablingRun(targets, p, effects, fates) && p.end == RefusedHere && |back| == |later|
    requires PutBackPlan(p.collected, back, later, exit)
    ensures GaveUpAt(targets, |p.collected|, effects + back, fates + later, exit)
  {
    var k := |p.collected|;
    assert (effects + back)[..k + 1] == effects && (effects + back)[k + 1..] == back;
    assert (fates + later)[..k] == fates[..k] && (fates + later)[k + 1..] == later;
  }

  lemma WrittenFirst(w: World, targets: seq<string>, script: seq<Fate>, effects: seq<Effect>, fates: seq<Fate>,
                     after: World)
    requires script != [] && script[0] == Done && Taken(script, 1, fates)
    requires Leads(effects, fates, World(w.enabled, Ids(targets)), after)
    ensures Taken(script, 0, [Done] + fates) && Leads([Write(targets)] + effects, [Done] + fates, w, after)
    ensures ([Write(targets)] + effects)[1..] == effects && ([Done] + fates)[1..] == fates
  {
    LeadsOnce(Write(targets), Done, w, World(w.enabled, Ids(targets)));
    LeadsOn([Write(targets)], [Done], effects, fates, w, World(w.enabled, Ids(targets)), after);
    TakenOn(script, 0, [Done], fates);
  }

  lemma LeadsSized(effects: seq<Effect>, fates: seq<Fate>, w: World, after: World)
    requires Leads(effects, fates, w, after)
    ensures |effects| == |fates|
  {}

  /** The effects after the marker write. */
  lemma DisablingPart(w: World, targets: seq<string>, script: seq<Fate>)
    returns (effects: seq<Effect>, fates: seq<Fate>)
    requires script != [] && script[0] == Done
    ensures var p := DisableEach(w.enabled, targets, script[1..]);
            var (after, exit) := if p.end == RefusedHere then RollBack(p, targets)
              else (World(p.enabled, Ids(targets)), if p.end == Finished then Returned(p.collected) else Stopped);
            && Taken(script, 1, fates) && Leads(effects, fates, World(w.enabled, Ids(targets)), after)
            && (GotThrough(targets, effects, fates, exit) || exists k :: GaveUpAt(targets, k, effects, fates, exit))
  {
    var marked := World(w.enabled, Ids(targets));
    var p := DisableEach(w.enabled, targets, script[1..]);
    effects, fates := DisablingRuns(targets, script, 1, marked);
    DisabledPlan(targets, p, effects, fates);
    if p.end == RefusedHere {
      var (after, exit) := RollBack(p, targets);
      var back, later := PutBackRuns(p, targets, script, 1 + |fates|);
      LeadsSized(back, later, World(p.enabled, Ids(targets)), after);
      GaveUp(targets, p, effects, fates, back, later, exit);
      LeadsOn(effects, fates, back, later, marked, World(p.enabled, Ids(targets)), after);
      TakenOn(script, 1, fates, later);
      effects, fates := effects + back, fates + later;
    }
  }

  /** Every release has those effects on the world, and no other. */
  lemma ReleaseRuns(w: World, listing: seq<string>, script: seq<Fate>)
    returns (p: seq<int>, targets: seq<string>, effects: seq<Effect>, fates: seq<Fate>)
    ensures TargetsOf(listing, w.enabled, p, targets)
    ensures var (after, exit) := ReleaseCall(w, listing, script);
            && Taken(script, 0, fates) && Leads(effects, fates, w, after)
            && ReleasePlan(targets, effects, fates, exit)
  {
    p := TargetsAreOf(listing, w.enabled);
    targets := Targets(listing, w.enabled);
    var (after, exit) := ReleaseCall(w, listing, script);
    if targets == [] {
      effects, fates := [], [];
      LeadsNowhere(w);
    } else if First(script) != Done {
      effects, fates := [Write(targets)], [First(script)];
      LeadsOnce(Write(targets), First(script), w, after);
    } else {
      effects, fates := DisablingPart(w, targets, script);
      WrittenFirst(w, targets, script, effects, fates, after);
      LeadsSized(effects, fates, World(w.enabled, Ids(targets)), after);
      effects, fates := [Write(targets)] + effects, [Done] + fates;
    }
  }
}
