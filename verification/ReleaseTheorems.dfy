/** What a release and its restore guarantee across crashes, and exactly where they do not. */
module ReleaseTheorems {
  import opened Release

  function Elements(s: seq<string>): set<string> {
    set id | id in s
  }

  /** Every entry the app left disabled is in the marker, and nothing else is touched. */
  predicate Safe(original: set<string>, w: World) {
    && w.enabled <= original
    && Elements(MarkerIds(w.marker)) <= original
    && original - w.enabled <= Elements(MarkerIds(w.marker))
  }

  /** With no ids in the marker, safe means that nothing is outstanding. */
  lemma SafeWithoutIds(original: set<string>, w: World)
    requires MarkerIds(w.marker) == []
    ensures Safe(original, w) <==> w.enabled == original
  {
    assert Elements([]) == {};
    if Safe(original, w) {
      forall id | id in original ensures id in w.enabled {
        assert id !in w.enabled <==> id in original - w.enabled;
      }
    }
  }

  predicate Distinct(s: seq<string>) {
    forall i, j :: 0 <= i < j < |s| ==> s[i] != s[j]
  }

  // ---- What the loops do ----

  lemma {:induction false} DisableFacts(enabled: set<string>, ids: seq<string>, script: seq<Fate>)
    ensures var p := DisableEach(enabled, ids, script);
            && p.collected <= ids
            && p.enabled == enabled - Elements(p.collected)
            && (p.end == Finished ==> p.collected == ids)
    decreases |ids|
  {
    if ids != [] && First(script) == Done {
      DisableFacts(enabled - {ids[0]}, ids[1..], script[1..]);
      var rest := DisableEach(enabled - {ids[0]}, ids[1..], script[1..]).collected;
      assert Elements([ids[0]] + rest) == {ids[0]} + Elements(rest);
    }
  }

  lemma {:induction false} EnableFacts(enabled: set<string>, ids: seq<string>, script: seq<Fate>)
    ensures var p := EnableEach(enabled, ids, script);
            && enabled <= p.enabled <= enabled + Elements(ids)
            && Elements(p.collected) <= Elements(ids)
            && (p.end == Finished ==> Elements(ids) <= p.enabled + Elements(p.collected))
    decreases |ids|
  {
    if ids != [] && (First(script) == Done || First(script) == Refused) {
      EnableFacts(if First(script) == Done then enabled + {ids[0]} else enabled, ids[1..], script[1..]);
      assert Elements(ids) == {ids[0]} + Elements(ids[1..]) by { assert ids == [ids[0]] + ids[1..]; }
      var rest := EnableEach(enabled, ids[1..], script[1..]).collected;
      assert Elements([ids[0]] + rest) == {ids[0]} + Elements(rest);
    }
  }

  /** Of distinct entries, all disabled, exactly the refused ones stay so. */
  lemma {:induction false} RefusedStayDisabled(enabled: set<string>, ids: seq<string>, script: seq<Fate>)
    requires Distinct(ids) && Elements(ids) !! enabled
    ensures Elements(EnableEach(enabled, ids, script).collected) !! EnableEach(enabled, ids, script).enabled
    decreases |ids|
  {
    if ids != [] && (First(script) == Done || First(script) == Refused) {
      var next := if First(script) == Done then enabled + {ids[0]} else enabled;
      RefusedStayDisabled(next, ids[1..], script[1..]);
      EnableFacts(next, ids[1..], script[1..]);
    }
  }

  lemma {:induction false} TargetsFacts(listing: seq<string>, enabled: set<string>)
    ensures Elements(Targets(listing, enabled)) <= enabled
    ensures Elements(Targets(listing, enabled)) <= Elements(listing)
    ensures Distinct(listing) ==> Distinct(Targets(listing, enabled))
    decreases |listing|
  {
    if listing != [] {
      var front, id := listing[..|listing| - 1], listing[|listing| - 1];
      TargetsFacts(front, enabled);
      assert listing == front + [id];
      assert Elements(listing) == Elements(front) + {id};
      assert id in Targets(front, enabled) ==> id in Elements(Targets(front, enabled));
    }
  }

  // ---- What the loops do, by positions in the script ----

  /** The put-back and restore loops go past a fate only if it is one of these. */
  predicate GoesOn(fate: Fate) {
    fate == Done || fate == Refused
  }

  /** Disabling goes on over the first fates that are Done, and ends at the first other one. */
  lemma {:induction false} DisableByScript(enabled: set<string>, ids: seq<string>, script: seq<Fate>)
    ensures var p := DisableEach(enabled, ids, script);
            var c := |p.collected|;
            && c <= |ids| && c <= |script| && (forall i | 0 <= i < c :: script[i] == Done)
            && (p.end == Finished <==> c == |ids|)
            && (c < |ids| && c < |script| ==> script[c] != Done)
            && (p.end == RefusedHere <==> c < |ids| && c < |script| && script[c] == Refused)
            && (p.end == RefusedHere ==> p.rest == script[c + 1..])
    decreases |ids|
  {
    if ids != [] && First(script) == Done {
      DisableByScript(enabled - {ids[0]}, ids[1..], script[1..]);
    }
  }

  /** Enabling finishes when each entry has a fate it goes on over, and takes one fate each. */
  lemma {:induction false} EnableByScript(enabled: set<string>, ids: seq<string>, script: seq<Fate>)
    ensures var p := EnableEach(enabled, ids, script);
            && (p.end == Finished <==> |ids| <= |script| && forall i | 0 <= i < |ids| :: GoesOn(script[i]))
            && (p.end == Finished ==> p.rest == script[|ids|..])
            && (p.end == Finished ==> (p.collected == [] <==> forall i | 0 <= i < |ids| :: script[i] == Done))
    decreases |ids|
  {
    if ids != [] && GoesOn(First(script)) {
      EnableByScript(if First(script) == Done then enabled + {ids[0]} else enabled, ids[1..], script[1..]);
    }
  }

  /** Which entries it leaves disabled: those disabled before, with every fate of theirs refused. */
  lemma {:induction false} EnabledByScript(enabled: set<string>, ids: seq<string>, script: seq<Fate>, id: string)
    requires |ids| <= |script| && forall i | 0 <= i < |ids| :: GoesOn(script[i])
    ensures var p := EnableEach(enabled, ids, script);
            id in p.enabled <==> id in enabled || exists i | 0 <= i < |ids| :: ids[i] == id && script[i] == Done
    decreases |ids|
  {
    if ids != [] {
      var next := if script[0] == Done then enabled + {ids[0]} else enabled;
      EnabledByScript(next, ids[1..], script[1..], id);
      forall i | 0 <= i < |ids[1..]| ensures ids[1..][i] == ids[i + 1] && script[1..][i] == script[i + 1] {}
      forall i | 0 < i < |ids| ensures ids[i] == ids[1..][i - 1] && script[i] == script[1..][i - 1] {}
    }
  }

  // ---- One call ----

  /** The script refuses the k-th disabling of `n`, refuses a put-back after it, and lets the
      marker be dropped: fate 0 is the marker write, k the refusal, the k - 1 after it the
      put-backs, and 2k the unlink. */
  predicate ForgetsAt(k: nat, n: nat, script: seq<Fate>) {
    && 1 <= k <= n && 2 * k < |script|
    && (forall i | 0 <= i < k :: script[i] == Done) && script[k] == Refused
    && (forall i | k < i < 2 * k :: GoesOn(script[i])) && (exists i | k < i < 2 * k :: script[i] == Refused)
    && script[2 * k] == Done
  }

  predicate Forgets(n: nat, script: seq<Fate>) {
    exists k | 0 <= k <= n :: ForgetsAt(k, n, script)
  }

  /** Only the first fate that is not Done can be the refusal. */
  lemma ForgetsOnlyAt(n: nat, script: seq<Fate>, m: nat)
    requires m <= n + 1 && m <= |script| && forall i | 0 <= i < m :: script[i] == Done
    requires m <= n && m < |script| ==> script[m] != Done
    ensures Forgets(n, script) <==> ForgetsAt(m, n, script)
  {
    if k :| 0 <= k <= n && ForgetsAt(k, n, script) {
      assert k == m;
    }
  }

  lemma RollBackRaises(p: Pass, targets: seq<string>, script: seq<Fate>, k: nat)
    requires 1 <= k < |script| && |p.collected| == k - 1 && p.rest == script[k + 1..]
    ensures var exit := RollBack(p, targets).1;
            exit.Raised? && exit.ids != [] <==>
              && 2 * k < |script| && (forall i | k < i < 2 * k :: GoesOn(script[i])) && script[2 * k] == Done
              && (exists i | k < i < 2 * k :: script[i] == Refused)
  {
    EnableByScript(p.enabled, p.collected, p.rest);
    assert forall i | 0 <= i < |p.rest| :: p.rest[i] == script[k + 1 + i];
    if 2 * k <= |script| {
      assert forall i | k < i < 2 * k :: script[i] == p.rest[i - k - 1];
    }
  }

  /** Positions after the marker write, counted from it. */
  lemma AfterMarker(script: seq<Fate>, c: nat)
    requires First(script) == Done && c <= |script[1..]|
    ensures script != [] && script[0] == Done
    ensures (forall i | 0 <= i < c :: script[1..][i] == Done) ==> forall i | 0 <= i < c + 1 :: script[i] == Done
    ensures c < |script[1..]| ==> script[1..][c] == script[c + 1] && script[1..][c + 1..] == script[c + 2..]
  {
    assert forall i | 0 < i < |script| :: script[i] == script[1..][i - 1];
  }

  /** The disabling loop of a release, in positions of the whole script. */
  lemma DisableInRelease(w: World, targets: seq<string>, script: seq<Fate>, p: Pass, m: nat)
    requires First(script) == Done && p == DisableEach(w.enabled, targets, script[1..]) && m == |p.collected| + 1
    ensures m <= |targets| + 1 && m <= |script| && forall i | 0 <= i < m :: script[i] == Done
    ensures m <= |targets| && m < |script| ==> script[m] != Done
    ensures p.end == RefusedHere <==> m <= |targets| && m < |script| && script[m] == Refused
    ensures p.end == RefusedHere ==> p.rest == script[m + 1..]
  {
    DisableByScript(w.enabled, targets, script[1..]);
    AfterMarker(script, |p.collected|);
  }

  /** A release raises with an entry left disabled exactly when its script says so. */
  lemma RaisesIff(w: World, listing: seq<string>, script: seq<Fate>)
    ensures var exit := ReleaseCall(w, listing, script).1;
            exit.Raised? && exit.ids != [] <==> Forgets(|Targets(listing, w.enabled)|, script)
  {
    var targets := Targets(listing, w.enabled);
    if targets != [] && First(script) == Done {
      var p := DisableEach(w.enabled, targets, script[1..]);
      var m := |p.collected| + 1;
      DisableInRelease(w, targets, script, p, m);
      ForgetsOnlyAt(|targets|, script, m);
      if p.end == RefusedHere { RollBackRaises(p, targets, script, m); }
    }
  }

  /** Whether a release gets as far as overwriting the marker. */
  predicate WritesMarker(w: World, listing: seq<string>, script: seq<Fate>) {
    Targets(listing, w.enabled) != [] && (First(script) == Done || First(script) == Torn)
  }

  /** Every entry that the marker names is enabled: it is not needed any more. */
  predicate Settled(w: World) {
    forall id | id in MarkerIds(w.marker) :: id in w.enabled
  }

  lemma SettledIff(original: set<string>, w: World)
    requires Safe(original, w)
    ensures Settled(w) <==> w.enabled == original
  {
    if Settled(w) {
      forall id | id in original ensures id in w.enabled {
        assert id !in w.enabled <==> id in original - w.enabled;
      }
    } else {
      var id :| id in MarkerIds(w.marker) && id !in w.enabled;
      assert id in Elements(MarkerIds(w.marker));
    }
  }

  /** From a safe world, with no duplicate in the listing, a release stays safe exactly when it
      overwrites no marker that names a disabled entry and its script refuses no put-back before
      the marker is dropped. */
  lemma ReleaseSafeIff(original: set<string>, w: World, listing: seq<string>, script: seq<Fate>)
    requires Safe(original, w) && Distinct(listing)
    ensures var (after, exit) := ReleaseCall(w, listing, script);
            Safe(original, after) <==>
              && (WritesMarker(w, listing, script) ==> Settled(w))
              && !Forgets(|Targets(listing, w.enabled)|, script)
  {
    RaisesIff(w, listing, script);
    SettledIff(original, w);
    var targets := Targets(listing, w.enabled);
    if WritesMarker(w, listing, script) {
      TargetsFacts(listing, w.enabled);
      if First(script) == Torn {
        SafeWithoutIds(original, ReleaseCall(w, listing, script).0);
      } else {
        DisableFacts(w.enabled, targets, script[1..]);
        var p := DisableEach(w.enabled, targets, script[1..]);
        PrefixElements(p.collected, targets);
        DisabledSafeIff(original, w.enabled, targets, p.collected, p.enabled);
        if p.end == RefusedHere { RollBackSafeIff(original, w.enabled, targets, p); }
      }
    }
  }

  /** While the marker names the targets, all is safe exactly when nothing else was outstanding. */
  lemma DisabledSafeIff(original: set<string>, before: set<string>, targets: seq<string>, done: seq<string>,
                        enabled: set<string>)
    requires before <= original && Elements(done) <= Elements(targets) <= before
    requires before - Elements(done) <= enabled <= before
    ensures Safe(original, World(enabled, Ids(targets))) <==> before == original
  {
    if Safe(original, World(enabled, Ids(targets))) {
      forall id | id in original ensures id in before {
        assert id !in enabled <==> id in original - enabled;
      }
    }
  }

  /** After the put-back, with the marker dropped or not. */
  lemma RollBackSafeIff(original: set<string>, before: set<string>, targets: seq<string>, p: Pass)
    requires before <= original && Elements(p.collected) <= Elements(targets) <= before
    requires Distinct(p.collected) && p.enabled == before - Elements(p.collected)
    ensures var (after, exit) := RollBack(p, targets);
            Safe(original, after) <==> before == original && (exit.Raised? ==> exit.ids == [])
  {
    var q := EnableEach(p.enabled, p.collected, p.rest);
    EnableFacts(p.enabled, p.collected, p.rest);
    RefusedStayDisabled(p.enabled, p.collected, p.rest);
    if q.end == Finished && First(q.rest) == Done {
      SafeWithoutIds(original, World(q.enabled, Absent));
      if q.collected == [] {
        assert Elements(q.collected) == {};
        assert q.enabled == before;
      } else {
        assert q.collected[0] in Elements(q.collected);
        assert q.collected[0] !in q.enabled && q.collected[0] in original;
      }
    } else {
      DisabledSafeIff(original, before, targets, p.collected, q.enabled);
    }
  }

  lemma PrefixElements(a: seq<string>, b: seq<string>)
    requires a <= b
    ensures Elements(a) <= Elements(b)
    ensures Distinct(b) ==> Distinct(a)
  {
    assert forall i :: 0 <= i < |a| ==> a[i] == b[i];
  }

  lemma {:induction false} TargetsAre(listing: seq<string>, enabled: set<string>)
    ensures Elements(Targets(listing, enabled)) == (Elements(listing) - {""}) * enabled
    decreases |listing|
  {
    if listing != [] {
      var front, id := listing[..|listing| - 1], listing[|listing| - 1];
      TargetsAre(front, enabled);
      assert listing == front + [id];
      assert Elements(listing) == Elements(front) + {id};
      assert Elements(Targets(front, enabled) + [id]) == Elements(Targets(front, enabled)) + {id};
    }
  }

  /** A release that returns has disabled every listed entry and nothing else, returns exactly
      the ones it disabled, and leaves them in the marker if there are any. */
  lemma ReleaseCompletes(w: World, listing: seq<string>, script: seq<Fate>)
    requires ReleaseCall(w, listing, script).1.Returned?
    ensures var (after, exit) := ReleaseCall(w, listing, script);
            && after.enabled == w.enabled - (Elements(listing) - {""})
            && Elements(exit.ids) == w.enabled - after.enabled
            && after.marker == if exit.ids == [] then w.marker else Ids(exit.ids)
  {
    var targets := Targets(listing, w.enabled);
    TargetsAre(listing, w.enabled);
    if targets == [] {
      assert Elements(targets) == {};
    } else {
      DisableFacts(w.enabled, targets, script[1..]);
    }
  }

  /** A release that raises with nothing left disabled has undone itself. */
  lemma ReleaseUndone(w: World, listing: seq<string>, script: seq<Fate>)
    requires var exit := ReleaseCall(w, listing, script).1; exit.Raised? && exit.ids == []
    ensures ReleaseCall(w, listing, script).0 == World(w.enabled, Absent)
  {
    var targets := Targets(listing, w.enabled);
    TargetsFacts(listing, w.enabled);
    DisableFacts(w.enabled, targets, script[1..]);
    var p := DisableEach(w.enabled, targets, script[1..]);
    PrefixElements(p.collected, targets);
    EnableFacts(p.enabled, p.collected, p.rest);
    assert Elements([]) == {};
    assert EnableEach(p.enabled, p.collected, p.rest).enabled == w.enabled;
  }

  /** The restore refuses every enabling of an entry that is still disabled, and its rewrite of the
      marker is torn. */
  predicate LosesIds(w: World, script: seq<Fate>) {
    var ids := MarkerIds(w.marker);
    && |ids| < |script| && (forall i | 0 <= i < |ids| :: GoesOn(script[i])) && script[|ids|] == Torn
    && exists k | 0 <= k < |ids| ::
         ids[k] !in w.enabled && forall i | 0 <= i < |ids| && ids[i] == ids[k] :: script[i] == Refused
  }

  lemma LosesIdsIff(w: World, script: seq<Fate>, p: Pass)
    requires p == EnableEach(w.enabled, MarkerIds(w.marker), script)
    requires p.end == Finished && First(p.rest) == Torn
    ensures LosesIds(w, script) <==> exists id :: id in MarkerIds(w.marker) && id !in p.enabled
  {
    var ids := MarkerIds(w.marker);
    EnableByScript(w.enabled, ids, script);
    forall k | 0 <= k < |ids|
      ensures ids[k] in p.enabled <==>
              ids[k] in w.enabled || exists i | 0 <= i < |ids| :: ids[i] == ids[k] && script[i] == Done
    {
      EnabledByScript(w.enabled, ids, script, ids[k]);
    }
  }

  /** From a safe world, a restore stays safe exactly when its script does not tear the rewrite of
      the marker while an entry is still disabled. */
  lemma RestoreSafeIff(original: set<string>, w: World, script: seq<Fate>)
    requires Safe(original, w)
    ensures Safe(original, RestoreCall(w, script).0) <==> !LosesIds(w, script)
  {
    var ids := MarkerIds(w.marker);
    EnableFacts(w.enabled, ids, script);
    EnableByScript(w.enabled, ids, script);
    var p := EnableEach(w.enabled, ids, script);
    var after := RestoreCall(w, script).0;
    if p.end != Finished || First(p.rest) == Stops || First(p.rest) == Refused {
      assert after.marker == w.marker;
    } else {
      StillDisabled(original, w, p);
      if First(p.rest) == Torn {
        LosesIdsIff(w, script, p);
        if p.collected == [] {
          assert Elements(p.collected) == {};
        } else {
          SafeWithoutIds(original, after);
        }
      } else if p.collected == [] {
        assert Elements(p.collected) == {};
      }
    }
  }

  lemma StillDisabled(original: set<string>, w: World, p: Pass)
    requires Safe(original, w) && w.enabled <= p.enabled <= original
    requires var ids := Elements(MarkerIds(w.marker));
             Elements(p.collected) <= ids <= p.enabled + Elements(p.collected)
    ensures original - p.enabled <= Elements(p.collected)
    ensures p.enabled == original <==> forall id :: id in MarkerIds(w.marker) ==> id in p.enabled
  {
    forall id | id in original ensures id in p.enabled || id in Elements(p.collected) {
      assert id !in w.enabled <==> id in original - w.enabled;
    }
    assert forall id :: id in MarkerIds(w.marker) <==> id in Elements(MarkerIds(w.marker));
  }

  /** A restore that returns gives back exactly the original entries, with no marker left. */
  lemma RestoreRecovers(original: set<string>, w: World, script: seq<Fate>)
    requires Safe(original, w) && RestoreCall(w, script).1.Returned?
    ensures RestoreCall(w, script) == (World(original, Absent), Returned(MarkerIds(w.marker)))
  {
    EnableFacts(w.enabled, MarkerIds(w.marker), script);
    var p := EnableEach(w.enabled, MarkerIds(w.marker), script);
    assert Elements(p.collected) == {};
    assert p.enabled == original;
  }

  /** And it returns whenever nothing goes wrong. */
  lemma {:induction false} UndisturbedRestoreReturns(w: World, script: seq<Fate>)
    requires |script| == |MarkerIds(w.marker)| + 1 && forall i :: 0 <= i < |script| ==> script[i] == Done
    ensures RestoreCall(w, script).1.Returned?
  {
    UndisturbedPass(w.enabled, MarkerIds(w.marker), script);
  }

  lemma {:induction false} UndisturbedPass(enabled: set<string>, ids: seq<string>, script: seq<Fate>)
    requires |script| > |ids| && forall i :: 0 <= i < |script| ==> script[i] == Done
    ensures var p := EnableEach(enabled, ids, script);
            p.end == Finished && p.collected == [] && p.rest == script[|ids|..]
    decreases |ids|
  {
    if ids != [] {
      UndisturbedPass(enabled + {ids[0]}, ids[1..], script[1..]);
    }
  }

  // ---- Every run ----

  datatype Event = Releasing(listing: seq<string>, script: seq<Fate>) | Restoring(script: seq<Fate>)

  function Next(w: World, ev: Event): World {
    match ev
    case Releasing(listing, script) => ReleaseCall(w, listing, script).0
    case Restoring(script) => RestoreCall(w, script).0
  }

  function Run(w: World, events: seq<Event>): World
    decreases |events|
  {
    if events == [] then w else Run(Next(w, events[0]), events[1..])
  }

  /** A release overwrites no marker that names a disabled entry, and its script refuses no put-back
      before the marker is dropped; a restore's script does not tear the marker write after refusing
      every enabling of a disabled entry. Calls may stop anywhere, and refusals are free otherwise. */
  predicate Orderly(w: World, ev: Event) {
    match ev
    case Releasing(listing, script) =>
      (WritesMarker(w, listing, script) ==> Settled(w)) && !Forgets(|Targets(listing, w.enabled)|, script)
    case Restoring(script) => !LosesIds(w, script)
  }

  predicate OrderlyRun(w: World, events: seq<Event>)
    decreases |events|
  {
    events != [] ==> Orderly(w, events[0]) && OrderlyRun(Next(w, events[0]), events[1..])
  }

  predicate DistinctListing(ev: Event) {
    ev.Releasing? ==> Distinct(ev.listing)
  }

  lemma StepIsSafeIff(original: set<string>, w: World, ev: Event)
    requires Safe(original, w) && DistinctListing(ev)
    ensures Safe(original, Next(w, ev)) <==> Orderly(w, ev)
  {
    match ev
    case Releasing(listing, script) => ReleaseSafeIff(original, w, listing, script);
    case Restoring(script) => RestoreSafeIff(original, w, script);
  }

  lemma RunFirst(w: World, events: seq<Event>, n: nat)
    requires 0 < n <= |events|
    ensures Run(w, events[..n]) == Run(Next(w, events[0]), events[1..][..n - 1])
  {
    assert events[..n][1..] == events[1..][..n - 1];
  }

  lemma {:induction false} RunIsSafe(original: set<string>, w: World, events: seq<Event>)
    requires Safe(original, w) && OrderlyRun(w, events) && forall ev | ev in events :: DistinctListing(ev)
    ensures Safe(original, Run(w, events))
    decreases |events|
  {
    if events != [] {
      assert events[0] in events;
      StepIsSafeIff(original, w, events[0]);
      RunIsSafe(original, Next(w, events[0]), events[1..]);
    }
  }

  /** Over a whole run, with crashes anywhere, the marker covers every disabled entry after each
      call if and only if each call is orderly. */
  lemma {:induction false} SafeThroughoutIff(original: set<string>, w: World, events: seq<Event>)
    requires Safe(original, w) && forall ev | ev in events :: DistinctListing(ev)
    ensures OrderlyRun(w, events) <==> forall n: nat | n <= |events| :: Safe(original, Run(w, events[..n]))
    decreases |events|
  {
    if events == [] {
      assert events[..0] == [];
    } else {
      var next := Next(w, events[0]);
      assert events[0] in events;
      StepIsSafeIff(original, w, events[0]);
      RunFirst(w, events, 1);
      assert events[1..][..0] == [];
      if Safe(original, next) {
        SafeThroughoutIff(original, next, events[1..]);
        SafeAfterFirst(original, w, events);
      }
    }
  }

  /** Being safe after every call is being safe after the first and after every later one. */
  lemma SafeAfterFirst(original: set<string>, w: World, events: seq<Event>)
    requires Safe(original, w) && events != []
    ensures (forall n: nat | n <= |events| :: Safe(original, Run(w, events[..n]))) <==>
            forall n: nat | n <= |events[1..]| :: Safe(original, Run(Next(w, events[0]), events[1..][..n]))
  {
    forall n: nat | 0 < n <= |events|
      ensures Run(w, events[..n]) == Run(Next(w, events[0]), events[1..][..n - 1])
    {
      RunFirst(w, events, n);
    }
    assert events[..0] == [];
    if forall n: nat | n <= |events| :: Safe(original, Run(w, events[..n])) {
      forall n: nat | n <= |events[1..]| ensures Safe(original, Run(Next(w, events[0]), events[1..][..n])) {
        RunFirst(w, events, n + 1);
      }
    }
  }

  /** Crash safety: however orderly calls interleave and wherever the process stops,
      every entry left disabled is in the marker, so the first restore that returns gives back
      exactly the entries that were enabled at the start. */
  lemma {:induction false} CrashSafety(original: set<string>, events: seq<Event>, script: seq<Fate>)
    requires OrderlyRun(World(original, Absent), events) && forall ev | ev in events :: DistinctListing(ev)
    ensures var w := Run(World(original, Absent), events);
            && Safe(original, w)
            && (RestoreCall(w, script).1.Returned? ==> RestoreCall(w, script).0 == World(original, Absent))
  {
    var w := Run(World(original, Absent), events);
    RunIsSafe(original, World(original, Absent), events);
    if RestoreCall(w, script).1.Returned? { RestoreRecovers(original, w, script); }
  }

  // ---- Where it fails ----

  /** One put-back refused after a refused release: the entry stays disabled and no marker names
      it. */
  lemma RefusedPutBackIsForgotten(a: string, b: string)
    requires a != "" && b != "" && a != b
    ensures ReleaseCall(World({a, b}, Absent), [a, b], [Done, Done, Refused, Refused, Done]) ==
            (World({b}, Absent), Raised([a]))
  {
    var w := World({a, b}, Absent);
    assert [a, b][..1] == [a];
    assert Targets([a], w.enabled) == [a] by { assert [a][..0] == []; }
    assert Targets([a, b], w.enabled) == [a, b];
    assert {a, b} - {a} == {b};
    var script := [Done, Done, Refused, Refused, Done];
    assert script[1..][1..][1..][1..] == [Done];
    assert DisableEach({a, b}, [a, b], script[1..]) == Pass({b}, [a], script[3..], RefusedHere);
    assert EnableEach({b}, [a], script[3..]) == Pass({b}, [a], [Done], Finished);
  }

  /** A second release while the first one's marker is pending forgets the first one's entries. */
  lemma SecondReleaseForgets(a: string, b: string)
    requires a != "" && b != "" && a != b
    ensures Safe({a, b}, World({b}, Ids([a])))
    ensures ReleaseCall(World({b}, Ids([a])), [a, b], [Done, Done]) == (World({}, Ids([b])), Returned([b]))
  {
    assert [a, b][..1] == [a];
    assert Targets([a], {b}) == [] by { assert [a][..0] == []; }
    assert Targets([a, b], {b}) == [b];
    assert {b} - {b} == {};
    assert Elements([a]) == {a};
    assert DisableEach({b}, [b], [Done]) == Pass({}, [b], [], Finished);
  }
}
