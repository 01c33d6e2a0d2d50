/** Disabling the integration's entries for a session and putting them back
    (IntegrationRelease in src/elk_programmer/hass.py), with a process that may stop before any
    effect. A script says how each effect goes; an exhausted script is a process that stopped. */
module Release {

  /** The marker file: missing, not readable as entry ids, or naming some. */
  datatype Marker = Absent | Unreadable | Ids(ids: seq<string>)

  /** The entries that are not disabled, and the marker: all that outlives the process. */
  datatype World = World(enabled: set<string>, marker: Marker)

  /** An effect takes place; core refuses it, leaving the entry as it was; a marker write is cut
      short and the process stops; the process stops before it. */
  datatype Fate = Done | Refused | Torn | Stops

  /** How a call ends: it returns ids, raises with ids still disabled, or never ends. */
  datatype Exit = Returned(ids: seq<string>) | Raised(ids: seq<string>) | Stopped

  function First(script: seq<Fate>): Fate {
    if script == [] then Stops else script[0]
  }

  // ---- The loops ----

  datatype End = Finished | RefusedHere | Halted

  /** The outcome of a loop over entries, with the ids it collected and the script left over. */
  datatype Pass = Pass(enabled: set<string>, collected: seq<string>, rest: seq<Fate>, end: End)

  /** Disabling each in turn, up to the first refusal; collects the disabled ones. */
  function DisableEach(enabled: set<string>, ids: seq<string>, script: seq<Fate>): Pass
    decreases |ids|
  {
    if ids == [] then Pass(enabled, [], script, Finished)
    else match First(script)
      case Done =>
        var p := DisableEach(enabled - {ids[0]}, ids[1..], script[1..]);
        p.(collected := [ids[0]] + p.collected)
      case Refused => Pass(enabled, [], script[1..], RefusedHere)
      case _ => Pass(enabled, [], script, Halted)
  }

  /** Enabling each in turn, going on after a refusal; collects the refused ones. */
  function EnableEach(enabled: set<string>, ids: seq<string>, script: seq<Fate>): (p: Pass)
    ensures p.end != RefusedHere
    decreases |ids|
  {
    if ids == [] then Pass(enabled, [], script, Finished)
    else match First(script)
      case Done => EnableEach(enabled + {ids[0]}, ids[1..], script[1..])
      case Refused =>
        var p := EnableEach(enabled, ids[1..], script[1..]);
        p.(collected := [ids[0]] + p.collected)
      case _ => Pass(enabled, [], script, Halted)
  }

  function MarkerIds(m: Marker): seq<string> {
    if m.Ids? then m.ids else []
  }

  /** The entries to disable: listed, with an id, and not already disabled. */
  function Targets(listing: seq<string>, enabled: set<string>): seq<string>
    decreases |listing|
  {
    if listing == [] then []
    else
      var front := Targets(listing[..|listing| - 1], enabled);
      var id := listing[|listing| - 1];
      if id != "" && id in enabled then front + [id] else front
  }

  // ---- The two calls ----

  /** After a refusal: put back what was disabled, then drop the marker, whatever was refused. */
  function RollBack(p: Pass, targets: seq<string>): (World, Exit) {
    var q := EnableEach(p.enabled, p.collected, p.rest);
    if q.end == Finished && First(q.rest) == Done then (World(q.enabled, Absent), Raised(q.collected))
    else (World(q.enabled, Ids(targets)), Stopped)
  }

  function ReleaseCall(w: World, listing: seq<string>, script: seq<Fate>): (World, Exit) {
    var targets := Targets(listing, w.enabled);
    if targets == [] then (w, Returned([]))
    else match First(script)
      case Done =>
        var p := DisableEach(w.enabled, targets, script[1..]);
        (match p.end
         case Finished => (World(p.enabled, Ids(targets)), Returned(p.collected))
         case RefusedHere => RollBack(p, targets)
         case Halted => (World(p.enabled, Ids(targets)), Stopped))
      case Torn => (w.(marker := Unreadable), Stopped)
      case _ => (w, Stopped)
  }

  function RestoreCall(w: World, script: seq<Fate>): (World, Exit) {
    var ids := MarkerIds(w.marker);
    var p := EnableEach(w.enabled, ids, script);
    if p.end != Finished then (w.(enabled := p.enabled), Stopped)
    else if p.collected != [] then
      match First(p.rest)
      case Done => (World(p.enabled, Ids(p.collected)), Raised(p.collected))
      case Torn => (World(p.enabled, Unreadable), Stopped)
      case _ => (w.(enabled := p.enabled), Stopped)
    else if First(p.rest) == Done then (World(p.enabled, Absent), Returned(ids))
    else (w.(enabled := p.enabled), Stopped)
  }

  // ---- The object ----

  /** The marker, core's entries and the script of what happens next. */
  class IntegrationRelease {
    var marker: Marker
    var enabled: set<string>
    var script: seq<Fate>

    constructor (marker: Marker, enabled: set<string>, script: seq<Fate>)
      ensures Value() == World(enabled, marker) && this.script == script
    {
      this.marker, this.enabled, this.script := marker, enabled, script;
    }

    function Value(): World
      reads this
    {
      World(enabled, marker)
    }

    /** Takes the next fate; a process that stopped takes no more. */
    method NextFate() returns (fate: Fate)
      modifies this`script
      ensures fate == First(old(script))
      ensures script == if fate == Done || fate == Refused then old(script)[1..] else old(script)
    {
      fate := First(script);
      if fate == Done || fate == Refused {
        script := script[1..];
      }
    }

    method SetEntryDisabled(id: string, disabled: bool) returns (fate: Fate)
      modifies this`script, this`enabled
      ensures fate == First(old(script))
      ensures script == if fate == Done || fate == Refused then old(script)[1..] else old(script)
      ensures enabled ==
              if fate != Done then old(enabled) else if disabled then old(enabled) - {id} else old(enabled) + {id}
    {
      fate := NextFate();
      if fate == Done {
        enabled := if disabled then enabled - {id} else enabled + {id};
      }
    }

    method Pending() returns (ids: seq<string>)
      ensures ids == MarkerIds(marker)
    {
      match marker
      case Ids(named) => ids := named;
      case _ => ids := [];
    }

    /** The loop of a release. */
    method DisableTargets(targets: seq<string>) returns (done: seq<string>, end: End)
      modifies this`script, this`enabled
      ensures Pass(enabled, done, script, end) == DisableEach(old(enabled), targets, old(script))
    {
      done := [];
      for i := 0 to |targets|
        invariant var p := DisableEach(enabled, targets[i..], script);
                  DisableEach(old(enabled), targets, old(script)) == p.(collected := done + p.collected)
      {
        assert targets[i..][1..] == targets[i + 1..];
        ghost var p := DisableEach(enabled, targets[i..], script);
        var fate := SetEntryDisabled(targets[i], true);
        if fate == Refused {
          return done, RefusedHere;
        }
        if fate != Done {
          return done, Halted;
        }
        Associative(done, [targets[i]], DisableEach(enabled, targets[i + 1..], script).collected);
        done := done + [targets[i]];
      }
      end := Finished;
    }

    /** The loop of a restore, and of the put-back after a refused release. */
    method EnableAll(ids: seq<string>) returns (failed: seq<string>, end: End)
      modifies this`script, this`enabled
      ensures Pass(enabled, failed, script, end) == EnableEach(old(enabled), ids, old(script))
    {
      failed := [];
      for i := 0 to |ids|
        invariant var p := EnableEach(enabled, ids[i..], script);
                  EnableEach(old(enabled), ids, old(script)) == p.(collected := failed + p.collected)
      {
        assert ids[i..][1..] == ids[i + 1..];
        var fate := SetEntryDisabled(ids[i], false);
        if fate == Refused {
          Associative(failed, [ids[i]], EnableEach(enabled, ids[i + 1..], script).collected);
          failed := failed + [ids[i]];
        } else if fate != Done {
          return failed, Halted;
        }
      }
      end := Finished;
    }

    /** `targets`, built in the order of the listing. */
    method EnabledTargets(listing: seq<string>) returns (targets: seq<string>)
      ensures targets == Targets(listing, enabled)
    {
      targets := [];
      for i := 0 to |listing|
        invariant targets == Targets(listing[..i], enabled)
      {
        assert listing[..i + 1][..i] == listing[..i];
        if listing[i] != "" && listing[i] in enabled {
          targets := targets + [listing[i]];
        }
      }
      assert listing[..|listing|] == listing;
    }

    method Release(listing: seq<string>) returns (exit: Exit)
      modifies this
      ensures (Value(), exit) == ReleaseCall(old(Value()), listing, old(script))
    {
      var targets := EnabledTargets(listing);
      if targets == [] {
        return Returned([]);
      }
      var fate := NextFate();
      if fate != Done {
        marker := if fate == Torn then Unreadable else marker;
        return Stopped;
      }
      marker := Ids(targets);
      var done, end := DisableTargets(targets);
      if end == Finished {
        return Returned(done);
      }
      if end == Halted {
        return Stopped;
      }
      var failed, end' := EnableAll(done);
      if end' == Halted {
        return Stopped;
      }
      fate := NextFate();
      if fate != Done {
        return Stopped;
      }
      marker := Absent;
      exit := Raised(failed);
    }

    method Restore() returns (exit: Exit)
      modifies this
      ensures (Value(), exit) == RestoreCall(old(Value()), old(script))
    {
      var ids := Pending();
      var failed, end := EnableAll(ids);
      if end != Finished {
        return Stopped;
      }
      var fate := NextFate();
      if failed != [] {
        if fate == Done {
          marker := Ids(failed);
          return Raised(failed);
        }
        marker := if fate == Torn then Unreadable else marker;
        return Stopped;
      }
      if fate != Done {
        return Stopped;
      }
      marker := Absent;
      exit := Returned(ids);
    }
  }

  lemma Associative<T>(a: seq<T>, b: seq<T>, c: seq<T>)
    ensures a + (b + c) == a + b + c
  {}
}
