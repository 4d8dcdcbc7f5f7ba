/**
 * The user events that change the component state: a click on one of the four
 * pillar buttons and a change of the level drop-down. React's `setState` merges
 * the partial state it is given, so each event overwrites one field only.
 */
module CarrouselEvents {
  import opened CarrouselFilter

  /** The pillar buttons, in display order; none of them offers the sentinel. */
  const PILLAR_BUTTONS: seq<string> := ["Quantum", "Harmony", "CloudGuard", "Infinity"]

  /** The values of the level drop-down's options; the first is the sentinel (labelled "All Levels"). */
  const LEVEL_OPTIONS: seq<string> := [ALL, "Fundamentals", "Advanced", "Expert"]

  datatype Event = PillarClick(pillar: string) | LevelChange(level: string)

  /** The event can be raised by the rendered controls. */
  predicate Offered(e: Event) {
    match e
    case PillarClick(p) => p in PILLAR_BUTTONS
    case LevelChange(l) => l in LEVEL_OPTIONS
  }

  /** The state after one event: the targeted field takes the event's value, the other is kept. */
  function Step(s: Selection, e: Event): (t: Selection)
    ensures e.PillarClick? ==> t.pillar == e.pillar && t.level == s.level
    ensures e.LevelChange? ==> t.level == e.level && t.pillar == s.pillar
  {
    match e
    case PillarClick(p) => s.(pillar := p)
    case LevelChange(l) => s.(level := l)
  }

  /** The state after a run of events from the constructor's defaults. */
  function Run(events: seq<Event>): Selection {
    if events == [] then INITIAL
    else Step(Run(events[..|events| - 1]), events[|events| - 1])
  }

  /** Some pillar button was clicked during the run. */
  predicate Clicked(events: seq<Event>) {
    exists k :: 0 <= k < |events| && events[k].PillarClick?
  }

  /** The states the invariant admits: pillar at the sentinel or a button's, level one of the options. */
  predicate Admissible(s: Selection) {
    (s.pillar == ALL || s.pillar in PILLAR_BUTTONS) && s.level in LEVEL_OPTIONS
  }

  /**
   * Every run of offered events ends in an admissible state, and its pillar is
   * still the sentinel exactly when no pillar button was clicked.
   */
  lemma {:induction false} RunInvariant(events: seq<Event>)
    requires forall k :: 0 <= k < |events| ==> Offered(events[k])
    ensures Admissible(Run(events))
    ensures Run(events).pillar == ALL <==> !Clicked(events)
  {
    if events != [] {
      var n := |events| - 1;
      var prefix := events[..n];
      assert forall k :: 0 <= k < n ==> prefix[k] == events[k];
      RunInvariant(prefix);
      assert ALL !in PILLAR_BUTTONS;
      if !events[n].PillarClick? {
        assert Clicked(events) ==> Clicked(prefix) by {
          if Clicked(events) {
            var k :| 0 <= k < |events| && events[k].PillarClick?;
            assert prefix[k].PillarClick?;
          }
        }
      }
    }
  }

  /** Once a pillar button has been clicked, no later events bring the pillar back to the sentinel. */
  lemma NoReturnToAll(events: seq<Event>, later: seq<Event>)
    requires forall k :: 0 <= k < |events| ==> Offered(events[k])
    requires forall k :: 0 <= k < |later| ==> Offered(later[k])
    requires Clicked(events)
    ensures Run(events + later).pillar != ALL
  {
    var all := events + later;
    var k :| 0 <= k < |events| && events[k].PillarClick?;
    assert all[k].PillarClick?;
    assert forall j :: 0 <= j < |all| ==> Offered(all[j]) by {
      forall j | 0 <= j < |all| ensures Offered(all[j]) {
        if j >= |events| { assert all[j] == later[j - |events|]; }
      }
    }
    RunInvariant(all);
  }

  /**
   * The invariant is exact: every admissible state is reached by some run of offered
   * events, with a pillar click among them exactly when the pillar is not the sentinel.
   */
  lemma AdmissibleIsReachable(s: Selection) returns (events: seq<Event>)
    requires Admissible(s)
    ensures forall k :: 0 <= k < |events| ==> Offered(events[k])
    ensures Run(events) == s
    ensures Clicked(events) <==> s.pillar != ALL
  {
    if s.pillar == ALL {
      events := [LevelChange(s.level)];
      assert events[..0] == [];
    } else {
      events := [PillarClick(s.pillar), LevelChange(s.level)];
      assert events[..1] == [PillarClick(s.pillar)];
      assert events[..1][..0] == [];
      assert events[0].PillarClick?;
    }
  }
}
