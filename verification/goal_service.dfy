/**
  The stateful object of src/goal.rs, field by field. Each method is proved to
  take the object to the state its specification in module Goal names, so the
  run theorems there speak about this object.
*/
module GoalServiceObject {
  import opened Wrappers
  import opened Text
  import opened GoalFacts
  import opened Goal

  class GoalService {
    var pending: Option<GoalState>
    var armedSession: Armed
    var active: Option<nat>
    var journals: seq<seq<Event>>

    function State(): Service
      reads this
    {
      Service(pending, armedSession, active, journals)
    }

    constructor ()
      ensures State() == INITIAL_SERVICE
    {
      pending, armedSession, active, journals := None, Disarmed, None, [];
    }

    method CurrentView() returns (view: Option<View>)
      ensures view == Current(State())
    {
      var state := pending;
      var armed := armedSession == PendingArmed;
      if active.Some? {
        var session := active.value;
        state := None;
        if session < |journals| {
          var projection := Project(journals[session]);
          state := projection.goal;
        }
        armed := armedSession == ArmedIn(session);
      }
      view := if state.Some? then Some(View(state.value, armed)) else None;
    }

    method RecordGoalChange(event: Event, stored: bool) returns (r: Result<(), string>)
      modifies this`journals
      ensures
        match Record(old(State()), event, stored)
        case Ok(t) => r.Ok? && State() == t
        case Err(e) => r == Err(e) && State() == old(State())
    {
      if !ValidPayload(event) {
        return Err("malformed goal change");
      }
      if active.None? || active.value >= |journals| {
        return Err("goal mutation requires an active session");
      }
      if !stored {
        return Err("journal append failed");
      }
      journals := journals[active.value := journals[active.value] + [event]];
      r := Ok(());
    }

    method SetArmed(armed: bool)
      modifies this`armedSession
      ensures State() == old(State()).(armed := ArmedBit(old(State()), armed))
    {
      if !armed {
        armedSession := Disarmed;
      } else if active.Some? {
        armedSession := ArmedIn(active.value);
      } else {
        armedSession := PendingArmed;
      }
    }

    method CreateNamed(objective: string, acceptance: Acceptance, limits: Limits, arm: bool,
                       id: GoalId, now: nat, stored: bool) returns (r: Result<View, string>)
      modifies this
      ensures (State(), r) == Create(old(State()), objective, acceptance, limits, arm, id, now, stored)
    {
      var current := CurrentView();
      if !id.wellFormed || !ValidObjective(objective) || !ValidAcceptance(acceptance) {
        return Err("goal create refused");
      }
      if current.Some? && current.value.state.phase != Complete {
        return Err("goal create refused");
      }
      var state := NewGoal(objective, acceptance, limits, id, now);
      if active.Some? {
        var recorded := RecordGoalChange(Change(OpCreate, state), stored);
        if recorded.Err? {
          return Err(recorded.error);
        }
      } else {
        pending := Some(state);
      }
      SetArmed(arm);
      r := Ok(View(state, arm));
    }

    method Mutated(expected: u64, m: Mutation, now: nat, stored: bool) returns (r: Result<View, string>)
      modifies this
      ensures (State(), r) == Transition(old(State()), expected, m, now, stored)
    {
      var current := CurrentView();
      if current.None? {
        return Err("no current goal");
      }
      if current.value.state.revision != expected {
        return Err("stale goal revision");
      }
      var mutated := Mutate(current.value.state, m);
      if mutated.Err? {
        return Err(mutated.error);
      }
      var (state, keep) := mutated.value;
      var armed := keep && current.value.armed;
      if state.revision == U64_MAX {
        return Err("goal revision exhausted");
      }
      state := Stamp(state, now);
      if active.Some? {
        var recorded := RecordGoalChange(Change(OperationOf(m), state), stored);
        if recorded.Err? {
          return Err(recorded.error);
        }
      } else {
        pending := Some(state);
      }
      SetArmed(armed);
      r := Ok(View(state, armed));
    }

    method Candidate(expected: u64, summary: string, verdict: Result<(), string>, verified: bool,
                     now: nat, stored: bool) returns (r: Result<View, string>)
      modifies this
      ensures (State(), r) == CompleteCandidate(old(State()), expected, summary, verdict, verified, now, stored)
    {
      var current := CurrentView();
      if current.None? {
        return Err("no current goal");
      }
      if current.value.state.revision != expected {
        return Err("stale goal revision");
      }
      if current.value.state.acceptance.User? {
        r := Mutated(expected, BlockOn("awaiting-user-acceptance", summary), now, stored);
      } else if verdict.Err? {
        var _ := Mutated(expected, CandidateFailed(verdict.error), now, stored);
        r := Err("goal acceptance failed");
      } else {
        r := Mutated(expected, Finish(summary, verified), now, stored);
      }
    }

    method Clear(expected: u64, now: nat, stored: bool) returns (r: Result<(), string>)
      modifies this
      ensures (State(), r) == ClearGoal(old(State()), expected, now, stored)
    {
      var current := CurrentView();
      if current.None? {
        return Err("no current goal");
      }
      var state := current.value.state;
      if state.revision != expected {
        return Err("stale goal revision");
      }
      if state.revision == U64_MAX {
        return Err("goal revision exhausted");
      }
      if active.Some? {
        var recorded := RecordGoalChange(Event.Clear(state.id, state.revision + 1, now), stored);
        if recorded.Err? {
          return Err(recorded.error);
        }
      } else {
        pending := None;
      }
      armedSession := Disarmed;
      r := Ok(());
    }

    method Arm(expected: u64) returns (r: Result<View, string>)
      modifies this`armedSession
      ensures r == ArmRead(old(State()), expected)
      ensures State() == Apply(old(State()), DoArm(expected))
    {
      var current := CurrentView();
      if current.None? {
        return Err("no current goal");
      }
      if current.value.state.revision != expected {
        return Err("stale goal revision");
      }
      if current.value.state.phase != Active {
        return Err("only an active goal can be armed");
      }
      SetArmed(true);
      r := Ok(View(current.value.state, true));
    }

    method FinishedRound(tokens: u64, elapsedMs: nat, succeeded: bool, cancelled: bool, result: string,
                         now: nat, stored: bool) returns (r: Result<bool, string>)
      modifies this
      ensures (State(), r) == FinishRound(old(State()), tokens, elapsedMs, succeeded, cancelled, result, now, stored)
    {
      var current := CurrentView();
      if current.None? {
        armedSession := Disarmed;
        return Ok(false);
      }
      var state := RoundOutcome(current.value.state, tokens, elapsedMs, !succeeded && !cancelled, result);
      var keep := current.value.armed && succeeded && !cancelled && state.phase == Active;
      if state.revision == U64_MAX {
        return Err("goal revision exhausted");
      }
      var recorded := RecordGoalChange(Change(OpProgress, Stamp(state, now)), stored);
      if recorded.Err? {
        return Err(recorded.error);
      }
      SetArmed(keep);
      r := Ok(keep);
    }

    method Materialized(stored: bool)
      requires active.None?
      modifies this
      ensures State() == Materialize(old(State()), stored)
    {
      var session := |journals|;
      active := Some(session);
      if !stored {
        journals := journals + [[]];
        return;
      }
      journals := journals + [if pending.Some? then [Change(OpCreate, pending.value)] else []];
      pending := None;
      armedSession := if armedSession == PendingArmed then ArmedIn(session) else Disarmed;
    }
  }

  /** The projection catches up on a journal one committed fact at a time. */
  method Project(journal: seq<Event>) returns (p: Projection)
    ensures p == Fold(journal)
  {
    p := Projection(None, true);
    for i := 0 to |journal|
      invariant p == Fold(journal[..i])
    {
      assert journal[..i + 1] == journal[..i] + [journal[i]];
      FoldAppend(journal[..i], journal[i]);
      if p.intact {
        var next := FoldGoalEvent(p.goal, journal[i]);
        p := if next.Ok? then Projection(next.value, true) else p.(intact := false);
      }
    }
    assert journal[..|journal|] == journal;
  }
}
