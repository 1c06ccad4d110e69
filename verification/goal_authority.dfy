/**
  Continuation authority of src/goal.rs: who raises the process-local armed bit,
  exactly when it ends up on a goal that is not active, and what a round needs to
  start.
*/
module GoalAuthority {
  import opened Wrappers
  import opened Text
  import opened GoalFacts
  import opened Goal

  // ---------- who raises the bit ----------

  predicate Grants(c: Command) {
    c.DoArm? || c.DoArmSet? || (c.DoCreate? && c.arm)
  }

  /** No other step raises the bit; birth moves it from the goal to its session. */
  lemma OnlyGrantsRaise(s: Service, c: Command)
    requires !Grants(c) && Apply(s, c).armed != Disarmed
    ensures s.armed != Disarmed
    ensures Apply(s, c).armed == s.armed || (c.DoMaterialize? && s.armed == PendingArmed)
  {
  }

  /** An armed bit traces back to a grant after which it was never dropped. */
  lemma {:induction false} ArmedTracesToGrant(commands: seq<Command>) returns (k: nat)
    requires Run(commands).armed != Disarmed
    ensures k < |commands| && Grants(commands[k])
    ensures forall j | k < j <= |commands| :: Run(commands[..j]).armed != Disarmed
    decreases |commands|
  {
    var n := |commands| - 1;
    var before := commands[..n];
    assert commands[..|commands|] == commands;
    if Grants(commands[n]) {
      k := n;
    } else {
      OnlyGrantsRaise(Run(before), commands[n]);
      k := ArmedTracesToGrant(before);
      assert forall j | k < j <= n :: before[..j] == commands[..j];
    }
  }

  // ---------- what the bit stands for ----------

  predicate ActiveOrAbsent(goal: Option<GoalState>) {
    goal.Some? ==> goal.value.phase == Active
  }

  /** The goal the bit stands for, wherever it lives, is active. */
  predicate ArmedMeansActive(s: Service) {
    match s.armed
    case Disarmed => true
    case PendingArmed => ActiveOrAbsent(s.pending)
    case ArmedIn(session) => ActiveOrAbsent(Fold(JournalOf(s, session)).goal)
  }

  /**
    The two guards that put the bit on a goal that is not active: setting it
    after the check of `arm` went stale, and an arming create over a completed
    goal that the fold refuses, because the id is reused or the journal had
    already stopped replaying.
  */
  predicate Overarms(s: Service, c: Command) {
    match c
    case DoArmSet => CurrentState(s).Some? && CurrentState(s).value.phase != Active
    case DoCreate(o, a, _, arm, id, _, stored) =>
      && arm && stored && CreateAdmitted(s, o, a, id) && s.active.Some? && CurrentState(s).Some?
      && (CurrentState(s).value.id == id || !Fold(JournalOf(s, s.active.value)).intact)
    case _ => false
  }

  lemma AppendedFold(s: Service, session: nat, event: Event)
    requires session < |s.journals|
    ensures Fold(JournalOf(Append(s, session, event), session)) == Advance(Fold(JournalOf(s, session)), event)
    ensures forall i: nat | i != session :: JournalOf(Append(s, session, event), i) == JournalOf(s, i)
  {
    hide Fold, Advance, FoldGoalEvent;
    FoldAppend(s.journals[session], event);
    assert Append(s, session, event).journals[session] == s.journals[session] + [event];
  }

  /** A change that leaves the goal active cannot make an active fold inactive. */
  lemma ActiveChangeKeeps(p: Projection, operation: Operation, goal: GoalState)
    requires ActiveOrAbsent(p.goal) && goal.phase == Active
    ensures ActiveOrAbsent(Advance(p, Change(operation, goal)).goal)
  {
    hide ValidTransition, ValidState;
  }

  lemma ArmedAfterTransition(s: Service, expected: u64, m: Mutation, now: nat, stored: bool)
    requires Sound(s) && ArmedMeansActive(s)
    ensures ArmedMeansActive(Transition(s, expected, m, now, stored).0)
  {
    hide ValidState, FoldGoalEvent, Fold, ValidPayload;
    if CurrentState(s).Some? && ViewArmed(s) && Mutate(CurrentState(s).value, m).Ok? && CurrentState(s).value.revision < U64_MAX {
      var (mutated, keep) := Mutate(CurrentState(s).value, m).value;
      assert keep ==> mutated.phase == Active;
      if keep && s.active.Some? {
        AppendedFold(s, s.active.value, Change(OperationOf(m), Stamp(mutated, now)));
        ActiveChangeKeeps(Fold(JournalOf(s, s.active.value)), OperationOf(m), Stamp(mutated, now));
      }
    }
  }

  lemma ArmedAfterFinishRound(s: Service, tokens: u64, ms: nat, ok: bool, cancelled: bool, text: string, now: nat, stored: bool)
    requires Sound(s) && ArmedMeansActive(s)
    ensures ArmedMeansActive(FinishRound(s, tokens, ms, ok, cancelled, text, now, stored).0)
  {
    hide ValidState, FoldGoalEvent, Fold, ValidPayload;
    if CurrentState(s).Some? && s.active.Some? && CurrentState(s).value.revision < U64_MAX {
      var state := Stamp(RoundOutcome(CurrentState(s).value, tokens, ms, !ok && !cancelled, text), now);
      AppendedFold(s, s.active.value, Change(OpProgress, state));
      if state.phase == Active && ViewArmed(s) {
        ActiveChangeKeeps(Fold(JournalOf(s, s.active.value)), OpProgress, state);
      }
    }
  }

  /** After an arming create the bit is on the goal the fold holds. */
  lemma ArmedAfterCreateIff(s: Service, c: Command)
    requires Sound(s) && c.DoCreate? && ArmedMeansActive(s)
    ensures ArmedMeansActive(Apply(s, c)) <==> !Overarms(s, c)
  {
    hide Fold;
    if CreateAdmitted(s, c.objective, c.acceptance, c.id) && s.active.Some? {
      var state := NewGoal(c.objective, c.acceptance, c.limits, c.id, c.now);
      AppendedFold(s, s.active.value, Change(OpCreate, state));
      CreateIsFoldedIff(Fold(JournalOf(s, s.active.value)), state);
    }
  }

  lemma CreateIsFoldedIff(p: Projection, state: GoalState)
    requires state.phase == Active && state.revision == 1 && state.roundsStarted == 0 && ValidState(state)
    requires state.failures == 0 && state.tokensUsed == 0 && state.elapsedMs == 0
    requires p.goal.Some? ==> p.goal.value.phase == Complete
    ensures ActiveOrAbsent(Advance(p, Change(OpCreate, state)).goal) <==>
            p.goal.None? || (p.intact && p.goal.value.id != state.id)
  {
  }

  /** An admitted round leaves the phase alone, wherever the bit points. */
  lemma ArmedAfterAppendRound(s: Service, message: Event, stored: bool)
    requires Sound(s) && ArmedMeansActive(s)
    ensures ArmedMeansActive(AppendRound(s, message, stored))
  {
    hide Fold, ValidState, ValidTransition, ValidPayload, FitPending;
    if s.active.Some? {
      AppendedFold(s, s.active.value, message);
    }
  }

  lemma ArmedAfterMaterialize(s: Service, stored: bool)
    requires Sound(s) && s.active.None? && ArmedMeansActive(s)
    ensures ArmedMeansActive(Materialize(s, stored))
  {
    if s.pending.Some? {
      assert [Change(OpCreate, s.pending.value)] == [] + [Change(OpCreate, s.pending.value)];
      FoldAppend([], Change(OpCreate, s.pending.value));
    }
  }

  /** One step of any run puts the bit on an inactive goal exactly at those guards. */
  lemma ArmedStepIff(s: Service, c: Command)
    requires Sound(s) && ArmedMeansActive(s)
    ensures ArmedMeansActive(Apply(s, c)) <==> !Overarms(s, c)
  {
    hide Create, Transition, FinishRound, Materialize, AppendRound;
    match c
    case DoCreate(_, _, _, _, _, _, _) => ArmedAfterCreateIff(s, c);
    case DoTransition(e, m, now, stored) => ArmedAfterTransition(s, e, m, now, stored);
    case DoCandidate(e, text, verdict, ok, now, stored) =>
      ArmedAfterTransition(s, e, BlockOn("awaiting-user-acceptance", text), now, stored);
      ArmedAfterTransition(s, e, Finish(text, ok), now, stored);
      if verdict.Err? {
        ArmedAfterTransition(s, e, CandidateFailed(verdict.error), now, stored);
      }
    case DoFinishRound(t, ms, ok, cancelled, text, now, stored) =>
      ArmedAfterFinishRound(s, t, ms, ok, cancelled, text, now, stored);
    case DoAppendRound(message, stored) => ArmedAfterAppendRound(s, message, stored);
    case DoMaterialize(stored) =>
      if s.active.None? {
        ArmedAfterMaterialize(s, stored);
      }
    case _ =>
  }

  /**
    Over every run, two-step arming and broken journals included: armed means
    active in all its states exactly when no step met one of the two guards.
  */
  lemma {:induction false} ArmedMeansActiveIff(commands: seq<Command>)
    ensures (forall k | 0 <= k <= |commands| :: ArmedMeansActive(Run(commands[..k]))) <==>
            forall k | 0 <= k < |commands| :: !Overarms(Run(commands[..k]), commands[k])
  {
    hide Apply, Overarms, ArmedMeansActive, Run;
    var n := |commands| - 1;
    if n < 0 {
      NothingArmed();
      assert forall k | 0 <= k <= |commands| :: commands[..k] == [];
    } else {
      var before := commands[..n];
      ArmedMeansActiveIff(before);
      assert forall k | 0 <= k <= n :: before[..k] == commands[..k];
      assert commands[..|commands|] == commands;
      RunReplays(before);
      if ArmedMeansActive(Run(before)) {
        ArmedStepIff(Run(before), commands[n]);
      }
      RunOneMore(commands);
      assert commands[..n] == before;
    }
  }

  lemma NothingArmed()
    ensures ArmedMeansActive(Run([]))
  {
  }

  lemma RunOneMore(commands: seq<Command>)
    requires commands != []
    ensures Run(commands) == Apply(Run(commands[..|commands| - 1]), commands[|commands| - 1])
  {
  }

  /** In particular, atomic steps and journals that replay never arm an inactive goal. */
  lemma {:induction false} ArmedImpliesActive(commands: seq<Command>)
    requires AllIntact(Run(commands))
    requires forall k | 0 <= k < |commands| :: !commands[k].DoArmSet?
    ensures ArmedMeansActive(Run(commands))
    ensures ViewArmed(Run(commands)) ==> ActiveOrAbsent(CurrentState(Run(commands)))
  {
    if commands != [] {
      var n := |commands| - 1;
      var before := commands[..n];
      RunReplays(before);
      StepReplays(Run(before), commands[n]);
      ArmedImpliesActive(before);
      IntactDoesNotOverarm(Run(before), commands[n]);
      ArmedStepIff(Run(before), commands[n]);
    }
  }

  lemma IntactDoesNotOverarm(s: Service, c: Command)
    requires Sound(s) && AllIntact(s) && !Breaks(s, c) && !c.DoArmSet?
    ensures !Overarms(s, c)
  {
  }

  // ---------- what a round needs to start ----------

  /** The current goal gains a round in this step. */
  predicate StartsRound(s: Service, c: Command) {
    && CurrentState(s).Some? && CurrentState(Apply(s, c)).Some? && s.active == Apply(s, c).active
    && CurrentState(Apply(s, c)).value.id == CurrentState(s).value.id
    && CurrentState(Apply(s, c)).value.roundsStarted > CurrentState(s).value.roundsStarted
  }

  /** Only the next round of an active goal raises the round count of a fold. */
  lemma OnlyRoundsCount(p: Projection, event: Event)
    requires p.goal.Some? && Advance(p, event).goal.Some? && Advance(p, event).goal.value.id == p.goal.value.id
    requires Advance(p, event).goal.value.roundsStarted > p.goal.value.roundsStarted
    ensures p.goal.value.phase == Active
    ensures event == Round(p.goal.value.id, p.goal.value.revision, p.goal.value.roundsStarted + 1)
  {
    hide ValidState, ValidPayload;
  }

  /** What a step does to the journal it is attached to: nothing, or one appended fact. */
  lemma StepsAppend(s: Service, c: Command) returns (event: Option<Event>)
    requires Sound(s) && s.active.Some? && Apply(s, c).active == s.active
    ensures event.None? ==> CurrentState(Apply(s, c)) == CurrentState(s)
    ensures event.Some? ==> CurrentState(Apply(s, c)) == Advance(Fold(JournalOf(s, s.active.value)), event.value).goal
    ensures event.Some? && event.value.Round? ==> c.DoAppendRound? && c.stored && c.message == event.value
  {
    hide Fold, Advance, ValidPayload, Mutate, NormalizeResult;
    var session := s.active.value;
    if JournalOf(Apply(s, c), session) == JournalOf(s, session) {
      event := None;
    } else {
      var made := LastOf(s, c);
      event := Some(made);
      FoldAppend(JournalOf(s, session), made);
    }
  }

  lemma LastOf(s: Service, c: Command) returns (event: Event)
    requires Sound(s) && s.active.Some? && Apply(s, c).active == s.active
    requires JournalOf(Apply(s, c), s.active.value) != JournalOf(s, s.active.value)
    ensures JournalOf(Apply(s, c), s.active.value) == JournalOf(s, s.active.value) + [event]
    ensures event.Round? ==> c.DoAppendRound? && c.stored && c.message == event
  {
    hide Fold, ValidPayload, Mutate, NormalizeResult, CreateAdmitted;
    var was, now := JournalOf(s, s.active.value), JournalOf(Apply(s, c), s.active.value);
    event := now[|was|];
  }

  /** A round starts only by storing the next round message of an active goal. */
  lemma OnlyNextRoundStarts(s: Service, c: Command)
    requires Sound(s) && StartsRound(s, c)
    ensures c.DoAppendRound? && c.stored && s.active.Some? && CurrentState(s).value.phase == Active
    ensures c.message == Round(CurrentState(s).value.id, CurrentState(s).value.revision,
                               CurrentState(s).value.roundsStarted + 1)
  {
    if s.active.None? {
      PendingStartsNone(s, c);
    } else {
      hide Apply, Fold, Advance;
      var event := StepsAppend(s, c);
      OnlyRoundsCount(Fold(JournalOf(s, s.active.value)), event.value);
    }
  }

  lemma PendingStartsNone(s: Service, c: Command)
    requires Sound(s) && s.active.None?
    ensures !StartsRound(s, c)
  {
    hide Fold, ValidPayload, NormalizeResult;
  }

  /**
    Over every run, two-step arming included: when the message read at step `i`
    starts a round at step `j`, the goal was armed and active at the read, by a
    grant since which the bit was never dropped, and at the start it is active
    and has not changed since.
  */
  lemma RoundsStartWithAuthority(commands: seq<Command>, i: nat, j: nat) returns (k: nat)
    requires i <= j < |commands| && commands[j].DoAppendRound?
    requires NextRound(Run(commands[..i])) == Ok(commands[j].message)
    requires StartsRound(Run(commands[..j]), commands[j])
    ensures ViewArmed(Run(commands[..i])) && CurrentState(Run(commands[..i])).Some?
    ensures CurrentState(Run(commands[..i])).value.phase == Active
    ensures k < i && Grants(commands[k]) && forall m | k < m <= i :: Run(commands[..m]).armed != Disarmed
    ensures CurrentState(Run(commands[..j])).Some?
    ensures
      var read, start := CurrentState(Run(commands[..i])).value, CurrentState(Run(commands[..j])).value;
      && start.phase == Active && start.id == read.id && start.revision == read.revision
      && start.roundsStarted == read.roundsStarted
  {
    hide Run, Apply;
    RunReplays(commands[..j]);
    OnlyNextRoundStarts(Run(commands[..j]), commands[j]);
    k := ArmedTracesToGrant(commands[..i]);
    assert commands[..i][k] == commands[k];
    forall m | k < m <= i
      ensures Run(commands[..m]).armed != Disarmed
    {
      assert commands[..i][..m] == commands[..m];
    }
  }
}
