/**
  What each call leaves of the goal it meets: the new state field by field, told
  from the call and the old state, wherever the goal is kept; and exactly when a
  call is accepted.
*/
module GoalOutcomes {
  import opened Wrappers
  import opened Text
  import opened GoalFacts
  import opened Goal

  /** The goal of a session as its journal replays, or the pending one. */
  function GoalIn(s: Service, place: Option<nat>): Option<GoalState> {
    match place
    case None => s.pending
    case Some(session) => Fold(JournalOf(s, session)).goal
  }

  /** Trimmed and cut to what fits 16 KiB. */
  function Clipped(text: string): string {
    TruncateUtf8(Trim(text), 16384)
  }

  /** Identity and terms of a goal never change, and every recorded call is one revision and no round. */
  predicate SameGoalOneOn(a: GoalState, b: GoalState, now: nat) {
    && b.id == a.id && b.objective == a.objective && b.acceptance == a.acceptance && b.limits == a.limits
    && b.createdAt == a.createdAt && b.updatedAt == (if now > a.updatedAt then now else a.updatedAt)
    && b.revision == a.revision + 1 && b.roundsStarted == a.roundsStarted
  }

  predicate SameSpending(a: GoalState, b: GoalState) {
    b.tokensUsed == a.tokensUsed && b.elapsedMs == a.elapsedMs
  }

  /** The old state, the mutation, the new state. */
  predicate Leaves(a: GoalState, m: Mutation, b: GoalState) {
    && SameSpending(a, b)
    && match m
       case Pause =>
         && a.phase == Active && b.phase == Paused && b.blockedReason == None
         && b.lastResult == a.lastResult && b.failures == a.failures
       case Resume =>
         && a.phase != Complete && b.phase == Active && b.blockedReason == None
         && b.lastResult == a.lastResult && b.failures == a.failures
       case ReportProgress(summary) =>
         && a.phase == Active == b.phase && b.blockedReason == a.blockedReason
         && b.lastResult == Some(Clipped(summary)) && b.failures == a.failures
       case BlockOn(code, message) =>
         && a.phase == Active && b.phase == Blocked && b.blockedReason == Some(BlockReason(code, Clipped(message)))
         && b.lastResult == a.lastResult && b.failures == a.failures
       case Finish(summary, verified) =>
         && verified && a.phase != Complete && b.phase == Complete && b.blockedReason == None
         && b.lastResult == Some(Clipped(summary)) && b.failures == a.failures
       case CandidateFailed(reason) =>
         && a.phase == Active == b.phase && b.blockedReason == a.blockedReason
         && b.lastResult == Some("acceptance failed: " + reason)
         && b.failures == (if a.failures < U32_MAX then a.failures + 1 else U32_MAX)
  }

  /** What a candidate for completion amounts to, by the goal's own acceptance and the verdict on it. */
  function MeantBy(a: GoalState, summary: string, verdict: Result<(), string>, verified: bool): Mutation {
    match (a.acceptance, verdict)
    case (User, _) => BlockOn("awaiting-user-acceptance", summary)
    case (_, Err(reason)) => CandidateFailed(reason)
    case (_, Ok(_)) => Finish(summary, verified)
  }

  /** `b` is the goal a create asks for. */
  predicate Newborn(c: Command, b: GoalState)
    requires c.DoCreate?
  {
    && b.id == c.id && b.objective == c.objective && b.acceptance == c.acceptance && b.limits == c.limits
    && b.phase == Active && b.revision == 1 && b.createdAt == b.updatedAt == c.now
    && b.roundsStarted == b.failures == b.tokensUsed == b.elapsedMs == 0
    && b.blockedReason == None && b.lastResult == None
  }

  /** How a step can have changed the goal kept at `place`. */
  predicate Told(s: Service, c: Command, place: Option<nat>, a: Option<GoalState>, b: Option<GoalState>) {
    match c
    case DoCreate(_, _, _, _, _, _, _) =>
      place == s.active && b.Some? && Newborn(c, b.value) && (a.Some? ==> a.value.phase == Complete)
    case DoTransition(expected, m, now, _) =>
      && place == s.active && a.Some? && b.Some? && a.value.revision == expected
      && SameGoalOneOn(a.value, b.value, now) && Leaves(a.value, m, b.value)
    case DoCandidate(expected, summary, verdict, verified, now, _) =>
      && place == s.active && a.Some? && b.Some? && a.value.revision == expected
      && SameGoalOneOn(a.value, b.value, now) && Leaves(a.value, MeantBy(a.value, summary, verdict, verified), b.value)
    case DoClear(expected, _, _) => place == s.active && a.Some? && a.value.revision == expected && b.None?
    case DoFinishRound(tokens, ms, ok, cancelled, text, now, _) =>
      && place == s.active && place.Some? && a.Some? && b.Some? && SameGoalOneOn(a.value, b.value, now)
      && b.value.phase == a.value.phase && b.value.blockedReason == a.value.blockedReason
      && b.value.tokensUsed == (if a.value.tokensUsed + tokens < U64_MAX then a.value.tokensUsed + tokens else U64_MAX)
      && b.value.elapsedMs == (if a.value.elapsedMs + ms < U64_MAX then a.value.elapsedMs + ms else U64_MAX)
      && b.value.failures == (if ok || cancelled || a.value.failures == U32_MAX then a.value.failures
                              else a.value.failures + 1)
      && b.value.lastResult == (if Trim(text) == "" then a.value.lastResult else Some(Clipped(text)))
    case DoAppendRound(message, _) =>
      && place == s.active && place.Some? && a.Some? && a.value.phase == Active && a.value.roundsStarted < U32_MAX
      && message == Round(a.value.id, a.value.revision, a.value.roundsStarted + 1)
      && b == Some(a.value.(roundsStarted := a.value.roundsStarted + 1))
    case DoMaterialize(_) =>
      && s.active == None
      && (|| (place == None && b == None)
          || (place == Some(|s.journals|) && a == None && b == s.pending && b.Some?
              && b.value.revision == 1 && b.value.phase == Active))
    case DoBoundary => place == None && b == None
    case _ => false
  }

  // ---------- through the journal ----------

  lemma AppendTold(s: Service, session: nat, event: Event, place: Option<nat>)
    requires session < |s.journals|
    ensures
      var a, b := GoalIn(s, place), GoalIn(Append(s, session, event), place);
      b == a || (place == Some(session) && FoldGoalEvent(a, event) == Ok(b))
  {
    FoldAppend(s.journals[session], event);
    hide FoldGoalEvent, Fold;
    var t := Append(s, session, event);
    if place.Some? && place.value != session && place.value < |s.journals| {
      assert t.journals[place.value] == s.journals[place.value];
    }
  }

  lemma RecordTold(s: Service, op: Operation, goal: GoalState, stored: bool, place: Option<nat>)
    requires Record(s, Change(op, goal), stored).Ok?
    ensures
      var a, b := GoalIn(s, place), GoalIn(Record(s, Change(op, goal), stored).value, place);
      b == a || (place == s.active && b == Some(goal))
  {
    hide Fold, ValidTransition, ValidState;
    AppendTold(s, s.active.value, Change(op, goal), place);
  }

  lemma CurrentIsIn(s: Service)
    ensures CurrentState(s) == GoalIn(s, s.active)
  {
  }

  lemma MutateLeaves(a: GoalState, m: Mutation, now: nat)
    requires Mutate(a, m).Ok? && a.revision < U64_MAX
    ensures SameGoalOneOn(a, Stamp(Mutate(a, m).value.0, now), now)
    ensures Leaves(a, m, Stamp(Mutate(a, m).value.0, now))
  {
    hide Trim, TruncateUtf8, ValidBlockCode;
  }

  lemma TransitionTold(s: Service, expected: u64, m: Mutation, now: nat, stored: bool, place: Option<nat>)
    ensures
      var a, b := GoalIn(s, place), GoalIn(Transition(s, expected, m, now, stored).0, place);
      b == a ||
      (&& place == s.active && a.Some? && b.Some? && a.value.revision == expected
       && SameGoalOneOn(a.value, b.value, now) && Leaves(a.value, m, b.value))
  {
    hide Mutate, Fold, Leaves, SameGoalOneOn, Record;
    CurrentIsIn(s);
    if CurrentState(s).Some? {
      var state := CurrentState(s).value;
      if Mutate(state, m).Ok? && state.revision < U64_MAX {
        MutateLeaves(state, m, now);
        var next := Stamp(Mutate(state, m).value.0, now);
        if s.active.Some? && Record(s, Change(OperationOf(m), next), stored).Ok? {
          RecordTold(s, OperationOf(m), next, stored, place);
        }
      }
    }
  }

  lemma CandidateTold(s: Service, c: Command, place: Option<nat>)
    requires c.DoCandidate?
    ensures
      var a, b := GoalIn(s, place), GoalIn(Apply(s, c), place);
      b == a || Told(s, c, place, a, b)
  {
    hide Transition, Fold, Leaves, SameGoalOneOn;
    CurrentIsIn(s);
    if CurrentState(s).Some? {
      TransitionTold(s, c.expected, MeantBy(CurrentState(s).value, c.summary, c.verdict, c.verified), c.now, c.stored, place);
    }
  }

  lemma FinishRoundTold(s: Service, c: Command, place: Option<nat>)
    requires c.DoFinishRound?
    ensures
      var a, b := GoalIn(s, place), GoalIn(Apply(s, c), place);
      b == a || Told(s, c, place, a, b)
  {
    hide Fold, Record, Trim, TruncateUtf8;
    CurrentIsIn(s);
    if CurrentState(s).Some? && CurrentState(s).value.revision < U64_MAX {
      var state := RoundOutcome(CurrentState(s).value, c.tokens, c.elapsedMs, !c.succeeded && !c.cancelled, c.result);
      if Record(s, Change(OpProgress, Stamp(state, c.now)), c.stored).Ok? {
        assert s.active.Some? by { RecordNeedsSession(s, Change(OpProgress, Stamp(state, c.now)), c.stored); }
        RecordTold(s, OpProgress, Stamp(state, c.now), c.stored, place);
      }
    }
  }

  lemma RecordNeedsSession(s: Service, event: Event, stored: bool)
    ensures Record(s, event, stored).Ok? ==> s.active.Some? && s.active.value < |s.journals|
  {
    hide ValidState;
  }

  lemma CreateTold(s: Service, c: Command, place: Option<nat>)
    requires c.DoCreate?
    ensures
      var a, b := GoalIn(s, place), GoalIn(Apply(s, c), place);
      b == a || Told(s, c, place, a, b)
  {
    hide Fold, Record, ValidObjective, ValidAcceptance;
    CurrentIsIn(s);
    var state := NewGoal(c.objective, c.acceptance, c.limits, c.id, c.now);
    if CreateAdmitted(s, c.objective, c.acceptance, c.id) && Record(s, Change(OpCreate, state), c.stored).Ok? {
      RecordTold(s, OpCreate, state, c.stored, place);
    }
  }

  lemma ClearTold(s: Service, c: Command, place: Option<nat>)
    requires c.DoClear?
    ensures
      var a, b := GoalIn(s, place), GoalIn(Apply(s, c), place);
      b == a || Told(s, c, place, a, b)
  {
    hide Fold;
    CurrentIsIn(s);
    if CurrentState(s).Some? && CurrentState(s).value.revision < U64_MAX && s.active.Some?
       && s.active.value < |s.journals| {
      AppendTold(s, s.active.value, Clear(CurrentState(s).value.id, CurrentState(s).value.revision + 1, c.now), place);
    }
  }

  lemma AppendRoundTold(s: Service, c: Command, place: Option<nat>)
    requires c.DoAppendRound?
    ensures
      var a, b := GoalIn(s, place), GoalIn(Apply(s, c), place);
      b == a || Told(s, c, place, a, b)
  {
    hide Fold;
    if c.message.Round? && s.active.Some? && s.active.value < |s.journals| && c.stored {
      AppendTold(s, s.active.value, c.message, place);
    }
  }

  lemma MaterializeTold(s: Service, c: Command, place: Option<nat>)
    requires c.DoMaterialize?
    ensures
      var a, b := GoalIn(s, place), GoalIn(Apply(s, c), place);
      b == a || Told(s, c, place, a, b)
  {
    if s.active.None? {
      var t, n := Materialize(s, c.stored), |s.journals|;
      assert forall i | 0 <= i < n :: t.journals[i] == s.journals[i];
      if place == Some(n) && t.journals[n] != [] {
        assert t.journals[n] == [] + [Change(OpCreate, s.pending.value)];
        FoldAppend([], Change(OpCreate, s.pending.value));
        hide ValidState;
      }
    }
  }

  /** Whatever is called, every goal anywhere stays as it was or changed as the call says. */
  lemma StepIsTold(s: Service, c: Command, place: Option<nat>)
    ensures
      var a, b := GoalIn(s, place), GoalIn(Apply(s, c), place);
      b == a || Told(s, c, place, a, b)
  {
    hide Fold, Create, Transition, FinishRound, Materialize, AppendRound, CompleteCandidate, ClearGoal, Leaves;
    match c
    case DoCreate(_, _, _, _, _, _, _) => CreateTold(s, c, place);
    case DoTransition(e, m, now, stored) => TransitionTold(s, e, m, now, stored, place);
    case DoCandidate(_, _, _, _, _, _) => CandidateTold(s, c, place);
    case DoClear(_, _, _) => ClearTold(s, c, place);
    case DoFinishRound(_, _, _, _, _, _, _) => FinishRoundTold(s, c, place);
    case DoAppendRound(_, _) => AppendRoundTold(s, c, place);
    case DoMaterialize(_) => MaterializeTold(s, c, place);
    case _ =>
  }

  // ---------- when a goal is complete ----------

  predicate IsComplete(goal: Option<GoalState>) {
    goal.Some? && goal.value.phase == Complete
  }

  /** A verified finish, or a candidate whose acceptance was met before the call and again inside. */
  predicate Completes(a: GoalState, c: Command) {
    || (c.DoTransition? && c.mutation.Finish? && c.mutation.verified && c.expected == a.revision)
    || (c.DoCandidate? && !a.acceptance.User? && c.verdict.Ok? && c.verified && c.expected == a.revision)
  }

  /** In every run, a goal that becomes complete was there before and met its acceptance. */
  lemma CompleteOnlyWhenMet(commands: seq<Command>, k: nat, place: Option<nat>)
    requires k < |commands|
    requires IsComplete(GoalIn(Run(commands[..k + 1]), place)) && !IsComplete(GoalIn(Run(commands[..k]), place))
    ensures
      var s := Run(commands[..k]);
      && place == s.active && GoalIn(s, place).Some? && Completes(GoalIn(s, place).value, commands[k])
      && GoalIn(Run(commands[..k + 1]), place).value.id == GoalIn(s, place).value.id
  {
    hide Run, Apply, GoalIn;
    RunOneMore(commands, k);
    StepIsTold(Run(commands[..k]), commands[k], place);
  }

  lemma RunOneMore(commands: seq<Command>, k: nat)
    requires k < |commands|
    ensures Run(commands[..k + 1]) == Apply(Run(commands[..k]), commands[k])
  {
    assert commands[..k + 1][..k] == commands[..k];
  }

  // ---------- exactly when a call is accepted ----------

  /** What the goal and the text must be like for a mutation. */
  predicate Permitted(a: GoalState, m: Mutation) {
    match m
    case Pause => a.phase == Active
    case Resume => a.phase != Complete
    case ReportProgress(summary) => a.phase == Active && Trim(summary) != ""
    case BlockOn(code, message) => a.phase == Active && ValidBlockCode(code) && Trim(message) != ""
    case Finish(summary, verified) => a.phase != Complete && verified && Trim(summary) != ""
    case CandidateFailed(_) => a.phase == Active
  }

  /** What a session's journal asks of the text besides: the cut to size left no blank at its end. */
  predicate Recordable(m: Mutation) {
    match m
    case Pause => true
    case Resume => true
    case ReportProgress(summary) => CutIsClean(summary)
    case BlockOn(_, message) => CutIsClean(message)
    case Finish(summary, _) => CutIsClean(summary)
    case CandidateFailed(reason) => Canonical("acceptance failed: " + reason)
  }

  lemma MutateIff(a: GoalState, m: Mutation)
    ensures Mutate(a, m).Ok? <==> Permitted(a, m)
    ensures Mutate(a, m).Ok? ==> Mutate(a, m).value.0.revision == a.revision
    ensures Mutate(a, m).Ok? ==> (Mutate(a, m).value.1 <==> m.ReportProgress? || m.CandidateFailed?)
  {
    hide Trim, TruncateUtf8, ValidBlockCode;
  }

  lemma MutatedIsValidIff(a: GoalState, m: Mutation, now: nat)
    requires ValidState(a) && Mutate(a, m).Ok? && a.revision < U64_MAX
    ensures ValidState(Stamp(Mutate(a, m).value.0, now)) <==> Recordable(m)
  {
    hide ValidObjective, ValidAcceptance, ValidBlockCode, CutIsClean, Canonical, Trim, TruncateUtf8;
    match m
    case ReportProgress(summary) => NormalizedIsCanonicalIff(summary);
    case BlockOn(_, message) => NormalizedIsCanonicalIff(message);
    case Finish(summary, _) => NormalizedIsCanonicalIff(summary);
    case _ =>
  }

  /**
    A mutation whose write succeeds is accepted exactly when it names the current
    revision and the goal and the text permit it; a report and a failed candidate
    leave the bit, everything else lowers it.
  */
  lemma TransitionAcceptedIff(s: Service, expected: u64, m: Mutation, now: nat)
    requires Sound(s) && AllIntact(s)
    ensures
      var (t, r) := Transition(s, expected, m, now, true);
      && (r.Ok? <==>
            && CurrentState(s).Some? && CurrentState(s).value.revision == expected < U64_MAX
            && Permitted(CurrentState(s).value, m) && (s.active.Some? ==> Recordable(m)))
      && (r.Ok? ==>
            && CurrentState(t) == Some(r.value.state) && SameGoalOneOn(CurrentState(s).value, r.value.state, now)
            && Leaves(CurrentState(s).value, m, r.value.state)
            && (ViewArmed(t) <==> ViewArmed(s) && (m.ReportProgress? || m.CandidateFailed?)))
  {
    hide Mutate, Fold, Leaves, SameGoalOneOn, ValidState, Recordable, Permitted;
    TransitionReportsTheFold(s, expected, m, now, true);
    if CurrentState(s).Some? {
      var a := CurrentState(s).value;
      MutateIff(a, m);
      if Mutate(a, m).Ok? && a.revision < U64_MAX {
        MutateLeaves(a, m, now);
        if s.active.Some? {
          FoldedStateIsValid(s.journals[s.active.value]);
          MutatedIsValidIff(a, m, now);
        }
      }
    }
  }

  /** A candidate does what it is meant by, and answers with success unless its acceptance failed. */
  lemma CandidateAcceptedIff(s: Service, expected: u64, summary: string, verdict: Result<(), string>, verified: bool, now: nat)
    requires Sound(s) && AllIntact(s) && CurrentState(s).Some? && CurrentState(s).value.revision == expected
    ensures
      var a := CurrentState(s).value;
      var m := MeantBy(a, summary, verdict, verified);
      var (t, r) := CompleteCandidate(s, expected, summary, verdict, verified, now, true);
      && (CurrentState(t) != CurrentState(s) <==>
            expected < U64_MAX && Permitted(a, m) && (s.active.Some? ==> Recordable(m)))
      && (CurrentState(t) != CurrentState(s) ==> CurrentState(t).Some? && Leaves(a, m, CurrentState(t).value))
      && (r.Ok? <==> CurrentState(t) != CurrentState(s) && (a.acceptance.User? || verdict.Ok?))
  {
    hide Transition, Fold, Leaves, SameGoalOneOn, Recordable, Permitted;
    TransitionAcceptedIff(s, expected, MeantBy(CurrentState(s).value, summary, verdict, verified), now);
    TransitionReportsTheFold(s, expected, MeantBy(CurrentState(s).value, summary, verdict, verified), now, true);
  }

  /** A create is accepted exactly when its texts are valid and no goal is unfinished. */
  lemma CreateAcceptedIff(s: Service, c: Command)
    requires Sound(s) && AllIntact(s) && c.DoCreate? && c.stored
    ensures
      var (t, r) := Create(s, c.objective, c.acceptance, c.limits, c.arm, c.id, c.now, c.stored);
      && (r.Ok? <==>
            && c.id.wellFormed && ValidObjective(c.objective) && ValidAcceptance(c.acceptance)
            && (CurrentState(s) == None || CurrentState(s).value.phase == Complete))
      && (r.Ok? ==> Newborn(c, r.value.state) && r.value.armed == c.arm && ViewArmed(t) == c.arm)
  {
    hide ValidObjective, ValidAcceptance, Fold;
  }

  lemma ClearAcceptedIff(s: Service, expected: u64, now: nat, stored: bool)
    requires Sound(s) && AllIntact(s)
    ensures ClearGoal(s, expected, now, stored).1.Ok? <==>
            CurrentState(s).Some? && CurrentState(s).value.revision == expected < U64_MAX && (s.active.Some? ==> stored)
  {
    hide Fold, ValidObjective, ValidAcceptance;
    if s.active.Some? {
      FoldedStateIsValid(s.journals[s.active.value]);
    }
  }

  /** Arming raises the bit exactly on the current revision of an active goal, and changes no goal. */
  lemma ArmedIff(s: Service, expected: u64)
    ensures
      var t := Apply(s, DoArm(expected));
      && (ViewArmed(t) <==> ViewArmed(s) || (CurrentState(s).Some? && CurrentState(s).value.revision == expected
                                             && CurrentState(s).value.phase == Active))
      && t.journals == s.journals && t.pending == s.pending && t.active == s.active
  {
    hide Fold;
  }

  /** A round is offered exactly to an armed active goal with rounds left, and names it. */
  lemma RoundIsOfferedIff(s: Service)
    ensures
      var r, current := NextRound(s), CurrentState(s);
      && (r.Ok? <==> ViewArmed(s) && current.Some? && current.value.phase == Active && current.value.roundsStarted < U32_MAX)
      && (r.Ok? ==> r.value == Round(current.value.id, current.value.revision, current.value.roundsStarted + 1))
  {
    hide Fold;
  }

  // ---------- the bit, where no goal changes ----------

  /** What the other steps make of the continuation bit of the goal in view. */
  lemma BitElsewhere(s: Service, c: Command)
    requires Sound(s)
    ensures c.DoArmSet? ==> ViewArmed(Apply(s, c))
    ensures c.DoDisarm? || c.DoBoundary? ==> !ViewArmed(Apply(s, c))
    ensures c.DoAppendRound? ==> ViewArmed(Apply(s, c)) == ViewArmed(s)
    ensures c.DoMaterialize? && s.active.None? ==> ViewArmed(Apply(s, c)) == (c.stored && ViewArmed(s))
    ensures c.DoFinishRound? && CurrentState(s).None? ==> !ViewArmed(Apply(s, c))
  {
    hide Fold;
  }

  // ---------- what the fold accepts ----------

  /** The moves a recorded change may make, by its operation; only a round's account may be charged, and only by progress. */
  lemma AcceptedMoves(a: GoalState, op: Operation, b: GoalState)
    requires FoldGoalEvent(Some(a), Change(op, b)).Ok?
    ensures ValidState(b)
    ensures op == OpCreate ==> a.phase == Complete && b.id != a.id && b.phase == Active && b.revision == 1
    ensures op != OpCreate ==> b.id == a.id && b.objective == a.objective && b.acceptance == a.acceptance
    ensures op == OpPause ==> a.phase == Active && b.phase == Paused
    ensures op == OpResume ==> a.phase != Complete && b.phase == Active
    ensures op == OpBlock ==> a.phase == Active && b.phase == Blocked
    ensures op == OpComplete ==> a.phase != Complete && b.phase == Complete
    ensures op == OpProgress ==> b.phase == a.phase || (a.phase == Active && b.phase != Complete)
    ensures op != OpProgress && op != OpCreate ==> SameSpending(a, b) && b.failures == a.failures
  {
    hide ValidState;
  }

  /** What every replayed goal is like: named, dated in order, with a reason exactly when blocked, and texts that fit. */
  lemma FoldedGoalIs(journal: seq<Event>)
    requires Fold(journal).goal.Some?
    ensures
      var a := Fold(journal).goal.value;
      && a.id.wellFormed && a.revision >= 1 && 0 <= a.createdAt <= a.updatedAt
      && (a.phase == Blocked <==> a.blockedReason.Some?)
      && a.objective != "" && Trim(a.objective) == a.objective && ByteLen(a.objective) <= 16_384
      && (a.lastResult.Some? ==> a.lastResult.value != "" && Trim(a.lastResult.value) == a.lastResult.value
                                 && ByteLen(a.lastResult.value) <= 16_384)
      && (a.blockedReason.Some? ==>
            var reason := a.blockedReason.value;
            ValidBlockCode(reason.code) && reason.message != "" && Trim(reason.message) == reason.message
            && ByteLen(reason.message) <= 16_384)
  {
    hide Fold, Trim, ByteLen, ValidAcceptance, ValidBlockCode;
    FoldedStateIsValid(journal);
    var a := Fold(journal).goal.value;
    TrimFixed(a.objective);
    if a.lastResult.Some? {
      TrimFixed(a.lastResult.value);
    }
    if a.blockedReason.Some? {
      TrimFixed(a.blockedReason.value.message);
    }
  }
}
