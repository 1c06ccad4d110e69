/**
  The goal service of src/goal.rs: compare-and-set writers over a session
  journal, a pending goal that has no session yet, and the process-local armed
  bit. The acceptor it must agree with is GoalFacts.Fold.
*/
module Goal {
  import opened Wrappers
  import opened Text
  import opened GoalFacts

  /** `armed_session`: nothing, the pending sentinel, or one session. */
  datatype Armed = Disarmed | PendingArmed | ArmedIn(session: nat)

  /** Sessions are numbered in the order they are created. */
  datatype Service = Service(
    pending: Option<GoalState>,
    armed: Armed,
    active: Option<nat>,
    journals: seq<seq<Event>>)

  datatype View = View(state: GoalState, armed: bool)

  const INITIAL_SERVICE := Service(None, Disarmed, None, [])

  function JournalOf(s: Service, session: nat): seq<Event> {
    if session < |s.journals| then s.journals[session] else []
  }

  function CurrentState(s: Service): Option<GoalState> {
    match s.active
    case Some(session) => Fold(JournalOf(s, session)).goal
    case None => s.pending
  }

  predicate ViewArmed(s: Service) {
    match s.active
    case Some(session) => s.armed == ArmedIn(session)
    case None => s.armed == PendingArmed
  }

  function Current(s: Service): Option<View> {
    match CurrentState(s)
    case Some(state) => Some(View(state, ViewArmed(s)))
    case None => None
  }

  // ---------- writers ----------

  function Append(s: Service, session: nat, event: Event): Service
    requires session < |s.journals|
  {
    s.(journals := s.journals[session := s.journals[session] + [event]])
  }

  /** Validate, then append durably (`stored` is the outcome of the write). */
  function Record(s: Service, event: Event, stored: bool): Result<Service, string> {
    if !ValidPayload(event) then Err("malformed goal change")
    else if s.active.None? || s.active.value >= |s.journals| then Err("goal mutation requires an active session")
    else if !stored then Err("journal append failed")
    else Ok(Append(s, s.active.value, event))
  }

  function ArmedBit(s: Service, armed: bool): Armed {
    if !armed then Disarmed
    else match s.active
      case Some(session) => ArmedIn(session)
      case None => PendingArmed
  }

  function NewGoal(objective: string, acceptance: Acceptance, limits: Limits, id: GoalId, now: nat): GoalState {
    GoalState(id, objective, acceptance, Active, 1, 0, 0, 0, 0, limits, now, now, None, None)
  }

  predicate CreateAdmitted(s: Service, objective: string, acceptance: Acceptance, id: GoalId) {
    && id.wellFormed && ValidObjective(objective) && ValidAcceptance(acceptance)
    && (CurrentState(s).Some? ==> CurrentState(s).value.phase == Complete)
  }

  function Create(s: Service, objective: string, acceptance: Acceptance, limits: Limits,
                  arm: bool, id: GoalId, now: nat, stored: bool): (Service, Result<View, string>)
  {
    if !CreateAdmitted(s, objective, acceptance, id) then (s, Err("goal create refused"))
    else
      var state := NewGoal(objective, acceptance, limits, id, now);
      if s.active.Some? then
        match Record(s, Change(OpCreate, state), stored)
        case Err(e) => (s, Err(e))
        case Ok(t) => (t.(armed := ArmedBit(s, arm)), Ok(View(state, arm)))
      else (s.(pending := Some(state), armed := ArmedBit(s, arm)), Ok(View(state, arm)))
  }

  /** The closures handed to `transition`; file checks arrive as verdicts. */
  datatype Mutation =
    | Pause
    | Resume
    | ReportProgress(summary: string)
    | BlockOn(code: string, message: string)
    | Finish(summary: string, verified: bool)
    | CandidateFailed(reason: string)

  function OperationOf(m: Mutation): Operation {
    match m
    case Pause => OpPause
    case Resume => OpResume
    case ReportProgress(_) => OpProgress
    case CandidateFailed(_) => OpProgress
    case BlockOn(_, _) => OpBlock
    case Finish(_, _) => OpComplete
  }

  function SaturatingAdd(a: nat, b: nat, max: nat): (r: nat)
    requires a <= max
    ensures a <= r <= max && r <= a + b
  {
    if a + b <= max then a + b else max
  }

  /** The mutated state, and whether an existing arm may be kept. */
  function Mutate(state: GoalState, m: Mutation): (r: Result<(GoalState, bool), string>)
    ensures r.Ok? ==> r.value.0.revision == state.revision && r.value.0.roundsStarted == state.roundsStarted
  {
    match m
    case Pause =>
      if state.phase != Active then Err("only an active goal can be paused")
      else Ok((state.(phase := Paused, blockedReason := None), false))
    case Resume =>
      if state.phase == Complete then Err("a complete goal cannot be resumed")
      else Ok((state.(phase := Active, blockedReason := None), false))
    case ReportProgress(summary) =>
      if state.phase != Active then Err("progress requires an active goal")
      else (match NormalizeResult(summary)
            case Err(e) => Err(e)
            case Ok(text) => Ok((state.(lastResult := Some(text)), true)))
    case BlockOn(code, message) =>
      if !ValidBlockCode(code) then Err("goal block code must be lower-kebab-case")
      else (match NormalizeResult(message)
            case Err(e) => Err(e)
            case Ok(text) =>
              if state.phase != Active then Err("only an active goal can be blocked")
              else Ok((state.(phase := Blocked, blockedReason := Some(BlockReason(code, text))), false)))
    case Finish(summary, verified) =>
      (match NormalizeResult(summary)
       case Err(e) => Err(e)
       case Ok(text) =>
         if state.phase == Complete then Err("goal is already complete")
         else if !verified then Err("acceptance failed")
         else Ok((state.(phase := Complete, blockedReason := None, lastResult := Some(text)), false)))
    case CandidateFailed(reason) =>
      if state.phase != Active then Err("completion candidate requires an active goal")
      else Ok((state.(failures := SaturatingAdd(state.failures, 1, U32_MAX),
                      lastResult := Some("acceptance failed: " + reason)), true))
  }

  /** The shared tail of every mutation: bump the revision and stamp it. */
  function Stamp(state: GoalState, now: nat): GoalState
    requires state.revision < U64_MAX
  {
    state.(revision := state.revision + 1, updatedAt := if now > state.updatedAt then now else state.updatedAt)
  }

  function Transition(s: Service, expected: u64, m: Mutation, now: nat, stored: bool)
    : (Service, Result<View, string>)
  {
    if CurrentState(s).None? then (s, Err("no current goal"))
    else if CurrentState(s).value.revision != expected then (s, Err("stale goal revision"))
    else match Mutate(CurrentState(s).value, m)
      case Err(e) => (s, Err(e))
      case Ok((mutated, keep)) =>
        if mutated.revision == U64_MAX then (s, Err("goal revision exhausted"))
        else
          var state := Stamp(mutated, now);
          var armed := keep && ViewArmed(s);
          if s.active.Some? then
            match Record(s, Change(OperationOf(m), state), stored)
            case Err(e) => (s, Err(e))
            case Ok(t) => (t.(armed := ArmedBit(s, armed)), Ok(View(state, armed)))
          else (s.(pending := Some(state), armed := ArmedBit(s, armed)), Ok(View(state, armed)))
  }

  /** `verdict` is what verification found before the lane, `verified` what it found inside. */
  function CompleteCandidate(s: Service, expected: u64, summary: string, verdict: Result<(), string>,
                             verified: bool, now: nat, stored: bool): (Service, Result<View, string>)
  {
    if CurrentState(s).None? then (s, Err("no current goal"))
    else if CurrentState(s).value.revision != expected then (s, Err("stale goal revision"))
    else if CurrentState(s).value.acceptance.User? then
      Transition(s, expected, BlockOn("awaiting-user-acceptance", summary), now, stored)
    else if verdict.Err? then
      (Transition(s, expected, CandidateFailed(verdict.error), now, stored).0, Err("goal acceptance failed"))
    else Transition(s, expected, Finish(summary, verified), now, stored)
  }

  function ClearGoal(s: Service, expected: u64, now: nat, stored: bool): (Service, Result<(), string>) {
    if CurrentState(s).None? then (s, Err("no current goal"))
    else
      var state := CurrentState(s).value;
      if state.revision != expected then (s, Err("stale goal revision"))
      else if state.revision == U64_MAX then (s, Err("goal revision exhausted"))
      else if s.active.Some? then
        match Record(s, Clear(state.id, state.revision + 1, now), stored)
        case Err(e) => (s, Err(e))
        case Ok(t) => (t.(armed := Disarmed), Ok(()))
      else (s.(pending := None, armed := Disarmed), Ok(()))
  }

  /** The checks `arm` makes before it touches the bit. */
  function ArmRead(s: Service, expected: u64): Result<View, string> {
    if CurrentState(s).None? then Err("no current goal")
    else
      var state := CurrentState(s).value;
      if state.revision != expected then Err("stale goal revision")
      else if state.phase != Active then Err("only an active goal can be armed")
      else Ok(View(state, true))
  }

  function ArmSet(s: Service): Service {
    s.(armed := ArmedBit(s, true))
  }

  /** The message that would start the next continuation round. */
  function NextRound(s: Service): Result<Event, string> {
    if CurrentState(s).None? then Err("no current goal")
    else
      var state := CurrentState(s).value;
      if !ViewArmed(s) then Err("goal continuation is disarmed")
      else if state.phase != Active then Err("goal is not eligible for another round")
      else if state.roundsStarted == U32_MAX then Err("goal round counter overflow")
      else Ok(Round(state.id, state.revision, state.roundsStarted + 1))
  }

  /** Counters and result a finished round leaves on the goal. */
  function RoundOutcome(state: GoalState, tokens: u64, elapsedMs: nat, failed: bool, result: string): (r: GoalState)
    ensures r.revision == state.revision && r.phase == state.phase
  {
    var text := Trim(result);
    state.(tokensUsed := SaturatingAdd(state.tokensUsed, tokens, U64_MAX),
           elapsedMs := SaturatingAdd(state.elapsedMs, elapsedMs, U64_MAX),
           failures := if failed then SaturatingAdd(state.failures, 1, U32_MAX) else state.failures,
           lastResult := if text == "" then state.lastResult else Some(TruncateUtf8(text, MAX_RESULT_BYTES)))
  }

  /** `Ok(true)` is GoalContinuation::Continue. */
  function FinishRound(s: Service, tokens: u64, elapsedMs: nat, succeeded: bool, cancelled: bool,
                       result: string, now: nat, stored: bool): (Service, Result<bool, string>)
  {
    if CurrentState(s).None? then (s.(armed := Disarmed), Ok(false))
    else
      var state := RoundOutcome(CurrentState(s).value, tokens, elapsedMs, !succeeded && !cancelled, result);
      var keep := ViewArmed(s) && succeeded && !cancelled && state.phase == Active;
      if state.revision == U64_MAX then (s, Err("goal revision exhausted"))
      else match Record(s, Change(OpProgress, Stamp(state, now)), stored)
        case Err(e) => (s, Err(e))
        case Ok(t) => (t.(armed := ArmedBit(s, keep)), Ok(keep))
  }

  // ---------- session life ----------

  /** Create the session of a first run, with the pending goal as its birth fact. */
  function Materialize(s: Service, stored: bool): Service {
    var birth := if s.pending.Some? then [Change(OpCreate, s.pending.value)] else [];
    var t := s.(active := Some(|s.journals|), journals := s.journals + [if stored then birth else []]);
    if stored then
      t.(pending := None, armed := if s.armed == PendingArmed then ArmedIn(|s.journals|) else Disarmed)
    else t
  }

  /** Append a goal round message to the attached session. */
  function AppendRound(s: Service, message: Event, stored: bool): Service {
    if message.Round? && s.active.Some? && s.active.value < |s.journals| && stored then
      Append(s, s.active.value, message)
    else s
  }

  // ---------- runs ----------

  datatype Command =
    | DoCreate(objective: string, acceptance: Acceptance, limits: Limits, arm: bool, id: GoalId, now: nat, stored: bool)
    | DoTransition(expected: u64, mutation: Mutation, now: nat, stored: bool)
    | DoCandidate(expected: u64, summary: string, verdict: Result<(), string>, verified: bool, now: nat, stored: bool)
    | DoClear(expected: u64, now: nat, stored: bool)
    | DoArm(expected: u64)
    | DoArmSet
    | DoFinishRound(tokens: u64, elapsedMs: nat, succeeded: bool, cancelled: bool, result: string, now: nat, stored: bool)
    | DoAppendRound(message: Event, stored: bool)
    | DoMaterialize(stored: bool)
    | DoAttach(session: nat)
    | DoDetach
    | DoBoundary
    | DoDisarm

  /**
    One atomic step. DoArm is `arm` with nothing in between; DoArmSet is its
    second half alone, so a run may place anything between check and set.
  */
  function Apply(s: Service, c: Command): Service {
    match c
    case DoCreate(o, a, l, arm, id, now, stored) => Create(s, o, a, l, arm, id, now, stored).0
    case DoTransition(e, m, now, stored) => Transition(s, e, m, now, stored).0
    case DoCandidate(e, t, v, ok, now, stored) => CompleteCandidate(s, e, t, v, ok, now, stored).0
    case DoClear(e, now, stored) => ClearGoal(s, e, now, stored).0
    case DoArm(e) => if ArmRead(s, e).Ok? then ArmSet(s) else s
    case DoArmSet => ArmSet(s)
    case DoFinishRound(t, ms, ok, cancelled, text, now, stored) => FinishRound(s, t, ms, ok, cancelled, text, now, stored).0
    case DoAppendRound(message, stored) => AppendRound(s, message, stored)
    case DoMaterialize(stored) => if s.active.None? then Materialize(s, stored) else s
    case DoAttach(session) => if session < |s.journals| then s.(active := Some(session)) else s
    case DoDetach => s.(active := None)
    case DoBoundary => s.(pending := None, armed := Disarmed)
    case DoDisarm => s.(armed := Disarmed)
  }

  function Run(commands: seq<Command>): Service {
    if commands == [] then INITIAL_SERVICE
    else Apply(Run(commands[..|commands| - 1]), commands[|commands| - 1])
  }

  /** The first mutation a pending goal takes makes it unfit to be born. */
  predicate FitPending(goal: GoalState) {
    && goal.roundsStarted == 0 && goal.revision >= 1
    && (goal.revision == 1 ==> ValidState(goal) && goal.phase == Active)
  }

  predicate Sound(s: Service) {
    && (s.active.Some? ==> s.active.value < |s.journals|)
    && (s.armed.ArmedIn? ==> s.armed.session < |s.journals|)
    && (s.pending.Some? ==> FitPending(s.pending.value))
  }

  predicate AllIntact(s: Service) {
    forall i | 0 <= i < |s.journals| :: Fold(s.journals[i]).intact
  }

  /**
    The guards a caller could check that let a refused fact into a journal: a
    reused id after completion, birth of a goal already mutated, and a round
    message that is not the next one of the current active goal.
  */
  predicate Breaks(s: Service, c: Command) {
    match c
    case DoCreate(o, a, l, arm, id, now, stored) =>
      && CreateAdmitted(s, o, a, id) && s.active.Some? && stored
      && CurrentState(s).Some? && CurrentState(s).value.id == id
    case DoMaterialize(stored) =>
      && s.active.None? && stored && s.pending.Some? && s.pending.value.revision != 1
    case DoAppendRound(message, stored) =>
      && message.Round? && s.active.Some? && stored
      && !(&& CurrentState(s).Some? && CurrentState(s).value.phase == Active
           && message.goalId == CurrentState(s).value.id
           && message.goalRevision == CurrentState(s).value.revision
           && message.round == CurrentState(s).value.roundsStarted + 1 <= U32_MAX)
    case _ => false
  }

  // ---------- the writer refines the acceptor ----------

  /** Appending to one journal keeps the others and advances its own fold. */
  lemma AppendAdvances(s: Service, session: nat, event: Event)
    requires session < |s.journals|
    ensures Fold(Append(s, session, event).journals[session]) == Advance(Fold(s.journals[session]), event)
    ensures !AllIntact(s) ==> !AllIntact(Append(s, session, event))
    ensures AllIntact(s) ==> (AllIntact(Append(s, session, event)) <==>
                              FoldGoalEvent(Fold(s.journals[session]).goal, event).Ok?)
  {
    var t := Append(s, session, event);
    FoldAppend(s.journals[session], event);
    if !AllIntact(s) {
      var i :| 0 <= i < |s.journals| && !Fold(s.journals[i]).intact;
      assert !Fold(t.journals[i]).intact;
    }
    assert Fold(t.journals[session]).intact ==> Fold(s.journals[session]).intact;
  }

  lemma MutateIsValidMove(state: GoalState, m: Mutation, now: nat)
    requires ValidState(state) && Mutate(state, m).Ok? && state.revision < U64_MAX
    ensures ValidTransition(Some(state), Stamp(Mutate(state, m).value.0, now), OperationOf(m))
  {
  }

  lemma RoundOutcomeIsValidMove(state: GoalState, tokens: u64, ms: nat, failed: bool, text: string, now: nat)
    requires state.revision < U64_MAX
    ensures ValidTransition(Some(state), Stamp(RoundOutcome(state, tokens, ms, failed, text), now), OpProgress)
  {
  }

  lemma TransitionStep(s: Service, expected: u64, m: Mutation, now: nat, stored: bool)
    requires Sound(s)
    ensures Sound(Transition(s, expected, m, now, stored).0)
    ensures AllIntact(s) <==> AllIntact(Transition(s, expected, m, now, stored).0)
  {
    hide Mutate, ValidState, ValidTransition;
    if CurrentState(s).Some? && s.active.Some? {
      var state := CurrentState(s).value;
      assert CurrentState(s) == Some(state);
      FoldedStateIsValid(s.journals[s.active.value]);
      if Mutate(state, m).Ok? && state.revision < U64_MAX {
        MutateIsValidMove(state, m, now);
        AppendAdvances(s, s.active.value, Change(OperationOf(m), Stamp(Mutate(state, m).value.0, now)));
      }
    }
  }

  lemma FinishRoundStep(s: Service, tokens: u64, ms: nat, ok: bool, cancelled: bool, text: string, now: nat, stored: bool)
    requires Sound(s)
    ensures Sound(FinishRound(s, tokens, ms, ok, cancelled, text, now, stored).0)
    ensures AllIntact(s) <==> AllIntact(FinishRound(s, tokens, ms, ok, cancelled, text, now, stored).0)
  {
    hide RoundOutcome, ValidTransition, ValidState;
    if CurrentState(s).Some? && s.active.Some? && CurrentState(s).value.revision < U64_MAX {
      var state := Stamp(RoundOutcome(CurrentState(s).value, tokens, ms, !ok && !cancelled, text), now);
      RoundOutcomeIsValidMove(CurrentState(s).value, tokens, ms, !ok && !cancelled, text, now);
      AppendAdvances(s, s.active.value, Change(OpProgress, state));
    }
  }

  lemma CreateStep(s: Service, c: Command)
    requires Sound(s) && c.DoCreate?
    ensures Sound(Apply(s, c))
    ensures !AllIntact(s) ==> !AllIntact(Apply(s, c))
    ensures AllIntact(s) ==> (AllIntact(Apply(s, c)) <==> !Breaks(s, c))
  {
    if CreateAdmitted(s, c.objective, c.acceptance, c.id) {
      var state := NewGoal(c.objective, c.acceptance, c.limits, c.id, c.now);
      assert ValidState(state);
      if s.active.Some? {
        AppendAdvances(s, s.active.value, Change(OpCreate, state));
      }
    }
  }

  lemma ClearStep(s: Service, expected: u64, now: nat, stored: bool)
    requires Sound(s)
    ensures Sound(ClearGoal(s, expected, now, stored).0)
    ensures AllIntact(s) <==> AllIntact(ClearGoal(s, expected, now, stored).0)
  {
    if CurrentState(s).Some? && s.active.Some? && CurrentState(s).value.revision < U64_MAX {
      var state := CurrentState(s).value;
      AppendAdvances(s, s.active.value, Clear(state.id, state.revision + 1, now));
    }
  }

  lemma MaterializeStep(s: Service, stored: bool)
    requires Sound(s) && s.active.None?
    ensures Sound(Materialize(s, stored))
    ensures !AllIntact(s) ==> !AllIntact(Materialize(s, stored))
    ensures AllIntact(s) ==> (AllIntact(Materialize(s, stored)) <==> !Breaks(s, DoMaterialize(stored)))
  {
    var t := Materialize(s, stored);
    var born := t.journals[|s.journals|];
    assert forall i | 0 <= i < |s.journals| :: t.journals[i] == s.journals[i];
    if born != [] {
      assert born == [] + [Change(OpCreate, s.pending.value)];
      FoldAppend([], Change(OpCreate, s.pending.value));
    }
    assert Fold(born).intact <==> !Breaks(s, DoMaterialize(stored));
    assert AllIntact(t) <==> AllIntact(s) && Fold(born).intact;
  }

  /** The acceptor takes a round message exactly outside the guard of Breaks. */
  lemma RoundFoldsIff(s: Service, message: Event)
    requires Sound(s) && AllIntact(s) && message.Round? && s.active.Some?
    ensures FoldGoalEvent(Fold(s.journals[s.active.value]).goal, message).Ok? <==>
            !Breaks(s, DoAppendRound(message, true))
  {
    hide Fold, AllIntact, ValidState, ValidTransition, ValidPayload;
  }

  lemma AppendRoundStep(s: Service, message: Event, stored: bool)
    requires Sound(s)
    ensures Sound(AppendRound(s, message, stored))
    ensures !AllIntact(s) ==> !AllIntact(AppendRound(s, message, stored))
    ensures AllIntact(s) ==> (AllIntact(AppendRound(s, message, stored)) <==>
                              !Breaks(s, DoAppendRound(message, stored)))
  {
    hide Fold, FoldGoalEvent, ValidState, AllIntact, CurrentState;
    if s.active.Some? && message.Round? && stored {
      AppendAdvances(s, s.active.value, message);
      if AllIntact(s) {
        RoundFoldsIff(s, message);
      }
    }
  }

  /** One step: a broken journal stays broken, and breaks exactly at a guard. */
  lemma StepReplays(s: Service, c: Command)
    requires Sound(s)
    ensures Sound(Apply(s, c))
    ensures !AllIntact(s) ==> !AllIntact(Apply(s, c))
    ensures AllIntact(s) ==> (AllIntact(Apply(s, c)) <==> !Breaks(s, c))
  {
    hide Create, Transition, FinishRound, Materialize, AppendRound, Fold;
    match c
    case DoCreate(_, _, _, _, _, _, _) => CreateStep(s, c);
    case DoTransition(e, m, now, stored) => TransitionStep(s, e, m, now, stored);
    case DoCandidate(e, text, verdict, ok, now, stored) =>
      TransitionStep(s, e, BlockOn("awaiting-user-acceptance", text), now, stored);
      TransitionStep(s, e, Finish(text, ok), now, stored);
      if verdict.Err? {
        TransitionStep(s, e, CandidateFailed(verdict.error), now, stored);
      }
    case DoClear(e, now, stored) => ClearStep(s, e, now, stored);
    case DoFinishRound(t, ms, ok, cancelled, text, now, stored) =>
      FinishRoundStep(s, t, ms, ok, cancelled, text, now, stored);
    case DoAppendRound(message, stored) => AppendRoundStep(s, message, stored);
    case DoMaterialize(stored) =>
      if s.active.None? {
        MaterializeStep(s, stored);
      }
    case _ =>
  }

  /**
    Refinement over whole runs. Whatever is called in whatever order, with any
    texts, clocks and write failures, every journal the service wrote replays
    from its first fact to its last exactly when no step met a guard of Breaks.
  */
  lemma {:induction false} RunReplays(commands: seq<Command>)
    ensures Sound(Run(commands))
    ensures AllIntact(Run(commands)) <==>
            forall k | 0 <= k < |commands| :: !Breaks(Run(commands[..k]), commands[k])
  {
    hide Apply, Breaks;
    if commands != [] {
      var n := |commands| - 1;
      var before := commands[..n];
      RunReplays(before);
      StepReplays(Run(before), commands[n]);
      assert forall k | 0 <= k < n :: before[..k] == commands[..k];
      assert AllIntact(Run(before)) <==> forall k | 0 <= k < n :: !Breaks(Run(commands[..k]), commands[k]);
    }
  }

  /** What a successful mutation returns is what the acceptor now holds. */
  lemma TransitionReportsTheFold(s: Service, expected: u64, m: Mutation, now: nat, stored: bool)
    requires Sound(s) && AllIntact(s)
    ensures
      var (t, r) := Transition(s, expected, m, now, stored);
      if r.Ok? then Current(t) == Some(r.value) && r.value.state.revision == expected + 1 else t == s
  {
    hide Mutate, ValidState, ValidTransition;
    if CurrentState(s).Some? && s.active.Some? {
      var state := CurrentState(s).value;
      assert CurrentState(s) == Some(state);
      FoldedStateIsValid(s.journals[s.active.value]);
      if Mutate(state, m).Ok? && state.revision < U64_MAX {
        MutateIsValidMove(state, m, now);
        AppendAdvances(s, s.active.value, Change(OperationOf(m), Stamp(Mutate(state, m).value.0, now)));
      }
    }
  }

  /** The view a create returns is what the acceptor holds, unless the create breaks the journal. */
  lemma CreateReportsTheFoldIff(s: Service, c: Command)
    requires Sound(s) && AllIntact(s) && c.DoCreate?
    ensures
      var (t, r) := Create(s, c.objective, c.acceptance, c.limits, c.arm, c.id, c.now, c.stored);
      if r.Ok? then Current(t) == Some(r.value) <==> !Breaks(s, c) else t == s
  {
    if CreateAdmitted(s, c.objective, c.acceptance, c.id) {
      var state := NewGoal(c.objective, c.acceptance, c.limits, c.id, c.now);
      assert ValidState(state);
      if s.active.Some? {
        FoldedStateIsValid(s.journals[s.active.value]);
        AppendAdvances(s, s.active.value, Change(OpCreate, state));
      }
    }
  }

  /** After a clear the acceptor holds no goal; a refused clear changes nothing. */
  lemma ClearReportsTheFold(s: Service, expected: u64, now: nat, stored: bool)
    requires Sound(s) && AllIntact(s)
    ensures
      var (t, r) := ClearGoal(s, expected, now, stored);
      if r.Ok? then CurrentState(t) == None && t.armed == Disarmed else t == s
  {
    hide ValidState;
    if CurrentState(s).Some? && s.active.Some? && CurrentState(s).value.revision < U64_MAX {
      var state := CurrentState(s).value;
      AppendAdvances(s, s.active.value, Clear(state.id, state.revision + 1, now));
    }
  }

  /**
    A candidate that is accepted reports the fold. One that is refused changes
    nothing, except that a failed verification may be recorded as a failure.
  */
  lemma CandidateReportsTheFold(s: Service, expected: u64, summary: string, verdict: Result<(), string>,
                                verified: bool, now: nat, stored: bool)
    requires Sound(s) && AllIntact(s)
    ensures
      var (t, r) := CompleteCandidate(s, expected, summary, verdict, verified, now, stored);
      && (r.Ok? ==> Current(t) == Some(r.value) && r.value.state.revision == expected + 1)
      && (r.Err? ==> t == s || (verdict.Err? && RecordsFailure(s, t)))
  {
    hide Transition, AllIntact, Sound;
    TransitionReportsTheFold(s, expected, BlockOn("awaiting-user-acceptance", summary), now, stored);
    TransitionReportsTheFold(s, expected, Finish(summary, verified), now, stored);
    if verdict.Err? {
      TransitionReportsTheFold(s, expected, CandidateFailed(verdict.error), now, stored);
      FailureIsCounted(s, expected, verdict.error, now, stored);
    }
  }

  /** One failure more, one revision on, nothing else but the result. */
  predicate RecordsFailure(s: Service, t: Service) {
    && CurrentState(s).Some? && CurrentState(t).Some?
    && var a, b := CurrentState(s).value, CurrentState(t).value;
       && b.id == a.id && b.phase == a.phase == Active && b.revision == a.revision + 1
       && b.failures == (if a.failures == U32_MAX then a.failures else a.failures + 1)
       && b.tokensUsed == a.tokensUsed && b.roundsStarted == a.roundsStarted && ViewArmed(t) == ViewArmed(s)
  }

  lemma FailureIsCounted(s: Service, expected: u64, reason: string, now: nat, stored: bool)
    requires Sound(s) && AllIntact(s)
    ensures
      var (t, r) := Transition(s, expected, CandidateFailed(reason), now, stored);
      r.Ok? ==> RecordsFailure(s, t)
  {
    hide AllIntact, Fold;
    TransitionReportsTheFold(s, expected, CandidateFailed(reason), now, stored);
  }

  /**
    A finished round is refused exactly without a session, at the last revision,
    on a failed write, or when its result is cut right after white space. Its
    counters are then lost and the bit stays as it was.
  */
  lemma FinishRoundRefusedIff(s: Service, tokens: u64, ms: nat, ok: bool, cancelled: bool, text: string, now: nat, stored: bool)
    requires Sound(s) && CurrentState(s).Some?
    ensures
      var (t, r) := FinishRound(s, tokens, ms, ok, cancelled, text, now, stored);
      && (r.Err? <==> s.active.None? || CurrentState(s).value.revision == U64_MAX || !stored
                      || (Trim(text) != "" && !CutIsClean(text)))
      && (r.Err? ==> t == s)
  {
    hide ValidState, CutIsClean, Trim, Fold;
    if s.active.Some? && CurrentState(s).value.revision < U64_MAX {
      FoldedStateIsValid(s.journals[s.active.value]);
      OutcomeIsValidIff(CurrentState(s).value, tokens, ms, !ok && !cancelled, text, now);
    }
  }

  lemma OutcomeIsValidIff(state: GoalState, tokens: u64, ms: nat, failed: bool, text: string, now: nat)
    requires ValidState(state) && state.revision < U64_MAX
    ensures ValidState(Stamp(RoundOutcome(state, tokens, ms, failed, text), now)) <==>
            Trim(text) == "" || CutIsClean(text)
  {
    if Trim(text) != "" {
      NormalizedIsCanonicalIff(text);
    }
    hide CutIsClean, Trim, TruncateUtf8;
  }

  /**
    What a finished round leaves in the fold: the exact counters, capped at their
    types, one revision on, the phase as it was; and it continues only when it
    was armed, active and successful.
  */
  lemma FinishRoundAccounts(s: Service, tokens: u64, ms: nat, ok: bool, cancelled: bool, text: string, now: nat, stored: bool)
    requires Sound(s) && AllIntact(s) && CurrentState(s).Some?
    ensures
      var (t, r) := FinishRound(s, tokens, ms, ok, cancelled, text, now, stored);
      if r.Err? then t == s
      else
        && CurrentState(t).Some?
        && var a, b := CurrentState(s).value, CurrentState(t).value;
           && b.id == a.id && b.phase == a.phase && b.revision == a.revision + 1 && b.roundsStarted == a.roundsStarted
           && b.tokensUsed == (if a.tokensUsed + tokens <= U64_MAX then a.tokensUsed + tokens else U64_MAX)
           && b.elapsedMs == (if a.elapsedMs + ms <= U64_MAX then a.elapsedMs + ms else U64_MAX)
           && b.failures == (if ok || cancelled || a.failures == U32_MAX then a.failures else a.failures + 1)
           && r.value == ViewArmed(t)
           && (r.value <==> ViewArmed(s) && a.phase == Active && ok && !cancelled)
  {
    hide ValidState, ValidTransition, Trim;
    if CurrentState(s).value.revision < U64_MAX && s.active.Some? {
      var state := Stamp(RoundOutcome(CurrentState(s).value, tokens, ms, !ok && !cancelled, text), now);
      FoldedStateIsValid(s.journals[s.active.value]);
      RoundOutcomeIsValidMove(CurrentState(s).value, tokens, ms, !ok && !cancelled, text, now);
      AppendAdvances(s, s.active.value, Change(OpProgress, state));
    }
  }

  /**
    In a session, a progress report is recorded exactly when it is current and
    its truncated text is still trimmed; otherwise nothing at all changes.
  */
  lemma ProgressRecordedIff(s: Service, expected: u64, summary: string, now: nat)
    requires Sound(s) && AllIntact(s) && s.active.Some?
    ensures
      var (t, r) := Transition(s, expected, ReportProgress(summary), now, true);
      && (r.Ok? <==>
            && CurrentState(s).Some? && CurrentState(s).value.revision == expected < U64_MAX
            && CurrentState(s).value.phase == Active
            && NormalizeResult(summary).Ok? && CutIsClean(summary))
      && (r.Err? ==> t == s)
  {
    hide ValidState, NormalizeResult, CutIsClean, Fold;
    FoldedStateIsValid(s.journals[s.active.value]);
    if NormalizeResult(summary).Ok? && CurrentState(s).Some? {
      NormalizedIsCanonicalIff(summary);
      RecordedResultIsValid(CurrentState(s).value, NormalizeResult(summary).value, now);
    }
  }

  lemma RecordedResultIsValid(state: GoalState, text: string, now: nat)
    requires ValidState(state)
    ensures state.revision < U64_MAX ==>
              (ValidState(Stamp(state.(lastResult := Some(text)), now)) <==> Canonical(text))
  {
  }

  /** Nothing happened in between: the message `next_round` built is admitted. */
  lemma FreshRoundIsAdmitted(s: Service)
    requires Sound(s) && AllIntact(s) && s.active.Some? && NextRound(s).Ok?
    ensures
      var t := AppendRound(s, NextRound(s).value, true);
      && !Breaks(s, DoAppendRound(NextRound(s).value, true)) && AllIntact(t) && ViewArmed(t)
      && CurrentState(t) == Some(CurrentState(s).value.(roundsStarted := CurrentState(s).value.roundsStarted + 1))
  {
    var session, message := s.active.value, NextRound(s).value;
    var state := CurrentState(s).value;
    assert CurrentState(s) == Some(state) && Fold(s.journals[session]).intact;
    assert FoldGoalEvent(Some(state), message) == Ok(Some(state.(roundsStarted := state.roundsStarted + 1)));
    hide AllIntact, FoldGoalEvent;
    AppendAdvances(s, session, message);
  }
}
