/**
  Goal facts and their acceptor: the durable vocabulary of src/goal.rs, the
  validators, and the strict fold that replays a session journal.
*/
module GoalFacts {
  import opened Wrappers
  import opened Text

  const MAX_OBJECTIVE_BYTES := 16 * 1024
  const MAX_RESULT_BYTES := 16 * 1024

  datatype Phase = Active | Paused | Blocked | Complete

  datatype Acceptance =
    | User
    | FileExists(path: string)
    | FileContains(path: string, text: string)

  datatype Limits = Limits(maxRounds: u32, maxTokens: u64, maxTimeSecs: u64, maxFailures: u32)

  datatype BlockReason = BlockReason(code: string, message: string)

  /** An id with the verdict `valid_goal_id` reaches about its text. */
  datatype GoalId = GoalId(text: string, wellFormed: bool)

  datatype GoalState = GoalState(
    id: GoalId,
    objective: string,
    acceptance: Acceptance,
    phase: Phase,
    revision: u64,
    roundsStarted: u32,
    failures: u32,
    tokensUsed: u64,
    elapsedMs: u64,
    limits: Limits,
    createdAt: int,
    updatedAt: int,
    blockedReason: Option<BlockReason>,
    lastResult: Option<string>)

  datatype Operation = OpCreate | OpPause | OpResume | OpComplete | OpBlock | OpProgress

  /** One journal record, as far as the goal fold looks at it. */
  datatype Event =
    | Change(operation: Operation, goal: GoalState)
    | Clear(id: GoalId, revision: u64, clearedAt: int)
    | Round(goalId: GoalId, goalRevision: u64, round: nat)
    | Other

  // ---------- texts ----------

  function NormalizeResult(value: string): Result<string, string> {
    var trimmed := Trim(value);
    if trimmed == "" then Err("goal result must be non-empty")
    else Ok(TruncateUtf8(trimmed, MAX_RESULT_BYTES))
  }

  /** What `validate_state` demands of every recorded text; see CanonicalIff. */
  predicate Canonical(value: string) {
    Bare(value) && ByteLen(value) <= MAX_RESULT_BYTES
  }

  /** The cut made by truncation did not land right after white space. */
  predicate CutIsClean(value: string) {
    var t := Trim(value);
    var k := Fitting(t, MAX_RESULT_BYTES);
    k == |t| || !IsWhitespace(t[k - 1])
  }

  /** The recorded texts are exactly the fixed points of normalisation. */
  lemma CanonicalIff(value: string)
    ensures Canonical(value) <==> NormalizeResult(value) == Ok(value)
  {
    TrimFixed(value);
    TrimIsShorter(value);
    TruncateKeepsWhatFits(value, MAX_RESULT_BYTES);
  }

  /**
    Normalising does not always produce a text the acceptor calls canonical:
    it does exactly when nothing was cut or the cut left no trailing blank.
  */
  lemma NormalizedIsCanonicalIff(value: string)
    requires NormalizeResult(value).Ok?
    ensures Canonical(NormalizeResult(value).value) <==> CutIsClean(value)
  {
    var t := Trim(value);
    var k := Fitting(t, MAX_RESULT_BYTES);
    assert k > 0 by {
      assert BytesUpTo(t, 1) <= 4;
    }
    BytesOfPrefix(t, t[..k], k);
    assert t[..k][0] == t[0] && t[..k][k - 1] == t[k - 1];
  }

  /** The failing family is inhabited: a blank in the last byte that fits. */
  lemma NormalizeCanLeaveTrailingBlank() returns (value: string)
    ensures NormalizeResult(value).Ok? && !Canonical(NormalizeResult(value).value)
  {
    value := seq(MAX_RESULT_BYTES + 1, i => if i == MAX_RESULT_BYTES - 1 then ' ' else 'a');
    TrimFixed(value);
    AsciiBytes(value, MAX_RESULT_BYTES);
    AsciiBytes(value, MAX_RESULT_BYTES + 1);
    var k := Fitting(value, MAX_RESULT_BYTES);
    if k < MAX_RESULT_BYTES {
      AsciiBytes(value, k + 1);
    }
    NormalizedIsCanonicalIff(value);
  }

  // ---------- validators ----------

  predicate ValidObjective(value: string) {
    && Bare(value)
    && ByteLen(value) <= MAX_OBJECTIVE_BYTES
    && forall i | 0 <= i < |value| :: IsControl(value[i]) ==> value[i] in "\n\t"
  }

  /** Every `Path::components` item is `Normal`, on Unix. */
  predicate ValidRelativePath(value: string) {
    var parts := Split(value, '/');
    && value != "" && ByteLen(value) <= 4096 && value[0] != '/'
    && parts[0] != "." && ".." !in parts
  }

  predicate ValidAcceptance(value: Acceptance) {
    match value
    case User => true
    case FileExists(path) => ValidRelativePath(path)
    case FileContains(path, text) =>
      && ValidRelativePath(path)
      && text != "" && ByteLen(text) <= 4096
      && forall i | 0 <= i < |text| :: IsControl(text[i]) ==> text[i] == '\t'
  }

  predicate ValidBlockCode(value: string) {
    && value != "" && |value| <= 64
    && (forall i | 0 <= i < |value| ::
          'a' <= value[i] <= 'z' || '0' <= value[i] <= '9' || (value[i] == '-' && i > 0))
    && value[|value| - 1] != '-'
    && (forall i, j | 0 <= i < j == i + 1 < |value| :: !(value[i] == '-' && value[j] == '-'))
  }

  predicate ValidState(state: GoalState) {
    && state.id.wellFormed && state.revision != 0
    && ValidObjective(state.objective)
    && ValidAcceptance(state.acceptance)
    && (state.phase == Blocked <==> state.blockedReason.Some?)
    && 0 <= state.createdAt <= state.updatedAt
    && (state.blockedReason.Some? ==>
          ValidBlockCode(state.blockedReason.value.code) && Canonical(state.blockedReason.value.message))
    && (state.lastResult.Some? ==> Canonical(state.lastResult.value))
  }

  /** `validate_change_payload`: run before a goal fact is appended. */
  predicate ValidPayload(event: Event) {
    match event
    case Change(_, goal) => ValidState(goal)
    case Clear(id, revision, clearedAt) => id.wellFormed && revision != 0 && clearedAt >= 0
    case _ => true
  }

  predicate ValidPhaseMove(operation: Operation, previous: Phase, next: Phase) {
    match operation
    case OpPause => previous == Active && next == Paused
    case OpResume => previous != Complete && next == Active
    case OpComplete => previous != Complete && next == Complete
    case OpBlock => previous == Active && next == Blocked
    case OpProgress => next == previous || (previous == Active && (next == Paused || next == Blocked))
    case OpCreate => false
  }

  predicate ValidTransition(previous: Option<GoalState>, next: GoalState, operation: Operation) {
    if operation == OpCreate then
      && next.revision == 1 && next.phase == Active && next.roundsStarted == 0
      && (previous.Some? ==> previous.value.phase == Complete && previous.value.id != next.id)
    else
      && previous.Some?
      && var p := previous.value;
      && p.revision < U64_MAX
      && next.id == p.id && next.revision == p.revision + 1
      && next.objective == p.objective && next.acceptance == p.acceptance && next.limits == p.limits
      && next.createdAt == p.createdAt && next.updatedAt >= p.updatedAt
      && next.roundsStarted == p.roundsStarted
      && next.tokensUsed >= p.tokensUsed && next.elapsedMs >= p.elapsedMs && next.failures >= p.failures
      && (operation != OpProgress ==>
            next.tokensUsed == p.tokensUsed && next.elapsedMs == p.elapsedMs && next.failures == p.failures)
      && ValidPhaseMove(operation, p.phase, next.phase)
  }

  // ---------- the acceptor ----------

  function FoldGoalEvent(current: Option<GoalState>, event: Event): Result<Option<GoalState>, string> {
    match event
    case Change(operation, goal) =>
      if !ValidPayload(event) then Err("malformed goal change")
      else if !ValidTransition(current, goal, operation) then Err("invalid goal transition")
      else Ok(Some(goal))
    case Clear(id, revision, _) =>
      if !ValidPayload(event) then Err("goal clear tombstone is malformed")
      else if current.None? then Err("goal clear requires a current goal")
      else if current.value.revision == U64_MAX then Err("goal revision exhausted")
      else if id != current.value.id || revision != current.value.revision + 1 then
        Err("goal clear must advance the current ref by one revision")
      else Ok(None)
    case Round(id, revision, round) =>
      if current.None? then Err("goal round requires a current goal")
      else
        var state := current.value;
        if state.phase != Active || id != state.id || revision != state.revision
           || round != state.roundsStarted + 1 || round > U32_MAX then
          Err("goal round is not the next admitted round of the current goal")
        else Ok(Some(state.(roundsStarted := round)))
    case Other => Ok(current)
  }

  /**
    A projection is the goal after the longest accepted prefix, and whether
    that prefix is the whole journal; a refused fact stops it for good.
  */
  datatype Projection = Projection(goal: Option<GoalState>, intact: bool)

  function Advance(p: Projection, event: Event): Projection {
    if !p.intact then p
    else match FoldGoalEvent(p.goal, event)
      case Ok(goal) => Projection(goal, true)
      case Err(_) => Projection(p.goal, false)
  }

  function Fold(journal: seq<Event>): Projection {
    if journal == [] then Projection(None, true)
    else Advance(Fold(journal[..|journal| - 1]), journal[|journal| - 1])
  }

  lemma FoldAppend(journal: seq<Event>, event: Event)
    ensures Fold(journal + [event]) == Advance(Fold(journal), event)
  {
    assert (journal + [event])[..|journal|] == journal;
  }

  /** Whatever the fold holds passes the validator. */
  lemma {:induction false} FoldedStateIsValid(journal: seq<Event>)
    ensures Fold(journal).goal.Some? ==> ValidState(Fold(journal).goal.value)
  {
    hide ValidTransition;
    if journal != [] {
      FoldedStateIsValid(journal[..|journal| - 1]);
    }
  }

  // ---------- what an accepted journal says about one goal ----------

  predicate Replaces(event: Event) {
    event.Clear? || (event.Change? && event.operation == OpCreate)
  }

  function Changes(events: seq<Event>): nat {
    if events == [] then 0
    else Changes(events[..|events| - 1]) + if events[|events| - 1].Change? then 1 else 0
  }

  function Rounds(events: seq<Event>): nat {
    if events == [] then 0
    else Rounds(events[..|events| - 1]) + if events[|events| - 1].Round? then 1 else 0
  }

  /**
    `b` is the same goal as `a` a number of changes and rounds later: identity
    and terms are fixed, the revision and the round count rose by exactly
    those numbers, no counter fell, and complete stayed complete.
  */
  predicate Later(a: GoalState, b: GoalState, changes: nat, rounds: nat) {
    && a.id == b.id && a.objective == b.objective && a.acceptance == b.acceptance
    && a.limits == b.limits && a.createdAt == b.createdAt
    && b.revision == a.revision + changes
    && b.roundsStarted == a.roundsStarted + rounds
    && a.tokensUsed <= b.tokensUsed && a.elapsedMs <= b.elapsedMs
    && a.failures <= b.failures && a.updatedAt <= b.updatedAt
    && (a.phase == Complete ==> b.phase == Complete)
  }

  lemma OneFactLater(current: GoalState, event: Event)
    requires FoldGoalEvent(Some(current), event).Ok? && !Replaces(event)
    ensures FoldGoalEvent(Some(current), event).value.Some?
    ensures Later(current, FoldGoalEvent(Some(current), event).value.value,
                  if event.Change? then 1 else 0, if event.Round? then 1 else 0)
  {
  }

  /** The life of one goal in any accepted journal, until a fact replaces it. */
  lemma {:induction false} GoalLife(prefix: seq<Event>, later: seq<Event>)
    requires Fold(prefix + later).intact && Fold(prefix).goal.Some?
    requires forall i | 0 <= i < |later| :: !Replaces(later[i])
    ensures Fold(prefix).intact && Fold(prefix + later).goal.Some?
    ensures Later(Fold(prefix).goal.value, Fold(prefix + later).goal.value, Changes(later), Rounds(later))
    decreases |later|
  {
    if later == [] {
      assert prefix + later == prefix;
    } else {
      var rest, event := later[..|later| - 1], later[|later| - 1];
      assert prefix + later == (prefix + rest) + [event];
      FoldAppend(prefix + rest, event);
      GoalLife(prefix, rest);
      OneFactLater(Fold(prefix + rest).goal.value, event);
    }
  }
}
