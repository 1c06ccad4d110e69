/**
  Runs of the goal service that meet each of the guards named in Goal.Breaks and
  GoalAuthority.Overarms.
*/
module GoalWitnesses {
  import opened Wrappers
  import opened Text
  import opened GoalFacts
  import opened Goal
  import opened GoalAuthority

  // ---------- journals that stop replaying ----------

  lemma RunAppend(commands: seq<Command>, c: Command)
    ensures Run(commands + [c]) == Apply(Run(commands), c)
  {
    assert (commands + [c])[..|commands|] == commands;
  }

  function CreateCommand(objective: string, id: GoalId, limits: Limits, arm: bool): Command {
    DoCreate(objective, User, limits, arm, id, 0, true)
  }

  /** Three calls: create, pause, first session. The journal does not replay from its birth on. */
  lemma PausedBirthBreaks(objective: string, id: GoalId, limits: Limits)
    requires ValidObjective(objective) && id.wellFormed
    ensures
      var commands := [CreateCommand(objective, id, limits, false), DoTransition(1, Pause, 0, true), DoMaterialize(true)];
      !AllIntact(Run(commands)) && Breaks(Run(commands[..2]), commands[2])
  {
    var create, pause, birth := CreateCommand(objective, id, limits, false), DoTransition(1, Pause, 0, true), DoMaterialize(true);
    RunAppend([], create);
    RunAppend([create], pause);
    RunAppend([create, pause], birth);
    assert [] + [create] == [create] && [create] + [pause] == [create, pause];
    assert [create, pause] + [birth] == [create, pause, birth] && [create, pause, birth][..2] == [create, pause];
    StepReplays(INITIAL_SERVICE, create);
    StepReplays(Run([create]), pause);
    StepReplays(Run([create, pause]), birth);
  }

  /** A session with one goal in it, and the state of that goal. */
  lemma SessionWithGoal(objective: string, id: GoalId, limits: Limits, arm: bool)
    requires ValidObjective(objective) && id.wellFormed
    ensures
      var s := Run([DoMaterialize(true), CreateCommand(objective, id, limits, arm)]);
      && AllIntact(s) && Sound(s) && s.active == Some(0) && |s.journals| == 1 && ViewArmed(s) == arm
      && CurrentState(s) == Some(NewGoal(objective, User, limits, id, 0))
  {
    var birth, create := DoMaterialize(true), CreateCommand(objective, id, limits, arm);
    RunAppend([], birth);
    RunAppend([birth], create);
    assert [] + [birth] == [birth] && [birth] + [create] == [birth, create];
    StepReplays(INITIAL_SERVICE, birth);
    var s := Run([birth]);
    assert s.active == Some(0) && s.journals == [[]] && CurrentState(s) == None;
    StepReplays(s, create);
    var state := NewGoal(objective, User, limits, id, 0);
    assert ValidState(state);
    AppendAdvances(s, 0, Change(OpCreate, state));
  }

  /** The id of a completed goal given again: the second create is written and refused. */
  lemma ReusedIdBreaks(objective: string, id: GoalId, limits: Limits, arm: bool)
    requires ValidObjective(objective) && id.wellFormed
    ensures
      var create := CreateCommand(objective, id, limits, arm);
      var commands := [DoMaterialize(true), create, DoTransition(1, Finish("done", true), 0, true), create];
      && !AllIntact(Run(commands)) && AllIntact(Run(commands[..3])) && Breaks(Run(commands[..3]), create)
      && CurrentState(Run(commands)).Some? && CurrentState(Run(commands)).value.phase == Complete
      && (arm ==> ViewArmed(Run(commands)))
  {
    var birth, create := DoMaterialize(true), CreateCommand(objective, id, limits, arm);
    var finish := DoTransition(1, Finish("done", true), 0, true);
    var two, three := [birth, create], [birth, create, finish];
    RunAppend(two, finish);
    RunAppend(three, create);
    assert two + [finish] == three && three + [create] == [birth, create, finish, create];
    assert [birth, create, finish, create][..3] == three;
    SessionWithGoal(objective, id, limits, arm);
    FinishCompletes(Run(two));
    StepReplays(Run(two), finish);
    var s := Run(three);
    StepReplays(s, create);
    var state := NewGoal(objective, User, limits, id, 0);
    assert ValidState(state);
    AppendAdvances(s, 0, Change(OpCreate, state));
  }

  lemma FinishCompletes(s: Service)
    requires Sound(s) && AllIntact(s) && s.active.Some?
    requires CurrentState(s).Some? && CurrentState(s).value.revision == 1 && CurrentState(s).value.phase == Active
    ensures
      var t := Transition(s, 1, Finish("done", true), 0, true).0;
      && CurrentState(t).Some? && CurrentState(t).value.phase == Complete && CurrentState(t).value.id == CurrentState(s).value.id
      && t.active == s.active && |t.journals| == |s.journals|
  {
    var state := CurrentState(s).value;
    FoldedStateIsValid(s.journals[s.active.value]);
    TransitionReportsTheFold(s, 1, Finish("done", true), 0, true);
    DoneIsCanonical();
    var next := Stamp(Mutate(state, Finish("done", true)).value.0, 0);
    assert ValidPayload(Change(OpComplete, next));
  }

  lemma DoneIsCanonical()
    ensures NormalizeResult("done") == Ok("done") && Canonical("done")
  {
    AsciiBytes("done", 4);
    CanonicalIff("done");
  }

  /** A round message about an older revision, stored after the goal moved on. */
  lemma StaleRoundBreaks(objective: string, id: GoalId, limits: Limits)
    requires ValidObjective(objective) && id.wellFormed
    ensures
      var commands := [DoMaterialize(true), CreateCommand(objective, id, limits, true), DoTransition(1, Pause, 0, true)];
      var message := NextRound(Run(commands[..2]));
      && message.Ok?
      && AllIntact(Run(commands)) && Breaks(Run(commands), DoAppendRound(message.value, true))
      && !AllIntact(Apply(Run(commands), DoAppendRound(message.value, true)))
  {
    var two := [DoMaterialize(true), CreateCommand(objective, id, limits, true)];
    var pause := DoTransition(1, Pause, 0, true);
    SessionWithGoal(objective, id, limits, true);
    assert NextRound(Run(two)) == Ok(Round(id, 1, 1));
    hide NextRound, Fold, Create, Materialize;
    RunAppend(two, pause);
    assert two + [pause] == [two[0], two[1], pause] && [two[0], two[1], pause][..2] == two;
    PauseMovesOn(Run(two));
    StepReplays(Run(two + [pause]), DoAppendRound(Round(id, 1, 1), true));
  }

  lemma PauseMovesOn(s: Service)
    requires Sound(s) && AllIntact(s) && s.active.Some?
    requires CurrentState(s).Some? && CurrentState(s).value.revision == 1 && CurrentState(s).value.phase == Active
    ensures
      var t := Apply(s, DoTransition(1, Pause, 0, true));
      && AllIntact(t) && Sound(t) && t.active == s.active && CurrentState(t).Some? && CurrentState(t).value.phase == Paused
  {
    FoldedStateIsValid(s.journals[s.active.value]);
    StepReplays(s, DoTransition(1, Pause, 0, true));
    TransitionReportsTheFold(s, 1, Pause, 0, true);
    assert ValidPayload(Change(OpPause, Stamp(Mutate(CurrentState(s).value, Pause).value.0, 0)));
  }

  // ---------- the bit on a goal that is not active ----------

  /** Splitting `arm` loses that: a pause fits between its check and its set. */
  lemma SplitArmCanArmPausedGoal(objective: string, id: GoalId, limits: Limits) returns (commands: seq<Command>)
    requires ValidObjective(objective) && id.wellFormed
    ensures |commands| == 3 && commands[2] == DoArmSet && ArmRead(Run(commands[..1]), 1).Ok?
    ensures ViewArmed(Run(commands)) && Current(Run(commands)).Some?
    ensures Current(Run(commands)).value.state.phase == Paused
    ensures NextRound(Run(commands)).Err?
  {
    var create := DoCreate(objective, User, limits, false, id, 0, true);
    var pause := DoTransition(1, Pause, 0, true);
    commands := [create, pause, DoArmSet];
    assert commands[..2] == [create, pause] && commands[..1] == [create];
    assert [create, pause][..1] == [create];
    assert [create][..0] == [];
    assert Run([create]) == Apply(INITIAL_SERVICE, create);
    assert Run([create, pause]) == Apply(Run([create]), pause);
    assert Run(commands) == Apply(Run([create, pause]), DoArmSet);
  }

  /** So does a create in one step: its id is reused, the fold refuses it, the bit is set. */
  lemma ReusedIdArmsCompleteGoal(objective: string, id: GoalId, limits: Limits)
    requires ValidObjective(objective) && id.wellFormed
    ensures
      var create := CreateCommand(objective, id, limits, true);
      var commands := [DoMaterialize(true), create, DoTransition(1, Finish("done", true), 0, true), create];
      !ArmedMeansActive(Run(commands)) && Overarms(Run(commands[..3]), create)
  {
    ReusedIdBreaks(objective, id, limits, true);
    var create := CreateCommand(objective, id, limits, true);
    var commands := [DoMaterialize(true), create, DoTransition(1, Finish("done", true), 0, true), create];
    assert commands[..3] + [create] == commands;
    RunAppend(commands[..3], create);
    hide Run, Breaks;
  }
}
