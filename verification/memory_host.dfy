/**
  Several projects on one storage root: every mounted project opens its own
  memory service on the one file, keeps its own map, and writes that whole map
  at each commit without reading the file again.
*/
module MemoryHost {
  import opened Wrappers
  import opened Text
  import opened Memory

  /** A mounted project: its key and the map its service holds. */
  datatype Member = Member(key: string, records: Records)

  /** Closing a project leaves its member behind, which then takes no more steps. */
  datatype Host = Host(disk: Records, members: seq<Member>)

  const EMPTY_HOST := Host(map[], [])

  datatype HostStep = OpenFor(key: string) | Act(member: nat, step: Step)

  function View(h: Host, i: nat): Service
    requires i < |h.members|
  {
    Service(h.members[i].key, h.members[i].records, h.disk)
  }

  function Put(h: Host, i: nat, s: Service): Host
    requires i < |h.members|
  {
    Host(s.disk, h.members[i := Member(h.members[i].key, s.records)])
  }

  /** A service opens on what the file holds; the others are not told of its commits. */
  function Next(env: Env, h: Host, step: HostStep): Host {
    match step
    case OpenFor(key) => if ValidFile(env, h.disk) then h.(members := h.members + [Member(key, h.disk)]) else h
    case Act(i, step) => if i < |h.members| then Put(h, i, Apply(env, View(h, i), step).0) else h
  }

  function Run(env: Env, steps: seq<HostStep>): Host {
    if steps == [] then EMPTY_HOST else Next(env, Run(env, steps[..|steps| - 1]), steps[|steps| - 1])
  }

  predicate Acts(h: Host, step: HostStep) {
    step.Act? && step.member < |h.members|
  }

  predicate Commits(env: Env, h: Host, step: HostStep) {
    Acts(h, step) && Apply(env, View(h, step.member), step.step).1.Ok?
  }

  predicate Fails(env: Env, h: Host, step: HostStep) {
    Acts(h, step) && Apply(env, View(h, step.member), step.step).1.Err?
  }

  predicate RanBack(h: Host, step: HostStep) {
    Acts(h, step) && ClockRanBack(View(h, step.member), step.step)
  }

  /** What the surroundings promise about every step of a run. */
  predicate FitStep(env: Env, step: HostStep) {
    match step
    case OpenFor(key) => ValidKey(key)
    case Act(_, step) => Fit(env, step)
  }

  predicate FitRun(env: Env, steps: seq<HostStep>) {
    forall i | 0 <= i < |steps| :: FitStep(env, steps[i])
  }

  lemma RunOneMore(env: Env, steps: seq<HostStep>, k: nat)
    requires k < |steps|
    ensures Run(env, steps[..k + 1]) == Next(env, Run(env, steps[..k]), steps[k])
  {
    assert steps[..k + 1][..k] == steps[..k];
  }

  // ---------- the file and the failures ----------

  /** However many services are open and whatever the clock does, the file passes validation. */
  lemma {:induction false} FileIsAlwaysValid(env: Env, steps: seq<HostStep>)
    ensures ValidFile(env, Run(env, steps).disk)
  {
    if steps != [] {
      hide Apply, ValidFile;
      var h, last := Run(env, steps[..|steps| - 1]), steps[|steps| - 1];
      FileIsAlwaysValid(env, steps[..|steps| - 1]);
      if Acts(h, last) {
        StepKeepsFile(env, View(h, last.member), last.step);
      }
    } else {
      EmptyIsValid(env);
    }
  }

  /** Every open service holds a valid map under a valid key. */
  predicate MembersValid(env: Env, h: Host) {
    forall i | 0 <= i < |h.members| :: ValidKey(h.members[i].key) && ValidFile(env, h.members[i].records)
  }

  lemma MembersStayValid(env: Env, h: Host, step: HostStep)
    requires HexHash(env) && ValidFile(env, h.disk) && MembersValid(env, h) && FitStep(env, step) && !RanBack(h, step)
    ensures MembersValid(env, Next(env, h, step))
  {
    hide Apply, ValidFile, HexHash, Fit, ClockRanBack, ValidKey, MembersValid;
    if Acts(h, step) {
      MemberIsValid(env, h, step.member);
      CleanStaysValid(env, View(h, step.member), step.step);
      PutKeepsMembers(env, h, step.member, Apply(env, View(h, step.member), step.step).0);
    } else if step.OpenFor? && ValidFile(env, h.disk) {
      OneMoreMember(env, h, step.key);
    }
  }

  lemma MemberIsValid(env: Env, h: Host, i: nat)
    requires MembersValid(env, h) && i < |h.members|
    ensures ValidKey(View(h, i).key) && ValidFile(env, View(h, i).records)
  {
  }

  lemma PutKeepsMembers(env: Env, h: Host, i: nat, s: Service)
    requires MembersValid(env, h) && i < |h.members| && ValidFile(env, s.records)
    ensures MembersValid(env, Put(h, i, s))
  {
    hide ValidFile, ValidKey;
  }

  lemma OneMoreMember(env: Env, h: Host, key: string)
    requires MembersValid(env, h) && ValidFile(env, h.disk) && ValidKey(key)
    ensures MembersValid(env, h.(members := h.members + [Member(key, h.disk)]))
  {
    hide ValidFile, ValidKey;
  }

  lemma {:induction false} CleanRunsAreValid(env: Env, steps: seq<HostStep>)
    requires HexHash(env) && FitRun(env, steps)
    requires forall k | 0 <= k < |steps| :: !RanBack(Run(env, steps[..k]), steps[k])
    ensures MembersValid(env, Run(env, steps))
  {
    hide Next, ValidFile, HexHash, RanBack;
    if steps != [] {
      var n := |steps| - 1;
      var before := steps[..n];
      assert forall k | 0 <= k < n :: before[..k] == steps[..k];
      assert FitRun(env, before) && FitStep(env, steps[n]);
      hide FitRun, MembersValid;
      CleanRunsAreValid(env, before);
      FileIsAlwaysValid(env, before);
      MembersStayValid(env, Run(env, before), steps[n]);
    }
  }

  predicate FailsQuietly(env: Env, h: Host, step: HostStep) {
    Fails(env, h, step) ==> Next(env, h, step) == h
  }

  /** At a state of valid maps, a failure is quiet exactly outside the one guard. */
  lemma QuietIff(env: Env, h: Host, step: HostStep)
    requires HexHash(env) && MembersValid(env, h) && FitStep(env, step)
    ensures FailsQuietly(env, h, step) <==> !RanBack(h, step)
  {
    hide Apply, ValidFile, HexHash, Fit, ClockRanBack, MembersValid, ValidKey, Put;
    if Acts(h, step) {
      var s := View(h, step.member);
      MemberIsValid(env, h, step.member);
      ServiceQuietIff(env, s, step.step);
      PutChangesIff(h, step.member, Apply(env, s, step.step).0);
    }
  }

  lemma ServiceQuietIff(env: Env, s: Service, step: Step)
    requires HexHash(env) && ValidFile(env, s.records) && ValidKey(s.key) && Fit(env, step)
    ensures Apply(env, s, step).0.key == s.key
    ensures (Apply(env, s, step).1.Err? ==> Apply(env, s, step).0 == s) <==> !ClockRanBack(s, step)
  {
    StepOutcome(env, s, step);
    hide Apply, ValidFile, HexHash, Fit, ClockRanBack, ValidKey;
    if ClockRanBack(s, step) {
      ClockRanBackFails(env, s, step);
    } else if Apply(env, s, step).1.Err? {
      FailureChangesNothingIff(env, s, step);
    }
  }

  lemma PutChangesIff(h: Host, i: nat, s: Service)
    requires i < |h.members| && s.key == h.members[i].key
    ensures Put(h, i, s) == h <==> s == View(h, i)
  {
    assert h.members[i := h.members[i]] == h.members;
    assert Put(h, i, s).members[i] == Member(h.members[i].key, s.records);
  }

  lemma {:induction false} FirstRanBack(env: Env, steps: seq<HostStep>, k: nat) returns (first: nat)
    requires k < |steps| && RanBack(Run(env, steps[..k]), steps[k])
    ensures first <= k && RanBack(Run(env, steps[..first]), steps[first])
    ensures forall j | 0 <= j < first :: !RanBack(Run(env, steps[..j]), steps[j])
  {
    hide Run, RanBack;
    if j :| 0 <= j < k && RanBack(Run(env, steps[..j]), steps[j]) {
      first := FirstRanBack(env, steps, j);
    } else {
      first := k;
    }
  }

  lemma ValidUpTo(env: Env, steps: seq<HostStep>, k: nat)
    requires HexHash(env) && FitRun(env, steps) && k < |steps|
    requires forall j | 0 <= j < k :: !RanBack(Run(env, steps[..j]), steps[j])
    ensures MembersValid(env, Run(env, steps[..k])) && FitStep(env, steps[k])
  {
    hide Run, RanBack, HexHash, MembersValid;
    assert forall j | 0 <= j < k :: steps[..k][..j] == steps[..j];
    CleanRunsAreValid(env, steps[..k]);
  }

  /**
    Over every run of any number of services, whatever the clock does: all failed
    operations change nothing exactly when no update was stamped before the
    creation of its record.
  */
  lemma FailuresAreQuietIff(env: Env, steps: seq<HostStep>)
    requires HexHash(env) && FitRun(env, steps)
    ensures (forall k | 0 <= k < |steps| :: FailsQuietly(env, Run(env, steps[..k]), steps[k])) <==>
            forall k | 0 <= k < |steps| :: !RanBack(Run(env, steps[..k]), steps[k])
  {
    hide Next, Run, RanBack, HexHash, FitRun, MembersValid, FailsQuietly;
    if k :| 0 <= k < |steps| && RanBack(Run(env, steps[..k]), steps[k]) {
      var first := FirstRanBack(env, steps, k);
      ValidUpTo(env, steps, first);
      QuietIff(env, Run(env, steps[..first]), steps[first]);
    } else {
      forall k | 0 <= k < |steps|
        ensures FailsQuietly(env, Run(env, steps[..k]), steps[k])
      {
        ValidUpTo(env, steps, k);
        QuietIff(env, Run(env, steps[..k]), steps[k]);
      }
    }
  }

  // ---------- a steady clock ----------

  function Time(step: HostStep): Option<nat> {
    match step
    case OpenFor(_) => None
    case Act(_, DoAdd(_, _, _, _, _, now, _)) => Some(now)
    case Act(_, DoUpdate(_, _, _, now, _)) => Some(now)
    case Act(_, DoDelete(_, _, _)) => None
  }

  predicate Steady(steps: seq<HostStep>) {
    forall i, j | 0 <= i < j < |steps| && Time(steps[i]).Some? && Time(steps[j]).Some? ::
      Time(steps[i]).value <= Time(steps[j]).value
  }

  predicate CreatedIn(steps: seq<HostStep>, r: Record) {
    exists i :: 0 <= i < |steps| && Time(steps[i]) == Some(r.createdAt)
  }

  predicate AllCreatedIn(steps: seq<HostStep>, m: Records) {
    forall id | id in m :: CreatedIn(steps, m[id])
  }

  /** Every record of the file and of every map was created by a step of the run. */
  predicate NothingFromElsewhere(steps: seq<HostStep>, h: Host) {
    AllCreatedIn(steps, h.disk) && forall i | 0 <= i < |h.members| :: AllCreatedIn(steps, h.members[i].records)
  }

  lemma CreatedLater(steps: seq<HostStep>, step: HostStep, m: Records)
    requires AllCreatedIn(steps, m)
    ensures AllCreatedIn(steps + [step], m)
  {
    forall id | id in m
      ensures CreatedIn(steps + [step], m[id])
    {
      var i :| 0 <= i < |steps| && Time(steps[i]) == Some(m[id].createdAt);
      assert (steps + [step])[i] == steps[i];
    }
  }

  /** A step creates nothing but, for an add, the record stamped with its own time. */
  lemma StepCreates(env: Env, s: Service, step: Step)
    ensures
      var t := Apply(env, s, step).0;
      forall id | id in t.records ::
        (id in s.records && t.records[id].createdAt == s.records[id].createdAt)
        || (step.DoAdd? && t.records[id].createdAt == step.now)
  {
    hide ValidFile, ValidateContent, ValidateSource;
  }

  lemma ActCreates(env: Env, steps: seq<HostStep>, s: Service, i: nat, step: Step)
    requires AllCreatedIn(steps, s.records) && AllCreatedIn(steps, s.disk)
    ensures
      var t := Apply(env, s, step).0;
      AllCreatedIn(steps + [Act(i, step)], t.records) && AllCreatedIn(steps + [Act(i, step)], t.disk)
  {
    StepCreates(env, s, step);
    StepOutcome(env, s, step);
    CreatedLater(steps, Act(i, step), s.disk);
    hide Apply;
    var t, more := Apply(env, s, step).0, steps + [Act(i, step)];
    assert more[|steps|] == Act(i, step);
    forall id | id in t.records
      ensures CreatedIn(more, t.records[id])
    {
      if id in s.records && t.records[id].createdAt == s.records[id].createdAt {
        var k :| 0 <= k < |steps| && Time(steps[k]) == Some(s.records[id].createdAt);
        assert more[k] == steps[k];
      } else {
        assert Time(more[|steps|]) == Some(t.records[id].createdAt);
      }
    }
  }

  lemma StepCreatesOnly(env: Env, steps: seq<HostStep>, h: Host, step: HostStep)
    requires NothingFromElsewhere(steps, h)
    ensures NothingFromElsewhere(steps + [step], Next(env, h, step))
  {
    hide Apply, ValidFile, AllCreatedIn;
    CreatedLater(steps, step, h.disk);
    forall i | 0 <= i < |h.members|
      ensures AllCreatedIn(steps + [step], h.members[i].records)
    {
      CreatedLater(steps, step, h.members[i].records);
    }
    if Acts(h, step) {
      ActCreates(env, steps, View(h, step.member), step.member, step.step);
    }
  }

  lemma {:induction false} RunsCreateAll(env: Env, steps: seq<HostStep>)
    ensures NothingFromElsewhere(steps, Run(env, steps))
  {
    if steps != [] {
      hide Next, NothingFromElsewhere;
      var n := |steps| - 1;
      RunsCreateAll(env, steps[..n]);
      StepCreatesOnly(env, steps[..n], Run(env, steps[..n]), steps[n]);
      assert steps[..n] + [steps[n]] == steps;
    }
  }

  lemma CreatedBefore(steps: seq<HostStep>, k: nat, r: Record)
    requires Steady(steps) && k < |steps| && CreatedIn(steps[..k], r) && Time(steps[k]).Some?
    ensures r.createdAt <= Time(steps[k]).value
  {
    var i :| 0 <= i < k && Time(steps[..k][i]) == Some(r.createdAt);
    assert steps[i] == steps[..k][i];
  }

  /** With a steady clock no update is ever stamped too early, however stale a map is. */
  lemma SteadyNeverRunsBack(env: Env, steps: seq<HostStep>, k: nat)
    requires Steady(steps) && k < |steps|
    ensures !RanBack(Run(env, steps[..k]), steps[k])
  {
    hide Run, ValidateContent;
    RunsCreateAll(env, steps[..k]);
    var h, step := Run(env, steps[..k]), steps[k];
    if Acts(h, step) && step.step.DoUpdate? && step.step.id in h.members[step.member].records {
      CreatedBefore(steps, k, h.members[step.member].records[step.step.id]);
    }
  }

  // ---------- the guard a caller can check ----------

  /**
    No other service has committed since service `i` opened or last committed.
  */
  predicate Fresh(env: Env, steps: seq<HostStep>, i: nat)
    decreases |steps|
  {
    steps != []
    && var before, last := steps[..|steps| - 1], steps[|steps| - 1];
       var h := Run(env, before);
       if Commits(env, h, last) then last.member == i
       else (last.OpenFor? && ValidFile(env, h.disk) && i == |h.members|) || Fresh(env, before, i)
  }

  lemma FreshOneMore(env: Env, steps: seq<HostStep>, k: nat, i: nat)
    requires k < |steps|
    ensures
      var h := Run(env, steps[..k]);
      Fresh(env, steps[..k + 1], i) <==>
      if Commits(env, h, steps[k]) then steps[k].member == i
      else (steps[k].OpenFor? && ValidFile(env, h.disk) && i == |h.members|) || Fresh(env, steps[..k], i)
  {
    assert steps[..k + 1][..k] == steps[..k];
  }

  /** A step that does not commit leaves the file, and every map but the actor's. */
  lemma OthersAreUntold(env: Env, h: Host, step: HostStep)
    ensures !Commits(env, h, step) ==> Next(env, h, step).disk == h.disk
    ensures |Next(env, h, step).members| >= |h.members|
    ensures forall i | 0 <= i < |h.members| :: Next(env, h, step).members[i].key == h.members[i].key
    ensures forall i | 0 <= i < |h.members| && !(step.Act? && step.member == i) ::
              Next(env, h, step).members[i] == h.members[i]
  {
    if Acts(h, step) {
      StepOutcome(env, View(h, step.member), step.step);
    }
    hide Apply, ValidFile;
  }

  lemma {:induction false} NoOneIsFreshTooEarly(env: Env, steps: seq<HostStep>, i: nat)
    requires Fresh(env, steps, i)
    ensures i < |Run(env, steps).members|
  {
    hide ValidFile, Apply;
    var n := |steps| - 1;
    var h := Run(env, steps[..n]);
    OthersAreUntold(env, h, steps[n]);
    if !Commits(env, h, steps[n]) && Fresh(env, steps[..n], i) {
      NoOneIsFreshTooEarly(env, steps[..n], i);
    }
  }

  /**
    With a steady clock a service that meets the guard holds exactly what the file
    holds; after a restart or another project's commit that is all it can rely on.
  */
  lemma {:induction false} FreshMatchesTheFile(env: Env, steps: seq<HostStep>, i: nat)
    requires HexHash(env) && FitRun(env, steps) && Steady(steps) && Fresh(env, steps, i)
    ensures i < |Run(env, steps).members| && Run(env, steps).members[i].records == Run(env, steps).disk
    decreases |steps|
  {
    NoOneIsFreshTooEarly(env, steps, i);
    var n := |steps| - 1;
    var before, last := steps[..n], steps[n];
    var h := Run(env, before);
    assert steps[..n + 1] == steps;
    FreshOneMore(env, steps, n, i);
    hide Fresh, ValidFile, HexHash;
    OthersAreUntold(env, h, last);
    if Commits(env, h, last) {
      StepOutcome(env, View(h, i), last.step);
    } else if Fresh(env, before, i) {
      SteadyPrefix(env, steps);
      FreshMatchesTheFile(env, before, i);
      FailureIsQuiet(env, steps);
    }
  }

  lemma SteadyPrefix(env: Env, steps: seq<HostStep>)
    requires FitRun(env, steps) && Steady(steps) && steps != []
    ensures FitRun(env, steps[..|steps| - 1]) && Steady(steps[..|steps| - 1])
  {
    hide FitStep;
  }

  lemma FailureIsQuiet(env: Env, steps: seq<HostStep>)
    requires HexHash(env) && FitRun(env, steps) && Steady(steps) && steps != []
    ensures FailsQuietly(env, Run(env, steps[..|steps| - 1]), steps[|steps| - 1])
  {
    hide Run, HexHash, FitRun, Steady, FailsQuietly;
    forall k | 0 <= k < |steps|
      ensures !RanBack(Run(env, steps[..k]), steps[k])
    {
      SteadyNeverRunsBack(env, steps, k);
    }
    FailuresAreQuietIff(env, steps);
  }

  // ---------- isolation ----------

  /** No add of the run names an id its service already holds. */
  predicate NewIds(env: Env, steps: seq<HostStep>) {
    forall k | 0 <= k < |steps| :: NewIdAt(Run(env, steps[..k]), steps[k])
  }

  predicate NewIdAt(h: Host, step: HostStep) {
    Acts(h, step) && step.step.DoAdd? ==> step.step.id !in h.members[step.member].records
  }

  /** What service `i` cannot see, as it holds it and as the file holds it. */
  predicate AgreesOnForeign(h: Host, i: nat)
    requires i < |h.members|
  {
    Foreign(h.members[i].key, h.members[i].records) == Foreign(h.members[i].key, h.disk)
  }

  /** A commit keeps the records its project cannot see exactly when map and file agree on them. */
  lemma CommitIsIsolatedIff(env: Env, h: Host, step: HostStep)
    requires Commits(env, h, step) && NewIdAt(h, step)
    ensures
      var key := h.members[step.member].key;
      Foreign(key, Next(env, h, step).disk) == Foreign(key, h.disk) <==> AgreesOnForeign(h, step.member)
  {
    hide Apply, Foreign;
    CommitKeepsForeignIff(env, View(h, step.member), step.step);
  }

  lemma {:induction false} FreshAgreesOnForeign(env: Env, steps: seq<HostStep>, i: nat)
    requires NewIds(env, steps) && Fresh(env, steps, i)
    ensures i < |Run(env, steps).members| && AgreesOnForeign(Run(env, steps), i)
    decreases |steps|
  {
    NoOneIsFreshTooEarly(env, steps, i);
    var n := |steps| - 1;
    var before, last := steps[..n], steps[n];
    var h := Run(env, before);
    assert steps[..n + 1] == steps;
    FreshOneMore(env, steps, n, i);
    assert NewIdAt(h, last);
    NewIdsPrefix(env, steps);
    hide Fresh, ValidFile, Foreign, NewIds;
    OthersAreUntold(env, h, last);
    if Commits(env, h, last) {
      StepOutcome(env, View(h, i), last.step);
    } else if Fresh(env, before, i) {
      FreshAgreesOnForeign(env, before, i);
      if Acts(h, last) && last.member == i {
        ForeignIsUntouched(env, View(h, i), last.step);
      }
    }
    hide Apply;
  }

  lemma NewIdsPrefix(env: Env, steps: seq<HostStep>)
    requires NewIds(env, steps) && steps != []
    ensures NewIds(env, steps[..|steps| - 1])
  {
    hide NewIdAt;
    var before := steps[..|steps| - 1];
    assert forall k | 0 <= k < |before| :: before[..k] == steps[..k];
  }

  /**
    Over every run, whatever the clock does: a step of a service that meets the
    guard leaves every record its project cannot see as the file had it, and what
    it returns its project can see.
  */
  lemma OtherProjectsAreUntouched(env: Env, steps: seq<HostStep>, k: nat)
    requires NewIds(env, steps) && k < |steps| && Acts(Run(env, steps[..k]), steps[k])
    requires Fresh(env, steps[..k], steps[k].member)
    ensures
      var h := Run(env, steps[..k]);
      var key := h.members[steps[k].member].key;
      && Foreign(key, Run(env, steps[..k + 1]).disk) == Foreign(key, h.disk)
      && var r := Apply(env, View(h, steps[k].member), steps[k].step).1;
         r.Ok? ==> Visible(key, r.value)
  {
    hide Run, Fresh, Foreign;
    var h, i := Run(env, steps[..k]), steps[k].member;
    assert NewIdAt(h, steps[k]);
    NewIdsUpTo(env, steps, k);
    hide NewIds;
    FreshAgreesOnForeign(env, steps[..k], i);
    RunOneMore(env, steps, k);
    ForeignIsUntouched(env, View(h, i), steps[k].step);
    OthersAreUntold(env, h, steps[k]);
    if Commits(env, h, steps[k]) {
      CommitIsIsolatedIff(env, h, steps[k]);
    }
    hide Apply, Next;
  }

  lemma NewIdsUpTo(env: Env, steps: seq<HostStep>, k: nat)
    requires NewIds(env, steps) && k <= |steps|
    ensures NewIds(env, steps[..k])
  {
    hide NewIdAt, Run;
    assert forall j | 0 <= j < k :: steps[..k][..j] == steps[..j];
  }

  // ---------- compare-and-set ----------

  predicate PastIn(m: Records, id: string, rev: nat) {
    id in m ==> m[id].revision > rev
  }

  lemma PastStays(env: Env, s: Service, step: Step, id: string, rev: nat)
    requires PastIn(s.records, id, rev) && PastIn(s.disk, id, rev) && !(step.DoAdd? && step.id == id)
    ensures PastIn(Apply(env, s, step).0.records, id, rev) && PastIn(Apply(env, s, step).0.disk, id, rev)
  {
    hide ValidFile, ValidateContent, ValidateSource;
  }

  /** Every commit up to step `j` is made by a service that meets the guard. */
  predicate Guarded(env: Env, steps: seq<HostStep>, j: nat)
    requires j < |steps|
  {
    forall k | 0 <= k <= j && Commits(env, Run(env, steps[..k]), steps[k]) :: Fresh(env, steps[..k], steps[k].member)
  }

  /** The file and every service that meets the guard are past `rev`. */
  predicate AllPast(env: Env, steps: seq<HostStep>, id: string, rev: nat) {
    && PastIn(Run(env, steps).disk, id, rev)
    && forall i | 0 <= i < |Run(env, steps).members| && Fresh(env, steps, i) ::
         PastIn(Run(env, steps).members[i].records, id, rev)
  }

  lemma AllPastStays(env: Env, steps: seq<HostStep>, k: nat, id: string, rev: nat)
    requires k < |steps| && AllPast(env, steps[..k], id, rev)
    requires Commits(env, Run(env, steps[..k]), steps[k]) ==> Fresh(env, steps[..k], steps[k].member)
    requires !(steps[k].Act? && steps[k].step.DoAdd? && steps[k].step.id == id)
    ensures AllPast(env, steps[..k + 1], id, rev)
  {
    var h, step := Run(env, steps[..k]), steps[k];
    RunOneMore(env, steps, k);
    OthersAreUntold(env, h, step);
    if Acts(h, step) && Fresh(env, steps[..k], step.member) {
      PastStays(env, View(h, step.member), step.step, id, rev);
    }
    hide Run, Fresh, Apply, ValidFile, PastIn;
    var t := Run(env, steps[..k + 1]);
    forall i | 0 <= i < |t.members| && Fresh(env, steps[..k + 1], i)
      ensures PastIn(t.members[i].records, id, rev)
    {
      FreshOneMore(env, steps, k, i);
    }
  }

  lemma {:induction false} AllPastForGood(env: Env, steps: seq<HostStep>, i: nat, j: nat, id: string, rev: nat)
    requires i <= j < |steps| && AllPast(env, steps[..i], id, rev) && Guarded(env, steps, j)
    requires forall k | i <= k < j :: !(steps[k].Act? && steps[k].step.DoAdd? && steps[k].step.id == id)
    ensures AllPast(env, steps[..j], id, rev)
    decreases j
  {
    hide Run, AllPast, Commits, Fresh;
    if i < j {
      AllPastForGood(env, steps, i, j - 1, id, rev);
      AllPastStays(env, steps, j - 1, id, rev);
    }
  }

  /**
    No lost update: when all commits are made under the guard, once an update of
    `id` at `rev` succeeded nothing that names the same or an older revision
    succeeds again, from any project and across restarts, as long as no add reuses
    the id.
  */
  lemma NoLostUpdate(env: Env, steps: seq<HostStep>, i: nat, j: nat)
    requires i < j < |steps| && Guarded(env, steps, j)
    requires Commits(env, Run(env, steps[..i]), steps[i]) && steps[i].step.DoUpdate?
    requires Commits(env, Run(env, steps[..j]), steps[j]) && (steps[j].step.DoUpdate? || steps[j].step.DoDelete?)
    requires steps[j].step.id == steps[i].step.id
    requires forall k | i < k < j :: !(steps[k].Act? && steps[k].step.DoAdd? && steps[k].step.id == steps[i].step.id)
    ensures steps[j].step.expected > steps[i].step.expected
  {
    var id, rev := steps[i].step.id, steps[i].step.expected;
    hide Run, Apply, Fresh;
    UpdateIsPast(env, steps, i);
    AllPastForGood(env, steps, i + 1, j, id, rev);
    StepOutcome(env, View(Run(env, steps[..j]), steps[j].member), steps[j].step);
  }

  lemma UpdateIsPast(env: Env, steps: seq<HostStep>, i: nat)
    requires i < |steps| && Commits(env, Run(env, steps[..i]), steps[i]) && steps[i].step.DoUpdate?
    ensures AllPast(env, steps[..i + 1], steps[i].step.id, steps[i].step.expected)
  {
    var h := Run(env, steps[..i]);
    RunOneMore(env, steps, i);
    StepOutcome(env, View(h, steps[i].member), steps[i].step);
    hide Run, Apply, Fresh, ValidFile;
    var t := Run(env, steps[..i + 1]);
    forall m | 0 <= m < |t.members| && Fresh(env, steps[..i + 1], m)
      ensures PastIn(t.members[m].records, steps[i].step.id, steps[i].step.expected)
    {
      FreshOneMore(env, steps, i, m);
    }
  }
}
