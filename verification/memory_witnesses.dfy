/**
  Runs of memory services that meet what the theorems guard against: a stale map
  that drops another project's record, two updates accepted at one revision, and a
  clock that runs backwards.
*/
module MemoryWitnesses {
  import opened Wrappers
  import opened Text
  import opened Memory
  import opened MemoryHost

  // ---------- plain steps ----------

  function PlainAdd(scope: Scope, id: string, now: nat): Step {
    DoAdd(scope, "x", None, Err("no file"), id, now, true)
  }

  function PlainRecord(env: Env, scope: Scope, key: string, id: string, now: nat): Record {
    Record(id, scope, if scope.ProjectScope? then Some(key) else None, "x", "user-command", None, now, now, 1, env.hash("x"))
  }

  /** A text that is stored as it is given. */
  predicate StoredAsIs(content: string) {
    ValidateContent(content) == Ok(content) && Trim(content) == content
  }

  lemma LetterIsContent(x: string)
    requires x in {"x", "y", "z"}
    ensures StoredAsIs(x)
  {
    TrimFixed(x);
    AsciiBytes(x, 1);
  }

  lemma CommandIsSource()
    ensures ValidateSource("user-command") == Ok("user-command") && !CitesFile("user-command")
  {
    TrimFixed("user-command");
    AsciiBytes("user-command", 12);
  }

  lemma PlainAddMakes(env: Env, s: Service, scope: Scope, id: string, now: nat)
    requires |s.records| < MAX_RECORDS
    ensures
      var made := PlainRecord(env, scope, s.key, id, now);
      Apply(env, s, PlainAdd(scope, id, now)) == Commit(env, s, s.records[id := made], made, true)
  {
    LetterIsContent("x");
    CommandIsSource();
    hide ValidateContent, ValidateSource, Commit;
  }

  lemma PlainAddCommits(env: Env, s: Service, scope: Scope, id: string, now: nat)
    requires HexHash(env) && env.uuid(id) && ValidKey(s.key) && ValidFile(env, s.records) && |s.records| < MAX_RECORDS
    ensures
      var made := s.records[id := PlainRecord(env, scope, s.key, id, now)];
      && Apply(env, s, PlainAdd(scope, id, now)) == (Service(s.key, made, made), Ok(made[id]))
      && ValidFile(env, made)
  {
    PlainAddMakes(env, s, scope, id, now);
    LetterIsContent("x");
    CommandIsSource();
    hide ValidateContent, ValidateSource, ValidFile;
    StoredRecordIsValid(env, s.records, id, PlainRecord(env, scope, s.key, id, now));
  }

  lemma PlainUpdateMakes(env: Env, s: Service, id: string, content: string, now: nat)
    requires StoredAsIs(content)
    requires id in s.records && Visible(s.key, s.records[id]) && s.records[id].revision < U64_MAX
    ensures
      var made := Updated(env, s.records[id], content, now);
      Apply(env, s, DoUpdate(id, s.records[id].revision, content, now, true)) ==
      Commit(env, s, s.records[id := made], made, true)
  {
    hide ValidateContent, Trim, Commit;
  }

  lemma PlainUpdateCommits(env: Env, s: Service, id: string, content: string, now: nat)
    requires HexHash(env) && ValidFile(env, s.records) && StoredAsIs(content)
    requires id in s.records && Visible(s.key, s.records[id]) && s.records[id].revision < U64_MAX
    requires s.records[id].createdAt <= now
    ensures
      var update := DoUpdate(id, s.records[id].revision, content, now, true);
      var made := s.records[id := Updated(env, s.records[id], content, now)];
      && Apply(env, s, update) == (Service(s.key, made, made), Ok(made[id]))
      && ValidFile(env, made)
  {
    PlainUpdateMakes(env, s, id, content, now);
    UpdatedIsValid(env, s, id, content, now);
    hide ValidFile, HexHash, Updated, Apply, Visible;
  }

  lemma UpdatedIsValid(env: Env, s: Service, id: string, content: string, now: nat)
    requires HexHash(env) && ValidFile(env, s.records) && StoredAsIs(content)
    requires id in s.records && Visible(s.key, s.records[id]) && s.records[id].revision < U64_MAX
    ensures ValidFile(env, s.records[id := Updated(env, s.records[id], content, now)]) <==> s.records[id].createdAt <= now
  {
    assert Held(s, id, s.records[id].revision) == Ok(s.records[id]);
    MadeIsUpdated(env, s.records[id], content, now);
    hide ValidateContent, ValidFile, HexHash, Trim, Held, Visible, Updated;
    UpdateIsValidIff(env, s, DoUpdate(id, s.records[id].revision, content, now, true));
  }

  lemma MadeIsUpdated(env: Env, was: Record, content: string, now: nat)
    requires StoredAsIs(content) && was.revision < U64_MAX
    ensures was.(content := content, digest := env.hash(content), updatedAt := now, revision := was.revision + 1) ==
            Updated(env, was, content, now)
  {
    hide Trim, ValidateContent;
  }

  // ---------- committing steps of one host ----------

  lemma ActCommits(env: Env, h: Host, i: nat, step: Step, made: Records, result: Record)
    requires i < |h.members| && Apply(env, View(h, i), step) == (Service(h.members[i].key, made, made), Ok(result))
    ensures Commits(env, h, Act(i, step))
    ensures Next(env, h, Act(i, step)) == Host(made, h.members[i := Member(h.members[i].key, made)])
  {
    hide Apply;
  }

  lemma AddCommits(env: Env, h: Host, i: nat, scope: Scope, id: string, now: nat) returns (made: Records)
    requires HexHash(env) && env.uuid(id) && i < |h.members| && ValidKey(h.members[i].key)
    requires ValidFile(env, h.members[i].records) && |h.members[i].records| < MAX_RECORDS
    ensures made == h.members[i].records[id := PlainRecord(env, scope, h.members[i].key, id, now)] && ValidFile(env, made)
    ensures Commits(env, h, Act(i, PlainAdd(scope, id, now)))
    ensures Next(env, h, Act(i, PlainAdd(scope, id, now))) == Host(made, h.members[i := Member(h.members[i].key, made)])
  {
    made := h.members[i].records[id := PlainRecord(env, scope, h.members[i].key, id, now)];
    PlainAddCommits(env, View(h, i), scope, id, now);
    hide HexHash, ValidFile, ValidKey, PlainRecord, PlainAdd, Apply, Commits, Next;
    ActCommits(env, h, i, PlainAdd(scope, id, now), made, made[id]);
  }

  /** An update by a service at the revision it holds. */
  lemma UpdateCommits(env: Env, h: Host, i: nat, id: string, content: string, now: nat) returns (made: Records)
    requires HexHash(env) && i < |h.members| && ValidFile(env, h.members[i].records) && StoredAsIs(content)
    requires id in h.members[i].records && h.members[i].records[id].scope == UserScope
    requires h.members[i].records[id].revision < U64_MAX && h.members[i].records[id].createdAt <= now
    ensures made == h.members[i].records[id := Updated(env, h.members[i].records[id], content, now)] && ValidFile(env, made)
    ensures Commits(env, h, Act(i, DoUpdate(id, h.members[i].records[id].revision, content, now, true)))
    ensures Next(env, h, Act(i, DoUpdate(id, h.members[i].records[id].revision, content, now, true))) ==
            Host(made, h.members[i := Member(h.members[i].key, made)])
  {
    made := h.members[i].records[id := Updated(env, h.members[i].records[id], content, now)];
    hide HexHash, ValidFile, Updated, Apply, Commits, Next, StoredAsIs;
    PlainUpdateCommits(env, View(h, i), id, content, now);
    ActCommits(env, h, i, DoUpdate(id, h.members[i].records[id].revision, content, now, true), made, made[id]);
  }

  lemma RunAppend(env: Env, steps: seq<HostStep>, step: HostStep)
    ensures Run(env, steps + [step]) == Next(env, Run(env, steps), step)
  {
    assert (steps + [step])[..|steps|] == steps;
  }

  /** One service and the file. */
  function OneOpen(key: string, records: Records, disk: Records): Host {
    Host(disk, [Member(key, records)])
  }

  /** A service opens on the empty file and adds a user record. */
  lemma FirstAdd(env: Env, key: string, id: string, now: nat)
    requires HexHash(env) && ValidKey(key) && env.uuid(id)
    ensures
      var made := map[id := PlainRecord(env, UserScope, "", id, now)];
      && Run(env, [OpenFor(key), Act(0, PlainAdd(UserScope, id, now))]) == OneOpen(key, made, made)
      && ValidFile(env, made)
  {
    var h := OneOpen(key, map[], map[]);
    RunOpen(env, key);
    hide HexHash, ValidKey, Apply, Commits, Run, Next, PlainAdd, PlainRecord;
    RunAppend(env, [OpenFor(key)], Act(0, PlainAdd(UserScope, id, now)));
    assert [OpenFor(key)] + [Act(0, PlainAdd(UserScope, id, now))] == [OpenFor(key), Act(0, PlainAdd(UserScope, id, now))];
    EmptyIsValid(env);
    hide ValidFile;
    var made := AddCommits(env, h, 0, UserScope, id, now);
    SameOwner(env, key, id, now);
    assert made == map[id := PlainRecord(env, UserScope, "", id, now)];
    assert h.members[0 := Member(key, made)] == [Member(key, made)];
  }

  lemma RunOpen(env: Env, key: string)
    ensures Run(env, [OpenFor(key)]) == OneOpen(key, map[], map[])
  {
    EmptyIsValid(env);
    hide ValidFile;
    RunAppend(env, [], OpenFor(key));
    assert [] + [OpenFor(key)] == [OpenFor(key)];
  }

  /** A user record does not say which project it was added from. */
  lemma SameOwner(env: Env, key: string, id: string, now: nat)
    ensures PlainRecord(env, UserScope, key, id, now) == PlainRecord(env, UserScope, "", id, now)
  {
  }

  // ---------- a stale map drops a record ----------

  /** Two projects open on the empty file; the second has stored a record. */
  function TwoOpen(a: string, b: string, disk: Records, ofA: Records): Host {
    Host(disk, [Member(a, ofA), Member(b, disk)])
  }

  lemma BothOpen(env: Env, a: string, b: string)
    ensures Run(env, [OpenFor(a), OpenFor(b)]) == TwoOpen(a, b, map[], map[])
  {
    EmptyIsValid(env);
    hide ValidFile;
    RunAppend(env, [], OpenFor(a));
    RunAppend(env, [OpenFor(a)], OpenFor(b));
    assert [] + [OpenFor(a)] == [OpenFor(a)] && [OpenFor(a)] + [OpenFor(b)] == [OpenFor(a), OpenFor(b)];
  }

  function StaleSteps(a: string, b: string, mine: string, theirs: string): seq<HostStep> {
    [OpenFor(a), OpenFor(b), Act(1, PlainAdd(ProjectScope, theirs, 1)), Act(0, PlainAdd(ProjectScope, mine, 2))]
  }

  lemma StaleStates(env: Env, a: string, b: string, mine: string, theirs: string)
    returns (h: Host, before: Host, stored: Records, added: Records)
    requires HexHash(env) && ValidKey(a) && ValidKey(b) && env.uuid(mine) && env.uuid(theirs)
    ensures stored == map[theirs := PlainRecord(env, ProjectScope, b, theirs, 1)]
    ensures added == map[mine := PlainRecord(env, ProjectScope, a, mine, 2)]
    ensures h == Run(env, [OpenFor(a), OpenFor(b)]) && Commits(env, h, Act(1, PlainAdd(ProjectScope, theirs, 1)))
    ensures before == Next(env, h, Act(1, PlainAdd(ProjectScope, theirs, 1))) && before.disk == stored
    ensures Commits(env, before, Act(0, PlainAdd(ProjectScope, mine, 2)))
    ensures Next(env, before, Act(0, PlainAdd(ProjectScope, mine, 2))).disk == added
  {
    BothOpen(env, a, b);
    EmptyIsValid(env);
    hide Run, HexHash, ValidFile, ValidKey, Next, Commits, PlainRecord, PlainAdd;
    h := TwoOpen(a, b, map[], map[]);
    stored := AddCommits(env, h, 1, ProjectScope, theirs, 1);
    assert stored == map[theirs := PlainRecord(env, ProjectScope, b, theirs, 1)];
    before := Next(env, h, Act(1, PlainAdd(ProjectScope, theirs, 1)));
    assert before.members[0] == h.members[0];
    added := AddCommits(env, before, 0, ProjectScope, mine, 2);
    assert added == map[mine := PlainRecord(env, ProjectScope, a, mine, 2)];
  }

  /** The record of one project is gone from the file once the other, open since before, adds its own. */
  lemma StaleMapDropsRecord(env: Env, a: string, b: string, mine: string, theirs: string) returns (before: Host, after: Host)
    requires HexHash(env) && ValidKey(a) && ValidKey(b) && a != b
    requires env.uuid(mine) && env.uuid(theirs) && mine != theirs
    ensures
      var steps := StaleSteps(a, b, mine, theirs);
      && before == Run(env, steps[..3]) && after == Run(env, steps)
      && Commits(env, Run(env, steps[..2]), steps[2]) && Commits(env, before, steps[3]) && !Fresh(env, steps[..3], 0)
    ensures theirs in before.disk && !Visible(a, before.disk[theirs]) && theirs !in after.disk
  {
    var steps := StaleSteps(a, b, mine, theirs);
    assert steps[..2] == [OpenFor(a), OpenFor(b)] && steps[..4] == steps;
    var h, stored, added;
    h, before, stored, added := StaleStates(env, a, b, mine, theirs);
    assert theirs in before.disk && !Visible(a, before.disk[theirs]);
    assert theirs !in added;
    hide Run, HexHash, ValidKey, Next, Commits, Fresh, PlainRecord, PlainAdd, Visible;
    RunOneMore(env, steps, 2);
    RunOneMore(env, steps, 3);
    FreshOneMore(env, steps, 2, 0);
    after := Run(env, steps);
  }

  // ---------- two updates at one revision ----------

  /** A user record is added by one project; a second one opens and both update it at revision 1. */
  function RacingSteps(a: string, b: string, id: string): seq<HostStep> {
    [OpenFor(a), Act(0, PlainAdd(UserScope, id, 1)), OpenFor(b),
     Act(0, DoUpdate(id, 1, "y", 2, true)), Act(1, DoUpdate(id, 1, "z", 2, true)), Act(0, DoUpdate(id, 2, "y", 2, true))]
  }

  function Shared(env: Env, id: string): Record { PlainRecord(env, UserScope, "", id, 1) }

  lemma RacingStart(env: Env, a: string, b: string, id: string)
    requires HexHash(env) && ValidKey(a) && env.uuid(id)
    ensures
      var shared := map[id := Shared(env, id)];
      && Run(env, [OpenFor(a), Act(0, PlainAdd(UserScope, id, 1))] + [OpenFor(b)]) == TwoOpen(a, b, shared, shared)
      && ValidFile(env, shared)
  {
    FirstAdd(env, a, id, 1);
    hide HexHash, ValidFile, PlainRecord, PlainAdd, Run;
    RunAppend(env, [OpenFor(a), Act(0, PlainAdd(UserScope, id, 1))], OpenFor(b));
  }

  /**
    Whenever two services hold a user record as the file has it, both can update
    it at that revision, and the first one's text is gone from the file.
  */
  lemma BothUpdatesSucceed(env: Env, h: Host, id: string, first: string, second: string, now: nat)
    returns (middle: Host, end: Host)
    requires HexHash(env) && |h.members| == 2 && ValidFile(env, h.disk)
    requires h.members[0].records == h.disk == h.members[1].records
    requires id in h.disk && h.disk[id].scope == UserScope && h.disk[id].revision < U64_MAX && h.disk[id].createdAt <= now
    requires StoredAsIs(first) && StoredAsIs(second)
    ensures Commits(env, h, Act(0, DoUpdate(id, h.disk[id].revision, first, now, true)))
    ensures middle == Next(env, h, Act(0, DoUpdate(id, h.disk[id].revision, first, now, true)))
    ensures Commits(env, middle, Act(1, DoUpdate(id, h.disk[id].revision, second, now, true)))
    ensures end == Next(env, middle, Act(1, DoUpdate(id, h.disk[id].revision, second, now, true)))
    ensures id in middle.disk && middle.disk[id] == Updated(env, h.disk[id], first, now)
    ensures end.disk == h.disk[id := Updated(env, h.disk[id], second, now)]
    ensures |end.members| == 2 && end.members[0].records == middle.disk && ValidFile(env, middle.disk)
  {
    hide HexHash, ValidFile, Updated, Next, Commits, StoredAsIs;
    var y := UpdateCommits(env, h, 0, id, first, now);
    middle := Next(env, h, Act(0, DoUpdate(id, h.disk[id].revision, first, now, true)));
    assert middle.members[1] == h.members[1];
    var z := UpdateCommits(env, middle, 1, id, second, now);
    end := Next(env, middle, Act(1, DoUpdate(id, h.disk[id].revision, second, now, true)));
    assert end.members[0] == middle.members[0];
  }

  /** One more update by the first service, at the revision the file then has. */
  lemma ThirdUpdateSucceeds(env: Env, h: Host, id: string)
    returns (middle: Host, end: Host)
    requires HexHash(env) && |h.members| == 2 && ValidFile(env, h.disk)
    requires h.members[0].records == h.disk == h.members[1].records && id in h.disk && h.disk[id] == Shared(env, id)
    ensures Commits(env, h, Act(0, DoUpdate(id, 1, "y", 2, true)))
    ensures middle == Next(env, h, Act(0, DoUpdate(id, 1, "y", 2, true)))
    ensures Commits(env, middle, Act(1, DoUpdate(id, 1, "z", 2, true)))
    ensures end == Next(env, middle, Act(1, DoUpdate(id, 1, "z", 2, true)))
    ensures Commits(env, end, Act(0, DoUpdate(id, 2, "y", 2, true)))
    ensures id in middle.disk && middle.disk[id].content == "y" && id in end.disk && end.disk[id].content == "z"
    ensures |end.members| == 2 && SameRevision(end.members[0].records, end.disk, id)
    ensures end.members[0].records[id].content == "y"
  {
    LetterIsContent("y");
    LetterIsContent("z");
    hide HexHash, ValidFile, Next, Commits, Trim, ValidateContent;
    middle, end := BothUpdatesSucceed(env, h, id, "y", "z", 2);
    assert end.disk[id] == Updated(env, h.disk[id], "z", 2);
    hide StoredAsIs;
    var last := UpdateCommits(env, end, 0, id, "y", 2);
  }

  /**
    From the empty file: both updates at revision 1 succeed, and then the first
    service updates at the file's revision, replacing a text it never saw.
  */
  lemma UpdatesRace(env: Env, a: string, b: string, id: string) returns (h: Host, middle: Host, end: Host)
    requires HexHash(env) && ValidKey(a) && env.uuid(id)
    ensures
      var steps := RacingSteps(a, b, id);
      h == Run(env, steps[..3]) && middle == Run(env, steps[..4]) && end == Run(env, steps[..5])
    ensures
      var steps := RacingSteps(a, b, id);
      Commits(env, h, steps[3]) && Commits(env, middle, steps[4]) && Commits(env, end, steps[5]) && !Fresh(env, steps[..4], 1)
    ensures id in middle.disk && middle.disk[id].content == "y" && id in end.disk && end.disk[id].content == "z"
    ensures |end.members| == 2 && SameRevision(end.members[0].records, end.disk, id)
    ensures id in end.members[0].records && end.members[0].records[id].content == "y"
  {
    var steps := RacingSteps(a, b, id);
    assert steps[..3] == [OpenFor(a), Act(0, PlainAdd(UserScope, id, 1))] + [OpenFor(b)];
    hide Run, Next, Fresh, Commits, HexHash, ValidFile, Shared, ValidKey, PlainAdd;
    RacingStart(env, a, b, id);
    h := Run(env, steps[..3]);
    middle, end := ThirdUpdateSucceeds(env, h, id);
    RunOneMore(env, steps, 3);
    RunOneMore(env, steps, 4);
    FreshOneMore(env, steps, 3, 1);
  }

  // ---------- a clock that runs backwards ----------

  function Backdated(env: Env, id: string): Record {
    PlainRecord(env, UserScope, "", id, 5).(content := "y", digest := env.hash("y"), updatedAt := 3, revision := 2)
  }

  /** Add at time 5, update at time 3, add again. */
  function BackwardSteps(key: string, id: string, other: string): seq<HostStep> {
    [OpenFor(key), Act(0, PlainAdd(UserScope, id, 5)), Act(0, DoUpdate(id, 1, "y", 3, true)), Act(0, PlainAdd(UserScope, other, 9))]
  }

  lemma BackwardUpdate(env: Env, key: string, id: string)
    requires HexHash(env) && ValidKey(key)
    requires ValidFile(env, map[id := PlainRecord(env, UserScope, "", id, 5)])
    ensures
      var made := map[id := PlainRecord(env, UserScope, "", id, 5)];
      var h, step := OneOpen(key, made, made), Act(0, DoUpdate(id, 1, "y", 3, true));
      && RanBack(h, step) && !FailsQuietly(env, h, step)
      && Next(env, h, step) == OneOpen(key, map[id := Backdated(env, id)], made)
  {
    var made := map[id := PlainRecord(env, UserScope, "", id, 5)];
    var h, update := OneOpen(key, made, made), DoUpdate(id, 1, "y", 3, true);
    LetterIsContent("y");
    PlainUpdateMakes(env, View(h, 0), id, "y", 3);
    hide ValidateContent, ValidFile, HexHash, Trim, Apply;
    UpdateIsValidIff(env, View(h, 0), update);
    assert made[id := Backdated(env, id)] == map[id := Backdated(env, id)];
    assert h.members[0 := Member(key, map[id := Backdated(env, id)])] == [Member(key, map[id := Backdated(env, id)])];
    MapsDiffer(id, Backdated(env, id), PlainRecord(env, UserScope, "", id, 5));
  }

  lemma LateAdd(env: Env, key: string, id: string, other: string)
    requires id != other
    ensures
      var h := OneOpen(key, map[id := Backdated(env, id)], map[id := PlainRecord(env, UserScope, "", id, 5)]);
      var t := Next(env, h, Act(0, PlainAdd(UserScope, other, 9)));
      && !FailsQuietly(env, h, Act(0, PlainAdd(UserScope, other, 9))) && !RanBack(h, Act(0, PlainAdd(UserScope, other, 9)))
      && |t.members| == 1 && other in t.members[0].records && other !in t.disk
  {
    var h := OneOpen(key, map[id := Backdated(env, id)], map[id := PlainRecord(env, UserScope, "", id, 5)]);
    assert PlainAdd(UserScope, other, 9).DoAdd?;
    hide PlainRecord, Backdated, Apply, PlainAdd, HexHash, ValidFile, ValidateContent, Held;
    LateAddFails(env, View(h, 0), id, other);
    var t := Next(env, h, Act(0, PlainAdd(UserScope, other, 9)));
    assert other in t.members[0].records && other !in h.members[0].records;
  }

  lemma LateAddFails(env: Env, s: Service, id: string, other: string)
    requires id != other && s.records == map[id := Backdated(env, id)]
    ensures
      var (t, r) := Apply(env, s, PlainAdd(UserScope, other, 9));
      r.Err? && t == s.(records := s.records[other := PlainRecord(env, UserScope, s.key, other, 9)])
  {
    assert |s.records| == 1;
    PlainAddMakes(env, s, UserScope, other, 9);
    var mutated := s.records[other := PlainRecord(env, UserScope, s.key, other, 9)];
    assert id in mutated && !ValidRecord(env, id, mutated[id]);
    assert !ValidFile(env, mutated);
    hide ValidFile, ValidRecord, Apply, PlainAdd;
  }

  lemma BackwardIsFit(env: Env, key: string, id: string, other: string)
    requires ValidKey(key) && env.uuid(id) && env.uuid(other)
    ensures FitRun(env, BackwardSteps(key, id, other))
  {
    hide ValidKey;
  }

  /**
    The update stamped before the creation fails and stays in the service; the add
    after it, stamped properly, fails and stays as well.
  */
  lemma ClockRunsBackAndStays(env: Env, key: string, id: string, other: string) returns (h: Host, middle: Host, end: Host)
    requires HexHash(env) && ValidKey(key) && env.uuid(id) && env.uuid(other) && id != other
    ensures
      var steps := BackwardSteps(key, id, other);
      FitRun(env, steps) && h == Run(env, steps[..2]) && middle == Run(env, steps[..3]) && end == Run(env, steps)
    ensures
      var steps := BackwardSteps(key, id, other);
      && RanBack(h, steps[2]) && !FailsQuietly(env, h, steps[2])
      && !RanBack(middle, steps[3]) && !FailsQuietly(env, middle, steps[3])
    ensures |end.members| == 1 && other in end.members[0].records && other !in end.disk
  {
    var steps := BackwardSteps(key, id, other);
    assert steps[..2] == [OpenFor(key), Act(0, PlainAdd(UserScope, id, 5))] && steps[..4] == steps;
    FirstAdd(env, key, id, 5);
    BackwardIsFit(env, key, id, other);
    hide Run, Next, FailsQuietly, RanBack, HexHash, ValidFile, ValidKey, PlainRecord, Backdated, PlainAdd, FitRun;
    RunOneMore(env, steps, 2);
    RunOneMore(env, steps, 3);
    BackwardUpdate(env, key, id);
    LateAdd(env, key, id, other);
    h, middle, end := Run(env, steps[..2]), Run(env, steps[..3]), Run(env, steps);
  }

  lemma MapsDiffer(id: string, a: Record, b: Record)
    requires a != b
    ensures map[id := a] != map[id := b]
  {
    assert map[id := a][id] != map[id := b][id];
  }
}
