/**
  The explicit memory of src/memory.rs: a map of records shared by projects
  through one file, changed under compare-and-set, validated and then written.
*/
module Memory {
  import opened Wrappers
  import opened Text

  const MAX_QUERY_BYTES := 4096
  const MAX_CONTENT_BYTES := 16384
  const MAX_SOURCE_BYTES := 1024
  const MAX_RECORDS := 1000
  const MAX_KEY_BYTES := 4096

  datatype Scope = ProjectScope | UserScope

  /** Times are points on a line; the hash and the shape of ids are abstract. */
  datatype Record = Record(
    id: string, scope: Scope, projectKey: Option<string>, content: string, source: string,
    sourceDigest: Option<string>, createdAt: nat, updatedAt: nat, revision: u64, digest: string)

  type Records = map<string, Record>

  datatype Env = Env(hash: string -> string, uuid: string -> bool)

  /** One open service: its project, the map it holds, and the file it shares with others. */
  datatype Service = Service(key: string, records: Records, disk: Records)

  // ---------- validation ----------

  predicate AllowedInContent(c: char) { !IsControl(c) || c == '\n' || c == '\t' }

  function ValidateContent(s: string): Result<string, string> {
    var t := Trim(s);
    if t == "" || ByteLen(t) > MAX_CONTENT_BYTES || !(forall i | 0 <= i < |t| :: AllowedInContent(t[i]))
    then Err("memory content refused") else Ok(t)
  }

  function ValidateSource(s: string): Result<string, string> {
    var t := Trim(s);
    if t == "" || ByteLen(t) > MAX_SOURCE_BYTES || !(forall i | 0 <= i < |t| :: !IsControl(t[i]))
    then Err("memory source refused") else Ok(t)
  }

  predicate CitesFile(source: string) { "file:" <= source }

  predicate ValidKey(key: string) { key != "" && ByteLen(key) <= MAX_KEY_BYTES }

  predicate ValidAuthority(r: Record) {
    match r.scope
    case ProjectScope =>
      && r.projectKey.Some? && ValidKey(r.projectKey.value)
      && (if CitesFile(r.source) then r.sourceDigest.Some? && IsHexDigest(r.sourceDigest.value) else r.sourceDigest.None?)
    case UserScope => r.projectKey.None? && r.sourceDigest.None? && !CitesFile(r.source)
  }

  predicate ValidRecord(env: Env, key: string, r: Record) {
    && key == r.id && env.uuid(r.id) && r.revision != 0
    && ValidateContent(r.content) == Ok(r.content) && ValidateSource(r.source) == Ok(r.source)
    && r.digest == env.hash(r.content) && IsHexDigest(r.digest)
    && r.createdAt <= r.updatedAt && ValidAuthority(r)
  }

  predicate ValidFile(env: Env, m: Records) {
    |m| <= MAX_RECORDS && forall key | key in m :: ValidRecord(env, key, m[key])
  }

  // ---------- operations ----------

  predicate Visible(key: string, r: Record) {
    r.scope == UserScope || r.projectKey == Some(key)
  }

  /** Validate and write. A refusal by the validator keeps the mutated map. */
  function Commit(env: Env, s: Service, mutated: Records, result: Record, stored: bool): (Service, Result<Record, string>) {
    if !ValidFile(env, mutated) then (s.(records := mutated), Err("memory record is invalid"))
    else if !stored then (s, Err("cannot save memory"))
    else (s.(records := mutated, disk := mutated), Ok(result))
  }

  /** `fileDigest` is what hashing the cited project file gives. */
  function NewRecord(env: Env, s: Service, scope: Scope, content: string, source: string,
                     fileDigest: Result<string, string>, id: string, now: nat): Result<Record, string>
  {
    match ValidateContent(content)
    case Err(e) => Err(e)
    case Ok(text) =>
      match ValidateSource(source)
      case Err(e) => Err(e)
      case Ok(from) =>
        if scope.UserScope? && CitesFile(from) then Err("user-scope memory cannot cite project file content")
        else if scope.ProjectScope? && CitesFile(from) && fileDigest.Err? then Err(fileDigest.error)
        else
          Ok(Record(id, scope, if scope.ProjectScope? then Some(s.key) else None, text, from,
                    if scope.ProjectScope? && CitesFile(from) then Some(fileDigest.value) else None,
                    now, now, 1, env.hash(text)))
  }

  function Add(env: Env, s: Service, scope: Scope, content: string, source: Option<string>,
               fileDigest: Result<string, string>, id: string, now: nat, stored: bool): (Service, Result<Record, string>)
  {
    match NewRecord(env, s, scope, content, if source.Some? then source.value else "user-command", fileDigest, id, now)
    case Err(e) => (s, Err(e))
    case Ok(record) =>
      if |s.records| >= MAX_RECORDS then (s, Err("memory store is full"))
      else Commit(env, s, s.records[id := record], record, stored)
  }

  /** The record `id` at `expected`, as the caller's project may see it. */
  function Held(s: Service, id: string, expected: u64): Result<Record, string> {
    if id !in s.records then Err("memory not found")
    else if !Visible(s.key, s.records[id]) then Err("memory belongs to another project")
    else if s.records[id].revision != expected then Err("memory revision conflict")
    else Ok(s.records[id])
  }

  function Update(env: Env, s: Service, id: string, expected: u64, content: string, now: nat, stored: bool)
    : (Service, Result<Record, string>)
  {
    match ValidateContent(content)
    case Err(e) => (s, Err(e))
    case Ok(text) =>
      match Held(s, id, expected)
      case Err(e) => (s, Err(e))
      case Ok(was) =>
        if was.revision == U64_MAX then (s, Err("memory revision exhausted"))
        else
          var next := was.(content := text, digest := env.hash(text), updatedAt := now, revision := was.revision + 1);
          Commit(env, s, s.records[id := next], next, stored)
  }

  function Delete(env: Env, s: Service, id: string, expected: u64, stored: bool): (Service, Result<Record, string>) {
    match Held(s, id, expected)
    case Err(e) => (s, Err(e))
    case Ok(was) => Commit(env, s, s.records - {id}, was, stored)
  }

  datatype Step =
    | DoAdd(scope: Scope, content: string, source: Option<string>, fileDigest: Result<string, string>,
            id: string, now: nat, stored: bool)
    | DoUpdate(id: string, expected: u64, content: string, now: nat, stored: bool)
    | DoDelete(id: string, expected: u64, stored: bool)

  function Apply(env: Env, s: Service, step: Step): (Service, Result<Record, string>) {
    match step
    case DoAdd(scope, content, source, fileDigest, id, now, stored) =>
      Add(env, s, scope, content, source, fileDigest, id, now, stored)
    case DoUpdate(id, expected, content, now, stored) => Update(env, s, id, expected, content, now, stored)
    case DoDelete(id, expected, stored) => Delete(env, s, id, expected, stored)
  }

  // ---------- what reaches the file is valid ----------

  lemma CommitKeepsFile(env: Env, s: Service, mutated: Records, result: Record, stored: bool)
    requires ValidFile(env, s.disk)
    ensures ValidFile(env, Commit(env, s, mutated, result, stored).0.disk)
  {
  }

  lemma StepKeepsFile(env: Env, s: Service, step: Step)
    requires ValidFile(env, s.disk)
    ensures ValidFile(env, Apply(env, s, step).0.disk)
  {
    hide ValidFile, NewRecord, Held, ValidateContent, Commit;
    match step
    case DoAdd(scope, content, source, fileDigest, id, now, stored) =>
      var r := NewRecord(env, s, scope, content, if source.Some? then source.value else "user-command", fileDigest, id, now);
      if r.Ok? {
        CommitKeepsFile(env, s, s.records[id := r.value], r.value, stored);
      }
    case DoUpdate(id, expected, content, now, stored) =>
      var text, was := ValidateContent(content), Held(s, id, expected);
      if text.Ok? && was.Ok? && was.value.revision < U64_MAX {
        var next := was.value.(content := text.value, digest := env.hash(text.value), updatedAt := now,
                               revision := was.value.revision + 1);
        CommitKeepsFile(env, s, s.records[id := next], next, stored);
      }
    case DoDelete(id, expected, stored) =>
      if Held(s, id, expected).Ok? {
        CommitKeepsFile(env, s, s.records - {id}, Held(s, id, expected).value, stored);
      }
  }

  /** What the surroundings promise of a step: well-formed ids and hex digests. */
  predicate Fit(env: Env, step: Step) {
    step.DoAdd? ==> env.uuid(step.id) && (step.fileDigest.Ok? ==> IsHexDigest(step.fileDigest.value))
  }

  ghost predicate HexHash(env: Env) { forall s :: IsHexDigest(env.hash(s)) }

  lemma ValidatedIsStable(s: string)
    ensures ValidateContent(s).Ok? ==> ValidateContent(ValidateContent(s).value) == ValidateContent(s)
    ensures ValidateSource(s).Ok? ==> ValidateSource(ValidateSource(s).value) == ValidateSource(s)
  {
    TrimFixed(Trim(s));
  }

  lemma NewRecordIsValid(env: Env, s: Service, scope: Scope, content: string, source: string,
                         fileDigest: Result<string, string>, id: string, now: nat)
    requires HexHash(env) && ValidKey(s.key) && env.uuid(id) && (fileDigest.Ok? ==> IsHexDigest(fileDigest.value))
    ensures
      var r := NewRecord(env, s, scope, content, source, fileDigest, id, now);
      r.Ok? ==> ValidRecord(env, id, r.value) && Visible(s.key, r.value)
  {
    hide ValidateContent, ValidateSource, IsHexDigest, ValidKey;
    ValidatedIsStable(content);
    ValidatedIsStable(source);
  }

  lemma StoredRecordIsValid(env: Env, m: Records, id: string, r: Record)
    requires ValidFile(env, m) && (id in m || |m| < MAX_RECORDS)
    ensures ValidFile(env, m[id := r]) <==> ValidRecord(env, id, r)
  {
    hide ValidRecord;
    assert m[id := r][id] == r;
    if id in m {
      assert m[id := r].Keys == m.Keys;
    } else {
      assert m[id := r].Keys == m.Keys + {id};
    }
  }

  lemma RemovalKeepsValid(env: Env, m: Records, id: string)
    requires ValidFile(env, m) && id in m
    ensures ValidFile(env, m - {id})
  {
    hide ValidRecord;
    assert (m - {id}).Keys == m.Keys - {id};
  }

  /** The one guard whose failure leaves a change behind: the clock ran backwards. */
  predicate ClockRanBack(s: Service, step: Step) {
    && step.DoUpdate? && ValidateContent(step.content).Ok? && Held(s, step.id, step.expected).Ok?
    && s.records[step.id].revision < U64_MAX && step.now < s.records[step.id].createdAt
  }

  /**
    From a valid store, an operation that fails leaves everything unchanged,
    exactly when it is not an update stamped before the record's creation.
  */
  lemma FailureChangesNothingIff(env: Env, s: Service, step: Step)
    requires HexHash(env) && ValidFile(env, s.records) && ValidKey(s.key) && Fit(env, step)
    requires Apply(env, s, step).1.Err?
    ensures Apply(env, s, step).0 == s <==> !ClockRanBack(s, step)
  {
    hide ValidFile, ValidRecord, ValidateContent, ValidateSource;
    match step
    case DoAdd(scope, content, source, fileDigest, id, now, stored) =>
      AddKeepsValid(env, s, step);
    case DoUpdate(id, expected, content, now, stored) =>
      if ValidateContent(content).Ok? && Held(s, id, expected).Ok? && s.records[id].revision < U64_MAX {
        UpdateIsValidIff(env, s, step);
      }
    case DoDelete(id, expected, stored) =>
      if Held(s, id, expected).Ok? {
        RemovalKeepsValid(env, s.records, id);
      }
  }

  lemma AddKeepsValid(env: Env, s: Service, step: Step)
    requires HexHash(env) && ValidFile(env, s.records) && ValidKey(s.key) && Fit(env, step) && step.DoAdd?
    ensures
      var r := NewRecord(env, s, step.scope, step.content, if step.source.Some? then step.source.value else "user-command",
                         step.fileDigest, step.id, step.now);
      r.Ok? && |s.records| < MAX_RECORDS ==> ValidFile(env, s.records[step.id := r.value])
  {
    hide ValidFile, ValidRecord, NewRecord;
    var source := if step.source.Some? then step.source.value else "user-command";
    NewRecordIsValid(env, s, step.scope, step.content, source, step.fileDigest, step.id, step.now);
    var r := NewRecord(env, s, step.scope, step.content, source, step.fileDigest, step.id, step.now);
    if r.Ok? && |s.records| < MAX_RECORDS {
      StoredRecordIsValid(env, s.records, step.id, r.value);
    }
  }

  lemma UpdateIsValidIff(env: Env, s: Service, step: Step)
    requires HexHash(env) && ValidFile(env, s.records) && step.DoUpdate?
    requires ValidateContent(step.content).Ok? && Held(s, step.id, step.expected).Ok? && s.records[step.id].revision < U64_MAX
    ensures
      var was, text := s.records[step.id], ValidateContent(step.content).value;
      var next := was.(content := text, digest := env.hash(text), updatedAt := step.now, revision := was.revision + 1);
      ValidFile(env, s.records[step.id := next]) <==> was.createdAt <= step.now
  {
    hide ValidateContent, ValidateSource, IsHexDigest, ValidAuthority;
    var was, text := s.records[step.id], ValidateContent(step.content).value;
    var next := was.(content := text, digest := env.hash(text), updatedAt := step.now, revision := was.revision + 1);
    ValidatedIsStable(step.content);
    assert ValidRecord(env, step.id, was);
    StoredRecordIsValid(env, s.records, step.id, next);
    assert ValidAuthority(next) by { SameAuthority(was, next); }
  }

  lemma SameAuthority(a: Record, b: Record)
    requires ValidAuthority(a) && a.scope == b.scope && a.projectKey == b.projectKey
    requires a.source == b.source && a.sourceDigest == b.sourceDigest
    ensures ValidAuthority(b)
  {
  }

  /** The first such update does fail, and the process keeps it. */
  lemma ClockRanBackFails(env: Env, s: Service, step: Step)
    requires HexHash(env) && ValidFile(env, s.records) && ClockRanBack(s, step)
    ensures Apply(env, s, step).1.Err? && Apply(env, s, step).0 != s
  {
    hide ValidFile, ValidateContent;
    UpdateIsValidIff(env, s, step);
  }

  lemma CleanStaysValid(env: Env, s: Service, step: Step)
    requires HexHash(env) && ValidFile(env, s.records) && ValidFile(env, s.disk) && ValidKey(s.key)
    requires Fit(env, step) && !ClockRanBack(s, step)
    ensures ValidFile(env, Apply(env, s, step).0.records)
  {
    hide ValidFile, ClockRanBack, HexHash;
    StepKeepsFile(env, s, step);
    StepOutcome(env, s, step);
    if Apply(env, s, step).1.Err? {
      FailureChangesNothingIff(env, s, step);
    }
    hide Apply;
  }

  lemma EmptyIsValid(env: Env)
    ensures ValidFile(env, map[])
  {
  }

  // ---------- what a step does ----------

  /** Everything an update must not touch. */
  predicate SameOrigin(a: Record, b: Record) {
    && a.id == b.id && a.scope == b.scope && a.projectKey == b.projectKey && a.source == b.source
    && a.sourceDigest == b.sourceDigest && a.createdAt == b.createdAt
  }

  /** What one step may do to the maps: replace, add or drop one id, or nothing. */
  lemma StepOutcome(env: Env, s: Service, step: Step)
    ensures
      var (t, r) := Apply(env, s, step);
      && t.key == s.key
      && (r.Ok? ==> t.records == t.disk) && (r.Err? ==> t.disk == s.disk)
      && (step.DoAdd? && r.Ok? ==>
            && t.records == s.records[step.id := r.value] && r.value.id == step.id
            && r.value.content == Trim(step.content) && r.value.scope == step.scope
            && r.value.createdAt == r.value.updatedAt == step.now && r.value.revision == 1)
      && (step.DoUpdate? && r.Ok? ==>
            && step.id in s.records && t.records == s.records[step.id := r.value]
            && r.value.content == Trim(step.content) && r.value.updatedAt == step.now
            && SameOrigin(r.value, s.records[step.id])
            && s.records[step.id].revision == step.expected && r.value.revision == step.expected + 1)
      && (step.DoDelete? && r.Ok? ==>
            step.id in s.records && s.records[step.id].revision == step.expected && t.records == s.records - {step.id})
  {
    hide ValidFile, Trim, ValidateSource;
  }

  // ---------- isolation ----------

  /** The records of a map that a project cannot see. */
  function Foreign(key: string, m: Records): Records {
    map id | id in m && !Visible(key, m[id]) :: m[id]
  }

  /** Whatever a project does, the records it holds but cannot see stay, and are not returned. */
  lemma ForeignIsUntouched(env: Env, s: Service, step: Step)
    requires step.DoAdd? ==> step.id !in s.records
    ensures
      var (t, r) := Apply(env, s, step);
      Foreign(s.key, t.records) == Foreign(s.key, s.records) && (r.Ok? ==> Visible(s.key, r.value))
  {
    hide ValidFile, ValidateContent, ValidateSource, Foreign;
    var (t, r) := Apply(env, s, step);
    OnlyVisibleChanges(env, s, step);
    SameForeign(s.key, s.records, t.records);
  }

  lemma OnlyVisibleChanges(env: Env, s: Service, step: Step)
    requires step.DoAdd? ==> step.id !in s.records
    ensures
      var (t, r) := Apply(env, s, step);
      && (r.Ok? ==> Visible(s.key, r.value))
      && (forall id | id in s.records && !Visible(s.key, s.records[id]) :: id in t.records && t.records[id] == s.records[id])
      && (forall id | id in t.records && !Visible(s.key, t.records[id]) :: id in s.records && t.records[id] == s.records[id])
  {
    hide ValidFile, ValidateContent, ValidateSource;
  }

  lemma SameForeign(key: string, a: Records, b: Records)
    requires forall id | id in a && !Visible(key, a[id]) :: id in b && b[id] == a[id]
    requires forall id | id in b && !Visible(key, b[id]) :: id in a && b[id] == a[id]
    ensures Foreign(key, a) == Foreign(key, b)
  {
  }

  /**
    A successful commit leaves the records its project cannot see as the file had
    them, none lost and none brought back, exactly when the service's map and the
    file agree on those records.
  */
  lemma CommitKeepsForeignIff(env: Env, s: Service, step: Step)
    requires (step.DoAdd? ==> step.id !in s.records) && Apply(env, s, step).1.Ok?
    ensures Foreign(s.key, Apply(env, s, step).0.disk) == Foreign(s.key, s.disk) <==>
            Foreign(s.key, s.records) == Foreign(s.key, s.disk)
  {
    hide Apply, Foreign;
    ForeignIsUntouched(env, s, step);
    StepOutcome(env, s, step);
  }

  // ---------- compare-and-set against the file ----------

  /** The record an update makes of `was`. */
  function Updated(env: Env, was: Record, content: string, now: nat): Record
    requires was.revision < U64_MAX
  {
    was.(content := Trim(content), digest := env.hash(Trim(content)), updatedAt := now, revision := was.revision + 1)
  }

  predicate SameRevision(a: Records, b: Records, id: string) {
    id in a && id in b && a[id].revision == b[id].revision
  }

  /**
    An accepted update names the file's revision exactly when the service's map
    and the file hold the record at one revision; and then, for two copies of the
    same origin, it is one step on from the file's copy.
  */
  lemma UpdateNamesFileIff(env: Env, s: Service, step: Step)
    requires step.DoUpdate? && Apply(env, s, step).1.Ok?
    ensures
      var named := step.id in s.disk && s.disk[step.id].revision == step.expected;
      && (named <==> SameRevision(s.records, s.disk, step.id))
      && (step.id in s.disk && SameOrigin(s.records[step.id], s.disk[step.id]) && s.disk[step.id].revision < U64_MAX ==>
            (named <==> Apply(env, s, step).0.disk[step.id] == Updated(env, s.disk[step.id], step.content, step.now)))
  {
    hide ValidFile, Trim, ValidateSource;
  }
}
