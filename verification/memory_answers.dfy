/**
  Exactly when an explicit memory is accepted, changed or dropped, and what the
  record then holds; and which records a search prefers.
*/
module MemoryAnswers {
  import opened Wrappers
  import opened Text
  import opened Memory
  import opened MemoryServiceObject

  // ---------- texts ----------

  /** Something to keep, within 16 KiB, with no control character but line breaks and tabs. */
  predicate Keepable(content: string) {
    var t := Trim(content);
    && t != "" && ByteLen(t) <= 16_384
    && forall i | 0 <= i < |t| :: !IsControl(t[i]) || t[i] in "\n\t"
  }

  /** A source named in one line of at most 1 KiB. */
  predicate Nameable(source: string) {
    var t := Trim(source);
    t != "" && ByteLen(t) <= 1024 && forall i | 0 <= i < |t| :: !IsControl(t[i])
  }

  lemma TextsIff(s: string)
    ensures ValidateContent(s) == (if Keepable(s) then Ok(Trim(s)) else Err("memory content refused"))
    ensures ValidateSource(s) == if Nameable(s) then Ok(Trim(s)) else Err("memory source refused")
  {
    hide Trim, ByteLen, IsControl;
  }

  // ---------- adding ----------

  /** What an add without a source says about itself. */
  function SourceOf(source: Option<string>): string {
    match source case Some(s) => s case None => "user-command"
  }

  /** A user's memory cites no file; a project's file citation needs the digest of the file. */
  predicate Citable(scope: Scope, source: string, fileDigest: Result<string, string>) {
    "file:" <= Trim(source) ==> scope == ProjectScope && fileDigest.Ok?
  }

  predicate Added(env: Env, key: string, step: Step, r: Record)
    requires step.DoAdd?
  {
    && r.id == step.id && r.scope == step.scope && r.content == Trim(step.content)
    && r.source == Trim(SourceOf(step.source)) && r.digest == env.hash(Trim(step.content))
    && r.projectKey == (if step.scope == ProjectScope then Some(key) else None)
    && r.sourceDigest == (if "file:" <= r.source && step.fileDigest.Ok? then Some(step.fileDigest.value) else None)
    && r.createdAt == r.updatedAt == step.now && r.revision == 1
  }

  lemma CommitAnswers(env: Env, s: Service, mutated: Records, result: Record, stored: bool)
    ensures
      var (t, r) := Commit(env, s, mutated, result, stored);
      && (r.Ok? <==> ValidFile(env, mutated) && stored)
      && (r.Ok? ==> r.value == result && t.records == t.disk == mutated)
      && (r.Err? && ValidFile(env, mutated) ==> t == s)
  {
    hide ValidFile;
  }

  lemma NewRecordAnswers(env: Env, s: Service, step: Step)
    requires step.DoAdd?
    ensures
      var r := NewRecord(env, s, step.scope, step.content, if step.source.Some? then step.source.value else "user-command",
                         step.fileDigest, step.id, step.now);
      && (r.Ok? <==>
            Keepable(step.content) && Nameable(SourceOf(step.source))
            && Citable(step.scope, SourceOf(step.source), step.fileDigest))
      && (r.Ok? ==> Added(env, s.key, step, r.value))
  {
    TextsIff(step.content);
    TextsIff(SourceOf(step.source));
    hide Trim, Keepable, Nameable, ValidateContent, ValidateSource;
  }

  /** From a valid store, with a fresh id and a working hash. */
  lemma AddAnswers(env: Env, s: Service, step: Step)
    requires HexHash(env) && ValidFile(env, s.records) && ValidKey(s.key) && Fit(env, step) && step.DoAdd?
    ensures
      var (t, r) := Apply(env, s, step);
      && (r.Ok? <==>
            && Keepable(step.content) && Nameable(SourceOf(step.source))
            && Citable(step.scope, SourceOf(step.source), step.fileDigest)
            && |s.records| < 1000 && step.stored)
      && (r.Ok? ==> Added(env, s.key, step, r.value) && t.records == t.disk == s.records[step.id := r.value])
      && (r.Err? ==> t == s)
  {
    hide ValidFile, Keepable, Nameable, Citable, ValidKey, HexHash, NewRecord, Commit, Fit, Added;
    NewRecordAnswers(env, s, step);
    AddKeepsValid(env, s, step);
    var r := NewRecord(env, s, step.scope, step.content, if step.source.Some? then step.source.value else "user-command",
                       step.fileDigest, step.id, step.now);
    if r.Ok? {
      CommitAnswers(env, s, s.records[step.id := r.value], r.value, step.stored);
    }
  }

  /** Whose record it may be: a project's, or a user's, who cites no file. */
  predicate Owned(r: Record) {
    if r.scope == ProjectScope then
      && r.projectKey.Some? && r.projectKey.value != "" && ByteLen(r.projectKey.value) <= 4096
      && (r.sourceDigest.Some? <==> "file:" <= r.source) && (r.sourceDigest.Some? ==> IsHexDigest(r.sourceDigest.value))
    else r.projectKey == None && r.sourceDigest == None && !("file:" <= r.source)
  }

  /** A record as it may be stored under `id`. */
  predicate Storable(env: Env, id: string, r: Record) {
    && r.id == id && env.uuid(id) && r.revision >= 1 && r.createdAt <= r.updatedAt && Owned(r)
    && Keepable(r.content) && Trim(r.content) == r.content && Nameable(r.source) && Trim(r.source) == r.source
    && r.digest == env.hash(r.content) && IsHexDigest(r.digest)
  }

  lemma OwnedIff(r: Record)
    ensures ValidAuthority(r) <==> Owned(r)
  {
    hide IsHexDigest, ByteLen;
  }

  lemma RecordIff(env: Env, id: string, r: Record)
    ensures ValidRecord(env, id, r) <==> Storable(env, id, r)
  {
    hide Trim, Keepable, Nameable, ValidateContent, ValidateSource, ValidAuthority, Owned, IsHexDigest;
    TextsIff(r.content);
    TextsIff(r.source);
    OwnedIff(r);
  }

  /** Exactly what validation lets into a store, or back out of its file. */
  lemma StoredRecordsAre(env: Env, m: Records)
    ensures ValidFile(env, m) <==> |m| <= 1000 && forall id | id in m :: Storable(env, id, m[id])
  {
    hide ValidRecord, Storable;
    forall id | id in m
      ensures ValidRecord(env, id, m[id]) <==> Storable(env, id, m[id])
    {
      RecordIff(env, id, m[id]);
    }
  }

  // ---------- changing and dropping ----------

  /** The record a caller of this project may change at this revision. */
  predicate InHand(s: Service, id: string, expected: u64) {
    && id in s.records && s.records[id].revision == expected
    && (s.records[id].scope == UserScope || s.records[id].projectKey == Some(s.key))
  }

  lemma HeldIff(s: Service, id: string, expected: u64)
    ensures Held(s, id, expected).Ok? <==> InHand(s, id, expected)
    ensures Held(s, id, expected).Ok? ==> Held(s, id, expected) == Ok(s.records[id])
  {
  }

  /** What an update makes of a record. */
  function Changed(env: Env, was: Record, step: Step): Record
    requires step.DoUpdate? && step.expected < U64_MAX
  {
    was.(content := Trim(step.content), digest := env.hash(Trim(step.content)), updatedAt := step.now,
         revision := step.expected + 1)
  }

  lemma UpdateAnswers(env: Env, s: Service, step: Step)
    requires HexHash(env) && ValidFile(env, s.records) && step.DoUpdate?
    ensures
      var (t, r) := Apply(env, s, step);
      && (r.Ok? <==>
            && Keepable(step.content) && InHand(s, step.id, step.expected) && step.expected < U64_MAX
            && s.records[step.id].createdAt <= step.now && step.stored)
      && (r.Ok? ==>
            r.value == Changed(env, s.records[step.id], step) && t.records == t.disk == s.records[step.id := r.value])
  {
    hide ValidFile, Trim, Keepable, ValidateContent, HexHash, Held, Commit, InHand;
    TextsIff(step.content);
    HeldIff(s, step.id, step.expected);
    HandIsThere(s, step.id, step.expected);
    if Keepable(step.content) && InHand(s, step.id, step.expected) && step.expected < U64_MAX {
      UpdateIsValidIff(env, s, step);
      var next := Changed(env, s.records[step.id], step);
      CommitAnswers(env, s, s.records[step.id := next], next, step.stored);
    }
  }

  lemma HandIsThere(s: Service, id: string, expected: u64)
    ensures InHand(s, id, expected) ==> id in s.records && s.records[id].revision == expected
  {
  }

  lemma DeleteAnswers(env: Env, s: Service, step: Step)
    requires ValidFile(env, s.records) && step.DoDelete?
    ensures
      var (t, r) := Apply(env, s, step);
      && (r.Ok? <==> InHand(s, step.id, step.expected) && step.stored)
      && (r.Ok? ==> r.value == s.records[step.id] && t.records == t.disk == s.records - {step.id})
      && (r.Err? ==> t == s)
  {
    hide ValidFile, Held, Commit, InHand;
    HeldIff(s, step.id, step.expected);
    HandIsThere(s, step.id, step.expected);
    if InHand(s, step.id, step.expected) {
      RemovalKeepsValid(env, s.records, step.id);
      CommitAnswers(env, s, s.records - {step.id}, s.records[step.id], step.stored);
    }
  }

  // ---------- the order of hits ----------

  predicate TextLess(a: string, b: string) {
    if a == "" then b != "" else if b == "" then false
    else a[0] < b[0] || (a[0] == b[0] && TextLess(a[1..], b[1..]))
  }

  /** More terms matched, then changed more recently, then the smaller id. */
  predicate Better(score: Record -> nat, a: Record, b: Record) {
    if score(a) != score(b) then score(a) > score(b)
    else if a.updatedAt != b.updatedAt then a.updatedAt > b.updatedAt
    else TextLess(a.id, b.id)
  }

  predicate Ranked(score: Record -> nat, records: seq<Record>) {
    forall i, j | 0 <= i < j < |records| :: Better(score, records[i], records[j])
  }

  lemma {:induction false} MatchingIsRanked(key: string, ordered: seq<Record>, score: Record -> nat)
    requires Ranked(score, ordered)
    ensures Ranked(score, Matching(key, ordered, score))
  {
    hide Better;
    if ordered != [] {
      var n := |ordered| - 1;
      var before := Matching(key, ordered[..n], score);
      MatchingIsRanked(key, ordered[..n], score);
      forall i | 0 <= i < |before|
        ensures Better(score, before[i], ordered[n])
      {
        assert before[i] in ordered[..n];
        var k :| 0 <= k < n && ordered[k] == before[i];
      }
    }
  }

  lemma {:induction false} PickIsRanked(score: Record -> nat, ranked: seq<Record>, size: Record -> nat, budget: nat)
    requires Ranked(score, ranked)
    ensures Ranked(score, Pick(ranked, size, budget))
  {
    hide Better, Weight;
    if ranked != [] {
      var n := |ranked| - 1;
      var before := Pick(ranked[..n], size, budget);
      PickIsRanked(score, ranked[..n], size, budget);
      PickedAreRanked(ranked[..n], size, budget);
      forall i | 0 <= i < |before|
        ensures Better(score, before[i], ranked[n])
      {
        assert before[i] in ranked[..n];
        var k :| 0 <= k < n && ranked[k] == before[i];
      }
    }
  }

  /**
    Among the visible records that match, a search looks at the best ones, at least
    one and at most ten of them as asked, and every other match is worse than all
    of these; the hits it returns are in rank order.
  */
  lemma BestAreTaken(key: string, ordered: seq<Record>, score: Record -> nat, size: Record -> nat, topK: nat, maxBytes: nat)
    requires Ranked(score, ordered)
    ensures
      var matching := Matching(key, ordered, score);
      var asked := if topK == 0 then 1 else if topK < 10 then topK else 10;
      var top := FirstOf(matching, Clamp(topK, 1, 10));
      && |top| == (if |matching| < asked then |matching| else asked)
      && (forall r | r in ordered && Visible(key, r) && score(r) > 0 ::
            r in top || forall i | 0 <= i < |top| :: Better(score, top[i], r))
      && Hits(key, ordered, score, size, topK, maxBytes) == Pick(top, size, Clamp(maxBytes, 1, 16_384))
      && Ranked(score, Hits(key, ordered, score, size, topK, maxBytes))
  {
    hide Matching, Pick, Better;
    MatchingIsRanked(key, ordered, score);
    var matching := Matching(key, ordered, score);
    var top := FirstOf(matching, Clamp(topK, 1, 10));
    PickIsRanked(score, top, size, Clamp(maxBytes, 1, 16_384));
    forall r | r in ordered && Visible(key, r) && score(r) > 0
      ensures r in top || forall i | 0 <= i < |top| :: Better(score, top[i], r)
    {
      var k :| 0 <= k < |ordered| && ordered[k] == r;
      assert ordered[k] in matching;
      var m :| 0 <= m < |matching| && matching[m] == r;
    }
  }
}
