/**
  MemoryService of src/memory.rs as an object, and the bounded retrieval that
  feeds memories to a prompt.
*/
module MemoryServiceObject {
  import opened Wrappers
  import opened Text
  import opened Utf8
  import opened Memory

  const MAX_TOP_K := 10
  const DEFAULT_TOP_K := 5
  const MAX_RESULT_BYTES := 16384
  const MAX_INJECTION_BYTES := 8192

  // ---------- the bounded query ----------

  predicate IsBoundary(s: string, offset: nat) {
    BytesUpTo(s, Fitting(s, offset)) == offset
  }

  lemma {:induction false} BytesSplit(a: string, b: string, k: nat)
    requires |a| <= k <= |a| + |b|
    ensures BytesUpTo(a + b, k) == ByteLen(a) + BytesUpTo(b, k - |a|)
  {
    if k == |a| {
      BytesOfPrefix(a + b, a, k);
    } else {
      BytesSplit(a, b, k - 1);
    }
  }

  lemma ByteLenOfConcat(a: string, b: string)
    ensures ByteLen(a + b) == ByteLen(a) + ByteLen(b)
  {
    BytesSplit(a, b, |a| + |b|);
  }

  /** First character of the longest ending of at most `max` bytes. */
  ghost predicate StartsTail(s: string, k: nat, max: nat) {
    && k <= |s| && ByteLen(s[k..]) <= max
    && (k > 0 ==> ByteLen(s[k - 1..]) > max)
  }

  lemma CutBytes(s: string, k: nat)
    requires k <= |s|
    ensures ByteLen(s) == BytesUpTo(s, k) + ByteLen(s[k..]) && ByteLen(s[..k]) == BytesUpTo(s, k)
  {
    assert s == s[..k] + s[k..];
    ByteLenOfConcat(s[..k], s[k..]);
    BytesOfPrefix(s, s[..k], k);
  }

  /** Steps back from byte 2047 to the start of a character. */
  method HeadEnd(p: string) returns (head: nat)
    ensures head == Fitting(p, 2047)
  {
    hide Fitting, BytesUpTo;
    var end: nat := 2047;
    while !IsBoundary(p, end)
      invariant Fitting(p, end) == Fitting(p, 2047) && end <= 2047
      decreases end
    {
      NotABoundary(p, end);
      end := end - 1;
    }
    return Fitting(p, end);
  }

  /** Steps forward from the last 2048 bytes to the start of a character. */
  method TailStart(p: string) returns (tail: nat)
    requires ByteLen(p) >= 2048
    ensures StartsTail(p, tail, 2048)
  {
    hide Fitting, BytesUpTo, ByteLen;
    var len := ByteLen(p);
    var start: nat := len - 2048;
    while !IsBoundary(p, start)
      invariant len - 2048 <= start <= len
      invariant forall k | 0 <= k <= |p| && BytesUpTo(p, k) < start :: BytesUpTo(p, k) < len - 2048
      decreases len - start
    {
      EndIsABoundary(p);
      PassNoBoundary(p, start);
      start := start + 1;
    }
    tail := Fitting(p, start);
    CutBytes(p, tail);
    if tail > 0 {
      CutBytes(p, tail - 1);
      BytesGrow(p, tail - 1, tail);
      assert BytesUpTo(p, tail - 1) < start;
    }
  }

  /**
    A prompt that fits is taken whole; otherwise the characters that fit in 2047
    bytes at the front, a space, and those that fit in 2048 bytes at the end.
  */
  method BoundedInjectionQuery(prompt: string) returns (query: string)
    ensures ByteLen(query) <= MAX_QUERY_BYTES
    ensures ByteLen(Trim(prompt)) <= MAX_QUERY_BYTES ==> query == Trim(prompt)
    ensures ByteLen(Trim(prompt)) > MAX_QUERY_BYTES ==>
              exists k: nat :: StartsTail(Trim(prompt), k, 2048) &&
                query == TruncateUtf8(Trim(prompt), 2047) + " " + Trim(prompt)[k..]
  {
    var p := Trim(prompt);
    if ByteLen(p) <= MAX_QUERY_BYTES {
      return p;
    }
    hide Trim, Fitting, BytesUpTo, ByteLen;
    var head := HeadEnd(p);
    var tail := TailStart(p);
    query := p[..head] + " " + p[tail..];
    CutBytes(p, head);
    ByteLenOfConcat(p[..head] + " ", p[tail..]);
    ByteLenOfConcat(p[..head], " ");
    SpaceIsOneByte();
  }

  lemma SpaceIsOneByte()
    ensures ByteLen(" ") == 1
  {
    assert BytesUpTo(" ", 1) == BytesUpTo(" ", 0) + CharBytes(' ');
  }

  lemma NotABoundary(s: string, end: nat)
    requires !IsBoundary(s, end)
    ensures end > 0 && Fitting(s, end - 1) == Fitting(s, end)
  {
    hide Fitting;
    FittingIsUnique(s, end - 1, Fitting(s, end));
  }

  lemma EndIsABoundary(s: string)
    ensures IsBoundary(s, ByteLen(s))
  {
    TruncateKeepsWhatFits(s, ByteLen(s));
  }

  lemma PassNoBoundary(s: string, start: nat)
    requires !IsBoundary(s, start)
    ensures forall k | 0 <= k <= |s| && BytesUpTo(s, k) < start + 1 :: BytesUpTo(s, k) < start
  {
    hide Fitting;
    forall k | 0 <= k <= |s|
      ensures BytesUpTo(s, k) != start
    {
      if BytesUpTo(s, k) == start {
        if k < |s| {
          BytesGrow(s, k, k + 1);
        }
        FittingIsUnique(s, start, k);
      }
    }
  }

  /** What `search` asks of a query before it looks at any record. */
  predicate SearchAccepts(query: string) {
    Trim(query) != "" && ByteLen(query) <= MAX_QUERY_BYTES
  }

  /** The bounded query of a prompt is searchable exactly when the prompt is not blank. */
  lemma BoundedQueryIsSearchableIff(prompt: string, query: string, k: nat)
    requires ByteLen(query) <= MAX_QUERY_BYTES
    requires if ByteLen(Trim(prompt)) <= MAX_QUERY_BYTES then query == Trim(prompt)
             else k <= |Trim(prompt)| && query == TruncateUtf8(Trim(prompt), 2047) + " " + Trim(prompt)[k..]
    ensures SearchAccepts(query) <==> Trim(prompt) != ""
  {
    var p := Trim(prompt);
    assert ByteLen("") == 0;
    hide Trim, ByteLen, SkipBlanks, DropBlanks;
    TrimFixed(p);
    TrimTwice(prompt);
    if p != "" && ByteLen(p) > MAX_QUERY_BYTES {
      hide Fitting;
      FirstCharFits(p);
      assert query[0] == p[0];
      NotBlank(query);
    }
  }

  lemma TrimTwice(s: string)
    ensures Trim(Trim(s)) == Trim(s) && (Trim(s) != "" ==> Bare(Trim(s)))
  {
    TrimFixed(Trim(s));
  }

  lemma FirstCharFits(s: string)
    requires s != ""
    ensures Fitting(s, 2047) > 0
  {
    assert BytesUpTo(s, 1) == BytesUpTo(s, 0) + CharBytes(s[0]);
  }

  lemma NotBlank(s: string)
    requires s != "" && !IsWhitespace(s[0])
    ensures Trim(s) != ""
  {
    FirstStays(s, |s|);
    assert SkipBlanks(s, 0) == 0;
  }

  lemma {:induction false} FirstStays(s: string, high: nat)
    requires s != "" && !IsWhitespace(s[0]) && 0 < high <= |s|
    ensures DropBlanks(s, 0, high) > 0
  {
    if high > 1 && IsWhitespace(s[high - 1]) {
      FirstStays(s, high - 1);
    }
  }

  // ---------- picking hits ----------

  function Weight(picked: seq<Record>, size: Record -> nat): nat {
    if picked == [] then 0 else Weight(picked[..|picked| - 1], size) + size(picked[|picked| - 1]) + 512
  }

  /** Hits in rank order; one that does not fit is passed over. */
  function Pick(ranked: seq<Record>, size: Record -> nat, budget: nat): (r: seq<Record>)
    ensures Weight(r, size) <= budget && |r| <= |ranked|
  {
    if ranked == [] then []
    else
      var n := |ranked| - 1;
      var before := Pick(ranked[..n], size, budget);
      if Weight(before, size) + size(ranked[n]) + 512 > budget then before
      else
        assert (before + [ranked[n]])[..|before|] == before;
        before + [ranked[n]]
  }

  lemma PickOne(ranked: seq<Record>, size: Record -> nat, budget: nat, n: nat)
    requires n < |ranked|
    ensures
      var before, after := Pick(ranked[..n], size, budget), Pick(ranked[..n + 1], size, budget);
      if Weight(before, size) + size(ranked[n]) + 512 > budget then after == before
      else after == before + [ranked[n]] && Weight(after, size) == Weight(before, size) + size(ranked[n]) + 512
  {
    var before := Pick(ranked[..n], size, budget);
    assert ranked[..n + 1][..n] == ranked[..n];
    assert (before + [ranked[n]])[..|before|] == before;
  }

  lemma PickOnlyAppends(ranked: seq<Record>, size: Record -> nat, budget: nat, n: nat)
    requires n < |ranked|
    ensures Pick(ranked[..n], size, budget) <= Pick(ranked[..n + 1], size, budget)
  {
    hide Pick, Weight;
    PickOne(ranked, size, budget, n);
  }

  lemma PrefixOfPrefix(a: seq<Record>, b: seq<Record>, c: seq<Record>)
    requires a <= b <= c
    ensures a <= c
  {
  }

  lemma {:induction false} PickGrows(ranked: seq<Record>, size: Record -> nat, budget: nat, n: nat, m: nat)
    requires n <= m <= |ranked|
    ensures Pick(ranked[..n], size, budget) <= Pick(ranked[..m], size, budget)
    decreases m
  {
    hide Pick;
    if n < m {
      PickGrows(ranked, size, budget, n, m - 1);
      PickOnlyAppends(ranked, size, budget, m - 1);
      PrefixOfPrefix(Pick(ranked[..n], size, budget), Pick(ranked[..m - 1], size, budget), Pick(ranked[..m], size, budget));
    }
  }

  /** A hit is passed over only for want of room beside better ones. */
  lemma PickIff(ranked: seq<Record>, size: Record -> nat, budget: nat, n: nat)
    requires n < |ranked|
    ensures
      var before, all := Pick(ranked[..n], size, budget), Pick(ranked, size, budget);
      && before <= all
      && (Weight(before, size) + size(ranked[n]) + 512 <= budget ==> before + [ranked[n]] <= all)
  {
    hide Pick, Weight;
    PickOne(ranked, size, budget, n);
    PickGrows(ranked, size, budget, n, |ranked|);
    PickGrows(ranked, size, budget, n + 1, |ranked|);
    assert ranked[..|ranked|] == ranked;
  }

  method PickLoop(ranked: seq<Record>, size: Record -> nat, budget: nat) returns (output: seq<Record>)
    ensures output == Pick(ranked, size, budget)
  {
    hide Pick, Weight;
    output := [];
    var used, n := 0, 0;
    PickNone(size, budget);
    assert ranked[..0] == [];
    while n < |ranked|
      invariant n <= |ranked| && output == Pick(ranked[..n], size, budget) && used == Weight(output, size)
    {
      PickOne(ranked, size, budget, n);
      var estimated := size(ranked[n]) + 512;
      if used + estimated <= budget {
        used := used + estimated;
        output := output + [ranked[n]];
      }
      n := n + 1;
    }
    assert ranked[..n] == ranked;
  }

  lemma PickNone(size: Record -> nat, budget: nat)
    ensures Pick([], size, budget) == [] && Weight([], size) == 0
  {
  }

  lemma {:induction false} PickedAreRanked(ranked: seq<Record>, size: Record -> nat, budget: nat)
    ensures forall i | 0 <= i < |Pick(ranked, size, budget)| :: Pick(ranked, size, budget)[i] in ranked
  {
    if ranked != [] {
      PickedAreRanked(ranked[..|ranked| - 1], size, budget);
    }
  }

  function Clamp(n: nat, low: nat, high: nat): nat
    requires low <= high
  {
    if n < low then low else if n > high then high else n
  }

  /** The visible records that match, in the order given. */
  function Matching(key: string, ordered: seq<Record>, score: Record -> nat): (r: seq<Record>)
    ensures forall i | 0 <= i < |r| :: r[i] in ordered && Visible(key, r[i]) && score(r[i]) > 0
    ensures forall i | 0 <= i < |ordered| && Visible(key, ordered[i]) && score(ordered[i]) > 0 :: ordered[i] in r
  {
    if ordered == [] then []
    else
      var last := ordered[|ordered| - 1];
      Matching(key, ordered[..|ordered| - 1], score) + (if Visible(key, last) && score(last) > 0 then [last] else [])
  }

  method MatchLoop(key: string, ordered: seq<Record>, score: Record -> nat) returns (ranked: seq<Record>)
    ensures ranked == Matching(key, ordered, score)
  {
    ranked := [];
    var i := 0;
    while i < |ordered|
      invariant i <= |ordered| && ranked == Matching(key, ordered[..i], score)
    {
      assert ordered[..i + 1][..i] == ordered[..i];
      if Visible(key, ordered[i]) && score(ordered[i]) > 0 {
        ranked := ranked + [ordered[i]];
      }
      i := i + 1;
    }
    assert ordered[..i] == ordered;
  }

  function FirstOf(records: seq<Record>, limit: nat): seq<Record> {
    if |records| > limit then records[..limit] else records
  }

  /** What a search finds: the best visible matches, picked into the byte budget. */
  function Hits(key: string, ordered: seq<Record>, score: Record -> nat, size: Record -> nat, topK: nat, maxBytes: nat)
    : seq<Record>
  {
    Pick(FirstOf(Matching(key, ordered, score), Clamp(topK, 1, MAX_TOP_K)), size, Clamp(maxBytes, 1, MAX_RESULT_BYTES))
  }

  /** A search never shows another project's records, never too many, never too much. */
  lemma HitsAreVisible(key: string, ordered: seq<Record>, score: Record -> nat, size: Record -> nat, topK: nat, maxBytes: nat)
    ensures
      var hits := Hits(key, ordered, score, size, topK, maxBytes);
      && |hits| <= MAX_TOP_K && Weight(hits, size) <= MAX_RESULT_BYTES
      && forall i | 0 <= i < |hits| :: hits[i] in ordered && Visible(key, hits[i]) && score(hits[i]) > 0
  {
    hide Matching, Pick, Weight;
    var matching := Matching(key, ordered, score);
    PickedAreRanked(FirstOf(matching, Clamp(topK, 1, MAX_TOP_K)), size, Clamp(maxBytes, 1, MAX_RESULT_BYTES));
  }

  // ---------- the service ----------

  class MemoryService {
    const env: Env
    const projectKey: string
    var records: Records
    var saved: Records

    function State(): Service
      reads this
    {
      Service(projectKey, records, saved)
    }

    /** Opens a file that passes validation. */
    constructor (env: Env, projectKey: string, file: Records)
      requires ValidFile(env, file)
      ensures this.env == env && State() == Service(projectKey, file, file)
    {
      this.env, this.projectKey := env, projectKey;
      records, saved := file, file;
    }

    method ValidateMemoryFile() returns (ok: bool)
      ensures ok == ValidFile(env, records)
    {
      if |records| > MAX_RECORDS {
        return false;
      }
      hide ValidRecord;
      var rest := records.Keys;
      while rest != {}
        invariant rest <= records.Keys
        invariant forall key | key in records && key !in rest :: ValidRecord(env, key, records[key])
      {
        var key :| key in rest;
        if !ValidRecord(env, key, records[key]) {
          return false;
        }
        rest := rest - {key};
      }
      return true;
    }

    /** The end of every mutation; `backup` is the map before it. */
    method Finish(backup: Records, result: Record, stored: bool) returns (r: Result<Record, string>)
      modifies this`records, this`saved
      ensures
        var (t, out) := Commit(env, old(State()).(records := backup), old(records), result, stored);
        State() == t && r == out
    {
      var ok := ValidateMemoryFile();
      if !ok {
        return Err("memory record is invalid");
      }
      if !stored {
        records := backup;
        return Err("cannot save memory");
      }
      saved := records;
      return Ok(result);
    }

    method AddRecord(scope: Scope, content: string, source: Option<string>, fileDigest: Result<string, string>,
                     id: string, now: nat, stored: bool) returns (r: Result<Record, string>)
      modifies this`records, this`saved
      ensures (State(), r) == Add(env, old(State()), scope, content, source, fileDigest, id, now, stored)
    {
      hide ValidFile, NewRecord;
      var made := NewRecord(env, State(), scope, content, if source.Some? then source.value else "user-command",
                            fileDigest, id, now);
      if made.Err? {
        return made;
      }
      if |records| >= MAX_RECORDS {
        return Err("memory store is full");
      }
      var backup := records;
      records := records[id := made.value];
      r := Finish(backup, made.value, stored);
    }

    method UpdateRecord(id: string, expected: u64, content: string, now: nat, stored: bool)
      returns (r: Result<Record, string>)
      modifies this`records, this`saved
      ensures (State(), r) == Update(env, old(State()), id, expected, content, now, stored)
    {
      hide ValidFile, ValidateContent;
      var text := ValidateContent(content);
      if text.Err? {
        return Err(text.error);
      }
      var was := Held(State(), id, expected);
      if was.Err? {
        return was;
      }
      if was.value.revision == U64_MAX {
        return Err("memory revision exhausted");
      }
      var next := was.value.(content := text.value, digest := env.hash(text.value), updatedAt := now,
                             revision := was.value.revision + 1);
      var backup := records;
      records := records[id := next];
      r := Finish(backup, next, stored);
    }

    method DeleteRecord(id: string, expected: u64, stored: bool) returns (r: Result<Record, string>)
      modifies this`records, this`saved
      ensures (State(), r) == Delete(env, old(State()), id, expected, stored)
    {
      hide ValidFile;
      var was := Held(State(), id, expected);
      if was.Err? {
        return was;
      }
      var backup := records;
      records := records - {id};
      r := Finish(backup, was.value, stored);
    }

    /**
      `ordered` lists all records by rank and `score` is how many terms match:
      the visible matching records among them, the best ones that fit.
    */
    method Search(query: string, ordered: seq<Record>, score: Record -> nat, size: Record -> nat, topK: nat, maxBytes: nat)
      returns (r: Result<seq<Record>, string>)
      ensures r == if SearchAccepts(query) then Ok(Hits(projectKey, ordered, score, size, topK, maxBytes))
                   else Err("memory query must contain 1..=4096 UTF-8 bytes")
    {
      if Trim(query) == "" || ByteLen(query) > MAX_QUERY_BYTES {
        return Err("memory query must contain 1..=4096 UTF-8 bytes");
      }
      var limit, budget := Clamp(topK, 1, MAX_TOP_K), Clamp(maxBytes, 1, MAX_RESULT_BYTES);
      var ranked := MatchLoop(projectKey, ordered, score);
      if |ranked| > limit {
        ranked := ranked[..limit];
      }
      var hits := PickLoop(ranked, size, budget);
      return Ok(hits);
    }

    /** Memories for a prompt: the first hits whose lines fit; only a blank prompt is refused. */
    method Injection(prompt: string, ordered: seq<Record>, score: Record -> nat, size: Record -> nat, line: Record -> string)
      returns (r: Result<(string, seq<Record>), string>)
      ensures r.Err? <==> Trim(prompt) == ""
      ensures r.Ok? ==>
                Injected(Hits(projectKey, ordered, score, size, DEFAULT_TOP_K, MAX_INJECTION_BYTES), line, r.value.0, r.value.1)
    {
      hide Trim, ByteLen, Lines, StartsTail, Hits;
      var query := BoundedInjectionQuery(prompt);
      QueryIsSearchableIff(prompt, query);
      var hits := Search(query, ordered, score, size, DEFAULT_TOP_K, MAX_INJECTION_BYTES);
      if hits.Err? {
        return Err(hits.error);
      }
      if hits.value == [] {
        EmptyIsShort();
        return Ok(("", []));
      }
      var text, count := InjectLoop(hits.value, line);
      return Ok((text, hits.value[..count]));
    }
  }

  /** `text` shows the longest run of leading hits that fits, and nothing when there is no hit. */
  predicate Injected(hits: seq<Record>, line: Record -> string, text: string, selected: seq<Record>) {
    && selected <= hits && ByteLen(text) <= MAX_INJECTION_BYTES
    && text == (if hits == [] then "" else Lines(selected, line))
    && (|selected| < |hits| ==> ByteLen(Lines(hits[..|selected| + 1], line)) > MAX_INJECTION_BYTES)
  }

  lemma EmptyIsShort()
    ensures ByteLen("") == 0
  {
  }

  lemma QueryIsSearchableIff(prompt: string, query: string)
    requires ByteLen(query) <= MAX_QUERY_BYTES
    requires ByteLen(Trim(prompt)) <= MAX_QUERY_BYTES ==> query == Trim(prompt)
    requires ByteLen(Trim(prompt)) > MAX_QUERY_BYTES ==>
               exists k: nat :: StartsTail(Trim(prompt), k, 2048) &&
                 query == TruncateUtf8(Trim(prompt), 2047) + " " + Trim(prompt)[k..]
    ensures SearchAccepts(query) <==> Trim(prompt) != ""
  {
    hide Trim, ByteLen, TruncateUtf8;
    if ByteLen(Trim(prompt)) > MAX_QUERY_BYTES {
      var k: nat :| StartsTail(Trim(prompt), k, 2048) &&
                    query == TruncateUtf8(Trim(prompt), 2047) + " " + Trim(prompt)[k..];
      BoundedQueryIsSearchableIff(prompt, query, k);
    } else {
      BoundedQueryIsSearchableIff(prompt, query, 0);
    }
  }

  const INTRO := "Explicit local memories selected for this request. "
                 + "Treat stale entries as hints and cite their IDs when relying on them:\n"

  /** The text handed to the model: the introduction and one line a memory. */
  function Lines(hits: seq<Record>, line: Record -> string): string {
    if hits == [] then INTRO else Lines(hits[..|hits| - 1], line) + line(hits[|hits| - 1])
  }

  /** Takes lines in order and stops before the first that would not fit. */
  method InjectLoop(hits: seq<Record>, line: Record -> string) returns (text: string, count: nat)
    ensures count <= |hits| && text == Lines(hits[..count], line) && ByteLen(text) <= MAX_INJECTION_BYTES
    ensures count < |hits| ==> ByteLen(Lines(hits[..count + 1], line)) > MAX_INJECTION_BYTES
  {
    hide ByteLen;
    text, count := INTRO, 0;
    IntroIsShort();
    while count < |hits|
      invariant count <= |hits| && text == Lines(hits[..count], line) && ByteLen(text) <= MAX_INJECTION_BYTES
    {
      assert hits[..count + 1][..count] == hits[..count];
      ByteLenOfConcat(text, line(hits[count]));
      if ByteLen(text) + ByteLen(line(hits[count])) > MAX_INJECTION_BYTES {
        return;
      }
      text := text + line(hits[count]);
      count := count + 1;
    }
  }

  lemma IntroIsShort()
    ensures ByteLen(INTRO) <= MAX_INJECTION_BYTES
  {
    assert |INTRO| <= 130;
  }
}
