/**
  What one query puts on the wire, message by message: the handshake, the note
  about its document, up to five requests that all ask the query's own question,
  and the cancellation of the last of them.
*/
module LspRequests {
  import opened Wrappers
  import opened Text
  import opened LspSession

  const MOST_BYTES := 4 * 1024 * 1024

  /** The id counter after `n` more requests: it steps over zero. */
  function IdAfter(id: u64, n: nat): u64
    decreases n
  {
    if n == 0 then id
    else
      var before: u64 := IdAfter(id, n - 1);
      if before == 0xFFFF_FFFF_FFFF_FFFF then 1 else before + 1
  }

  /** What the query wants to know, asked for the `k`-th time. */
  function Question(q: Query, first: u64, k: nat): Message {
    Request(IdAfter(first, k), q.operation, q.source.uri, q.source.line, q.source.character)
  }

  predicate Goes(env: Env, m: Message, written: bool) {
    written && env.size(m) <= MOST_BYTES
  }

  /** Attempt `k` gets written. */
  predicate Asked(env: Env, q: Query, first: u64, k: nat) {
    Goes(env, Question(q, first, k), q.world.requests(k).written)
  }

  /** After attempt `k` the client asks again: the content was modified and time is left. */
  predicate AgainAfter(q: Query, k: nat) {
    q.world.requests(k).reply == ContentModified && q.world.requests(k).timeLeft
  }

  /**
    Exactly `n` requests are sent: each is written, and all but the last are asked
    again; there is no further one because five were sent, the last is not asked
    again, or the next cannot be written.
  */
  predicate AskedTimes(env: Env, q: Query, first: u64, n: nat) {
    && n <= 5 && (forall k | 0 <= k < n :: Asked(env, q, first, k)) && (forall k | 0 <= k < n - 1 :: AgainAfter(q, k))
    && (n == 5 || (n > 0 && !AgainAfter(q, n - 1)) || !Asked(env, q, first, n))
  }

  function Questions(q: Query, first: u64, k: nat, n: nat): seq<Message>
    requires k <= n
  {
    seq(n - k, i requires 0 <= i < n - k => Question(q, first, k + i))
  }

  /** The cancellation of attempt `k` when the wait for it was broken off. */
  function CancelOf(env: Env, q: Query, first: u64, k: nat): seq<Message> {
    var a, cancel := q.world.requests(k), CancelRequest(IdAfter(first, k));
    if a.reply == Interrupted(true) && Goes(env, cancel, a.cancelWritten) then [cancel] else []
  }

  /** What attempt `k` does, when the counter stands at its id. */
  lemma AskStep(env: Env, c: Client, q: Query, first: u64, k: nat)
    requires k <= RETRIES && c.nextId == IdAfter(first, k)
    ensures
      var next := c.(nextId := IdAfter(first, k + 1));
      var asked := c.sent + [Question(q, first, k)];
      Ask(env, c, q, k) ==
      if !Asked(env, q, first, k) then (next, false)
      else if AgainAfter(q, k) && k < 4 then Ask(env, next.(sent := asked), q, k + 1)
      else (next.(sent := asked + CancelOf(env, q, first, k)), q.world.requests(k).reply.Answer?)
  {
    assert IdAfter(first, k + 1) == NextId(c.nextId);
    var asked := c.sent + [Question(q, first, k)];
    assert asked + [] == asked;
  }

  lemma {:induction false} AskSends(env: Env, c: Client, q: Query, first: u64, k: nat) returns (n: nat)
    requires k <= RETRIES && c.nextId == IdAfter(first, k)
    requires forall j | 0 <= j < k :: Asked(env, q, first, j) && AgainAfter(q, j)
    ensures k <= n && AskedTimes(env, q, first, n)
    ensures Ask(env, c, q, k).0.sent ==
            c.sent + Questions(q, first, k, n) + if n == 0 || n == k then [] else CancelOf(env, q, first, n - 1)
    ensures Ask(env, c, q, k).1 <==> n > k && q.world.requests(n - 1).reply.Answer?
    decreases RETRIES - k
  {
    hide Ask, Question, Asked, CancelOf, IdAfter;
    AskStep(env, c, q, first, k);
    var asked := c.sent + [Question(q, first, k)];
    if !Asked(env, q, first, k) {
      n := k;
      assert c.sent + Questions(q, first, k, k) + [] == c.sent;
    } else if AgainAfter(q, k) && k < 4 {
      var next := c.(nextId := IdAfter(first, k + 1), sent := asked);
      n := AskSends(env, next, q, first, k + 1);
      NotCancelled(env, q, first, k);
      hide AgainAfter, AskedTimes;
      FirstQuestion(q, first, k, n);
      assert asked + Questions(q, first, k + 1, n) == c.sent + Questions(q, first, k, n);
    } else {
      n := k + 1;
      FirstQuestion(q, first, k, n);
      assert Questions(q, first, n, n) == [];
    }
  }

  lemma FirstQuestion(q: Query, first: u64, k: nat, n: nat)
    requires k < n
    ensures Questions(q, first, k, n) == [Question(q, first, k)] + Questions(q, first, k + 1, n)
  {
    hide Question;
  }

  lemma NotCancelled(env: Env, q: Query, first: u64, k: nat)
    requires AgainAfter(q, k)
    ensures CancelOf(env, q, first, k) == [] && !q.world.requests(k).reply.Answer?
  {
  }

  // ---------- before the requests ----------

  function Written(env: Env, m: Message, written: bool): seq<Message> {
    if Goes(env, m, written) then [m] else []
  }

  /** The handshake of a client that was never initialized. */
  function Greeting(env: Env, id: u64, w: Surroundings): seq<Message> {
    var hello := Written(env, Initialize(id), w.initialize.written);
    if hello == [] then []
    else if w.initialize.reply == Answer then hello + Written(env, Initialized, w.initializedWritten)
    else if w.initialize.reply == Interrupted(true) then hello + Written(env, CancelRequest(id), w.initialize.cancelWritten)
    else hello
  }

  predicate Greeted(env: Env, id: u64, w: Surroundings) {
    && Goes(env, Initialize(id), w.initialize.written) && w.initialize.reply == Answer
    && Goes(env, Initialized, w.initializedWritten)
  }

  lemma GreetingSends(env: Env, c: Client, w: Surroundings)
    ensures
      var (ready, ok) := EnsureInitialized(env, c, w);
      var quiet := c.initialized || w.terminal;
      && ready.sent == c.sent + (if quiet then [] else Greeting(env, c.nextId, w))
      && (ok <==> !w.terminal && (c.initialized || Greeted(env, c.nextId, w)))
      && ready.nextId == (if quiet then c.nextId else IdAfter(c.nextId, 1)) && ready.open == c.open
  {
    assert c.sent + [] == c.sent;
    var id := c.nextId;
    assert IdAfter(id, 1) == NextId(id) by { assert IdAfter(id, 0) == id; }
    var hello := c.sent + [Initialize(id)];
    assert hello + [] == hello && hello + [Initialized] == c.sent + [Initialize(id), Initialized];
    assert hello + [CancelRequest(id)] == c.sent + [Initialize(id), CancelRequest(id)];
  }

  /** The server is told the text once, then again whenever it has changed. */
  function Note(env: Env, open: map<string, OpenDocument>, q: Query): seq<Message> {
    var uri, text := q.source.uri, q.source.text;
    if uri !in open then [DidOpen(uri, q.language, 1, text)]
    else if env.digest(text) == open[uri].digest then []
    else [DidChange(uri, open[uri].version + 1, text)]
  }

  lemma NoteSends(env: Env, c: Client, q: Query)
    requires forall uri | uri in c.open :: c.open[uri].version >= 1
    ensures
      var (told, ok) := SyncOpenDocument(env, c, q.source, q.language, q.world.syncWritten);
      var note := Note(env, c.open, q);
      && (ok <==> note == [] || Goes(env, note[0], q.world.syncWritten))
      && told.sent == (if ok then c.sent + note else c.sent) && told.nextId == c.nextId
  {
    assert c.sent + [] == c.sent;
  }

  // ---------- the whole query ----------

  /**
    Everything a query writes, in order: a handshake unless there was one, a note
    if the server does not have the text, `n` times the question under rising ids,
    and a cancellation of the last one. It succeeds exactly when the last question
    was answered.
  */
  lemma QuerySends(env: Env, c: Client, q: Query)
    returns (greeting: seq<Message>, note: seq<Message>, first: u64, n: nat, end: seq<Message>)
    requires Agree(env, c)
    ensures RunQuery(env, c, q).0.sent == c.sent + greeting + note + Questions(q, first, 0, n) + end
    ensures greeting == if c.initialized || q.world.terminal then [] else Greeting(env, c.nextId, q.world)
    ensures first == if c.initialized || q.world.terminal then c.nextId else IdAfter(c.nextId, 1)
    ensures n <= 5
    ensures
      var greeted := !q.world.terminal && (c.initialized || Greeted(env, c.nextId, q.world));
      var wanted := Note(env, c.open, q);
      var told := greeted && (wanted == [] || Goes(env, wanted[0], q.world.syncWritten));
      && note == (if told then wanted else [])
      && (if told then AskedTimes(env, q, first, n) else n == 0)
    ensures end == if n == 0 then [] else CancelOf(env, q, first, n - 1)
    ensures RunQuery(env, c, q).1 <==> n > 0 && q.world.requests(n - 1).reply == Answer
  {
    hide EnsureInitialized, SyncOpenDocument, Ask, Questions, CancelOf, Greeting, Greeted, Note, Goes, IdAfter, AskedTimes;
    VersionsArePositive(env, c);
    GreetingSends(env, c, q.world);
    var (ready, ok) := EnsureInitialized(env, c, q.world);
    greeting := if c.initialized || q.world.terminal then [] else Greeting(env, c.nextId, q.world);
    first, n, note, end := ready.nextId, 0, [], [];
    NoQuestions(q, first);
    if ok {
      NoteSends(env, ready, q);
      var (told, synced) := SyncOpenDocument(env, ready, q.source, q.language, q.world.syncWritten);
      if synced {
        note := Note(env, c.open, q);
        FirstId(first);
        n := AskSends(env, told, q, first, 0);
        end := if n == 0 then [] else CancelOf(env, q, first, n - 1);
        AtMostFive(env, q, first, n);
      }
    }
  }

  lemma VersionsArePositive(env: Env, c: Client)
    requires Agree(env, c)
    ensures forall uri | uri in c.open :: c.open[uri].version >= 1
  {
    hide Serve;
    assert forall uri | uri in c.open :: uri in c.open.Keys;
  }

  lemma NoQuestions(q: Query, first: u64)
    ensures Questions(q, first, 0, 0) == []
  {
  }

  lemma FirstId(first: u64)
    ensures first == IdAfter(first, 0)
  {
  }

  lemma AtMostFive(env: Env, q: Query, first: u64, n: nat)
    requires AskedTimes(env, q, first, n)
    ensures n <= 5
  {
    hide Asked;
  }
}
