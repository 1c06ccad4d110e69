/**
  What one language client of src/language_intelligence.rs tells its server: the
  document versions of the Language Server Protocol 3.17, section "Text Document
  Synchronization", request ids, and retries. Replies, write failures and the
  clock are choices of the surroundings.
*/
module LspSession {
  import opened Wrappers
  import opened Text
  import Framing = LspFraming

  const RETRIES := 4

  datatype Message =
    | Initialize(id: u64)
    | Initialized
    | DidOpen(uri: string, language: string, version: nat, text: string)
    | DidChange(uri: string, version: nat, text: string)
    | DidClose(uri: string)
    | Request(id: u64, operation: string, uri: string, line: nat, character: nat)
    | CancelRequest(id: u64)
    | Shutdown(id: u64)
    | Exit

  /** The hash of a text and the length of a message as JSON, left abstract. */
  datatype Env = Env(digest: string -> string, size: Message -> nat)

  datatype OpenDocument = OpenDocument(version: nat, digest: string)

  /** `sent` is every message whose write succeeded. */
  datatype Client = Client(initialized: bool, nextId: u64, open: map<string, OpenDocument>, sent: seq<Message>)

  const NEW_CLIENT := Client(false, 1, map[], [])

  datatype Reply = Answer | UnsupportedEncoding | ContentModified | ServerError | Interrupted(tell: bool) | Lost

  /** How one request fares: its write, its reply, a late cancel, time for a retry. */
  datatype Attempt = Attempt(written: bool, reply: Reply, cancelWritten: bool, timeLeft: bool)

  datatype Surroundings = Surroundings(
    terminal: bool, initialize: Attempt, initializedWritten: bool, syncWritten: bool, requests: nat -> Attempt)

  datatype Source = Source(uri: string, text: string, line: nat, character: nat)

  datatype Query = Query(source: Source, language: string, operation: string, world: Surroundings)

  // ---------- the client ----------

  /** `wrapping_add(1).max(1)`. */
  function NextId(id: u64): u64 {
    if id == U64_MAX then 1 else id + 1
  }

  function Write(env: Env, c: Client, m: Message, written: bool): (Client, bool) {
    if env.size(m) > Framing.MAX_FRAME_BYTES || !written then (c, false) else (c.(sent := c.sent + [m]), true)
  }

  /** What waiting for reply `a` to request `id` leaves, and whether it was an answer. */
  function Await(env: Env, c: Client, id: u64, a: Attempt): Client {
    if a.reply.Interrupted? && a.reply.tell then Write(env, c, CancelRequest(id), a.cancelWritten).0 else c
  }

  function EnsureInitialized(env: Env, c: Client, w: Surroundings): (Client, bool) {
    if c.initialized then (c, !w.terminal)
    else if w.terminal then (c, false)
    else
      var (asked, ok) := Write(env, c.(nextId := NextId(c.nextId)), Initialize(c.nextId), w.initialize.written);
      if !ok then (asked, false)
      else if !w.initialize.reply.Answer? then (Await(env, asked, c.nextId, w.initialize), false)
      else
        var (ready, done) := Write(env, asked, Initialized, w.initializedWritten);
        (ready.(initialized := done), done)
  }

  function Notification(env: Env, c: Client, source: Source, language: string): Option<Message> {
    if source.uri !in c.open then Some(DidOpen(source.uri, language, 1, source.text))
    else if c.open[source.uri].digest == env.digest(source.text) then None
    else if c.open[source.uri].version + 1 == 1 then Some(DidOpen(source.uri, language, 1, source.text))
    else Some(DidChange(source.uri, c.open[source.uri].version + 1, source.text))
  }

  function SyncOpenDocument(env: Env, c: Client, source: Source, language: string, written: bool): (Client, bool) {
    match Notification(env, c, source, language)
    case None => (c, true)
    case Some(note) =>
      var (told, ok) := Write(env, c, note, written);
      if !ok then (told, false)
      else (told.(open := told.open[source.uri := OpenDocument(note.version, env.digest(source.text))]), true)
  }

  /** Request number `k`, repeated while the server says the content was modified. */
  function Ask(env: Env, c: Client, q: Query, k: nat): (Client, bool)
    requires k <= RETRIES
    decreases RETRIES - k
  {
    var a := q.world.requests(k);
    var id := c.nextId;
    var request := Request(id, q.operation, q.source.uri, q.source.line, q.source.character);
    var (asked, ok) := Write(env, c.(nextId := NextId(id)), request, a.written);
    if !ok then (asked, false)
    else if a.reply.ContentModified? && k < RETRIES && a.timeLeft then Ask(env, asked, q, k + 1)
    else (Await(env, asked, id, a), a.reply.Answer?)
  }

  function RunQuery(env: Env, c: Client, q: Query): (Client, bool) {
    var (ready, ok) := EnsureInitialized(env, c, q.world);
    if !ok then (ready, false)
    else
      var (told, synced) := SyncOpenDocument(env, ready, q.source, q.language, q.world.syncWritten);
      if !synced then (told, false) else Ask(env, told, q, 0)
  }

  function Run(env: Env, queries: seq<Query>): Client {
    if queries == [] then NEW_CLIENT
    else RunQuery(env, Run(env, queries[..|queries| - 1]), queries[|queries| - 1]).0
  }

  // ---------- the server's side ----------

  datatype ServerDocument = ServerDocument(version: nat, text: string)

  datatype Server = Server(ready: bool, docs: map<string, ServerDocument>)

  /**
    What a strict server accepts: nothing about documents before `initialized`,
    open once at version 1, then each change one version up with a new text,
    requests only about open documents.
  */
  function Receive(s: Server, m: Message): Option<Server> {
    match m
    case Initialize(_) => if s.ready then None else Some(s)
    case Initialized => if s.ready then None else Some(s.(ready := true))
    case DidOpen(uri, _, version, text) =>
      if !s.ready || uri in s.docs || version != 1 then None
      else Some(s.(docs := s.docs[uri := ServerDocument(1, text)]))
    case DidChange(uri, version, text) =>
      if !s.ready || uri !in s.docs || version != s.docs[uri].version + 1 || text == s.docs[uri].text then None
      else Some(s.(docs := s.docs[uri := ServerDocument(version, text)]))
    case DidClose(uri) => if uri in s.docs then Some(s.(docs := s.docs - {uri})) else None
    case Request(_, _, uri, _, _) => if s.ready && uri in s.docs then Some(s) else None
    case CancelRequest(_) => Some(s)
    case Shutdown(_) => if s.ready then Some(s) else None
    case Exit => Some(s)
  }

  function Serve(log: seq<Message>): Option<Server> {
    if log == [] then Some(Server(false, map[]))
    else match Serve(log[..|log| - 1])
      case None => None
      case Some(s) => Receive(s, log[|log| - 1])
  }

  lemma ServeAppend(log: seq<Message>, m: Message)
    ensures Serve(log + [m]) == if Serve(log).Some? then Receive(Serve(log).value, m) else None
  {
    assert (log + [m])[..|log|] == log;
  }

  /** The server accepted everything and holds what the client believes it holds. */
  predicate Agree(env: Env, c: Client) {
    && Serve(c.sent).Some?
    && var s := Serve(c.sent).value;
       s.ready == c.initialized && s.docs.Keys == c.open.Keys
       && forall uri | uri in s.docs ::
            s.docs[uri].version >= 1
            && c.open[uri] == OpenDocument(s.docs[uri].version, env.digest(s.docs[uri].text))
  }

  /** `b` extends `a` by messages that are not requests about documents. */
  predicate Quietly(a: seq<Message>, b: seq<Message>) {
    a <= b && forall j | |a| <= j < |b| :: !b[j].Request?
  }

  lemma AsideKeeps(env: Env, c: Client, m: Message, written: bool)
    requires Agree(env, c) && ((m.Initialize? && !c.initialized) || m.CancelRequest?)
    ensures
      var d := Write(env, c, m, written).0;
      Agree(env, d) && Quietly(c.sent, d.sent) && d.open == c.open && d.initialized == c.initialized
  {
    hide Serve;
    ServeAppend(c.sent, m);
  }

  lemma ReadyKeeps(env: Env, c: Client, written: bool)
    requires Agree(env, c) && !c.initialized
    ensures
      var (ready, done) := Write(env, c, Initialized, written);
      Agree(env, ready.(initialized := done)) && Quietly(c.sent, ready.sent) && ready.open == c.open
  {
    hide Serve;
    ServeAppend(c.sent, Initialized);
  }

  lemma QuietlyTwice(a: seq<Message>, b: seq<Message>, c: seq<Message>)
    requires Quietly(a, b) && Quietly(b, c)
    ensures Quietly(a, c)
  {
  }

  lemma AwaitKeeps(env: Env, c: Client, id: u64, a: Attempt)
    requires Agree(env, c)
    ensures
      var d := Await(env, c, id, a);
      Agree(env, d) && Quietly(c.sent, d.sent) && d.open == c.open && d.initialized == c.initialized
  {
    hide Serve, Agree, Write;
    AsideKeeps(env, c, CancelRequest(id), a.cancelWritten);
  }

  lemma HandshakeKeeps(env: Env, c: Client, w: Surroundings)
    requires Agree(env, c) && !c.initialized && !w.terminal
    ensures
      var (ready, ok) := EnsureInitialized(env, c, w);
      Agree(env, ready) && (ok ==> ready.initialized) && ready.open == c.open && Quietly(c.sent, ready.sent)
  {
    var next := c.(nextId := NextId(c.nextId));
    assert Agree(env, next);
    hide Agree, Quietly, Write, Await;
    AsideKeeps(env, next, Initialize(c.nextId), w.initialize.written);
    var (asked, ok) := Write(env, next, Initialize(c.nextId), w.initialize.written);
    if ok && !w.initialize.reply.Answer? {
      AwaitKeeps(env, asked, c.nextId, w.initialize);
      QuietlyTwice(c.sent, asked.sent, Await(env, asked, c.nextId, w.initialize).sent);
    } else if ok {
      ReadyKeeps(env, asked, w.initializedWritten);
      QuietlyTwice(c.sent, asked.sent, Write(env, asked, Initialized, w.initializedWritten).0.sent);
    }
  }

  lemma InitKeeps(env: Env, c: Client, w: Surroundings)
    requires Agree(env, c)
    ensures
      var (ready, ok) := EnsureInitialized(env, c, w);
      Agree(env, ready) && (ok ==> ready.initialized) && ready.open == c.open && Quietly(c.sent, ready.sent)
  {
    if !c.initialized && !w.terminal {
      hide Agree, EnsureInitialized;
      HandshakeKeeps(env, c, w);
    }
  }

  /** After a sync the server holds the source's text, up to the hash. */
  lemma SyncKeeps(env: Env, c: Client, source: Source, language: string, written: bool)
    requires Agree(env, c) && c.initialized
    ensures
      var (told, ok) := SyncOpenDocument(env, c, source, language, written);
      && Agree(env, told) && told.initialized && Quietly(c.sent, told.sent)
      && (ok ==> source.uri in told.open && told.open[source.uri].digest == env.digest(source.text))
  {
    var note := Notification(env, c, source, language);
    if note.Some? {
      hide Serve;
      ServeAppend(c.sent, note.value);
    }
  }

  /** The server's copy of the source at the moment message `j` arrives. */
  predicate ServerHas(env: Env, log: seq<Message>, j: nat, source: Source)
    requires j <= |log|
  {
    && Serve(log[..j]).Some? && source.uri in Serve(log[..j]).value.docs
    && env.digest(Serve(log[..j]).value.docs[source.uri].text) == env.digest(source.text)
  }

  /** The message asks about this place of this document. */
  predicate Names(m: Message, source: Source) {
    m.Request? ==> m.uri == source.uri && m.line == source.line && m.character == source.character
  }

  ghost predicate RequestsSee(env: Env, log: seq<Message>, since: nat, source: Source) {
    forall j | since <= j < |log| && log[j].Request? :: Names(log[j], source) && ServerHas(env, log, j, source)
  }

  lemma RequestsSeeOneMore(env: Env, log: seq<Message>, m: Message, since: nat, source: Source)
    requires RequestsSee(env, log, since, source)
    requires m.Request? ==> Names(m, source) && ServerHas(env, log, |log|, source)
    ensures RequestsSee(env, log + [m], since, source)
  {
    hide Serve;
    var longer := log + [m];
    forall j | since <= j < |longer| && longer[j].Request?
      ensures Names(longer[j], source) && ServerHas(env, longer, j, source)
    {
      assert longer[..j] == log[..j];
    }
  }

  lemma AskKeeps(env: Env, c: Client, q: Query, k: nat, since: nat)
    requires k <= RETRIES && since <= |c.sent|
    requires Agree(env, c) && c.initialized && RequestsSee(env, c.sent, since, q.source)
    requires q.source.uri in c.open && c.open[q.source.uri].digest == env.digest(q.source.text)
    ensures Agree(env, Ask(env, c, q, k).0) && RequestsSee(env, Ask(env, c, q, k).0.sent, since, q.source)
    decreases RETRIES - k
  {
    hide Serve, RequestsSee;
    var a, id := q.world.requests(k), c.nextId;
    var request := Request(id, q.operation, q.source.uri, q.source.line, q.source.character);
    assert c.sent[..|c.sent|] == c.sent;
    ServeAppend(c.sent, request);
    RequestsSeeOneMore(env, c.sent, request, since, q.source);
    ServeAppend(c.sent + [request], CancelRequest(id));
    RequestsSeeOneMore(env, c.sent + [request], CancelRequest(id), since, q.source);
    if a.reply.ContentModified? && k < RETRIES && a.timeLeft {
      var asked := Write(env, c.(nextId := NextId(id)), request, a.written);
      if asked.1 {
        AskKeeps(env, asked.0, q, k + 1, since);
      }
    }
  }

  // ---------- whole runs ----------

  /**
    One query, whatever the server answers and whichever writes fail: the
    server's copies stay those the client recorded, and every request sent finds
    the query's own text there.
  */
  lemma QueryKeeps(env: Env, c: Client, q: Query)
    requires Agree(env, c)
    ensures
      var after := RunQuery(env, c, q).0;
      Agree(env, after) && RequestsSee(env, after.sent, |c.sent|, q.source)
  {
    hide Agree, EnsureInitialized, SyncOpenDocument, Ask;
    InitKeeps(env, c, q.world);
    var (ready, ok) := EnsureInitialized(env, c, q.world);
    if ok {
      SyncKeeps(env, ready, q.source, q.language, q.world.syncWritten);
      var (told, synced) := SyncOpenDocument(env, ready, q.source, q.language, q.world.syncWritten);
      if synced {
        AskKeeps(env, told, q, 0, |c.sent|);
      }
    }
  }

  /** Every run of queries keeps a strict server satisfied and in agreement. */
  lemma {:induction false} RunAgrees(env: Env, queries: seq<Query>)
    ensures Agree(env, Run(env, queries))
  {
    hide RunQuery;
    if queries != [] {
      RunAgrees(env, queries[..|queries| - 1]);
      QueryKeeps(env, Run(env, queries[..|queries| - 1]), queries[|queries| - 1]);
    }
  }

  /** With an injective hash, a request finds exactly the text its query read. */
  lemma RequestSeesExactText(env: Env, queries: seq<Query>, q: Query, j: nat)
    requires forall a, b :: env.digest(a) == env.digest(b) ==> a == b
    requires
      var before, after := Run(env, queries), RunQuery(env, Run(env, queries), q).0;
      |before.sent| <= j < |after.sent| && after.sent[j].Request?
    ensures
      var log := RunQuery(env, Run(env, queries), q).0.sent;
      && Serve(log[..j]).Some? && q.source.uri in Serve(log[..j]).value.docs
      && Serve(log[..j]).value.docs[q.source.uri].text == q.source.text
  {
    hide Run, RunQuery, Serve;
    RunAgrees(env, queries);
    QueryKeeps(env, Run(env, queries), q);
    assert ServerHas(env, RunQuery(env, Run(env, queries), q).0.sent, j, q.source);
  }

  // ---------- version numbers ----------

  predicate Notifies(m: Message, uri: string) {
    (m.DidOpen? && m.uri == uri) || (m.DidChange? && m.uri == uri)
  }

  /** The notifications about one document, in order. */
  function Notes(log: seq<Message>, uri: string): seq<Message> {
    if log == [] then []
    else
      var before, m := Notes(log[..|log| - 1], uri), log[|log| - 1];
      if Notifies(m, uri) then before + [m] else before
  }

  /** One opening at version 1, then changes at 2, 3, 4 and so on. */
  predicate Numbered(notes: seq<Message>) {
    forall i | 0 <= i < |notes| ::
      (if i == 0 then notes[i].DidOpen? else notes[i].DidChange?) && notes[i].version == i + 1
  }

  lemma {:induction false} AcceptedNotesAreNumbered(log: seq<Message>, uri: string)
    requires Serve(log).Some? && forall i | 0 <= i < |log| :: !log[i].DidClose?
    ensures Numbered(Notes(log, uri))
    ensures if uri in Serve(log).value.docs then Serve(log).value.docs[uri].version == |Notes(log, uri)| >= 1
            else Notes(log, uri) == []
  {
    if log != [] {
      AcceptedNotesAreNumbered(log[..|log| - 1], uri);
    }
  }

  lemma {:induction false} RunNeverCloses(env: Env, queries: seq<Query>)
    ensures forall i | 0 <= i < |Run(env, queries).sent| :: !Run(env, queries).sent[i].DidClose?
  {
    if queries != [] {
      hide SyncOpenDocument, EnsureInitialized, Ask;
      var before, q := Run(env, queries[..|queries| - 1]), queries[|queries| - 1];
      RunNeverCloses(env, queries[..|queries| - 1]);
      InitNeverCloses(env, before, q.world);
      var ready := EnsureInitialized(env, before, q.world).0;
      SyncNeverCloses(env, ready, q);
      AskNeverCloses(env, SyncOpenDocument(env, ready, q.source, q.language, q.world.syncWritten).0, q, 0);
    }
  }

  predicate NoClose(log: seq<Message>) { forall i | 0 <= i < |log| :: !log[i].DidClose? }

  lemma InitNeverCloses(env: Env, c: Client, w: Surroundings)
    requires NoClose(c.sent)
    ensures NoClose(EnsureInitialized(env, c, w).0.sent)
  {
  }

  lemma SyncNeverCloses(env: Env, c: Client, q: Query)
    requires NoClose(c.sent)
    ensures NoClose(SyncOpenDocument(env, c, q.source, q.language, q.world.syncWritten).0.sent)
  {
  }

  lemma AskNeverCloses(env: Env, c: Client, q: Query, k: nat)
    requires NoClose(c.sent) && k <= RETRIES
    ensures NoClose(Ask(env, c, q, k).0.sent)
    decreases RETRIES - k
  {
  }

  /** In every run, each document is opened once at 1 and changed at 2, 3, 4, ... */
  lemma VersionsCount(env: Env, queries: seq<Query>, uri: string)
    ensures Numbered(Notes(Run(env, queries).sent, uri))
  {
    hide Run, Numbered, Notes, Serve;
    RunAgrees(env, queries);
    RunNeverCloses(env, queries);
    AcceptedNotesAreNumbered(Run(env, queries).sent, uri);
  }

  // ---------- request ids ----------

  function IdOf(m: Message): Option<u64> {
    match m
    case Initialize(id) => Some(id)
    case Request(id, _, _, _, _) => Some(id)
    case Shutdown(id) => Some(id)
    case _ => None
  }

  /** Ids rise along the log and stay below the next one. */
  predicate Rising(c: Client) {
    && (forall i, j | 0 <= i < j < |c.sent| && IdOf(c.sent[i]).Some? && IdOf(c.sent[j]).Some? ::
          IdOf(c.sent[i]).value < IdOf(c.sent[j]).value)
    && forall i | 0 <= i < |c.sent| && IdOf(c.sent[i]).Some? :: IdOf(c.sent[i]).value < c.nextId
  }

  lemma WriteKeepsRising(env: Env, c: Client, m: Message, written: bool, next: u64)
    requires Rising(c) && c.nextId <= next
    requires IdOf(m).Some? ==> c.nextId == IdOf(m).value < next
    ensures Rising(Write(env, c.(nextId := next), m, written).0)
  {
  }

  lemma AskRises(env: Env, c: Client, q: Query, k: nat)
    requires Rising(c) && k <= RETRIES && c.nextId + RETRIES + 1 - k <= U64_MAX
    ensures Rising(Ask(env, c, q, k).0) && Ask(env, c, q, k).0.nextId <= c.nextId + RETRIES + 1 - k
    decreases RETRIES - k
  {
    hide Rising;
    var a, id := q.world.requests(k), c.nextId;
    var request := Request(id, q.operation, q.source.uri, q.source.line, q.source.character);
    WriteKeepsRising(env, c, request, a.written, NextId(id));
    var (asked, ok) := Write(env, c.(nextId := NextId(id)), request, a.written);
    WriteKeepsRising(env, asked, CancelRequest(id), a.cancelWritten, asked.nextId);
    if ok && a.reply.ContentModified? && k < RETRIES && a.timeLeft {
      AskRises(env, asked, q, k + 1);
    }
  }

  lemma InitRises(env: Env, c: Client, w: Surroundings)
    requires Rising(c) && c.nextId < U64_MAX
    ensures Rising(EnsureInitialized(env, c, w).0) && EnsureInitialized(env, c, w).0.nextId <= c.nextId + 1
  {
    hide Rising;
    var id := c.nextId;
    WriteKeepsRising(env, c, Initialize(id), w.initialize.written, NextId(id));
    var (asked, ok) := Write(env, c.(nextId := NextId(id)), Initialize(id), w.initialize.written);
    WriteKeepsRising(env, asked, CancelRequest(id), w.initialize.cancelWritten, asked.nextId);
    WriteKeepsRising(env, asked, Initialized, w.initializedWritten, asked.nextId);
    if !c.initialized && !w.terminal && ok && w.initialize.reply.Answer? {
      RisingReads(Write(env, asked, Initialized, w.initializedWritten).0, EnsureInitialized(env, c, w).0);
    }
  }

  lemma SyncRises(env: Env, c: Client, source: Source, language: string, written: bool)
    requires Rising(c)
    ensures
      var told := SyncOpenDocument(env, c, source, language, written).0;
      Rising(told) && told.nextId == c.nextId
  {
    hide Rising;
    var note := Notification(env, c, source, language);
    if note.Some? {
      WriteKeepsRising(env, c, note.value, written, c.nextId);
      RisingReads(Write(env, c, note.value, written).0, SyncOpenDocument(env, c, source, language, written).0);
    }
  }

  lemma RisingReads(c: Client, d: Client)
    requires Rising(c) && c.sent == d.sent && c.nextId == d.nextId
    ensures Rising(d)
  {
  }

  /** No id is used twice before the 64-bit counter can wrap. */
  lemma {:induction false} IdsRise(env: Env, queries: seq<Query>)
    requires 6 * |queries| < U64_MAX
    ensures Rising(Run(env, queries)) && Run(env, queries).nextId <= 1 + 6 * |queries|
  {
    if queries != [] {
      hide Rising, EnsureInitialized, SyncOpenDocument, Ask;
      var before, q := queries[..|queries| - 1], queries[|queries| - 1];
      IdsRise(env, before);
      var c := Run(env, before);
      InitRises(env, c, q.world);
      var ready := EnsureInitialized(env, c, q.world).0;
      SyncRises(env, ready, q.source, q.language, q.world.syncWritten);
      AskRises(env, SyncOpenDocument(env, ready, q.source, q.language, q.world.syncWritten).0, q, 0);
    }
  }

  // ---------- shutdown ----------

  function CloseAll(env: Env, c: Client, uris: seq<string>, written: string -> bool): Client
    decreases |uris|
  {
    if uris == [] then c
    else CloseAll(env, Write(env, c, DidClose(uris[0]), written(uris[0])).0, uris[1..], written)
  }

  /** `shutdown_client`, with the open documents in map order and failed writes ignored. */
  function ShutdownClient(env: Env, c: Client, uris: seq<string>, terminal: bool, written: string -> bool,
                          shutdown: Attempt, exitWritten: bool): Client
  {
    if !c.initialized || terminal then c
    else Farewell(env, CloseAll(env, c.(open := map[]), uris, written), shutdown, exitWritten)
  }

  function Farewell(env: Env, c: Client, shutdown: Attempt, exitWritten: bool): Client {
    var asked := Write(env, c.(nextId := NextId(c.nextId)), Shutdown(c.nextId), shutdown.written).0;
    Write(env, Await(env, asked, c.nextId, shutdown), Exit, exitWritten).0.(initialized := false)
  }

  lemma FarewellIsAccepted(env: Env, c: Client, shutdown: Attempt, exitWritten: bool)
    requires Serve(c.sent).Some? && Serve(c.sent).value.ready
    ensures Serve(Farewell(env, c, shutdown, exitWritten).sent) == Serve(c.sent)
    ensures Farewell(env, c, shutdown, exitWritten).open == c.open
  {
    hide Serve;
    ServeAppend(c.sent, Shutdown(c.nextId));
    var asked := Write(env, c.(nextId := NextId(c.nextId)), Shutdown(c.nextId), shutdown.written).0;
    ServeAppend(asked.sent, CancelRequest(c.nextId));
    ServeAppend(Await(env, asked, c.nextId, shutdown).sent, Exit);
  }

  /** `uris` lists exactly the documents still open, each once. */
  predicate Lists(uris: seq<string>, docs: map<string, ServerDocument>) {
    && (forall i | 0 <= i < |uris| :: uris[i] in docs)
    && forall i, j | 0 <= i < j < |uris| :: uris[i] != uris[j]
  }

  /** The listed documents whose closing message gets through. */
  function Delivered(env: Env, uris: seq<string>, written: string -> bool): set<string> {
    set uri | uri in uris && written(uri) && env.size(DidClose(uri)) <= Framing.MAX_FRAME_BYTES
  }

  lemma DeliveredOfCons(env: Env, uris: seq<string>, written: string -> bool)
    requires uris != []
    ensures
      var first := if written(uris[0]) && env.size(DidClose(uris[0])) <= Framing.MAX_FRAME_BYTES then {uris[0]} else {};
      Delivered(env, uris, written) == first + Delivered(env, uris[1..], written)
  {
    assert uris == [uris[0]] + uris[1..];
  }

  lemma ListsOfTail(uris: seq<string>, docs: map<string, ServerDocument>, rest: map<string, ServerDocument>)
    requires uris != [] && Lists(uris, docs) && (rest == docs || rest.Keys == docs.Keys - {uris[0]})
    ensures Lists(uris[1..], rest)
  {
    assert forall i | 0 <= i < |uris| - 1 :: uris[1..][i] == uris[i + 1];
  }

  lemma {:induction false} ClosesAreAccepted(env: Env, c: Client, uris: seq<string>, written: string -> bool)
    requires Serve(c.sent).Some? && Lists(uris, Serve(c.sent).value.docs)
    ensures
      var d, s := CloseAll(env, c, uris, written), Serve(c.sent).value;
      && Serve(d.sent).Some? && Serve(d.sent).value.ready == s.ready && d.nextId == c.nextId
      && Serve(d.sent).value.docs.Keys == s.docs.Keys - Delivered(env, uris, written)
    decreases |uris|
  {
    if uris != [] {
      hide Serve, Lists, Delivered;
      assert uris[0] in Serve(c.sent).value.docs by { FirstIsListed(uris, Serve(c.sent).value.docs); }
      ServeAppend(c.sent, DidClose(uris[0]));
      var d := Write(env, c, DidClose(uris[0]), written(uris[0])).0;
      ListsOfTail(uris, Serve(c.sent).value.docs, Serve(d.sent).value.docs);
      DeliveredOfCons(env, uris, written);
      ClosesAreAccepted(env, d, uris[1..], written);
    } else {
      NoneDelivered(env, written);
    }
  }

  lemma FirstIsListed(uris: seq<string>, docs: map<string, ServerDocument>)
    requires uris != [] && Lists(uris, docs)
    ensures uris[0] in docs
  {
  }

  lemma NoneDelivered(env: Env, written: string -> bool)
    ensures Delivered(env, [], written) == {}
  {
  }

  /**
    A shutdown is accepted whatever fails, and when the closing messages get
    through the server is left with no open document.
  */
  lemma ShutdownIsAccepted(env: Env, c: Client, uris: seq<string>, terminal: bool, written: string -> bool,
                           shutdown: Attempt, exitWritten: bool)
    requires Agree(env, c) && Lists(uris, Serve(c.sent).value.docs)
    requires forall uri | uri in c.open :: exists i :: 0 <= i < |uris| && uris[i] == uri
    ensures
      var d := ShutdownClient(env, c, uris, terminal, written, shutdown, exitWritten);
      && Serve(d.sent).Some?
      && (c.initialized && !terminal ==> d.open == map[] && !d.initialized)
      && (c.initialized && !terminal && (forall uri | uri in c.open :: written(uri) && env.size(DidClose(uri)) <= Framing.MAX_FRAME_BYTES)
          ==> Serve(d.sent).value.docs == map[])
  {
    if c.initialized && !terminal {
      hide Serve, CloseAll, Farewell;
      var start := c.(open := map[]);
      ClosesAreAccepted(env, start, uris, written);
      CloseAllKeepsOpen(env, start, uris, written);
      FarewellIsAccepted(env, CloseAll(env, start, uris, written), shutdown, exitWritten);
    }
  }

  lemma {:induction false} CloseAllKeepsOpen(env: Env, c: Client, uris: seq<string>, written: string -> bool)
    ensures CloseAll(env, c, uris, written).open == c.open
    decreases |uris|
  {
    if uris != [] {
      CloseAllKeepsOpen(env, Write(env, c, DidClose(uris[0]), written(uris[0])).0, uris[1..], written);
    }
  }
}
