/**
  What every interleaving of draft store operations keeps: live files, exact
  accounting, single ownership, and one holder per reserved upload.
*/
module Draft {
  import opened Wrappers
  import opened DraftModel

  ghost predicate Registered(s: Store, scope: Id, upload: Id) {
    scope in s.scopes && upload in s.scopes[scope].uploads
  }

  /** A registered upload has its file, and the scope owning its directory exists. */
  ghost predicate Lives(s: Store, scope: Id, upload: Id)
    requires Registered(s, scope, upload)
  {
    var path := s.scopes[scope].uploads[upload].path;
    path.upload == upload && path in s.files && path.scope in s.scopes
  }

  ghost predicate AllLive(s: Store) {
    forall scope, upload | Registered(s, scope, upload) :: Lives(s, scope, upload)
  }

  ghost predicate Accounted(s: Store) {
    forall scope | scope in s.scopes ::
      s.scopes[scope].bytes == Total(s.scopes[scope].uploads) <= MAX_DRAFT_STAGING_BYTES
  }

  ghost predicate OneOwner(s: Store) {
    forall a, b, upload | Registered(s, a, upload) && Registered(s, b, upload) :: a == b
  }

  /** An upload in progress is not registered, and keeps its file while its scope lives. */
  ghost predicate WritersSound(s: Store) {
    forall u | u in s.writers ::
      var w := s.writers[u];
      && u in s.usedUploads && w.scope in s.usedScopes
      && w.written <= w.expected <= MAX_ATTACHMENT_BYTES
      && (w.created && w.scope in s.scopes ==> Path(w.scope, u) in s.files)
      && forall scope :: !Registered(s, scope, u)
  }

  /** A directory about to be removed belongs to nothing any more. */
  ghost predicate DoomedSound(s: Store) {
    forall p | p in s.doomed ::
      p.upload in s.usedUploads && p.upload !in s.writers && forall scope :: !Registered(s, scope, p.upload)
  }

  ghost predicate IdsUsed(s: Store) {
    && s.scopes.Keys <= s.usedScopes
    && (forall scope, upload | Registered(s, scope, upload) :: upload in s.usedUploads)
    && (forall key | key in s.clients :: s.clients[key] in s.scopes)
    && (s.closed ==> s.scopes == map[])
  }

  ghost predicate Valid(s: Store) {
    AllLive(s) && Accounted(s) && OneOwner(s) && WritersSound(s) && DoomedSound(s) && IdsUsed(s)
  }

  // ---------- steps and runs ----------

  datatype Step =
    | DoOpen(key: ClientKey, now: int, minted: Id)
    | DoBegin(scope: Id, selection: nat, token: nat, expected: nat, now: int, minted: Id)
    | DoCreateFile(upload: Id)
    | DoWrite(upload: Id, count: nat)
    | DoAbandon(upload: Id)
    | DoFinish(upload: Id, valid: bool, now: int)
    | DoReserve(scope: Id, selection: nat, token: nat, ids: seq<Id>, now: int)
    | DoRollback(scope: Id, ids: seq<Id>)
    | DoCommit(scope: Id, ids: seq<Id>)
    | DoRemoveDoomed(path: Path)
    | DoTransfer(source: Id, destination: Id, selection: nat, token: nat, ids: seq<Id>,
                 reserved: bool, selected: Option<seq<Id>>, now: int)
    | DoSweep(now: int)
    | DoClose

  /** Minted ids are random, so a step that would mint a used one does not occur. */
  ghost function Next(s: Store, step: Step): Store
    requires Valid(s)
  {
    match step
    case DoOpen(key, now, minted) => if minted in s.usedScopes then s else OpenScope(s, key, now, minted).0
    case DoBegin(scope, selection, token, expected, now, minted) =>
      if minted in s.usedUploads then s else BeginUpload(s, scope, selection, token, expected, now, minted).0
    case DoCreateFile(upload) => CreateFile(s, upload)
    case DoWrite(upload, count) => WriteBytes(s, upload, count)
    case DoAbandon(upload) => if upload in s.writers then Abandon(s, upload) else s
    case DoFinish(upload, valid, now) => if upload in s.writers then Finish(s, upload, valid, now).0 else s
    case DoReserve(scope, selection, token, ids, now) => Reserve(s, scope, selection, token, ids, now).0
    case DoRollback(scope, ids) => Rollback(s, scope, ids)
    case DoCommit(scope, ids) => Commit(s, scope, ids)
    case DoRemoveDoomed(path) => RemoveDoomed(s, path)
    case DoTransfer(source, destination, selection, token, ids, reserved, selected, now) =>
      Transfer(s, source, destination, selection, token, ids, reserved, selected, now).0
    case DoSweep(now) => Sweep(s, now)
    case DoClose => Close(s)
  }

  // ---------- each step keeps the invariant ----------

  /** Nothing is registered that was not, and every path is the one it was. */
  ghost predicate SubRegistered(s: Store, t: Store) {
    forall scope, upload | Registered(t, scope, upload) ::
      && Registered(s, scope, upload)
      && t.scopes[scope].uploads[upload].path == s.scopes[scope].uploads[upload].path
  }

  ghost predicate WritersCarried(s: Store, t: Store) {
    forall u | u in t.writers ::
      && u in s.writers && t.writers[u].scope == s.writers[u].scope
      && t.writers[u].written <= t.writers[u].expected <= MAX_ATTACHMENT_BYTES
      && (t.writers[u].created && t.writers[u].scope in t.scopes ==> Path(t.writers[u].scope, u) in t.files)
  }

  ghost predicate NamesKept(s: Store, t: Store) {
    && s.usedScopes <= t.usedScopes && s.usedUploads <= t.usedUploads
    && t.scopes.Keys <= t.usedScopes
    && (forall key | key in t.clients :: t.clients[key] in t.scopes)
    && (t.closed ==> t.scopes == map[])
  }

  ghost predicate DoomedCarried(s: Store, t: Store) {
    forall p | p in t.doomed && p !in s.doomed ::
      p.upload in s.usedUploads && p.upload !in t.writers && forall scope :: !Registered(t, scope, p.upload)
  }

  /** A step that registers nothing new has only this much to show. */
  lemma FrameKeeps(s: Store, t: Store)
    requires Valid(s) && SubRegistered(s, t) && WritersCarried(s, t) && NamesKept(s, t)
    requires AllLive(t) && Accounted(t) && DoomedCarried(s, t)
    ensures Valid(t)
  {
    hide Lives, Accounted;
  }

  /** A scope leaves only with every path below its directory unreferenced. */
  lemma SweepKeeps(s: Store, now: int)
    requires Valid(s)
    ensures Valid(Sweep(s, now))
  {
    var t := Sweep(s, now);
    var gone := Expired(s, now);
    forall scope, upload | Registered(t, scope, upload)
      ensures Registered(s, scope, upload) && t.scopes[scope] == s.scopes[scope] && Lives(t, scope, upload)
    {
      assert Registered(s, scope, upload) && Lives(s, scope, upload);
      var home := s.scopes[scope].uploads[upload].path.scope;
      assert home != scope ==> Referenced(s, home);
    }
    assert SubRegistered(s, t) && AllLive(t);
    hide AllLive, OneOwner, DoomedSound;
    FrameKeeps(s, t);
  }

  lemma SweepUses(s: Store, now: int)
    ensures Sweep(s, now).usedScopes == s.usedScopes && Sweep(s, now).usedUploads == s.usedUploads
    ensures Sweep(s, now).writers == s.writers && Sweep(s, now).closed == s.closed
  {
  }

  lemma OpenKeeps(s: Store, key: ClientKey, now: int, minted: Id)
    requires Valid(s) && minted !in s.usedScopes
    ensures Valid(OpenScope(s, key, now, minted).0)
  {
    if !s.closed {
      SweepKeeps(s, now);
      SweepUses(s, now);
      hide Sweep;
      NewScopeKeeps(Sweep(s, now), key, now, minted);
    }
  }

  lemma NewScopeKeeps(s: Store, key: ClientKey, now: int, minted: Id)
    requires Valid(s) && !s.closed && minted !in s.usedScopes
    ensures Valid(s.(clients := s.clients[key := minted], usedScopes := s.usedScopes + {minted},
                     scopes := s.scopes[minted := Scope(key.selection, key.token, now + DRAFT_TTL_MS, map[], 0)]))
  {
    var scope := Scope(key.selection, key.token, now + DRAFT_TTL_MS, map[], 0);
    var t := s.(clients := s.clients[key := minted], usedScopes := s.usedScopes + {minted},
                scopes := s.scopes[minted := scope]);
    assert SubRegistered(s, t);
    assert AllLive(t) by {
      assert forall a, u | Registered(t, a, u) :: Lives(s, a, u);
    }
    hide AllLive, OneOwner, DoomedSound, SubRegistered;
    FrameKeeps(s, t);
  }

  lemma BeginKeeps(s: Store, step: Step)
    requires Valid(s) && step.DoBegin? && step.minted !in s.usedUploads
    ensures Valid(Next(s, step))
  {
    var t := Sweep(s, step.now);
    SweepKeeps(s, step.now);
    SweepUses(s, step.now);
    hide Sweep;
    if Live(t, step.scope, step.selection, step.token, step.now) && 0 < step.expected <= MAX_ATTACHMENT_BYTES {
      NewWriterKeeps(t, step.minted, Writer(step.scope, step.selection, step.token, step.expected, 0, false));
    }
  }

  lemma NewWriterKeeps(s: Store, minted: Id, w: Writer)
    requires Valid(s) && minted !in s.usedUploads && w.scope in s.scopes
    requires w.written == 0 && w.expected <= MAX_ATTACHMENT_BYTES && !w.created
    ensures Valid(s.(writers := s.writers[minted := w], usedUploads := s.usedUploads + {minted}))
  {
    var t := s.(writers := s.writers[minted := w], usedUploads := s.usedUploads + {minted});
    assert forall a, u :: Registered(t, a, u) <==> Registered(s, a, u);
    assert AllLive(t) by {
      assert forall a, u | Registered(t, a, u) :: Lives(s, a, u);
    }
    hide AllLive, Lives;
  }

  lemma CreateFileKeeps(s: Store, upload: Id)
    requires Valid(s)
    ensures Valid(CreateFile(s, upload))
  {
    var t := CreateFile(s, upload);
    assert SubRegistered(s, t);
    assert AllLive(t) by {
      assert forall a, u | Registered(t, a, u) :: Lives(s, a, u);
    }
    hide AllLive, OneOwner, DoomedSound, SubRegistered;
    FrameKeeps(s, t);
  }

  lemma WriteBytesKeeps(s: Store, upload: Id, count: nat)
    requires Valid(s)
    ensures Valid(WriteBytes(s, upload, count))
  {
    var t := WriteBytes(s, upload, count);
    assert SubRegistered(s, t);
    assert AllLive(t) by {
      assert forall a, u | Registered(t, a, u) :: Lives(s, a, u);
    }
    hide AllLive, OneOwner, DoomedSound, SubRegistered;
    FrameKeeps(s, t);
  }

  lemma AbandonKeeps(s: Store, upload: Id)
    requires Valid(s) && upload in s.writers
    ensures Valid(Abandon(s, upload))
  {
    var t := Abandon(s, upload);
    assert SubRegistered(s, t);
    assert AllLive(t) by {
      assert forall a, u | Registered(t, a, u) :: Lives(s, a, u) && u != upload;
    }
    hide AllLive, OneOwner, DoomedSound, SubRegistered;
    FrameKeeps(s, t);
  }

  lemma RemoveDoomedKeeps(s: Store, path: Path)
    requires Valid(s)
    ensures Valid(RemoveDoomed(s, path))
  {
    var t := RemoveDoomed(s, path);
    assert SubRegistered(s, t);
    assert AllLive(t) by {
      assert forall a, u | Registered(t, a, u) :: Lives(s, a, u);
    }
    assert WritersCarried(s, t);
    hide AllLive, OneOwner, DoomedSound, SubRegistered;
    FrameKeeps(s, t);
  }

  /** The writer's upload becomes a registered one, file and all. */
  lemma RegisterKeeps(s: Store, upload: Id)
    requires Valid(s) && upload in s.writers && s.writers[upload].created
    requires s.writers[upload].scope in s.scopes && !s.closed
    requires s.scopes[s.writers[upload].scope].bytes + s.writers[upload].written <= MAX_DRAFT_STAGING_BYTES
    ensures
      var w := s.writers[upload];
      var scope := s.scopes[w.scope];
      Valid(s.(scopes := s.scopes[w.scope := scope.(
                 bytes := scope.bytes + w.written,
                 uploads := scope.uploads[upload := Upload(Path(w.scope, upload), w.written, false)])],
               writers := s.writers - {upload}))
  {
    var w := s.writers[upload];
    var scope := s.scopes[w.scope];
    var added := Upload(Path(w.scope, upload), w.written, false);
    var t := s.(scopes := s.scopes[w.scope := scope.(bytes := scope.bytes + w.written,
                                                     uploads := scope.uploads[upload := added])],
                writers := s.writers - {upload});
    assert !Registered(s, w.scope, upload);
    TotalAdd(scope.uploads, upload, added);
    assert forall a, u :: Registered(t, a, u) <==> Registered(s, a, u) || (a == w.scope && u == upload);
    assert AllLive(t) by {
      assert forall a, u | Registered(s, a, u) :: Lives(s, a, u);
    }
    hide AllLive, Lives, Total;
  }

  lemma FinishKeeps(s: Store, upload: Id, valid: bool, now: int)
    requires Valid(s) && upload in s.writers
    ensures Valid(Finish(s, upload, valid, now).0)
  {
    var t := Sweep(s, now);
    SweepKeeps(s, now);
    SweepUses(s, now);
    AbandonKeeps(s, upload);
    AbandonKeeps(t, upload);
    hide Sweep, Valid, Abandon;
    if Finish(s, upload, valid, now).1.Ok? {
      RegisterKeeps(t, upload);
    }
  }

  /** Changing flags of one scope's uploads. */
  lemma FlagsKeep(s: Store, scope: Id, ids: seq<Id>, reserved: bool)
    requires Valid(s) && scope in s.scopes
    ensures
      var flagged := WithFlag(s.scopes[scope].uploads, ids, reserved);
      Valid(s.(scopes := s.scopes[scope := s.scopes[scope].(uploads := flagged)]))
  {
    var flagged := WithFlag(s.scopes[scope].uploads, ids, reserved);
    var t := s.(scopes := s.scopes[scope := s.scopes[scope].(uploads := flagged)]);
    TotalSameBytes(s.scopes[scope].uploads, flagged);
    assert SubRegistered(s, t);
    assert AllLive(t) by {
      assert forall a, u | Registered(t, a, u) :: Lives(s, a, u);
    }
    hide AllLive, OneOwner, DoomedSound, SubRegistered, Total;
    FrameKeeps(s, t);
  }

  lemma ReserveKeeps(s: Store, step: Step)
    requires Valid(s) && step.DoReserve?
    ensures Valid(Next(s, step))
  {
    var t := Sweep(s, step.now);
    SweepKeeps(s, step.now);
    hide Sweep, Valid, Total, BytesOf;
    if step.scope in t.scopes {
      FlagsKeep(t, step.scope, step.ids, true);
    }
  }

  lemma CommitOneKeeps(s: Store, scope: Id, id: Id)
    requires Valid(s)
    ensures Valid(CommitOne(s, scope, id))
  {
    if Registered(s, scope, id) {
      var t := CommitOne(s, scope, id);
      var path := s.scopes[scope].uploads[id].path;
      TotalRemove(s.scopes[scope].uploads, id);
      assert Lives(s, scope, id) && path.upload == id;
      assert SubRegistered(s, t);
      assert AllLive(t) by {
        assert forall a, u | Registered(t, a, u) :: Lives(s, a, u);
      }
      assert forall a :: !Registered(t, a, id);
      hide AllLive, OneOwner, DoomedSound, SubRegistered, Total;
      assert DoomedCarried(s, t);
      FrameKeeps(s, t);
    }
  }

  lemma {:induction false} CommitKeeps(s: Store, scope: Id, ids: seq<Id>)
    requires Valid(s)
    ensures Valid(Commit(s, scope, ids))
  {
    hide Valid, CommitOne;
    if ids != [] {
      CommitKeeps(s, scope, ids[..|ids| - 1]);
      CommitOneKeeps(Commit(s, scope, ids[..|ids| - 1]), scope, ids[|ids| - 1]);
    }
  }

  lemma RefreshKeeps(s: Store, scope: Id, selection: nat, token: nat, now: int)
    requires Valid(s)
    ensures Valid(Refresh(s, scope, selection, token, now))
  {
    var t := Refresh(s, scope, selection, token, now);
    assert SubRegistered(s, t);
    assert AllLive(t) by {
      assert forall a, u | Registered(t, a, u) :: Lives(s, a, u);
    }
    hide AllLive, OneOwner, DoomedSound, SubRegistered, Total;
    FrameKeeps(s, t);
  }

  lemma CloseKeeps(s: Store)
    requires Valid(s)
    ensures Valid(Close(s))
  {
    var t := Close(s);
    if t != s {
      assert SubRegistered(s, t);
      FrameKeeps(s, t);
    }
  }

  // ---------- transfers ----------

  lemma LastAndFront(ids: seq<Id>)
    requires ids != []
    ensures var front, last := ids[..|ids| - 1], ids[|ids| - 1];
            && last in ids && (forall id | id in front :: id in ids)
            && IdSet(ids) == IdSet(front) + {last}
            && (Distinct(ids) ==> Distinct(front) && last !in front)
  {
    assert ids == ids[..|ids| - 1] + [ids[|ids| - 1]];
  }

  lemma TakeOneMore(to: map<Id, Upload>, from: map<Id, Upload>, ids: seq<Id>, reserved: bool)
    requires ids != [] && forall id | id in ids :: id in from
    ensures var front, last := ids[..|ids| - 1], ids[|ids| - 1];
            && (forall id | id in front :: id in from)
            && (to + Taken(from, front, reserved))[last := from[last].(reserved := reserved)] ==
               to + Taken(from, ids, reserved)
  {
    LastAndFront(ids);
    hide IdSet;
  }

  lemma {:induction false} TotalAddAll(to: map<Id, Upload>, from: map<Id, Upload>, ids: seq<Id>, reserved: bool)
    requires Distinct(ids) && forall id | id in ids :: id in from && id !in to
    ensures Total(to + Taken(from, ids, reserved)) == Total(to) + BytesOf(from, ids)
  {
    if ids == [] {
      assert to + Taken(from, ids, reserved) == to;
    } else {
      var front, last := ids[..|ids| - 1], ids[|ids| - 1];
      LastAndFront(ids);
      TakeOneMore(to, from, ids, reserved);
      assert last !in to + Taken(from, front, reserved);
      hide Total, Taken, IdSet, Distinct;
      TotalAddAll(to, from, front, reserved);
      TotalAdd(to + Taken(from, front, reserved), last, from[last].(reserved := reserved));
    }
  }

  /** After a move the listed ids are registered in the destination and nowhere else. */
  ghost predicate MovedTo(s: Store, t: Store, source: Id, destination: Id, ids: set<Id>) {
    && t.scopes.Keys == s.scopes.Keys
    && t == s.(scopes := t.scopes)
    && (forall u | u in ids :: Registered(s, source, u))
    && (forall a, u :: Registered(t, a, u) <==> if u in ids then a == destination else Registered(s, a, u))
    && (forall a, u | Registered(t, a, u) ::
          t.scopes[a].uploads[u].path == s.scopes[if u in ids then source else a].uploads[u].path)
  }

  lemma MoveRegisters(s: Store, source: Id, destination: Id, ids: seq<Id>, reserved: bool)
    requires OneOwner(s) && source in s.scopes && destination in s.scopes && source != destination
    requires MovableFrom(s.scopes[source], ids)
    requires BytesOf(s.scopes[source].uploads, ids) <= s.scopes[source].bytes
    ensures MovedTo(s, Moved(s, source, destination, ids, reserved), source, destination, IdSet(ids))
  {
    hide BytesOf;
    var t, moved := Moved(s, source, destination, ids, reserved), IdSet(ids);
    assert forall u | u in moved :: Registered(s, source, u);
    assert forall u :: Registered(t, source, u) <==> Registered(s, source, u) && u !in moved;
    assert forall u :: Registered(t, destination, u) <==> Registered(s, destination, u) || u in moved;
    assert forall a, u | a != source && a != destination :: Registered(t, a, u) <==> Registered(s, a, u);
  }

  lemma MovedToKeeps(s: Store, t: Store, source: Id, destination: Id, ids: set<Id>)
    requires Valid(s) && Accounted(t) && MovedTo(s, t, source, destination, ids)
    ensures Valid(t)
  {
    assert AllLive(t) by {
      assert forall a, u | Registered(t, a, u) :: Lives(s, if u in ids then source else a, u);
    }
    hide AllLive, Accounted;
  }

  lemma MoveAccounts(s: Store, source: Id, destination: Id, ids: seq<Id>, reserved: bool)
    requires Accounted(s) && OneOwner(s) && Distinct(ids)
    requires source in s.scopes && destination in s.scopes && source != destination
    requires MovableFrom(s.scopes[source], ids)
    requires BytesOf(s.scopes[source].uploads, ids) <= s.scopes[source].bytes
    requires s.scopes[destination].bytes + BytesOf(s.scopes[source].uploads, ids) <= MAX_DRAFT_STAGING_BYTES
    ensures Accounted(Moved(s, source, destination, ids, reserved))
  {
    var from, to := s.scopes[source], s.scopes[destination];
    TotalRemoveAll(from.uploads, ids);
    forall id | id in ids
      ensures id in from.uploads && id !in to.uploads
    {
      assert Registered(s, source, id) && (id in to.uploads ==> Registered(s, destination, id));
    }
    TotalAddAll(to.uploads, from.uploads, ids, reserved);
    hide Total, BytesOf, Taken, OneOwner;
  }

  /** Moving reserved uploads between scopes, or changing flags within one. */
  lemma MovedKeeps(s: Store, source: Id, destination: Id, ids: seq<Id>, reserved: bool)
    requires Valid(s) && Distinct(ids) && source in s.scopes && destination in s.scopes
    requires MovableFrom(s.scopes[source], ids)
    requires BytesOf(s.scopes[source].uploads, ids) <= s.scopes[source].bytes
    requires source != destination ==>
               s.scopes[destination].bytes + BytesOf(s.scopes[source].uploads, ids) <= MAX_DRAFT_STAGING_BYTES
    ensures Valid(Moved(s, source, destination, ids, reserved))
  {
    hide BytesOf, Total, Accounted, AllLive, OneOwner, WritersSound, DoomedSound, IdsUsed, MovableFrom;
    if source == destination {
      FlagsKeep(s, source, ids, reserved);
    } else {
      hide Moved;
      MoveAccounts(s, source, destination, ids, reserved);
      MoveRegisters(s, source, destination, ids, reserved);
      MovedToKeeps(s, Moved(s, source, destination, ids, reserved), source, destination, IdSet(ids));
    }
  }

  lemma TransferKeeps(s: Store, step: Step)
    requires Valid(s) && step.DoTransfer?
    ensures Valid(Next(s, step))
  {
    var t := Refresh(s, step.destination, step.selection, step.token, step.now);
    RefreshKeeps(s, step.destination, step.selection, step.token, step.now);
    assert Accounted(t);
    hide Refresh, Valid, Moved, SelectionUsage;
    if Transfer(s, step.source, step.destination, step.selection, step.token, step.ids,
                step.reserved, step.selected, step.now).1.Ok? {
      TotalRemoveAll(t.scopes[step.source].uploads, step.ids);
      hide BytesOf, Total, Accounted;
      MovedKeeps(t, step.source, step.destination, step.ids, step.reserved);
    }
  }

  /** Every step of every caller keeps the whole invariant. */
  lemma StepKeeps(s: Store, step: Step)
    requires Valid(s)
    ensures Valid(Next(s, step))
  {
    hide Valid, OpenScope, BeginUpload, CreateFile, WriteBytes, Abandon, Finish, Reserve, Rollback, Commit,
      RemoveDoomed, Transfer, Sweep, Close;
    match step
    case DoOpen(key, now, minted) => if minted !in s.usedScopes { OpenKeeps(s, key, now, minted); }
    case DoBegin(_, _, _, _, _, minted) => if minted !in s.usedUploads { BeginKeeps(s, step); }
    case DoCreateFile(upload) => CreateFileKeeps(s, upload);
    case DoWrite(upload, count) => WriteBytesKeeps(s, upload, count);
    case DoAbandon(upload) => if upload in s.writers { AbandonKeeps(s, upload); }
    case DoFinish(upload, valid, now) => if upload in s.writers { FinishKeeps(s, upload, valid, now); }
    case DoReserve(_, _, _, _, _) => ReserveKeeps(s, step);
    case DoRollback(scope, ids) => RollbackKeeps(s, scope, ids);
    case DoCommit(scope, ids) => CommitKeeps(s, scope, ids);
    case DoRemoveDoomed(path) => RemoveDoomedKeeps(s, path);
    case DoTransfer(_, _, _, _, _, _, _, _) => TransferKeeps(s, step);
    case DoSweep(now) => SweepKeeps(s, now);
    case DoClose => CloseKeeps(s);
  }

  lemma RollbackKeeps(s: Store, scope: Id, ids: seq<Id>)
    requires Valid(s)
    ensures Valid(Rollback(s, scope, ids))
  {
    hide Valid;
    if scope in s.scopes {
      FlagsKeep(s, scope, ids, false);
    }
  }

  lemma EmptyIsValid()
    ensures Valid(EMPTY_STORE)
  {
  }

  ghost function Run(steps: seq<Step>): (s: Store)
    ensures Valid(s)
  {
    if steps == [] then EmptyIsValid(); EMPTY_STORE
    else
      StepKeeps(Run(steps[..|steps| - 1]), steps[|steps| - 1]);
      Next(Run(steps[..|steps| - 1]), steps[|steps| - 1])
  }

  /**
    In every reachable state, under any interleaving of uploads, transfers,
    sweeps, commits and abandoned writers: each registered upload has its file
    and the scope that owns its directory, each scope's bytes are the sum of
    its uploads and within quota, and no upload has two owners.
  */
  lemma ReachableStatesAreSound(steps: seq<Step>, scope: Id, upload: Id)
    requires Registered(Run(steps), scope, upload)
    ensures
      var s := Run(steps);
      var path := s.scopes[scope].uploads[upload].path;
      && path.upload == upload && path in s.files && path.scope in s.scopes
      && s.scopes[scope].bytes == Total(s.scopes[scope].uploads) <= MAX_DRAFT_STAGING_BYTES
      && forall other | Registered(s, other, upload) :: other == scope
  {
    hide Run, Total;
    assert Lives(Run(steps), scope, upload);
  }

  /** A scope that holds a reserved upload survives every sweep unchanged. */
  lemma ReservedScopeSurvivesSweep(s: Store, scope: Id, now: int)
    requires scope in s.scopes && HoldsReserved(s.scopes[scope])
    ensures scope in Sweep(s, now).scopes && Sweep(s, now).scopes[scope] == s.scopes[scope]
  {
  }

  // ---------- one holder per upload ----------

  ghost predicate Held(s: Store, upload: Id) {
    exists scope :: Registered(s, scope, upload) && s.scopes[scope].uploads[upload].reserved
  }

  ghost predicate HandsOut(s: Store, step: Step, upload: Id) {
    && step.DoReserve? && upload in step.ids
    && Reserve(s, step.scope, step.selection, step.token, step.ids, step.now).1.Ok?
  }

  /** The calls that give an upload back: they name it, or end the store. */
  predicate Releases(step: Step, upload: Id) {
    match step
    case DoRollback(_, ids) => upload in ids
    case DoCommit(_, ids) => upload in ids
    case DoTransfer(_, _, _, _, ids, reserved, _, _) => !reserved && upload in ids
    case DoClose => true
    case _ => false
  }

  lemma SweepKeepsHeld(s: Store, now: int, upload: Id)
    requires Held(s, upload)
    ensures Held(Sweep(s, now), upload)
  {
    var scope :| Registered(s, scope, upload) && s.scopes[scope].uploads[upload].reserved;
    ReservedScopeSurvivesSweep(s, scope, now);
    assert Registered(Sweep(s, now), scope, upload);
  }

  lemma {:induction false} CommitKeepsOthers(s: Store, scope: Id, ids: seq<Id>, upload: Id)
    requires upload !in ids && Held(s, upload)
    ensures Held(Commit(s, scope, ids), upload)
  {
    if ids != [] {
      var before, id := Commit(s, scope, ids[..|ids| - 1]), ids[|ids| - 1];
      CommitKeepsOthers(s, scope, ids[..|ids| - 1], upload);
      assert id != upload;
      var home :| Registered(before, home, upload) && before.scopes[home].uploads[upload].reserved;
      assert Registered(CommitOne(before, scope, id), home, upload);
    }
  }

  lemma MovedKeepsHeld(s: Store, source: Id, destination: Id, ids: seq<Id>, reserved: bool, home: Id, upload: Id)
    requires OneOwner(s) && source in s.scopes && destination in s.scopes
    requires MovableFrom(s.scopes[source], ids)
    requires BytesOf(s.scopes[source].uploads, ids) <= s.scopes[source].bytes
    requires Registered(s, home, upload) && s.scopes[home].uploads[upload].reserved
    requires upload in ids ==> reserved
    ensures Held(Moved(s, source, destination, ids, reserved), upload)
  {
    hide BytesOf;
    var t := Moved(s, source, destination, ids, reserved);
    var now := if upload in ids then destination else home;
    assert upload in ids ==> Registered(s, source, upload);
    assert Registered(t, now, upload) && t.scopes[now].uploads[upload].reserved;
  }

  lemma TransferKeepsHeld(s: Store, step: Step, home: Id, upload: Id)
    requires Valid(s) && step.DoTransfer? && !Releases(step, upload)
    requires Registered(s, home, upload) && s.scopes[home].uploads[upload].reserved
    ensures Held(Next(s, step), upload)
  {
    var t := Refresh(s, step.destination, step.selection, step.token, step.now);
    assert Registered(t, home, upload) && t.scopes[home].uploads[upload].reserved;
    RefreshKeeps(s, step.destination, step.selection, step.token, step.now);
    assert Accounted(t) && OneOwner(t);
    hide Refresh, SelectionUsage, Valid, OneOwner, Moved, Live;
    if Transfer(s, step.source, step.destination, step.selection, step.token, step.ids,
                step.reserved, step.selected, step.now).1.Ok? {
      TotalRemoveAll(t.scopes[step.source].uploads, step.ids);
      hide Total, BytesOf, Accounted;
      MovedKeepsHeld(t, step.source, step.destination, step.ids, step.reserved, home, upload);
    }
  }

  lemma HeldAfterSweep(s: Store, now: int, home: Id, upload: Id)
    requires Registered(s, home, upload) && s.scopes[home].uploads[upload].reserved
    ensures Registered(Sweep(s, now), home, upload) && Sweep(s, now).scopes[home] == s.scopes[home]
  {
    ReservedScopeSurvivesSweep(s, home, now);
  }

  /** Steps that start with a sweep and then add to, or flag, one scope. */
  lemma SweepingStepKeepsHeld(s: Store, step: Step, home: Id, upload: Id)
    requires Valid(s) && Registered(s, home, upload) && s.scopes[home].uploads[upload].reserved
    requires step.DoOpen? || step.DoBegin? || step.DoFinish? || step.DoReserve?
    ensures Held(Next(s, step), upload)
  {
    HeldAfterSweep(s, step.now, home, upload);
    SweepUses(s, step.now);
    assert home in s.usedScopes && (step.DoFinish? && step.upload in s.writers ==> step.upload != upload);
    var u := Next(s, step);
    OtherSweepersKeepHeld(s, step, home, upload);
    if step.DoFinish? && step.upload in s.writers {
      FinishScopes(s, step.upload, step.valid, step.now, home, upload);
    }
    hide Valid, Sweep, Live, OpenScope, BeginUpload, Reserve, Finish, Rollback, Commit, Transfer, Close;
    assert Registered(u, home, upload) && u.scopes[home].uploads[upload].reserved;
  }

  lemma OtherSweepersKeepHeld(s: Store, step: Step, home: Id, upload: Id)
    requires step.DoOpen? || step.DoBegin? || step.DoFinish? || step.DoReserve?
    requires Registered(s, home, upload) && s.scopes[home].uploads[upload].reserved && home in s.usedScopes
    requires Registered(Sweep(s, step.now), home, upload) && Sweep(s, step.now).scopes[home] == s.scopes[home]
    ensures step.DoOpen? && step.minted != home ==>
              var u := OpenScope(s, step.key, step.now, step.minted).0;
              Registered(u, home, upload) && u.scopes[home].uploads[upload].reserved
    ensures step.DoBegin? ==>
              var u := BeginUpload(s, step.scope, step.selection, step.token, step.expected, step.now, step.minted).0;
              Registered(u, home, upload) && u.scopes[home].uploads[upload].reserved
    ensures step.DoReserve? ==>
              var u := Reserve(s, step.scope, step.selection, step.token, step.ids, step.now).0;
              Registered(u, home, upload) && u.scopes[home].uploads[upload].reserved
  {
    hide Sweep, Live, BytesOf, Distinct;
  }

  lemma FinishScopes(s: Store, writer: Id, valid: bool, now: int, home: Id, upload: Id)
    requires writer in s.writers && writer != upload
    requires Registered(s, home, upload) && Registered(Sweep(s, now), home, upload)
    requires Sweep(s, now).scopes[home] == s.scopes[home] && Sweep(s, now).writers == s.writers
    ensures Registered(Finish(s, writer, valid, now).0, home, upload)
    ensures Finish(s, writer, valid, now).0.scopes[home].uploads[upload] == s.scopes[home].uploads[upload]
  {
    hide Sweep, Live;
  }

  /** A held upload stays held until a call releases it. */
  lemma HeldUntilReleased(s: Store, step: Step, upload: Id)
    requires Valid(s) && Held(s, upload) && !Releases(step, upload)
    ensures Held(Next(s, step), upload)
  {
    var home :| Registered(s, home, upload) && s.scopes[home].uploads[upload].reserved;
    hide Valid, OpenScope, BeginUpload, Finish, Reserve, Commit, Transfer, Sweep;
    match step
    case DoTransfer(_, _, _, _, _, _, _, _) => TransferKeepsHeld(s, step, home, upload);
    case DoCommit(scope, ids) => CommitKeepsOthers(s, scope, ids, upload);
    case DoOpen(_, _, _) => SweepingStepKeepsHeld(s, step, home, upload);
    case DoBegin(_, _, _, _, _, _) => SweepingStepKeepsHeld(s, step, home, upload);
    case DoFinish(_, _, _) => SweepingStepKeepsHeld(s, step, home, upload);
    case DoReserve(_, _, _, _, _) => SweepingStepKeepsHeld(s, step, home, upload);
    case DoSweep(now) => HeldAfterSweep(s, now, home, upload);
    case DoCreateFile(_) => assert Registered(Next(s, step), home, upload);
    case DoWrite(_, _) => assert Registered(Next(s, step), home, upload);
    case DoAbandon(_) => assert Registered(Next(s, step), home, upload);
    case DoRemoveDoomed(_) => assert Registered(Next(s, step), home, upload);
    case DoRollback(_, _) => assert Registered(Next(s, step), home, upload);
    case DoClose =>
  }

  /** A reservation hands out only what nobody holds, and holds it from then on. */
  lemma HandOutTakesHold(s: Store, step: Step, upload: Id)
    requires Valid(s) && HandsOut(s, step, upload)
    ensures !Held(s, upload) && Held(Next(s, step), upload)
  {
    var t, u := Sweep(s, step.now), Next(s, step);
    SweepKeeps(s, step.now);
    assert Registered(t, step.scope, upload) && !t.scopes[step.scope].uploads[upload].reserved;
    assert Registered(u, step.scope, upload) && u.scopes[step.scope].uploads[upload].reserved;
    assert forall scope | Registered(t, scope, upload) :: scope == step.scope;
    if Held(s, upload) {
      SweepKeepsHeld(s, step.now, upload);
    }
  }

  lemma RunStep(steps: seq<Step>, j: nat)
    requires 0 < j <= |steps|
    ensures Run(steps[..j]) == Next(Run(steps[..j - 1]), steps[j - 1])
  {
    hide Next, Valid;
    assert steps[..j][..j - 1] == steps[..j - 1];
  }

  /** An upload held once and not held later was given back by a step in between. */
  lemma {:induction false} GivenBack(steps: seq<Step>, i: nat, j: nat, upload: Id) returns (k: nat)
    requires i < j <= |steps| && Held(Run(steps[..i]), upload) && !Held(Run(steps[..j]), upload)
    ensures i <= k < j && Held(Run(steps[..k]), upload) && !Held(Run(steps[..k + 1]), upload)
    decreases j
  {
    hide Run, Held;
    if Held(Run(steps[..j - 1]), upload) {
      k := j - 1;
    } else {
      k := GivenBack(steps, i, j - 1, upload);
    }
  }

  /**
    Over any run, between two reservations that hand out the same upload some
    step found it held and left it free, and that step names it: no upload is
    ever in two hands.
  */
  lemma NoDoubleHandOut(steps: seq<Step>, i: nat, j: nat, upload: Id) returns (k: nat)
    requires i < j < |steps|
    requires HandsOut(Run(steps[..i]), steps[i], upload) && HandsOut(Run(steps[..j]), steps[j], upload)
    ensures i < k < j && Releases(steps[k], upload)
    ensures Held(Run(steps[..k]), upload) && !Held(Run(steps[..k + 1]), upload)
  {
    hide Run, Next, Valid, Held, HandsOut, Releases;
    RunStep(steps, i + 1);
    HandOutTakesHold(Run(steps[..i]), steps[i], upload);
    HandOutTakesHold(Run(steps[..j]), steps[j], upload);
    k := GivenBack(steps, i + 1, j, upload);
    RunStep(steps, k + 1);
    if !Releases(steps[k], upload) {
      HeldUntilReleased(Run(steps[..k]), steps[k], upload);
    }
  }

  // ---------- conservation ----------

  /** `t` holds what `s` held, with the ids taken from one scope to the other. */
  ghost predicate Conserved(s: Store, t: Store, source: Id, destination: Id, ids: seq<Id>, reserved: bool)
    requires source in s.scopes && destination in s.scopes
  {
    if source == destination then
      && t.scopes.Keys == s.scopes.Keys && t == s.(scopes := t.scopes)
      && t.scopes[source].bytes == s.scopes[source].bytes
      && t.scopes[source].uploads == WithFlag(s.scopes[source].uploads, ids, reserved)
    else
      && MovedTo(s, t, source, destination, IdSet(ids))
      && t.scopes[source].bytes + t.scopes[destination].bytes == s.scopes[source].bytes + s.scopes[destination].bytes
      && forall u | u in IdSet(ids) ::
           && Registered(t, destination, u)
           && t.scopes[destination].uploads[u] == s.scopes[source].uploads[u].(reserved := reserved)
  }

  lemma MovedConserves(s: Store, source: Id, destination: Id, ids: seq<Id>, reserved: bool)
    requires OneOwner(s) && source in s.scopes && destination in s.scopes
    requires MovableFrom(s.scopes[source], ids)
    requires BytesOf(s.scopes[source].uploads, ids) <= s.scopes[source].bytes
    ensures Conserved(s, Moved(s, source, destination, ids, reserved), source, destination, ids, reserved)
  {
    hide BytesOf, OneOwner;
    if source != destination {
      MoveRegisters(s, source, destination, ids, reserved);
    }
  }

  lemma RefreshOnlyExtends(s: Store, scope: Id, selection: nat, token: nat, now: int)
    ensures
      var u := Refresh(s, scope, selection, token, now);
      && u.scopes.Keys == s.scopes.Keys
      && forall a | a in s.scopes :: u.scopes[a] == s.scopes[a].(expiresAt := u.scopes[a].expiresAt)
  {
    hide HoldsReserved;
  }

  /**
    A transfer conserves. Refreshing the destination's deadline aside, it
    either refuses and changes nothing, or takes every listed upload, with its
    path and size, from the one scope to the other, the bytes going along.
  */
  lemma TransferConserves(s: Store, source: Id, destination: Id, selection: nat, token: nat, ids: seq<Id>,
                          reserved: bool, selected: Option<seq<Id>>, now: int)
    requires Valid(s)
    ensures
      var u := Refresh(s, destination, selection, token, now);
      var (t, r) := Transfer(s, source, destination, selection, token, ids, reserved, selected, now);
      && u.scopes.Keys == s.scopes.Keys
      && (forall a | a in s.scopes :: u.scopes[a] == s.scopes[a].(expiresAt := u.scopes[a].expiresAt))
      && if r.Err? then t == s || t == u
         else source in u.scopes && destination in u.scopes && Conserved(u, t, source, destination, ids, reserved)
  {
    var u := Refresh(s, destination, selection, token, now);
    RefreshKeeps(s, destination, selection, token, now);
    RefreshOnlyExtends(s, destination, selection, token, now);
    assert Accounted(u) && OneOwner(u);
    hide Valid, SelectionUsage, OneOwner, Moved, Conserved, Refresh, Live;
    if Transfer(s, source, destination, selection, token, ids, reserved, selected, now).1.Ok? {
      TotalRemoveAll(u.scopes[source].uploads, ids);
      hide Total, BytesOf, Accounted;
      MovedConserves(u, source, destination, ids, reserved);
    }
  }

  /** A refused reservation flags nothing; a granted one flags exactly the listed ids. */
  lemma ReserveIsAllOrNothing(s: Store, scope: Id, selection: nat, token: nat, ids: seq<Id>, now: int)
    ensures
      var (t, r) := Reserve(s, scope, selection, token, ids, now);
      if r.Err? || ids == [] then t == s || t == Sweep(s, now)
      else
        && scope in Sweep(s, now).scopes && t.scopes.Keys == Sweep(s, now).scopes.Keys
        && forall a, u | a in t.scopes && u in t.scopes[a].uploads ::
             t.scopes[a].uploads[u].reserved <==>
               (a == scope && u in ids) || Sweep(s, now).scopes[a].uploads[u].reserved
  {
    hide Sweep;
  }
}
