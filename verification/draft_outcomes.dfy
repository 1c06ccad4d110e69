/**
  What each call to the draft store answers and leaves, told from the store it
  meets: whom a sweep drops, when an upload begins, registers, is handed out,
  unregistered or moved, and that nothing else changes.
*/
module DraftOutcomes {
  import opened Wrappers
  import opened DraftModel
  import opened Draft

  // ---------- sweeping ----------

  /** The scope's hour has passed, nobody holds one of its uploads, and no other scope owns one that lies in its directory. */
  ghost predicate Stale(s: Store, id: Id, now: int)
    requires id in s.scopes
  {
    && s.scopes[id].expiresAt <= now
    && (forall u | Registered(s, id, u) :: !s.scopes[id].uploads[u].reserved)
    && forall other, u | Registered(s, other, u) && other != id :: s.scopes[other].uploads[u].path.scope != id
  }

  /** A sweep drops exactly the stale scopes, with what lies in their directories and the keys that led to them. */
  lemma SweptIff(s: Store, now: int)
    ensures
      var t := Sweep(s, now);
      && (forall id :: id in t.scopes <==> id in s.scopes && !Stale(s, id, now))
      && (forall id | id in t.scopes :: t.scopes[id] == s.scopes[id])
      && (forall p :: p in t.files <==> p in s.files && !(p.scope in s.scopes && Stale(s, p.scope, now)))
      && (forall key :: key in t.clients <==>
            key in s.clients && !(s.clients[key] in s.scopes && Stale(s, s.clients[key], now)))
      && (forall key | key in t.clients :: t.clients[key] == s.clients[key])
      && t.writers == s.writers && t.doomed == s.doomed && t.closed == s.closed
  {
    forall id | id in s.scopes
      ensures id in Expired(s, now) <==> Stale(s, id, now)
    {
      StaleIff(s, id, now);
    }
    hide Stale, Referenced, HoldsReserved;
  }

  lemma StaleIff(s: Store, id: Id, now: int)
    requires id in s.scopes
    ensures Stale(s, id, now) <==> s.scopes[id].expiresAt <= now && !HoldsReserved(s.scopes[id]) && !Referenced(s, id)
  {
    if Referenced(s, id) {
      var other :| other in s.scopes && other != id
                   && exists u | u in s.scopes[other].uploads :: s.scopes[other].uploads[u].path.scope == id;
      var u :| u in s.scopes[other].uploads && s.scopes[other].uploads[u].path.scope == id;
      assert Registered(s, other, u);
    }
    if HoldsReserved(s.scopes[id]) {
      var u :| u in s.scopes[id].uploads && s.scopes[id].uploads[u].reserved;
      assert Registered(s, id, u);
    }
  }

  // ---------- scopes ----------

  /** The caller's scope: open, of this selection and token, and within its hour. */
  predicate Usable(s: Store, scope: Id, selection: nat, token: nat, now: int) {
    && !s.closed && scope in s.scopes && now < s.scopes[scope].expiresAt
    && s.scopes[scope].selection == selection && s.scopes[scope].token == token
  }

  lemma UsableSurvives(s: Store, scope: Id, selection: nat, token: nat, now: int)
    ensures Live(Sweep(s, now), scope, selection, token, now) <==> Usable(s, scope, selection, token, now)
    ensures Usable(s, scope, selection, token, now) ==> Sweep(s, now).scopes[scope] == s.scopes[scope]
  {
    SweptIff(s, now);
    hide Sweep;
  }

  /** The scope a client key leads to while its hour lasts. */
  ghost predicate LeadsTo(s: Store, key: ClientKey, now: int, scope: Id) {
    key in s.clients && s.clients[key] == scope && scope in s.scopes && now < s.scopes[scope].expiresAt
  }

  /**
    A client is given the scope it has, or a new empty one for an hour; only a
    closed store refuses; and asking again within the hour gives the same scope.
  */
  lemma OpenAnswers(s: Store, key: ClientKey, now: int, minted: Id, later: int, other: Id)
    requires minted !in s.scopes && now <= later
    ensures
      var (t, r) := OpenScope(s, key, now, minted);
      && (r.Ok? <==> !s.closed)
      && (r.Ok? ==>
            && LeadsTo(t, key, now, r.value)
            && (if exists scope :: LeadsTo(s, key, now, scope) then LeadsTo(s, key, now, r.value)
                else r.value == minted && t.scopes[minted] == Scope(key.selection, key.token, now + 3_600_000, map[], 0))
            && (later < t.scopes[r.value].expiresAt ==> OpenScope(t, key, later, other).1 == r))
  {
    hide Sweep;
    SweptIff(s, now);
    var (t, r) := OpenScope(s, key, now, minted);
    SweptIff(t, later);
    hide Stale;
    if r.Ok? {
      if LeadsTo(s, key, now, r.value) {
        assert t.clients[key] == r.value;
      }
      StaleIsLate(s, now);
      StaleIsLate(t, later);
    }
  }

  lemma StaleIsLate(s: Store, now: int)
    ensures forall id | id in s.scopes && Stale(s, id, now) :: s.scopes[id].expiresAt <= now
  {
  }

  // ---------- uploading ----------

  /** An upload of 1 to 8 MiB begins in a usable scope; a refused one leaves no writer. */
  lemma BeginAnswers(s: Store, scope: Id, selection: nat, token: nat, expected: nat, now: int, minted: Id)
    ensures
      var (t, r) := BeginUpload(s, scope, selection, token, expected, now, minted);
      && (r.Ok? <==> 1 <= expected <= 8_388_608 && Usable(s, scope, selection, token, now))
      && (t.scopes == s.scopes || t.scopes == Sweep(s, now).scopes)
      && t.writers == (if r.Ok? then s.writers[minted := Writer(scope, selection, token, expected, 0, false)] else s.writers)
  {
    UsableSurvives(s, scope, selection, token, now);
    SweptIff(s, now);
    hide Sweep, Stale, Live, Usable;
    assert Usable(s, scope, selection, token, now) ==> !s.closed by { UsableIsOpen(s, scope, selection, token, now); }
  }

  lemma UsableIsOpen(s: Store, scope: Id, selection: nat, token: nat, now: int)
    ensures Usable(s, scope, selection, token, now) ==> !s.closed
  {
  }

  /** A finished upload is complete, sound, in a usable scope and within its 128 MiB. */
  ghost predicate Finishable(s: Store, upload: Id, valid: bool, now: int)
    requires upload in s.writers
  {
    var w := s.writers[upload];
    && w.created && valid && w.written == w.expected && Usable(s, w.scope, w.selection, w.token, now)
    && s.scopes[w.scope].bytes + w.written <= 134_217_728
  }

  /**
    The writer is gone either way. On success its upload is registered, unreserved,
    in its own scope; otherwise its file is gone and nothing is registered.
  */
  lemma FinishAnswers(s: Store, upload: Id, valid: bool, now: int)
    requires upload in s.writers
    ensures
      var (t, r) := Finish(s, upload, valid, now);
      var w := s.writers[upload];
      && (r.Ok? <==> Finishable(s, upload, valid, now))
      && t.writers == s.writers - {upload}
      && (if r.Ok? then
            var scope := s.scopes[w.scope];
            t.scopes == Sweep(s, now).scopes[w.scope :=
              scope.(bytes := scope.bytes + w.written,
                     uploads := scope.uploads[upload := Upload(Path(w.scope, upload), w.written, false)])]
          else
            && (t.scopes == s.scopes || t.scopes == Sweep(s, now).scopes) && Path(w.scope, upload) !in t.files)
  {
    var w := s.writers[upload];
    UsableSurvives(s, w.scope, w.selection, w.token, now);
    SweptIff(s, now);
    hide Sweep, Stale, Live, Usable;
  }

  // ---------- reserving ----------

  /** At most eight different uploads of a usable scope, none of them held, of 32 MiB together. */
  predicate MayReserve(s: Store, scope: Id, selection: nat, token: nat, ids: seq<Id>, now: int) {
    && |ids| <= 8 && (forall i, j | 0 <= i < j < |ids| :: ids[i] != ids[j])
    && Usable(s, scope, selection, token, now)
    && (forall i | 0 <= i < |ids| :: ids[i] in s.scopes[scope].uploads && !s.scopes[scope].uploads[ids[i]].reserved)
    && (forall id | id in ids :: id in s.scopes[scope].uploads)
    && BytesOf(s.scopes[scope].uploads, ids) <= 33_554_432
  }

  /** The paths handed out are those of the listed uploads, in the order they are listed. */
  lemma ReserveAnswers(s: Store, scope: Id, selection: nat, token: nat, ids: seq<Id>, now: int)
    ensures
      var (t, r) := Reserve(s, scope, selection, token, ids, now);
      && (r.Ok? <==> ids == [] || MayReserve(s, scope, selection, token, ids, now))
      && (r.Ok? && ids != [] ==>
            && MayReserve(s, scope, selection, token, ids, now) && |r.value| == |ids|
            && (forall i | 0 <= i < |ids| :: r.value[i] == s.scopes[scope].uploads[ids[i]].path)
            && Flagged(s.scopes[scope], t, scope, ids, true)
            && forall other | other in t.scopes && other != scope :: t.scopes[other] == Sweep(s, now).scopes[other])
      && (r.Ok? && ids == [] ==> r.value == [] && t == s)
  {
    UsableSurvives(s, scope, selection, token, now);
    hide Sweep, Live, BytesOf;
    if ids != [] && |ids| <= 8 && Distinct(ids) && Usable(s, scope, selection, token, now) {
      ListedIff(s.scopes[scope], ids);
    }
  }

  lemma ListedIff(scope: Scope, ids: seq<Id>)
    ensures (forall id | id in ids :: id in scope.uploads && !scope.uploads[id].reserved) <==>
            (forall i | 0 <= i < |ids| :: ids[i] in scope.uploads && !scope.uploads[ids[i]].reserved)
            && forall id | id in ids :: id in scope.uploads
  {
  }

  /** `scope` holds in `t` the uploads it held, those listed with this flag. */
  predicate Flagged(was: Scope, t: Store, scope: Id, ids: seq<Id>, reserved: bool) {
    && scope in t.scopes
    && var now := t.scopes[scope];
    && now == was.(uploads := now.uploads) && now.uploads.Keys == was.uploads.Keys
    && forall u | u in was.uploads ::
         now.uploads[u] == if u in ids then was.uploads[u].(reserved := reserved) else was.uploads[u]
  }

  lemma RollbackLeaves(s: Store, scope: Id, ids: seq<Id>)
    ensures
      var t := Rollback(s, scope, ids);
      if scope !in s.scopes then t == s
      else
        && Flagged(s.scopes[scope], t, scope, ids, false) && t == s.(scopes := t.scopes)
        && t.scopes.Keys == s.scopes.Keys
        && forall other | other in s.scopes && other != scope :: t.scopes[other] == s.scopes[other]
  {
  }

  // ---------- committing ----------

  /** The registered uploads among the listed ones. */
  ghost function Listed(s: Store, scope: Id, ids: seq<Id>): set<Id> {
    set u | u in ids && scope in s.scopes && u in s.scopes[scope].uploads
  }

  /** What a commit must have done once it has gone through `ids`. */
  ghost predicate Committed(s: Store, t: Store, scope: Id, ids: seq<Id>) {
    && t == s.(scopes := t.scopes, doomed := t.doomed) && t.scopes.Keys == s.scopes.Keys
    && (forall other | other in s.scopes && other != scope :: t.scopes[other] == s.scopes[other])
    && (scope in s.scopes ==>
          && t.scopes[scope] == s.scopes[scope].(uploads := t.scopes[scope].uploads, bytes := t.scopes[scope].bytes)
          && t.scopes[scope].uploads == s.scopes[scope].uploads - Listed(s, scope, ids)
          && t.scopes[scope].bytes == Total(t.scopes[scope].uploads))
    && t.doomed == s.doomed + PathsOfListed(s, scope, ids)
  }

  /** Their directories. */
  ghost function PathsOfListed(s: Store, scope: Id, ids: seq<Id>): set<Path> {
    set u | u in Listed(s, scope, ids) :: s.scopes[scope].uploads[u].path
  }

  lemma CommitOneLeaves(s: Store, t: Store, scope: Id, front: seq<Id>, id: Id)
    requires Committed(s, t, scope, front)
    ensures Committed(s, CommitOne(t, scope, id), scope, front + [id])
  {
    hide Total, Listed, PathsOfListed;
    OneMoreListed(s, scope, front, id);
    OneMorePath(s, scope, front, id);
    if scope in t.scopes && id in t.scopes[scope].uploads {
      TotalRemove(t.scopes[scope].uploads, id);
      assert t.scopes[scope].uploads - {id} == s.scopes[scope].uploads - Listed(s, scope, front + [id]);
    } else if scope in s.scopes && id in s.scopes[scope].uploads {
      assert id in Listed(s, scope, front);
      ListedHasPath(s, scope, front, id);
      assert Listed(s, scope, front + [id]) == Listed(s, scope, front);
    }
  }

  lemma ListedHasPath(s: Store, scope: Id, ids: seq<Id>, id: Id)
    requires id in Listed(s, scope, ids)
    ensures scope in s.scopes && id in s.scopes[scope].uploads
    ensures s.scopes[scope].uploads[id].path in PathsOfListed(s, scope, ids)
  {
  }

  lemma OneMorePath(s: Store, scope: Id, front: seq<Id>, id: Id)
    ensures PathsOfListed(s, scope, front + [id]) ==
            PathsOfListed(s, scope, front)
            + (if scope in s.scopes && id in s.scopes[scope].uploads then {s.scopes[scope].uploads[id].path} else {})
  {
    OneMoreListed(s, scope, front, id);
    hide Listed;
  }

  /**
    A commit unregisters exactly the listed uploads of the scope, gives their bytes
    back, and marks exactly their directories for removal.
  */
  lemma {:induction false} CommitLeaves(s: Store, scope: Id, ids: seq<Id>)
    requires Accounted(s)
    ensures Committed(s, Commit(s, scope, ids), scope, ids)
  {
    if ids == [] {
      NothingCommitted(s, scope);
    } else {
      hide Committed, CommitOne;
      CommitLeaves(s, scope, ids[..|ids| - 1]);
      CommitOneLeaves(s, Commit(s, scope, ids[..|ids| - 1]), scope, ids[..|ids| - 1], ids[|ids| - 1]);
      assert ids[..|ids| - 1] + [ids[|ids| - 1]] == ids;
    }
  }

  lemma NothingCommitted(s: Store, scope: Id)
    requires Accounted(s)
    ensures Committed(s, s, scope, [])
  {
    hide Total;
    assert Listed(s, scope, []) == {};
    if scope in s.scopes {
      assert s.scopes[scope].uploads - {} == s.scopes[scope].uploads;
    }
  }

  lemma OneMoreListed(s: Store, scope: Id, front: seq<Id>, id: Id)
    ensures Listed(s, scope, front + [id]) ==
            Listed(s, scope, front) + (if scope in s.scopes && id in s.scopes[scope].uploads then {id} else {})
  {
  }

  /** A marked directory goes, with nothing else. */
  lemma RemovalLeaves(s: Store, path: Path)
    ensures RemoveDoomed(s, path).files == (if path in s.doomed then s.files - {path} else s.files)
    ensures RemoveDoomed(s, path).doomed == s.doomed - {path}
    ensures RemoveDoomed(s, path).scopes == s.scopes && RemoveDoomed(s, path).writers == s.writers
  {
  }

  // ---------- transferring ----------

  /** The scope of this selection and token. */
  predicate Belongs(s: Store, scope: Id, selection: nat, token: nat) {
    scope in s.scopes && s.scopes[scope].selection == selection && s.scopes[scope].token == token
  }

  /**
    A transfer needs distinct reserved uploads of the source, a destination that is
    within its hour or holds a reserved upload, both of the caller's selection; and
    with what is selected there already, at most eight images of 32 MiB together.
  */
  predicate MayTransfer(s: Store, source: Id, destination: Id, selection: nat, token: nat, ids: seq<Id>,
                        reserved: bool, selected: Option<seq<Id>>, now: int) {
    && Distinct(ids) && !s.closed && Belongs(s, source, selection, token) && Belongs(s, destination, selection, token)
    && (now < s.scopes[destination].expiresAt || HoldsReserved(s.scopes[destination]))
    && (forall id | id in ids :: id in s.scopes[source].uploads && s.scopes[source].uploads[id].reserved)
    && var there, moved := s.scopes[destination], BytesOf(s.scopes[source].uploads, ids);
    && (match selected
        case None => |there.uploads| + |ids| <= 8 && there.bytes + moved <= 33_554_432
        case Some(chosen) =>
          && |chosen| <= 8 && Distinct(chosen)
          && (forall id | id in chosen :: id in there.uploads && there.uploads[id].reserved == reserved)
          && |chosen| + |ids| <= 8 && BytesOf(there.uploads, chosen) + moved <= 33_554_432)
    && (source != destination ==> there.bytes + moved <= 134_217_728)
  }

  lemma TransferAnswers(s: Store, source: Id, destination: Id, selection: nat, token: nat, ids: seq<Id>,
                        reserved: bool, selected: Option<seq<Id>>, now: int)
    requires Accounted(s)
    ensures Transfer(s, source, destination, selection, token, ids, reserved, selected, now).1.Ok? <==>
            MayTransfer(s, source, destination, selection, token, ids, reserved, selected, now)
  {
    hide Total, BytesOf, HoldsReserved;
    RefreshOnlyExtends(s, destination, selection, token, now);
  }

  /** Before that, whatever it answers, a destination that holds a reserved upload is given another hour. */
  lemma RefreshLeaves(s: Store, scope: Id, selection: nat, token: nat, now: int)
    ensures
      var held := Belongs(s, scope, selection, token) && HoldsReserved(s.scopes[scope]);
      Refresh(s, scope, selection, token, now) ==
      if held then s.(scopes := s.scopes[scope := s.scopes[scope].(expiresAt := now + 3_600_000)]) else s
  {
  }

  // ---------- closing ----------

  /** Unless an upload is between its two halves, closing drops every scope and file; a closed store gives nothing out. */
  lemma CloseLeaves(s: Store)
    requires forall u | u in s.writers :: s.writers[u].created
    ensures Close(s) == s.(closed := true, scopes := map[], clients := map[], files := {})
  {
  }

  lemma ClosedRefuses(s: Store, scope: Id, selection: nat, token: nat, ids: seq<Id>, now: int, key: ClientKey, minted: Id)
    requires s.closed && ids != []
    ensures OpenScope(s, key, now, minted) == (s, Err("drafts closed"))
    ensures BeginUpload(s, scope, selection, token, 1, now, minted).1.Err?
    ensures Reserve(s, scope, selection, token, ids, now).1.Err?
  {
    hide BytesOf;
  }
}
