/**
  The object of src/draft.rs with its maps and loops. Each method is proved to
  take the object where the specification in DraftModel says, so the runs of
  module Draft are runs of this object.
*/
module DraftStore {
  import opened Wrappers
  import opened Sequences
  import opened DraftModel
  import opened Draft

  class DraftImageStore {
    var closed: bool
    var scopes: map<Id, Scope>
    var clientScopes: map<ClientKey, Id>
    var writers: map<Id, Writer>
    var files: set<Path>
    var doomed: set<Path>
    var usedScopes: set<Id>
    var usedUploads: set<Id>

    function State(): Store
      reads this
    {
      Store(closed, scopes, clientScopes, writers, files, doomed, usedScopes, usedUploads)
    }

    constructor ()
      ensures State() == EMPTY_STORE
    {
      closed, scopes, clientScopes, writers := false, map[], map[], map[];
      files, doomed, usedScopes, usedUploads := {}, {}, {}, {};
    }

    /** `sweep_expired_locked`: list what is expired first, then remove it. */
    method SweepExpired(now: int)
      modifies this
      ensures State() == Sweep(old(State()), now)
    {
      var expired := ListExpired(State(), now);
      RemoveScopes(expired);
      clientScopes := map key | key in clientScopes && clientScopes[key] !in expired :: clientScopes[key];
    }

    method RemoveScopes(expired: set<Id>)
      modifies this`scopes, this`files
      ensures scopes == old(scopes) - expired
      ensures files == set p | p in old(files) && p.scope !in expired
    {
      var rest := expired;
      assert scopes - {} == scopes;
      while rest != {}
        invariant rest <= expired
        invariant scopes == old(scopes) - (expired - rest)
        invariant files == set p | p in old(files) && p.scope !in expired - rest
        decreases |rest|
      {
        var id :| id in rest;
        assert expired - (rest - {id}) == (expired - rest) + {id};
        rest := rest - {id};
        scopes := scopes - {id};
        files := set p | p in files && p.scope != id;
      }
      assert expired - {} == expired;
    }

    method OpenDraft(key: ClientKey, now: int, minted: Id) returns (r: Result<Id, string>)
      modifies this
      ensures (State(), r) == OpenScope(old(State()), key, now, minted)
    {
      if closed {
        return Err("drafts closed");
      }
      SweepExpired(now);
      if key in clientScopes && clientScopes[key] in scopes && scopes[clientScopes[key]].expiresAt > now {
        return Ok(clientScopes[key]);
      }
      clientScopes := clientScopes[key := minted];
      scopes := scopes[minted := Scope(key.selection, key.token, now + DRAFT_TTL_MS, map[], 0)];
      usedScopes := usedScopes + {minted};
      r := Ok(minted);
    }

    method DropWriter(upload: Id)
      requires upload in writers
      modifies this`writers, this`files
      ensures State() == Abandon(old(State()), upload)
    {
      files := files - {Path(writers[upload].scope, upload)};
      writers := writers - {upload};
    }

    method FinishUpload(upload: Id, valid: bool, now: int) returns (r: Result<(), string>)
      requires upload in writers
      modifies this
      ensures (State(), r) == Finish(old(State()), upload, valid, now)
    {
      var w := writers[upload];
      if w.written != w.expected || !w.created || !valid {
        DropWriter(upload);
        return Err("upload is incomplete or invalid");
      }
      SweepExpired(now);
      if !Live(State(), w.scope, w.selection, w.token, now) {
        DropWriter(upload);
        return Err("draft scope is unknown or stale");
      }
      var record := scopes[w.scope];
      var next := record.bytes + w.written;
      if next > MAX_DRAFT_STAGING_BYTES {
        DropWriter(upload);
        return Err("draft exceeds the staging quota");
      }
      record := record.(bytes := next,
                        uploads := record.uploads[upload := Upload(Path(w.scope, upload), w.written, false)]);
      scopes := scopes[w.scope := record];
      writers := writers - {upload};
      r := Ok(());
    }

    /** Check every id before flagging any. */
    method ReserveUploads(scope: Id, selection: nat, token: nat, ids: seq<Id>, now: int)
      returns (r: Result<seq<Path>, string>)
      modifies this
      ensures (State(), r) == Reserve(old(State()), scope, selection, token, ids, now)
    {
      if ids == [] {
        return Ok([]);
      }
      if |ids| > MAX_IMAGES_PER_MESSAGE {
        return Err("too many images");
      }
      if !Distinct(ids) {
        return Err("duplicate upload id");
      }
      SweepExpired(now);
      if !Live(State(), scope, selection, token, now) {
        return Err("draft scope is unknown or stale");
      }
      hide Sweep, Live, Distinct;
      var record := scopes[scope];
      var checked, total := CheckUploads(record, ids, false);
      if !checked || total > MAX_RAW_BATCH_BYTES {
        return Err("uploads cannot be reserved");
      }
      var flagged := SetFlags(record.uploads, ids, true);
      scopes := scopes[scope := record.(uploads := flagged)];
      r := Ok(PathsOf(record.uploads, ids));
    }

    method RollbackUploads(scope: Id, ids: seq<Id>)
      modifies this`scopes
      ensures State() == Rollback(old(State()), scope, ids)
    {
      if scope in scopes {
        var flagged := SetFlags(scopes[scope].uploads, ids, false);
        scopes := scopes[scope := scopes[scope].(uploads := flagged)];
      }
    }

    /** Unregister under the lock; the directories go later. */
    method CommitUploads(scope: Id, ids: seq<Id>)
      modifies this`scopes, this`doomed
      ensures State() == Commit(old(State()), scope, ids)
    {
      if scope !in scopes {
        CommitElsewhere(State(), scope, ids);
        return;
      }
      for i := 0 to |ids|
        invariant scope in scopes && State() == Commit(old(State()), scope, ids[..i])
      {
        assert ids[..i + 1][..i] == ids[..i];
        var record := scopes[scope];
        if ids[i] in record.uploads {
          var upload := record.uploads[ids[i]];
          var bytes := if upload.bytes <= record.bytes then record.bytes - upload.bytes else 0;
          scopes := scopes[scope := record.(uploads := record.uploads - {ids[i]}, bytes := bytes)];
          doomed := doomed + {upload.path};
        }
      }
      assert ids[..|ids|] == ids;
    }

    /** Check everything, then move the uploads one by one. */
    method TransferUploads(source: Id, destination: Id, selection: nat, token: nat, ids: seq<Id>,
                           reserved: bool, selected: Option<seq<Id>>, now: int) returns (r: Result<(), string>)
      requires Valid(State())
      modifies this`scopes
      ensures (State(), r) == Transfer(old(State()), source, destination, selection, token, ids, reserved, selected, now)
    {
      if !Distinct(ids) {
        return Err("duplicate image upload id");
      }
      if destination in scopes && scopes[destination].selection == selection
         && scopes[destination].token == token && HoldsReserved(scopes[destination]) {
        scopes := scopes[destination := scopes[destination].(expiresAt := now + DRAFT_TTL_MS)];
      }
      ghost var refreshed := State();
      assert refreshed == Refresh(old(State()), destination, selection, token, now);
      RefreshKeeps(old(State()), destination, selection, token, now);
      assert Accounted(refreshed) && OneOwner(refreshed);
      hide Valid, Refresh, Total, BytesOf, WithFlag, Taken;
      var usage := Option<(nat, nat)>.None;
      if Live(State(), destination, selection, token, now) {
        usage := SelectionUsage(scopes[destination], selected, reserved);
      }
      if usage.None? || source !in scopes
         || scopes[source].selection != selection || scopes[source].token != token {
        return Err("transfer refused");
      }
      var checked, bytes := CheckUploads(scopes[source], ids, true);
      if !checked || usage.value.0 + |ids| > MAX_IMAGES_PER_MESSAGE
         || usage.value.1 + bytes > MAX_RAW_BATCH_BYTES
         || (source != destination && scopes[destination].bytes + bytes > MAX_DRAFT_STAGING_BYTES) {
        return Err("transfer refused");
      }
      MoveUploads(source, destination, ids, reserved);
      r := Ok(());
    }

    method MoveUploads(source: Id, destination: Id, ids: seq<Id>, reserved: bool)
      requires Accounted(State()) && OneOwner(State()) && Distinct(ids)
      requires source in scopes && destination in scopes && MovableFrom(scopes[source], ids)
      modifies this`scopes
      ensures BytesOf(old(scopes)[source].uploads, ids) <= old(scopes)[source].bytes
      ensures State() == Moved(old(State()), source, destination, ids, reserved)
    {
      ghost var before := State();
      TotalRemoveAll(scopes[source].uploads, ids);
      hide Total, Accounted, Distinct, MovableFrom, OneOwner, BytesOf, MoveOne;
      assert ids[..0] == [];
      MoveNone(before, source, destination, reserved);
      hide Moved;
      for i := 0 to |ids|
        invariant source in before.scopes && destination in before.scopes && source in scopes && destination in scopes
        invariant MovableFrom(before.scopes[source], ids[..i])
        invariant BytesOf(before.scopes[source].uploads, ids[..i]) <= before.scopes[source].bytes
        invariant State() == Moved(before, source, destination, ids[..i], reserved)
      {
        MoveOneMore(before, source, destination, ids, i, reserved);
        MoveUpload(source, destination, ids[i], reserved);
        assert i + 1 in {i, i + 1};
      }
      assert ids[..|ids|] == ids;
    }

    method MoveUpload(source: Id, destination: Id, id: Id, reserved: bool)
      requires source in scopes && destination in scopes && id in scopes[source].uploads
      requires scopes[source].uploads[id].bytes <= scopes[source].bytes
      modifies this`scopes
      ensures State() == MoveOne(old(State()), source, destination, id, reserved)
    {
      var record := scopes[source];
      var upload := record.uploads[id];
      scopes := scopes[source := record.(uploads := record.uploads - {id}, bytes := record.bytes - upload.bytes)];
      var dest := scopes[destination];
      scopes := scopes[destination := dest.(bytes := dest.bytes + upload.bytes,
                                            uploads := dest.uploads[id := upload.(reserved := reserved)])];
    }
  }

  method ListExpired(s: Store, now: int) returns (expired: set<Id>)
    ensures expired == Expired(s, now)
  {
    hide HoldsReserved, Referenced;
    var rest := s.scopes.Keys;
    expired := {};
    while rest != {}
      invariant rest <= s.scopes.Keys && expired == Expired(s, now) - rest
      decreases |rest|
    {
      var id :| id in rest;
      rest := rest - {id};
      if s.scopes[id].expiresAt <= now && !HoldsReserved(s.scopes[id]) && !Referenced(s, id) {
        expired := expired + {id};
      }
    }
  }

  lemma {:induction false} CommitElsewhere(s: Store, scope: Id, ids: seq<Id>)
    requires scope !in s.scopes
    ensures Commit(s, scope, ids) == s
  {
    if ids != [] {
      CommitElsewhere(s, scope, ids[..|ids| - 1]);
    }
  }

  /** Every id present with the wanted flag, and the bytes of them all. */
  method CheckUploads(scope: Scope, ids: seq<Id>, reserved: bool) returns (ok: bool, total: nat)
    ensures ok <==> forall id | id in ids :: id in scope.uploads && scope.uploads[id].reserved == reserved
    ensures ok ==> total == BytesOf(scope.uploads, ids)
  {
    total := 0;
    for i := 0 to |ids|
      invariant forall id | id in ids[..i] :: id in scope.uploads && scope.uploads[id].reserved == reserved
      invariant total == BytesOf(scope.uploads, ids[..i])
    {
      assert ids[i] in ids && ids[..i + 1][..i] == ids[..i];
      if ids[i] !in scope.uploads || scope.uploads[ids[i]].reserved != reserved {
        return false, total;
      }
      total := total + scope.uploads[ids[i]].bytes;
    }
    assert ids[..|ids|] == ids;
    ok := true;
  }

  method SetFlags(uploads: map<Id, Upload>, ids: seq<Id>, reserved: bool) returns (flagged: map<Id, Upload>)
    ensures flagged == WithFlag(uploads, ids, reserved)
  {
    flagged := uploads;
    assert WithFlag(uploads, ids[..0], reserved) == uploads;
    for i := 0 to |ids|
      invariant flagged == WithFlag(uploads, ids[..i], reserved)
    {
      assert ids[..i + 1] == ids[..i] + [ids[i]];
      if ids[i] in flagged {
        flagged := flagged[ids[i] := flagged[ids[i]].(reserved := reserved)];
      }
    }
    assert ids[..|ids|] == ids;
  }

  lemma MoveNone(s: Store, source: Id, destination: Id, reserved: bool)
    requires source in s.scopes && destination in s.scopes
    ensures MovableFrom(s.scopes[source], []) && BytesOf(s.scopes[source].uploads, []) == 0
    ensures Moved(s, source, destination, [], reserved) == s
  {
    var from, to := s.scopes[source], s.scopes[destination];
    assert IdSet([]) == {};
    assert WithFlag(from.uploads, [], reserved) == from.uploads;
    assert from.uploads - {} == from.uploads && to.uploads + Taken(from.uploads, [], reserved) == to.uploads;
  }

  /** The loop body of a transfer, for one upload. */
  function MoveOne(s: Store, source: Id, destination: Id, id: Id, reserved: bool): (t: Store)
    requires source in s.scopes && destination in s.scopes && id in s.scopes[source].uploads
    requires s.scopes[source].uploads[id].bytes <= s.scopes[source].bytes
    ensures source in t.scopes && destination in t.scopes
  {
    var record := s.scopes[source];
    var upload := record.uploads[id];
    var taken := s.scopes[source := record.(uploads := record.uploads - {id}, bytes := record.bytes - upload.bytes)];
    var dest := taken[destination];
    s.(scopes := taken[destination := dest.(bytes := dest.bytes + upload.bytes,
                                            uploads := dest.uploads[id := upload.(reserved := reserved)])])
  }

  lemma {:induction false} BytesOfPrefix(uploads: map<Id, Upload>, ids: seq<Id>, i: nat)
    requires i <= |ids| && forall id | id in ids :: id in uploads
    ensures (forall id | id in ids[..i] :: id in uploads) && BytesOf(uploads, ids[..i]) <= BytesOf(uploads, ids)
    decreases |ids|
  {
    if i == |ids| {
      assert ids[..i] == ids;
    } else {
      LastAndFront(ids);
      assert ids[..|ids| - 1][..i] == ids[..i];
      BytesOfPrefix(uploads, ids[..|ids| - 1], i);
    }
  }

  /** Moving one more upload is moving the longer list. */
  lemma MoveOneMore(s: Store, source: Id, destination: Id, ids: seq<Id>, i: nat, reserved: bool)
    requires i < |ids| && Distinct(ids) && source in s.scopes && destination in s.scopes
    requires MovableFrom(s.scopes[source], ids)
    requires BytesOf(s.scopes[source].uploads, ids) <= s.scopes[source].bytes
    ensures forall k | k in {i, i + 1} :: MovableFrom(s.scopes[source], ids[..k])
    ensures forall k | k in {i, i + 1} :: BytesOf(s.scopes[source].uploads, ids[..k]) <= s.scopes[source].bytes
    ensures
      var t := Moved(s, source, destination, ids[..i], reserved);
      && ids[i] in t.scopes[source].uploads
      && t.scopes[source].uploads[ids[i]].bytes <= t.scopes[source].bytes
      && MoveOne(t, source, destination, ids[i], reserved) == Moved(s, source, destination, ids[..i + 1], reserved)
  {
    var from := s.scopes[source].uploads;
    BytesOfPrefix(from, ids, i);
    BytesOfPrefix(from, ids, i + 1);
    LastAndFront(ids[..i + 1]);
    assert ids[..i + 1][..i] == ids[..i] && ids[..i + 1][i] == ids[i];
    assert BytesOf(from, ids[..i + 1]) == BytesOf(from, ids[..i]) + from[ids[i]].bytes;
    assert ids[i] in ids && ids[i] !in ids[..i];
    assert IdSet(ids[..i + 1]) == IdSet(ids[..i]) + {ids[i]};
    hide BytesOf, Distinct, Moved, MoveOne, Taken, IdSet;
    if source == destination {
      SameScopeMove(s, source, ids, i, reserved);
    } else {
      TwoScopesMove(s, source, destination, ids, i, reserved);
    }
  }

  lemma FlagOneMore(uploads: map<Id, Upload>, ids: seq<Id>, i: nat, reserved: bool)
    requires i < |ids| && ids[i] in uploads && ids[i] !in ids[..i]
    ensures
      var flagged := WithFlag(uploads, ids[..i], reserved);
      && flagged[ids[i]] == uploads[ids[i]]
      && (flagged - {ids[i]})[ids[i] := uploads[ids[i]].(reserved := reserved)] == WithFlag(uploads, ids[..i + 1], reserved)
  {
    assert ids[..i + 1] == ids[..i] + [ids[i]];
  }

  lemma SameScopeMove(s: Store, source: Id, ids: seq<Id>, i: nat, reserved: bool)
    requires i < |ids| && source in s.scopes && ids[i] in s.scopes[source].uploads && ids[i] !in ids[..i]
    requires MovableFrom(s.scopes[source], ids[..i]) && MovableFrom(s.scopes[source], ids[..i + 1])
    requires BytesOf(s.scopes[source].uploads, ids[..i]) <= s.scopes[source].bytes
    requires BytesOf(s.scopes[source].uploads, ids[..i + 1]) <= s.scopes[source].bytes
    requires s.scopes[source].uploads[ids[i]].bytes <= s.scopes[source].bytes
    ensures
      var t := Moved(s, source, source, ids[..i], reserved);
      && ids[i] in t.scopes[source].uploads
      && t.scopes[source].uploads[ids[i]].bytes <= t.scopes[source].bytes
      && MoveOne(t, source, source, ids[i], reserved) == Moved(s, source, source, ids[..i + 1], reserved)
  {
    FlagOneMore(s.scopes[source].uploads, ids, i, reserved);
    hide WithFlag, BytesOf, MovableFrom;
  }

  lemma TakeOneMoreAt(from: map<Id, Upload>, to: map<Id, Upload>, ids: seq<Id>, i: nat, reserved: bool)
    requires i < |ids| && forall id | id in ids[..i + 1] :: id in from
    requires forall id | id in ids[..i] :: id in from
    requires ids[i] in from && ids[i] !in ids[..i]
    requires IdSet(ids[..i + 1]) == IdSet(ids[..i]) + {ids[i]}
    ensures ids[i] in from - IdSet(ids[..i])
    ensures from - IdSet(ids[..i]) - {ids[i]} == from - IdSet(ids[..i + 1])
    ensures (to + Taken(from, ids[..i], reserved))[ids[i] := from[ids[i]].(reserved := reserved)] ==
            to + Taken(from, ids[..i + 1], reserved)
  {
    assert ids[i] !in IdSet(ids[..i]);
    hide IdSet;
  }

  lemma TwoScopesMove(s: Store, source: Id, destination: Id, ids: seq<Id>, i: nat, reserved: bool)
    requires i < |ids| && source in s.scopes && destination in s.scopes && source != destination
    requires ids[i] in s.scopes[source].uploads && ids[i] !in ids[..i]
    requires IdSet(ids[..i + 1]) == IdSet(ids[..i]) + {ids[i]}
    requires MovableFrom(s.scopes[source], ids[..i]) && MovableFrom(s.scopes[source], ids[..i + 1])
    requires BytesOf(s.scopes[source].uploads, ids[..i + 1]) ==
             BytesOf(s.scopes[source].uploads, ids[..i]) + s.scopes[source].uploads[ids[i]].bytes
    requires BytesOf(s.scopes[source].uploads, ids[..i + 1]) <= s.scopes[source].bytes
    ensures
      var t := Moved(s, source, destination, ids[..i], reserved);
      && ids[i] in t.scopes[source].uploads
      && t.scopes[source].uploads[ids[i]].bytes <= t.scopes[source].bytes
      && MoveOne(t, source, destination, ids[i], reserved) == Moved(s, source, destination, ids[..i + 1], reserved)
  {
    TakeOneMoreAt(s.scopes[source].uploads, s.scopes[destination].uploads, ids, i, reserved);
    hide BytesOf, Taken, IdSet;
    var t := Moved(s, source, destination, ids[..i], reserved);
    assert MoveOne(t, source, destination, ids[i], reserved).scopes ==
           Moved(s, source, destination, ids[..i + 1], reserved).scopes;
  }
}
