/**
  The draft image store of src/draft.rs as a state machine. Scopes own uploads
  by id; an upload's file stays in the directory of the scope it was uploaded
  to, even after the upload itself is transferred. Every step is one critical
  section of the source, so any interleaving of its callers is a run.
*/
module DraftModel {
  import opened Wrappers

  const DRAFT_TTL_MS := 60 * 60 * 1000
  const MAX_DRAFT_STAGING_BYTES := 128 * 1024 * 1024
  const MAX_ATTACHMENT_BYTES := 8 * 1024 * 1024
  const MAX_IMAGES_PER_MESSAGE := 8
  const MAX_RAW_BATCH_BYTES := 32 * 1024 * 1024

  type Id = string

  /** `web/<scope>/<upload>/<name>`: the directory is named by both ids. */
  datatype Path = Path(scope: Id, upload: Id)

  datatype Upload = Upload(path: Path, bytes: nat, reserved: bool)

  datatype Scope = Scope(selection: nat, token: nat, expiresAt: int, uploads: map<Id, Upload>, bytes: nat)

  /** An upload in progress; `created` once its file exists. */
  datatype Writer = Writer(scope: Id, selection: nat, token: nat, expected: nat, written: nat, created: bool)

  datatype ClientKey = ClientKey(client: string, selection: nat, token: nat)

  /** `doomed` holds directories a commit has yet to remove, outside the lock. */
  datatype Store = Store(
    closed: bool,
    scopes: map<Id, Scope>,
    clients: map<ClientKey, Id>,
    writers: map<Id, Writer>,
    files: set<Path>,
    doomed: set<Path>,
    usedScopes: set<Id>,
    usedUploads: set<Id>)

  const EMPTY_STORE := Store(false, map[], map[], map[], {}, {}, {}, {})

  // ---------- sums ----------

  ghost function Total(uploads: map<Id, Upload>): nat {
    if uploads == map[] then 0
    else var id :| id in uploads; uploads[id].bytes + Total(uploads - {id})
  }

  lemma {:induction false} TotalRemove(uploads: map<Id, Upload>, id: Id)
    requires id in uploads
    ensures Total(uploads) == uploads[id].bytes + Total(uploads - {id})
    decreases |uploads|
  {
    var pick :| pick in uploads && Total(uploads) == uploads[pick].bytes + Total(uploads - {pick});
    if pick != id {
      TotalRemove(uploads - {pick}, id);
      TotalRemove(uploads - {id}, pick);
      assert uploads - {pick} - {id} == uploads - {id} - {pick};
    }
  }

  lemma TotalAdd(uploads: map<Id, Upload>, id: Id, upload: Upload)
    requires id !in uploads
    ensures Total(uploads[id := upload]) == Total(uploads) + upload.bytes
  {
    TotalRemove(uploads[id := upload], id);
    assert uploads[id := upload] - {id} == uploads;
  }

  /** Flags do not weigh anything. */
  lemma {:induction false} TotalSameBytes(a: map<Id, Upload>, b: map<Id, Upload>)
    requires a.Keys == b.Keys && forall id | id in a :: a[id].bytes == b[id].bytes
    ensures Total(a) == Total(b)
    decreases |a|
  {
    if a != map[] {
      var id :| id in a;
      TotalRemove(a, id);
      TotalRemove(b, id);
      TotalSameBytes(a - {id}, b - {id});
    } else {
      assert b == map[];
    }
  }

  /** Bytes of the listed uploads. */
  function BytesOf(uploads: map<Id, Upload>, ids: seq<Id>): nat
    requires forall id | id in ids :: id in uploads
  {
    if ids == [] then 0
    else
      assert ids[|ids| - 1] in ids && forall id | id in ids[..|ids| - 1] :: id in ids;
      BytesOf(uploads, ids[..|ids| - 1]) + uploads[ids[|ids| - 1]].bytes
  }

  predicate Distinct(ids: seq<Id>) {
    forall i, j | 0 <= i < j < |ids| :: ids[i] != ids[j]
  }

  function IdSet(ids: seq<Id>): set<Id> {
    set id | id in ids
  }

  lemma {:induction false} TotalRemoveAll(uploads: map<Id, Upload>, ids: seq<Id>)
    requires Distinct(ids) && forall id | id in ids :: id in uploads
    ensures Total(uploads) == BytesOf(uploads, ids) + Total(uploads - IdSet(ids))
  {
    if ids == [] {
      assert uploads - IdSet(ids) == uploads;
    } else {
      var front, last := ids[..|ids| - 1], ids[|ids| - 1];
      assert last in ids && forall id | id in front :: id in ids;
      TotalRemoveAll(uploads, front);
      assert last !in IdSet(front);
      TotalRemove(uploads - IdSet(front), last);
      assert uploads - IdSet(front) - {last} == uploads - IdSet(ids);
    }
  }

  // ---------- sweeping ----------

  predicate Referenced(s: Store, id: Id) {
    exists other | other in s.scopes && other != id ::
      exists u | u in s.scopes[other].uploads :: s.scopes[other].uploads[u].path.scope == id
  }

  predicate HoldsReserved(scope: Scope) {
    exists u | u in scope.uploads :: scope.uploads[u].reserved
  }

  function Expired(s: Store, now: int): set<Id> {
    set id | id in s.scopes && s.scopes[id].expiresAt <= now
             && !HoldsReserved(s.scopes[id]) && !Referenced(s, id)
  }

  /** Drop expired scopes, their directories and the client keys that named them. */
  function Sweep(s: Store, now: int): Store {
    var gone := Expired(s, now);
    s.(scopes := s.scopes - gone,
       files := (set p | p in s.files && p.scope !in gone),
       clients := map key | key in s.clients && s.clients[key] !in gone :: s.clients[key])
  }

  predicate Live(s: Store, scope: Id, selection: nat, token: nat, now: int) {
    && !s.closed && scope in s.scopes
    && s.scopes[scope].selection == selection && s.scopes[scope].token == token
    && s.scopes[scope].expiresAt > now
  }

  // ---------- operations ----------

  /** `minted` is the random id of a scope that has to be created. */
  function OpenScope(s: Store, key: ClientKey, now: int, minted: Id): (Store, Result<Id, string>) {
    if s.closed then (s, Err("drafts closed"))
    else
      var t := Sweep(s, now);
      if key in t.clients && t.clients[key] in t.scopes && t.scopes[t.clients[key]].expiresAt > now then
        (t, Ok(t.clients[key]))
      else
        var scope := Scope(key.selection, key.token, now + DRAFT_TTL_MS, map[], 0);
        (t.(clients := t.clients[key := minted], scopes := t.scopes[minted := scope],
            usedScopes := t.usedScopes + {minted}), Ok(minted))
  }

  /** First half of `begin_upload`: the checks made under the state lock. */
  function BeginUpload(s: Store, scope: Id, selection: nat, token: nat, expected: nat, now: int, minted: Id)
    : (Store, Result<(), string>)
  {
    if s.closed then (s, Err("drafts closed"))
    else if expected == 0 || expected > MAX_ATTACHMENT_BYTES then (s, Err("upload must be 1..=8 MiB"))
    else
      var t := Sweep(s, now);
      if !Live(t, scope, selection, token, now) then (t, Err("draft scope is unknown or stale"))
      else (t.(writers := t.writers[minted := Writer(scope, selection, token, expected, 0, false)],
               usedUploads := t.usedUploads + {minted}), Ok(()))
  }

  /** Second half: the directories and the file, made without the state lock. */
  function CreateFile(s: Store, upload: Id): Store {
    if upload in s.writers && !s.writers[upload].created then
      var w := s.writers[upload];
      s.(writers := s.writers[upload := w.(created := true)], files := s.files + {Path(w.scope, upload)})
    else s
  }

  function WriteBytes(s: Store, upload: Id, count: nat): Store {
    if upload in s.writers && s.writers[upload].created
       && s.writers[upload].written + count <= s.writers[upload].expected then
      var w := s.writers[upload];
      s.(writers := s.writers[upload := w.(written := w.written + count)])
    else s
  }

  /** `Drop` of an unfinished writer removes the directory it made. */
  function Abandon(s: Store, upload: Id): Store
    requires upload in s.writers
  {
    s.(writers := s.writers - {upload}, files := s.files - {Path(s.writers[upload].scope, upload)})
  }

  /** `valid` is what inspecting the written file said, before the lock is taken. */
  function Finish(s: Store, upload: Id, valid: bool, now: int): (Store, Result<(), string>)
    requires upload in s.writers
  {
    var w := s.writers[upload];
    if w.written != w.expected || !w.created || !valid then (Abandon(s, upload), Err("upload is incomplete or invalid"))
    else
      var t := Sweep(s, now);
      if !Live(t, w.scope, w.selection, w.token, now) then (Abandon(t, upload), Err("draft scope is unknown or stale"))
      else
        var scope := t.scopes[w.scope];
        if scope.bytes + w.written > MAX_DRAFT_STAGING_BYTES then
          (Abandon(t, upload), Err("draft exceeds the staging quota"))
        else
          var next := scope.(bytes := scope.bytes + w.written,
                             uploads := scope.uploads[upload := Upload(Path(w.scope, upload), w.written, false)]);
          (t.(scopes := t.scopes[w.scope := next], writers := t.writers - {upload}), Ok(()))
  }

  function WithFlag(uploads: map<Id, Upload>, ids: seq<Id>, reserved: bool): map<Id, Upload> {
    map id | id in uploads :: if id in ids then uploads[id].(reserved := reserved) else uploads[id]
  }

  predicate Reservable(scope: Scope, ids: seq<Id>) {
    && (forall id | id in ids :: id in scope.uploads && !scope.uploads[id].reserved)
    && BytesOf(scope.uploads, ids) <= MAX_RAW_BATCH_BYTES
  }

  function PathsOf(uploads: map<Id, Upload>, ids: seq<Id>): (paths: seq<Path>)
    requires forall id | id in ids :: id in uploads
    ensures |paths| == |ids| && forall i | 0 <= i < |ids| :: paths[i] == uploads[ids[i]].path
  {
    seq(|ids|, i requires 0 <= i < |ids| => uploads[ids[i]].path)
  }

  /** All or nothing: either every id is flagged and its path handed out, or none. */
  function Reserve(s: Store, scope: Id, selection: nat, token: nat, ids: seq<Id>, now: int)
    : (Store, Result<seq<Path>, string>)
  {
    if ids == [] then (s, Ok([]))
    else if |ids| > MAX_IMAGES_PER_MESSAGE then (s, Err("too many images"))
    else if !Distinct(ids) then (s, Err("duplicate upload id"))
    else
      var t := Sweep(s, now);
      if !Live(t, scope, selection, token, now) then (t, Err("draft scope is unknown or stale"))
      else if !Reservable(t.scopes[scope], ids) then (t, Err("uploads cannot be reserved"))
      else
        var record := t.scopes[scope];
        (t.(scopes := t.scopes[scope := record.(uploads := WithFlag(record.uploads, ids, true))]),
         Ok(PathsOf(record.uploads, ids)))
  }

  function Rollback(s: Store, scope: Id, ids: seq<Id>): Store {
    if scope in s.scopes then
      s.(scopes := s.scopes[scope := s.scopes[scope].(uploads := WithFlag(s.scopes[scope].uploads, ids, false))])
    else s
  }

  /** One id of a commit: unregister it and remember its directory. */
  function CommitOne(s: Store, scope: Id, id: Id): Store {
    if scope in s.scopes && id in s.scopes[scope].uploads then
      var record := s.scopes[scope];
      var upload := record.uploads[id];
      var bytes := if upload.bytes <= record.bytes then record.bytes - upload.bytes else 0;
      s.(scopes := s.scopes[scope := record.(uploads := record.uploads - {id}, bytes := bytes)],
         doomed := s.doomed + {upload.path})
    else s
  }

  /** The locked part of `commit_uploads`. */
  function Commit(s: Store, scope: Id, ids: seq<Id>): Store {
    if ids == [] then s else CommitOne(Commit(s, scope, ids[..|ids| - 1]), scope, ids[|ids| - 1])
  }

  /** Its unlocked part, one directory at a time. */
  function RemoveDoomed(s: Store, path: Path): Store {
    if path in s.doomed then s.(doomed := s.doomed - {path}, files := s.files - {path}) else s
  }

  /** Images and bytes already selected in the destination, if the selection is valid. */
  function SelectionUsage(scope: Scope, selected: Option<seq<Id>>, reserved: bool): Option<(nat, nat)> {
    match selected
    case None => Some((|scope.uploads|, scope.bytes))
    case Some(ids) =>
      if |ids| > MAX_IMAGES_PER_MESSAGE || !Distinct(ids)
         || exists id | id in ids :: id !in scope.uploads || scope.uploads[id].reserved != reserved then None
      else Some((|ids|, BytesOf(scope.uploads, ids)))
  }

  /** A destination that holds a reserved upload is kept alive first. */
  function Refresh(s: Store, scope: Id, selection: nat, token: nat, now: int): Store {
    if scope in s.scopes && s.scopes[scope].selection == selection && s.scopes[scope].token == token
       && HoldsReserved(s.scopes[scope]) then
      s.(scopes := s.scopes[scope := s.scopes[scope].(expiresAt := now + DRAFT_TTL_MS)])
    else s
  }

  predicate MovableFrom(scope: Scope, ids: seq<Id>) {
    forall id | id in ids :: id in scope.uploads && scope.uploads[id].reserved
  }

  predicate Transferable(s: Store, source: Id, destination: Id, selection: nat, token: nat,
                         ids: seq<Id>, reserved: bool, selected: Option<seq<Id>>, now: int)
  {
    && Live(s, destination, selection, token, now)
    && SelectionUsage(s.scopes[destination], selected, reserved).Some?
    && source in s.scopes
    && s.scopes[source].selection == selection && s.scopes[source].token == token
    && MovableFrom(s.scopes[source], ids)
    && var (count, bytes) := SelectionUsage(s.scopes[destination], selected, reserved).value;
    && var moved := BytesOf(s.scopes[source].uploads, ids);
    && count + |ids| <= MAX_IMAGES_PER_MESSAGE
    && bytes + moved <= MAX_RAW_BATCH_BYTES
    && (source != destination ==> s.scopes[destination].bytes + moved <= MAX_DRAFT_STAGING_BYTES)
  }

  function Taken(uploads: map<Id, Upload>, ids: seq<Id>, reserved: bool): (taken: map<Id, Upload>)
    requires forall id | id in ids :: id in uploads
    ensures taken.Keys == IdSet(ids)
  {
    map id | id in IdSet(ids) :: uploads[id].(reserved := reserved)
  }

  function Moved(s: Store, source: Id, destination: Id, ids: seq<Id>, reserved: bool): Store
    requires source in s.scopes && destination in s.scopes && MovableFrom(s.scopes[source], ids)
    requires BytesOf(s.scopes[source].uploads, ids) <= s.scopes[source].bytes
  {
    var from := s.scopes[source];
    if source == destination then
      s.(scopes := s.scopes[source := from.(uploads := WithFlag(from.uploads, ids, reserved))])
    else
      var to := s.scopes[destination];
      var moved := BytesOf(from.uploads, ids);
      s.(scopes := s.scopes[
           source := from.(uploads := from.uploads - IdSet(ids), bytes := from.bytes - moved)][
           destination := to.(uploads := to.uploads + Taken(from.uploads, ids, reserved), bytes := to.bytes + moved)])
  }

  function Transfer(s: Store, source: Id, destination: Id, selection: nat, token: nat, ids: seq<Id>,
                    reserved: bool, selected: Option<seq<Id>>, now: int): (Store, Result<(), string>)
    requires forall id | id in s.scopes :: s.scopes[id].bytes == Total(s.scopes[id].uploads)
  {
    if !Distinct(ids) then (s, Err("duplicate image upload id"))
    else
      var t := Refresh(s, destination, selection, token, now);
      if !Transferable(t, source, destination, selection, token, ids, reserved, selected, now) then
        (t, Err("transfer refused"))
      else
        TotalRemoveAll(t.scopes[source].uploads, ids);
        (Moved(t, source, destination, ids, reserved), Ok(()))
  }

  /** The whole root directory goes; no upload may be between its two halves. */
  function Close(s: Store): Store {
    if exists u | u in s.writers :: !s.writers[u].created then s
    else s.(closed := true, scopes := map[], clients := map[], files := {})
  }
}
