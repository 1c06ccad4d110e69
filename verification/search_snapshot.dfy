/**
  The snapshot digest of src/search.rs: every file that was read is fed to the hash
  as its path, a zero byte, its length and the digest of its bytes. A cursor is
  good exactly as long as all of them are the same.
*/
module SearchSnapshot {
  import opened Wrappers
  import opened Text
  import opened Sequences
  import opened Utf8
  import opened ByteOrder
  import opened Search

  const DIGEST_BYTES := 32
  const NUL := '\0'

  /** A candidate and the bytes read of it. */
  datatype File = File(path: string, data: bytes)

  predicate Fits(f: File) {
    Free(f.path, NUL) && |f.data| <= U64_MAX
  }

  ghost predicate Digests(digest: bytes -> bytes) {
    forall b :: |digest(b)| == DIGEST_BYTES
  }

  function EntryBytes(f: File, digest: bytes -> bytes): bytes {
    Encode(f.path) + [0] + LittleEndian(|f.data|, 8) + digest(f.data)
  }

  function SnapshotBytes(files: seq<File>, digest: bytes -> bytes): bytes {
    if files == [] then [] else EntryBytes(files[0], digest) + SnapshotBytes(files[1..], digest)
  }

  predicate SameEntry(f: File, g: File, digest: bytes -> bytes) {
    f.path == g.path && |f.data| == |g.data| && digest(f.data) == digest(g.data)
  }

  predicate SameEntries(a: seq<File>, b: seq<File>, digest: bytes -> bytes) {
    |a| == |b| && forall i | 0 <= i < |a| :: SameEntry(a[i], b[i], digest)
  }

  // ---------- nothing is ambiguous ----------

  lemma {:induction false} NoZeroByte(s: string)
    requires Free(s, NUL)
    ensures 0 !in Encode(s)
  {
    if s != "" {
      NoZeroByte(s[1..]);
      assert s[0] != NUL;
      assert 0 !in EncodeChar(s[0]);
    }
  }

  /** The first zero byte ends the path. */
  lemma ZeroEndsPath(a: bytes, x: bytes, b: bytes, y: bytes)
    requires 0 !in a && 0 !in b && a + [0] + x == b + [0] + y
    ensures a == b && x == y
  {
    var s := a + [0] + x;
    assert s[|a|] == 0 && s[|b|] == 0;
    assert forall i | 0 <= i < |b| :: s[i] == b[i];
    assert forall i | 0 <= i < |a| :: s[i] == a[i];
    assert |a| == |b|;
    assert s[..|a|] == a && s[..|b|] == b;
    assert s[|a| + 1..] == x && s[|b| + 1..] == y;
  }

  lemma SameHalves(a: bytes, x: bytes, b: bytes, y: bytes)
    requires |a| == |b| && a + x == b + y
    ensures a == b && x == y
  {
    assert (a + x)[..|a|] == a && (b + y)[..|b|] == b;
    assert (a + x)[|a|..] == x && (b + y)[|b|..] == y;
  }

  /** The first entry of equal byte strings is the same, and so is the rest. */
  lemma FirstEntryIsSame(f: File, x: bytes, g: File, y: bytes, digest: bytes -> bytes)
    requires Fits(f) && Fits(g) && Digests(digest)
    requires EntryBytes(f, digest) + x == EntryBytes(g, digest) + y
    ensures SameEntry(f, g, digest) && x == y
  {
    hide LittleEndian, FromLittleEndian, Power256, Encode, Free;
    var m, n := LittleEndian(|f.data|, 8), LittleEndian(|g.data|, 8);
    NoZeroByte(f.path);
    NoZeroByte(g.path);
    assert EntryBytes(f, digest) + x == Encode(f.path) + [0] + (m + (digest(f.data) + x));
    assert EntryBytes(g, digest) + y == Encode(g.path) + [0] + (n + (digest(g.data) + y));
    ZeroEndsPath(Encode(f.path), m + (digest(f.data) + x), Encode(g.path), n + (digest(g.data) + y));
    SameHalves(m, digest(f.data) + x, n, digest(g.data) + y);
    SameHalves(digest(f.data), x, digest(g.data), y);
    EncodeIsInjective(f.path, g.path);
    EightBytes();
    LittleEndianReadsBack(|f.data|, 8);
    LittleEndianReadsBack(|g.data|, 8);
  }

  /** Two lists of files feed the hash the same bytes exactly when they have the same entries. */
  lemma {:induction false} SnapshotIsUnique(a: seq<File>, b: seq<File>, digest: bytes -> bytes)
    requires Digests(digest) && (forall f | f in a :: Fits(f)) && (forall f | f in b :: Fits(f))
    ensures SnapshotBytes(a, digest) == SnapshotBytes(b, digest) <==> SameEntries(a, b, digest)
  {
    hide EntryBytes, Fits;
    if a != [] && b != [] {
      SnapshotIsUnique(a[1..], b[1..], digest);
      if SnapshotBytes(a, digest) == SnapshotBytes(b, digest) {
        FirstEntryIsSame(a[0], SnapshotBytes(a[1..], digest), b[0], SnapshotBytes(b[1..], digest), digest);
      }
      SameEntriesFromFirst(a, b, digest);
      if SameEntries(a, b, digest) {
        SameEntrySameBytes(a[0], b[0], digest);
      }
    } else {
      EntriesAreNotEmpty(a, digest);
      EntriesAreNotEmpty(b, digest);
    }
  }

  lemma SameEntrySameBytes(f: File, g: File, digest: bytes -> bytes)
    requires SameEntry(f, g, digest)
    ensures EntryBytes(f, digest) == EntryBytes(g, digest)
  {
  }

  lemma EntriesAreNotEmpty(a: seq<File>, digest: bytes -> bytes)
    ensures SnapshotBytes(a, digest) == [] <==> a == []
  {
  }

  lemma SameEntriesFromFirst(a: seq<File>, b: seq<File>, digest: bytes -> bytes)
    requires a != [] && b != []
    ensures SameEntries(a, b, digest) <==> SameEntry(a[0], b[0], digest) && SameEntries(a[1..], b[1..], digest)
  {
    hide SameEntry;
    if SameEntry(a[0], b[0], digest) && SameEntries(a[1..], b[1..], digest) {
      forall i | 0 <= i < |a|
        ensures SameEntry(a[i], b[i], digest)
      {
        if i > 0 {
          assert a[i] == a[1..][i - 1] && b[i] == b[1..][i - 1];
        }
      }
    }
  }

  // ---------- what an accepted cursor means ----------

  /** How a query sees a file: its display path and, when it is text, its lines. */
  datatype Query = Query(digest: string, display: string -> string, lines: bytes -> Option<seq<string>>, matches: string -> bool)

  function CandidateOf(q: Query, f: File): Candidate {
    Candidate(q.display(f.path), |f.data|, q.lines(f.data))
  }

  function ListingOf(q: Query, files: seq<File>, digest: bytes -> bytes, hash: bytes -> string): Listing {
    var candidates := seq(|files|, i requires 0 <= i < |files| => CandidateOf(q, files[i]));
    Listing(AllMatches(candidates, q.matches, |candidates|), q.digest, hash(SnapshotBytes(files, digest)))
  }

  /** The hash does not collide on these two. */
  predicate Apart<U(==)>(f: bytes -> U, x: bytes, y: bytes) {
    f(x) == f(y) ==> x == y
  }

  predicate FilesApart(a: seq<File>, b: seq<File>, digest: bytes -> bytes) {
    forall i | 0 <= i < |a| && i < |b| :: Apart(digest, a[i].data, b[i].data)
  }

  lemma SameEntriesAreSameFiles(a: seq<File>, b: seq<File>, digest: bytes -> bytes)
    requires FilesApart(a, b, digest) && SameEntries(a, b, digest)
    ensures a == b
  {
    forall i | 0 <= i < |a|
      ensures a[i] == b[i]
    {
      assert SameEntry(a[i], b[i], digest) && Apart(digest, a[i].data, b[i].data);
    }
  }

  /**
    A cursor made over some files is accepted by the same query over other files
    exactly when they are the same files with the same bytes in the same order,
    wherever the hashes do not collide on the two.
  */
  lemma CursorMeansSameFilesIff(q: Query, a: seq<File>, b: seq<File>, digest: bytes -> bytes, hash: bytes -> string,
                                offset: nat, size: nat)
    requires Digests(digest) && FilesApart(a, b, digest) && Apart(hash, SnapshotBytes(a, digest), SnapshotBytes(b, digest))
    requires (forall f | f in a :: Fits(f)) && (forall f | f in b :: Fits(f))
    requires Sound(ListingOf(q, a, digest, hash)) && Sound(ListingOf(q, b, digest, hash))
    requires 0 < offset <= |ListingOf(q, a, digest, hash).matches|
    ensures PageOf(ListingOf(q, b, digest, hash), Some(CursorAt(ListingOf(q, a, digest, hash), offset)), size).Ok? <==> a == b
  {
    hide SnapshotBytes, AllMatches, PageOf, CursorAt, Sound, Fits, SameEntries;
    CursorAcceptedIff(ListingOf(q, a, digest, hash), ListingOf(q, b, digest, hash), offset, size);
    SnapshotIsUnique(a, b, digest);
    if SameEntries(a, b, digest) {
      SameEntriesAreSameFiles(a, b, digest);
    }
  }

  // ---------- feeding the hasher ----------

  lemma {:induction false} SnapshotAppend(files: seq<File>, f: File, digest: bytes -> bytes)
    ensures SnapshotBytes(files + [f], digest) == SnapshotBytes(files, digest) + EntryBytes(f, digest)
  {
    hide EntryBytes;
    if files == [] {
      assert [] + [f] == [f] && [f][1..] == [];
      assert SnapshotBytes([f], digest) == EntryBytes(f, digest) + [];
    } else {
      SnapshotAppend(files[1..], f, digest);
      assert (files + [f])[1..] == files[1..] + [f];
      Assoc(EntryBytes(files[0], digest), SnapshotBytes(files[1..], digest), EntryBytes(f, digest));
    }
  }

  /** What the hasher was fed when the last candidate is done. */
  method FeedSnapshot(files: seq<File>, digest: bytes -> bytes) returns (fed: bytes)
    ensures fed == SnapshotBytes(files, digest)
  {
    hide LittleEndian, Encode, SnapshotBytes, EntryBytes;
    fed := [];
    var i := 0;
    NoFiles(files, digest);
    while i < |files|
      invariant i <= |files| && fed == SnapshotBytes(files[..i], digest)
    {
      fed := FeedEntry(fed, files[i], digest);
      SnapshotAppend(files[..i], files[i], digest);
      assert files[..i + 1] == files[..i] + [files[i]];
      i := i + 1;
    }
    assert files[..i] == files;
  }

  lemma NoFiles(files: seq<File>, digest: bytes -> bytes)
    ensures SnapshotBytes(files[..0], digest) == []
  {
  }

  /** Path, zero, length, digest: four updates of the hasher. */
  method FeedEntry(fed: bytes, f: File, digest: bytes -> bytes) returns (more: bytes)
    ensures more == fed + EntryBytes(f, digest)
  {
    hide LittleEndian, Encode;
    more := fed + Encode(f.path);
    more := more + [0];
    more := more + LittleEndian(|f.data|, 8);
    more := more + digest(f.data);
  }
}
