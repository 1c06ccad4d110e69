/**
  LspClient of src/language_intelligence.rs as an object whose fields its
  methods overwrite, proved against LspFraming, LspStream and LspSession.
*/
module LspClientObject {
  import opened Wrappers
  import opened Text
  import opened Utf8
  import Framing = LspFraming
  import Stream = LspStream
  import Decimal
  import opened LspSession

  // ---------- loops of the frame reader ----------

  /** `windows(4).position`. */
  method FindBlankLine(b: bytes) returns (r: Option<nat>)
    ensures r == Framing.HeaderEnd(b, 0)
  {
    var i := 0;
    while i + 4 <= |b|
      invariant forall j | 0 <= j < i :: !Framing.BlankLineAt(b, j)
    {
      if Framing.BlankLineAt(b, i) {
        Framing.HeaderEndIs(b, i);
        return Some(i);
      }
      i := i + 1;
    }
    return None;
  }

  method ReadFields(lines: seq<string>) returns (r: Result<nat, string>)
    ensures r == Framing.ContentLength(lines, None)
  {
    hide Trim, Framing.SameIgnoringCase, Decimal.ParseUnsigned;
    var found: Option<nat> := None;
    var i := 0;
    assert lines[0..] == lines;
    while i < |lines|
      invariant i <= |lines|
      invariant Framing.ContentLength(lines, None) == Framing.ContentLength(lines[i..], found)
    {
      var line := lines[i];
      assert lines[i..][1..] == lines[i + 1..];
      var colon := FindChar(line, ':', 0);
      if colon == |line| {
        return Err("malformed header");
      }
      if Framing.SameIgnoringCase(Trim(line[..colon]), "content-length") {
        if found.Some? {
          return Err("duplicate Content-Length");
        }
        found := Decimal.ParseUnsigned(Trim(line[colon + 1..]), U64_MAX);
        if found.None? {
          return Err("invalid Content-Length");
        }
      }
      i := i + 1;
    }
    assert lines[i..] == [];
    return if found.Some? then Ok(found.value) else Err("missing Content-Length");
  }

  // ---------- positions ----------

  function Utf16Len(c: char): nat {
    if c < '\U{10000}' then 1 else 2
  }

  function Utf16Units(line: string): nat {
    if line == "" then 0 else Utf16Units(line[..|line| - 1]) + Utf16Len(line[|line| - 1])
  }

  lemma {:induction false} UnitsGrow(line: string, i: nat, j: nat)
    requires i < j <= |line|
    ensures Utf16Units(line[..i]) < Utf16Units(line[..j])
  {
    assert line[..j][..j - 1] == line[..j - 1];
    if i < j - 1 {
      UnitsGrow(line, i, j - 1);
    }
  }

  /** An offset is a boundary exactly when some whole characters fill it. */
  method Utf16Boundary(line: string, offset: nat) returns (r: bool)
    ensures r <==> exists k :: 0 <= k <= |line| && Utf16Units(line[..k]) == offset
  {
    var units, i := 0, 0;
    assert Utf16Units(line[..0]) == 0;
    if offset == 0 {
      return true;
    }
    while i < |line|
      invariant i <= |line| && units == Utf16Units(line[..i]) < offset
    {
      assert line[..i + 1][..i] == line[..i];
      units := units + Utf16Len(line[i]);
      if units == offset {
        return true;
      }
      if units > offset {
        forall k | 0 <= k <= |line|
          ensures Utf16Units(line[..k]) != offset
        {
          if k < i {
            UnitsGrow(line, k, i);
          } else if i + 1 < k {
            UnitsGrow(line, i + 1, k);
          }
        }
        return false;
      }
      i := i + 1;
    }
    forall k | 0 <= k < |line|
      ensures Utf16Units(line[..k]) < Utf16Units(line[..|line|])
    {
      UnitsGrow(line, k, |line|);
    }
    return false;
  }

  // ---------- the client ----------

  class LspClient {
    var buffer: bytes
    var initialized: bool
    var nextId: u64
    var openDocuments: map<string, OpenDocument>
    var sent: seq<Message>

    function Told(): Client
      reads this
    {
      Client(initialized, nextId, openDocuments, sent)
    }

    constructor ()
      ensures buffer == [] && Told() == NEW_CLIENT
    {
      buffer, initialized, nextId, openDocuments, sent := [], false, 1, map[], [];
    }

    /** Drains one complete frame, or leaves the buffer as it is. */
    method ExtractFrame() returns (r: Result<Option<bytes>, string>)
      modifies this`buffer
      ensures
        match Framing.Extract(old(buffer))
        case Failed(e) => r == Err(e) && buffer == old(buffer)
        case Pending => r == Ok(None) && buffer == old(buffer)
        case Body(body, rest) => r == Ok(Some(body)) && buffer == rest
    {
      hide Framing.ContentLength, Framing.Lines, Decode;
      var end := FindBlankLine(buffer);
      if end.None? {
        return if |buffer| > Framing.MAX_HEADER_BYTES then Err("header too long") else Ok(None);
      }
      if end.value > Framing.MAX_HEADER_BYTES {
        return Err("header too long");
      }
      var header := Decode(buffer[..end.value]);
      if !header.end.Complete? {
        return Err("header is not UTF-8");
      }
      var length := ReadFields(Framing.Lines(header.text));
      if length.Err? {
        return Err(length.error);
      }
      if length.value > Framing.MAX_FRAME_BYTES {
        return Err("message too long");
      }
      var start := end.value + 4;
      var frameEnd := start + length.value;
      if |buffer| < frameEnd {
        return Ok(None);
      }
      var body := buffer[start..frameEnd];
      buffer := buffer[frameEnd..];
      return Ok(Some(body));
    }

    /** `chunks` is what the server will deliver; `left` what is still to come. */
    method ReadMessage(chunks: seq<bytes>) returns (r: Result<bytes, string>, left: seq<bytes>)
      modifies this`buffer
      ensures (r, Stream.Inbox(buffer, left)) == Stream.ReadMessage(Stream.Inbox(old(buffer), chunks))
    {
      hide Framing.Extract;
      left := chunks;
      while true
        invariant Stream.ReadMessage(Stream.Inbox(old(buffer), chunks)) == Stream.ReadMessage(Stream.Inbox(buffer, left))
        decreases |left|
      {
        var frame := ExtractFrame();
        if frame.Err? {
          return Err(frame.error), left;
        }
        if frame.value.Some? {
          return Ok(frame.value.value), left;
        }
        if left == [] {
          return Err("LSP query interrupted"), left;
        }
        var chunk := left[0];
        left := left[1..];
        buffer := buffer + chunk;
        if chunk != [] && |buffer| > Stream.MAX_BUFFER {
          return Err("stream exceeded its bounded buffer"), left;
        }
      }
    }

    method NextRequestId() returns (id: u64)
      modifies this`nextId
      ensures id == old(nextId) && Told() == old(Told()).(nextId := NextId(old(nextId)))
    {
      id := nextId;
      nextId := if nextId == U64_MAX then 1 else nextId + 1;
    }

    method WriteMessage(env: Env, m: Message, written: bool) returns (ok: bool)
      modifies this`sent
      ensures (Told(), ok) == Write(env, old(Told()), m, written)
    {
      if env.size(m) > Framing.MAX_FRAME_BYTES || !written {
        return false;
      }
      sent := sent + [m];
      return true;
    }

    method AwaitResponse(env: Env, id: u64, a: Attempt)
      modifies this`sent
      ensures Told() == Await(env, old(Told()), id, a)
    {
      if a.reply.Interrupted? && a.reply.tell {
        var _ := WriteMessage(env, CancelRequest(id), a.cancelWritten);
      }
    }

    method Handshake(env: Env, w: Surroundings) returns (ok: bool)
      modifies this`sent, this`nextId, this`initialized
      ensures (Told(), ok) == EnsureInitialized(env, old(Told()), w)
    {
      if initialized || w.terminal {
        return initialized && !w.terminal;
      }
      var id := NextRequestId();
      ok := WriteMessage(env, Initialize(id), w.initialize.written);
      if !ok {
        return;
      }
      AwaitResponse(env, id, w.initialize);
      if !w.initialize.reply.Answer? {
        return false;
      }
      ok := WriteMessage(env, Initialized, w.initializedWritten);
      initialized := ok;
    }

    method Sync(env: Env, source: Source, language: string, written: bool) returns (ok: bool)
      modifies this`sent, this`openDocuments
      ensures (Told(), ok) == SyncOpenDocument(env, old(Told()), source, language, written)
    {
      var digest := env.digest(source.text);
      var version := 1;
      if source.uri in openDocuments {
        if openDocuments[source.uri].digest == digest {
          return true;
        }
        version := openDocuments[source.uri].version + 1;
      }
      ok := WriteMessage(env,
                         if version == 1 then DidOpen(source.uri, language, 1, source.text)
                         else DidChange(source.uri, version, source.text), written);
      if ok {
        openDocuments := openDocuments[source.uri := OpenDocument(version, digest)];
      }
    }

    /** One query; a reply saying the content was modified is retried four times. */
    method Query(env: Env, q: Query) returns (ok: bool)
      modifies this`sent, this`nextId, this`initialized, this`openDocuments
      ensures (Told(), ok) == RunQuery(env, old(Told()), q)
    {
      hide Write, Await, EnsureInitialized, SyncOpenDocument;
      ok := Handshake(env, q.world);
      if !ok {
        return;
      }
      ok := Sync(env, q.source, q.language, q.world.syncWritten);
      if !ok {
        return;
      }
      ghost var synced := Told();
      var k := 0;
      while true
        invariant k <= RETRIES && Ask(env, synced, q, 0) == Ask(env, Told(), q, k)
        decreases RETRIES - k
      {
        var id := NextRequestId();
        var a := q.world.requests(k);
        ok := WriteMessage(env, Request(id, q.operation, q.source.uri, q.source.line, q.source.character), a.written);
        if !ok {
          return;
        }
        if !(a.reply.ContentModified? && k < RETRIES && a.timeLeft) {
          AwaitResponse(env, id, a);
          return a.reply.Answer?;
        }
        k := k + 1;
      }
    }
  }
}
