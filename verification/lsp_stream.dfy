/**
  Reading framed messages from a stream cut into arbitrary chunks, with and
  without the cap the client puts on its buffer.
*/
module LspStream {
  import opened Wrappers
  import opened Utf8
  import opened Sequences
  import opened LspFraming

  const MAX_CHUNK := 65536
  const MAX_BUFFER := MAX_FRAME_BYTES + MAX_HEADER_BYTES

  datatype Drained = Drained(bodies: seq<bytes>, rest: bytes)

  function After(bodies: seq<bytes>, r: Result<Drained, string>): Result<Drained, string> {
    match r
    case Err(e) => Err(e)
    case Ok(d) => Ok(Drained(bodies + d.bodies, d.rest))
  }

  /** Take frames until the buffer holds no complete one. */
  function Drain(buffer: bytes): Result<Drained, string>
    decreases |buffer|
  {
    match Extract(buffer)
    case Failed(e) => Err(e)
    case Pending => Ok(Drained([], buffer))
    case Body(body, rest) =>
      ExtractShrinks(buffer);
      After([body], Drain(rest))
  }

  function Stream(bodies: seq<bytes>): bytes {
    if bodies == [] then [] else Frame(bodies[0]) + Stream(bodies[1..])
  }

  function Concat(chunks: seq<bytes>): bytes {
    if chunks == [] then [] else chunks[0] + Concat(chunks[1..])
  }

  /** Drain, add the next chunk, and so on; `capped` adds the client's buffer check. */
  function Feed(buffer: bytes, chunks: seq<bytes>, capped: bool): Result<Drained, string>
    decreases |chunks|
  {
    match Drain(buffer)
    case Err(e) => Err(e)
    case Ok(d) =>
      if chunks == [] then Ok(d)
      else if capped && chunks[0] != [] && |d.rest + chunks[0]| > MAX_BUFFER then Err("stream exceeded its bounded buffer")
      else After(d.bodies, Feed(d.rest + chunks[0], chunks[1..], capped))
  }

  // ---------- cutting into chunks changes nothing ----------

  lemma AfterTwice(a: seq<bytes>, b: seq<bytes>, r: Result<Drained, string>)
    ensures After(a, After(b, r)) == After(a + b, r)
    ensures After([], r) == r
  {
    if r.Ok? {
      Assoc(a, b, r.value.bodies);
      assert [] + r.value.bodies == r.value.bodies;
    }
  }

  /** Draining early and again after more input is draining once. */
  lemma {:induction false} DrainResumes(a: bytes, more: bytes)
    requires Drain(a).Ok?
    ensures Drain(a + more) == After(Drain(a).value.bodies, Drain(Drain(a).value.rest + more))
    decreases |a|
  {
    hide Extract;
    match Extract(a)
    case Failed(_) =>
    case Pending => AfterTwice([], [], Drain(a + more));
    case Body(body, rest) =>
      ExtractShrinks(a);
      BodyIsStable(a, more);
      DrainResumes(rest, more);
      AfterTwice([body], Drain(rest).value.bodies, Drain(Drain(rest).value.rest + more));
  }

  /**
    For any bytes at all, valid or not: chunks that are read without an error
    give the messages and the remainder that one read of everything gives.
  */
  lemma {:induction false} ChunkingIsInvisible(buffer: bytes, chunks: seq<bytes>, capped: bool)
    requires Feed(buffer, chunks, capped).Ok?
    ensures Feed(buffer, chunks, capped) == Drain(buffer + Concat(chunks))
    decreases |chunks|
  {
    hide Drain;
    var d := Drain(buffer).value;
    if chunks == [] {
      assert buffer + [] == buffer;
    } else {
      ChunkingIsInvisible(d.rest + chunks[0], chunks[1..], capped);
      DrainResumes(buffer, Concat(chunks));
      Assoc(d.rest, chunks[0], Concat(chunks[1..]));
    }
  }

  // ---------- the writer's stream ----------

  predicate Sendable(bodies: seq<bytes>) {
    forall i | 0 <= i < |bodies| :: |bodies[i]| <= MAX_FRAME_BYTES
  }

  lemma FrameParts(body: bytes)
    requires |body| <= MAX_FRAME_BYTES
    ensures
      var h := |Encode(Header(|body|))|;
      && h <= 23 && |Frame(body)| == h + 4 + |body|
      && Announced(Frame(body)[..h]) == Ok(|body|)
      && BlankLineAt(Frame(body), h) && (forall j | 0 <= j < h :: Frame(body)[j] >= 32)
      && Frame(body)[h + 4..] == body
  {
    hide Announced, Header, Encode;
    HeaderAnnounces(|body|);
    ThreeParts(Encode(Header(|body|)), [13, 10, 13, 10], body);
  }

  lemma WholeFrameExtracts(body: bytes)
    requires |body| <= MAX_FRAME_BYTES
    ensures Extract(Frame(body)) == Body(body, [])
  {
    var f := Frame(body);
    var h := |Encode(Header(|body|))|;
    FrameParts(body);
    hide Frame, Announced, Header, Encode;
    forall j | 0 <= j < h
      ensures !BlankLineAt(f, j)
    {
      assert f[j] >= 32;
    }
    HeaderEndIs(f, h);
    ExtractsAt(f, h, |body|);
  }

  lemma ExtractsAt(b: bytes, end: nat, n: nat)
    requires HeaderEnd(b, 0) == Some(end) && |b| == end + 4 + n && Announced(b[..end]) == Ok(n)
    ensures Extract(b) == Body(b[end + 4..], [])
  {
    hide HeaderEnd, Announced, BlankLineAt;
    assert b[end + 4..|b|] == b[end + 4..] && b[|b|..] == [];
  }

  /** A whole frame yields its body; bytes behind it stay. */
  lemma FrameExtracts(body: bytes, more: bytes)
    requires |body| <= MAX_FRAME_BYTES
    ensures Extract(Frame(body) + more) == Body(body, more)
  {
    WholeFrameExtracts(body);
    BodyIsStable(Frame(body), more);
    assert [] + more == more;
  }

  /** Any proper part of a frame is waited on, never refused. */
  lemma PartOfFramePends(body: bytes, k: nat)
    requires |body| <= MAX_FRAME_BYTES && k < |Frame(body)|
    ensures Extract(Frame(body)[..k]) == Pending
  {
    var f, part := Frame(body), Frame(body)[..k];
    var h := |Encode(Header(|body|))|;
    FrameParts(body);
    hide Frame, Announced, Header, Encode;
    forall j | 0 <= j < h
      ensures !BlankLineAt(part, j)
    {
      assert j < k ==> part[j] == f[j] >= 32;
    }
    if k >= h + 4 {
      HeaderEndIs(part, h);
      assert part[..h] == f[..h];
      PendsAt(part, h, |body|);
    } else {
      assert HeaderEnd(part, 0).None?;
    }
  }

  lemma PendsAt(b: bytes, end: nat, n: nat)
    requires HeaderEnd(b, 0) == Some(end) && |b| < end + 4 + n && Announced(b[..end]) == Ok(n)
    ensures Extract(b) == Pending
  {
    hide HeaderEnd, Announced, BlankLineAt;
  }

  lemma StreamAt(bodies: seq<bytes>, n: nat)
    requires bodies != [] && |Frame(bodies[0])| <= n <= |Stream(bodies)|
    ensures Stream(bodies)[..n] == Frame(bodies[0]) + Stream(bodies[1..])[..n - |Frame(bodies[0])|]
    ensures Stream(bodies)[n..] == Stream(bodies[1..])[n - |Frame(bodies[0])|..]
  {
    hide Frame;
    PrefixOfConcat(Frame(bodies[0]), Stream(bodies[1..]), n);
  }

  lemma DrainOfBody(a: bytes)
    requires Extract(a).Body?
    ensures Drain(a) == After([Extract(a).body], Drain(Extract(a).rest))
  {
    hide Extract;
    ExtractShrinks(a);
  }

  /** What is left to read after `d`, given the bytes still to come. */
  ghost predicate Reaches(bodies: seq<bytes>, d: Drained, coming: bytes) {
    var m := |d.bodies|;
    && m <= |bodies| && d.bodies == bodies[..m]
    && d.rest + coming == Stream(bodies[m..])
    && (m == |bodies| ==> d.rest == [])
    && (m < |bodies| ==> |d.rest| < |Frame(bodies[m])|)
  }

  /** Draining any part of the stream yields the bodies that lie wholly in it. */
  lemma {:induction false} DrainOfPart(bodies: seq<bytes>, n: nat)
    requires Sendable(bodies) && n <= |Stream(bodies)|
    ensures Drain(Stream(bodies)[..n]).Ok?
    ensures Reaches(bodies, Drain(Stream(bodies)[..n]).value, Stream(bodies)[n..])
  {
    if bodies == [] {
      DrainOfNothing();
    } else if n < |Frame(bodies[0])| {
      FirstFrameFits(bodies);
      NothingWhole(bodies, n);
    } else {
      hide Frame, Stream, Drain, Reaches;
      FirstFrameFits(bodies);
      DrainOfPart(bodies[1..], n - |Frame(bodies[0])|);
      FirstFrameDrains(bodies, n);
    }
  }

  lemma DrainOfNothing()
    ensures Stream([]) == [] && Drain([]) == Ok(Drained([], [])) && Reaches([], Drained([], []), [])
  {
    assert Extract([]) == Pending;
  }

  lemma FirstFrameFits(bodies: seq<bytes>)
    requires bodies != []
    ensures |Stream(bodies)| == |Frame(bodies[0])| + |Stream(bodies[1..])|
  {
  }

  /** A part that holds the whole first frame drains as its body and the part of the rest. */
  lemma FirstFrameDrains(bodies: seq<bytes>, n: nat)
    requires Sendable(bodies) && bodies != [] && |Frame(bodies[0])| <= n <= |Stream(bodies)|
    requires |Stream(bodies)| == |Frame(bodies[0])| + |Stream(bodies[1..])|
    requires
      var r := Drain(Stream(bodies[1..])[..n - |Frame(bodies[0])|]);
      r.Ok? && Reaches(bodies[1..], r.value, Stream(bodies[1..])[n - |Frame(bodies[0])|..])
    ensures Drain(Stream(bodies)[..n]).Ok?
    ensures Reaches(bodies, Drain(Stream(bodies)[..n]).value, Stream(bodies)[n..])
  {
    hide Frame, Extract, Reaches, Stream, Drain;
    var f, tail := Frame(bodies[0]), bodies[1..];
    StreamAt(bodies, n);
    FrameExtracts(bodies[0], Stream(tail)[..n - |f|]);
    DrainOfBody(Stream(bodies)[..n]);
    ReachesWithHead(bodies, Drain(Stream(tail)[..n - |f|]).value, Stream(bodies)[n..]);
  }

  lemma NothingWhole(bodies: seq<bytes>, n: nat)
    requires Sendable(bodies) && bodies != [] && n < |Frame(bodies[0])| <= |Stream(bodies)|
    ensures
      var d := Drained([], Stream(bodies)[..n]);
      Drain(Stream(bodies)[..n]) == Ok(d) && Reaches(bodies, d, Stream(bodies)[n..])
  {
    hide Frame, Extract;
    var s, f := Stream(bodies), Frame(bodies[0]);
    assert s[..n] == f[..n];
    PartOfFramePends(bodies[0], n);
    hide Drain, Stream;
    assert bodies[0..] == bodies && bodies[..0] == [];
    assert s[..n] + s[n..] == s;
  }

  lemma ReachesWithHead(bodies: seq<bytes>, d: Drained, coming: bytes)
    requires bodies != [] && Reaches(bodies[1..], d, coming)
    ensures Reaches(bodies, Drained([bodies[0]] + d.bodies, d.rest), coming)
  {
    hide Frame, Stream;
    var m := |d.bodies|;
    assert bodies[..m + 1] == [bodies[0]] + bodies[1..][..m];
    assert bodies[m + 1..] == bodies[1..][m..];
  }

  // ---------- when the buffer cap is harmless ----------

  function Min(a: nat, b: nat): nat { if a < b then a else b }

  /**
    For each frame: all of it but the last byte may be waiting when the next
    chunk brings that byte and as much of the following frames as a chunk holds.
  */
  predicate Roomy(bodies: seq<bytes>) {
    forall i | 0 <= i < |bodies| :: Peak(bodies, i) <= MAX_BUFFER
  }

  function Peak(bodies: seq<bytes>, i: nat): int
    requires i < |bodies|
  {
    |Frame(bodies[i])| - 1 + Min(MAX_CHUNK, 1 + |Stream(bodies[i + 1..])|)
  }

  predicate Chunked(chunks: seq<bytes>) {
    forall i | 0 <= i < |chunks| :: |chunks[i]| <= MAX_CHUNK
  }

  /** Frames of at most one byte over 4 MiB always leave room. */
  lemma SmallFramesAreRoomy(bodies: seq<bytes>)
    requires forall i | 0 <= i < |bodies| :: |Frame(bodies[i])| <= MAX_FRAME_BYTES + 1
    ensures Roomy(bodies)
  {
  }

  lemma TailsAreRoomy(bodies: seq<bytes>, m: nat)
    requires m <= |bodies|
    ensures Sendable(bodies) ==> Sendable(bodies[m..])
    ensures Roomy(bodies) ==> Roomy(bodies[m..])
  {
    hide Frame, Stream;
    var tail := bodies[m..];
    forall i | 0 <= i < |tail|
      ensures Peak(tail, i) == Peak(bodies, i + m)
    {
      assert tail[i + 1..] == bodies[i + m + 1..];
    }
  }

  /** Any chunking of the writer's frames gives every body in order and nothing more. */
  lemma {:induction false} FramesArrive(bodies: seq<bytes>, buffer: bytes, chunks: seq<bytes>, capped: bool)
    requires Sendable(bodies) && buffer + Concat(chunks) == Stream(bodies)
    requires capped ==> Roomy(bodies) && Chunked(chunks)
    ensures Feed(buffer, chunks, capped) == Ok(Drained(bodies, []))
    decreases |chunks|
  {
    hide Drain, Stream, Roomy, Frame, Sendable;
    Halves(buffer, Concat(chunks));
    DrainOfPart(bodies, |buffer|);
    var d := Drain(buffer).value;
    var m := |d.bodies|;
    if chunks == [] {
      NothingIsLeft(bodies, d);
    } else {
      TailsAreRoomy(bodies, m);
      Assoc(d.rest, chunks[0], Concat(chunks[1..]));
      if capped {
        ChunkFits(bodies, d, chunks);
      }
      FramesArrive(bodies[m..], d.rest + chunks[0], chunks[1..], capped);
      assert bodies[..m] + bodies[m..] == bodies;
    }
  }

  lemma NothingIsLeft(bodies: seq<bytes>, d: Drained)
    requires Reaches(bodies, d, [])
    ensures d == Drained(bodies, [])
  {
    hide Frame;
    var m := |d.bodies|;
    assert d.rest + [] == d.rest;
    assert bodies[..|bodies|] == bodies;
    FrameFits(bodies, m);
  }

  lemma FrameFits(bodies: seq<bytes>, m: nat)
    ensures m < |bodies| ==> |Frame(bodies[m])| <= |Stream(bodies[m..])|
  {
    hide Frame;
  }

  lemma DrainOfStream(bodies: seq<bytes>)
    requires Sendable(bodies)
    ensures Drain(Stream(bodies)) == Ok(Drained(bodies, []))
  {
    hide Drain, Stream;
    var n := |Stream(bodies)|;
    DrainOfPart(bodies, n);
    assert Stream(bodies)[..n] == Stream(bodies) && Stream(bodies)[n..] == [];
    NothingIsLeft(bodies, Drain(Stream(bodies)).value);
  }

  lemma ChunkFits(bodies: seq<bytes>, d: Drained, chunks: seq<bytes>)
    requires chunks != [] && Reaches(bodies, d, Concat(chunks)) && Roomy(bodies) && Chunked(chunks)
    ensures |d.rest + chunks[0]| <= MAX_BUFFER
  {
    hide Frame;
    var m := |d.bodies|;
    if m < |bodies| {
      assert Peak(bodies, m) <= MAX_BUFFER;
      assert bodies[m..][0] == bodies[m] && bodies[m..][1..] == bodies[m + 1..];
      assert |d.rest| + |chunks[0]| <= |Stream(bodies[m..])|;
    }
  }

  /** A chunk that overflows the cap stops the reading, whatever came before. */
  lemma {:induction false} OverflowStops(buffer: bytes, before: seq<bytes>, chunk: bytes, later: seq<bytes>)
    requires Feed(buffer, before + [chunk] + later, true).Ok?
    ensures Drain(buffer + Concat(before)).Ok?
    ensures chunk != [] ==> |Drain(buffer + Concat(before)).value.rest| + |chunk| <= MAX_BUFFER
    decreases |before|
  {
    hide Drain;
    var chunks := before + [chunk] + later;
    var d := Drain(buffer).value;
    if before == [] {
      assert chunks[0] == chunk;
      assert buffer + [] == buffer;
    } else {
      assert chunks[0] == before[0] && chunks[1..] == before[1..] + [chunk] + later;
      OverflowStops(d.rest + chunks[0], before[1..], chunk, later);
      DrainResumes(buffer, Concat(before));
      Assoc(d.rest, before[0], Concat(before[1..]));
    }
  }

  function Singles(b: bytes): (r: seq<bytes>)
    ensures Chunked(r) && Concat(r) == b
  {
    if b == [] then [] else
      var rest := Singles(b[1..]);
      assert ([b[..1]] + rest)[1..] == rest;
      [b[..1]] + rest
  }

  lemma {:induction false} ConcatOf(a: seq<bytes>, b: seq<bytes>)
    ensures Concat(a + b) == Concat(a) + Concat(b)
  {
    if a == [] {
      assert a + b == b;
    } else {
      ConcatOf(a[1..], b);
      assert (a + b)[1..] == a[1..] + b;
      Assoc(a[0], Concat(a[1..]), Concat(b));
    }
  }

  lemma {:induction false} StreamOf(a: seq<bytes>, b: seq<bytes>)
    ensures Stream(a + b) == Stream(a) + Stream(b)
  {
    hide Frame;
    if a == [] {
      assert a + b == b;
    } else {
      StreamOf(a[1..], b);
      assert (a + b)[1..] == a[1..] + b;
      Assoc(Frame(a[0]), Stream(a[1..]), Stream(b));
    }
  }

  /** The bytes sent before the last byte of frame `i`. */
  function UpToLast(bodies: seq<bytes>, i: nat): nat
    requires i < |bodies|
  {
    |Stream(bodies[..i])| + |Frame(bodies[i])| - 1
  }

  /** The stream up to the last byte of frame `i`. */
  lemma ShapeUpToLast(bodies: seq<bytes>, i: nat)
    requires Sendable(bodies) && i < |bodies|
    ensures
      var f := Frame(bodies[i]);
      && |f| >= 4 && UpToLast(bodies, i) + 1 + |Stream(bodies[i + 1..])| == |Stream(bodies)|
      && Stream(bodies)[..UpToLast(bodies, i)] == Stream(bodies[..i]) + f[..|f| - 1]
  {
    hide Frame, Stream;
    var f, done, later := Frame(bodies[i]), bodies[..i], bodies[i + 1..];
    FrameIsLong(bodies[i]);
    assert bodies == done + ([bodies[i]] + later);
    StreamOf(done, [bodies[i]] + later);
    StreamCons(bodies[i], later);
    PrefixOfConcat(Stream(done), f + Stream(later), |Stream(done)| + |f| - 1);
    PrefixOfFirst(f, Stream(later), |f| - 1);
  }

  lemma FrameIsLong(body: bytes)
    ensures |Frame(body)| >= 4
  {
  }

  lemma StreamCons(body: bytes, later: seq<bytes>)
    ensures Stream([body] + later) == Frame(body) + Stream(later)
  {
    hide Frame;
    assert ([body] + later)[1..] == later;
  }

  lemma PrefixOfFirst(a: bytes, b: bytes, k: nat)
    requires k <= |a|
    ensures (a + b)[..k] == a[..k]
  {
  }

  lemma LastByteWaits(bodies: seq<bytes>, i: nat)
    requires Sendable(bodies) && i < |bodies|
    ensures UpToLast(bodies, i) + 1 + |Stream(bodies[i + 1..])| == |Stream(bodies)|
    ensures Drain(Stream(bodies)[..UpToLast(bodies, i)]).Ok?
    ensures |Drain(Stream(bodies)[..UpToLast(bodies, i)]).value.rest| == |Frame(bodies[i])| - 1
  {
    hide Frame, Drain, Extract, Stream;
    ShapeUpToLast(bodies, i);
    var done, f := bodies[..i], Frame(bodies[i]);
    var part := f[..|f| - 1];
    DrainOfStream(done);
    DrainResumes(Stream(done), part);
    PartOfFramePends(bodies[i], |f| - 1);
    assert [] + part == part;
    DrainPends(part);
  }

  lemma DrainPends(a: bytes)
    requires Extract(a) == Pending
    ensures Drain(a) == Ok(Drained([], a))
  {
  }

  /**
    The cap never refuses what the writer sent, in whatever chunks it comes,
    exactly when every frame leaves room for the chunk that completes it.
  */
  lemma CapIsHarmlessIff(bodies: seq<bytes>)
    requires Sendable(bodies)
    ensures (forall chunks | Chunked(chunks) && Concat(chunks) == Stream(bodies) ::
               Feed([], chunks, true) == Ok(Drained(bodies, [])))
            <==> Roomy(bodies)
  {
    hide Feed, Stream, Frame, Drain, Roomy, Sendable;
    if Roomy(bodies) {
      forall chunks | Chunked(chunks) && Concat(chunks) == Stream(bodies)
        ensures Feed([], chunks, true) == Ok(Drained(bodies, []))
      {
        assert [] + Concat(chunks) == Concat(chunks);
        FramesArrive(bodies, [], chunks, true);
      }
    } else {
      var chunks := CrowdedChunks(bodies);
      assert Chunked(chunks) && Concat(chunks) == Stream(bodies);
    }
  }

  /** Chunks that the cap refuses, when some frame leaves no room. */
  lemma CrowdedChunks(bodies: seq<bytes>) returns (chunks: seq<bytes>)
    requires Sendable(bodies) && !Roomy(bodies)
    ensures Chunked(chunks) && Concat(chunks) == Stream(bodies) && Feed([], chunks, true).Err?
  {
    hide Feed, Stream, Frame, Drain, Sendable;
    var i :| 0 <= i < |bodies| && Peak(bodies, i) > MAX_BUFFER;
    var s, at := Stream(bodies), UpToLast(bodies, i);
    LastByteWaits(bodies, i);
    var big := Min(MAX_CHUNK, |s| - at);
    var before, chunk, later := Singles(s[..at]), s[at..at + big], Singles(s[at + big..]);
    chunks := before + [chunk] + later;
    PiecesMakeTheWhole(s, at, at + big, before, chunk, later);
    assert [] + s[..at] == s[..at];
    if Feed([], chunks, true).Ok? {
      OverflowStops([], before, chunk, later);
    }
  }

  lemma PiecesMakeTheWhole(s: bytes, i: nat, j: nat, before: seq<bytes>, chunk: bytes, later: seq<bytes>)
    requires i <= j <= |s| && Concat(before) == s[..i] && chunk == s[i..j] && Concat(later) == s[j..]
    ensures Concat(before + [chunk] + later) == s
  {
    ConcatOf(before + [chunk], later);
    ConcatOf(before, [chunk]);
    assert Concat([chunk]) == chunk + [] == chunk;
    SliceJoin(s, i, j);
    assert s[..j] + s[j..] == s;
  }

  /** Two sendable frames the cap can refuse: a full one with a long one behind it. */
  lemma CapCanRefuse(full: bytes, next: bytes)
    requires |full| == MAX_FRAME_BYTES && MAX_CHUNK <= |next| <= MAX_FRAME_BYTES
    ensures Sendable([full, next]) && !Roomy([full, next])
  {
    hide Encode;
    var bodies := [full, next];
    assert bodies[0 + 1..] == [next] && [next][1..] == [];
    assert |Stream([next])| == |Frame(next)| >= |next|;
    assert Peak(bodies, 0) > MAX_BUFFER;
  }

  // ---------- reading one message at a time ----------

  /** The unread buffer, and the chunks the server will deliver. */
  datatype Inbox = Inbox(buffer: bytes, chunks: seq<bytes>)

  /** `read_message`; running out of chunks stands for cancel, deadline or exit. */
  function ReadMessage(inbox: Inbox): (Result<bytes, string>, Inbox)
    decreases |inbox.chunks|
  {
    match Extract(inbox.buffer)
    case Failed(e) => (Err(e), inbox)
    case Body(body, rest) => (Ok(body), inbox.(buffer := rest))
    case Pending =>
      if inbox.chunks == [] then (Err("LSP query interrupted"), inbox)
      else
        var chunk := inbox.chunks[0];
        var next := Inbox(inbox.buffer + chunk, inbox.chunks[1..]);
        if chunk != [] && |next.buffer| > MAX_BUFFER then (Err("stream exceeded its bounded buffer"), next)
        else ReadMessage(next)
  }

  function ReadMany(inbox: Inbox, count: nat): Result<seq<bytes>, string>
    decreases count
  {
    if count == 0 then Ok([])
    else
      var (first, next) := ReadMessage(inbox);
      match first
      case Err(e) => Err(e)
      case Ok(body) =>
        match ReadMany(next, count - 1)
        case Err(e) => Err(e)
        case Ok(rest) => Ok([body] + rest)
  }

  lemma {:induction false} ReadTakesFirst(inbox: Inbox, d: Drained)
    requires Feed(inbox.buffer, inbox.chunks, true) == Ok(d)
    ensures
      var (first, next) := ReadMessage(inbox);
      if d.bodies == [] then first.Err?
      else first == Ok(d.bodies[0]) && Feed(next.buffer, next.chunks, true) == Ok(Drained(d.bodies[1..], d.rest))
    decreases |inbox.chunks|
  {
    hide Extract;
    if Extract(inbox.buffer).Pending? && inbox.chunks != [] {
      AfterTwice([], [], Feed(inbox.buffer + inbox.chunks[0], inbox.chunks[1..], true));
      ReadTakesFirst(Inbox(inbox.buffer + inbox.chunks[0], inbox.chunks[1..]), d);
    } else if Extract(inbox.buffer).Body? {
      ExtractShrinks(inbox.buffer);
      FeedAfterBody(inbox, d);
    }
  }

  lemma FeedAfterBody(inbox: Inbox, d: Drained)
    requires Extract(inbox.buffer).Body? && Feed(inbox.buffer, inbox.chunks, true) == Ok(d)
    ensures d.bodies != [] && d.bodies[0] == Extract(inbox.buffer).body
    ensures Feed(Extract(inbox.buffer).rest, inbox.chunks, true) == Ok(Drained(d.bodies[1..], d.rest))
  {
    hide Extract;
    var body, rest := Extract(inbox.buffer).body, Extract(inbox.buffer).rest;
    DrainOfBody(inbox.buffer);
    hide Drain;
    var inner := Drain(rest).value;
    if inbox.chunks != [] {
      var later := Feed(inner.rest + inbox.chunks[0], inbox.chunks[1..], true);
      AfterTwice([body], inner.bodies, later);
    }
    var short := Feed(rest, inbox.chunks, true);
    assert Ok(d) == After([body], short);
    assert ([body] + short.value.bodies)[1..] == short.value.bodies;
  }

  lemma {:induction false} ReadManyTakesAll(inbox: Inbox, d: Drained)
    requires Feed(inbox.buffer, inbox.chunks, true) == Ok(d)
    ensures ReadMany(inbox, |d.bodies|) == Ok(d.bodies)
    decreases |d.bodies|
  {
    hide Feed, ReadMessage;
    ReadTakesFirst(inbox, d);
    if d.bodies != [] {
      var next := ReadMessage(inbox).1;
      ReadManyTakesAll(next, Drained(d.bodies[1..], d.rest));
      assert [d.bodies[0]] + d.bodies[1..] == d.bodies;
    }
  }

  /** What the server frames is what the client reads, message by message. */
  lemma ClientReadsWhatWasSent(bodies: seq<bytes>, chunks: seq<bytes>)
    requires Sendable(bodies) && Roomy(bodies) && Chunked(chunks) && Concat(chunks) == Stream(bodies)
    ensures ReadMany(Inbox([], chunks), |bodies|) == Ok(bodies)
  {
    hide Feed, Stream, Roomy, Sendable, ReadMany;
    assert [] + Concat(chunks) == Concat(chunks);
    FramesArrive(bodies, [], chunks, true);
    ReadManyTakesAll(Inbox([], chunks), Drained(bodies, []));
  }
}
