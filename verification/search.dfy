/**
  Paging of src/search.rs: matches are collected in file and line order, a cursor
  names the query, the snapshot and an offset, and following cursors gives every
  match once.
*/
module Search {
  import opened Wrappers
  import opened Text
  import opened Sequences
  import Decimal

  const MAX_CURSOR_BYTES := 256
  const MAX_FILE_BYTES := 1048576
  const MAX_TOTAL_BYTES := 67108864
  const MAX_TOTAL_MATCHES := 10_000
  const MAX_MATCH_LINE_BYTES := 1024

  // ---------- collecting matches ----------

  /** A readable candidate file: its lines, or nothing when it is not text. */
  datatype Candidate = Candidate(path: string, size: nat, lines: Option<seq<string>>)

  datatype Match = Match(path: string, line: nat, text: string, truncated: bool)

  function MatchOf(path: string, lines: seq<string>, i: nat): Match
    requires i < |lines|
  {
    Match(path, i + 1, TruncateUtf8(lines[i], MAX_MATCH_LINE_BYTES), ByteLen(lines[i]) > MAX_MATCH_LINE_BYTES)
  }

  /** The matches among the first `n` lines of a file, in order. */
  function FileMatches(path: string, lines: seq<string>, matches: string -> bool, n: nat): seq<Match>
    requires n <= |lines|
  {
    if n == 0 then []
    else
      FileMatches(path, lines, matches, n - 1)
      + (if matches(lines[n - 1]) then [MatchOf(path, lines, n - 1)] else [])
  }

  function MatchesIn(c: Candidate, matches: string -> bool): seq<Match> {
    if c.size > MAX_FILE_BYTES || c.lines.None? then []
    else FileMatches(c.path, c.lines.value, matches, |c.lines.value|)
  }

  function AllMatches(candidates: seq<Candidate>, matches: string -> bool, n: nat): seq<Match>
    requires n <= |candidates|
  {
    if n == 0 then []
    else AllMatches(candidates, matches, n - 1) + MatchesIn(candidates[n - 1], matches)
  }

  function Bytes(candidates: seq<Candidate>, n: nat): nat
    requires n <= |candidates|
  {
    if n == 0 then 0 else Bytes(candidates, n - 1) + candidates[n - 1].size
  }

  lemma {:induction false} FileMatchesGrow(path: string, lines: seq<string>, matches: string -> bool, n: nat, m: nat)
    requires n <= m <= |lines|
    ensures |FileMatches(path, lines, matches, n)| <= |FileMatches(path, lines, matches, m)|
  {
    if n < m {
      FileMatchesGrow(path, lines, matches, n, m - 1);
    }
  }

  lemma {:induction false} MatchesGrow(candidates: seq<Candidate>, matches: string -> bool, n: nat, m: nat)
    requires n <= m <= |candidates|
    ensures |AllMatches(candidates, matches, n)| <= |AllMatches(candidates, matches, m)|
    ensures Bytes(candidates, n) <= Bytes(candidates, m)
  {
    if n < m {
      MatchesGrow(candidates, matches, n, m - 1);
    }
  }

  /** Refuses exactly when there is too much to scan or to report. */
  method Collect(candidates: seq<Candidate>, matches: string -> bool) returns (r: Result<seq<Match>, string>)
    ensures r.Ok? <==> Bytes(candidates, |candidates|) <= MAX_TOTAL_BYTES
                       && |AllMatches(candidates, matches, |candidates|)| <= MAX_TOTAL_MATCHES
    ensures r.Ok? ==> r.value == AllMatches(candidates, matches, |candidates|)
  {
    hide AllMatches, Bytes, FileMatches;
    var found: seq<Match> := [];
    var scanned, n := 0, 0;
    StartOfFiles(candidates, matches);
    while n < |candidates|
      invariant n <= |candidates| && scanned == Bytes(candidates, n) <= MAX_TOTAL_BYTES
      invariant found == AllMatches(candidates, matches, n) && |found| <= MAX_TOTAL_MATCHES
    {
      NextFile(candidates, matches, n);
      MatchesGrow(candidates, matches, n + 1, |candidates|);
      var c := candidates[n];
      scanned := scanned + c.size;
      if scanned > MAX_TOTAL_BYTES {
        return Err("scanned bytes exceed the limit");
      }
      if c.size <= MAX_FILE_BYTES && c.lines.Some? {
        var within, ok := CollectLines(found, c.path, c.lines.value, matches);
        if !ok {
          return Err("matches exceed the limit");
        }
        found := within;
      }
      n := n + 1;
    }
    return Ok(found);
  }

  lemma StartOfFiles(candidates: seq<Candidate>, matches: string -> bool)
    ensures AllMatches(candidates, matches, 0) == [] && Bytes(candidates, 0) == 0
  {
  }

  lemma NextFile(candidates: seq<Candidate>, matches: string -> bool, n: nat)
    requires n < |candidates|
    ensures Bytes(candidates, n + 1) == Bytes(candidates, n) + candidates[n].size
    ensures AllMatches(candidates, matches, n + 1) == AllMatches(candidates, matches, n) + MatchesIn(candidates[n], matches)
  {
  }

  method CollectLines(before: seq<Match>, path: string, lines: seq<string>, matches: string -> bool)
    returns (found: seq<Match>, ok: bool)
    requires |before| <= MAX_TOTAL_MATCHES
    ensures ok <==> |before + FileMatches(path, lines, matches, |lines|)| <= MAX_TOTAL_MATCHES
    ensures ok ==> found == before + FileMatches(path, lines, matches, |lines|)
  {
    found := before;
    var i := 0;
    while i < |lines|
      invariant i <= |lines| && found == before + FileMatches(path, lines, matches, i) && |found| <= MAX_TOTAL_MATCHES
    {
      FileMatchesGrow(path, lines, matches, i + 1, |lines|);
      if matches(lines[i]) {
        if |found| >= MAX_TOTAL_MATCHES {
          return found, false;
        }
        Assoc(before, FileMatches(path, lines, matches, i), [MatchOf(path, lines, i)]);
        found := found + [MatchOf(path, lines, i)];
      }
      i := i + 1;
    }
    return found, true;
  }

  // ---------- cursors ----------

  datatype Cursor = Cursor(queryDigest: string, snapshotDigest: string, offset: nat)

  function EncodeCursor(c: Cursor): string {
    "v1." + c.queryDigest + "." + c.snapshotDigest + "." + Decimal.Digits(c.offset)
  }

  function ParseCursor(raw: string): Result<Cursor, string> {
    if ByteLen(raw) > MAX_CURSOR_BYTES then Err("cursor is too long")
    else
      var parts := Split(raw, '.');
      if |parts| != 4 || parts[0] != "v1" then Err("malformed cursor")
      else if !IsHexDigest(parts[1]) || !IsHexDigest(parts[2]) then Err("malformed cursor digest")
      else match Decimal.ParseUnsigned(parts[3], U64_MAX)
        case None => Err("malformed cursor offset")
        case Some(offset) => Ok(Cursor(parts[1], parts[2], offset))
  }

  predicate WellFormed(c: Cursor) {
    IsHexDigest(c.queryDigest) && IsHexDigest(c.snapshotDigest) && c.offset <= U64_MAX
  }

  function Parts(c: Cursor): seq<string> {
    ["v1", c.queryDigest, c.snapshotDigest, Decimal.Digits(c.offset)]
  }

  lemma EncodeIsJoin(c: Cursor)
    ensures EncodeCursor(c) == Join(Parts(c), '.')
  {
    var p := Parts(c);
    var digits := Decimal.Digits(c.offset);
    assert p[1..] == [c.queryDigest, c.snapshotDigest, digits];
    assert p[1..][1..] == [c.snapshotDigest, digits];
    assert p[1..][1..][1..] == [digits];
    assert Join([digits], '.') == digits;
    assert Join([c.snapshotDigest, digits], '.') == c.snapshotDigest + "." + digits;
    assert Join(p[1..], '.') == c.queryDigest + "." + (c.snapshotDigest + "." + digits);
  }

  lemma PartsAreFree(c: Cursor)
    requires WellFormed(c)
    ensures forall i | 0 <= i < |Parts(c)| :: Free(Parts(c)[i], '.')
  {
    var digits := Decimal.Digits(c.offset);
    assert forall j | 0 <= j < |digits| :: Decimal.IsDigit(digits[j]);
  }

  /** Nothing in a cursor takes more than one byte, and it stays under the limit. */
  lemma CursorIsShort(c: Cursor)
    requires WellFormed(c)
    ensures ByteLen(EncodeCursor(c)) == |EncodeCursor(c)| <= 153 < MAX_CURSOR_BYTES
  {
    var s, digits := EncodeCursor(c), Decimal.Digits(c.offset);
    TwentyDigits();
    Decimal.DigitsFit(c.offset, 20);
    assert forall j | 0 <= j < |digits| :: Decimal.IsDigit(digits[j]);
    AsciiBytes(s, |s|);
  }

  lemma TwentyDigits()
    ensures U64_MAX < Decimal.PowerOfTen(20)
  {
    assert Decimal.PowerOfTen(5) == 100000;
    assert Decimal.PowerOfTen(10) == 10000000000;
    assert Decimal.PowerOfTen(15) == 1000000000000000;
  }

  /** A cursor comes back from its own text. */
  lemma CursorReadsBack(c: Cursor)
    requires WellFormed(c)
    ensures ParseCursor(EncodeCursor(c)) == Ok(c)
  {
    hide IsHexDigest, EncodeCursor, Join, ByteLen;
    CursorIsShort(c);
    EncodeIsJoin(c);
    PartsAreFree(c);
    SplitOfJoin(Parts(c), '.');
    Decimal.DigitsReadBack(c.offset, U64_MAX);
  }

  /** An accepted text is the text of its cursor, unless its offset is spelled oddly. */
  lemma ParsedTextIsCanonicalIff(raw: string)
    requires ParseCursor(raw).Ok?
    ensures EncodeCursor(ParseCursor(raw).value) == raw <==>
            Split(raw, '.')[3] == Decimal.Digits(ParseCursor(raw).value.offset)
  {
    hide Split, Join, EncodeCursor, ByteLen, Decimal.ParseUnsigned;
    var c, parts := ParseCursor(raw).value, Split(raw, '.');
    JoinOfSplit(raw, '.');
    EncodeIsJoin(c);
    ParsedIsWellFormed(raw);
    PartsAreFree(c);
    SplitOfJoin(Parts(c), '.');
    assert parts == [parts[0], parts[1], parts[2], parts[3]];
  }

  lemma ParsedIsWellFormed(raw: string)
    requires ParseCursor(raw).Ok?
    ensures WellFormed(ParseCursor(raw).value)
  {
  }

  // ---------- pages ----------

  datatype Page = Page(rows: seq<Match>, next: Option<string>)

  /** What stays fixed while pages are followed. */
  datatype Listing = Listing(matches: seq<Match>, queryDigest: string, snapshotDigest: string)

  predicate Sound(l: Listing) {
    IsHexDigest(l.queryDigest) && IsHexDigest(l.snapshotDigest) && |l.matches| <= MAX_TOTAL_MATCHES
  }

  function CursorAt(l: Listing, offset: nat): string {
    EncodeCursor(Cursor(l.queryDigest, l.snapshotDigest, offset))
  }

  function PageOf(l: Listing, raw: Option<string>, size: nat): Result<Page, string> {
    var cursor := if raw.None? then Ok(Cursor(l.queryDigest, l.snapshotDigest, 0)) else ParseCursor(raw.value);
    match cursor
    case Err(e) => Err(e)
    case Ok(c) =>
      if c.queryDigest != l.queryDigest then Err("cursor does not belong to this query")
      else if c.snapshotDigest != l.snapshotDigest then Err("cursor invalidated because files changed")
      else if c.offset > |l.matches| then Err("cursor offset is beyond the result set")
      else
        var end := if c.offset + size < |l.matches| then c.offset + size else |l.matches|;
        Ok(Page(l.matches[c.offset..end], if end < |l.matches| then Some(CursorAt(l, end)) else None))
  }

  /** The page at an offset reached by following cursors. */
  lemma PageAt(l: Listing, raw: Option<string>, offset: nat, size: nat)
    requires Sound(l) && size >= 1 && offset <= |l.matches|
    requires raw == if offset == 0 then None else Some(CursorAt(l, offset))
    ensures
      var end := if offset + size < |l.matches| then offset + size else |l.matches|;
      && PageOf(l, raw, size) == Ok(Page(l.matches[offset..end], if end < |l.matches| then Some(CursorAt(l, end)) else None))
      && (end < |l.matches| ==> offset < end)
  {
    hide EncodeCursor, ParseCursor, IsHexDigest;
    if offset > 0 {
      CursorReadsBack(Cursor(l.queryDigest, l.snapshotDigest, offset));
    }
  }

  /** Follow cursors from `raw`, choosing a size for every call, for at most `calls` calls. */
  function Follow(l: Listing, raw: Option<string>, sizes: nat -> nat, call: nat, calls: nat): Result<(seq<Match>, bool), string>
    decreases calls
  {
    if calls == 0 then Ok(([], false))
    else match PageOf(l, raw, sizes(call))
      case Err(e) => Err(e)
      case Ok(page) =>
        if page.next.None? then Ok((page.rows, true))
        else match Follow(l, page.next, sizes, call + 1, calls - 1)
          case Err(e) => Err(e)
          case Ok((rows, done)) => Ok((page.rows + rows, done))
  }

  lemma {:induction false} FollowFrom(l: Listing, raw: Option<string>, offset: nat, sizes: nat -> nat, call: nat, calls: nat)
    requires Sound(l) && offset <= |l.matches| < offset + calls && forall n :: sizes(n) >= 1
    requires raw == if offset == 0 then None else Some(CursorAt(l, offset))
    ensures Follow(l, raw, sizes, call, calls) == Ok((l.matches[offset..], true))
    decreases calls
  {
    hide PageOf, Sound, CursorAt;
    PageAt(l, raw, offset, sizes(call));
    var end := if offset + sizes(call) < |l.matches| then offset + sizes(call) else |l.matches|;
    if end < |l.matches| {
      FollowFrom(l, Some(CursorAt(l, end)), end, sizes, call + 1, calls - 1);
      SliceJoin(l.matches, offset, end);
    } else {
      assert l.matches[offset..end] == l.matches[offset..];
    }
  }

  /**
    On unchanged files, following cursors with any page sizes gives every match
    exactly once and in order, and stops within one call per match and one more.
  */
  lemma PagesAreTheWholeList(l: Listing, sizes: nat -> nat)
    requires Sound(l) && forall n :: sizes(n) >= 1
    ensures Follow(l, None, sizes, 0, |l.matches| + 1) == Ok((l.matches, true))
  {
    FollowFrom(l, None, 0, sizes, 0, |l.matches| + 1);
    assert l.matches[0..] == l.matches;
  }

  /** A cursor is accepted on another listing exactly when query, snapshot and range agree. */
  lemma CursorAcceptedIff(l: Listing, other: Listing, offset: nat, size: nat)
    requires Sound(l) && Sound(other) && 0 < offset <= |l.matches|
    ensures PageOf(other, Some(CursorAt(l, offset)), size).Ok? <==>
            l.queryDigest == other.queryDigest && l.snapshotDigest == other.snapshotDigest && offset <= |other.matches|
  {
    hide EncodeCursor, ParseCursor, IsHexDigest;
    CursorReadsBack(Cursor(l.queryDigest, l.snapshotDigest, offset));
  }
}
