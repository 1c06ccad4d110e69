/**
  The patch language of src/apply_patch.rs: its parser, and a printer that
  shows exactly which patches the parser can return.
*/
module PatchSyntax {
  import opened Wrappers
  import opened Text
  import opened Sequences

  datatype PatchLine = Context(text: string) | Delete(text: string) | Add(text: string)

  datatype Hunk = Hunk(title: Option<string>, lines: seq<PatchLine>)

  datatype Patch = Patch(path: string, hunks: seq<Hunk>)

  // ---------- lines of text ----------

  predicate OneLine(s: string) {
    Free(s, '\n')
  }

  function StripReturn(line: string): string {
    if line != "" && line[|line| - 1] == '\r' then line[..|line| - 1] else line
  }

  function StripReturns(lines: seq<string>): (r: seq<string>)
    ensures |r| == |lines| && forall i | 0 <= i < |r| :: r[i] == StripReturn(lines[i])
  {
    seq(|lines|, i requires 0 <= i < |lines| => StripReturn(lines[i]))
  }

  predicate HasPrefix(s: string, prefix: string) {
    prefix <= s
  }

  // ---------- the parser ----------

  const BEGIN := "*** Begin Patch"
  const UPDATE := "*** Update File: "
  const END := "*** End Patch"

  predicate IsAnchor(line: PatchLine) {
    !line.Add?
  }

  predicate ValidHunk(hunk: Hunk) {
    && (exists i | 0 <= i < |hunk.lines| :: IsAnchor(hunk.lines[i]))
    && (exists i | 0 <= i < |hunk.lines| :: !hunk.lines[i].Context?)
  }

  /** The hunks so far, with the open one closed; an invalid one is refused. */
  function Close(hunks: seq<Hunk>, current: Option<Hunk>): Result<seq<Hunk>, string> {
    match current
    case None => Ok(hunks)
    case Some(hunk) => if ValidHunk(hunk) then Ok(hunks + [hunk]) else Err("invalid hunk")
  }

  function LabelOf(header: string): Option<string> {
    var title := if HasPrefix(header, "@@ ") then Trim(header[3..]) else "";
    if title == "" then None else Some(title)
  }

  function BodyLine(line: string): Result<PatchLine, string> {
    if line == "" then Err("empty hunk line must carry a context/add/delete prefix")
    else if line[0] == ' ' then Ok(Context(line[1..]))
    else if line[0] == '-' then Ok(Delete(line[1..]))
    else if line[0] == '+' then Ok(Add(line[1..]))
    else Err("hunk lines must start with space, `-`, or `+`")
  }

  /** What one line does to the hunks read so far and the open hunk. */
  function ReadLine(line: string, hunks: seq<Hunk>, current: Option<Hunk>)
    : Result<(seq<Hunk>, Option<Hunk>), string>
  {
    if HasPrefix(line, "*** ") then Err("invalid patch header")
    else if line == "@@" || HasPrefix(line, "@@ ") then
      match Close(hunks, current)
      case Err(e) => Err(e)
      case Ok(closed) => Ok((closed, Some(Hunk(LabelOf(line), []))))
    else if HasPrefix(line, "@@") then Err("hunk header must be `@@` or `@@ <label>`")
    else if current.None? then Err("expected `@@` before patch body")
    else match BodyLine(line)
      case Err(e) => Err(e)
      case Ok(read) => Ok((hunks, Some(current.value.(lines := current.value.lines + [read]))))
  }

  /** The hunks up to the end marker, and the lines after it. */
  function ParseBody(lines: seq<string>, hunks: seq<Hunk>, current: Option<Hunk>)
    : Result<(seq<Hunk>, seq<string>), string>
  {
    if lines == [] then Err("missing `*** End Patch`")
    else if lines[0] == END then
      match Close(hunks, current)
      case Err(e) => Err(e)
      case Ok(closed) => Ok((closed, lines[1..]))
    else match ReadLine(lines[0], hunks, current)
      case Err(e) => Err(e)
      case Ok((next, open)) => ParseBody(lines[1..], next, open)
  }

  function ParseLines(lines: seq<string>): Result<Patch, string> {
    if lines == [] || lines[0] != BEGIN then Err("expected `*** Begin Patch`")
    else if |lines| < 2 then Err("missing `*** Update File:` header")
    else if !HasPrefix(lines[1], UPDATE) then Err("unsupported header")
    else if Trim(lines[1][|UPDATE|..]) == "" then Err("update path must not be empty")
    else match ParseBody(lines[2..], [], None)
      case Err(e) => Err(e)
      case Ok((hunks, trailing)) =>
        if |trailing| > 1 || (|trailing| == 1 && trailing[0] != "") then Err("unexpected content after `*** End Patch`")
        else if hunks == [] then Err("at least one hunk is required")
        else Ok(Patch(Trim(lines[1][|UPDATE|..]), hunks))
  }

  function Parse(input: string): Result<Patch, string> {
    ParseLines(StripReturns(Split(input, '\n')))
  }

  lemma ParseBodyAt(lines: seq<string>, index: nat, hunks: seq<Hunk>, current: Option<Hunk>)
    requires index < |lines|
    ensures ParseBody(lines[index..], hunks, current) ==
            if lines[index] == END then
              (if Close(hunks, current).Err? then Err(Close(hunks, current).error)
               else Ok((Close(hunks, current).value, lines[index + 1..])))
            else if ReadLine(lines[index], hunks, current).Err? then Err(ReadLine(lines[index], hunks, current).error)
            else ParseBody(lines[index + 1..], ReadLine(lines[index], hunks, current).value.0,
                           ReadLine(lines[index], hunks, current).value.1)
  {
    hide ReadLine, Close;
    assert lines[index..][0] == lines[index] && lines[index..][1..] == lines[index + 1..];
  }

  /** The loop of `parse`: one index, an open hunk and a growing list of closed ones. */
  method BodyLoop(lines: seq<string>, start: nat) returns (r: Result<(seq<Hunk>, seq<string>), string>)
    requires start <= |lines|
    ensures r == ParseBody(lines[start..], [], None)
  {
    hide ReadLine, Close, ParseBody;
    var index, hunks, current := start, [], None;
    while index < |lines|
      invariant start <= index <= |lines|
      invariant ParseBody(lines[start..], [], None) == ParseBody(lines[index..], hunks, current)
    {
      ParseBodyAt(lines, index, hunks, current);
      var line := lines[index];
      index := index + 1;
      if line == END {
        var closed := Close(hunks, current);
        return if closed.Err? then Err(closed.error) else Ok((closed.value, lines[index..]));
      }
      var read := ReadLine(line, hunks, current);
      if read.Err? {
        return Err(read.error);
      }
      hunks, current := read.value.0, read.value.1;
    }
    NoBody(hunks, current);
    assert lines[index..] == [];
    return Err("missing `*** End Patch`");
  }

  lemma NoBody(hunks: seq<Hunk>, current: Option<Hunk>)
    ensures ParseBody([], hunks, current) == Err("missing `*** End Patch`")
  {
  }

  /** `parse`: the two header lines, the hunks, and nothing after the end. */
  method ParseLoop(input: string) returns (r: Result<Patch, string>)
    ensures r == Parse(input)
  {
    hide ParseBody, Trim, Split, StripReturns;
    var lines := StripReturns(Split(input, '\n'));
    if lines[0] != BEGIN {
      return Err("expected `*** Begin Patch`");
    }
    if |lines| < 2 {
      return Err("missing `*** Update File:` header");
    }
    if !HasPrefix(lines[1], UPDATE) {
      return Err("unsupported header");
    }
    var path := Trim(lines[1][|UPDATE|..]);
    if path == "" {
      return Err("update path must not be empty");
    }
    var body := BodyLoop(lines, 2);
    if body.Err? {
      return Err(body.error);
    }
    var (hunks, trailing) := body.value;
    if |trailing| > 1 || (|trailing| == 1 && trailing[0] != "") {
      return Err("unexpected content after `*** End Patch`");
    }
    if hunks == [] {
      return Err("at least one hunk is required");
    }
    r := Ok(Patch(path, hunks));
  }

  // ---------- the printer ----------

  function PrintLine(line: PatchLine): string {
    match line
    case Context(text) => " " + text
    case Delete(text) => "-" + text
    case Add(text) => "+" + text
  }

  function PrintBody(lines: seq<PatchLine>): seq<string> {
    if lines == [] then [] else [PrintLine(lines[0])] + PrintBody(lines[1..])
  }

  function PrintHunk(hunk: Hunk): seq<string> {
    [match hunk.title case None => "@@" case Some(title) => "@@ " + title] + PrintBody(hunk.lines)
  }

  function PrintHunks(hunks: seq<Hunk>): seq<string> {
    if hunks == [] then [] else PrintHunk(hunks[0]) + PrintHunks(hunks[1..])
  }

  function PrintLines(patch: Patch): (lines: seq<string>)
    ensures |lines| > 0
  {
    [BEGIN, UPDATE + patch.path] + PrintHunks(patch.hunks) + [END]
  }

  /** Carriage returns shield body lines that end in one of their own. */
  function AddReturns(lines: seq<string>): (r: seq<string>)
    ensures |r| == |lines| && forall i | 0 <= i < |r| :: r[i] == lines[i] + "\r"
  {
    seq(|lines|, i requires 0 <= i < |lines| => lines[i] + "\r")
  }

  function Print(patch: Patch): string {
    Join(AddReturns(PrintLines(patch)), '\n')
  }

  predicate WellFormedHunk(hunk: Hunk) {
    && ValidHunk(hunk)
    && (hunk.title.Some? ==> Bare(hunk.title.value) && OneLine(hunk.title.value))
    && forall i | 0 <= i < |hunk.lines| :: OneLine(hunk.lines[i].text)
  }

  predicate WellFormed(patch: Patch) {
    && Bare(patch.path) && OneLine(patch.path)
    && patch.hunks != []
    && forall i | 0 <= i < |patch.hunks| :: WellFormedHunk(patch.hunks[i])
  }

  // ---------- printing, then parsing ----------

  lemma StripUndoesAdd(lines: seq<string>)
    ensures StripReturns(AddReturns(lines)) == lines
  {
    assert forall i | 0 <= i < |lines| :: StripReturn(lines[i] + "\r") == lines[i];
  }

  lemma ReadsBack(line: PatchLine, hunks: seq<Hunk>, open: Hunk)
    ensures PrintLine(line) != END
    ensures ReadLine(PrintLine(line), hunks, Some(open)) == Ok((hunks, Some(open.(lines := open.lines + [line]))))
  {
    var p := PrintLine(line);
    assert p[0] in " -+" && p[1..] == line.text;
    assert END[0] == '*' && "*** "[0] == '*' && "@@"[0] == '@' && "@@ "[0] == '@';
  }

  lemma {:induction false} BodyReadsBack(body: seq<PatchLine>, rest: seq<string>, hunks: seq<Hunk>, open: Hunk)
    ensures ParseBody(PrintBody(body) + rest, hunks, Some(open)) ==
            ParseBody(rest, hunks, Some(open.(lines := open.lines + body)))
    decreases |body|
  {
    hide ReadLine, PrintLine, Close;
    if body == [] {
      assert PrintBody(body) + rest == rest;
      assert open.lines + body == open.lines;
    } else {
      var tail := PrintBody(body[1..]) + rest;
      assert PrintBody(body) + rest == [PrintLine(body[0])] + tail;
      ReadsBack(body[0], hunks, open);
      BodyReadsBack(body[1..], rest, hunks, open.(lines := open.lines + [body[0]]));
      assert open.lines + [body[0]] + body[1..] == open.lines + body;
    }
  }

  lemma HeaderReadsBack(title: Option<string>, hunks: seq<Hunk>, current: Option<Hunk>)
    requires title.Some? ==> Bare(title.value)
    ensures
      var line := match title case None => "@@" case Some(text) => "@@ " + text;
      && line != END
      && ReadLine(line, hunks, current) ==
         match Close(hunks, current)
         case Err(e) => Err(e)
         case Ok(closed) => Ok((closed, Some(Hunk(title, []))))
  {
    hide Close, Trim;
    var line := match title case None => "@@" case Some(text) => "@@ " + text;
    assert line[0] == '@' && END[0] == '*' && "*** "[0] == '*';
    if title.Some? {
      assert line[3..] == title.value;
      TrimFixed(title.value);
    } else {
      assert !HasPrefix(line, "@@ ");
    }
  }

  /** The hunks once the open one, if any, is closed. */
  function Closed(hunks: seq<Hunk>, current: Option<Hunk>): seq<Hunk> {
    match current case None => hunks case Some(hunk) => hunks + [hunk]
  }

  lemma HunkReadsBack(hunk: Hunk, tail: seq<string>, hunks: seq<Hunk>, current: Option<Hunk>)
    requires current.Some? ==> ValidHunk(current.value)
    requires hunk.title.Some? ==> Bare(hunk.title.value)
    ensures ParseBody(PrintHunk(hunk) + tail, hunks, current) == ParseBody(tail, Closed(hunks, current), Some(hunk))
  {
    hide ReadLine, ValidHunk, Bare;
    var all := PrintHunk(hunk) + tail;
    HeaderReadsBack(hunk.title, hunks, current);
    assert all[0] == PrintHunk(hunk)[0] && all[1..] == PrintBody(hunk.lines) + tail;
    BodyReadsBack(hunk.lines, tail, Closed(hunks, current), Hunk(hunk.title, []));
    assert [] + hunk.lines == hunk.lines;
  }

  lemma EndReadsBack(hunks: seq<Hunk>, current: Option<Hunk>)
    requires current.Some? ==> ValidHunk(current.value)
    ensures ParseBody([END], hunks, current) == Ok((Closed(hunks, current), []))
  {
    hide ValidHunk;
    assert [END][1..] == [];
  }

  lemma {:induction false} HunksReadBack(rest: seq<Hunk>, hunks: seq<Hunk>, current: Option<Hunk>)
    requires current.Some? ==> ValidHunk(current.value)
    requires forall i | 0 <= i < |rest| :: WellFormedHunk(rest[i])
    ensures ParseBody(PrintHunks(rest) + [END], hunks, current) == Ok((Closed(hunks, current) + rest, []))
    decreases |rest|
  {
    hide ParseBody, ValidHunk, Bare, PrintHunk;
    if rest == [] {
      assert PrintHunks(rest) + [END] == [END];
      EndReadsBack(hunks, current);
      assert Closed(hunks, current) + rest == Closed(hunks, current);
    } else {
      var tail := PrintHunks(rest[1..]) + [END];
      assert WellFormedHunk(rest[0]);
      Assoc(PrintHunk(rest[0]), PrintHunks(rest[1..]), [END]);
      HunkReadsBack(rest[0], tail, hunks, current);
      HunksReadBack(rest[1..], Closed(hunks, current), Some(rest[0]));
      Assoc(Closed(hunks, current), [rest[0]], rest[1..]);
      assert [rest[0]] + rest[1..] == rest;
    }
  }

  lemma {:induction false} PrintedBodyIsOneLines(lines: seq<PatchLine>)
    requires forall i | 0 <= i < |lines| :: OneLine(lines[i].text)
    ensures forall i | 0 <= i < |PrintBody(lines)| :: OneLine(PrintBody(lines)[i])
  {
    if lines != [] {
      PrintedBodyIsOneLines(lines[1..]);
    }
  }

  lemma {:induction false} PrintedHunksAreOneLines(hunks: seq<Hunk>)
    requires forall i | 0 <= i < |hunks| :: WellFormedHunk(hunks[i])
    ensures forall i | 0 <= i < |PrintHunks(hunks)| :: OneLine(PrintHunks(hunks)[i])
  {
    if hunks != [] {
      PrintedBodyIsOneLines(hunks[0].lines);
      PrintedHunksAreOneLines(hunks[1..]);
    }
  }

  lemma LinesReadBack(patch: Patch)
    requires WellFormed(patch)
    ensures ParseLines(PrintLines(patch)) == Ok(patch)
  {
    hide ParseBody, PrintHunks, WellFormedHunk, Trim;
    var lines := PrintLines(patch);
    assert lines[1][|UPDATE|..] == patch.path;
    TrimFixed(patch.path);
    assert lines[2..] == PrintHunks(patch.hunks) + [END];
    HunksReadBack(patch.hunks, [], None);
    assert [] + patch.hunks == patch.hunks;
  }

  lemma PrintedAreOneLines(patch: Patch)
    requires WellFormed(patch)
    ensures var raw := AddReturns(PrintLines(patch)); forall i | 0 <= i < |raw| :: OneLine(raw[i])
  {
    hide PrintHunks, WellFormedHunk;
    PrintedHunksAreOneLines(patch.hunks);
    var lines := PrintLines(patch);
    assert forall i | 0 <= i < |lines| :: OneLine(lines[i]);
  }

  /** Every well-formed patch is parsed back from its printed form, unchanged. */
  lemma PrintThenParse(patch: Patch)
    requires WellFormed(patch)
    ensures Parse(Print(patch)) == Ok(patch)
  {
    hide ParseLines, PrintLines, WellFormed;
    PrintedAreOneLines(patch);
    SplitOfJoin(AddReturns(PrintLines(patch)), '\n');
    StripUndoesAdd(PrintLines(patch));
    LinesReadBack(patch);
  }

  // ---------- everything parsed is well formed ----------

  predicate WellFormedSoFar(hunks: seq<Hunk>, current: Option<Hunk>) {
    && (forall i | 0 <= i < |hunks| :: WellFormedHunk(hunks[i]))
    && (current.Some? ==>
          && (current.value.title.Some? ==> Bare(current.value.title.value) && OneLine(current.value.title.value))
          && forall i | 0 <= i < |current.value.lines| :: OneLine(current.value.lines[i].text))
  }

  lemma TrimIsSlice(s: string)
    ensures OneLine(s) ==> OneLine(Trim(s))
  {
  }

  lemma ReadKeepsWellFormed(line: string, hunks: seq<Hunk>, current: Option<Hunk>)
    requires OneLine(line) && WellFormedSoFar(hunks, current)
    ensures var r := ReadLine(line, hunks, current); r.Ok? ==> WellFormedSoFar(r.value.0, r.value.1)
  {
    if HasPrefix(line, "@@ ") {
      TrimIsSlice(line[3..]);
    }
  }

  lemma {:induction false} ParsedHunksAreWellFormed(lines: seq<string>, hunks: seq<Hunk>, current: Option<Hunk>)
    requires forall i | 0 <= i < |lines| :: OneLine(lines[i])
    requires WellFormedSoFar(hunks, current)
    ensures var r := ParseBody(lines, hunks, current);
            r.Ok? ==> forall i | 0 <= i < |r.value.0| :: WellFormedHunk(r.value.0[i])
    decreases |lines|
  {
    if lines != [] && lines[0] != END {
      var r := ReadLine(lines[0], hunks, current);
      ReadKeepsWellFormed(lines[0], hunks, current);
      hide ReadLine, WellFormedSoFar, WellFormedHunk;
      if r.Ok? {
        ParsedHunksAreWellFormed(lines[1..], r.value.0, r.value.1);
      }
    }
  }

  /** Whatever the parser accepts is well formed: a hunk, an anchor and a change in each. */
  lemma ParsedIsWellFormed(input: string)
    ensures Parse(input).Ok? ==> WellFormed(Parse(input).value)
  {
    var lines := StripReturns(Split(input, '\n'));
    SplitLinesAreOneLines(input);
    hide OneLine, Trim, Split, StripReturns, ParseBody, WellFormedHunk;
    if |lines| >= 2 && HasPrefix(lines[1], UPDATE) {
      TrimmedPath(lines[1]);
      NothingReadYet();
      ParsedHunksAreWellFormed(lines[2..], [], None);
    }
  }

  lemma SplitLinesAreOneLines(input: string)
    ensures forall i | 0 <= i < |StripReturns(Split(input, '\n'))| :: OneLine(StripReturns(Split(input, '\n'))[i])
  {
    var raw := Split(input, '\n');
    SplitPartsAreFree(input, '\n');
    assert forall i | 0 <= i < |raw| :: OneLine(raw[i]);
  }

  lemma TrimmedPath(line: string)
    requires OneLine(line) && HasPrefix(line, UPDATE)
    ensures OneLine(Trim(line[|UPDATE|..]))
  {
    TrimIsSlice(line[|UPDATE|..]);
  }

  lemma NothingReadYet()
    ensures WellFormedSoFar([], None)
  {
  }

  /** So the parser's range is exactly the well-formed patches. */
  lemma ParseableIff(patch: Patch)
    ensures (exists input :: Parse(input) == Ok(patch)) <==> WellFormed(patch)
  {
    if WellFormed(patch) {
      PrintThenParse(patch);
    }
    forall input | Parse(input) == Ok(patch)
      ensures WellFormed(patch)
    {
      ParsedIsWellFormed(input);
    }
  }
}
