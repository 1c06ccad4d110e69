/**
  The in-memory applier of src/apply_patch.rs: file lines with their endings,
  hunks that rewrite the one place their old lines occur, and the final
  normalisation of endings.
*/
module ApplyPatch {
  import opened Wrappers
  import opened Text
  import opened PatchSyntax
  import opened Sequences

  datatype Ending = NoEnd | Lf | CrLf

  datatype FileLine = FileLine(text: string, ending: Ending)

  function EndingText(ending: Ending): string {
    match ending
    case NoEnd => ""
    case Lf => "\n"
    case CrLf => "\r\n"
  }

  // ---------- splitting and joining ----------

  function EndedLine(raw: string): FileLine {
    if raw != "" && raw[|raw| - 1] == '\r' then FileLine(raw[..|raw| - 1], CrLf) else FileLine(raw, Lf)
  }

  function SplitFile(content: string): seq<FileLine> {
    if content == "" then []
    else
      var k := FindChar(content, '\n', 0);
      if k == |content| then [FileLine(content, NoEnd)]
      else [EndedLine(content[..k])] + SplitFile(content[k + 1..])
  }

  function LineText(line: FileLine): string {
    line.text + EndingText(line.ending)
  }

  function JoinFile(lines: seq<FileLine>): string {
    if lines == [] then "" else LineText(lines[0]) + JoinFile(lines[1..])
  }

  lemma EndedLineText(raw: string)
    ensures LineText(EndedLine(raw)) == raw + "\n"
  {
    if raw != "" && raw[|raw| - 1] == '\r' {
      assert raw[..|raw| - 1] + "\r\n" == raw + "\n";
    }
  }

  lemma CutAtNewline(s: string, k: nat)
    requires k < |s| && s[k] == '\n'
    ensures (s[..k] + "\n") + s[k + 1..] == s
  {
  }

  /** No text is lost: splitting and joining is the identity, for every text. */
  lemma {:induction false} JoinOfSplit(content: string)
    ensures JoinFile(SplitFile(content)) == content
    decreases |content|
  {
    var k := FindChar(content, '\n', 0);
    if content != "" && k < |content| {
      hide EndedLine, LineText, FindChar;
      EndedLineText(content[..k]);
      JoinOfSplit(content[k + 1..]);
      CutAtNewline(content, k);
    }
  }

  lemma NewlineAt(s: string, k: nat)
    requires k <= |s| && forall j | 0 <= j < k :: s[j] != '\n'
    requires k < |s| ==> s[k] == '\n'
    ensures FindChar(s, '\n', 0) == k
  {
    hide FindChar;
  }

  lemma SplitFirst(raw: string, rest: string)
    requires OneLine(raw)
    ensures SplitFile(raw + "\n" + rest) == [EndedLine(raw)] + SplitFile(rest)
  {
    var s := raw + "\n" + rest;
    ThreeParts(raw, "\n", rest);
    assert forall j | 0 <= j < |raw| :: s[j] == raw[j];
    NewlineAt(s, |raw|);
    hide EndedLine, FindChar;
  }

  lemma SplitLast(raw: string)
    requires OneLine(raw) && raw != ""
    ensures SplitFile(raw) == [FileLine(raw, NoEnd)]
  {
    NewlineAt(raw, |raw|);
  }

  /** What a list of lines must look like to be what splitting returns. */
  predicate Splittable(lines: seq<FileLine>)
    decreases |lines|
  {
    lines == [] ||
    (&& OneLine(lines[0].text)
     && (lines[0].ending == NoEnd ==> lines[0].text != "" && |lines| == 1)
     && (lines[0].ending == Lf && lines[0].text != "" ==> lines[0].text[|lines[0].text| - 1] != '\r')
     && Splittable(lines[1..]))
  }

  lemma {:induction false} SplitIsSplittable(content: string)
    ensures Splittable(SplitFile(content))
    decreases |content|
  {
    var k := FindChar(content, '\n', 0);
    if k < |content| {
      SplitIsSplittable(content[k + 1..]);
    }
  }

  function RawText(line: FileLine): string {
    if line.ending == CrLf then line.text + "\r" else line.text
  }

  lemma RawIsEnded(line: FileLine)
    requires Splittable([line]) && line.ending != NoEnd
    ensures OneLine(RawText(line)) && EndedLine(RawText(line)) == line
    ensures LineText(line) == RawText(line) + "\n"
  {
  }

  lemma {:induction false} SplitOfJoinFile(lines: seq<FileLine>)
    requires Splittable(lines)
    ensures SplitFile(JoinFile(lines)) == lines
    decreases |lines|
  {
    if lines != [] {
      var line, rest := lines[0], JoinFile(lines[1..]);
      if line.ending == NoEnd {
        assert lines == [line] && JoinFile(lines) == line.text;
        SplitLast(line.text);
      } else {
        RawIsEnded(line);
        hide SplitFile, LineText, RawText, EndedLine, OneLine;
        SplitFirst(RawText(line), rest);
        SplitOfJoinFile(lines[1..]);
      }
    }
  }

  /** Splitting the joined lines gives them back exactly when they are splittable. */
  lemma ResplitIff(lines: seq<FileLine>)
    ensures SplitFile(JoinFile(lines)) == lines <==> Splittable(lines)
  {
    SplitIsSplittable(JoinFile(lines));
    if Splittable(lines) {
      SplitOfJoinFile(lines);
    }
  }

  lemma SplitFrom(content: string, start: nat, index: nat)
    requires start <= index < |content| && content[index] == '\n'
    requires forall j | start <= j < index :: content[j] != '\n'
    ensures SplitFile(content[start..]) == [EndedLine(content[start..index])] + SplitFile(content[index + 1..])
  {
    var raw := content[start..index];
    assert content[start..] == raw + "\n" + content[index + 1..];
    assert forall j | 0 <= j < |raw| :: raw[j] == content[start + j];
    SplitFirst(raw, content[index + 1..]);
  }

  /** `split_file_lines`: one pass over the characters, `start` after the last newline. */
  method SplitLoop(content: string) returns (lines: seq<FileLine>)
    ensures lines == SplitFile(content)
  {
    hide SplitFile, EndedLine;
    lines := [];
    var start := 0;
    assert content[0..] == content && [] + SplitFile(content) == SplitFile(content);
    for index := 0 to |content|
      invariant 0 <= start <= index
      invariant lines + SplitFile(content[start..]) == SplitFile(content)
      invariant forall j | start <= j < index :: content[j] != '\n'
    {
      if content[index] == '\n' {
        SplitFrom(content, start, index);
        var line := EndedLine(content[start..index]);
        Assoc(lines, [line], SplitFile(content[index + 1..]));
        lines := lines + [line];
        start := index + 1;
      }
    }
    if start < |content| {
      assert forall j | 0 <= j < |content| - start :: content[start..][j] == content[start + j];
      SplitLast(content[start..]);
      lines := lines + [FileLine(content[start..], NoEnd)];
    } else {
      assert content[start..] == "";
      SplitNothing();
    }
  }

  lemma SplitNothing()
    ensures SplitFile("") == []
  {
  }

  // ---------- the ending most lines have ----------

  function Count(lines: seq<FileLine>, ending: Ending): nat {
    if lines == [] then 0
    else Count(lines[..|lines| - 1], ending) + if lines[|lines| - 1].ending == ending then 1 else 0
  }

  function DominantEnding(lines: seq<FileLine>): (ending: Ending)
    ensures ending != NoEnd
  {
    if Count(lines, CrLf) > Count(lines, Lf) then CrLf else Lf
  }

  method DominantLoop(lines: seq<FileLine>) returns (ending: Ending)
    ensures ending == DominantEnding(lines)
  {
    var lf, crlf := 0, 0;
    for i := 0 to |lines|
      invariant lf == Count(lines[..i], Lf) && crlf == Count(lines[..i], CrLf)
    {
      assert lines[..i + 1][..i] == lines[..i];
      match lines[i].ending {
        case Lf => lf := lf + 1;
        case CrLf => crlf := crlf + 1;
        case NoEnd =>
      }
    }
    assert lines[..|lines|] == lines;
    ending := if crlf > lf then CrLf else Lf;
  }

  // ---------- one hunk ----------

  function Texts(lines: seq<FileLine>): (texts: seq<string>)
    ensures |texts| == |lines| && forall i | 0 <= i < |lines| :: texts[i] == lines[i].text
  {
    seq(|lines|, i requires 0 <= i < |lines| => lines[i].text)
  }

  function OldTexts(lines: seq<PatchLine>): seq<string> {
    if lines == [] then []
    else (if lines[0].Add? then [] else [lines[0].text]) + OldTexts(lines[1..])
  }

  function NewTexts(lines: seq<PatchLine>): seq<string> {
    if lines == [] then []
    else (if lines[0].Delete? then [] else [lines[0].text]) + NewTexts(lines[1..])
  }

  predicate OccursAt(texts: seq<string>, was: seq<string>, at: nat) {
    at + |was| <= |texts| && texts[at..at + |was|] == was
  }

  /** `sequence_matches`: every place the old lines occur; none for no lines. */
  function Matches(texts: seq<string>, was: seq<string>, from: nat): (found: seq<nat>)
    ensures forall at | at in found :: from <= at && was != [] && OccursAt(texts, was, at)
    ensures forall at | from <= at && was != [] && OccursAt(texts, was, at) :: at in found
    ensures forall i, j | 0 <= i < j < |found| :: found[i] < found[j]
    decreases |texts| - from
  {
    if was == [] || from + |was| > |texts| then []
    else if texts[from..from + |was|] == was then
      var rest := Matches(texts, was, from + 1);
      assert forall at :: at in [from] + rest <==> at == from || at in rest;
      assert forall j | 0 <= j < |rest| :: rest[j] in rest;
      [from] + rest
    else Matches(texts, was, from + 1)
  }

  function FirstEnding(lines: seq<FileLine>, default: Ending): (ending: Ending)
    ensures default != NoEnd ==> ending != NoEnd
  {
    if lines == [] then default
    else if lines[0].ending != NoEnd then lines[0].ending
    else FirstEnding(lines[1..], default)
  }

  /** Context lines are carried over as they stand in the file. */
  function Replacement(body: seq<PatchLine>, was: seq<FileLine>, ending: Ending): (r: seq<FileLine>)
    requires |was| == |OldTexts(body)|
    ensures |r| == |NewTexts(body)|
  {
    if body == [] then []
    else match body[0]
      case Context(_) => [was[0]] + Replacement(body[1..], was[1..], ending)
      case Delete(_) => Replacement(body[1..], was[1..], ending)
      case Add(text) => [FileLine(text, ending)] + Replacement(body[1..], was, ending)
  }

  /** Give the local ending to every line that must have one but has none. */
  function FillEndings(lines: seq<FileLine>, ending: Ending, followed: bool): (r: seq<FileLine>)
    ensures |r| == |lines|
    ensures forall i | 0 <= i < |r| ::
              r[i] == if lines[i].ending == NoEnd && (i < |lines| - 1 || followed)
                      then lines[i].(ending := ending) else lines[i]
  {
    seq(|lines|, i requires 0 <= i < |lines| =>
      if lines[i].ending == NoEnd && (i < |lines| - 1 || followed) then lines[i].(ending := ending) else lines[i])
  }

  function ApplyHunk(lines: seq<FileLine>, hunk: Hunk, default: Ending): Result<seq<FileLine>, string> {
    var was := OldTexts(hunk.lines);
    var found := Matches(Texts(lines), was, 0);
    if |found| == 0 then Err("hunk did not match")
    else if |found| > 1 then Err("hunk is ambiguous")
    else
      var at := found[0];
      assert at in found;
      Ok(lines[..at] + Patched(lines, hunk, default, at) + lines[at + |was|..])
  }

  /** The old lines occur at `at` and nowhere else. */
  ghost predicate OccursOnlyAt(texts: seq<string>, was: seq<string>, at: nat) {
    && was != [] && OccursAt(texts, was, at)
    && forall p: nat | OccursAt(texts, was, p) :: p == at
  }

  lemma OneMatchIff(texts: seq<string>, was: seq<string>, at: nat)
    ensures Matches(texts, was, 0) == [at] <==> OccursOnlyAt(texts, was, at)
  {
    var found := Matches(texts, was, 0);
    if found == [at] {
      assert at in found;
      forall p: nat | OccursAt(texts, was, p) && was != []
        ensures p == at
      {
        assert p in found;
      }
    }
    if OccursOnlyAt(texts, was, at) {
      assert at in found;
      forall i | 0 <= i < |found|
        ensures found[i] == at
      {
        assert found[i] in found;
      }
      assert found[0] == at && found[|found| - 1] == at;
    }
  }

  lemma TextsOfTail(lines: seq<FileLine>)
    requires lines != []
    ensures Texts(lines) == [lines[0].text] + Texts(lines[1..])
  {
  }

  lemma {:induction false} ReplacementTexts(body: seq<PatchLine>, was: seq<FileLine>, ending: Ending)
    requires Texts(was) == OldTexts(body)
    ensures Texts(Replacement(body, was, ending)) == NewTexts(body)
  {
    if body != [] {
      hide Texts;
      var made := Replacement(body, was, ending);
      if !body[0].Add? {
        TextsOfTail(was);
        assert OldTexts(body)[1..] == OldTexts(body[1..]);
        assert Texts(was)[1..] == Texts(was[1..]);
        ReplacementTexts(body[1..], was[1..], ending);
        if body[0].Context? {
          assert made[1..] == Replacement(body[1..], was[1..], ending);
          TextsOfTail(made);
        }
      } else {
        ReplacementTexts(body[1..], was, ending);
        assert made[1..] == Replacement(body[1..], was, ending);
        TextsOfTail(made);
      }
    }
  }

  lemma TextsOfPrefix(body: seq<PatchLine>, i: nat)
    requires 0 < i <= |body|
    ensures |OldTexts(body)| == |OldTexts(body[1..])| + (if body[0].Add? then 0 else 1)
    ensures |NewTexts(body)| == |NewTexts(body[1..])| + (if body[0].Delete? then 0 else 1)
    ensures |OldTexts(body[..i])| == |OldTexts(body[1..][..i - 1])| + (if body[0].Add? then 0 else 1)
    ensures |NewTexts(body[..i])| == |NewTexts(body[1..][..i - 1])| + (if body[0].Delete? then 0 else 1)
  {
    assert body[..i][1..] == body[1..][..i - 1];
  }

  /**
    Inside the rewritten place a context line is the file's own line, ending
    included, and an added line takes the local ending.
  */
  lemma {:induction false} ReplacementAt(body: seq<PatchLine>, was: seq<FileLine>, ending: Ending, i: nat)
    requires |was| == |OldTexts(body)| && i < |body| && !body[i].Delete?
    ensures |OldTexts(body[..i])| <= |was| && |NewTexts(body[..i])| < |Replacement(body, was, ending)|
    ensures body[i].Context? ==> |OldTexts(body[..i])| < |was|
    ensures Replacement(body, was, ending)[|NewTexts(body[..i])|] ==
            if body[i].Context? then was[|OldTexts(body[..i])|] else FileLine(body[i].text, ending)
  {
    if i > 0 {
      TextsOfPrefix(body, i);
      hide OldTexts, NewTexts;
      ReplacementAt(body[1..], if body[0].Add? then was else was[1..], ending, i - 1);
    }
  }

  lemma TextsOfSlice(lines: seq<FileLine>, a: nat, b: nat)
    requires a <= b <= |lines|
    ensures Texts(lines[a..b]) == Texts(lines)[a..b]
  {
  }

  /** The lines a hunk accepted at `at` puts in place of the old ones. */
  function Patched(lines: seq<FileLine>, hunk: Hunk, default: Ending, at: nat): (made: seq<FileLine>)
    requires OccursAt(Texts(lines), OldTexts(hunk.lines), at)
    ensures |made| == |NewTexts(hunk.lines)|
  {
    var end := at + |OldTexts(hunk.lines)|;
    var ending := FirstEnding(lines[at..end], default);
    FillEndings(Replacement(hunk.lines, lines[at..end], ending), ending, end < |lines|)
  }

  lemma PatchedTexts(lines: seq<FileLine>, hunk: Hunk, default: Ending, at: nat)
    requires OccursAt(Texts(lines), OldTexts(hunk.lines), at)
    ensures Texts(Patched(lines, hunk, default, at)) == NewTexts(hunk.lines)
  {
    var end := at + |OldTexts(hunk.lines)|;
    var ending := FirstEnding(lines[at..end], default);
    hide OldTexts, NewTexts, Replacement, FirstEnding;
    TextsOfSlice(lines, at, end);
    ReplacementTexts(hunk.lines, lines[at..end], ending);
  }

  /**
    A hunk is accepted exactly when its old lines occur at one place, and then
    it rewrites that place: the lines before and after keep text and ending,
    and in between stand the new texts.
  */
  lemma HunkRewrites(lines: seq<FileLine>, hunk: Hunk, default: Ending, at: nat)
    requires OccursOnlyAt(Texts(lines), OldTexts(hunk.lines), at)
    ensures ApplyHunk(lines, hunk, default).Ok?
    ensures
      var out, end := ApplyHunk(lines, hunk, default).value, at + |NewTexts(hunk.lines)|;
      && |out| == |lines| - |OldTexts(hunk.lines)| + |NewTexts(hunk.lines)|
      && out[..at] == lines[..at]
      && Texts(out[at..end]) == NewTexts(hunk.lines)
      && out[end..] == lines[at + |OldTexts(hunk.lines)|..]
  {
    OneMatchIff(Texts(lines), OldTexts(hunk.lines), at);
    PatchedTexts(lines, hunk, default, at);
    hide OldTexts, NewTexts, Replacement, FirstEnding, Texts, Matches;
    var made := Patched(lines, hunk, default, at);
    ThreeParts(lines[..at], made, lines[at + |OldTexts(hunk.lines)|..]);
  }

  lemma AcceptedOccursOnce(lines: seq<FileLine>, hunk: Hunk, default: Ending) returns (at: nat)
    requires ApplyHunk(lines, hunk, default).Ok?
    ensures OccursOnlyAt(Texts(lines), OldTexts(hunk.lines), at)
  {
    var found := Matches(Texts(lines), OldTexts(hunk.lines), 0);
    at := found[0];
    assert found == [at];
    OneMatchIff(Texts(lines), OldTexts(hunk.lines), at);
  }

  // ---------- undoing a patch ----------

  function InvertLine(line: PatchLine): PatchLine {
    match line
    case Context(text) => Context(text)
    case Delete(text) => Add(text)
    case Add(text) => Delete(text)
  }

  function InvertBody(lines: seq<PatchLine>): seq<PatchLine> {
    if lines == [] then [] else [InvertLine(lines[0])] + InvertBody(lines[1..])
  }

  function InvertHunk(hunk: Hunk): Hunk {
    hunk.(lines := InvertBody(hunk.lines))
  }

  function InvertHunks(hunks: seq<Hunk>): seq<Hunk> {
    if hunks == [] then [] else InvertHunks(hunks[1..]) + [InvertHunk(hunks[0])]
  }

  lemma {:induction false} InvertSwapsTexts(lines: seq<PatchLine>)
    ensures OldTexts(InvertBody(lines)) == NewTexts(lines)
    ensures NewTexts(InvertBody(lines)) == OldTexts(lines)
  {
    if lines != [] {
      InvertSwapsTexts(lines[1..]);
      assert InvertBody(lines)[1..] == InvertBody(lines[1..]);
    }
  }

  lemma TextsSplit(lines: seq<FileLine>, a: nat, b: nat)
    requires a <= b <= |lines|
    ensures Texts(lines) == Texts(lines[..a]) + Texts(lines[a..b]) + Texts(lines[b..])
  {
  }

  /** What an accepted hunk does to the texts alone. */
  lemma HunkOnTexts(lines: seq<FileLine>, hunk: Hunk, default: Ending) returns (before: seq<string>, after: seq<string>)
    requires ApplyHunk(lines, hunk, default).Ok?
    ensures Texts(lines) == before + OldTexts(hunk.lines) + after
    ensures Texts(ApplyHunk(lines, hunk, default).value) == before + NewTexts(hunk.lines) + after
    ensures OccursOnlyAt(Texts(lines), OldTexts(hunk.lines), |before|)
  {
    hide ApplyHunk, OldTexts, NewTexts, Texts;
    var was, made := OldTexts(hunk.lines), NewTexts(hunk.lines);
    var at := AcceptedOccursOnce(lines, hunk, default);
    HunkRewrites(lines, hunk, default, at);
    var out := ApplyHunk(lines, hunk, default).value;
    before, after := Texts(lines[..at]), Texts(lines[at + |was|..]);
    TextsSplit(lines, at, at + |was|);
    TextsSplit(out, at, at + |made|);
    TextsOfSlice(lines, at, at + |was|);
  }

  /** An accepted hunk is undone by its inverse, whenever that is accepted. */
  lemma UndoHunk(lines: seq<FileLine>, out: seq<FileLine>, hunk: Hunk, default: Ending, default': Ending)
    requires ApplyHunk(lines, hunk, default).Ok?
    requires Texts(out) == Texts(ApplyHunk(lines, hunk, default).value)
    requires ApplyHunk(out, InvertHunk(hunk), default').Ok?
    ensures Texts(ApplyHunk(out, InvertHunk(hunk), default').value) == Texts(lines)
  {
    hide ApplyHunk, OldTexts, NewTexts, InvertBody;
    InvertSwapsTexts(hunk.lines);
    var before, after := HunkOnTexts(lines, hunk, default);
    var before', after' := HunkOnTexts(out, InvertHunk(hunk), default');
    var made := NewTexts(hunk.lines);
    assert Texts(out)[|before|..|before| + |made|] == made;
    assert OccursAt(Texts(out), made, |before|);
    assert before' == Texts(out)[..|before|] == before;
    assert after' == Texts(out)[|before| + |made|..] == after;
  }

  function ApplyHunks(lines: seq<FileLine>, hunks: seq<Hunk>, default: Ending): Result<seq<FileLine>, string>
    decreases |hunks|
  {
    if hunks == [] then Ok(lines)
    else match ApplyHunk(lines, hunks[0], default)
      case Err(e) => Err(e)
      case Ok(next) => ApplyHunks(next, hunks[1..], default)
  }

  lemma {:induction false} ApplyHunksInTwo(lines: seq<FileLine>, a: seq<Hunk>, b: seq<Hunk>, default: Ending)
    ensures ApplyHunks(lines, a + b, default) ==
            match ApplyHunks(lines, a, default)
            case Err(e) => Err(e)
            case Ok(middle) => ApplyHunks(middle, b, default)
    decreases |a|
  {
    hide ApplyHunk;
    if a == [] {
      assert a + b == b;
    } else {
      assert (a + b)[1..] == a[1..] + b;
      if ApplyHunk(lines, a[0], default).Ok? {
        ApplyHunksInTwo(ApplyHunk(lines, a[0], default).value, a[1..], b, default);
      }
    }
  }

  /**
    Any number of hunks: applying the inverted hunks in reverse order restores
    every original line text, whenever they are all accepted, whatever happened
    to the endings in between.
  */
  lemma {:induction false} UndoHunks(lines: seq<FileLine>, out: seq<FileLine>, hunks: seq<Hunk>, default: Ending, default': Ending)
    requires ApplyHunks(lines, hunks, default).Ok?
    requires Texts(out) == Texts(ApplyHunks(lines, hunks, default).value)
    requires ApplyHunks(out, InvertHunks(hunks), default').Ok?
    ensures Texts(ApplyHunks(out, InvertHunks(hunks), default').value) == Texts(lines)
    decreases |hunks|
  {
    hide ApplyHunk, InvertHunk;
    if hunks != [] {
      var next := ApplyHunk(lines, hunks[0], default).value;
      var rest, last := InvertHunks(hunks[1..]), InvertHunk(hunks[0]);
      ApplyHunksInTwo(out, rest, [last], default');
      UndoHunks(next, out, hunks[1..], default, default');
      var middle := ApplyHunks(out, rest, default').value;
      assert [last][1..] == [];
      UndoHunk(lines, middle, hunks[0], default, default');
    }
  }

  // ---------- the loops of one hunk ----------

  method MatchLoop(texts: seq<string>, was: seq<string>) returns (found: seq<nat>)
    ensures found == Matches(texts, was, 0)
  {
    found := [];
    if was == [] || |was| > |texts| {
      return;
    }
    for at := 0 to |texts| - |was| + 1
      invariant found + Matches(texts, was, at) == Matches(texts, was, 0)
    {
      Assoc(found, [at], Matches(texts, was, at + 1));
      if texts[at..at + |was|] == was {
        found := found + [at];
      }
    }
  }

  /** Walk the hunk with a cursor into the lines it replaces. */
  method ReplacementLoop(body: seq<PatchLine>, was: seq<FileLine>, ending: Ending) returns (made: seq<FileLine>)
    requires |was| == |OldTexts(body)|
    ensures made == Replacement(body, was, ending)
  {
    var cursor := 0;
    made := [];
    assert body[0..] == body && was[0..] == was;
    for i := 0 to |body|
      invariant cursor <= |was| && |was| - cursor == |OldTexts(body[i..])|
      invariant made + Replacement(body[i..], was[cursor..], ending) == Replacement(body, was, ending)
    {
      assert body[i..][1..] == body[i + 1..];
      ghost var before, rest := made, Replacement(body[i + 1..], if body[i].Add? then was[cursor..] else was[cursor + 1..], ending);
      match body[i] {
        case Context(_) =>
          assert was[cursor..][1..] == was[cursor + 1..];
          made, cursor := made + [was[cursor]], cursor + 1;
          Assoc(before, [was[cursor - 1]], rest);
        case Delete(_) =>
          assert was[cursor..][1..] == was[cursor + 1..];
          cursor := cursor + 1;
        case Add(text) =>
          made := made + [FileLine(text, ending)];
          Assoc(before, [FileLine(text, ending)], rest);
      }
    }
    assert body[|body|..] == [] && was[cursor..] == [];
  }

  /** `apply_hunk`: find the one place, build the replacement, fill it and splice. */
  method HunkLoop(lines: seq<FileLine>, hunk: Hunk, default: Ending) returns (r: Result<seq<FileLine>, string>)
    ensures r == ApplyHunk(lines, hunk, default)
  {
    hide Texts, OldTexts, Replacement, FirstEnding;
    var was := OldTexts(hunk.lines);
    var found := MatchLoop(Texts(lines), was);
    if |found| == 0 {
      return Err("hunk did not match");
    }
    if |found| > 1 {
      return Err("hunk is ambiguous");
    }
    var at := found[0];
    assert at in found;
    var end := at + |was|;
    var ending := FirstEnding(lines[at..end], default);
    var made := ReplacementLoop(hunk.lines, lines[at..end], ending);
    made := FillLoop(made, ending, end < |lines|);
    r := Ok(lines[..at] + made + lines[end..]);
  }

  method FillLoop(lines: seq<FileLine>, ending: Ending, followed: bool) returns (r: seq<FileLine>)
    ensures r == FillEndings(lines, ending, followed)
  {
    r := lines;
    for i := 0 to |lines|
      invariant |r| == |lines|
      invariant forall j | 0 <= j < i :: r[j] == FillEndings(lines, ending, followed)[j]
      invariant forall j | i <= j < |lines| :: r[j] == lines[j]
    {
      if r[i].ending == NoEnd && (i < |lines| - 1 || followed) {
        r := r[i := r[i].(ending := ending)];
      }
    }
  }

  // ---------- a whole patch ----------

  const BOM := '\U{FEFF}'

  predicate HasBom(s: string) {
    s != "" && s[0] == BOM
  }

  function WithoutBom(s: string): string {
    if HasBom(s) then s[1..] else s
  }

  predicate EndsInNewline(s: string) {
    s != "" && s[|s| - 1] == '\n'
  }

  /** Only the last line may lack an ending, and does unless the file had one. */
  function Normalize(lines: seq<FileLine>, default: Ending, hadFinal: bool): (r: seq<FileLine>)
    ensures |r| == |lines| && Texts(r) == Texts(lines)
    ensures forall i | 0 <= i < |lines| ::
              r[i].ending == if i == |lines| - 1 && !hadFinal then NoEnd
                             else if lines[i].ending == NoEnd then default else lines[i].ending
  {
    seq(|lines|, i requires 0 <= i < |lines| =>
      FileLine(lines[i].text,
               if i == |lines| - 1 && !hadFinal then NoEnd
               else if lines[i].ending == NoEnd then default else lines[i].ending))
  }

  /** The lines a patch leaves, endings settled. */
  function PatchedFile(original: string, patch: Patch): Result<seq<FileLine>, string> {
    var content := WithoutBom(original);
    var lines := SplitFile(content);
    match ApplyHunks(lines, patch.hunks, DominantEnding(lines))
    case Err(e) => Err(e)
    case Ok(out) => Ok(Normalize(out, DominantEnding(lines), EndsInNewline(content)))
  }

  function Rendered(original: string, lines: seq<FileLine>): string {
    (if HasBom(original) then [BOM] else "") + JoinFile(lines)
  }

  function Apply(original: string, patch: Patch): Result<string, string> {
    match PatchedFile(original, patch)
    case Err(e) => Err(e)
    case Ok(lines) =>
      if Rendered(original, lines) == original then Err("patch would not change the file")
      else Ok(Rendered(original, lines))
  }

  /** `apply`: split, run the hunks one by one, settle the endings, write out. */
  method ApplyLoop(original: string, patch: Patch) returns (r: Result<string, string>)
    ensures r == Apply(original, patch)
  {
    hide ApplyHunk, SplitFile, DominantEnding, JoinFile, LineText;
    var content := WithoutBom(original);
    var lines := SplitLoop(content);
    var default := DominantLoop(lines);
    ghost var start := lines;
    for i := 0 to |patch.hunks|
      invariant ApplyHunks(start, patch.hunks, default) == ApplyHunks(lines, patch.hunks[i..], default)
    {
      assert patch.hunks[i..][1..] == patch.hunks[i + 1..];
      var next := HunkLoop(lines, patch.hunks[i], default);
      if next.Err? {
        return Err(next.error);
      }
      lines := next.value;
    }
    assert patch.hunks[|patch.hunks|..] == [];
    lines := NormalizeLoop(lines, default, EndsInNewline(content));
    var output := if HasBom(original) then [BOM] else "";
    ghost var head := output;
    for i := 0 to |lines|
      invariant output + JoinFile(lines[i..]) == head + JoinFile(lines)
    {
      JoinFirst(lines[i..]);
      assert lines[i..][1..] == lines[i + 1..];
      Assoc(output, LineText(lines[i]), JoinFile(lines[i + 1..]));
      output := output + LineText(lines[i]);
    }
    JoinNothing(lines[|lines|..]);
    assert output + "" == output;
    r := if output == original then Err("patch would not change the file") else Ok(output);
  }

  lemma JoinFirst(lines: seq<FileLine>)
    requires lines != []
    ensures JoinFile(lines) == LineText(lines[0]) + JoinFile(lines[1..])
  {
  }

  lemma JoinNothing(lines: seq<FileLine>)
    requires lines == []
    ensures JoinFile(lines) == ""
  {
  }

  /** `normalize_line_endings`: one pass that rewrites endings in place. */
  method NormalizeLoop(lines: seq<FileLine>, default: Ending, hadFinal: bool) returns (r: seq<FileLine>)
    ensures r == Normalize(lines, default, hadFinal)
  {
    r := lines;
    for i := 0 to |lines|
      invariant |r| == |lines|
      invariant forall j | 0 <= j < i :: r[j] == Normalize(lines, default, hadFinal)[j]
      invariant forall j | i <= j < |lines| :: r[j] == lines[j]
    {
      var last := i == |lines| - 1;
      if !last && r[i].ending == NoEnd {
        r := r[i := r[i].(ending := default)];
      }
      if last {
        r := r[i := r[i].(ending := if !hadFinal then NoEnd else if r[i].ending == NoEnd then default else r[i].ending)];
      }
      assert r[i].text == Texts(lines)[i] && Texts(Normalize(lines, default, hadFinal))[i] == r[i].text;
    }
  }

  // ---------- what a whole patch keeps ----------

  /** Re-reading the output finds the lines that were written. */
  predicate ReadsBackAs(original: string, lines: seq<FileLine>) {
    Splittable(lines) && (HasBom(original) || !HasBom(JoinFile(lines)))
  }

  function Inverse(patch: Patch): Patch {
    patch.(hunks := InvertHunks(patch.hunks))
  }

  /**
    Undo, on files: patch, write, read again, apply the inverse. Whenever both
    are accepted and the written lines read back as themselves, every original
    line text is restored, and so is the byte-order mark.
  */
  lemma UndoPatch(original: string, patch: Patch)
    requires Apply(original, patch).Ok?
    requires ReadsBackAs(original, PatchedFile(original, patch).value)
    requires PatchedFile(Apply(original, patch).value, Inverse(patch)).Ok?
    ensures
      var output := Apply(original, patch).value;
      && HasBom(output) == HasBom(original)
      && Texts(PatchedFile(output, Inverse(patch)).value) == Texts(SplitFile(WithoutBom(original)))
  {
    hide ApplyHunks, InvertHunks, Normalize, SplitFile, DominantEnding, Splittable, JoinFile, EndsInNewline, Texts;
    var lines := PatchedFile(original, patch).value;
    var output := Apply(original, patch).value;
    assert HasBom(output) == HasBom(original) && WithoutBom(output) == JoinFile(lines);
    SplitOfJoinFile(lines);
    var first := SplitFile(WithoutBom(original));
    UndoHunks(first, lines, patch.hunks, DominantEnding(first), DominantEnding(lines));
  }

  lemma {:induction false} JoinEndsInNewlineIff(lines: seq<FileLine>)
    requires forall i | 0 <= i < |lines| :: OneLine(lines[i].text)
    requires forall i | 0 <= i < |lines| - 1 :: lines[i].ending != NoEnd
    ensures EndsInNewline(JoinFile(lines)) <==>
            lines != [] && (lines[|lines| - 1].ending != NoEnd || (lines[|lines| - 1].text == "" && |lines| > 1))
    decreases |lines|
  {
    if |lines| == 1 {
      var t := LineText(lines[0]);
      assert JoinFile(lines) == t + "" == t;
      assert OneLine(lines[0].text);
      assert lines[0].ending != NoEnd ==> t[|t| - 1] == '\n';
    } else if |lines| > 1 {
      var t, rest := LineText(lines[0]), JoinFile(lines[1..]);
      JoinEndsInNewlineIff(lines[1..]);
      assert lines[0].ending != NoEnd && t[|t| - 1] == '\n';
      assert rest != "" ==> (t + rest)[|t + rest| - 1] == rest[|rest| - 1];
      JoinIsEmptyIff(lines[1..]);
    }
  }

  lemma {:induction false} JoinIsEmptyIff(lines: seq<FileLine>)
    requires lines != [] && forall i | 0 <= i < |lines| - 1 :: lines[i].ending != NoEnd
    ensures JoinFile(lines) == "" <==> |lines| == 1 && lines[0] == FileLine("", NoEnd)
  {
    var rest := JoinFile(lines[1..]);
    assert |LineText(lines[0])| + |rest| == |JoinFile(lines)|;
    assert |lines| > 1 ==> lines[0].ending != NoEnd;
  }

  /**
    Endings after any hunks and normalisation: only the last line can lack one,
    and the file ends in a newline as before except in two cases a caller can
    see: nothing is left of a file that had one, or an empty last line is left
    of a file that had none.
  */
  lemma FinalNewlineKeptIff(out: seq<FileLine>, default: Ending, hadFinal: bool)
    requires default != NoEnd && forall i | 0 <= i < |out| :: OneLine(out[i].text)
    ensures
      var lines := Normalize(out, default, hadFinal);
      && (forall i | 0 <= i < |lines| - 1 :: lines[i].ending != NoEnd)
      && (EndsInNewline(JoinFile(lines)) == hadFinal <==>
            if out == [] then !hadFinal else hadFinal || out[|out| - 1].text != "" || |out| == 1)
  {
    hide JoinFile, OneLine, EndsInNewline;
    var lines := Normalize(out, default, hadFinal);
    assert forall i | 0 <= i < |lines| :: lines[i].text == Texts(lines)[i] == Texts(out)[i] == out[i].text;
    JoinEndsInNewlineIff(lines);
    if lines == [] {
      JoinNothing(lines);
    }
  }

  predicate AllOneLine(texts: seq<string>) {
    forall i | 0 <= i < |texts| :: OneLine(texts[i])
  }

  lemma {:induction false} NewTextsAreOneLines(lines: seq<PatchLine>)
    requires forall i | 0 <= i < |lines| :: OneLine(lines[i].text)
    ensures AllOneLine(NewTexts(lines))
  {
    if lines != [] {
      NewTextsAreOneLines(lines[1..]);
    }
  }

  lemma {:induction false} HunksKeepOneLines(lines: seq<FileLine>, hunks: seq<Hunk>, default: Ending)
    requires AllOneLine(Texts(lines)) && forall i | 0 <= i < |hunks| :: WellFormedHunk(hunks[i])
    requires ApplyHunks(lines, hunks, default).Ok?
    ensures AllOneLine(Texts(ApplyHunks(lines, hunks, default).value))
    decreases |hunks|
  {
    if hunks != [] {
      hide ApplyHunk, OneLine, Texts;
      var before, after := HunkOnTexts(lines, hunks[0], default);
      assert WellFormedHunk(hunks[0]);
      NewTextsAreOneLines(hunks[0].lines);
      SurroundingsAreOneLines(before, OldTexts(hunks[0].lines), NewTexts(hunks[0].lines), after);
      HunksKeepOneLines(ApplyHunk(lines, hunks[0], default).value, hunks[1..], default);
    }
  }

  lemma SurroundingsAreOneLines(before: seq<string>, was: seq<string>, made: seq<string>, after: seq<string>)
    requires AllOneLine(before + was + after) && AllOneLine(made)
    ensures AllOneLine(before + made + after)
  {
    hide OneLine;
    ThreeParts(before, was, after);
    var s := before + was + after;
    assert AllOneLine(s[..|before|]) && AllOneLine(s[|before| + |was|..]);
  }

  lemma SplitTextsAreOneLines(content: string)
    ensures AllOneLine(Texts(SplitFile(content)))
  {
    SplitIsSplittable(content);
    SplittableIsOneLines(SplitFile(content));
  }

  lemma {:induction false} SplittableIsOneLines(lines: seq<FileLine>)
    requires Splittable(lines)
    ensures AllOneLine(Texts(lines))
  {
    if lines != [] {
      hide Texts, OneLine;
      SplittableIsOneLines(lines[1..]);
      TextsOfTail(lines);
    }
  }

  /** For every patch the parser can return, whatever the file. */
  lemma PatchedFileKeeps(original: string, patch: Patch)
    requires WellFormed(patch) && PatchedFile(original, patch).Ok?
    ensures
      var lines, content := PatchedFile(original, patch).value, WithoutBom(original);
      && (HasBom(original) ==> HasBom(Rendered(original, lines)))
      && (forall i | 0 <= i < |lines| - 1 :: lines[i].ending != NoEnd)
      && (EndsInNewline(JoinFile(lines)) == EndsInNewline(content) <==>
            if lines == [] then !EndsInNewline(content)
            else EndsInNewline(content) || lines[|lines| - 1].text != "" || |lines| == 1)
  {
    hide ApplyHunks, SplitFile, DominantEnding, JoinFile, EndsInNewline, Normalize;
    var first := SplitFile(WithoutBom(original));
    var default := DominantEnding(first);
    SplitTextsAreOneLines(WithoutBom(original));
    HunksKeepOneLines(first, patch.hunks, default);
    var out := ApplyHunks(first, patch.hunks, default).value;
    assert forall i | 0 <= i < |out| :: OneLine(Texts(out)[i]);
    var lines := PatchedFile(original, patch).value;
    assert |out| > 0 ==> Texts(lines)[|out| - 1] == Texts(out)[|out| - 1];
    FinalNewlineKeptIff(out, default, EndsInNewline(WithoutBom(original)));
  }
}
