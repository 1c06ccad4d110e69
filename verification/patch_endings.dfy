/**
  The final newline of a patched file, told from the lines the last hunk meets
  and the hunk itself, and patches that lose or gain it.
*/
module PatchEndings {
  import opened Wrappers
  import opened Text
  import opened Sequences
  import opened PatchSyntax
  import opened ApplyPatch

  // ---------- the last line, before the hunk is applied ----------

  /**
    The last text left once the old lines at `at` are replaced: the file's own
    when the hunk ends before it, else the hunk's last new line, else the line
    before the hunk.
  */
  function LastTextAfter(texts: seq<string>, hunk: Hunk, at: nat): Option<string>
    requires at + |OldTexts(hunk.lines)| <= |texts|
  {
    var made := NewTexts(hunk.lines);
    if at + |OldTexts(hunk.lines)| < |texts| then Some(texts[|texts| - 1])
    else if made != [] then Some(made[|made| - 1])
    else if at > 0 then Some(texts[at - 1])
    else None
  }

  function LinesAfter(texts: seq<string>, hunk: Hunk): int {
    |texts| - |OldTexts(hunk.lines)| + |NewTexts(hunk.lines)|
  }

  lemma LastTextIs(lines: seq<FileLine>, hunk: Hunk, default: Ending, at: nat)
    requires OccursOnlyAt(Texts(lines), OldTexts(hunk.lines), at)
    ensures ApplyHunk(lines, hunk, default).Ok?
    ensures
      var out := ApplyHunk(lines, hunk, default).value;
      && |out| == LinesAfter(Texts(lines), hunk)
      && LastTextAfter(Texts(lines), hunk, at) == if out == [] then None else Some(out[|out| - 1].text)
  {
    assert at + |OldTexts(hunk.lines)| <= |Texts(lines)|;
    hide ApplyHunk, OldTexts, NewTexts, Texts, OccursOnlyAt;
    LastFacts(lines, hunk, default, at);
  }

  lemma LastFacts(lines: seq<FileLine>, hunk: Hunk, default: Ending, at: nat)
    requires OccursOnlyAt(Texts(lines), OldTexts(hunk.lines), at)
    ensures ApplyHunk(lines, hunk, default).Ok?
    ensures
      var out, was, made := ApplyHunk(lines, hunk, default).value, |OldTexts(hunk.lines)|, NewTexts(hunk.lines);
      && |out| == |Texts(lines)| - was + |made|
      && (at + was < |Texts(lines)| ==> out != [] && out[|out| - 1].text == Texts(lines)[|Texts(lines)| - 1])
      && (at + was == |Texts(lines)| && made != [] ==> out != [] && out[|out| - 1].text == made[|made| - 1])
      && (at + was == |Texts(lines)| && made == [] && at > 0 ==> out != [] && out[|out| - 1].text == Texts(lines)[at - 1])
      && (out == [] <==> at + was == |Texts(lines)| && made == [] && at == 0)
  {
    hide ApplyHunk, OldTexts, NewTexts, Texts, OccursOnlyAt, Rewrites;
    HunkIsRewrite(lines, hunk, default, at);
    LastOfParts(lines, ApplyHunk(lines, hunk, default).value, at, |OldTexts(hunk.lines)|, NewTexts(hunk.lines));
  }

  /** `out` is `lines` with the `was` lines at `at` replaced by lines with the texts `made`. */
  predicate Rewrites(lines: seq<FileLine>, out: seq<FileLine>, at: nat, was: nat, made: seq<string>) {
    && at + was <= |lines| && |out| == |lines| - was + |made| && out[..at] == lines[..at]
    && Texts(out[at..at + |made|]) == made && out[at + |made|..] == lines[at + was..]
  }

  lemma HunkIsRewrite(lines: seq<FileLine>, hunk: Hunk, default: Ending, at: nat)
    requires OccursOnlyAt(Texts(lines), OldTexts(hunk.lines), at)
    ensures ApplyHunk(lines, hunk, default).Ok?
    ensures Rewrites(lines, ApplyHunk(lines, hunk, default).value, at, |OldTexts(hunk.lines)|, NewTexts(hunk.lines))
  {
    assert at + |OldTexts(hunk.lines)| <= |lines|;
    hide ApplyHunk, OldTexts, NewTexts, OccursAt, OccursOnlyAt;
    HunkRewrites(lines, hunk, default, at);
  }

  lemma LastOfParts(lines: seq<FileLine>, out: seq<FileLine>, at: nat, was: nat, made: seq<string>)
    requires Rewrites(lines, out, at, was, made)
    ensures at + was <= |lines| == |Texts(lines)| && |out| == |lines| - was + |made|
    ensures at + was < |lines| ==> out != [] && out[|out| - 1].text == Texts(lines)[|lines| - 1]
    ensures at + was == |lines| && made != [] ==> out != [] && out[|out| - 1].text == made[|made| - 1]
    ensures at + was == |lines| && made == [] && at > 0 ==> out != [] && out[|out| - 1].text == Texts(lines)[at - 1]
    ensures out == [] <==> at + was == |lines| && made == [] && at == 0
  {
    if at + was < |lines| {
      LastOfSuffix(out, at + |made|, lines, at + was);
    } else if made != [] {
      LastOfTexts(out, at, at + |made|, made);
    } else if at > 0 {
      assert out[..at][at - 1] == lines[..at][at - 1];
    }
  }

  lemma LastOfSuffix(a: seq<FileLine>, i: nat, b: seq<FileLine>, j: nat)
    requires i <= |a| && j < |b| && a[i..] == b[j..]
    ensures |a| > i && a[|a| - 1] == b[|b| - 1]
  {
    assert |a[i..]| == |b[j..]|;
    assert a[i..][|a| - i - 1] == b[j..][|b| - j - 1];
  }

  lemma LastOfTexts(a: seq<FileLine>, i: nat, j: nat, texts: seq<string>)
    requires i <= j == |a| && texts != [] && |texts| == j - i && Texts(a[i..j]) == texts
    ensures a[|a| - 1].text == texts[|texts| - 1]
  {
    assert Texts(a[i..j])[j - i - 1] == a[i..j][j - i - 1].text;
  }

  /**
    Whether the final newline stays as it was, read off the lines the last hunk
    finds and the hunk: for a patch of one hunk, off the file itself.
  */
  lemma FinalNewlineByLastHunk(original: string, patch: Patch, before: seq<FileLine>, at: nat)
    requires WellFormed(patch)
    requires
      var first := SplitFile(WithoutBom(original));
      var last := |patch.hunks| - 1;
      && ApplyHunks(first, patch.hunks[..last], DominantEnding(first)) == Ok(before)
      && OccursOnlyAt(Texts(before), OldTexts(patch.hunks[last].lines), at)
    ensures PatchedFile(original, patch).Ok?
    ensures
      var content, hunk := WithoutBom(original), patch.hunks[|patch.hunks| - 1];
      EndsInNewline(JoinFile(PatchedFile(original, patch).value)) == EndsInNewline(content) <==>
      match LastTextAfter(Texts(before), hunk, at)
      case None => !EndsInNewline(content)
      case Some(text) => EndsInNewline(content) || text != "" || LinesAfter(Texts(before), hunk) == 1
  {
    hide ApplyHunk, SplitFile, DominantEnding, JoinFile, EndsInNewline, Normalize, WellFormedHunk, LastTextAfter,
      LinesAfter, Texts, OldTexts;
    var first := SplitFile(WithoutBom(original));
    var default, n := DominantEnding(first), |patch.hunks| - 1;
    var hunk := patch.hunks[n];
    assert patch.hunks == patch.hunks[..n] + [hunk];
    ApplyHunksInTwo(first, patch.hunks[..n], [hunk], default);
    LastTextIs(before, hunk, default, at);
    assert [hunk][1..] == [];
    var out := ApplyHunk(before, hunk, default).value;
    assert ApplyHunks(out, [], default) == Ok(out);
    PatchedFileKeeps(original, patch);
    SameLast(out, PatchedFile(original, patch).value);
  }

  lemma SameLast(a: seq<FileLine>, b: seq<FileLine>)
    requires Texts(a) == Texts(b)
    ensures |a| == |b| && (a != [] ==> a[|a| - 1].text == b[|b| - 1].text)
  {
    assert a != [] ==> Texts(a)[|a| - 1] == Texts(b)[|a| - 1];
  }

  // ---------- both exceptions happen ----------

  lemma SplitLine(line: string, rest: string)
    requires Free(line, '\n') && (line == "" || line[|line| - 1] != '\r')
    ensures SplitFile(line + "\n" + rest) == [FileLine(line, Lf)] + SplitFile(rest)
  {
    var s, n := line + "\n" + rest, |line|;
    assert s[n] == '\n' && forall j | 0 <= j < n :: s[j] == line[j];
    assert FindChar(s, '\n', 0) == n;
    assert s[..n] == line && s[n + 1..] == rest;
  }

  function DeleteOnly(text: string): Patch {
    Patch("f", [Hunk(None, [Delete(text)])])
  }

  /** Deleting the one last line leaves the lines before it. */
  lemma DeletingTheLast(lines: seq<FileLine>, default: Ending)
    requires lines != []
    requires forall i | 0 <= i < |lines| - 1 :: lines[i].text != lines[|lines| - 1].text
    ensures ApplyHunks(lines, DeleteOnly(lines[|lines| - 1].text).hunks, default) == Ok(lines[..|lines| - 1])
  {
    var n := |lines| - 1;
    var hunk := Hunk(None, [Delete(lines[n].text)]);
    assert [Delete(lines[n].text)][1..] == [];
    assert OldTexts(hunk.lines) == [lines[n].text] && NewTexts(hunk.lines) == [];
    hide OldTexts, NewTexts, ApplyHunk, Texts, Matches;
    OnlyAt(lines, lines[n].text, n);
    HunkRewrites(lines, hunk, default, n);
    var out := ApplyHunk(lines, hunk, default).value;
    assert out == out[..n] == lines[..n];
    assert [hunk][1..] == [];
  }

  /** The one place of a text that no other line has. */
  lemma OnlyAt(lines: seq<FileLine>, text: string, n: nat)
    requires n < |lines| && lines[n].text == text
    requires forall i | 0 <= i < |lines| && i != n :: lines[i].text != text
    ensures OccursOnlyAt(Texts(lines), [text], n)
  {
    var texts, was := Texts(lines), [text];
    forall p: nat | OccursAt(texts, was, p)
      ensures p == n
    {
      assert texts[p..p + 1][0] == texts[p] == lines[p].text;
    }
    assert texts[n..n + 1] == was;
  }

  /** What comes out of a file without byte-order mark, given the lines its hunks keep. */
  lemma ApplyGives(original: string, patch: Patch, kept: seq<FileLine>)
    requires !HasBom(original) && ApplyHunks(SplitFile(original), patch.hunks, DominantEnding(SplitFile(original))) == Ok(kept)
    ensures
      var made := JoinFile(Normalize(kept, DominantEnding(SplitFile(original)), EndsInNewline(original)));
      made != original ==> Apply(original, patch) == Ok(made)
  {
    hide SplitFile, ApplyHunks, DominantEnding, JoinFile, Normalize;
    var made := JoinFile(Normalize(kept, DominantEnding(SplitFile(original)), EndsInNewline(original)));
    assert "" + made == made;
  }

  /** A file that ended in a newline and is left with nothing. */
  lemma EmptiedFileLosesNewline()
    ensures Apply("x\n", DeleteOnly("x")) == Ok("") && EndsInNewline("x\n") && !EndsInNewline("")
  {
    var lines := SplitFile("x\n");
    SplitLine("x", "");
    assert "x" + "\n" + "" == "x\n" && [FileLine("x", Lf)] + SplitFile("") == [FileLine("x", Lf)];
    DeletingTheLast(lines, DominantEnding(lines));
    assert lines[..0] == [];
    hide SplitFile, ApplyHunks, DominantEnding;
    ApplyGives("x\n", DeleteOnly("x"), []);
  }

  /** A file without a final newline whose last line left is empty: it gains one. */
  lemma EmptyLastLineGainsNewline()
    ensures Apply("x\n\ny", DeleteOnly("y")) == Ok("x\n") && !EndsInNewline("x\n\ny") && EndsInNewline("x\n")
  {
    hide SplitFile, ApplyHunks, DominantEnding;
    SplitThree();
    var lines := SplitFile("x\n\ny");
    DeletingTheLast(lines, DominantEnding(lines));
    var kept := [FileLine("x", Lf), FileLine("", Lf)];
    assert lines[..2] == kept;
    ApplyGives("x\n\ny", DeleteOnly("y"), kept);
    EmptyLastIsCut(DominantEnding(lines));
    hide JoinFile, Normalize;
  }

  lemma EmptyLastIsCut(default: Ending)
    ensures JoinFile(Normalize([FileLine("x", Lf), FileLine("", Lf)], default, false)) == "x\n"
  {
    var out := Normalize([FileLine("x", Lf), FileLine("", Lf)], default, false);
    assert out == [FileLine("x", Lf), FileLine("", NoEnd)];
    JoinOfTwo(out[0], out[1]);
  }

  lemma JoinOfTwo(a: FileLine, b: FileLine)
    ensures JoinFile([a, b]) == LineText(a) + LineText(b)
  {
    assert [a, b][1..] == [b] && [b][1..] == [];
    assert JoinFile([b]) == LineText(b) + "" == LineText(b);
  }

  lemma SplitThree()
    ensures SplitFile("x\n\ny") == [FileLine("x", Lf), FileLine("", Lf), FileLine("y", NoEnd)]
  {
    SplitLastLine();
    hide SplitFile;
    SplitLine("", "y");
    assert "" + "\n" + "y" == "\ny";
    SplitLine("x", "\ny");
    assert "x" + "\n" + "\ny" == "x\n\ny";
  }

  lemma SplitLastLine()
    ensures SplitFile("y") == [FileLine("y", NoEnd)]
  {
    assert FindChar("y", '\n', 0) == 1;
  }
}
