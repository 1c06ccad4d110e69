/**
  Undoing a whole patch on the written file: exactly when every original line
  comes back, and two accepted patches after which one does not.
*/
module PatchUndo {
  import opened Wrappers
  import opened Text
  import opened Sequences
  import opened PatchSyntax
  import opened ApplyPatch
  import opened PatchEndings
  import opened PatchLines

  // ---------- a measure that hunks move by a fixed amount ----------

  /** Characters, and one for every line. */
  function Weight(texts: seq<string>): nat {
    if texts == [] then 0 else |texts[0]| + 1 + Weight(texts[1..])
  }

  lemma {:induction false} WeightOfBoth(a: seq<string>, b: seq<string>)
    ensures Weight(a + b) == Weight(a) + Weight(b)
  {
    if a == [] {
      assert a + b == b;
    } else {
      assert (a + b)[1..] == a[1..] + b;
      WeightOfBoth(a[1..], b);
    }
  }

  function Growth(hunk: Hunk): int {
    Weight(NewTexts(hunk.lines)) - Weight(OldTexts(hunk.lines))
  }

  function GrowthOfAll(hunks: seq<Hunk>): int {
    if hunks == [] then 0 else Growth(hunks[0]) + GrowthOfAll(hunks[1..])
  }

  lemma HunkWeight(lines: seq<FileLine>, hunk: Hunk, default: Ending)
    requires ApplyHunk(lines, hunk, default).Ok?
    ensures Weight(Texts(ApplyHunk(lines, hunk, default).value)) == Weight(Texts(lines)) + Growth(hunk)
  {
    hide ApplyHunk, OldTexts, NewTexts, Texts, OccursOnlyAt;
    var was, made := OldTexts(hunk.lines), NewTexts(hunk.lines);
    var before, after := HunkOnTexts(lines, hunk, default);
    WeightOfBoth(before + was, after);
    WeightOfBoth(before, was);
    WeightOfBoth(before + made, after);
    WeightOfBoth(before, made);
  }

  lemma {:induction false} HunksWeight(lines: seq<FileLine>, hunks: seq<Hunk>, default: Ending)
    requires ApplyHunks(lines, hunks, default).Ok?
    ensures Weight(Texts(ApplyHunks(lines, hunks, default).value)) == Weight(Texts(lines)) + GrowthOfAll(hunks)
    decreases |hunks|
  {
    hide ApplyHunk, Growth, Texts, Weight;
    if hunks != [] {
      HunkWeight(lines, hunks[0], default);
      HunksWeight(ApplyHunk(lines, hunks[0], default).value, hunks[1..], default);
    }
  }

  lemma {:induction false} GrowthOfBoth(a: seq<Hunk>, b: seq<Hunk>)
    ensures GrowthOfAll(a + b) == GrowthOfAll(a) + GrowthOfAll(b)
  {
    hide Growth;
    if a == [] {
      assert a + b == b;
    } else {
      assert (a + b)[1..] == a[1..] + b;
      GrowthOfBoth(a[1..], b);
    }
  }

  lemma {:induction false} InverseGrowth(hunks: seq<Hunk>)
    ensures GrowthOfAll(InvertHunks(hunks)) == -GrowthOfAll(hunks)
  {
    hide OldTexts, NewTexts, InvertBody, Weight;
    if hunks != [] {
      var last := [InvertHunk(hunks[0])];
      InverseGrowth(hunks[1..]);
      GrowthOfBoth(InvertHunks(hunks[1..]), last);
      InvertSwapsTexts(hunks[0].lines);
      assert last[1..] == [];
    }
  }

  // ---------- writing and reading again ----------

  /** The lines normalisation leaves: no newline inside, and only the last may lack an ending. */
  predicate Written(lines: seq<FileLine>) {
    (forall i | 0 <= i < |lines| :: OneLine(lines[i].text)) && forall i | 0 <= i < |lines| - 1 :: lines[i].ending != NoEnd
  }

  lemma EndedWeight(line: FileLine)
    requires OneLine(line.text) && line.ending != NoEnd
    ensures OneLine(RawText(line)) && LineText(line) == RawText(line) + "\n"
    ensures |EndedLine(RawText(line)).text| <= |line.text|
    ensures |EndedLine(RawText(line)).text| == |line.text| <==> Splittable([line])
  {
  }

  lemma WeightOfFirst(lines: seq<FileLine>)
    requires lines != []
    ensures Weight(Texts(lines)) == |lines[0].text| + 1 + Weight(Texts(lines[1..]))
  {
    TextsOfTail(lines);
    assert Texts(lines)[0] == lines[0].text && Texts(lines)[1..] == Texts(lines[1..]);
  }

  lemma SplittableFirst(lines: seq<FileLine>)
    requires lines != [] && OneLine(lines[0].text) && lines[0].ending != NoEnd
    ensures Splittable(lines) <==> Splittable([lines[0]]) && Splittable(lines[1..])
  {
    hide OneLine;
  }

  /** Reading what was written never finds more, and finds as much exactly when nothing is misread. */
  lemma {:induction false} ResplitWeight(lines: seq<FileLine>)
    requires Written(lines)
    ensures Weight(Texts(SplitFile(JoinFile(lines)))) <= Weight(Texts(lines))
    ensures Weight(Texts(SplitFile(JoinFile(lines)))) == Weight(Texts(lines)) <==> Splittable(lines)
    decreases |lines|
  {
    if lines == [] {
    } else if lines[0].ending == NoEnd {
      LastLineWeight(lines[0]);
      assert lines == [lines[0]];
    } else {
      hide Weight, SplitFile, Texts, OneLine, JoinFile, Splittable;
      ResplitWeight(lines[1..]);
      WeightOfFirst(lines);
      SplittableFirst(lines);
      EndedWeight(lines[0]);
      ReadFirst(lines);
    }
  }

  lemma ReadFirst(lines: seq<FileLine>)
    requires lines != [] && OneLine(lines[0].text) && lines[0].ending != NoEnd
    ensures Weight(Texts(SplitFile(JoinFile(lines)))) ==
            |EndedLine(RawText(lines[0])).text| + 1 + Weight(Texts(SplitFile(JoinFile(lines[1..]))))
  {
    hide Weight, SplitFile, Texts, OneLine, LineText, RawText, EndedLine;
    EndedWeight(lines[0]);
    SplitFirst(RawText(lines[0]), JoinFile(lines[1..]));
    var read := [EndedLine(RawText(lines[0]))] + SplitFile(JoinFile(lines[1..]));
    assert read[1..] == SplitFile(JoinFile(lines[1..]));
    WeightOfFirst(read);
  }

  lemma LastLineWeight(line: FileLine)
    requires OneLine(line.text) && line.ending == NoEnd
    ensures Weight(Texts(SplitFile(JoinFile([line])))) == if line.text == "" then 0 else Weight(Texts([line]))
    ensures Weight(Texts([line])) == |line.text| + 1
    ensures Splittable([line]) <==> line.text != ""
  {
    assert [line][1..] == [];
    assert JoinFile([line]) == LineText(line) + "" == line.text;
    if line.text != "" {
      SplitLast(line.text);
    }
  }

  /** A byte-order mark that a patch brings in is taken for the file's own. */
  lemma MarkIsLost(lines: seq<FileLine>)
    requires Written(lines) && HasBom(JoinFile(lines))
    ensures Weight(Texts(SplitFile(WithoutBom(JoinFile(lines))))) < Weight(Texts(lines))
  {
    hide Weight, SplitFile, Texts, OneLine;
    MarkIff(lines);
    var line := lines[0];
    var cut := line.(text := line.text[1..]);
    var shorter := [cut] + lines[1..];
    ShorterIsWritten(lines);
    assert shorter[1..] == lines[1..];
    WeightOfFirst(lines);
    WeightOfFirst(shorter);
    assert LineText(line)[1..] == LineText(cut);
    assert JoinFile(shorter) == WithoutBom(JoinFile(lines));
    ResplitWeight(shorter);
  }

  lemma ShorterIsWritten(lines: seq<FileLine>)
    requires Written(lines) && lines != [] && lines[0].text != ""
    ensures Written([lines[0].(text := lines[0].text[1..])] + lines[1..])
  {
  }

  /** The first character written is a byte-order mark. */
  predicate StartsWithMark(lines: seq<FileLine>) {
    lines != [] && lines[0].text != "" && lines[0].text[0] == BOM
  }

  lemma MarkIff(lines: seq<FileLine>)
    requires Written(lines)
    ensures HasBom(JoinFile(lines)) <==> StartsWithMark(lines)
  {
    if lines != [] {
      JoinFirst(lines);
      if |lines| == 1 {
        JoinNothing(lines[1..]);
      }
      assert LineText(lines[0]) == lines[0].text + EndingText(lines[0].ending);
    }
  }

  // ---------- undo ----------

  lemma PatchedIsWritten(original: string, patch: Patch)
    requires WellFormed(patch) && PatchedFile(original, patch).Ok?
    ensures Written(PatchedFile(original, patch).value)
  {
    hide ApplyHunks, SplitFile, DominantEnding, JoinFile, EndsInNewline, Normalize, OneLine;
    PatchedFileKeeps(original, patch);
    var first := SplitFile(WithoutBom(original));
    var default := DominantEnding(first);
    SplitTextsAreOneLines(WithoutBom(original));
    HunksKeepOneLines(first, patch.hunks, default);
    var lines := PatchedFile(original, patch).value;
    assert Texts(lines) == Texts(ApplyHunks(first, patch.hunks, default).value);
    forall i | 0 <= i < |lines|
      ensures OneLine(lines[i].text)
    {
      assert Texts(lines)[i] == lines[i].text;
    }
  }

  lemma PatchedWeight(original: string, patch: Patch)
    requires PatchedFile(original, patch).Ok?
    ensures Weight(Texts(PatchedFile(original, patch).value)) ==
            Weight(Texts(SplitFile(WithoutBom(original)))) + GrowthOfAll(patch.hunks)
  {
    hide ApplyHunks, SplitFile, DominantEnding, EndsInNewline, Weight, Texts, GrowthOfAll;
    var first := SplitFile(WithoutBom(original));
    HunksWeight(first, patch.hunks, DominantEnding(first));
  }

  /** Reading the output finds as much as was written exactly when it reads back. */
  lemma OutputWeight(original: string, lines: seq<FileLine>)
    requires Written(lines)
    ensures Weight(Texts(SplitFile(WithoutBom(Rendered(original, lines))))) == Weight(Texts(lines)) <==>
            ReadsBackAs(original, lines)
  {
    hide Weight, SplitFile, Texts, Splittable, JoinFile, Written;
    var output := Rendered(original, lines);
    if HasBom(original) {
      assert output == [BOM] + JoinFile(lines) && WithoutBom(output) == JoinFile(lines);
      ResplitWeight(lines);
    } else {
      assert output == "" + JoinFile(lines) == JoinFile(lines);
      if HasBom(output) {
        MarkIsLost(lines);
      } else {
        ResplitWeight(lines);
      }
    }
  }

  /**
    Undo, on files: patch, write, read again, apply the inverse. When both are
    accepted, every original line text comes back exactly when the written lines
    read back as themselves: no empty last line without ending, no `\r` before a
    bare newline, and no byte-order mark that the file did not have.
  */
  lemma UndoPatchIff(original: string, patch: Patch)
    requires WellFormed(patch) && Apply(original, patch).Ok?
    requires PatchedFile(Apply(original, patch).value, Inverse(patch)).Ok?
    ensures
      Texts(PatchedFile(Apply(original, patch).value, Inverse(patch)).value) == Texts(SplitFile(WithoutBom(original))) <==>
      ReadsBackAs(original, PatchedFile(original, patch).value)
  {
    hide Apply, PatchedFile, SplitFile, Texts, Weight, ReadsBackAs, WellFormed, Written, GrowthOfAll, InvertHunks, Rendered;
    ApplyWrites(original, patch);
    var lines, output := PatchedFile(original, patch).value, Apply(original, patch).value;
    PatchedIsWritten(original, patch);
    PatchedWeight(original, patch);
    PatchedWeight(output, Inverse(patch));
    InverseGrowth(patch.hunks);
    OutputWeight(original, lines);
    if ReadsBackAs(original, lines) {
      UndoPatch(original, patch);
    }
  }

  lemma ApplyWrites(original: string, patch: Patch)
    requires Apply(original, patch).Ok?
    ensures PatchedFile(original, patch).Ok?
    ensures Apply(original, patch).value == Rendered(original, PatchedFile(original, patch).value)
  {
    hide PatchedFile, Rendered;
  }

  // ---------- read off the file and its hunks ----------

  /** A line that keeps a `\r` which its newline will claim. */
  predicate EndsBare(line: FileLine) {
    line.ending == Lf && line.text != "" && line.text[|line.text| - 1] == '\r'
  }

  lemma {:induction false} SplittableIff(lines: seq<FileLine>)
    requires Written(lines)
    ensures Splittable(lines) <==>
            && (forall i | 0 <= i < |lines| :: !EndsBare(lines[i]))
            && (lines != [] && lines[|lines| - 1].ending == NoEnd ==> lines[|lines| - 1].text != "")
    decreases |lines|
  {
    if lines != [] {
      hide OneLine;
      SplittableIff(lines[1..]);
      assert forall i | 0 < i < |lines| :: lines[i] == lines[1..][i - 1];
      assert lines == [lines[0]] + lines[1..];
    }
  }

  lemma LastEnding(original: string, patch: Patch)
    requires PatchedFile(original, patch).Ok? && PatchedFile(original, patch).value != []
    ensures
      var lines := PatchedFile(original, patch).value;
      lines[|lines| - 1].ending == NoEnd <==> !EndsInNewline(WithoutBom(original))
  {
    hide ApplyHunks, SplitFile, EndsInNewline;
  }

  /** When the written lines read back, told from the lines and the file. */
  lemma ReadsBackIff(original: string, patch: Patch)
    requires WellFormed(patch) && PatchedFile(original, patch).Ok?
    ensures
      var lines := PatchedFile(original, patch).value;
      ReadsBackAs(original, lines) <==>
      && (forall i | 0 <= i < |lines| :: !EndsBare(lines[i]))
      && (EndsInNewline(WithoutBom(original)) || lines == [] || lines[|lines| - 1].text != "")
      && (HasBom(original) || !StartsWithMark(lines))
  {
    hide PatchedFile, WellFormed, Splittable, EndsInNewline, EndsBare, JoinFile, LineText;
    var lines := PatchedFile(original, patch).value;
    PatchedIsWritten(original, patch);
    SplittableIff(lines);
    if lines != [] {
      LastEnding(original, patch);
    }
    hide Written;
    MarkIff(lines);
  }

  // ---------- two accepted patches that lose a line ----------

  /** A hunk that puts one text in place of another, in either order of its two lines. */
  function Swap(was: string, text: string, addFirst: bool): Hunk {
    Hunk(None, if addFirst then [Add(text), Delete(was)] else [Delete(was), Add(text)])
  }

  lemma SwapTexts(was: string, text: string, addFirst: bool, line: FileLine, ending: Ending)
    ensures
      var body := Swap(was, text, addFirst).lines;
      && OldTexts(body) == [was] && NewTexts(body) == [text] && Replacement(body, [line], ending) == [FileLine(text, ending)]
  {
    var body := Swap(was, text, addFirst).lines;
    var rest := body[1..];
    assert rest == [body[1]] && rest[1..] == [] && [line][1..] == [];
    assert OldTexts(rest) == (if addFirst then [was] else []) && NewTexts(rest) == (if addFirst then [] else [text]);
    assert Replacement([], [], ending) == [];
  }

  lemma PatchedSwap(lines: seq<FileLine>, text: string, addFirst: bool, default: Ending, n: nat)
    requires n < |lines| && default != NoEnd
    requires OccursAt(Texts(lines), OldTexts(Swap(lines[n].text, text, addFirst).lines), n)
    ensures
      var ending := if lines[n].ending != NoEnd then lines[n].ending else default;
      Patched(lines, Swap(lines[n].text, text, addFirst), default, n) == [FileLine(text, ending)]
  {
    var ending := if lines[n].ending != NoEnd then lines[n].ending else default;
    SwapTexts(lines[n].text, text, addFirst, lines[n], ending);
    hide OldTexts, NewTexts, Texts, Replacement, Swap, OccursAt;
    assert lines[n..n + 1] == [lines[n]];
    assert FirstEnding([lines[n]], default) == ending;
  }

  /** The line that is swapped keeps its ending, or takes the file's. */
  lemma SwapWrites(lines: seq<FileLine>, text: string, addFirst: bool, default: Ending, n: nat)
    requires n < |lines| && default != NoEnd
    requires forall i | 0 <= i < |lines| && i != n :: lines[i].text != lines[n].text
    ensures
      var ending := if lines[n].ending != NoEnd then lines[n].ending else default;
      ApplyHunks(lines, [Swap(lines[n].text, text, addFirst)], default) == Ok(lines[n := FileLine(text, ending)])
  {
    var hunk := Swap(lines[n].text, text, addFirst);
    var ending := if lines[n].ending != NoEnd then lines[n].ending else default;
    assert OldTexts(hunk.lines) == [lines[n].text] by { SwapTexts(lines[n].text, text, addFirst, lines[n], ending); }
    hide OldTexts, Texts, Swap, Patched, ApplyHunk, ApplyHunks, OccursAt, OccursOnlyAt;
    OnlyAt(lines, lines[n].text, n);
    PlacedAt(lines, hunk, default, n);
    PatchedSwap(lines, text, addFirst, default, n);
    ReplaceOne(lines, n, FileLine(text, ending));
    OneHunk(lines, hunk, default);
  }

  lemma ReplaceOne<T>(s: seq<T>, n: nat, x: T)
    requires n < |s|
    ensures s[..n] + [x] + s[n + 1..] == s[n := x]
  {
  }

  lemma OneHunk(lines: seq<FileLine>, hunk: Hunk, default: Ending)
    ensures ApplyHunks(lines, [hunk], default) == ApplyHunk(lines, hunk, default)
  {
    hide ApplyHunk;
    assert [hunk][1..] == [];
  }

  const BLANK_LAST := Patch("f", [Swap("y", "", false)])

  lemma BlankingLeavesNothing()
    ensures Apply("\nx\ny", BLANK_LAST) == Ok("\nx\n")
  {
    hide SplitFile, ApplyHunks, DominantEnding;
    SplitBlankFirst();
    var lines := SplitFile("\nx\ny");
    assert BLANK_LAST.hunks == [Swap(lines[2].text, "", false)];
    SwapWrites(lines, "", false, DominantEnding(lines), 2);
    var kept := lines[2 := FileLine("", DominantEnding(lines))];
    ApplyGives("\nx\ny", BLANK_LAST, kept);
    assert Normalize(kept, DominantEnding(lines), false) == [FileLine("", Lf), FileLine("x", Lf), FileLine("", NoEnd)];
    JoinOfThree(FileLine("", Lf), FileLine("x", Lf), FileLine("", NoEnd));
    assert LineText(FileLine("", Lf)) == "\n" && LineText(FileLine("x", Lf)) == "x\n" && LineText(FileLine("", NoEnd)) == "";
    hide JoinFile, Normalize, LineText;
    assert "\n" + ("x\n" + "") == "\nx\n";
  }

  lemma UndoHitsAnotherLine()
    ensures Apply("\nx\n", Inverse(BLANK_LAST)) == Ok("y\nx\n")
  {
    hide SplitFile, ApplyHunks, DominantEnding;
    SplitTwo("");
    assert "" + "\nx\n" == "\nx\n";
    InverseOfBlank();
    var lines := SplitFile("\nx\n");
    assert Inverse(BLANK_LAST).hunks == [Swap(lines[0].text, "y", true)];
    SwapWrites(lines, "y", true, DominantEnding(lines), 0);
    var kept := lines[0 := FileLine("y", Lf)];
    ApplyGives("\nx\n", Inverse(BLANK_LAST), kept);
    assert Normalize(kept, DominantEnding(lines), true) == [FileLine("y", Lf), FileLine("x", Lf)];
    JoinOfTwo(FileLine("y", Lf), FileLine("x", Lf));
    assert LineText(FileLine("y", Lf)) == "y\n" && LineText(FileLine("x", Lf)) == "x\n";
    hide JoinFile, Normalize, LineText;
    assert "y\n" + "x\n" == "y\nx\n";
  }

  lemma InverseOfBlank()
    ensures Inverse(BLANK_LAST) == Patch("f", [Swap("", "y", true)])
  {
    var body := Swap("y", "", false).lines;
    assert body[1..] == [body[1]] && body[1..][1..] == [];
    assert InvertBody(body) == [Add("y"), Delete("")];
    assert BLANK_LAST.hunks[1..] == [];
  }

  /**
    A patch the parser can return blanks the last line of a file without a final
    newline; the blank line is not there when the file is read again, so the
    inverse, accepted all the same, hits another blank line.
  */
  lemma UndoLosesLine()
    ensures WellFormed(BLANK_LAST)
    ensures Apply("\nx\ny", BLANK_LAST) == Ok("\nx\n") && Apply("\nx\n", Inverse(BLANK_LAST)) == Ok("y\nx\n")
    ensures Texts(SplitFile("\nx\ny")) == ["", "x", "y"] && Texts(SplitFile("y\nx\n")) == ["y", "x"]
  {
    hide Apply, SplitFile, WellFormed, Texts;
    BlankingLeavesNothing();
    UndoHitsAnotherLine();
    BlankIsWellFormed();
    TextsBeforeAndAfter();
  }

  lemma JoinOfThree(a: FileLine, b: FileLine, c: FileLine)
    ensures JoinFile([a, b, c]) == LineText(a) + (LineText(b) + LineText(c))
  {
    JoinOfTwo(b, c);
    assert [a, b, c][1..] == [b, c];
  }

  lemma SplitBlankFirst()
    ensures SplitFile("\nx\ny") == [FileLine("", Lf), FileLine("x", Lf), FileLine("y", NoEnd)]
  {
    SplitLastLine();
    hide SplitFile;
    SplitLine("x", "y");
    assert "x" + "\n" + "y" == "x\ny";
    SplitLine("", "x\ny");
    assert "" + "\n" + "x\ny" == "\nx\ny";
  }

  lemma SplitTwo(first: string)
    requires Free(first, '\n') && (first == "" || first[|first| - 1] != '\r')
    ensures SplitFile(first + "\nx\n") == [FileLine(first, Lf), FileLine("x", Lf)]
  {
    SplitX();
    hide SplitFile;
    SplitLine(first, "x\n");
    assert "\n" + "x\n" == "\nx\n";
    Assoc(first, "\n", "x\n");
  }

  lemma SplitX()
    ensures SplitFile("x\n") == [FileLine("x", Lf)]
  {
    assert SplitFile("") == [];
    hide SplitFile;
    SplitLine("x", "");
    assert "x" + "\n" + "" == "x\n";
  }

  lemma BlankIsWellFormed()
    ensures WellFormed(BLANK_LAST)
  {
    var hunk := BLANK_LAST.hunks[0];
    assert hunk.lines == [Delete("y"), Add("")] && IsAnchor(hunk.lines[0]) && !hunk.lines[0].Context?;
    assert WellFormedHunk(hunk);
  }

  /** Where the line went. */
  lemma TextsBeforeAndAfter()
    ensures Texts(SplitFile("\nx\ny")) == ["", "x", "y"] && Texts(SplitFile("y\nx\n")) == ["y", "x"]
  {
    hide SplitFile;
    SplitBlankFirst();
    assert Texts(SplitFile("\nx\ny")) == ["", "x", "y"];
    SplitTwo("y");
    assert "y" + "\nx\n" == "y\nx\n";
  }
}
