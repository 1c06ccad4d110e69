/**
  Which ending every line of a patched file has: a line of the file keeps its own,
  an added one takes that of its place, and a file of one kind stays of that kind.
*/
module PatchLines {
  import opened Wrappers
  import opened Text
  import opened Sequences
  import opened PatchSyntax
  import opened ApplyPatch
  import opened PatchEndings

  // ---------- the most frequent ending ----------

  function Ended(lines: seq<FileLine>, ending: Ending): set<nat> {
    set i: nat | i < |lines| && lines[i].ending == ending
  }

  lemma {:induction false} CountIs(lines: seq<FileLine>, ending: Ending)
    ensures Count(lines, ending) == |Ended(lines, ending)|
  {
    if lines != [] {
      var n := |lines| - 1;
      CountIs(lines[..n], ending);
      var front := Ended(lines[..n], ending);
      assert Ended(lines, ending) == if lines[n].ending == ending then front + {n} else front;
    }
  }

  /** `\r\n` when more lines end so than in a bare newline. */
  lemma DominantIff(lines: seq<FileLine>)
    ensures DominantEnding(lines) == CrLf <==> |Ended(lines, CrLf)| > |Ended(lines, Lf)|
    ensures DominantEnding(lines) == Lf <==> |Ended(lines, CrLf)| <= |Ended(lines, Lf)|
  {
    CountIs(lines, CrLf);
    CountIs(lines, Lf);
    hide Count;
  }

  // ---------- the lines of one hunk ----------

  /** `e` is the ending of the first of these lines that has one, or else the file's. */
  predicate IsLocal(lines: seq<FileLine>, default: Ending, e: Ending) {
    || (e == default && forall k | 0 <= k < |lines| :: lines[k].ending == NoEnd)
    || exists k | 0 <= k < |lines| ::
         e == lines[k].ending != NoEnd && forall j | 0 <= j < k :: lines[j].ending == NoEnd
  }

  lemma {:induction false} FirstIsLocal(lines: seq<FileLine>, default: Ending)
    ensures IsLocal(lines, default, FirstEnding(lines, default))
  {
    if lines != [] && lines[0].ending == NoEnd {
      FirstIsLocal(lines[1..], default);
      assert forall k | 0 <= k < |lines| - 1 :: lines[1..][k] == lines[k + 1];
      var e := FirstEnding(lines, default);
      if k :| 0 <= k < |lines[1..]| && e == lines[1..][k].ending != NoEnd
              && forall j | 0 <= j < k :: lines[1..][j].ending == NoEnd {
        assert lines[k + 1].ending == e;
        assert forall j | 0 < j < k + 1 :: lines[j] == lines[1..][j - 1];
      } else {
        assert forall k | 0 < k < |lines| :: lines[k] == lines[1..][k - 1];
      }
    }
  }

  /**
    The line a hunk's `i`-th line leaves: a context line is the file's own, an added
    one has the local ending, and only the last line of all may be left without one.
  */
  lemma HunkLine(lines: seq<FileLine>, hunk: Hunk, default: Ending, at: nat, i: nat) returns (k: nat, local: Ending)
    requires OccursOnlyAt(Texts(lines), OldTexts(hunk.lines), at) && i < |hunk.lines| && !hunk.lines[i].Delete?
    ensures ApplyHunk(lines, hunk, default).Ok? && at + |OldTexts(hunk.lines)| <= |lines|
    ensures IsLocal(lines[at..at + |OldTexts(hunk.lines)|], default, local)
    ensures k == at + |NewTexts(hunk.lines[..i])| < |ApplyHunk(lines, hunk, default).value|
    ensures hunk.lines[i].Context? ==> at + |OldTexts(hunk.lines[..i])| < |lines|
    ensures
      var out := ApplyHunk(lines, hunk, default).value;
      var kept := if hunk.lines[i].Context? then lines[at + |OldTexts(hunk.lines[..i])|] else FileLine(hunk.lines[i].text, local);
      && out[k].text == kept.text
      && out[k].ending == if kept.ending == NoEnd && k < |out| - 1 then local else kept.ending
  {
    var body, end := hunk.lines, at + |OldTexts(hunk.lines)|;
    hide OldTexts, NewTexts, ApplyHunk, Texts, Replacement, FirstEnding, IsLocal;
    OccursFits(lines, body, at);
    PlacedAt(lines, hunk, default, at);
    local := FirstEnding(lines[at..end], default);
    FirstIsLocal(lines[at..end], default);
    ReplacementAt(body, lines[at..end], local, i);
    k := at + |NewTexts(body[..i])|;
    var raw := Replacement(body, lines[at..end], local);
    var made := FillEndings(raw, local, end < |lines|);
    assert Patched(lines, hunk, default, at) == made;
    SpliceAt(lines[..at], made, lines[end..], |NewTexts(body[..i])|);
  }

  lemma OccursFits(lines: seq<FileLine>, body: seq<PatchLine>, at: nat)
    requires OccursOnlyAt(Texts(lines), OldTexts(body), at)
    ensures at + |OldTexts(body)| <= |lines|
  {
    hide OldTexts;
  }

  lemma SpliceAt<T>(a: seq<T>, b: seq<T>, c: seq<T>, i: nat)
    requires i < |b|
    ensures (a + b + c)[|a| + i] == b[i]
  {
  }

  lemma PlacedAt(lines: seq<FileLine>, hunk: Hunk, default: Ending, n: nat)
    requires OccursOnlyAt(Texts(lines), OldTexts(hunk.lines), n)
    ensures OccursAt(Texts(lines), OldTexts(hunk.lines), n) && n + |OldTexts(hunk.lines)| <= |lines|
    ensures ApplyHunk(lines, hunk, default) ==
            Ok(lines[..n] + Patched(lines, hunk, default, n) + lines[n + |OldTexts(hunk.lines)|..])
  {
    OneMatchIff(Texts(lines), OldTexts(hunk.lines), n);
    hide OldTexts, Texts, Matches, Patched;
  }

  // ---------- a file of one kind ----------

  predicate OfKind(lines: seq<FileLine>, e: Ending) {
    forall i | 0 <= i < |lines| :: lines[i].ending == e || lines[i].ending == NoEnd
  }

  lemma {:induction false} ReplacementKind(body: seq<PatchLine>, was: seq<FileLine>, e: Ending)
    requires |was| == |OldTexts(body)| && OfKind(was, e)
    ensures OfKind(Replacement(body, was, e), e)
  {
    if body != [] {
      ReplacementKind(body[1..], if body[0].Add? then was else was[1..], e);
    }
  }

  lemma {:induction false} LocalKind(lines: seq<FileLine>, e: Ending)
    requires OfKind(lines, e)
    ensures FirstEnding(lines, e) == e
  {
    if lines != [] {
      LocalKind(lines[1..], e);
    }
  }

  lemma HunkKind(lines: seq<FileLine>, hunk: Hunk, e: Ending)
    requires OfKind(lines, e) && ApplyHunk(lines, hunk, e).Ok?
    ensures OfKind(ApplyHunk(lines, hunk, e).value, e)
  {
    hide ApplyHunk, OldTexts, Texts, Replacement, FirstEnding;
    var at := AcceptedOccursOnce(lines, hunk, e);
    PlacedAt(lines, hunk, e, at);
    var end := at + |OldTexts(hunk.lines)|;
    LocalKind(lines[at..end], e);
    ReplacementKind(hunk.lines, lines[at..end], e);
  }

  lemma {:induction false} HunksKind(lines: seq<FileLine>, hunks: seq<Hunk>, e: Ending)
    requires OfKind(lines, e) && ApplyHunks(lines, hunks, e).Ok?
    ensures OfKind(ApplyHunks(lines, hunks, e).value, e)
    decreases |hunks|
  {
    hide ApplyHunk, OfKind;
    if hunks != [] {
      HunkKind(lines, hunks[0], e);
      HunksKind(ApplyHunk(lines, hunks[0], e).value, hunks[1..], e);
    }
  }

  /** A file whose lines all end alike, at least one of them, stays so under every patch. */
  lemma KindIsKept(original: string, patch: Patch, e: Ending)
    requires PatchedFile(original, patch).Ok? && e != NoEnd
    requires OfKind(SplitFile(WithoutBom(original)), e)
    requires exists i | 0 <= i < |SplitFile(WithoutBom(original))| :: SplitFile(WithoutBom(original))[i].ending == e
    ensures OfKind(PatchedFile(original, patch).value, e)
  {
    var lines := SplitFile(WithoutBom(original));
    hide SplitFile, ApplyHunks, EndsInNewline, Count;
    var i :| 0 <= i < |lines| && lines[i].ending == e;
    var other := if e == Lf then CrLf else Lf;
    assert i in Ended(lines, e) && Ended(lines, other) == {};
    DominantIff(lines);
    HunksKind(lines, patch.hunks, e);
  }

  // ---------- the signs of a patch ----------

  const ONE_CHANGE := Patch("f", [Hunk(Some("t"), [Context("a"), Delete("b"), Add("c")])])

  lemma OneChangeLines()
    ensures PrintLines(ONE_CHANGE) ==
            ["*** Begin Patch", "*** Update File: f", "@@ t", " a", "-b", "+c", "*** End Patch"]
  {
    var a, b, c := Context("a"), Delete("b"), Add("c");
    assert PrintLine(a) == " a" && PrintLine(b) == "-b" && PrintLine(c) == "+c" by {
      assert " " + "a" == " a" && "-" + "b" == "-b" && "+" + "c" == "+c";
    }
    var body := ONE_CHANGE.hunks[0].lines;
    assert body == [a, b, c] && body[1..] == [b, c] && [b, c][1..] == [c] && [c][1..] == [];
    hide PrintLine;
    assert PrintBody([c]) == ["+c"] + [];
    assert PrintBody([b, c]) == ["-b"] + ["+c"];
    assert PrintBody(body) == [" a"] + ["-b", "+c"];
    assert "@@ " + "t" == "@@ t" && UPDATE + "f" == "*** Update File: f";
    assert PrintHunk(ONE_CHANGE.hunks[0]) == ["@@ t"] + [" a", "-b", "+c"];
    assert ONE_CHANGE.hunks[1..] == [];
    assert PrintHunks(ONE_CHANGE.hunks) == ["@@ t", " a", "-b", "+c"] + [];
  }

  lemma OneChangeIsWellFormed()
    ensures WellFormed(ONE_CHANGE)
  {
    var hunk := ONE_CHANGE.hunks[0];
    assert IsAnchor(hunk.lines[0]) && !hunk.lines[1].Context?;
    assert WellFormedHunk(hunk);
  }

  /** A space keeps a line, a minus drops it, a plus adds it. */
  lemma SignsAreRead(lines: seq<string>)
    requires lines == ["*** Begin Patch", "*** Update File: f", "@@ t", " a", "-b", "+c", "*** End Patch"]
    ensures Parse(Join(AddReturns(lines), '\n')) == Ok(Patch("f", [Hunk(Some("t"), [Context("a"), Delete("b"), Add("c")])]))
  {
    hide WellFormed, PrintLines, Parse, AddReturns, Join;
    OneChangeLines();
    OneChangeIsWellFormed();
    PrintThenParse(ONE_CHANGE);
  }

  predicate IsOld(line: PatchLine) { line.Context? || line.Delete? }

  predicate IsChange(line: PatchLine) { line.Delete? || line.Add? }

  /** Every hunk that is read finds its place by an old line and changes something. */
  lemma ParsedHunksChange(input: string, k: nat)
    requires Parse(input).Ok? && k < |Parse(input).value.hunks|
    ensures
      var lines := Parse(input).value.hunks[k].lines;
      && (exists i | 0 <= i < |lines| :: IsOld(lines[i]))
      && (exists i | 0 <= i < |lines| :: IsChange(lines[i]))
  {
    hide Parse, Bare, OneLine;
    ParsedIsWellFormed(input);
    assert WellFormedHunk(Parse(input).value.hunks[k]);
    var lines := Parse(input).value.hunks[k].lines;
    var i :| 0 <= i < |lines| && IsAnchor(lines[i]);
    assert IsOld(lines[i]);
    var j :| 0 <= j < |lines| && !lines[j].Context?;
    assert IsChange(lines[j]);
  }
}
