/**
  When a restored snapshot shows what the saved one showed. A snapshot keeps the
  displayed paths and texts of its sources; two directories can display alike.
*/
module InstructionRestore {
  import opened Wrappers
  import opened Text
  import opened Utf8
  import opened Sequences
  import opened InstructionPaths
  import opened ProjectInstructions

  // ---------- winners of the budget, directory by directory ----------

  predicate SortedSources(sources: seq<Source>) {
    forall i, j | 0 <= i < j < |sources| :: DirLess(sources[i].dir, sources[j].dir)
  }

  predicate HasDir(sources: seq<Source>, d: Dir) {
    exists i :: 0 <= i < |sources| && sources[i].dir == d
  }

  /** The sources of directories after `d`, the more specific end. */
  function After(sources: seq<Source>, d: Dir): seq<Source> {
    if sources == [] then []
    else if DirLess(d, sources[0].dir) then [sources[0]] + After(sources[1..], d)
    else After(sources[1..], d)
  }

  /**
    Directory `d` bears out that `winners` win: it reads as its winner, or holds
    nothing, or holds a source that does not fit beside the winners after it.
  */
  predicate Decided(disk: Disk, d: Dir, winners: seq<Source>) {
    match ReadScope(disk, d, 0)
    case Err(_) => false
    case Ok(None) => !HasDir(winners, d)
    case Ok(Some(source)) =>
      source in winners || (!HasDir(winners, d) && Cost(source) + Total(After(winners, d)) > MAX_TOTAL_BYTES)
  }

  predicate AllDecided(disk: Disk, dirs: seq<Dir>, winners: seq<Source>) {
    forall i | 0 <= i < |dirs| :: Decided(disk, dirs[i], winners)
  }

  predicate HaveDirs(winners: seq<Source>, dirs: seq<Dir>) {
    forall i | 0 <= i < |winners| :: winners[i].dir in Elements(dirs)
  }

  /** What greedy selection picks, told from the outcome. */
  predicate Picks(disk: Disk, dirs: seq<Dir>, winners: seq<Source>) {
    Gather(disk, dirs).Ok? && Select(Gather(disk, dirs).value) == winners
  }

  lemma {:induction false} AllAfterHead(sources: seq<Source>, d: Dir)
    requires forall i | 0 <= i < |sources| :: DirLess(d, sources[i].dir)
    ensures After(sources, d) == sources
  {
    hide DirLess;
    if sources != [] {
      AllAfterHead(sources[1..], d);
    }
  }

  lemma AfterSkipsHead(sources: seq<Source>, d: Dir)
    requires sources != [] && !DirLess(d, sources[0].dir)
    ensures After(sources, d) == After(sources[1..], d)
  {
    hide DirLess;
  }

  /** The head directory, and how deciding the others depends on it. */
  lemma HeadIsLeast(dirs: seq<Dir>, winners: seq<Source>)
    requires dirs != [] && Sorted(dirs) && SortedSources(winners) && HaveDirs(winners, dirs)
    ensures
      var rest := if winners != [] && winners[0].dir == dirs[0] then winners[1..] else winners;
      && HaveDirs(rest, dirs[1..]) && SortedSources(rest)
      && (forall i | 0 <= i < |rest| :: DirLess(dirs[0], rest[i].dir))
      && !HasDir(rest, dirs[0])
  {
    hide DirLess;
    var d := dirs[0];
    var rest := if winners != [] && winners[0].dir == d then winners[1..] else winners;
    TailElements(dirs);
    DirsAreOrdered(d, d, d);
    forall i | 0 <= i < |rest|
      ensures rest[i].dir in Elements(dirs[1..]) && DirLess(d, rest[i].dir)
    {
      HeadBeforeRest(dirs, winners, rest, i);
    }
  }

  lemma HeadBeforeRest(dirs: seq<Dir>, winners: seq<Source>, rest: seq<Source>, i: nat)
    requires dirs != [] && Sorted(dirs) && SortedSources(winners) && HaveDirs(winners, dirs)
    requires rest == (if winners != [] && winners[0].dir == dirs[0] then winners[1..] else winners) && i < |rest|
    ensures rest[i].dir in Elements(dirs[1..]) && DirLess(dirs[0], rest[i].dir)
  {
    hide DirLess;
    var d, n := dirs[0], |winners| - |rest|;
    TailElements(dirs);
    assert rest[i] == winners[i + n];
    DirsAreOrdered(winners[0].dir, winners[i + n].dir, d);
    DirsAreOrdered(d, d, d);
    var j :| 0 <= j < |dirs| && dirs[j] == rest[i].dir;
    var w :| 0 <= w < |dirs| && dirs[w] == winners[0].dir;
    if j == 0 {
      assert w == 0 || DirLess(d, winners[0].dir);
      DirsAreOrdered(d, winners[0].dir, d);
    }
  }

  function RestOf(winners: seq<Source>, d: Dir): seq<Source> {
    if winners != [] && winners[0].dir == d then winners[1..] else winners
  }

  /** Behind the head directory the head winner is out of sight. */
  lemma DecidedBehindHead(disk: Disk, winners: seq<Source>, d: Dir, later: Dir)
    requires DirLess(d, later)
    ensures Decided(disk, later, winners) <==> Decided(disk, later, RestOf(winners, d))
  {
    DirsAreOrdered(d, later, d);
    DirsAreOrdered(d, d, d);
    if winners != [] && winners[0].dir == d {
      hide DirLess;
      ReadScopeDir(disk, later, 0);
      hide ReadScope, Cost, Total;
      var rest := winners[1..];
      assert winners == [winners[0]] + rest;
      AfterSkipsHead(winners, later);
      HasDirOfTail(winners, later);
    }
  }

  lemma HasDirOfTail(winners: seq<Source>, d: Dir)
    requires winners != [] && winners[0].dir != d
    ensures HasDir(winners, d) <==> HasDir(winners[1..], d)
  {
    if HasDir(winners, d) {
      var i :| 0 <= i < |winners| && winners[i].dir == d;
      assert winners[1..][i - 1].dir == d;
    }
    if HasDir(winners[1..], d) {
      var i :| 0 <= i < |winners| - 1 && winners[1..][i].dir == d;
      assert winners[i + 1].dir == d;
    }
  }

  /** The head directory is decided when its own source is the head winner, or loses. */
  lemma HeadDecidedIff(disk: Disk, winners: seq<Source>, d: Dir)
    requires forall i | 0 <= i < |RestOf(winners, d)| :: DirLess(d, RestOf(winners, d)[i].dir)
    ensures
      var found, rest := ReadScope(disk, d, 0), RestOf(winners, d);
      Decided(disk, d, winners) <==>
      found.Ok? && if rest != winners then found.value == Some(winners[0])
                   else found.value.Some? ==> Cost(found.value.value) + Total(winners) > MAX_TOTAL_BYTES
  {
    DirsAreOrdered(d, d, d);
    ReadScopeDir(disk, d, 0);
    hide DirLess, ReadScope, Cost, Total;
    var rest := RestOf(winners, d);
    assert rest != winners ==> winners == [winners[0]] + rest && winners[0].dir == d;
    assert rest != winners ==> HasDir(winners, d);
    if rest == winners {
      AllAfterHead(winners, d);
    }
  }

  lemma AllDecidedOfCons(disk: Disk, dirs: seq<Dir>, winners: seq<Source>)
    requires dirs != []
    ensures AllDecided(disk, dirs, winners) <==> Decided(disk, dirs[0], winners) && AllDecided(disk, dirs[1..], winners)
  {
    hide Decided;
    assert forall i | 0 < i < |dirs| :: dirs[i] == dirs[1..][i - 1];
  }

  lemma AllDecidedBehindHead(disk: Disk, dirs: seq<Dir>, winners: seq<Source>)
    requires dirs != [] && Sorted(dirs)
    ensures AllDecided(disk, dirs[1..], winners) <==> AllDecided(disk, dirs[1..], RestOf(winners, dirs[0]))
  {
    hide Decided, RestOf, DirLess;
    forall i | 0 <= i < |dirs| - 1
      ensures Decided(disk, dirs[1..][i], winners) <==> Decided(disk, dirs[1..][i], RestOf(winners, dirs[0]))
    {
      DecidedBehindHead(disk, winners, dirs[0], dirs[i + 1]);
    }
  }

  /** One step of picking, from the least specific end. */
  lemma PicksOfCons(disk: Disk, dirs: seq<Dir>, winners: seq<Source>)
    requires dirs != [] && Sorted(dirs) && Total(winners) <= MAX_TOTAL_BYTES
    ensures
      var found, rest := ReadScope(disk, dirs[0], 0), RestOf(winners, dirs[0]);
      Picks(disk, dirs, winners) <==>
      && found.Ok? && Picks(disk, dirs[1..], rest)
      && if rest != winners then found.value == Some(winners[0])
         else found.value.Some? ==> Cost(found.value.value) + Total(winners) > MAX_TOTAL_BYTES
  {
    var d := dirs[0];
    ReadScopeDir(disk, d, 0);
    hide ReadScope, Cost, DirLess, Select;
    if ReadScope(disk, d, 0).Ok? && Gather(disk, dirs[1..]).Ok? {
      var found, sources := ReadScope(disk, d, 0).value, Gather(disk, dirs[1..]).value;
      SelectStep(found, sources);
      PickedBehindHead(disk, dirs);
      hide Gather;
      CompareHeads(found, Select(sources), winners, d);
    }
  }

  /** Nothing picked behind the head directory is in it. */
  lemma PickedBehindHead(disk: Disk, dirs: seq<Dir>)
    requires dirs != [] && Sorted(dirs) && Gather(disk, dirs[1..]).Ok?
    ensures !HasDir(Select(Gather(disk, dirs[1..]).value), dirs[0])
  {
    hide ReadScope, DirLess, Select, Gather;
    TailElements(dirs);
    GatherWithin(disk, dirs[1..], Elements(dirs[1..]));
    SelectWithin(Gather(disk, dirs[1..]).value, Elements(dirs[1..]));
  }

  lemma CompareHeads(found: Option<Source>, picked: seq<Source>, winners: seq<Source>, d: Dir)
    requires (found.Some? ==> found.value.dir == d) && !HasDir(picked, d) && Total(winners) <= MAX_TOTAL_BYTES
    ensures
      var rest := RestOf(winners, d);
      var fits := found.Some? && Cost(found.value) + Total(picked) <= MAX_TOTAL_BYTES;
      WithHead(if fits then found else None, picked) == winners <==>
      && picked == rest
      && if rest != winners then found == Some(winners[0])
         else found.Some? ==> Cost(found.value) + Total(winners) > MAX_TOTAL_BYTES
  {
    hide Cost;
    var rest := RestOf(winners, d);
    if winners != [] && winners[0].dir == d {
      assert winners == [winners[0]] + rest && |rest| != |winners|;
      assert found.Some? ==> ([found.value] + picked)[0] == found.value && ([found.value] + picked)[1..] == picked;
      assert picked != [] ==> picked[0].dir != d;
    } else {
      assert found.Some? ==> ([found.value] + picked)[0].dir == d;
    }
  }

  /**
    A sorted list of sources is what the budget picks exactly when every
    directory bears it out.
  */
  lemma {:induction false} PicksIff(disk: Disk, dirs: seq<Dir>, winners: seq<Source>)
    requires Sorted(dirs) && SortedSources(winners) && HaveDirs(winners, dirs) && Total(winners) <= MAX_TOTAL_BYTES
    ensures Picks(disk, dirs, winners) <==> AllDecided(disk, dirs, winners)
  {
    if dirs == [] {
      assert winners == [] by { NoDirsNoWinners(winners); }
    } else {
      hide Decided, Picks, DirLess, ReadScope, Cost, Total, AllDecided, Elements;
      var d, rest := dirs[0], RestOf(winners, dirs[0]);
      HeadIsLeast(dirs, winners);
      TailIsFree(dirs);
      RestIsCheaper(winners, d);
      PicksIff(disk, dirs[1..], rest);
      PicksOfCons(disk, dirs, winners);
      AllDecidedOfCons(disk, dirs, winners);
      AllDecidedBehindHead(disk, dirs, winners);
      HeadDecidedIff(disk, winners, d);
    }
  }

  lemma NoDirsNoWinners(winners: seq<Source>)
    requires HaveDirs(winners, [])
    ensures winners == []
  {
    hide Elements;
    assert winners != [] ==> winners[0].dir in Elements([]);
    NoElements();
  }

  lemma TailIsFree(dirs: seq<Dir>)
    requires Sorted(dirs) && dirs != []
    ensures Sorted(dirs[1..])
  {
    hide DirLess;
  }

  lemma RestIsCheaper(winners: seq<Source>, d: Dir)
    ensures Total(RestOf(winners, d)) <= Total(winners)
  {
    hide Cost;
  }

  // ---------- what a snapshot shows ----------

  datatype Document = Document(path: string, scope: string, text: string)

  function ShownSource(s: Source): Document {
    Document(Display(s.dir + [s.file]), Display(s.dir), s.text)
  }

  /** The path, scope and text of every source; digests are functions of the texts. */
  function Shown(sources: seq<Source>): (r: seq<Document>)
    ensures |r| == |sources| && forall i | 0 <= i < |r| :: r[i] == ShownSource(sources[i])
  {
    seq(|sources|, i requires 0 <= i < |sources| => ShownSource(sources[i]))
  }

  /** The directory the stored scope of `dir` names when it is read back. */
  function Twin(dir: Dir): Dir {
    Names(ParseScope(Display(dir)))
  }

  function Twins(selected: seq<Source>): (r: seq<Source>)
    ensures |r| == |selected|
    ensures forall i | 0 <= i < |r| :: r[i] == selected[i].(dir := Twin(selected[i].dir))
  {
    seq(|selected|, i requires 0 <= i < |selected| => selected[i].(dir := Twin(selected[i].dir)))
  }

  /** The stored scope is safe and displays as itself once read. */
  predicate ReadsBackAlike(dir: Dir) {
    Safe(ParseScope(Display(dir))) && Display(Twin(dir)) == Display(dir)
  }

  /**
    What has to hold of the files before a restore: every stored scope names a
    directory that displays alike, in the same order; that directory reads as the
    same file with the same text; and no other ancestor of these directories
    fails to read, or holds a source that fits beside the more specific ones.
  */
  ghost predicate ComesBack(disk: Disk, selected: seq<Source>) {
    var twins := Twins(selected);
    && (forall i | 0 <= i < |selected| :: ReadsBackAlike(selected[i].dir))
    && SortedSources(twins)
    && var dirs := Closure(RestoredTargetsOf(selected));
       |dirs| <= MAX_DISCOVERED_DIRECTORIES && forall d | d in dirs :: Decided(disk, d, twins)
  }

  function RestoredTargetsOf(selected: seq<Source>): set<Scope> {
    {[]} + set i | 0 <= i < |selected| :: ParseScope(Display(selected[i].dir))
  }

  predicate CandidateFile(file: string) { file in CANDIDATES }

  predicate CandidateSources(sources: seq<Source>) {
    forall i | 0 <= i < |sources| :: CandidateFile(sources[i].file)
  }

  // ---------- display tells directories without backslashes apart ----------

  lemma DisplayTells(a: Dir, b: Dir)
    requires ValidDir(a) && NoBackslash(a) && Display(a) == Display(b)
    ensures Twin(b) == a
  {
    DisplayReadsBack(a);
  }

  /** A file path shows its directory and its name. */
  lemma PathOfFile(dir: Dir, file: string)
    requires CandidateFile(file)
    ensures Display(dir + [file]) == if dir == [] then file else Display(dir) + "/" + file
  {
    assert forall i | 0 <= i < |file| :: file[i] != '\\';
    if dir == [] {
      assert Join([file], '/') == file && dir + [file] == [file];
      assert Slashed(file) == file;
    } else {
      JoinOfLonger(dir, file);
      assert Slashed(Join(dir, '/') + "/" + file) == Slashed(Join(dir, '/')) + "/" + file;
    }
  }

  lemma {:induction false} JoinOfLonger(dir: Dir, file: string)
    requires dir != []
    ensures Join(dir + [file], '/') == Join(dir, '/') + "/" + file
  {
    var longer := dir + [file];
    if |dir| == 1 {
      assert longer[1..] == [file] && Join([file], '/') == file;
      assert longer == [dir[0], file];
      assert dir[0] + ['/'] + file == dir[0] + "/" + file;
    } else {
      assert longer[1..] == dir[1..] + [file];
      JoinOfLonger(dir[1..], file);
      Assoc(dir[0] + ['/'], Join(dir[1..], '/'), "/" + file);
      Assoc(Join(dir[1..], '/'), "/", file);
      Assoc(Join(dir, '/'), "/", file);
    }
  }

  /** Same directory display and same path display mean the same file name. */
  lemma SameFile(a: Dir, b: Dir, f: string, g: string)
    requires CandidateFile(f) && CandidateFile(g) && Display(a) == Display(b) && Display(a + [f]) == Display(b + [g])
    requires a == [] <==> b == []
    ensures f == g
  {
    hide Display;
    PathOfFile(a, f);
    PathOfFile(b, g);
    if a != [] {
      var head := Display(a) + "/";
      assert (head + f)[|head|..] == f && (head + g)[|head|..] == g;
    }
  }

  // ---------- facts about any selection ----------

  lemma ReadScopeFile(disk: Disk, dir: Dir, i: nat)
    requires i <= |CANDIDATES|
    ensures
      var r := ReadScope(disk, dir, i);
      r.Ok? && r.value.Some? ==> CandidateFile(r.value.value.file)
    decreases |CANDIDATES| - i
  {
    if i < |CANDIDATES| {
      ReadScopeFile(disk, dir, i + 1);
    }
  }

  lemma {:induction false} GatheredFiles(disk: Disk, dirs: seq<Dir>)
    requires Gather(disk, dirs).Ok?
    ensures CandidateSources(Gather(disk, dirs).value)
  {
    if dirs != [] {
      hide ReadScope, CandidateFile;
      ReadScopeFile(disk, dirs[0], 0);
      GatheredFiles(disk, dirs[1..]);
    }
  }

  lemma {:induction false} SelectedFiles(sources: seq<Source>)
    requires CandidateSources(sources)
    ensures CandidateSources(Select(sources))
  {
    if sources != [] {
      hide Cost, Total, CandidateFile;
      assert CandidateSources(sources[1..]);
      SelectedFiles(sources[1..]);
    }
  }

  lemma {:induction false} GatheredSorted(disk: Disk, dirs: seq<Dir>)
    requires Sorted(dirs) && Gather(disk, dirs).Ok?
    ensures SortedSources(Gather(disk, dirs).value)
  {
    if dirs != [] {
      hide ReadScope, DirLess;
      ReadScopeDir(disk, dirs[0], 0);
      TailIsFree(dirs);
      GatheredSorted(disk, dirs[1..]);
      var rest := Gather(disk, dirs[1..]).value;
      GatherWithin(disk, dirs[1..], Elements(dirs[1..]));
      forall i | 0 <= i < |rest|
        ensures DirLess(dirs[0], rest[i].dir)
      {
        assert rest[i].dir in Elements(dirs[1..]);
        var j :| 0 <= j < |dirs| - 1 && dirs[1..][j] == rest[i].dir;
        assert dirs[j + 1] == rest[i].dir;
      }
    }
  }

  lemma {:induction false} SelectedAreSources(sources: seq<Source>)
    ensures forall i | 0 <= i < |Select(sources)| :: Select(sources)[i] in sources
  {
    if sources != [] {
      hide Cost, Total;
      SelectedAreSources(sources[1..]);
      var rest := Select(sources[1..]);
      assert sources == [sources[0]] + sources[1..];
    }
  }

  lemma {:induction false} SelectedSorted(sources: seq<Source>)
    requires SortedSources(sources)
    ensures SortedSources(Select(sources))
  {
    if sources != [] {
      hide Cost, Total, DirLess, Select;
      var head, tail := sources[0], sources[1..];
      assert sources == WithHead(Some(head), tail);
      assert forall i | 0 <= i < |tail| :: tail[i] == sources[i + 1];
      SelectedSorted(tail);
      SelectStep(Some(head), tail);
      SelectedAreSources(tail);
      HeadThenSorted(head, tail, Select(tail));
    }
  }

  lemma HeadThenSorted(head: Source, tail: seq<Source>, rest: seq<Source>)
    requires (forall i | 0 <= i < |tail| :: DirLess(head.dir, tail[i].dir)) && SortedSources(rest)
    requires forall i | 0 <= i < |rest| :: rest[i] in tail
    ensures SortedSources(WithHead(Some(head), rest)) && SortedSources(WithHead(None, rest))
  {
    hide DirLess;
  }

  /** Whatever a service selects: known files, sorted, within budget. */
  lemma ComputedFacts(disk: Disk, targets: set<Scope>)
    requires Compute(disk, targets).Ok?
    ensures
      var selected := Compute(disk, targets).value;
      && CandidateSources(selected) && SortedSources(selected) && Total(selected) <= MAX_TOTAL_BYTES
      && Picks(disk, Listing(Closure(targets)), selected) && DirsWithin(selected, Closure(targets))
  {
    hide ReadScope, Cost, Total, DirLess, Gather, CandidateSources, SortedSources, Closure, Select;
    var dirs := Listing(Closure(targets));
    GatheredFiles(disk, dirs);
    SelectedFiles(Gather(disk, dirs).value);
    GatheredSorted(disk, dirs);
    SelectedSorted(Gather(disk, dirs).value);
    ComputedWithin(disk, targets);
  }

  lemma {:induction false} SameTotal(a: seq<Source>, b: seq<Source>)
    requires Shown(a) == Shown(b)
    ensures Total(a) == Total(b)
  {
    if a != [] {
      hide Display;
      assert Shown(a)[0] == ShownSource(a[0]) && Shown(b)[0] == ShownSource(b[0]);
      assert Shown(a[1..]) == Shown(a)[1..] && Shown(b[1..]) == Shown(b)[1..];
      SameTotal(a[1..], b[1..]);
    }
  }

  lemma SlashedDot(s: string)
    ensures Slashed(s) == "." <==> s == "."
  {
    if Slashed(s) == "." {
      assert Slashed(s)[0] == '.';
    }
  }

  lemma OnlyRootIsDot(dir: Dir)
    requires ValidDir(dir)
    ensures Display(dir) == "." <==> dir == []
  {
    if dir != [] {
      assert ValidName(dir[0]);
      if |dir| == 1 {
        assert Join(dir, '/') == dir[0];
        SlashedDot(dir[0]);
      } else {
        assert |Join(dir, '/')| == |dir[0]| + 1 + |Join(dir[1..], '/')| >= 2;
      }
    }
  }

  // ---------- the theorem ----------

  /** Twins that display alike show what the selection showed. */
  lemma TwinsShowAlike(selected: seq<Source>, targets: set<Scope>)
    requires ValidTargets(targets) && DirsWithin(selected, Closure(targets)) && CandidateSources(selected)
    requires forall i | 0 <= i < |selected| :: ReadsBackAlike(selected[i].dir)
    ensures Shown(Twins(selected)) == Shown(selected)
  {
    hide Display, ParseScope, Twin, Closure, ValidDir, CandidateFile;
    forall i | 0 <= i < |selected|
      ensures ShownSource(Twins(selected)[i]) == ShownSource(selected[i])
    {
      ClosureIsValid(targets, selected[i].dir);
      TwinShowsAlike(selected[i]);
    }
  }

  lemma TwinShowsAlike(source: Source)
    requires ValidDir(source.dir) && CandidateFile(source.file) && ReadsBackAlike(source.dir)
    ensures ShownSource(source.(dir := Twin(source.dir))) == ShownSource(source)
    ensures Twin(source.dir) == [] <==> source.dir == []
  {
    var twin := Twin(source.dir);
    ParsedIsValid(Display(source.dir));
    OnlyRootIsDot(source.dir);
    OnlyRootIsDot(twin);
    hide ParseScope, Twin;
    PathOfFile(source.dir, source.file);
    PathOfFile(twin, source.file);
  }

  lemma ComesBackSuffices(disk: Disk, targets: set<Scope>, selected: seq<Source>)
    requires ValidTargets(targets) && Compute(disk, targets) == Ok(selected) && ComesBack(disk, selected)
    ensures Restored(disk, Header(selected)) == Ok(Twins(selected)) && Shown(Twins(selected)) == Shown(selected)
  {
    ComputedFacts(disk, targets);
    ComputedWithin(disk, targets);
    TwinsShowAlike(selected, targets);
    SameTotal(Twins(selected), selected);
    SameTargets(selected);
    hide ReadScope, Cost, Total, DirLess, Gather, CandidateSources, SortedSources, Closure, Select, Display, ParseScope,
      Decided, Safe, Compute, Twin, Shown, Picks;
    assert Restorable(Header(selected));
    RestoredTargetsAreValid(Header(selected));
    TwinsInClosure(selected);
    var dirs := Listing(Closure(RestoredTargetsOf(selected)));
    forall i | 0 <= i < |dirs|
      ensures Decided(disk, dirs[i], Twins(selected))
    {
      assert dirs[i] in Elements(dirs);
    }
    PicksIff(disk, dirs, Twins(selected));
    PickedIsComputed(disk, RestoredTargetsOf(selected), Twins(selected));
  }

  lemma SameTargets(selected: seq<Source>)
    ensures Restorable(Header(selected)) ==> RestoredTargets(Header(selected)) == RestoredTargetsOf(selected)
  {
    hide ParseScope, Display, Safe;
    assert forall i | 0 <= i < |selected| :: Header(selected)[i].value == Display(selected[i].dir);
  }

  lemma TwinsInClosure(selected: seq<Source>)
    ensures HaveDirs(Twins(selected), Listing(Closure(RestoredTargetsOf(selected))))
  {
    hide Closure, Elements, ParseScope, Display;
    forall i | 0 <= i < |selected|
      ensures Twins(selected)[i].dir in Elements(Listing(Closure(RestoredTargetsOf(selected))))
    {
      assert ParseScope(Display(selected[i].dir)) in RestoredTargetsOf(selected);
      ClosureHolds(RestoredTargetsOf(selected), ParseScope(Display(selected[i].dir)));
    }
  }

  lemma PickedIsComputed(disk: Disk, targets: set<Scope>, winners: seq<Source>)
    requires ValidTargets(targets) && |Closure(targets)| <= MAX_DISCOVERED_DIRECTORIES
    ensures Picks(disk, Listing(Closure(targets)), winners) <==> Compute(disk, targets) == Ok(winners)
  {
    hide Gather, Select, Closure, Names, ValidDir;
  }

  lemma ComesBackIsNeeded(disk: Disk, targets: set<Scope>, selected: seq<Source>, again: seq<Source>)
    requires ValidTargets(targets) && Compute(disk, targets) == Ok(selected)
    requires Restored(disk, Header(selected)) == Ok(again) && Shown(again) == Shown(selected)
    ensures ComesBack(disk, selected)
  {
    SameTargets(selected);
    ComputedFacts(disk, targets);
    ComputedFacts(disk, RestoredTargetsOf(selected));
    RestoredTargetsAreValid(Header(selected));
    AgainIsTwins(selected, again, targets);
    hide ReadScope, Cost, Total, DirLess, Gather, CandidateSources, SortedSources, Select, Display, Closure, Safe,
      Decided, Picks, Shown, Compute, ParseScope, Twin;
    AllAreDecided(disk, selected, again);
    ScopesAreSafe(selected);
  }

  lemma ScopesAreSafe(selected: seq<Source>)
    requires Restorable(Header(selected))
    ensures forall i | 0 <= i < |selected| :: Safe(ParseScope(Display(selected[i].dir)))
  {
    hide Safe, ParseScope, Display;
    assert forall i | 0 <= i < |selected| :: Header(selected)[i].value == Display(selected[i].dir);
  }

  lemma AllAreDecided(disk: Disk, selected: seq<Source>, again: seq<Source>)
    requires again == Twins(selected) && SortedSources(again) && Total(again) <= MAX_TOTAL_BYTES
    requires Picks(disk, Listing(Closure(RestoredTargetsOf(selected))), again)
    ensures forall d | d in Closure(RestoredTargetsOf(selected)) :: Decided(disk, d, Twins(selected))
  {
    hide Total, SortedSources, Closure, RestoredTargetsOf, Decided, Picks;
    TwinsInClosure(selected);
    var dirs := Listing(Closure(RestoredTargetsOf(selected)));
    PicksIff(disk, dirs, again);
    forall d | d in Closure(RestoredTargetsOf(selected))
      ensures Decided(disk, d, Twins(selected))
    {
      assert d in Elements(dirs);
      var i :| 0 <= i < |dirs| && dirs[i] == d;
    }
  }

  /** What shows the same and has no backslashes is the list of twins. */
  lemma AgainIsTwins(selected: seq<Source>, again: seq<Source>, targets: set<Scope>)
    requires ValidTargets(targets) && DirsWithin(selected, Closure(targets)) && CandidateSources(selected)
    requires Restorable(Header(selected)) && ValidTargets(RestoredTargets(Header(selected)))
    requires DirsWithin(again, Closure(RestoredTargets(Header(selected)))) && CandidateSources(again)
    requires Shown(again) == Shown(selected)
    ensures again == Twins(selected)
    ensures forall i | 0 <= i < |selected| :: Display(Twin(selected[i].dir)) == Display(selected[i].dir)
  {
    hide Closure, Display, Twin, ParseScope, Safe, ValidDir, NoBackslash, CandidateFile, RestoredTargets;
    var t := RestoredTargets(Header(selected));
    assert |again| == |Shown(again)| == |selected|;
    forall i | 0 <= i < |selected|
      ensures again[i] == Twins(selected)[i] && Display(Twin(selected[i].dir)) == Display(selected[i].dir)
    {
      assert Shown(again)[i] == ShownSource(again[i]) && Shown(selected)[i] == ShownSource(selected[i]);
      ClosureIsValid(t, again[i].dir);
      ClosureIsValid(targets, selected[i].dir);
      forall u | u in t
        ensures NoBackslash(Names(u))
      {
        TargetHasNoBackslash(selected, u);
      }
      ClosureHasNoBackslash(t, again[i].dir);
      OneTwin(again[i], selected[i]);
    }
  }

  lemma OneTwin(again: Source, was: Source)
    requires ValidDir(again.dir) && NoBackslash(again.dir) && ValidDir(was.dir)
    requires CandidateFile(again.file) && CandidateFile(was.file) && ShownSource(again) == ShownSource(was)
    ensures again == was.(dir := Twin(was.dir)) && Display(Twin(was.dir)) == Display(was.dir)
  {
    DisplayTells(again.dir, was.dir);
    OnlyRootIsDot(was.dir);
    OnlyRootIsDot(again.dir);
    hide Display, Twin;
    SameFile(again.dir, was.dir, again.file, was.file);
  }

  /**
    With the files unchanged, restoring from a snapshot's own scopes shows the
    same snapshot exactly when the directories its scopes name bear it out.
  */
  lemma RestoreShowsTheSameIff(disk: Disk, targets: set<Scope>)
    requires ValidTargets(targets) && Compute(disk, targets).Ok?
    ensures
      var selected := Compute(disk, targets).value;
      var restored := Restored(disk, Header(selected));
      restored.Ok? && Shown(restored.value) == Shown(selected) <==> ComesBack(disk, selected)
  {
    hide Compute, Restored, Shown, ComesBack;
    var selected := Compute(disk, targets).value;
    var restored := Restored(disk, Header(selected));
    if ComesBack(disk, selected) {
      ComesBackSuffices(disk, targets, selected);
    }
    if restored.Ok? && Shown(restored.value) == Shown(selected) {
      ComesBackIsNeeded(disk, targets, selected, restored.value);
    }
  }

  /** In particular it comes back whenever no selected directory has a backslash in a name. */
  lemma NoBackslashComesBack(disk: Disk, targets: set<Scope>)
    requires ValidTargets(targets) && Compute(disk, targets).Ok?
    requires forall i | 0 <= i < |Compute(disk, targets).value| :: NoBackslash(Compute(disk, targets).value[i].dir)
    ensures ComesBack(disk, Compute(disk, targets).value)
  {
    hide Compute, Restored, Shown, ComesBack, NoBackslash;
    RestoreKeepsSelectionIff(disk, targets);
    RestoreShowsTheSameIff(disk, targets);
  }

  // ---------- the condition is real ----------

  /** A disk where the given directories hold the same short AGENTS.md and nothing else exists. */
  function ShortFiles(homes: set<Dir>): Disk {
    (dir, file) => if dir in homes && file == "AGENTS.md" then Contents(Encode("x")) else Missing
  }

  const SLANTED: Dir := ["a\\b"]
  const PLAIN: Dir := ["a", "b"]

  lemma SlantedShowsPlain()
    ensures Display(SLANTED) == Display(PLAIN) && Twin(SLANTED) == PLAIN && ReadsBackAlike(SLANTED)
    ensures ValidDir(PLAIN) && NoBackslash(PLAIN)
  {
    assert Join(["b"], '/') == "b" && PLAIN[1..] == ["b"];
    assert Join(PLAIN, '/') == "a" + ['/'] + "b";
    assert Slashed("a\\b") == "a/b" == Slashed(Join(PLAIN, '/'));
    DisplayReadsBack(PLAIN);
  }

  const SLANTED_SOURCES: seq<Source> := [Source(SLANTED, "AGENTS.md", "x")]
  const PLAIN_SOURCES: seq<Source> := [Source(PLAIN, "AGENTS.md", "x")]
  const SLANTED_TARGETS: set<Scope> := {[], [Normal("a\\b")]}

  lemma SlantedIsSelected(homes: set<Dir>)
    requires SLANTED in homes && [] !in homes
    ensures ValidTargets(SLANTED_TARGETS) && Compute(ShortFiles(homes), SLANTED_TARGETS) == Ok(SLANTED_SOURCES)
  {
    TwoDirectories(SLANTED, [Normal("a\\b")]);
    OneSource(ShortFiles(homes), SLANTED, Source(SLANTED, "AGENTS.md", "x"));
  }

  lemma PlainInClosure()
    ensures PLAIN in Closure(RestoredTargetsOf(SLANTED_SOURCES))
  {
    SlantedShowsPlain();
    hide Display, ParseScope, Names;
    assert ParseScope(Display(SLANTED_SOURCES[0].dir)) in RestoredTargetsOf(SLANTED_SOURCES);
    ClosureHolds(RestoredTargetsOf(SLANTED_SOURCES), ParseScope(Display(SLANTED)));
  }

  /** `a\\b` alone: its scope reads back as `a/b`, which holds nothing, and the snapshot is lost. */
  lemma SlantedScopeIsLost()
    ensures
      var disk := ShortFiles({SLANTED});
      && Compute(disk, SLANTED_TARGETS) == Ok(SLANTED_SOURCES)
      && forall again :: Restored(disk, Header(SLANTED_SOURCES)) == Ok(again) ==> Shown(again) != Shown(SLANTED_SOURCES)
  {
    SlantedIsSelected({SLANTED});
    SlantedIsNotBack();
    hide Compute, Restored, Shown, ComesBack, ValidTargets, Header;
    RestoreShowsTheSameIff(ShortFiles({SLANTED}), SLANTED_TARGETS);
  }

  lemma SlantedIsNotBack()
    ensures !ComesBack(ShortFiles({SLANTED}), SLANTED_SOURCES)
  {
    var disk := ShortFiles({SLANTED});
    SlantedShowsPlain();
    PlainInClosure();
    NothingThere(disk, PLAIN);
    hide ReadScope, ComesBack, Display, Twin, Closure, ReadsBackAlike, RestoredTargetsOf;
    LostTwin(disk, SLANTED_SOURCES, 0);
  }

  /** A scope whose directory holds nothing any more is not restored. */
  lemma LostTwin(disk: Disk, selected: seq<Source>, i: nat)
    requires i < |selected| && ReadScope(disk, Twin(selected[i].dir), 0) == Ok(None)
    requires Twin(selected[i].dir) in Closure(RestoredTargetsOf(selected))
    ensures !ComesBack(disk, selected)
  {
    hide ReadScope, Closure, Twin, ReadsBackAlike, SortedSources, RestoredTargetsOf;
    assert Twins(selected)[i].dir == Twin(selected[i].dir);
    assert !Decided(disk, Twin(selected[i].dir), Twins(selected));
  }

  lemma NothingThere(disk: Disk, dir: Dir)
    requires forall file :: disk(dir, file) == Missing
    ensures ReadScope(disk, dir, 0) == Ok(None)
  {
    assert ReadScope(disk, dir, 2) == Ok(None);
    assert ReadScope(disk, dir, 1) == Ok(None);
  }

  /** With the same file in `a/b` the same scope brings the same snapshot back, from another directory. */
  lemma SlantedScopeComesBack()
    ensures
      var disk := ShortFiles({SLANTED, PLAIN});
      && Compute(disk, SLANTED_TARGETS) == Ok(SLANTED_SOURCES)
      && Restored(disk, Header(SLANTED_SOURCES)) == Ok(PLAIN_SOURCES) && Shown(PLAIN_SOURCES) == Shown(SLANTED_SOURCES)
  {
    var disk := ShortFiles({SLANTED, PLAIN});
    SlantedIsSelected({SLANTED, PLAIN});
    SlantedShowsPlain();
    TwinsArePlain();
    PlainComesBack();
    hide Compute, Restored, Shown, ComesBack;
    ComesBackSuffices(disk, SLANTED_TARGETS, SLANTED_SOURCES);
  }

  lemma TwinsArePlain()
    ensures Twins(SLANTED_SOURCES) == PLAIN_SOURCES
  {
    SlantedShowsPlain();
    hide Twin;
    assert Twins(SLANTED_SOURCES)[0] == PLAIN_SOURCES[0];
  }

  lemma PlainComesBack()
    ensures ComesBack(ShortFiles({SLANTED, PLAIN}), SLANTED_SOURCES)
  {
    var disk := ShortFiles({SLANTED, PLAIN});
    SlantedShowsPlain();
    TwinsArePlain();
    PlainClosure();
    EmptyIsDecided(disk, [], PLAIN_SOURCES);
    EmptyIsDecided(disk, ["a"], PLAIN_SOURCES);
    PlainReads(disk);
    PresentIsDecided(disk, PLAIN_SOURCES);
    OneComesBack(disk, SLANTED_SOURCES, PLAIN_SOURCES, [], ["a"]);
  }

  lemma PresentIsDecided(disk: Disk, winners: seq<Source>)
    requires |winners| == 1 && ReadScope(disk, winners[0].dir, 0) == Ok(Some(winners[0]))
    ensures Decided(disk, winners[0].dir, winners)
  {
    hide ReadScope;
  }

  lemma OneComesBack(disk: Disk, selected: seq<Source>, twins: seq<Source>, a: Dir, b: Dir)
    requires |selected| == 1 && ReadsBackAlike(selected[0].dir) && Twins(selected) == twins
    requires Closure(RestoredTargetsOf(selected)) == {a, b, twins[0].dir} && |{a, b, twins[0].dir}| <= 3
    requires Decided(disk, a, twins) && Decided(disk, b, twins) && Decided(disk, twins[0].dir, twins)
    ensures ComesBack(disk, selected)
  {
    hide ReadsBackAlike, Decided, Closure, Twins, RestoredTargetsOf;
  }

  lemma EmptyIsDecided(disk: Disk, dir: Dir, winners: seq<Source>)
    requires (forall file :: disk(dir, file) == Missing) && forall i | 0 <= i < |winners| :: winners[i].dir != dir
    ensures Decided(disk, dir, winners)
  {
    NothingThere(disk, dir);
  }

  lemma PlainReads(disk: Disk)
    requires disk == ShortFiles({SLANTED, PLAIN})
    ensures ReadScope(disk, PLAIN, 0) == Ok(Some(Source(PLAIN, "AGENTS.md", "x")))
  {
    hide DecodeLimited, Encode, ByteLen;
    TextFilesDecode("x");
    ShortText("x");
    TrimFixed("x");
  }

  lemma PlainClosure()
    ensures Closure(RestoredTargetsOf(SLANTED_SOURCES)) == {[], ["a"], PLAIN}
    ensures |Closure(RestoredTargetsOf(SLANTED_SOURCES))| <= 3
  {
    var targets, all := RestoredTargetsOf(SLANTED_SOURCES), {[], ["a"], PLAIN};
    PlainPrefixes();
    RootFacts(targets);
    SlantedShowsPlain();
    hide Display, ParseScope, Names, Prefixes;
    var scope := ParseScope(Display(SLANTED));
    assert Names(scope) == PLAIN;
    assert scope in targets by { assert ParseScope(Display(SLANTED_SOURCES[0].dir)) == scope; }
    ClosureHolds(targets, scope);
    forall t | t in targets
      ensures Prefixes(Names(t)) <= all
    {
    }
    ClosureIsLeast(targets, all);
    ThreeAtMost([], ["a"], PLAIN);
  }

  lemma PlainPrefixes()
    ensures Prefixes(PLAIN) == {[], ["a"], PLAIN}
  {
    assert PLAIN[..0] == [] && PLAIN[..1] == ["a"] && PLAIN[..2] == PLAIN;
  }

  lemma ThreeAtMost(a: Dir, b: Dir, c: Dir)
    ensures |{a, b, c}| <= 3
  {
    assert {a, b, c} == {a} + {b} + {c};
  }
}
