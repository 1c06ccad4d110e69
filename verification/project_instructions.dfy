/**
  Instruction discovery of src/project_instructions.rs: every ancestor of the
  tracked scopes is read, the most specific sources win the byte budget, and the
  scopes written to a session header bring the same selection back.
*/
module ProjectInstructions {
  import opened Wrappers
  import opened Text
  import opened Utf8
  import opened Sets
  import opened InstructionPaths

  const MAX_TOTAL_BYTES := 131072
  const MAX_TRACKED_SCOPES := 1024
  const MAX_DISCOVERED_DIRECTORIES := 4096
  const MAX_SOURCE_BYTES := 65536
  const CANDIDATES: seq<string> := ["AGENTS.md", "CLAUDE.md"]

  /** A tracked scope, as the components of its path. */
  type Scope = seq<Component>

  /** What opening one candidate file gives. */
  datatype FileRead = Missing | Contents(file: bytes) | Unreadable(reason: string)

  type Disk = (Dir, string) -> FileRead

  datatype Source = Source(dir: Dir, file: string, text: string)

  // ---------- the text form of a path ----------

  /** Every backslash reads as a slash afterwards. */
  function Slashed(s: string): (r: string)
    ensures |r| == |s| && forall i | 0 <= i < |s| :: r[i] == if s[i] == '\\' then '/' else s[i]
  {
    seq(|s|, i requires 0 <= i < |s| => if s[i] == '\\' then '/' else s[i])
  }

  function Display(dir: Dir): string {
    if dir == [] then "." else Slashed(Join(dir, '/'))
  }

  /** Components after the first: empty and `.` parts vanish. */
  function Steps(parts: seq<string>): Scope {
    if parts == [] then []
    else (if parts[0] == "" || parts[0] == "." then []
          else if parts[0] == ".." then [Unsafe] else [Normal(parts[0])]) + Steps(parts[1..])
  }

  /** `Path::components`: a leading slash is a root, a leading `.` is kept. */
  function Components(text: string): Scope {
    var parts := Split(text, '/');
    if parts[0] == "" then (if text == "" then [] else [Unsafe] + Steps(parts[1..]))
    else if parts[0] == "." then [CurDir] + Steps(parts[1..])
    else Steps(parts)
  }

  predicate Safe(scope: Scope) {
    forall i | 0 <= i < |scope| :: !scope[i].Unsafe?
  }

  function Names(scope: Scope): Dir {
    if scope == [] then []
    else (if scope[0].Normal? then [scope[0].name] else []) + Names(scope[1..])
  }

  predicate NoBackslash(dir: Dir) {
    forall i | 0 <= i < |dir| :: Free(dir[i], '\\')
  }

  // ---------- ancestors ----------

  function Prefixes(dir: Dir): set<Dir> {
    set k | 0 <= k <= |dir| :: dir[..k]
  }

  function Closure(targets: set<Scope>): set<Dir> {
    {[]} + set t, d | t in targets && d in Prefixes(Names(t)) :: d
  }

  ghost function AncestorDirectories(targets: set<Scope>): Result<seq<Dir>, string> {
    if (exists t :: t in targets && !Safe(t)) || |Closure(targets)| > MAX_DISCOVERED_DIRECTORIES then
      Err("unsafe scope or too many directories")
    else Ok(Listing(Closure(targets)))
  }

  // ---------- sources ----------

  const TRUNCATION_MARK := "\n\n(truncated at 64 KiB)"

  /** A long file is cut at 64 KiB, and a character cut in half is dropped. */
  function DecodeLimited(file: bytes): Result<string, string> {
    if |file| <= MAX_SOURCE_BYTES then
      var d := Decode(file);
      if d.end.Complete? then Ok(d.text) else Err("not valid UTF-8")
    else
      var d := Decode(file[..MAX_SOURCE_BYTES]);
      if d.end.Invalid? then Err("not valid UTF-8") else Ok(d.text + TRUNCATION_MARK)
  }

  /** No text file is refused, wherever the cut falls, and what fits is kept whole. */
  lemma TextFilesDecode(s: string)
    ensures DecodeLimited(Encode(s)) ==
            Ok(if ByteLen(s) <= MAX_SOURCE_BYTES then s else TruncateUtf8(s, MAX_SOURCE_BYTES) + TRUNCATION_MARK)
  {
    hide Decode, Encode;
    EncodeLength(s);
    if ByteLen(s) <= MAX_SOURCE_BYTES {
      DecodeOfEncode(s);
    } else {
      DecodeOfPrefix(s, MAX_SOURCE_BYTES);
    }
  }

  /** A file that is short enough is accepted exactly when it is text. */
  lemma ShortFileAcceptedIff(file: bytes)
    requires |file| <= MAX_SOURCE_BYTES
    ensures DecodeLimited(file).Ok? <==> exists s :: file == Encode(s)
  {
    CompleteIff(file);
  }

  /** The first existing candidate wins, and a blank one means no source. */
  function ReadScope(disk: Disk, dir: Dir, i: nat): Result<Option<Source>, string>
    requires i <= |CANDIDATES|
    decreases |CANDIDATES| - i
  {
    if i == |CANDIDATES| then Ok(None)
    else match disk(dir, CANDIDATES[i])
      case Missing => ReadScope(disk, dir, i + 1)
      case Unreadable(reason) => Err(reason)
      case Contents(file) =>
        match DecodeLimited(file)
        case Err(e) => Err(e)
        case Ok(text) => Ok(if Trim(text) == "" then None else Some(Source(dir, CANDIDATES[i], text)))
  }

  function Gather(disk: Disk, dirs: seq<Dir>): Result<seq<Source>, string> {
    if dirs == [] then Ok([])
    else match ReadScope(disk, dirs[0], 0)
      case Err(e) => Err(e)
      case Ok(found) =>
        match Gather(disk, dirs[1..])
        case Err(e) => Err(e)
        case Ok(rest) => Ok(WithHead(found, rest))
  }

  function WithHead(found: Option<Source>, rest: seq<Source>): seq<Source> {
    if found.Some? then [found.value] + rest else rest
  }

  function Cost(source: Source): (n: nat)
    ensures n >= 256
  {
    ByteLen(source.text) + ByteLen(Display(source.dir + [source.file])) + ByteLen(Display(source.dir)) + 256
  }

  function Total(sources: seq<Source>): nat {
    if sources == [] then 0 else Cost(sources[0]) + Total(sources[1..])
  }

  /** Budget spent from the most specific end; what does not fit is skipped. */
  function Select(sources: seq<Source>): (r: seq<Source>)
    ensures Total(r) <= MAX_TOTAL_BYTES
  {
    if sources == [] then []
    else
      var rest := Select(sources[1..]);
      if Cost(sources[0]) + Total(rest) > MAX_TOTAL_BYTES then rest else
        assert ([sources[0]] + rest)[1..] == rest;
        [sources[0]] + rest
  }

  ghost function Compute(disk: Disk, targets: set<Scope>): Result<seq<Source>, string> {
    match AncestorDirectories(targets)
    case Err(e) => Err(e)
    case Ok(dirs) =>
      match Gather(disk, dirs)
      case Err(e) => Err(e)
      case Ok(sources) => Ok(Select(sources))
  }

  /** There is no snapshot without a source. */
  function Snapshot(selected: seq<Source>): (r: Option<seq<Source>>)
    ensures r.Some? <==> |selected| > 0
    ensures r.Some? ==> r.value == selected
  {
    if selected == [] then None else Some(selected)
  }

  // ---------- save and restore ----------

  /** The scope texts a snapshot leaves in a session header. */
  function Header(selected: seq<Source>): (r: seq<Option<string>>)
    ensures |r| == |selected| && forall i | 0 <= i < |r| :: r[i] == Some(Display(selected[i].dir))
  {
    seq(|selected|, i requires 0 <= i < |selected| => Some(Display(selected[i].dir)))
  }

  function ParseScope(text: string): Scope {
    if text == "." then [] else Components(text)
  }

  predicate Restorable(header: seq<Option<string>>) {
    |header| <= MAX_TRACKED_SCOPES && forall i | 0 <= i < |header| :: header[i].Some? && Safe(ParseScope(header[i].value))
  }

  function RestoredTargets(header: seq<Option<string>>): set<Scope>
    requires Restorable(header)
  {
    {[]} + set i | 0 <= i < |header| :: ParseScope(header[i].value)
  }

  ghost function Restored(disk: Disk, header: seq<Option<string>>): Result<seq<Source>, string> {
    if Restorable(header) then Compute(disk, RestoredTargets(header)) else Err("stored scopes refused")
  }

  // ---------- paths come back ----------

  lemma {:induction false} StepsOfNames(dir: Dir)
    requires ValidDir(dir)
    ensures Safe(Steps(dir)) && Names(Steps(dir)) == dir
  {
    if dir != [] {
      assert ValidName(dir[0]) && ValidDir(dir[1..]);
      StepsOfNames(dir[1..]);
      assert Steps(dir) == [Normal(dir[0])] + Steps(dir[1..]);
      assert Steps(dir)[1..] == Steps(dir[1..]);
    }
  }

  lemma {:induction false} JoinAt(dir: Dir, k: nat)
    requires dir != [] && k < |Join(dir, '/')| && NoBackslash(dir)
    ensures Join(dir, '/')[k] != '\\'
  {
    assert Free(dir[0], '\\');
    if |dir| > 1 && k > |dir[0]| {
      assert NoBackslash(dir[1..]);
      JoinAt(dir[1..], k - |dir[0]| - 1);
    }
  }

  lemma DisplayIsJoin(dir: Dir)
    requires dir != [] && NoBackslash(dir)
    ensures Display(dir) == Join(dir, '/')
  {
    hide Join, NoBackslash;
    forall k | 0 <= k < |Join(dir, '/')|
      ensures Join(dir, '/')[k] != '\\'
    {
      JoinAt(dir, k);
    }
  }

  /** A directory free of backslashes is read back from its own text. */
  lemma DisplayReadsBack(dir: Dir)
    requires ValidDir(dir) && NoBackslash(dir)
    ensures Safe(ParseScope(Display(dir))) && Names(ParseScope(Display(dir))) == dir
  {
    if dir != [] {
      DisplayIsJoin(dir);
      assert ValidName(dir[0]);
      forall i | 0 <= i < |dir|
        ensures Free(dir[i], '/')
      {
        assert ValidName(dir[i]);
      }
      SplitOfJoin(dir, '/');
      StepsOfNames(dir);
      assert Split(".", '/') == ["."] by {
        assert FindChar(".", '/', 0) == 1;
      }
    }
  }

  lemma {:induction false} SplitKeepsFree(s: string, c: char, other: char)
    requires Free(s, other)
    ensures forall i | 0 <= i < |Split(s, c)| :: Free(Split(s, c)[i], other)
    decreases |s|
  {
    var k := FindChar(s, c, 0);
    if k < |s| {
      SplitKeepsFree(s[k + 1..], c, other);
    }
  }

  lemma {:induction false} StepsKeepFree(parts: seq<string>)
    requires forall i | 0 <= i < |parts| :: Free(parts[i], '\\')
    ensures NoBackslash(Names(Steps(parts)))
  {
    if parts != [] {
      StepsKeepFree(parts[1..]);
      var rest := Steps(parts[1..]);
      if parts[0] == "" || parts[0] == "." {
        assert Steps(parts) == rest;
      } else {
        assert Steps(parts)[1..] == rest;
      }
    }
  }

  /** Nothing read back from a displayed directory holds a backslash. */
  lemma DisplayLosesBackslashes(dir: Dir)
    ensures NoBackslash(Names(ParseScope(Display(dir))))
  {
    var text := Display(dir);
    assert Free(text, '\\');
    SplitKeepsFree(text, '/', '\\');
    var parts := Split(text, '/');
    StepsKeepFree(parts);
    StepsKeepFree(parts[1..]);
    assert ([CurDir] + Steps(parts[1..]))[1..] == Steps(parts[1..]);
    assert ([Unsafe] + Steps(parts[1..]))[1..] == Steps(parts[1..]);
  }

  // ---------- the greedy choice is stable ----------

  predicate SelectedWithin(selected: seq<Source>, kept: set<Dir>) {
    forall i | 0 <= i < |selected| :: selected[i].dir in kept
  }

  lemma ReadScopeDir(disk: Disk, dir: Dir, i: nat)
    requires i <= |CANDIDATES|
    ensures
      var r := ReadScope(disk, dir, i);
      r.Ok? && r.value.Some? ==> r.value.value.dir == dir
    decreases |CANDIDATES| - i
  {
    if i < |CANDIDATES| {
      ReadScopeDir(disk, dir, i + 1);
    }
  }

  /**
    Dropping directories whose sources lost, or keeping any of them, never
    changes which sources win.
  */
  lemma {:induction false} GreedyStable(disk: Disk, dirs: seq<Dir>, kept: set<Dir>)
    requires Gather(disk, dirs).Ok? && SelectedWithin(Select(Gather(disk, dirs).value), kept)
    ensures Gather(disk, Keep(dirs, kept)).Ok?
    ensures Select(Gather(disk, Keep(dirs, kept)).value) == Select(Gather(disk, dirs).value)
  {
    if dirs != [] {
      hide ReadScope, Cost, Total, WithHead, SelectedWithin, Select;
      ReadScopeDir(disk, dirs[0], 0);
      var found, rest := ReadScope(disk, dirs[0], 0).value, Gather(disk, dirs[1..]).value;
      var winner := if found.Some? && Cost(found.value) + Total(Select(rest)) <= MAX_TOTAL_BYTES then found else None;
      SelectStep(found, rest);
      WithinTail(winner, Select(rest), kept);
      GreedyStable(disk, dirs[1..], kept);
      GatherKept(disk, dirs, kept);
      SelectStep(if dirs[0] in kept then found else None, Gather(disk, Keep(dirs[1..], kept)).value);
    }
  }

  /** Whether the head wins depends only on what won behind it. */
  lemma SelectStep(found: Option<Source>, rest: seq<Source>)
    ensures Select(WithHead(found, rest)) ==
            WithHead(if found.Some? && Cost(found.value) + Total(Select(rest)) <= MAX_TOTAL_BYTES then found else None,
                     Select(rest))
  {
    hide Cost, Total;
    if found.Some? {
      assert WithHead(found, rest)[0] == found.value;
      assert WithHead(found, rest)[1..] == rest;
    }
  }

  lemma WithinTail(found: Option<Source>, rest: seq<Source>, kept: set<Dir>)
    requires SelectedWithin(WithHead(found, rest), kept)
    ensures SelectedWithin(rest, kept) && (found.Some? ==> found.value.dir in kept)
  {
    var n := |WithHead(found, rest)| - |rest|;
    assert forall i | 0 <= i < |rest| :: rest[i] == WithHead(found, rest)[i + n];
    assert found.Some? ==> WithHead(found, rest)[0] == found.value;
  }

  lemma GatherKept(disk: Disk, dirs: seq<Dir>, kept: set<Dir>)
    requires dirs != [] && ReadScope(disk, dirs[0], 0).Ok? && Gather(disk, Keep(dirs[1..], kept)).Ok?
    ensures
      var found := ReadScope(disk, dirs[0], 0).value;
      Gather(disk, Keep(dirs, kept)) ==
      Ok(WithHead(if dirs[0] in kept then found else None, Gather(disk, Keep(dirs[1..], kept)).value))
  {
    hide ReadScope;
    var rest := Keep(dirs[1..], kept);
    assert ([dirs[0]] + rest)[0] == dirs[0] && ([dirs[0]] + rest)[1..] == rest;
  }

  // ---------- restoring a snapshot ----------

  /** Scopes as the service tracks them: no unsafe component, valid names. */
  predicate ValidTargets(targets: set<Scope>) {
    [] in targets && forall t | t in targets :: Safe(t) && ValidDir(Names(t))
  }

  predicate DirsWithin(sources: seq<Source>, dirs: set<Dir>) {
    forall i | 0 <= i < |sources| :: sources[i].dir in dirs
  }

  lemma {:induction false} GatherWithin(disk: Disk, dirs: seq<Dir>, all: set<Dir>)
    requires Gather(disk, dirs).Ok? && Elements(dirs) <= all
    ensures DirsWithin(Gather(disk, dirs).value, all)
  {
    if dirs != [] {
      hide ReadScope;
      ReadScopeDir(disk, dirs[0], 0);
      assert dirs[0] in Elements(dirs);
      assert Elements(dirs[1..]) <= Elements(dirs);
      GatherWithin(disk, dirs[1..], all);
    }
  }

  lemma {:induction false} SelectWithin(sources: seq<Source>, all: set<Dir>)
    requires DirsWithin(sources, all)
    ensures DirsWithin(Select(sources), all)
  {
    if sources != [] {
      hide Cost, Total;
      assert DirsWithin(sources[1..], all);
      SelectWithin(sources[1..], all);
    }
  }

  lemma {:induction false} TotalAtLeast(sources: seq<Source>)
    ensures 256 * |sources| <= Total(sources)
  {
    if sources != [] {
      TotalAtLeast(sources[1..]);
    }
  }

  /** No snapshot holds more than 512 sources, so its header is never too long. */
  lemma SelectionIsSmall(sources: seq<Source>)
    ensures |Select(sources)| <= 512 < MAX_TRACKED_SCOPES
    ensures |Header(Select(sources))| <= MAX_TRACKED_SCOPES
  {
    TotalAtLeast(Select(sources));
  }

  lemma ClosureHolds(targets: set<Scope>, t: Scope)
    requires t in targets
    ensures Prefixes(Names(t)) <= Closure(targets) && Names(t) in Closure(targets)
  {
    assert Names(t)[..|Names(t)|] == Names(t);
  }

  lemma ClosureIsClosed(targets: set<Scope>, dir: Dir)
    requires dir in Closure(targets)
    ensures Prefixes(dir) <= Closure(targets)
  {
    if dir != [] {
      var t, k :| t in targets && 0 <= k <= |Names(t)| && dir == Names(t)[..k];
      assert forall j | 0 <= j <= k :: dir[..j] == Names(t)[..j];
      ClosureHolds(targets, t);
    }
  }

  lemma ClosureIsValid(targets: set<Scope>, dir: Dir)
    requires ValidTargets(targets) && dir in Closure(targets)
    ensures ValidDir(dir)
  {
    if dir != [] {
      var t, k :| t in targets && 0 <= k <= |Names(t)| && dir == Names(t)[..k];
      assert ValidDir(Names(t));
      assert forall i | 0 <= i < k :: dir[i] == Names(t)[i];
    }
  }

  lemma ClosureIsLeast(targets: set<Scope>, all: set<Dir>)
    requires [] in all && forall t | t in targets :: Prefixes(Names(t)) <= all
    ensures Closure(targets) <= all
  {
  }

  lemma RootFacts(targets: set<Scope>)
    ensures [] in Closure(targets) && Prefixes([]) == {[]} && Names([]) == [] && Safe([])
  {
    var root: Dir := [];
    assert root[..0] == root;
  }

  /** What Compute returns was picked from the closure. */
  lemma ComputedWithin(disk: Disk, targets: set<Scope>)
    requires Compute(disk, targets).Ok?
    ensures DirsWithin(Compute(disk, targets).value, Closure(targets))
    ensures Restorable(Header(Compute(disk, targets).value)) <==>
            forall i | 0 <= i < |Compute(disk, targets).value| ::
              Safe(ParseScope(Display(Compute(disk, targets).value[i].dir)))
  {
    hide Gather, Select, Closure, Elements, Display, ParseScope, Safe, DirsWithin;
    var dirs := Listing(Closure(targets));
    GatherWithin(disk, dirs, Closure(targets));
    SelectWithin(Gather(disk, dirs).value, Closure(targets));
    SelectionIsSmall(Gather(disk, dirs).value);
  }

  /** The restored closure lies between the selected directories and the old one. */
  lemma RestoredClosure(selected: seq<Source>, targets: set<Scope>)
    requires ValidTargets(targets) && DirsWithin(selected, Closure(targets)) && Restorable(Header(selected))
    requires forall i | 0 <= i < |selected| :: NoBackslash(selected[i].dir)
    ensures
      var again := RestoredTargets(Header(selected));
      && SelectedWithin(selected, Closure(again)) && Closure(again) <= Closure(targets)
      && forall t | t in again :: Safe(t)
  {
    hide Closure, Display, ParseScope, Safe, ValidDir, NoBackslash;
    var header := Header(selected);
    var again := RestoredTargets(header);
    forall i | 0 <= i < |selected|
      ensures selected[i].dir in Closure(again)
      ensures Prefixes(Names(ParseScope(header[i].value))) <= Closure(targets)
    {
      ClosureIsValid(targets, selected[i].dir);
      DisplayReadsBack(selected[i].dir);
      assert ParseScope(header[i].value) in again;
      ClosureHolds(again, ParseScope(header[i].value));
      ClosureIsClosed(targets, selected[i].dir);
    }
    RootFacts(targets);
    ClosureIsLeast(again, Closure(targets));
  }

  /**
    With the files unchanged, restoring from the scopes a snapshot recorded
    gives the same selection, exactly when no selected directory has a backslash
    in a name: its stored text turns it into another directory.
  */
  lemma RestoreKeepsSelectionIff(disk: Disk, targets: set<Scope>)
    requires ValidTargets(targets) && Compute(disk, targets).Ok?
    ensures
      var selected := Compute(disk, targets).value;
      Restored(disk, Header(selected)) == Ok(selected) <==>
      forall i | 0 <= i < |selected| :: NoBackslash(selected[i].dir)
  {
    var selected := Compute(disk, targets).value;
    if forall i | 0 <= i < |selected| :: NoBackslash(selected[i].dir) {
      RestoreKeepsSelection(disk, targets, selected);
    }
    if Restored(disk, Header(selected)) == Ok(selected) {
      RestoredHasNoBackslash(disk, selected);
    }
  }

  lemma RestoreKeepsSelection(disk: Disk, targets: set<Scope>, selected: seq<Source>)
    requires ValidTargets(targets) && Compute(disk, targets) == Ok(selected)
    requires forall i | 0 <= i < |selected| :: NoBackslash(selected[i].dir)
    ensures Restored(disk, Header(selected)) == Ok(selected)
  {
    hide Gather, Select, Closure, Elements, Display, ParseScope, Safe, ValidDir, NoBackslash, Listing, Keep,
      DirsWithin, SelectedWithin, RestoredTargets;
    ComputedWithin(disk, targets);
    assert DirsWithin(selected, Closure(targets));
    SelectedReadsBack(selected, targets);
    var again := RestoredTargets(Header(selected));
    RestoredClosure(selected, targets);
    ListingOfSubset(Closure(targets), Closure(again));
    SubsetSize(Closure(again), Closure(targets));
    GreedyStable(disk, Listing(Closure(targets)), Closure(again));
  }

  lemma SelectedReadsBack(selected: seq<Source>, targets: set<Scope>)
    requires ValidTargets(targets) && DirsWithin(selected, Closure(targets))
    requires forall i | 0 <= i < |selected| :: NoBackslash(selected[i].dir)
    ensures forall i | 0 <= i < |selected| :: Safe(ParseScope(Display(selected[i].dir)))
  {
    hide Closure, Display, ParseScope, Safe, ValidDir, NoBackslash;
    forall i | 0 <= i < |selected|
      ensures Safe(ParseScope(Display(selected[i].dir)))
    {
      ClosureIsValid(targets, selected[i].dir);
      DisplayReadsBack(selected[i].dir);
    }
  }

  lemma RestoredHasNoBackslash(disk: Disk, selected: seq<Source>)
    requires Restored(disk, Header(selected)) == Ok(selected)
    ensures forall i | 0 <= i < |selected| :: NoBackslash(selected[i].dir)
  {
    hide Gather, Select, Display, ParseScope, Safe, Closure, NoBackslash, RestoredTargets, Elements, Names;
    var again := RestoredTargets(Header(selected));
    ComputedWithin(disk, again);
    forall t | t in again
      ensures NoBackslash(Names(t))
    {
      TargetHasNoBackslash(selected, t);
    }
    forall i | 0 <= i < |selected|
      ensures NoBackslash(selected[i].dir)
    {
      ClosureHasNoBackslash(again, selected[i].dir);
    }
  }

  lemma TargetHasNoBackslash(selected: seq<Source>, t: Scope)
    requires Restorable(Header(selected)) && t in RestoredTargets(Header(selected))
    ensures NoBackslash(Names(t))
  {
    hide Display, ParseScope, Safe;
    if t != [] {
      var j :| 0 <= j < |selected| && t == ParseScope(Header(selected)[j].value);
      DisplayLosesBackslashes(selected[j].dir);
    }
  }

  lemma ClosureHasNoBackslash(targets: set<Scope>, dir: Dir)
    requires dir in Closure(targets) && forall t | t in targets :: NoBackslash(Names(t))
    ensures NoBackslash(dir)
  {
    if dir != [] {
      hide Free;
      var t, k :| t in targets && 0 <= k <= |Names(t)| && dir == Names(t)[..k];
      assert forall i | 0 <= i < k :: dir[i] == Names(t)[i];
    }
  }

  lemma TwoDirectories(home: Dir, scope: Scope)
    requires home == ["a\\b"] && scope == [Normal("a\\b")]
    ensures ValidTargets({[], scope}) && Listing(Closure({[], scope})) == [[], home]
    ensures AncestorDirectories({[], scope}) == Ok([[], home])
  {
    var none: Scope := [];
    TwoScopes(home, scope);
    TwoListed(home);
    hide Listing, Closure, Names, Elements, Sorted;
    SortedUnique(Listing({[], home}), [[], home]);
    assert |{[], home}| <= 2;
  }

  lemma TwoScopes(home: Dir, scope: Scope)
    requires home == ["a\\b"] && scope == [Normal("a\\b")]
    ensures ValidTargets({[], scope}) && Closure({[], scope}) == {[], home}
  {
    assert scope[1..] == [] && Names(scope) == home;
    assert home[..0] == [] && home[..1] == home;
    assert Prefixes(home) == {[], home};
    RootFacts({});
  }

  lemma TwoListed(home: Dir)
    requires |home| == 1
    ensures Sorted([[], home]) && Elements([[], home]) == {[], home}
  {
    ElementsOfCons([], [home]);
    ElementsOfCons(home, []);
    NoElements();
    assert [[]] + [home] == [[], home] && [home] + [] == [home];
  }

  lemma OneSource(disk: Disk, home: Dir, source: Source)
    requires home == ["a\\b"] && source == Source(home, "AGENTS.md", "x")
    requires disk(home, "AGENTS.md") == Contents(Encode("x")) && forall file :: disk([], file) == Missing
    ensures Gather(disk, [[], home]) == Ok([source]) && Select([source]) == [source]
  {
    SmallCost(source);
    hide Cost, Select, Trim, DecodeLimited, Encode, ByteLen;
    TextFilesDecode("x");
    ShortText("x");
    assert Trim("x") == "x" by { TrimFixed("x"); }
    assert ReadScope(disk, home, 0) == Ok(Some(source));
    assert ReadScope(disk, [], 1) == ReadScope(disk, [], 2) == Ok(None);
    assert [[], home][1..] == [home] && [home][1..] == [];
    assert Gather(disk, [home]) == Ok([source]);
  }

  lemma SmallCost(source: Source)
    requires source == Source(["a\\b"], "AGENTS.md", "x")
    ensures Select([source]) == [source]
  {
    hide ByteLen;
    var file := source.dir + [source.file];
    assert file[1..] == ["AGENTS.md"];
    assert |Join(file, '/')| == 13;
    ShortText(Display(file));
    ShortText(Display(source.dir));
    ShortText(source.text);
    assert [source][1..] == [];
    assert Select([]) == [] && Total([]) == 0;
  }

  lemma ShortText(s: string)
    ensures ByteLen(s) <= 4 * |s|
  {
  }

  // ---------- scopes read from a header are valid ----------

  lemma {:induction false} StepsAreValid(parts: seq<string>)
    requires forall i | 0 <= i < |parts| :: Free(parts[i], '/')
    ensures ValidDir(Names(Steps(parts)))
  {
    if parts != [] {
      StepsAreValid(parts[1..]);
      var rest := Steps(parts[1..]);
      if parts[0] == "" || parts[0] == "." {
        assert Steps(parts) == rest;
      } else {
        assert Steps(parts)[1..] == rest;
      }
    }
  }

  lemma ParsedIsValid(text: string)
    ensures ValidDir(Names(ParseScope(text)))
  {
    SplitPartsAreFree(text, '/');
    var parts := Split(text, '/');
    StepsAreValid(parts);
    StepsAreValid(parts[1..]);
    assert ([CurDir] + Steps(parts[1..]))[1..] == Steps(parts[1..]);
    assert ([Unsafe] + Steps(parts[1..]))[1..] == Steps(parts[1..]);
  }

  lemma RestoredTargetsAreValid(header: seq<Option<string>>)
    requires Restorable(header)
    ensures ValidTargets(RestoredTargets(header))
  {
    hide ParseScope, ValidDir;
    RootFacts({});
    forall t | t in RestoredTargets(header)
      ensures Safe(t) && ValidDir(Names(t))
    {
      if t != [] {
        var i :| 0 <= i < |header| && t == ParseScope(header[i].value);
        ParsedIsValid(header[i].value);
      } else {
        assert ValidDir([]) by { RootIsValid(); }
      }
    }
  }

  lemma RootIsValid()
    ensures ValidDir([])
  {
  }

  // ---------- what was left out did not fit ----------

  /** Source `k` wins exactly when it fits beside the winners more specific than it. */
  lemma {:induction false} WinsIff(sources: seq<Source>, k: nat)
    requires k < |sources|
    ensures Select(sources[k..]) ==
            if Cost(sources[k]) + Total(Select(sources[k + 1..])) <= MAX_TOTAL_BYTES
            then [sources[k]] + Select(sources[k + 1..]) else Select(sources[k + 1..])
    ensures exists i | 0 <= i <= |Select(sources)| :: Select(sources)[i..] == Select(sources[k..])
  {
    hide Cost, Total;
    var tail := sources[k..];
    assert tail[1..] == sources[k + 1..] && tail[0] == sources[k];
    if k == 0 {
      assert tail == sources;
      assert Select(sources)[0..] == Select(sources);
    } else {
      WinsIff(sources[1..], k - 1);
      assert sources[1..][k - 1..] == tail;
      var rest := Select(sources[1..]);
      var i :| 0 <= i <= |rest| && rest[i..] == Select(tail);
      if Select(sources) != rest {
        assert ([sources[0]] + rest)[i + 1..] == rest[i..];
      }
    }
  }
}
