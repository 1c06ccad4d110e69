/**
  What a snapshot of project instructions holds, told from the files: which
  directories are looked at, which file speaks for each, in what order, and how
  many bytes they may take together.
*/
module InstructionAnswers {
  import opened Wrappers
  import opened Text
  import opened Utf8
  import opened InstructionPaths
  import opened ProjectInstructions

  // ---------- which directories ----------

  /** The directory is the root or lies on the way to a tracked scope. */
  ghost predicate OnTheWay(targets: set<Scope>, dir: Dir) {
    dir == [] || exists t | t in targets :: dir <= Names(t)
  }

  lemma ClosureIff(targets: set<Scope>, dir: Dir)
    ensures dir in Closure(targets) <==> OnTheWay(targets, dir)
  {
    hide Names;
    if dir != [] && OnTheWay(targets, dir) {
      var t :| t in targets && dir <= Names(t);
      assert dir == Names(t)[..|dir|] && dir in Prefixes(Names(t));
    }
  }

  // ---------- which file ----------

  /** `AGENTS.md` when there is one, else `CLAUDE.md`. */
  function Spokesman(disk: Disk, dir: Dir): string {
    if disk(dir, "AGENTS.md") == Missing then "CLAUDE.md" else "AGENTS.md"
  }

  lemma ReadAnswers(disk: Disk, dir: Dir)
    ensures
      var file := Spokesman(disk, dir);
      ReadScope(disk, dir, 0) ==
      match disk(dir, file)
      case Missing => Ok(None)
      case Unreadable(reason) => Err(reason)
      case Contents(bytes) =>
        match DecodeLimited(bytes)
        case Err(e) => Err(e)
        case Ok(text) => Ok(if Trim(text) == "" then None else Some(Source(dir, file, text)))
  {
    hide DecodeLimited, Trim;
    assert CANDIDATES[0] == "AGENTS.md" && CANDIDATES[1] == "CLAUDE.md";
    assert ReadScope(disk, dir, 2) == Ok(None);
  }

  /** A text that is not blank, written as a file of at most 64 KiB, is what its directory says. */
  lemma TextIsRead(disk: Disk, dir: Dir, text: string)
    requires disk(dir, Spokesman(disk, dir)) == Contents(Encode(text)) && |Encode(text)| <= 65536 && Trim(text) != ""
    ensures ReadScope(disk, dir, 0) == Ok(Some(Source(dir, Spokesman(disk, dir), text)))
  {
    hide DecodeLimited, Trim, Encode, Spokesman;
    ReadAnswers(disk, dir);
    TextFilesDecode(text);
    EncodeLength(text);
  }

  // ---------- in what order ----------

  predicate InOrder(sources: seq<Source>) {
    forall i, j | 0 <= i < j < |sources| :: DirLess(sources[i].dir, sources[j].dir)
  }

  /** Nothing else is told, and every directory could be read. */
  predicate OnlyThese(disk: Disk, dirs: seq<Dir>, sources: seq<Source>) {
    && (forall i | 0 <= i < |dirs| :: ReadScope(disk, dirs[i], 0).Ok?)
    && forall s | s in sources :: s.dir in dirs && ReadScope(disk, s.dir, 0) == Ok(Some(s))
  }

  predicate AllOfThem(disk: Disk, dirs: seq<Dir>, sources: seq<Source>) {
    forall i | 0 <= i < |dirs| && ReadScope(disk, dirs[i], 0).Ok? && ReadScope(disk, dirs[i], 0).value.Some? ::
      ReadScope(disk, dirs[i], 0).value.value in sources
  }

  /** The sources of the directories that have one, as they are listed. */
  predicate Tells(disk: Disk, dirs: seq<Dir>, sources: seq<Source>) {
    InOrder(sources) && OnlyThese(disk, dirs, sources) && AllOfThem(disk, dirs, sources)
  }

  lemma {:induction false} GatherTells(disk: Disk, dirs: seq<Dir>)
    requires Sorted(dirs) && Gather(disk, dirs).Ok?
    ensures Tells(disk, dirs, Gather(disk, dirs).value)
  {
    hide ReadScope, DirLess;
    if dirs != [] {
      var rest := Gather(disk, dirs[1..]).value;
      GatherTells(disk, dirs[1..]);
      ReadScopeDir(disk, dirs[0], 0);
      var found := ReadScope(disk, dirs[0], 0).value;
      TellsMore(disk, dirs, found, rest);
    }
  }

  lemma OrderMore(disk: Disk, dirs: seq<Dir>, s: Source, rest: seq<Source>)
    requires dirs != [] && Sorted(dirs) && InOrder(rest) && OnlyThese(disk, dirs[1..], rest) && s.dir == dirs[0]
    ensures InOrder([s] + rest)
  {
    hide ReadScope, DirLess;
    forall j | 0 <= j < |rest|
      ensures DirLess(dirs[0], rest[j].dir)
    {
      assert rest[j] in rest;
      var k :| 0 <= k < |dirs[1..]| && dirs[1..][k] == rest[j].dir;
      assert dirs[k + 1] == rest[j].dir;
    }
  }

  lemma OnlyMore(disk: Disk, dirs: seq<Dir>, found: Option<Source>, rest: seq<Source>)
    requires dirs != [] && OnlyThese(disk, dirs[1..], rest) && ReadScope(disk, dirs[0], 0) == Ok(found)
    requires found.Some? ==> found.value.dir == dirs[0]
    ensures OnlyThese(disk, dirs, WithHead(found, rest))
  {
    hide ReadScope;
    assert forall i | 0 < i < |dirs| :: dirs[i] == dirs[1..][i - 1];
    assert forall d | d in dirs[1..] :: d in dirs;
  }

  lemma AllMore(disk: Disk, dirs: seq<Dir>, found: Option<Source>, rest: seq<Source>)
    requires dirs != [] && AllOfThem(disk, dirs[1..], rest) && ReadScope(disk, dirs[0], 0) == Ok(found)
    ensures AllOfThem(disk, dirs, WithHead(found, rest))
  {
    hide ReadScope;
    assert forall i | 0 < i < |dirs| :: dirs[i] == dirs[1..][i - 1];
    assert forall s | s in rest :: s in WithHead(found, rest);
  }

  lemma TellsMore(disk: Disk, dirs: seq<Dir>, found: Option<Source>, rest: seq<Source>)
    requires dirs != [] && Sorted(dirs) && Tells(disk, dirs[1..], rest) && ReadScope(disk, dirs[0], 0) == Ok(found)
    requires found.Some? ==> found.value.dir == dirs[0]
    ensures Tells(disk, dirs, WithHead(found, rest))
  {
    hide ReadScope, Sorted, InOrder, OnlyThese, AllOfThem;
    OnlyMore(disk, dirs, found, rest);
    AllMore(disk, dirs, found, rest);
    if found.Some? {
      OrderMore(disk, dirs, found.value, rest);
    }
  }

  // ---------- how much ----------

  /** What a source takes of the budget: its text, the two paths it is shown with, and 256 bytes. */
  function Need(s: Source): nat {
    |Encode(s.text)| + |Encode(Display(s.dir + [s.file]))| + |Encode(Display(s.dir))| + 256
  }

  function Needed(sources: seq<Source>): nat {
    if sources == [] then 0 else Need(sources[0]) + Needed(sources[1..])
  }

  lemma NeedIsCost(s: Source)
    ensures Need(s) == Cost(s)
  {
    hide Encode, ByteLen, Display;
    EncodeLength(s.text);
    EncodeLength(Display(s.dir + [s.file]));
    EncodeLength(Display(s.dir));
  }

  lemma {:induction false} NeededIsTotal(sources: seq<Source>)
    ensures Needed(sources) == Total(sources)
  {
    hide Need, Cost;
    if sources != [] {
      NeedIsCost(sources[0]);
      NeededIsTotal(sources[1..]);
    }
  }

  /** Winners are some of the sources, in the same order. */
  lemma {:induction false} SelectIsPart(sources: seq<Source>)
    ensures forall s | s in Select(sources) :: s in sources
    ensures InOrder(sources) ==> InOrder(Select(sources))
  {
    hide Cost, Total, DirLess;
    if sources != [] {
      var rest := sources[1..];
      assert forall i | 0 <= i < |rest| :: rest[i] == sources[i + 1];
      SelectIsPart(rest);
      forall s | s in Select(rest)
        ensures s in sources && (InOrder(sources) ==> DirLess(sources[0].dir, s.dir))
      {
        var k :| 0 <= k < |rest| && rest[k] == s;
        assert sources[k + 1] == s;
      }
      assert forall j | 0 <= j < |Select(rest)| :: Select(rest)[j] in Select(rest);
    }
  }

  lemma RootFirst(sources: seq<Source>)
    requires InOrder(sources)
    ensures forall i, j | 0 <= i < j < |sources| :: |sources[i].dir| <= |sources[j].dir| && sources[i].dir != sources[j].dir
  {
    forall a, b
      ensures DirLess(a, b) ==> |a| <= |b| && a != b
    {
      DirsAreOrdered(a, b, a);
    }
    hide DirLess;
  }

  /**
    A snapshot shows, from the root down, what the spokesmen of tracked directories
    say, within 128 KiB in all.
  */
  lemma SnapshotShows(disk: Disk, targets: set<Scope>, selected: seq<Source>)
    requires Compute(disk, targets) == Ok(selected)
    ensures forall i | 0 <= i < |selected| ::
              OnTheWay(targets, selected[i].dir) && ReadScope(disk, selected[i].dir, 0) == Ok(Some(selected[i]))
    ensures forall i, j | 0 <= i < j < |selected| :: |selected[i].dir| <= |selected[j].dir| && selected[i].dir != selected[j].dir
    ensures Needed(selected) <= 131_072
  {
    hide Select, Gather, Closure, ReadScope, OnTheWay, Total, Needed, InOrder, OnlyThese, AllOfThem;
    var dirs := Listing(Closure(targets));
    var sources := Gather(disk, dirs).value;
    GatherTells(disk, dirs);
    SelectIsPart(sources);
    NeededIsTotal(selected);
    RootFirst(selected);
    forall i | 0 <= i < |selected|
      ensures OnTheWay(targets, selected[i].dir) && ReadScope(disk, selected[i].dir, 0) == Ok(Some(selected[i]))
    {
      assert selected[i] in Select(sources);
      ToldIs(disk, dirs, sources, selected[i]);
      assert selected[i].dir in Elements(dirs);
      ClosureIff(targets, selected[i].dir);
    }
  }

  lemma ToldIs(disk: Disk, dirs: seq<Dir>, sources: seq<Source>, s: Source)
    requires OnlyThese(disk, dirs, sources) && s in sources
    ensures s.dir in dirs && ReadScope(disk, s.dir, 0) == Ok(Some(s))
  {
    hide ReadScope;
  }

  /** The sources behind a directory, more specific or later by name. */
  function Behind(sources: seq<Source>, dir: Dir): seq<Source> {
    if sources == [] then []
    else if DirLess(dir, sources[0].dir) then sources
    else Behind(sources[1..], dir)
  }

  lemma OrderOfTail(sources: seq<Source>)
    requires sources != [] && InOrder(sources)
    ensures InOrder(sources[1..]) && forall s | s in sources[1..] :: DirLess(sources[0].dir, s.dir)
    ensures forall s | s in sources[1..] :: !DirLess(s.dir, sources[0].dir) && s != sources[0]
  {
    forall a, b
      ensures DirLess(a, b) ==> !DirLess(b, a) && a != b
    {
      DirsAreOrdered(a, b, a);
    }
    hide DirLess;
    assert forall i | 0 <= i < |sources| - 1 :: sources[1..][i] == sources[i + 1];
  }

  lemma BehindAll(sources: seq<Source>, dir: Dir)
    requires forall s | s in sources :: DirLess(dir, s.dir)
    ensures Behind(sources, dir) == sources
  {
    if sources != [] {
      assert sources[0] in sources;
    }
  }

  lemma NotBehindItself(dir: Dir)
    ensures !DirLess(dir, dir)
  {
    DirsAreOrdered(dir, dir, dir);
  }

  /** A source wins exactly when it fits beside the winners behind it. */
  lemma {:induction false} WinsBeside(sources: seq<Source>, k: nat)
    requires k < |sources| && InOrder(sources)
    ensures sources[k] in Select(sources) <==>
            Cost(sources[k]) + Total(Behind(Select(sources), sources[k].dir)) <= MAX_TOTAL_BYTES
  {
    hide Cost, Total, DirLess, InOrder;
    var rest, s := sources[1..], sources[0];
    OrderOfTail(sources);
    SelectIsPart(rest);
    NotBehindItself(s.dir);
    if k == 0 {
      BehindAll(Select(rest), s.dir);
      assert ([s] + Select(rest))[1..] == Select(rest);
    } else {
      assert rest[k - 1] == sources[k] && sources[k] in rest;
      WinsBeside(rest, k - 1);
      assert ([s] + Select(rest))[1..] == Select(rest);
    }
  }

  /** A tracked directory that has something to say is shown exactly when it fits beside the more specific ones. */
  lemma ShownIff(disk: Disk, targets: set<Scope>, selected: seq<Source>, s: Source)
    requires Compute(disk, targets) == Ok(selected)
    requires OnTheWay(targets, s.dir) && ReadScope(disk, s.dir, 0) == Ok(Some(s))
    ensures s in selected <==> Need(s) + Needed(Behind(selected, s.dir)) <= 131_072
  {
    hide Select, Gather, Closure, ReadScope, OnTheWay, Total, Needed, Need, Cost, InOrder, OnlyThese, Behind, DirLess;
    var dirs := Listing(Closure(targets));
    var sources := Gather(disk, dirs).value;
    GatherTells(disk, dirs);
    ClosureIff(targets, s.dir);
    assert s.dir in Elements(dirs);
    var i :| 0 <= i < |dirs| && dirs[i] == s.dir;
    assert s in sources;
    var k :| 0 <= k < |sources| && sources[k] == s;
    WinsBeside(sources, k);
    NeedIsCost(s);
    NeededIsTotal(Behind(selected, s.dir));
  }
}
