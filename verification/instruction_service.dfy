/**
  ProjectInstructionService of src/project_instructions.rs as an object, its
  loops proved against ProjectInstructions. Paths arrive resolved to project
  directories, and the files are a parameter of every call that reads them.
*/
module InstructionService {
  import opened Wrappers
  import opened Text
  import opened Sets
  import opened InstructionPaths
  import opened ProjectInstructions

  const MAX_OBSERVED_PATHS := 256

  function ScopeOf(dir: Dir): (r: Scope)
    ensures |r| == |dir| && forall i | 0 <= i < |dir| :: r[i] == Normal(dir[i])
  {
    seq(|dir|, i requires 0 <= i < |dir| => Normal(dir[i]))
  }

  lemma {:induction false} NamesOfScope(dir: Dir)
    ensures Names(ScopeOf(dir)) == dir && Safe(ScopeOf(dir))
  {
    if dir != [] {
      NamesOfScope(dir[1..]);
      assert ScopeOf(dir)[1..] == ScopeOf(dir[1..]);
    }
  }

  /** The scopes of the first paths a tool reported that resolve to something. */
  function Observed(paths: seq<Option<Dir>>): set<Scope> {
    set i | 0 <= i < |paths| && i < MAX_OBSERVED_PATHS && paths[i].Some? :: ScopeOf(paths[i].value)
  }

  /** A directory is observed exactly when it is among the first 256 paths. */
  lemma ObservedIff(paths: seq<Option<Dir>>, scope: Scope)
    ensures scope in Observed(paths) <==>
            exists i | 0 <= i < |paths| && i < 256 :: paths[i].Some? && scope == ScopeOf(paths[i].value)
  {
    hide ScopeOf;
  }

  // ---------- ancestors, one component at a time ----------

  lemma {:induction false} NamesOfPrefix(scope: Scope, i: nat)
    requires i < |scope|
    ensures Names(scope[..i + 1]) == Names(scope[..i]) + (if scope[i].Normal? then [scope[i].name] else [])
  {
    if i > 0 {
      assert scope[..i][1..] == scope[1..][..i - 1] && scope[..i + 1][1..] == scope[1..][..i];
      NamesOfPrefix(scope[1..], i - 1);
    }
  }

  lemma PrefixesOfLonger(dir: Dir, name: string)
    ensures Prefixes(dir + [name]) == Prefixes(dir) + {dir + [name]}
  {
    var longer := dir + [name];
    assert forall k | 0 <= k <= |dir| :: longer[..k] == dir[..k];
    assert longer[..|longer|] == longer;
    forall p | p in Prefixes(dir)
      ensures p in Prefixes(longer)
    {
      assert p == longer[..|p|];
    }
  }

  lemma ClosureAdds(targets: set<Scope>, t: Scope)
    ensures Closure(targets + {t}) == Closure(targets) + Prefixes(Names(t))
  {
    hide Names, Prefixes;
  }

  lemma ClosureOfNone()
    ensures Closure({}) == {[]} && Prefixes([]) == {[]}
  {
    RootFacts({});
  }

  lemma SortedCount(dirs: seq<Dir>)
    requires Sorted(dirs)
    ensures |Elements(dirs)| == |dirs|
  {
    hide DirLess, Sorted;
    if dirs == [] {
      NoElements();
    } else {
      TailElements(dirs);
      TailIsSorted(dirs);
      SortedCount(dirs[1..]);
      assert dirs[0] in Elements(dirs);
    }
  }

  lemma TailIsSorted(dirs: seq<Dir>)
    requires Sorted(dirs) && dirs != []
    ensures Sorted(dirs[1..])
  {
  }

  method Ancestors(targets: set<Scope>) returns (r: Result<seq<Dir>, string>)
    ensures r == AncestorDirectories(targets)
  {
    hide DirLess, Sorted, Elements, Closure, Prefixes, Names, Safe, Insert;
    var dirs: seq<Dir> := [[]];
    var rest: set<Scope> := targets;
    ClosureOfNone();
    RootListing();
    assert targets - rest == {};
    while rest != {}
      invariant rest <= targets && |dirs| <= MAX_DISCOVERED_DIRECTORIES
      invariant Sorted(dirs) && Elements(dirs) == Closure(targets - rest)
      invariant forall t | t in targets - rest :: Safe(t)
    {
      var scope: Scope :| scope in rest;
      ghost var seen := targets - rest;
      ghost var before := dirs;
      var current: Dir := [];
      var i := 0;
      StartOfScope(scope, seen);
      while i < |scope|
        invariant i <= |scope| && |dirs| <= MAX_DISCOVERED_DIRECTORIES
        invariant Sorted(dirs) && current == Names(scope[..i])
        invariant Elements(dirs) == Closure(seen) + Prefixes(current)
        invariant forall j | 0 <= j < i :: !scope[j].Unsafe?
      {
        NamesOfPrefix(scope, i);
        match scope[i] {
          case Normal(part) =>
            PrefixesOfLonger(current, part);
            current := current + [part];
            InsertSorts(dirs, current);
            dirs := Insert(dirs, current);
            if |dirs| > MAX_DISCOVERED_DIRECTORIES {
              TooMany(dirs, seen, targets, scope, i + 1);
              return Err("unsafe scope or too many directories");
            }
          case CurDir =>
          case Unsafe =>
            UnsafeAt(scope, i);
            return Err("unsafe scope or too many directories");
        }
        i := i + 1;
      }
      assert scope[..i] == scope;
      SafeWhen(scope);
      ClosureAdds(seen, scope);
      rest := rest - {scope};
      assert targets - rest == seen + {scope};
    }
    assert targets - rest == targets;
    SortedCount(dirs);
    SortedUnique(dirs, Listing(Closure(targets)));
    return Ok(dirs);
  }

  lemma RootListing()
    ensures Sorted([[]]) && Elements([[]]) == {[]}
  {
    var root: seq<Dir> := [[]];
    assert root[0] == [];
  }

  lemma StartOfScope(scope: Scope, seen: set<Scope>)
    ensures Names(scope[..0]) == [] && Closure(seen) + Prefixes([]) == Closure(seen)
  {
    RootFacts(seen);
  }

  lemma UnsafeAt(scope: Scope, i: nat)
    requires i < |scope| && scope[i].Unsafe?
    ensures !Safe(scope)
  {
  }

  lemma SafeWhen(scope: Scope)
    requires forall j | 0 <= j < |scope| :: !scope[j].Unsafe?
    ensures Safe(scope)
  {
  }

  lemma TooMany(dirs: seq<Dir>, seen: set<Scope>, targets: set<Scope>, scope: Scope, i: nat)
    requires Sorted(dirs) && |dirs| > MAX_DISCOVERED_DIRECTORIES && i <= |scope|
    requires seen <= targets && scope in targets && Elements(dirs) == Closure(seen) + Prefixes(Names(scope[..i]))
    ensures |Closure(targets)| > MAX_DISCOVERED_DIRECTORIES
  {
    hide Sorted, Elements, Names;
    SortedCount(dirs);
    NamesArePrefix(scope, i);
    forall d | d in Prefixes(Names(scope[..i]))
      ensures d in Prefixes(Names(scope))
    {
      assert d == Names(scope)[..|d|];
    }
    SubsetSize(Elements(dirs), Closure(targets));
  }

  lemma {:induction false} NamesArePrefix(scope: Scope, i: nat)
    requires i <= |scope|
    ensures Names(scope[..i]) <= Names(scope)
    decreases |scope| - i
  {
    if i < |scope| {
      NamesOfPrefix(scope, i);
      NamesArePrefix(scope, i + 1);
    } else {
      assert scope[..i] == scope;
    }
  }

  // ---------- reading and choosing ----------

  method ReadScopeLoop(disk: Disk, dir: Dir) returns (r: Result<Option<Source>, string>)
    ensures r == ReadScope(disk, dir, 0)
  {
    var i := 0;
    while i < |CANDIDATES|
      invariant i <= |CANDIDATES| && ReadScope(disk, dir, 0) == ReadScope(disk, dir, i)
    {
      match disk(dir, CANDIDATES[i])
      case Missing => i := i + 1;
      case Unreadable(reason) => return Err(reason);
      case Contents(file) =>
        match DecodeLimited(file) {
          case Err(e) => return Err(e);
          case Ok(text) => return Ok(if Trim(text) == "" then None else Some(Source(dir, CANDIDATES[i], text)));
        }
    }
    return Ok(None);
  }

  lemma WithHeadAppends(head: Option<Source>, done: seq<Source>, next: Source)
    ensures WithHead(head, done + [next]) == WithHead(head, done) + [next]
    ensures WithHead(Some(next), []) == [next] == [] + [next]
  {
  }

  /** What reading the first sources gives, for the loop that appends them. */
  lemma {:induction false} GatherSplits(disk: Disk, dirs: seq<Dir>, k: nat)
    requires k < |dirs| && Gather(disk, dirs[..k]).Ok?
    ensures
      var found, done := ReadScope(disk, dirs[k], 0), Gather(disk, dirs[..k]).value;
      && (found.Err? ==> Gather(disk, dirs) == Err(found.error))
      && (found.Ok? ==> Gather(disk, dirs[..k + 1]) ==
                        Ok(if found.value.Some? then done + [found.value.value] else done))
  {
    hide ReadScope;
    var here := ReadScope(disk, dirs[k], 0);
    if here.Ok? && here.value.Some? {
      WithHeadAppends(None, [], here.value.value);
    }
    if k == 0 {
      assert dirs[..1][1..] == [] && dirs[..1][0] == dirs[0];
      assert Gather(disk, dirs[..1][1..]) == Ok([]) && dirs[..0] == [];
    } else {
      var done, found := Gather(disk, dirs[1..][..k - 1]), ReadScope(disk, dirs[k], 0);
      if done.Ok? && found.Ok? && found.value.Some? && ReadScope(disk, dirs[0], 0).Ok? {
        WithHeadAppends(ReadScope(disk, dirs[0], 0).value, done.value, found.value.value);
      }
      assert dirs[..k][1..] == dirs[1..][..k - 1] && dirs[..k + 1][1..] == dirs[1..][..k];
      GatherSplits(disk, dirs[1..], k - 1);
      assert dirs[..k][0] == dirs[0] && dirs[..k + 1][0] == dirs[0] && dirs[1..][k - 1] == dirs[k];
    }
  }

  method GatherLoop(disk: Disk, dirs: seq<Dir>) returns (r: Result<seq<Source>, string>)
    ensures r == Gather(disk, dirs)
  {
    hide ReadScope;
    var sources: seq<Source> := [];
    var k := 0;
    while k < |dirs|
      invariant k <= |dirs| && Gather(disk, dirs[..k]) == Ok(sources)
    {
      GatherSplits(disk, dirs, k);
      var found := ReadScopeLoop(disk, dirs[k]);
      if found.Err? {
        return Err(found.error);
      }
      if found.value.Some? {
        sources := sources + [found.value.value];
      }
      k := k + 1;
    }
    assert dirs[..k] == dirs;
    return Ok(sources);
  }

  function Reversed(sources: seq<Source>): (r: seq<Source>)
    ensures |r| == |sources| && forall i | 0 <= i < |r| :: r[i] == sources[|sources| - 1 - i]
  {
    seq(|sources|, i requires 0 <= i < |sources| => sources[|sources| - 1 - i])
  }

  lemma ReversedCons(head: Source, rest: seq<Source>)
    ensures Reversed([head] + rest) == Reversed(rest) + [head]
    ensures Reversed(Reversed(rest)) == rest
  {
  }

  method SelectLoop(sources: seq<Source>) returns (selected: seq<Source>)
    ensures selected == Select(sources)
  {
    hide Cost, Total, Select;
    selected := [];
    var used := 0;
    var i := |sources|;
    SelectNone();
    assert sources[i..] == [];
    while i > 0
      invariant i <= |sources|
      invariant selected == Reversed(Select(sources[i..])) && used == Total(Select(sources[i..]))
    {
      i := i - 1;
      SelectOne(sources, i);
      var cost := Cost(sources[i]);
      if used + cost <= MAX_TOTAL_BYTES {
        ReversedCons(sources[i], Select(sources[i + 1..]));
        used := used + cost;
        selected := selected + [sources[i]];
      }
    }
    assert sources[0..] == sources;
    if selected != [] {
      ReversedCons(selected[0], Select(sources));
    }
    selected := Reversed(selected);
  }

  lemma SelectNone()
    ensures Select([]) == [] && Total([]) == 0
  {
  }

  lemma SelectOne(sources: seq<Source>, k: nat)
    requires k < |sources|
    ensures
      var rest := Select(sources[k + 1..]);
      if Cost(sources[k]) + Total(rest) <= MAX_TOTAL_BYTES
      then Select(sources[k..]) == [sources[k]] + rest && Total(Select(sources[k..])) == Cost(sources[k]) + Total(rest)
      else Select(sources[k..]) == rest
  {
    hide Cost;
    WinsIff(sources, k);
    var rest := Select(sources[k + 1..]);
    assert ([sources[k]] + rest)[1..] == rest;
  }

  method RestorableLoop(header: seq<Option<string>>) returns (r: Option<set<Scope>>)
    ensures r == if Restorable(header) then Some(RestoredTargets(header)) else None
  {
    hide ParseScope, Safe;
    var restored: set<Scope> := {[]};
    if |header| > MAX_TRACKED_SCOPES {
      return None;
    }
    var i := 0;
    while i < |header|
      invariant i <= |header| && Restorable(header[..i]) && restored == RestoredTargets(header[..i])
    {
      if header[i].None? || !Safe(ParseScope(header[i].value)) {
        return None;
      }
      assert header[..i + 1] == header[..i] + [header[i]];
      restored := restored + {ParseScope(header[i].value)};
      TargetsGrow(header, i);
      i := i + 1;
    }
    assert header[..i] == header;
    return Some(restored);
  }

  lemma TargetsGrow(header: seq<Option<string>>, i: nat)
    requires i < |header| && Restorable(header[..i]) && header[i].Some? && Safe(ParseScope(header[i].value))
    requires |header| <= MAX_TRACKED_SCOPES
    ensures Restorable(header[..i + 1])
    ensures RestoredTargets(header[..i + 1]) == RestoredTargets(header[..i]) + {ParseScope(header[i].value)}
  {
    hide ParseScope, Safe;
    var more := header[..i + 1];
    assert more[i] == header[i];
    assert forall j | 0 <= j < i :: more[j] == header[..i][j];
    forall t | t in RestoredTargets(header[..i])
      ensures t in RestoredTargets(more)
    {
      if t != [] {
        var j :| 0 <= j < i && t == ParseScope(header[..i][j].value);
        assert t == ParseScope(more[j].value);
      }
    }
  }

  // ---------- the service ----------

  class ProjectInstructionService {
    var targets: set<Scope>
    var snapshot: Option<seq<Source>>
    var error: Option<string>

    /** What every call keeps: the root is tracked and no scope can fail. */
    ghost predicate Valid()
      reads this
    {
      ValidTargets(targets)
    }

    constructor ()
      ensures Valid() && targets == {[]} && snapshot == None && error == None
    {
      targets, snapshot, error := {[]}, None, None;
      new;
      RootFacts({});
      RootIsValid();
    }

    /** A failure changes nothing; a success publishes and clears the error. */
    method Recompute(disk: Disk) returns (r: Result<(), string>)
      requires Valid()
      modifies this`snapshot, this`error
      ensures Valid()
      ensures Compute(disk, targets).Err? ==>
                r == Err(Compute(disk, targets).error) && snapshot == old(snapshot) && error == old(error)
      ensures Compute(disk, targets).Ok? ==>
                r == Ok(()) && snapshot == Snapshot(Compute(disk, targets).value) && error == None
    {
      hide ValidTargets, AncestorDirectories, Gather, Select;
      var dirs := Ancestors(targets);
      if dirs.Err? {
        return Err(dirs.error);
      }
      var sources := GatherLoop(disk, dirs.value);
      if sources.Err? {
        return Err(sources.error);
      }
      var selected := SelectLoop(sources.value);
      snapshot, error := Snapshot(selected), None;
      return Ok(());
    }

    /** Paths of one tool result; a failure leaves the old snapshot beside an error. */
    method ObserveToolResult(disk: Disk, paths: seq<Option<Dir>>)
      requires Valid() && forall i | 0 <= i < |paths| && paths[i].Some? :: ValidDir(paths[i].value)
      modifies this
      ensures Valid()
      ensures paths == [] ==> targets == old(targets) && snapshot == old(snapshot) && error == old(error)
      ensures
        var next := old(targets) + Observed(paths);
        paths != [] ==>
          if |next| > MAX_TRACKED_SCOPES then
            targets == old(targets) && snapshot == old(snapshot) && error.Some?
          else
            && targets == next
            && match Compute(disk, next)
               case Err(e) => snapshot == old(snapshot) && error == Some(e)
               case Ok(selected) => snapshot == Snapshot(selected) && error == None
    {
      hide Compute, Names, Safe, ValidDir;
      if paths == [] {
        return;
      }
      var next := targets + Observed(paths);
      if |next| > MAX_TRACKED_SCOPES {
        error := Some("tracked scopes exceed the limit");
        return;
      }
      ObservedIsValid(targets, paths);
      targets := next;
      var r := Recompute(disk);
      if r.Err? {
        error := Some(r.error);
      }
    }

    /** Restore from the scopes of a header; refused scopes change nothing. */
    method RestoreFromHeader(disk: Disk, sources: Option<seq<Option<string>>>) returns (r: Result<(), string>)
      requires Valid()
      modifies this
      ensures Valid()
      ensures
        var header := if sources.Some? then sources.value else [];
        match Restored(disk, header)
        case Ok(selected) =>
          r == Ok(()) && targets == RestoredTargets(header) && snapshot == Snapshot(selected) && error == None
        case Err(e) =>
          && r.Err? && snapshot == old(snapshot)
          && if Restorable(header) then targets == RestoredTargets(header) && r == Err(e) && error == Some(e)
             else targets == old(targets) && error == old(error)
    {
      hide Compute, Restorable, RestoredTargets;
      var header := if sources.Some? then sources.value else [];
      var restored := RestorableLoop(header);
      if restored.None? {
        return Err("stored scopes refused");
      }
      RestoredTargetsAreValid(header);
      targets := restored.value;
      r := Recompute(disk);
      if r.Err? {
        error := Some(r.error);
      }
    }

    method Read() returns (r: Result<Option<seq<Source>>, string>)
      ensures r == if error.Some? then Err(error.value) else Ok(snapshot)
    {
      return if error.Some? then Err(error.value) else Ok(snapshot);
    }
  }

  lemma ObservedIsValid(targets: set<Scope>, paths: seq<Option<Dir>>)
    requires ValidTargets(targets) && forall i | 0 <= i < |paths| && paths[i].Some? :: ValidDir(paths[i].value)
    ensures ValidTargets(targets + Observed(paths))
  {
    hide Names, Safe, ValidDir;
    forall t | t in Observed(paths)
      ensures Safe(t) && ValidDir(Names(t))
    {
      var i :| 0 <= i < |paths| && paths[i].Some? && t == ScopeOf(paths[i].value);
      NamesOfScope(paths[i].value);
    }
  }
}
