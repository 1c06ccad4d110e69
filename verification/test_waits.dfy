/**
  The blocking-call inventory of scripts/check-test-waits.py: a scan of one file
  with a stack of braces, and the worklist that follows references from test code
  to other files until no flag changes.
*/
module TestWaits {
  import opened Wrappers
  import opened Sequences
  import opened Sets

  type Path = string

  /**
    What the scan of one file meets, in order. Whether a header marks its own
    block as a test, which files a declaration refers to and what a call looks
    like depend on the text alone, not on where the file is referenced from.
  */
  datatype Event =
    | Open(testing: bool, name: string)
    | Close
    | Declaration(testing: bool, references: seq<Path>)
    | Call(operation: string, fingerprint: string, line: nat, closed: bool)

  datatype File = File(testFile: bool, events: seq<Event>)

  type Sources = map<Path, File>

  datatype Base = Base(path: Path, scope: seq<string>, operation: string, fingerprint: string)

  /** A recorded call: its site, its number among equal sites, its line. */
  datatype Site = Site(base: Base, occurrence: nat, line: nat)

  datatype Block = Block(testing: bool, name: string)

  /**
    What a scan holds on the way. `broken` is an unclosed call met in test code:
    the script raises there, and nothing it collected afterwards matters.
  */
  datatype Scan = Scan(stack: seq<Block>, sites: seq<Site>, references: seq<Path>, broken: bool)

  // ---------- one file ----------

  predicate Testing(s: Scan) {
    s.stack != [] && s.stack[|s.stack| - 1].testing
  }

  function Names(stack: seq<Block>): seq<string> {
    if stack == [] then []
    else
      var last := |stack| - 1;
      Names(stack[..last]) + (if stack[last].name == "" then [] else [stack[last].name])
  }

  function Occurrences(sites: seq<Site>, base: Base): nat {
    if sites == [] then 0
    else
      var last := |sites| - 1;
      Occurrences(sites[..last], base) + (if sites[last].base == base then 1 else 0)
  }

  function Meet(path: Path, s: Scan, e: Event): Scan {
    match e
    case Open(testing, name) => s.(stack := s.stack + [Block(Testing(s) || testing, name)])
    case Close => if |s.stack| > 1 then s.(stack := s.stack[..|s.stack| - 1]) else s
    case Declaration(testing, references) =>
      if Testing(s) || testing then s.(references := s.references + references) else s
    case Call(operation, fingerprint, line, closed) =>
      if !Testing(s) then s
      else if !closed then s.(broken := true)
      else
        var base := Base(path, Names(s.stack), operation, fingerprint);
        s.(sites := s.sites + [Site(base, Occurrences(s.sites, base) + 1, line)])
  }

  /** The scan after the first `n` events. */
  function ScanTo(path: Path, file: File, inherited: bool, n: nat): Scan
    requires n <= |file.events|
  {
    if n == 0 then Scan([Block(file.testFile || inherited, "")], [], [], false)
    else Meet(path, ScanTo(path, file, inherited, n - 1), file.events[n - 1])
  }

  function ScanSource(path: Path, file: File, inherited: bool): Scan {
    ScanTo(path, file, inherited, |file.events|)
  }

  function References(path: Path, file: File, inherited: bool): set<Path> {
    set r | r in ScanSource(path, file, inherited).references
  }

  // ---------- more tests, more references ----------

  /** `b` saw the same blocks as `a`, none of them less of a test. */
  predicate Below(a: seq<Block>, b: seq<Block>) {
    |a| == |b| && forall i | 0 <= i < |a| :: a[i].name == b[i].name && (a[i].testing ==> b[i].testing)
  }

  /** The flagged scan is at least as much of a test everywhere. */
  predicate Covers(a: Scan, b: Scan) {
    && a.stack != [] && Below(a.stack, b.stack) && (a.broken ==> b.broken)
    && forall i | 0 <= i < |a.references| :: a.references[i] in b.references
  }

  lemma MeetIsMonotone(path: Path, a: Scan, b: Scan, e: Event)
    requires Covers(a, b)
    ensures Covers(Meet(path, a, e), Meet(path, b, e))
  {
    hide Names, Occurrences;
    var c, d := Meet(path, a, e), Meet(path, b, e);
    forall i | 0 <= i < |c.references|
      ensures c.references[i] in d.references
    {
      assert i < |a.references| ==> a.references[i] in b.references;
    }
  }

  lemma {:induction false} ScanIsMonotone(path: Path, file: File, n: nat)
    requires n <= |file.events|
    ensures Covers(ScanTo(path, file, false, n), ScanTo(path, file, true, n))
  {
    if n > 0 {
      ScanIsMonotone(path, file, n - 1);
      MeetIsMonotone(path, ScanTo(path, file, false, n - 1), ScanTo(path, file, true, n - 1), file.events[n - 1]);
    }
  }

  /** Inheriting the test flag never loses a reference and never hides a broken call. */
  lemma ReferencesAreMonotone(path: Path, file: File)
    ensures References(path, file, false) <= References(path, file, true)
    ensures ScanSource(path, file, false).broken ==> ScanSource(path, file, true).broken
  {
    hide ScanTo;
    ScanIsMonotone(path, file, |file.events|);
  }

  // ---------- the least set of inherited files ----------

  /** Every file referenced from test code, given the files in `set`, is in `set`. */
  ghost predicate Closed(sources: Sources, files: set<Path>) {
    forall p | p in sources :: References(p, sources[p], p in files) * sources.Keys <= files
  }

  ghost predicate LeastClosed(sources: Sources, files: set<Path>) {
    Closed(sources, files) && forall other | Closed(sources, other) :: files <= other
  }

  lemma LeastIsUnique(sources: Sources, a: set<Path>, b: set<Path>)
    requires LeastClosed(sources, a) && LeastClosed(sources, b)
    ensures a == b
  {
  }

  /** The files every closed set holds. */
  ghost function Least(sources: Sources): set<Path> {
    set p | p in sources && forall other | Closed(sources, other) :: p in other
  }

  lemma LeastIsBelow(sources: Sources, least: set<Path>, other: set<Path>, p: Path)
    requires p in sources && Closed(sources, other) && (p in least ==> p in other)
    ensures References(p, sources[p], p in least) * sources.Keys <= other
  {
    hide References, ScanSource;
    ReferencesAreMonotone(p, sources[p]);
  }

  lemma ClosedWhen(sources: Sources, files: set<Path>)
    requires forall p | p in sources :: References(p, sources[p], p in files) * sources.Keys <= files
    ensures Closed(sources, files)
  {
  }

  /** Monotone references make the meet of all closed sets closed itself. */
  lemma LeastExists(sources: Sources)
    ensures LeastClosed(sources, Least(sources))
  {
    hide References, ScanSource, Closed;
    var least := Least(sources);
    forall p | p in sources
      ensures References(p, sources[p], p in least) * sources.Keys <= least
    {
      forall other | Closed(sources, other)
        ensures References(p, sources[p], p in least) * sources.Keys <= other
      {
        LeastIsBelow(sources, least, other, p);
      }
    }
    ClosedWhen(sources, least);
  }

  // ---------- the worklist ----------

  /** The calls of each path in order, as its scan with the final flag finds them. */
  function AllSites(sources: Sources, order: seq<Path>, inherited: set<Path>): seq<Site>
    requires forall i | 0 <= i < |order| :: order[i] in sources
  {
    if order == [] then []
    else ScanSource(order[0], sources[order[0]], order[0] in inherited).sites + AllSites(sources, order[1..], inherited)
  }

  /** What is settled about a file that no longer waits for a scan. */
  ghost predicate Scanned(sources: Sources, calls: map<Path, seq<Site>>, inherited: set<Path>, p: Path)
    requires p in sources
  {
    var scan := ScanSource(p, sources[p], p in inherited);
    && !scan.broken && p in calls && calls[p] == scan.sites
    && References(p, sources[p], p in inherited) * sources.Keys <= inherited
  }

  ghost predicate Progress(sources: Sources, calls: map<Path, seq<Site>>, inherited: set<Path>, pending: seq<Path>) {
    && inherited <= sources.Keys
    && (forall i | 0 <= i < |pending| :: pending[i] in sources)
    && (forall p | p in sources && p !in pending :: Scanned(sources, calls, inherited, p))
    && (forall other | Closed(sources, other) :: inherited <= other)
  }

  /** Scanning with a flag the least set justifies refers only into it. */
  lemma StaysInside(sources: Sources, inherited: set<Path>, other: set<Path>, p: Path)
    requires p in sources && inherited <= other && Closed(sources, other)
    ensures References(p, sources[p], p in inherited) * sources.Keys <= other
    ensures ScanSource(p, sources[p], p in inherited).broken ==> ScanSource(p, sources[p], p in other).broken
  {
    hide References, ScanSource;
    ReferencesAreMonotone(p, sources[p]);
  }

  method ScanFile(path: Path, file: File, inherited: bool) returns (scan: Scan)
    ensures scan.broken == ScanSource(path, file, inherited).broken
    ensures !scan.broken ==> scan == ScanSource(path, file, inherited)
  {
    scan := Scan([Block(file.testFile || inherited, "")], [], [], false);
    var n := 0;
    while n < |file.events|
      invariant n <= |file.events| && scan == ScanTo(path, file, inherited, n) && !scan.broken
    {
      scan := Meet(path, scan, file.events[n]);
      n := n + 1;
      if scan.broken {
        BrokenStays(path, file, inherited, n);
        return;
      }
    }
  }

  lemma {:induction false} BrokenStays(path: Path, file: File, inherited: bool, n: nat)
    requires n <= |file.events| && ScanTo(path, file, inherited, n).broken
    ensures ScanSource(path, file, inherited).broken
    decreases |file.events| - n
  {
    if n < |file.events| {
      BrokenStays(path, file, inherited, n + 1);
    }
  }

  function Known(sources: Sources, references: seq<Path>): set<Path> {
    set r | r in references && r in sources
  }

  lemma KnownGrows(sources: Sources, references: seq<Path>, i: nat)
    requires i < |references|
    ensures Known(sources, references[..i + 1]) ==
            Known(sources, references[..i]) + (if references[i] in sources then {references[i]} else {})
  {
    assert references[..i + 1] == references[..i] + [references[i]];
  }

  /** References that are sources and not yet inherited join both lists. */
  method Follow(sources: Sources, references: seq<Path>, inherited: set<Path>, pending: seq<Path>)
    returns (more: set<Path>, queue: seq<Path>)
    ensures more == inherited + Known(sources, references)
    ensures |queue| == |pending| + |more| - |inherited|
    ensures forall p :: p in queue <==> p in pending || (p in more && p !in inherited)
  {
    hide Known;
    more, queue := inherited, pending;
    var i := 0;
    KnownOfNone(sources);
    while i < |references|
      invariant i <= |references| && more == inherited + Known(sources, references[..i])
      invariant |queue| == |pending| + |more| - |inherited|
      invariant forall p :: p in queue <==> p in pending || (p in more && p !in inherited)
    {
      KnownGrows(sources, references, i);
      var r := references[i];
      if r in sources && r !in more {
        more, queue := more + {r}, queue + [r];
      }
      i := i + 1;
    }
    assert references[..i] == references;
  }

  lemma KnownOfNone(sources: Sources)
    ensures Known(sources, []) == {}
  {
  }

  /** One turn of the worklist. */
  lemma TurnKeeps(sources: Sources, calls: map<Path, seq<Site>>, inherited: set<Path>, pending: seq<Path>,
                  rest: seq<Path>, path: Path, scan: Scan, more: set<Path>, queue: seq<Path>)
    requires Progress(sources, calls, inherited, pending) && path in sources
    requires forall p :: p in pending <==> p in rest || p == path
    requires scan == ScanSource(path, sources[path], path in inherited) && !scan.broken
    requires more == inherited + Known(sources, scan.references)
    requires forall p :: p in queue <==> p in rest || (p in more && p !in inherited)
    ensures Progress(sources, calls[path := scan.sites], more, queue)
  {
    hide ScanSource, Closed;
    var now := calls[path := scan.sites];
    assert Known(sources, scan.references) == References(path, sources[path], path in inherited) * sources.Keys;
    hide References, Known;
    forall p | p in sources && p !in queue
      ensures Scanned(sources, now, more, p)
    {
      assert p != path ==> Scanned(sources, calls, inherited, p);
    }
    forall other | Closed(sources, other)
      ensures more <= other
    {
      StaysInside(sources, inherited, other, path);
    }
  }

  lemma NothingPending(sources: Sources, calls: map<Path, seq<Site>>, inherited: set<Path>)
    requires Progress(sources, calls, inherited, [])
    ensures LeastClosed(sources, inherited)
    ensures forall p | p in sources ::
              p in calls && calls[p] == ScanSource(p, sources[p], p in inherited).sites
              && !ScanSource(p, sources[p], p in inherited).broken
  {
    hide ScanSource, References;
    forall p | p in sources
      ensures Scanned(sources, calls, inherited, p)
    {
    }
  }

  method Collect(sources: Sources, order: seq<Path>, inherited: set<Path>, calls: map<Path, seq<Site>>)
    returns (all: seq<Site>)
    requires forall i | 0 <= i < |order| :: order[i] in sources
    requires forall p | p in sources :: p in calls && calls[p] == ScanSource(p, sources[p], p in inherited).sites
    ensures all == AllSites(sources, order, inherited)
  {
    hide ScanSource;
    all := [];
    var i := 0;
    assert order[0..] == order;
    while i < |order|
      invariant i <= |order| && all + AllSites(sources, order[i..], inherited) == AllSites(sources, order, inherited)
    {
      assert order[i..][1..] == order[i + 1..];
      Assoc(all, calls[order[i]], AllSites(sources, order[i + 1..], inherited));
      all := all + calls[order[i]];
      i := i + 1;
    }
    assert order[i..] == [] && all + [] == all;
  }

  ghost predicate Raises(sources: Sources, inherited: set<Path>) {
    exists p | p in sources :: ScanSource(p, sources[p], p in inherited).broken
  }

  /**
    Ends with the least set closed under test references; the calls are those of
    one scan of every file with its final flag, and it raises exactly when one of
    those scans does.
  */
  method Inventory(sources: Sources, order: seq<Path>) returns (r: Result<seq<Site>, string>, inherited: set<Path>)
    requires forall p :: p in order <==> p in sources
    ensures r.Ok? ==> LeastClosed(sources, inherited) && r.value == AllSites(sources, order, inherited)
    ensures forall least | LeastClosed(sources, least) :: r.Err? <==> Raises(sources, least)
  {
    hide ScanSource, References, Known, Closed, Progress;
    var calls: map<Path, seq<Site>> := map[];
    inherited := {};
    var pending := order;
    assert Progress(sources, calls, inherited, pending) by { NothingScanned(sources, order); }
    while pending != []
      invariant Progress(sources, calls, inherited, pending) && |inherited| <= |sources.Keys|
      decreases |sources.Keys| - |inherited| + |pending|
    {
      PendingAreSources(sources, calls, inherited, pending);
      var rest := pending[..|pending| - 1];
      var path := pending[|pending| - 1];
      assert pending == rest + [path];
      var scan := ScanFile(path, sources[path], path in inherited);
      if scan.broken {
        forall least | LeastClosed(sources, least)
          ensures Raises(sources, least)
        {
          InsideLeast(sources, calls, inherited, pending, least);
          StaysInside(sources, inherited, least, path);
        }
        return Err("unclosed blocking call"), inherited;
      }
      var more, queue := Follow(sources, scan.references, inherited, rest);
      TurnKeeps(sources, calls, inherited, pending, rest, path, scan, more, queue);
      calls := calls[path := scan.sites];
      inherited, pending := more, queue;
      PendingAreSources(sources, calls, inherited, pending);
      SubsetSize(inherited, sources.Keys);
    }
    NothingPending(sources, calls, inherited);
    var all := Collect(sources, order, inherited, calls);
    forall least | LeastClosed(sources, least)
      ensures !Raises(sources, least)
    {
      LeastIsUnique(sources, least, inherited);
    }
    return Ok(all), inherited;
  }

  lemma NothingScanned(sources: Sources, order: seq<Path>)
    requires forall p :: p in order <==> p in sources
    ensures Progress(sources, map[], {}, order)
  {
    assert forall i | 0 <= i < |order| :: order[i] in order;
  }

  lemma PendingAreSources(sources: Sources, calls: map<Path, seq<Site>>, inherited: set<Path>, pending: seq<Path>)
    requires Progress(sources, calls, inherited, pending)
    ensures inherited <= sources.Keys && forall i | 0 <= i < |pending| :: pending[i] in sources
  {
  }

  lemma InsideLeast(sources: Sources, calls: map<Path, seq<Site>>, inherited: set<Path>, pending: seq<Path>, least: set<Path>)
    requires Progress(sources, calls, inherited, pending) && LeastClosed(sources, least)
    ensures inherited <= least && Closed(sources, least)
  {
  }
}
