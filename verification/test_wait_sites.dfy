/**
  Which calls and references one scan records, told from the braces of the file
  alone: a block is a test when it, or a block around it, or the file is one.
*/
module TestWaitSites {
  import opened Wrappers
  import opened TestWaits

  // ---------- braces ----------

  /** Opening less closing braces after event `j` and before event `m`. */
  function Balance(events: seq<Event>, j: nat, m: nat): int
    requires m <= |events|
  {
    if m <= j + 1 then 0
    else Balance(events, j, m - 1) + (if events[m - 1].Open? then 1 else if events[m - 1].Close? then -1 else 0)
  }

  /** The brace opened at `j` is not closed before event `n`: what follows it never closes more than it opens. */
  predicate StillOpen(events: seq<Event>, j: nat, n: nat)
    requires n <= |events|
  {
    j < n && events[j].Open? && forall m | j < m <= n :: Balance(events, j, m) >= 0
  }

  /** Event `n` stands in test code. */
  predicate InTest(file: File, inherited: bool, n: nat)
    requires n <= |file.events|
  {
    file.testFile || inherited || exists j | 0 <= j < n :: StillOpen(file.events, j, n) && file.events[j].testing
  }

  /** `open` are the braces around event `n`, outermost first. */
  predicate Around(events: seq<Event>, open: seq<nat>, n: nat)
    requires n <= |events|
  {
    && (forall i | 0 <= i < |open| :: StillOpen(events, open[i], n))
    && (forall i, j | 0 <= i < j < |open| :: open[i] < open[j])
    && forall j | 0 <= j < n && StillOpen(events, j, n) :: j in open
  }

  /** The names they have, from the outside in; blocks without one are skipped. */
  function NamesAround(events: seq<Event>, open: seq<nat>): seq<string>
    requires forall i | 0 <= i < |open| :: open[i] < |events| && events[open[i]].Open?
  {
    if open == [] then []
    else (if events[open[0]].name != "" then [events[open[0]].name] else []) + NamesAround(events, open[1..])
  }

  // ---------- the stack of the scan ----------

  /** Every brace around is outside of exactly those that follow it. */
  predicate Nested(events: seq<Event>, open: seq<nat>, n: nat)
    requires n <= |events|
  {
    Around(events, open, n) && forall i | 0 <= i < |open| :: Balance(events, open[i], n) == |open| - 1 - i
  }

  /** The stack is the file's own block and the braces around, each a test when it or one around it is. */
  predicate Mirrors(file: File, inherited: bool, stack: seq<Block>, open: seq<nat>, n: nat)
    requires n <= |file.events|
  {
    && Nested(file.events, open, n) && |stack| == |open| + 1
    && stack[0] == Block(file.testFile || inherited, "")
    && forall i | 0 <= i < |open| ::
         stack[i + 1].name == file.events[open[i]].name
         && stack[i + 1].testing == (stack[i].testing || file.events[open[i]].testing)
  }

  lemma OpenStays(events: seq<Event>, j: nat, n: nat)
    requires n < |events|
    ensures StillOpen(events, j, n + 1) <==>
            if j == n then events[n].Open? else StillOpen(events, j, n) && Balance(events, j, n + 1) >= 0
  {
  }

  /** When the braces around are listed anew, the rest follows from who stays open. */
  lemma NestedFrom(events: seq<Event>, open: seq<nat>, n: nat)
    requires n <= |events| && forall j | 0 <= j < n :: StillOpen(events, j, n) <==> j in open
    requires forall i | 0 <= i < |open| :: open[i] < n && Balance(events, open[i], n) == |open| - 1 - i
    requires forall i, j | 0 <= i < j < |open| :: open[i] < open[j]
    ensures Nested(events, open, n)
  {
    hide StillOpen, Balance;
    assert forall i | 0 <= i < |open| :: open[i] in open;
  }

  lemma PushNests(events: seq<Event>, open: seq<nat>, n: nat)
    requires n < |events| && Nested(events, open, n) && events[n].Open?
    ensures Nested(events, open + [n], n + 1)
  {
    var longer := open + [n];
    assert forall i | 0 <= i < |open| :: Balance(events, open[i], n + 1) == Balance(events, open[i], n) + 1;
    assert Balance(events, n, n + 1) == 0;
    hide Balance;
    forall j | 0 <= j < n + 1
      ensures StillOpen(events, j, n + 1) <==> j in longer
    {
      OpenStays(events, j, n);
      hide StillOpen;
    }
    hide StillOpen;
    NestedFrom(events, longer, n + 1);
  }

  lemma PopNests(events: seq<Event>, open: seq<nat>, n: nat)
    requires n < |events| && Nested(events, open, n) && events[n].Close? && open != []
    ensures Nested(events, open[..|open| - 1], n + 1)
  {
    var shorter := open[..|open| - 1];
    assert forall i | 0 <= i < |open| :: Balance(events, open[i], n + 1) == Balance(events, open[i], n) - 1;
    hide Balance, StillOpen;
    forall j | 0 <= j < n + 1
      ensures StillOpen(events, j, n + 1) <==> j in shorter
    {
      OpenStays(events, j, n);
      NotOpenItself(events, n);
      if j in open {
        var i :| 0 <= i < |open| && open[i] == j;
        assert i < |shorter| ==> shorter[i] == j;
      }
    }
    NestedFrom(events, shorter, n + 1);
  }

  lemma NotOpenItself(events: seq<Event>, n: nat)
    requires n < |events| && !events[n].Open?
    ensures !StillOpen(events, n, n + 1)
  {
  }

  lemma OtherNests(events: seq<Event>, open: seq<nat>, n: nat)
    requires n < |events| && Nested(events, open, n)
    requires !events[n].Open? && (events[n].Close? ==> open == [])
    ensures Nested(events, open, n + 1)
  {
    assert forall i | 0 <= i < |open| :: Balance(events, open[i], n + 1) == Balance(events, open[i], n);
    hide Balance, StillOpen;
    forall j | 0 <= j < n + 1
      ensures StillOpen(events, j, n + 1) <==> j in open
    {
      OpenStays(events, j, n);
      NotOpenItself(events, n);
      if j in open {
        var i :| 0 <= i < |open| && open[i] == j;
      }
    }
    NestedFrom(events, open, n + 1);
  }

  /** What an event does to the stack. */
  function StackThen(stack: seq<Block>, e: Event): seq<Block>
    requires stack != []
  {
    if e.Open? then stack + [Block(stack[|stack| - 1].testing || e.testing, e.name)]
    else if e.Close? && |stack| > 1 then stack[..|stack| - 1] else stack
  }

  lemma MirrorsNext(file: File, inherited: bool, stack: seq<Block>, open: seq<nat>, n: nat) returns (more: seq<nat>)
    requires n < |file.events| && Mirrors(file, inherited, stack, open, n)
    ensures stack != [] && Mirrors(file, inherited, StackThen(stack, file.events[n]), more, n + 1)
  {
    hide Mirrors, Nested;
    MirrorsMeans(file, inherited, stack, open, n);
    var e := file.events[n];
    if e.Open? {
      more := open + [n];
      PushNests(file.events, open, n);
      PushMirrors(file, inherited, stack, open, n);
    } else if e.Close? && open != [] {
      more := open[..|open| - 1];
      PopNests(file.events, open, n);
      PopMirrors(file, inherited, stack, open, n);
    } else {
      more := open;
      OtherNests(file.events, open, n);
      SameMirrors(file, inherited, stack, open, n);
    }
  }

  lemma {:induction false} StackMirrors(path: Path, file: File, inherited: bool, n: nat) returns (open: seq<nat>)
    requires n <= |file.events|
    ensures Mirrors(file, inherited, ScanTo(path, file, inherited, n).stack, open, n)
  {
    hide Mirrors, ScanTo, StackThen;
    if n == 0 {
      open := [];
      StartMirrors(path, file, inherited);
    } else {
      open := StackMirrors(path, file, inherited, n - 1);
      MirrorsMeans(file, inherited, ScanTo(path, file, inherited, n - 1).stack, open, n - 1);
      StackAfter(path, file, inherited, n - 1);
      open := MirrorsNext(file, inherited, ScanTo(path, file, inherited, n - 1).stack, open, n - 1);
    }
  }

  lemma StartMirrors(path: Path, file: File, inherited: bool)
    ensures Mirrors(file, inherited, ScanTo(path, file, inherited, 0).stack, [], 0)
  {
    hide StillOpen, Balance;
  }

  lemma MirrorsMeans(file: File, inherited: bool, stack: seq<Block>, open: seq<nat>, n: nat)
    requires n <= |file.events| && Mirrors(file, inherited, stack, open, n)
    ensures |stack| == |open| + 1 && Nested(file.events, open, n)
  {
  }

  lemma PushMirrors(file: File, inherited: bool, stack: seq<Block>, open: seq<nat>, n: nat)
    requires n < |file.events| && Mirrors(file, inherited, stack, open, n)
    requires file.events[n].Open? && Nested(file.events, open + [n], n + 1)
    ensures
      var top := stack[|stack| - 1].testing || file.events[n].testing;
      Mirrors(file, inherited, stack + [Block(top, file.events[n].name)], open + [n], n + 1)
  {
    hide StillOpen, Balance;
  }

  lemma PopMirrors(file: File, inherited: bool, stack: seq<Block>, open: seq<nat>, n: nat)
    requires n < |file.events| && Mirrors(file, inherited, stack, open, n)
    requires open != [] && Nested(file.events, open[..|open| - 1], n + 1)
    ensures Mirrors(file, inherited, stack[..|stack| - 1], open[..|open| - 1], n + 1)
  {
    hide StillOpen, Balance;
  }

  lemma SameMirrors(file: File, inherited: bool, stack: seq<Block>, open: seq<nat>, n: nat)
    requires n < |file.events| && Mirrors(file, inherited, stack, open, n) && Nested(file.events, open, n + 1)
    ensures Mirrors(file, inherited, stack, open, n + 1)
  {
    hide StillOpen, Balance;
  }

  lemma StackAfter(path: Path, file: File, inherited: bool, n: nat)
    requires n < |file.events| && ScanTo(path, file, inherited, n).stack != []
    ensures ScanTo(path, file, inherited, n + 1).stack ==
            StackThen(ScanTo(path, file, inherited, n).stack, file.events[n])
  {
    hide Names, Occurrences;
  }

  // ---------- what the stack says ----------

  lemma {:induction false} TestingIff(file: File, inherited: bool, stack: seq<Block>, open: seq<nat>, n: nat, i: nat)
    requires n <= |file.events| && Mirrors(file, inherited, stack, open, n) && i < |stack|
    ensures stack[i].testing <==>
            file.testFile || inherited || exists k | 0 <= k < i :: k < |open| && file.events[open[k]].testing
  {
    if i > 0 {
      TestingIff(file, inherited, stack, open, n, i - 1);
    }
  }

  lemma TopIsInTest(file: File, inherited: bool, stack: seq<Block>, open: seq<nat>, n: nat)
    requires n <= |file.events| && Mirrors(file, inherited, stack, open, n)
    ensures stack != [] && (stack[|stack| - 1].testing <==> InTest(file, inherited, n))
  {
    TestingIff(file, inherited, stack, open, n, |stack| - 1);
    if j :| 0 <= j < n && StillOpen(file.events, j, n) && file.events[j].testing {
      var k :| 0 <= k < |open| && open[k] == j;
    }
  }

  lemma {:induction false} NamesOfStack(file: File, stack: seq<Block>, open: seq<nat>)
    requires |stack| == |open|
    requires forall i | 0 <= i < |open| :: open[i] < |file.events| && file.events[open[i]].Open?
    requires forall i | 0 <= i < |open| :: stack[i].name == file.events[open[i]].name
    ensures Names(stack) == NamesAround(file.events, open)
  {
    if open != [] {
      NamesOfStack(file, stack[1..], open[1..]);
      NamesOfCons(stack);
    }
  }

  lemma {:induction false} NamesOfCons(stack: seq<Block>)
    requires stack != []
    ensures Names(stack) == (if stack[0].name == "" then [] else [stack[0].name]) + Names(stack[1..])
  {
    var last := |stack| - 1;
    if last > 0 {
      NamesOfCons(stack[..last]);
      assert stack[..last][1..] == stack[1..][..last - 1];
    }
  }

  // ---------- what a scan records ----------

  /** Event `k` is a call that a scan records, or stumbles over when it is not closed. */
  predicate Waits(file: File, inherited: bool, k: nat) {
    k < |file.events| && file.events[k].Call? && InTest(file, inherited, k)
  }

  /** Event `k` is a call in test code that is closed. */
  predicate Recorded(file: File, inherited: bool, k: nat) {
    Waits(file, inherited, k) && file.events[k].closed
  }

  /** The site of the call at `k`: its scope is the named blocks around it. */
  ghost predicate BaseAt(path: Path, file: File, k: nat, base: Base) {
    && k < |file.events| && file.events[k].Call? && base.path == path
    && base.operation == file.events[k].operation && base.fingerprint == file.events[k].fingerprint
    && exists open: seq<nat> :: Around(file.events, open, k) && base.scope == NamesAround(file.events, open)
  }

  /** How many of the first `i` sites have this base. */
  function Before(sites: seq<Site>, i: nat, base: Base): nat
    requires i <= |sites|
  {
    if i == 0 then 0 else Before(sites, i - 1, base) + (if sites[i - 1].base == base then 1 else 0)
  }

  /** `sites` are the calls at `calls`, numbered among equal bases. */
  ghost predicate AreSites(path: Path, file: File, sites: seq<Site>, calls: seq<nat>) {
    && |sites| == |calls|
    && forall i | 0 <= i < |sites| ::
         && BaseAt(path, file, calls[i], sites[i].base) && sites[i].line == file.events[calls[i]].line
         && sites[i].occurrence == Before(sites, i, sites[i].base) + 1
  }

  /** `calls` are the closed calls in test code among the first `n` events, in order. */
  predicate AreCalls(file: File, inherited: bool, calls: seq<nat>, n: nat) {
    && (forall i | 0 <= i < |calls| :: calls[i] < n && Recorded(file, inherited, calls[i]))
    && (forall i, j | 0 <= i < j < |calls| :: calls[i] < calls[j])
    && forall k | 0 <= k < n && Recorded(file, inherited, k) :: k in calls
  }

  lemma {:induction false} OccurrencesAreBefore(sites: seq<Site>, i: nat, base: Base)
    requires i <= |sites|
    ensures Occurrences(sites[..i], base) == Before(sites, i, base)
  {
    if i > 0 {
      OccurrencesAreBefore(sites, i - 1, base);
      assert sites[..i][..i - 1] == sites[..i - 1];
    }
  }

  lemma {:induction false} BeforeInLonger(sites: seq<Site>, more: Site, i: nat, base: Base)
    requires i <= |sites|
    ensures Before(sites + [more], i, base) == Before(sites, i, base)
  {
    if i > 0 {
      BeforeInLonger(sites, more, i - 1, base);
    }
  }

  lemma OneMoreSite(path: Path, file: File, sites: seq<Site>, calls: seq<nat>, site: Site, k: nat)
    requires AreSites(path, file, sites, calls) && BaseAt(path, file, k, site.base)
    requires site.line == file.events[k].line && site.occurrence == Occurrences(sites, site.base) + 1
    ensures AreSites(path, file, sites + [site], calls + [k])
  {
    hide BaseAt;
    var more := sites + [site];
    assert sites[..|sites|] == sites;
    OccurrencesAreBefore(sites, |sites|, site.base);
    forall i | 0 <= i < |more|
      ensures more[i].occurrence == Before(more, i, more[i].base) + 1
    {
      BeforeInLonger(sites, site, i, more[i].base);
    }
  }

  lemma ScopeIsAround(path: Path, file: File, inherited: bool, n: nat)
    requires n < |file.events| && file.events[n].Call?
    ensures
      var s, e := ScanTo(path, file, inherited, n), file.events[n];
      && (Testing(s) <==> InTest(file, inherited, n))
      && BaseAt(path, file, n, Base(path, Names(s.stack), e.operation, e.fingerprint))
  {
    hide ScanTo, StillOpen;
    var stack := ScanTo(path, file, inherited, n).stack;
    var open := StackMirrors(path, file, inherited, n);
    TopIsInTest(file, inherited, stack, open, n);
    StackNames(file, inherited, stack, open, n);
  }

  lemma StackNames(file: File, inherited: bool, stack: seq<Block>, open: seq<nat>, n: nat)
    requires n <= |file.events| && Mirrors(file, inherited, stack, open, n)
    ensures Around(file.events, open, n) && Names(stack) == NamesAround(file.events, open)
  {
    assert forall i | 0 <= i < |open| :: StillOpen(file.events, open[i], n);
    NamesOfStack(file, stack[1..], open);
    NamesOfCons(stack);
  }

  /** Event `k` refers to `r` from test code. */
  predicate Refers(file: File, inherited: bool, k: nat, r: Path) {
    && k < |file.events| && file.events[k].Declaration?
    && (file.events[k].testing || InTest(file, inherited, k)) && r in file.events[k].references
  }

  predicate Stumbles(file: File, inherited: bool, n: nat) {
    exists k | 0 <= k < n :: Waits(file, inherited, k) && !file.events[k].closed
  }

  predicate Referred(file: File, inherited: bool, n: nat, r: Path) {
    exists k | 0 <= k < n :: Refers(file, inherited, k, r)
  }

  /** What the first `n` events leave: the sites of `calls`, the references, and whether a call is not closed. */
  ghost predicate Records(path: Path, file: File, inherited: bool, s: Scan, calls: seq<nat>, n: nat)
    requires n <= |file.events|
  {
    && AreCalls(file, inherited, calls, n) && AreSites(path, file, s.sites, calls)
    && s.broken == Stumbles(file, inherited, n)
    && forall r :: r in s.references <==> Referred(file, inherited, n, r)
  }

  lemma CallsNext(file: File, inherited: bool, calls: seq<nat>, n: nat)
    requires n < |file.events| && AreCalls(file, inherited, calls, n)
    ensures
      AreCalls(file, inherited, if Recorded(file, inherited, n) then calls + [n] else calls, n + 1)
  {
    hide Recorded;
    var more := if Recorded(file, inherited, n) then calls + [n] else calls;
    forall k | 0 <= k < n + 1 && Recorded(file, inherited, k)
      ensures k in more
    {
      if k < n {
        assert k in calls;
      }
    }
  }

  lemma StumblesNext(file: File, inherited: bool, n: nat)
    requires n < |file.events|
    ensures Stumbles(file, inherited, n + 1) <==>
            Stumbles(file, inherited, n) || (Waits(file, inherited, n) && !file.events[n].closed)
  {
    hide InTest;
  }

  lemma ReferredNext(file: File, inherited: bool, n: nat, r: Path)
    requires n < |file.events|
    ensures Referred(file, inherited, n + 1, r) <==> Referred(file, inherited, n, r) || Refers(file, inherited, n, r)
  {
    hide InTest;
  }

  lemma SiteNext(path: Path, file: File, inherited: bool, n: nat, calls: seq<nat>)
    requires n < |file.events| && AreSites(path, file, ScanTo(path, file, inherited, n).sites, calls)
    ensures
      AreSites(path, file, ScanTo(path, file, inherited, n + 1).sites,
               if Recorded(file, inherited, n) then calls + [n] else calls)
  {
    var s, e, t := ScanTo(path, file, inherited, n), file.events[n], ScanTo(path, file, inherited, n + 1);
    assert t == Meet(path, s, e);
    hide ScanTo, InTest, BaseAt, AreSites, Names, Occurrences;
    if e.Call? {
      ScopeIsAround(path, file, inherited, n);
      if Testing(s) && e.closed {
        OneMoreSite(path, file, s.sites, calls, t.sites[|s.sites|], n);
      }
    }
  }

  lemma FlagsNext(path: Path, file: File, inherited: bool, n: nat)
    requires n < |file.events|
    ensures
      var s, t, e := ScanTo(path, file, inherited, n), ScanTo(path, file, inherited, n + 1), file.events[n];
      && (t.broken <==> s.broken || (Waits(file, inherited, n) && !e.closed))
      && forall r :: r in t.references <==> r in s.references || Refers(file, inherited, n, r)
  {
    var s, e, t := ScanTo(path, file, inherited, n), file.events[n], ScanTo(path, file, inherited, n + 1);
    assert t == Meet(path, s, e);
    hide ScanTo, InTest, Names, Occurrences;
    if e.Call? {
      ScopeIsAround(path, file, inherited, n);
    } else if e.Declaration? {
      TestingHere(path, file, inherited, n);
    }
  }

  lemma TestingHere(path: Path, file: File, inherited: bool, n: nat)
    requires n <= |file.events|
    ensures Testing(ScanTo(path, file, inherited, n)) <==> InTest(file, inherited, n)
  {
    hide ScanTo, StillOpen;
    var open := StackMirrors(path, file, inherited, n);
    TopIsInTest(file, inherited, ScanTo(path, file, inherited, n).stack, open, n);
  }

  lemma RecordsNext(path: Path, file: File, inherited: bool, n: nat, calls: seq<nat>) returns (more: seq<nat>)
    requires n < |file.events| && Records(path, file, inherited, ScanTo(path, file, inherited, n), calls, n)
    ensures Records(path, file, inherited, ScanTo(path, file, inherited, n + 1), more, n + 1)
  {
    hide ScanTo, Waits, Recorded, Refers, AreCalls, AreSites, Stumbles, Referred;
    more := if Recorded(file, inherited, n) then calls + [n] else calls;
    CallsNext(file, inherited, calls, n);
    SiteNext(path, file, inherited, n, calls);
    FlagsNext(path, file, inherited, n);
    StumblesNext(file, inherited, n);
    forall r
      ensures Referred(file, inherited, n + 1, r) <==> Referred(file, inherited, n, r) || Refers(file, inherited, n, r)
    {
      ReferredNext(file, inherited, n, r);
    }
  }

  lemma NothingRecorded(path: Path, file: File, inherited: bool)
    ensures Records(path, file, inherited, ScanTo(path, file, inherited, 0), [], 0)
  {
    hide Recorded, Waits, Refers, BaseAt;
  }

  /**
    A scan records exactly the closed calls that stand in test code, in order, each
    with the named blocks around it and its number among equal sites; it follows
    exactly the references of declarations in test code; and it raises exactly when
    some call in test code is not closed.
  */
  lemma {:induction false} ScanRecords(path: Path, file: File, inherited: bool, n: nat) returns (calls: seq<nat>)
    requires n <= |file.events|
    ensures Records(path, file, inherited, ScanTo(path, file, inherited, n), calls, n)
  {
    hide ScanTo, Records;
    if n == 0 {
      calls := [];
      NothingRecorded(path, file, inherited);
    } else {
      calls := ScanRecords(path, file, inherited, n - 1);
      calls := RecordsNext(path, file, inherited, n - 1, calls);
    }
  }

  /** The inventory raises exactly when some call in test code, of some file with its final flag, is not closed. */
  lemma RaisesIff(sources: Sources, inherited: set<Path>)
    ensures Raises(sources, inherited) <==>
            exists p | p in sources :: Stumbles(sources[p], p in inherited, |sources[p].events|)
  {
    hide ScanTo, Stumbles, Records;
    forall p | p in sources
      ensures ScanSource(p, sources[p], p in inherited).broken == Stumbles(sources[p], p in inherited, |sources[p].events|)
    {
      var calls := ScanRecords(p, sources[p], p in inherited, |sources[p].events|);
      RecordsMeans(p, sources[p], p in inherited, ScanSource(p, sources[p], p in inherited), calls);
    }
  }

  lemma RecordsMeans(path: Path, file: File, inherited: bool, s: Scan, calls: seq<nat>)
    requires Records(path, file, inherited, s, calls, |file.events|)
    ensures s.broken == Stumbles(file, inherited, |file.events|)
  {
  }
}
