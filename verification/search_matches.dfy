/**
  Which lines a search reports: every matching line of every readable file, in
  order, under its own number.
*/
module SearchMatches {
  import opened Wrappers
  import opened Text
  import opened Search

  /** `lines[i]` as it is shown: numbered from one, cut to 1 KiB. */
  predicate ShowsLine(m: Match, path: string, lines: seq<string>, i: nat) {
    && i < |lines| && m.path == path && m.line == i + 1
    && m.text == TruncateUtf8(lines[i], 1024) && (m.truncated <==> ByteLen(lines[i]) > 1024)
  }

  /** `at` are the matching ones of the first `n` lines, in order. */
  predicate AllOf(lines: seq<string>, matches: string -> bool, n: nat, at: seq<nat>) {
    && (forall i | 0 <= i < |at| :: at[i] < n && at[i] < |lines| && matches(lines[at[i]]))
    && (forall i, j | 0 <= i < j < |at| :: at[i] < at[j])
    && forall k | 0 <= k < n && k < |lines| && matches(lines[k]) :: k in at
  }

  lemma {:induction false} LinesAre(path: string, lines: seq<string>, matches: string -> bool, n: nat) returns (at: seq<nat>)
    requires n <= |lines|
    ensures AllOf(lines, matches, n, at) && |at| == |FileMatches(path, lines, matches, n)|
    ensures forall i | 0 <= i < |at| :: ShowsLine(FileMatches(path, lines, matches, n)[i], path, lines, at[i])
  {
    hide TruncateUtf8, ByteLen;
    at := [];
    if n > 0 {
      at := LinesAre(path, lines, matches, n - 1);
      if matches(lines[n - 1]) {
        var more := at + [n - 1];
        forall k | 0 <= k < n && matches(lines[k])
          ensures k in more
        {
          if k < n - 1 {
            assert k in at;
          }
        }
        at := more;
      }
    }
  }

  /** A file that is searched: text of at most 1 MiB. */
  predicate Searched(c: Candidate) {
    c.size <= 1_048_576 && c.lines.Some?
  }

  function LinesOf(c: Candidate): seq<string> {
    if c.lines.Some? then c.lines.value else []
  }

  /** A reported line: which file, and which of its lines. */
  datatype Place = Place(file: nat, line: nat)

  predicate Comes(a: Place, b: Place) {
    a.file < b.file || (a.file == b.file && a.line < b.line)
  }

  predicate Reported(candidates: seq<Candidate>, matches: string -> bool, p: Place) {
    && p.file < |candidates| && Searched(candidates[p.file])
    && p.line < |LinesOf(candidates[p.file])| && matches(LinesOf(candidates[p.file])[p.line])
  }

  /** `at` are the places reported from the first `n` files, file by file and line by line. */
  ghost predicate Places(candidates: seq<Candidate>, matches: string -> bool, n: nat, at: seq<Place>) {
    && (forall i | 0 <= i < |at| :: at[i].file < n && Reported(candidates, matches, at[i]))
    && (forall i, j | 0 <= i < j < |at| :: Comes(at[i], at[j]))
    && forall p: Place | p.file < n && Reported(candidates, matches, p) :: p in at
  }

  /** Every matching line of every searched file is reported once, in order, as it is shown. */
  lemma {:induction false} MatchesAre(candidates: seq<Candidate>, matches: string -> bool, n: nat) returns (at: seq<Place>)
    requires n <= |candidates|
    ensures Places(candidates, matches, n, at) && |at| == |AllMatches(candidates, matches, n)|
    ensures forall i | 0 <= i < |at| :: at[i].file < n
    ensures forall i | 0 <= i < |at| ::
              ShowsLine(AllMatches(candidates, matches, n)[i], candidates[at[i].file].path,
                        LinesOf(candidates[at[i].file]), at[i].line)
  {
    hide FileMatches, ShowsLine, Places, AllMatches, AllOf, MatchesIn;
    if n == 0 {
      at := [];
      StartOfFiles(candidates, matches);
      NoPlaces(candidates, matches);
    } else {
      at := MatchesAre(candidates, matches, n - 1);
      NextFile(candidates, matches, n - 1);
      var c, before, was := candidates[n - 1], at, AllMatches(candidates, matches, n - 1);
      if Searched(c) {
        var lines := LinesAre(c.path, c.lines.value, matches, |c.lines.value|);
        at := MorePlaces(candidates, matches, n, before, lines);
        var now, more := AllMatches(candidates, matches, n), FileMatches(c.path, c.lines.value, matches, |c.lines.value|);
        assert now == was + more by { SearchedMatches(c, matches); }
        forall i | 0 <= i < |at|
          ensures ShowsLine(now[i], candidates[at[i].file].path, LinesOf(candidates[at[i].file]), at[i].line)
        {
          if i < |before| {
            assert at[..|before|][i] == at[i] && now[i] == was[i];
          } else {
            assert at[|before| + (i - |before|)] == Place(n - 1, lines[i - |before|]) && now[i] == more[i - |before|];
          }
        }
      } else {
        SamePlaces(candidates, matches, n, at);
        assert was + [] == was;
        SearchedMatches(c, matches);
      }
    }
  }

  lemma SearchedMatches(c: Candidate, matches: string -> bool)
    ensures MatchesIn(c, matches) ==
            if Searched(c) then FileMatches(c.path, c.lines.value, matches, |c.lines.value|) else []
  {
    hide FileMatches;
  }

  lemma NoPlaces(candidates: seq<Candidate>, matches: string -> bool)
    ensures Places(candidates, matches, 0, [])
  {
  }

  lemma SamePlaces(candidates: seq<Candidate>, matches: string -> bool, n: nat, at: seq<Place>)
    requires 0 < n <= |candidates| && !Searched(candidates[n - 1]) && Places(candidates, matches, n - 1, at)
    ensures Places(candidates, matches, n, at)
  {
    forall p: Place | p.file < n && Reported(candidates, matches, p)
      ensures p in at
    {
      assert p.file != n - 1;
    }
  }

  lemma MorePlaces(candidates: seq<Candidate>, matches: string -> bool, n: nat, before: seq<Place>, lines: seq<nat>)
    returns (at: seq<Place>)
    requires 0 < n <= |candidates| && Places(candidates, matches, n - 1, before) && Searched(candidates[n - 1])
    requires AllOf(candidates[n - 1].lines.value, matches, |candidates[n - 1].lines.value|, lines)
    ensures Places(candidates, matches, n, at) && |at| == |before| + |lines| && at[..|before|] == before
    ensures forall i | 0 <= i < |at| :: at[i].file < n
    ensures forall i | 0 <= i < |lines| :: at[|before| + i] == Place(n - 1, lines[i])
  {
    var more := seq(|lines|, i requires 0 <= i < |lines| => Place(n - 1, lines[i]));
    at := before + more;
    forall k: nat
      ensures Reported(candidates, matches, Place(n - 1, k)) <==> k in lines
    {
      InLast(candidates, matches, n, lines, k);
    }
    hide Reported, AllOf, Searched, Comes;
    forall i | 0 <= i < |at|
      ensures at[i].file < n && Reported(candidates, matches, at[i])
    {
      if i >= |before| {
        assert at[i] == Place(n - 1, lines[i - |before|]) && lines[i - |before|] in lines;
      }
    }
    Increasing(candidates, matches, n, lines);
    InOrder(before, more, n - 1);
    forall p: Place | p.file < n && Reported(candidates, matches, p)
      ensures p in at
    {
      if p.file < n - 1 {
        assert p in before;
      } else {
        assert p == Place(n - 1, p.line) && p.line in lines;
        var i :| 0 <= i < |lines| && lines[i] == p.line;
        assert more[i] == p;
      }
    }
  }

  lemma InOrder(before: seq<Place>, more: seq<Place>, file: nat)
    requires forall i | 0 <= i < |before| :: before[i].file < file
    requires forall i | 0 <= i < |more| :: more[i].file == file
    requires forall i, j | 0 <= i < j < |before| :: Comes(before[i], before[j])
    requires forall i, j | 0 <= i < j < |more| :: more[i].line < more[j].line
    ensures forall i, j | 0 <= i < j < |before + more| :: Comes((before + more)[i], (before + more)[j])
  {
    forall i, j | 0 <= i < j < |before + more|
      ensures Comes((before + more)[i], (before + more)[j])
    {
      if j >= |before| {
        assert (before + more)[j] == more[j - |before|];
      }
    }
  }

  lemma InLast(candidates: seq<Candidate>, matches: string -> bool, n: nat, lines: seq<nat>, k: nat)
    requires 0 < n <= |candidates| && Searched(candidates[n - 1])
    requires AllOf(candidates[n - 1].lines.value, matches, |candidates[n - 1].lines.value|, lines)
    ensures Reported(candidates, matches, Place(n - 1, k)) <==> k in lines
  {
  }

  lemma Increasing(candidates: seq<Candidate>, matches: string -> bool, n: nat, lines: seq<nat>)
    requires 0 < n <= |candidates| && Searched(candidates[n - 1])
    requires AllOf(candidates[n - 1].lines.value, matches, |candidates[n - 1].lines.value|, lines)
    ensures forall i, j | 0 <= i < j < |lines| :: lines[i] < lines[j]
  {
  }
}
