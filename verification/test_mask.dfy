/**
  The masking of comments, strings and characters in scripts/check-test-waits.py,
  done before the scan so that only code is searched for calls and braces.
*/
module TestMask {
  import opened Wrappers
  import opened Text
  import opened Sequences

  predicate At(s: string, i: nat, c: char) {
    i < |s| && s[i] == c
  }

  // ---------- where a literal or comment ends ----------

  /** Nested block comments; `depth` counts the open ones. */
  function BlockEnd(s: string, i: nat, depth: nat): (e: nat)
    requires i <= |s|
    ensures i <= e <= |s|
    decreases |s| - i
  {
    if i == |s| || depth == 0 then i
    else if At(s, i, '/') && At(s, i + 1, '*') then BlockEnd(s, i + 2, depth + 1)
    else if At(s, i, '*') && At(s, i + 1, '/') then BlockEnd(s, i + 2, depth - 1)
    else BlockEnd(s, i + 1, depth)
  }

  /** First position at or after `i` that does not hold one of `cs`. */
  function RunEnd(s: string, i: nat, cs: set<char>): (e: nat)
    requires i <= |s|
    ensures i <= e <= |s| && (e < |s| ==> s[e] !in cs)
    ensures forall k | i <= k < e :: s[k] in cs
    decreases |s| - i
  {
    if i < |s| && s[i] in cs then RunEnd(s, i + 1, cs) else i
  }

  const HASHES: set<char> := {'#'}

  const HEX_DIGITS: set<char> := {
    '0', '1', '2', '3', '4', '5', '6', '7', '8', '9',
    'a', 'b', 'c', 'd', 'e', 'f', 'A', 'B', 'C', 'D', 'E', 'F'}

  /** A raw string's first quote, for `r` at position `r`. */
  function RawQuote(s: string, r: nat): (q: Option<nat>)
    ensures q.Some? ==> r < q.value < |s|
  {
    if !At(s, r, 'r') then None
    else
      var h := RunEnd(s, r + 1, HASHES);
      if At(s, h, '"') then Some(h) else None
  }

  predicate Closes(s: string, j: nat, hashes: nat) {
    At(s, j, '"') && j + hashes < |s| && forall k | j < k <= j + hashes :: s[k] == '#'
  }

  /** Behind the quote that closes a raw string, or the end of the text. */
  function RawEnd(s: string, i: nat, hashes: nat): (e: nat)
    requires i <= |s|
    ensures i <= e <= |s|
    decreases |s| - i
  {
    if i == |s| then i else if Closes(s, i, hashes) then i + 1 + hashes else RawEnd(s, i + 1, hashes)
  }

  /** End of a character literal whose quote is at `q`: three spellings. */
  function CharEnd(s: string, q: nat): (e: Option<nat>)
    ensures e.Some? ==> q + 3 <= e.value <= |s|
  {
    if !At(s, q, '\'') then None
    else if UnicodeEscape(s, q) then Some(RunEnd(s, q + 4, HEX_DIGITS) + 2)
    else if Escape(s, q) then Some(q + 4)
    else if PlainChar(s, q) then Some(q + 3)
    else None
  }

  predicate UnicodeEscape(s: string, q: nat) {
    && At(s, q + 1, '\\') && At(s, q + 2, 'u') && At(s, q + 3, '{')
    && var h := RunEnd(s, q + 4, HEX_DIGITS);
       h > q + 4 && At(s, h, '}') && At(s, h + 1, '\'')
  }

  predicate Escape(s: string, q: nat) {
    At(s, q + 1, '\\') && q + 2 < |s| && s[q + 2] != '\n' && At(s, q + 3, '\'')
  }

  predicate PlainChar(s: string, q: nat) {
    q + 1 < |s| && s[q + 1] != '\'' && s[q + 1] != '\\' && s[q + 1] != '\n' && At(s, q + 2, '\'')
  }

  /** Behind a string's closing quote; a last lone backslash steps past the text. */
  function StringEnd(s: string, i: nat): (e: nat)
    requires i <= |s| + 1
    ensures i <= e <= |s| + 1
    decreases |s| + 1 - i
  {
    if i >= |s| then i
    else if s[i] == '\\' then StringEnd(s, i + 2)
    else if s[i] == '"' then i + 1
    else StringEnd(s, i + 1)
  }

  function Quote(s: string, i: nat): nat {
    if At(s, i, 'b') && At(s, i + 1, '\'') then i + 1 else i
  }

  function RawStart(s: string, i: nat): nat {
    if At(s, i, 'b') && At(s, i + 1, 'r') then i + 1 else i
  }

  /** End of what starts at `i`; `i` itself when that is code. */
  function Region(s: string, i: nat): (e: nat)
    requires i < |s|
    ensures i <= e <= |s| + 1
  {
    var raw := RawQuote(s, RawStart(s, i));
    if At(s, i, '/') && At(s, i + 1, '/') then FindChar(s, '\n', i)
    else if At(s, i, '/') && At(s, i + 1, '*') then BlockEnd(s, i + 2, 1)
    else if raw.Some? then RawEnd(s, raw.value + 1, raw.value - RawStart(s, i) - 1)
    else if CharEnd(s, Quote(s, i)).Some? then CharEnd(s, Quote(s, i)).value
    else if At(s, i, '"') then StringEnd(s, i + 1)
    else if At(s, i, 'b') && At(s, i + 1, '"') then StringEnd(s, i + 2)
    else i
  }

  // ---------- masking ----------

  function Blank(s: string, i: nat, e: nat): (r: string)
    requires i <= e <= |s|
    ensures |r| == e - i && forall k | 0 <= k < e - i :: r[k] == if s[i + k] == '\n' then '\n' else ' '
  {
    seq(e - i, k requires 0 <= k < e - i => if s[i + k] == '\n' then '\n' else ' ')
  }

  /** The masked text from `i` on; stepping past the end is the script's index error. */
  function MaskFrom(s: string, i: nat): Result<string, string>
    requires i <= |s|
    decreases |s| - i
  {
    if i == |s| then Ok("")
    else
      var e := Region(s, i);
      if e > |s| then Err("index out of range")
      else
        var next := if e > i then e else i + 1;
        match MaskFrom(s, next)
        case Err(error) => Err(error)
        case Ok(rest) => Ok((if e > i then Blank(s, i, e) else [s[i]]) + rest)
  }

  function Mask(s: string): Result<string, string> {
    MaskFrom(s, 0)
  }

  method MaskNonCode(source: string) returns (r: Result<string, string>)
    ensures r == Mask(source)
  {
    hide Region, Blank;
    var result, index := "", 0;
    assert forall rest: string :: "" + rest == rest;
    while index < |source|
      invariant index <= |source|
      invariant Mask(source) == match MaskFrom(source, index)
                                case Err(e) => Err(e)
                                case Ok(rest) => Ok(result + rest)
    {
      var end := Region(source, index);
      if end > |source| {
        return Err("index out of range");
      }
      ghost var rest := MaskFrom(source, if end > index then end else index + 1);
      if end > index {
        if rest.Ok? {
          Assoc(result, Blank(source, index, end), rest.value);
        }
        result := result + Blank(source, index, end);
        index := end;
      } else {
        if rest.Ok? {
          Assoc(result, [source[index]], rest.value);
        }
        result := result + [source[index]];
        index := index + 1;
      }
    }
    assert result + "" == result;
    return Ok(result);
  }

  function Piece(s: string, i: nat, e: nat): string
    requires i < |s| && i <= e <= |s|
  {
    if e > i then Blank(s, i, e) else [s[i]]
  }

  function Beyond(i: nat, e: nat): nat { if e > i then e else i + 1 }

  lemma MaskStep(s: string, i: nat)
    requires i < |s| && MaskFrom(s, i).Ok?
    ensures
      var e := Region(s, i);
      && e <= |s| && MaskFrom(s, Beyond(i, e)).Ok?
      && MaskFrom(s, i).value == Piece(s, i, e) + MaskFrom(s, Beyond(i, e)).value
  {
    hide Region;
  }

  /** `r` has the offsets and line breaks of `s` from `i` on; the rest is kept or blanked. */
  predicate Faithful(s: string, i: nat, r: string) {
    && i + |r| <= |s|
    && forall k | 0 <= k < |r| :: (r[k] == s[i + k] || r[k] == ' ') && (r[k] == '\n' <==> s[i + k] == '\n')
  }

  lemma PieceIsFaithful(s: string, i: nat, e: nat)
    requires i < |s| && i <= e <= |s|
    ensures Faithful(s, i, Piece(s, i, e)) && |Piece(s, i, e)| == Beyond(i, e) - i
  {
  }

  lemma FaithfulJoins(s: string, i: nat, a: string, b: string)
    requires Faithful(s, i, a) && Faithful(s, i + |a|, b)
    ensures Faithful(s, i, a + b)
  {
    var r := a + b;
    forall k | 0 <= k < |r|
      ensures (r[k] == s[i + k] || r[k] == ' ') && (r[k] == '\n' <==> s[i + k] == '\n')
    {
      assert k >= |a| ==> r[k] == b[k - |a|] && s[i + |a| + (k - |a|)] == s[i + k];
    }
  }

  /** Offsets and line breaks stay; every other character is kept or blanked. */
  lemma {:induction false} MaskShape(s: string, i: nat)
    requires i <= |s| && MaskFrom(s, i).Ok?
    ensures |MaskFrom(s, i).value| == |s| - i && Faithful(s, i, MaskFrom(s, i).value)
    decreases |s| - i
  {
    if i < |s| {
      MaskStep(s, i);
      hide Region, MaskFrom, Faithful, Piece;
      var e := Region(s, i);
      MaskShape(s, Beyond(i, e));
      PieceIsFaithful(s, i, e);
      FaithfulJoins(s, i, Piece(s, i, e), MaskFrom(s, Beyond(i, e)).value);
    }
  }

  // ---------- masking twice ----------

  /** `m` is `s` masked from `i` on. */
  predicate Masked(s: string, m: string, i: nat) {
    i <= |s| == |m| && MaskFrom(s, i) == Ok(m[i..])
  }

  /** A masked stretch is never a single character unless the text ends there. */
  lemma RegionIsWide(s: string, i: nat)
    requires i < |s| && Region(s, i) > i
    ensures Region(s, i) >= i + 2 || Region(s, i) == |s|
  {
  }

  predicate Solid(c: char) { c != ' ' && c != '\n' }

  /** What the masking kept reads the same in both texts, line breaks too. */
  predicate Agree(s: string, m: string, i: nat) {
    && |s| == |m|
    && forall k | i <= k < |s| :: (m[k] == s[k] || m[k] == ' ') && (m[k] == '\n' <==> s[k] == '\n')
  }

  lemma MaskedAgrees(s: string, m: string, i: nat)
    requires Masked(s, m, i)
    ensures Agree(s, m, i)
  {
    MaskShape(s, i);
    hide MaskFrom;
    var tail := m[i..];
    assert forall k | i <= k < |s| :: tail[k - i] == m[k];
  }

  lemma TailOfTail(m: string, i: nat, n: nat, piece: string, rest: string)
    requires i <= |m| && m[i..] == piece + rest && n == i + |piece|
    ensures n <= |m| && m[i..n] == piece && m[n..] == rest
  {
    assert m[i..][|piece|..] == rest && m[i..][..|piece|] == piece;
  }

  /** One step: code is kept and the next position is reached; else blanks follow. */
  lemma Reached(s: string, m: string, i: nat)
    requires Masked(s, m, i) && i < |s|
    ensures Region(s, i) <= |s| && Masked(s, m, Beyond(i, Region(s, i)))
    ensures m[i..Beyond(i, Region(s, i))] == Piece(s, i, Region(s, i))
  {
    MaskStep(s, i);
    hide Region, MaskFrom;
    var e := Region(s, i);
    TailOfTail(m, i, Beyond(i, e), Piece(s, i, e), MaskFrom(s, Beyond(i, e)).value);
  }

  /** What one step says about single characters. */
  lemma ReachedChars(s: string, m: string, i: nat)
    requires Masked(s, m, i) && i < |s|
    ensures Region(s, i) == i ==> m[i] == s[i] && Masked(s, m, i + 1)
    ensures Region(s, i) != i ==> !Solid(m[i]) && (i + 1 < |s| ==> !Solid(m[i + 1]))
  {
    Reached(s, m, i);
    if Region(s, i) > i {
      RegionIsWide(s, i);
    }
    hide Region, Masked;
    var e := Region(s, i);
    var piece := m[i..Beyond(i, e)];
    assert piece[0] == m[i];
    assert e >= i + 2 ==> piece[1] == m[i + 1];
  }

  lemma {:induction false} RunsAgree(s: string, m: string, i: nat, cs: set<char>)
    requires Agree(s, m, i) && i <= |s| && ' ' !in cs && '\n' !in cs
    requires RunEnd(m, i, cs) < |m| && Solid(m[RunEnd(m, i, cs)])
    ensures RunEnd(s, i, cs) == RunEnd(m, i, cs)
    decreases |s| - i
  {
    if m[i] in cs {
      RunsAgree(s, m, i + 1, cs);
    }
  }

  /** A raw string in the masked text was one before. */
  lemma RawAgrees(s: string, m: string, r: nat)
    requires Agree(s, m, r) && RawQuote(m, r).Some?
    ensures RawQuote(s, r) == RawQuote(m, r)
  {
    RunsAgree(s, m, r + 1, HASHES);
  }

  lemma UnicodeAgrees(s: string, m: string, q: nat)
    requires Agree(s, m, q) && UnicodeEscape(m, q)
    ensures UnicodeEscape(s, q)
  {
    var h := RunEnd(m, q + 4, HEX_DIGITS);
    assert Solid('}') && Solid('\'');
    RunsAgree(s, m, q + 4, HEX_DIGITS);
    hide RunEnd;
    assert m[h] == s[h] && m[h + 1] == s[h + 1];
  }

  /** A character literal in the masked text was one before: no lone blank can close it. */
  lemma CharAgrees(s: string, m: string, q: nat)
    requires q < |s| && Agree(s, m, q) && Masked(s, m, q + 1) && CharEnd(m, q).Some?
    ensures CharEnd(s, q).Some?
  {
    hide MaskFrom, Region, Masked;
    if UnicodeEscape(m, q) {
      UnicodeAgrees(s, m, q);
    } else {
      hide UnicodeEscape;
      ReachedChars(s, m, q + 1);
      if Escape(m, q) {
        ReachedChars(s, m, q + 2);
      }
    }
  }

  predicate OpensComment(s: string, i: nat) {
    At(s, i, '/') && (At(s, i + 1, '/') || At(s, i + 1, '*'))
  }

  predicate OpensString(s: string, i: nat) {
    At(s, i, '"') || (At(s, i, 'b') && At(s, i + 1, '"'))
  }

  lemma RegionIff(s: string, i: nat)
    requires i < |s|
    ensures Region(s, i) == i <==>
            && !OpensComment(s, i) && RawQuote(s, RawStart(s, i)).None?
            && CharEnd(s, Quote(s, i)).None? && !OpensString(s, i)
  {
    hide CharEnd, RawQuote, RunEnd;
    assert s[i] == '/' ==> s[i] != '\n';
  }

  lemma RawStaysAway(s: string, m: string, i: nat)
    requires i < |s| && Agree(s, m, i) && m[i] == s[i] && RawQuote(s, RawStart(s, i)).None?
    ensures RawQuote(m, RawStart(m, i)).None?
  {
    hide RawQuote;
    if RawQuote(m, RawStart(m, i)).Some? {
      RawStartAgrees(s, m, i);
      RawAgrees(s, m, RawStart(m, i));
    }
  }

  lemma CharStaysAway(s: string, m: string, i: nat)
    requires i < |s| && Masked(s, m, i) && Masked(s, m, i + 1) && Agree(s, m, i) && m[i] == s[i]
    requires CharEnd(s, Quote(s, i)).None?
    ensures CharEnd(m, Quote(m, i)).None?
  {
    hide CharEnd, Masked;
    if CharEnd(m, Quote(m, i)).Some? {
      QuoteAgrees(s, m, i);
      CharAgrees(s, m, Quote(m, i));
    }
  }

  lemma OpeningsStayAway(s: string, m: string, i: nat)
    requires i < |s| && Agree(s, m, i) && m[i] == s[i] && !OpensComment(s, i) && !OpensString(s, i)
    ensures !OpensComment(m, i) && !OpensString(m, i)
  {
  }

  /** Code that survives the masking is still code afterwards. */
  lemma CodeStaysCode(s: string, m: string, i: nat)
    requires i < |s| && Masked(s, m, i) && Region(s, i) == i
    ensures Region(m, i) == i
  {
    MaskedAgrees(s, m, i);
    RegionIff(s, i);
    RegionIff(m, i);
    ReachedChars(s, m, i);
    hide Masked, Region, RawQuote, CharEnd, OpensComment, OpensString;
    RawStaysAway(s, m, i);
    CharStaysAway(s, m, i);
    OpeningsStayAway(s, m, i);
  }

  lemma RawStartAgrees(s: string, m: string, i: nat)
    requires i < |s| && Agree(s, m, i) && m[i] == s[i] && RawQuote(m, RawStart(m, i)).Some?
    ensures RawStart(s, i) == RawStart(m, i)
  {
    hide RunEnd;
  }

  lemma QuoteAgrees(s: string, m: string, i: nat)
    requires i < |s| && Masked(s, m, i) && Masked(s, m, i + 1) && Agree(s, m, i) && m[i] == s[i]
    requires CharEnd(m, Quote(m, i)).Some?
    ensures Quote(s, i) == Quote(m, i) && Quote(m, i) < |s| && Masked(s, m, Quote(m, i) + 1)
  {
    hide MaskFrom, Masked, Region, UnicodeEscape, Escape, PlainChar;
    if Quote(m, i) == i + 1 {
      ReachedChars(s, m, i + 1);
    }
  }

  lemma BlankIsCode(m: string, i: nat)
    requires i < |m| && !Solid(m[i])
    ensures Region(m, i) == i
  {
  }

  lemma MaskOfCode(m: string, i: nat)
    requires i < |m| && Region(m, i) == i && MaskFrom(m, i + 1) == Ok(m[i + 1..])
    ensures MaskFrom(m, i) == Ok(m[i..])
  {
    hide Region;
    assert m[i..] == [m[i]] + m[i + 1..];
  }

  /** A stretch of blanks is code to the masking and stays as it is. */
  lemma {:induction false} BlanksStay(m: string, i: nat, e: nat)
    requires i <= e <= |m| && (forall k | i <= k < e :: !Solid(m[k])) && MaskFrom(m, e) == Ok(m[e..])
    ensures MaskFrom(m, i) == Ok(m[i..])
    decreases e - i
  {
    if i < e {
      hide MaskFrom, Region;
      BlanksStay(m, i + 1, e);
      BlankIsCode(m, i);
      MaskOfCode(m, i);
    }
  }

  lemma {:induction false} MaskAgain(s: string, m: string, i: nat)
    requires Masked(s, m, i)
    ensures MaskFrom(m, i) == Ok(m[i..])
    decreases |s| - i
  {
    if i < |s| {
      Reached(s, m, i);
      hide Region;
      var e := Region(s, i);
      MaskAgain(s, m, Beyond(i, e));
      if e > i {
        BlankPiece(s, m, i, e);
        BlanksStay(m, i, e);
      } else {
        CodeStaysCode(s, m, i);
        MaskOfCode(m, i);
      }
    }
  }

  lemma BlankPiece(s: string, m: string, i: nat, e: nat)
    requires i < e <= |s| == |m| && m[i..e] == Blank(s, i, e)
    ensures forall k | i <= k < e :: !Solid(m[k])
  {
    forall k | i <= k < e
      ensures !Solid(m[k])
    {
      assert m[i..e][k - i] == m[k];
    }
  }

  /** Masking masked text changes nothing. */
  lemma MaskIsIdempotent(s: string)
    requires Mask(s).Ok?
    ensures Mask(Mask(s).value) == Mask(s)
  {
    MaskShape(s, 0);
    var m := Mask(s).value;
    hide MaskFrom;
    assert m[0..] == m;
    MaskAgain(s, m, 0);
  }

  // ---------- when masking fails ----------

  /** Where the backslashes at the end of the text begin. */
  function TrailingRun(s: string, end: nat): (t: nat)
    requires end <= |s|
    ensures t <= end && (t > 0 ==> s[t - 1] != '\\') && forall k | t <= k < end :: s[k] == '\\'
  {
    if end > 0 && s[end - 1] == '\\' then TrailingRun(s, end - 1) else end
  }

  /** The position is code to comments, raw strings and characters, and opens a plain string. */
  predicate OpensPlainString(s: string, i: nat)
    requires i < |s|
  {
    && !OpensComment(s, i) && RawQuote(s, RawStart(s, i)).None?
    && CharEnd(s, Quote(s, i)).None? && OpensString(s, i)
  }

  /** Where the contents of the string opened at `i` begin. */
  function StringBody(s: string, i: nat): nat {
    if At(s, i, '"') then i + 1 else i + 2
  }

  /** A string read from `j` is still open at `t`, with no escape reaching over it. */
  predicate StillInside(s: string, j: nat, t: nat)
    requires t <= |s|
    decreases |s| + 2 - j
  {
    j == t || (j < t && (if s[j] == '\\' then StillInside(s, j + 2, t) else s[j] != '"' && StillInside(s, j + 1, t)))
  }

  /** The masking, started at `from`, comes to look at position `i`. */
  predicate Visits(s: string, from: nat, i: nat)
    requires from <= |s|
    decreases |s| - from
  {
    from == i
    || (from < |s| && Region(s, from) <= |s| && Visits(s, Beyond(from, Region(s, from)), i))
  }

  /** An odd run of backslashes ends the text, inside a plain string the masking came to open at `i`. */
  predicate EndsInOpenString(s: string, i: nat) {
    && i < |s| && Visits(s, 0, i) && OpensPlainString(s, i)
    && var t := TrailingRun(s, |s|);
       StillInside(s, StringBody(s, i), t) && (|s| - t) % 2 == 1
  }

  lemma {:induction false} BackslashesPair(s: string, j: nat)
    requires j <= |s| && forall k | j <= k < |s| :: s[k] == '\\'
    ensures StringEnd(s, j) == if (|s| - j) % 2 == 1 then |s| + 1 else |s|
    decreases |s| - j
  {
    if j + 2 <= |s| {
      BackslashesPair(s, j + 2);
    }
  }

  lemma {:induction false} StringOverrunsIff(s: string, j: nat)
    requires j <= TrailingRun(s, |s|)
    ensures
      var t := TrailingRun(s, |s|);
      StringEnd(s, j) == |s| + 1 <==> StillInside(s, j, t) && (|s| - t) % 2 == 1
    decreases |s| + 2 - j
  {
    var t := TrailingRun(s, |s|);
    if j == t {
      BackslashesPair(s, t);
    } else if s[j] == '\\' {
      assert j + 1 != t;
      StringOverrunsIff(s, j + 2);
    } else if s[j] != '"' {
      StringOverrunsIff(s, j + 1);
    }
  }

  lemma BodyBeforeRun(s: string, i: nat)
    requires i < |s| && OpensString(s, i)
    ensures StringBody(s, i) <= TrailingRun(s, |s|)
  {
    var t, body := TrailingRun(s, |s|), StringBody(s, i);
    assert s[body - 1] == '"';
  }

  /** Only a plain string can step past the end of the text. */
  lemma RegionOverrunsIff(s: string, i: nat)
    requires i < |s|
    ensures Region(s, i) > |s| <==> OpensPlainString(s, i) && StringEnd(s, StringBody(s, i)) == |s| + 1
  {
    hide RawEnd, CharEnd, RawQuote, BlockEnd, StringEnd;
  }

  lemma {:induction false} FailsWhereOverrun(s: string, i: nat)
    requires i <= |s|
    ensures MaskFrom(s, i).Err? <==> exists j: nat :: j < |s| && Visits(s, i, j) && Region(s, j) > |s|
    decreases |s| - i
  {
    hide Region;
    if i < |s| {
      var e := Region(s, i);
      if e > |s| {
        assert Visits(s, i, i);
      } else {
        var next := Beyond(i, e);
        FailsWhereOverrun(s, next);
        assert forall j: nat :: Visits(s, i, j) <==> j == i || Visits(s, next, j);
      }
    }
  }

  lemma OverrunIff(s: string, j: nat)
    requires j < |s|
    ensures Visits(s, 0, j) && Region(s, j) > |s| <==> EndsInOpenString(s, j)
  {
    hide Region, Visits, StringEnd, StillInside;
    RegionOverrunsIff(s, j);
    if OpensPlainString(s, j) {
      BodyBeforeRun(s, j);
      StringOverrunsIff(s, StringBody(s, j));
    }
  }

  /**
    The script indexes past its list exactly when the text ends in an odd run of
    backslashes inside an open plain string.
  */
  lemma MaskFailsIff(s: string)
    ensures Mask(s).Err? <==> exists i: nat :: EndsInOpenString(s, i)
  {
    FailsWhereOverrun(s, 0);
    hide MaskFrom, Region, Visits;
    if Mask(s).Err? {
      var j: nat :| j < |s| && Visits(s, 0, j) && Region(s, j) > |s|;
      OverrunIff(s, j);
    }
    hide EndsInOpenString;
    if i: nat :| EndsInOpenString(s, i) {
      OpenStringIsInside(s, i);
      OverrunIff(s, i);
    }
  }

  lemma OpenStringIsInside(s: string, i: nat)
    requires EndsInOpenString(s, i)
    ensures i < |s|
  {
  }

  /** So a text that does not end in a backslash is never refused. */
  lemma NoBackslashNoFailure(s: string)
    requires s == "" || s[|s| - 1] != '\\'
    ensures Mask(s).Ok?
  {
    MaskFailsIff(s);
    assert TrailingRun(s, |s|) == |s|;
  }

  /** The shortest text that fails: an open string and one backslash. */
  lemma LoneBackslashFails()
    ensures Mask("\"\\").Err? && EndsInOpenString("\"\\", 0)
  {
    var s := "\"\\";
    assert RawQuote(s, RawStart(s, 0)).None? && CharEnd(s, Quote(s, 0)).None?;
    assert TrailingRun(s, 2) == TrailingRun(s, 1) == 1;
    assert StillInside(s, 1, 1);
    assert EndsInOpenString(s, 0);
    MaskFailsIff(s);
  }

  // ---------- the end of a call ----------

  /** Parentheses still open before `to`, counting the one that opened the call. */
  function Depth(code: string, from: nat, to: nat): int
    requires from <= to <= |code|
  {
    if from == to then 1
    else Depth(code, from, to - 1) + (if code[to - 1] == '(' then 1 else if code[to - 1] == ')' then -1 else 0)
  }

  predicate StillOpen(code: string, opening: nat, j: nat)
    requires opening < j <= |code|
  {
    Depth(code, opening + 1, j) > 0
  }

  /** Behind the parenthesis that first brings the depth to zero, if there is one. */
  method CallEnd(code: string, opening: nat) returns (end: Option<nat>)
    requires opening < |code|
    ensures end.Some? ==> opening + 1 < end.value <= |code| && Depth(code, opening + 1, end.value) == 0
                          && forall j | opening < j < end.value :: StillOpen(code, opening, j)
    ensures end.None? ==> forall j | opening < j <= |code| :: StillOpen(code, opening, j)
  {
    var depth, index := 1, opening + 1;
    while index < |code|
      invariant opening < index <= |code| && depth == Depth(code, opening + 1, index)
      invariant forall j | opening < j <= index :: StillOpen(code, opening, j)
    {
      if code[index] == '(' {
        depth := depth + 1;
      } else if code[index] == ')' {
        depth := depth - 1;
        if depth == 0 {
          return Some(index + 1);
        }
      }
      index := index + 1;
    }
    return None;
  }
}
