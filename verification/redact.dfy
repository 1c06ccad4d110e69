/**
  The secret scanner of src/redact.rs. Its decisions look back at the output it
  has already written, so the specification scans with that output in hand.
  All tests are on ASCII characters; others only end a token.
*/
module Redact {
  import opened Sequences
  import Text

  const MIN_VALUE_CHARS := 8
  const MIN_SK_CHARS := 12
  const REDACTED := "[REDACTED]"
  const KEYISH_SUFFIXES: seq<string> := [
    "api_key", "apikey", "api-key", "access_token", "token", "secret", "password", "key"]

  predicate IsAlphabetic(c: char) {
    'a' <= c <= 'z' || 'A' <= c <= 'Z'
  }

  predicate IsAlphanumeric(c: char) {
    IsAlphabetic(c) || '0' <= c <= '9'
  }

  predicate IsTokenChar(c: char) {
    IsAlphanumeric(c) || c == '_' || c == '-' || c == '.' || c == '=' || c == '/' || c == '+'
  }

  /** Length of the leading run of token characters from `i`. */
  function FullRun(s: string, i: nat): (end: nat)
    requires i <= |s|
    ensures i <= end <= |s|
    ensures forall k | i <= k < end :: IsTokenChar(s[k])
    ensures end < |s| ==> !IsTokenChar(s[end])
    decreases |s| - i
  {
    if i < |s| && IsTokenChar(s[i]) then FullRun(s, i + 1) else i
  }

  /** `low..high` without the full stops at its end. */
  function DropStops(s: string, low: nat, high: nat): (end: nat)
    requires low <= high <= |s|
    ensures low <= end <= high
    ensures end > low ==> s[end - 1] != '.'
    ensures forall k | end <= k < high :: s[k] == '.'
  {
    if high > low && s[high - 1] == '.' then DropStops(s, low, high - 1) else high
  }

  /** End of the token that starts at `i`; a sentence's last stop is not part of it. */
  function TokenEnd(s: string, i: nat): (end: nat)
    requires i <= |s|
    ensures i <= end <= FullRun(s, i)
    ensures forall k | i <= k < end :: IsTokenChar(s[k])
    ensures end > i ==> s[end - 1] != '.'
    ensures forall k | end <= k < FullRun(s, i) :: s[k] == '.'
  {
    DropStops(s, i, FullRun(s, i))
  }

  predicate StartsWithIgnoreCase(s: string, i: nat, needle: string)
    requires i <= |s|
  {
    i + |needle| <= |s| && forall k | i <= k < i + |needle| :: Text.LowerAscii(s[k]) == needle[k - i]
  }

  predicate AtTokenStart(output: string) {
    output == ""
    || var c := output[|output| - 1]; !(IsAlphanumeric(c) || c == '_' || c == '-' || c == '.')
  }

  /** Where the identifier that ends `output[..end]` begins. */
  function NameStart(output: string, end: nat): (start: nat)
    requires end <= |output|
    ensures start <= end
  {
    if end > 0 && (IsAlphanumeric(output[end - 1]) || output[end - 1] == '_' || output[end - 1] == '-')
    then NameStart(output, end - 1) else end
  }

  predicate EndsWithIgnoreCase(output: string, start: nat, suffix: string)
    requires start <= |output|
  {
    start + |suffix| <= |output| && StartsWithIgnoreCase(output, |output| - |suffix|, suffix)
  }

  predicate KeyishNameBefore(output: string) {
    var start := NameStart(output, |output|);
    && start < |output|
    && exists suffix | suffix in KEYISH_SUFFIXES :: EndsWithIgnoreCase(output, start, suffix)
  }

  /** First position at or after `i` that is neither space nor tab. */
  function SkipBlanks(s: string, i: nat): (end: nat)
    requires i <= |s|
    ensures i <= end <= |s|
    ensures forall k | i <= k < end :: s[k] == ' ' || s[k] == '\t'
    ensures end < |s| ==> s[end] != ' ' && s[end] != '\t'
    decreases |s| - i
  {
    if i < |s| && (s[i] == ' ' || s[i] == '\t') then SkipBlanks(s, i + 1) else i
  }

  // ---------- one scanner step ----------

  /**
    What happens at position `i` of the text given the output so far: copy the
    text up to `keep`, then, if `keep < next`, hide the token up to `next`.
  */
  datatype Step = Step(keep: nat, next: nat)

  function StepAt(output: string, s: string, i: nat): (step: Step)
    requires i < |s|
    ensures i <= step.keep <= step.next <= |s| && i < step.next
    ensures step.keep < step.next ==>
              step.next - step.keep >= MIN_VALUE_CHARS && step.next == TokenEnd(s, step.keep)
  {
    if s[i] == '=' then
      var end := TokenEnd(s, i + 1);
      if KeyishNameBefore(output) && end - (i + 1) >= MIN_VALUE_CHARS then Step(i + 1, end) else Step(i + 1, i + 1)
    else if AtTokenStart(output) && TokenEnd(s, i) - i >= MIN_SK_CHARS && StartsWithIgnoreCase(s, i, "sk-") then
      Step(i, TokenEnd(s, i))
    else if AtTokenStart(output) && StartsWithIgnoreCase(s, i, "bearer") then
      var value := SkipBlanks(s, i + 6);
      var end := TokenEnd(s, value);
      if end - value >= MIN_VALUE_CHARS then Step(value, end) else Step(value, value)
    else Step(i + 1, i + 1)
  }

  function Emit(step: Step, s: string, i: nat): string
    requires i <= step.keep <= step.next <= |s|
  {
    if step.keep < step.next then s[i..step.keep] + REDACTED else s[i..step.keep]
  }

  /** The output for the text from `i` on, given the output before it. */
  function Scan(output: string, s: string, i: nat): string
    requires i <= |s|
    decreases |s| - i
  {
    if i == |s| then ""
    else
      var step := StepAt(output, s, i);
      var piece := Emit(step, s, i);
      piece + Scan(output + piece, s, step.next)
  }

  function RedactSecrets(text: string): string {
    Scan("", text, 0)
  }

  lemma ScanStep(output: string, s: string, i: nat)
    requires i < |s|
    ensures
      var step := StepAt(output, s, i);
      var piece := Emit(step, s, i);
      Scan(output, s, i) == piece + Scan(output + piece, s, step.next)
  {
  }

  // ---------- the normal form ----------

  /** The scanner, standing at `i` with all earlier text as output, hides nothing. */
  predicate QuietAt(t: string, i: nat)
    requires i < |t|
  {
    && (t[i] == '=' && KeyishNameBefore(t[..i]) ==> TokenEnd(t, i + 1) - (i + 1) < MIN_VALUE_CHARS)
    && (AtTokenStart(t[..i]) && StartsWithIgnoreCase(t, i, "sk-") ==> TokenEnd(t, i) - i < MIN_SK_CHARS)
    && (AtTokenStart(t[..i]) && StartsWithIgnoreCase(t, i, "bearer") ==>
          var value := SkipBlanks(t, i + 6); TokenEnd(t, value) - value < MIN_VALUE_CHARS)
  }

  /** No key-like assignment, `sk-` token or bearer token is left anywhere. */
  predicate NormalForm(t: string) {
    forall i | 0 <= i < |t| :: QuietAt(t, i)
  }

  // ---------- looking ahead through the output ----------

  /** The run and the token at a position are pinned down by what they promise. */
  lemma TokenEndUnique(s: string, i: nat, full: nat, end: nat)
    requires i <= end <= full <= |s|
    requires forall k | i <= k < full :: IsTokenChar(s[k])
    requires full < |s| ==> !IsTokenChar(s[full])
    requires end > i ==> s[end - 1] != '.'
    requires forall k | end <= k < full :: s[k] == '.'
    ensures FullRun(s, i) == full && TokenEnd(s, i) == end
  {
    hide IsTokenChar, FullRun, TokenEnd;
    assert FullRun(s, i) == full;
  }

  /** `r` shows the characters of `s[i..]` for as long as `n`. */
  predicate Shows(r: string, s: string, i: nat, n: nat) {
    n <= |r| && i + n <= |s| && r[..n] == s[i..i + n]
  }

  /** The same token is found wherever the same characters stand. */
  lemma TokenEndMoves(r: string, s: string, i: nat)
    requires i <= |s| && Shows(r, s, i, FullRun(s, i) - i)
    requires if FullRun(s, i) == |s| then |r| == |s| - i else Shows(r, s, i, FullRun(s, i) - i + 1)
    ensures TokenEnd(r, 0) == TokenEnd(s, i) - i
  {
    hide IsTokenChar, FullRun, TokenEnd;
    var full, end := FullRun(s, i), TokenEnd(s, i);
    var n := if full < |s| then full - i + 1 else full - i;
    assert forall j | 0 <= j < n :: r[j] == r[..n][j] == s[i..i + n][j] == s[i + j];
    TokenEndUnique(r, 0, full - i, end - i);
  }

  /** Where the first hidden token of the rest begins; |s| when there is none. */
  function FirstHidden(output: string, s: string, i: nat): (k: nat)
    requires i <= |s|
    ensures i <= k <= |s|
    ensures k < |s| ==> TokenEnd(s, k) - k >= MIN_VALUE_CHARS
    decreases |s| - i
  {
    if i == |s| then i
    else
      var step := StepAt(output, s, i);
      if step.keep < step.next then step.keep
      else FirstHidden(output + Emit(step, s, i), s, step.next)
  }

  /** `r` shows `s[i..k]` and then the `[` of a hidden token, or nothing at the end. */
  predicate AgreesUpTo(r: string, s: string, i: nat, k: nat) {
    && i <= k <= |s| && Shows(r, s, i, k - i)
    && if k < |s| then k - i < |r| && r[k - i] == '[' else |r| == |s| - i
  }

  lemma AgreesAfterKept(rest: string, s: string, i: nat, m: nat, k: nat)
    requires i <= m <= |s| && AgreesUpTo(rest, s, m, k)
    ensures AgreesUpTo(s[i..m] + rest, s, i, k)
  {
    assert (s[i..m] + rest)[..k - i] == s[i..m] + rest[..k - m];
    assert s[i..k] == s[i..m] + s[m..k];
  }

  lemma AgreesAtHidden(rest: string, s: string, i: nat, k: nat)
    requires i <= k < |s|
    ensures AgreesUpTo(s[i..k] + REDACTED + rest, s, i, k)
  {
    var r := s[i..k] + REDACTED + rest;
    assert r[..k - i] == s[i..k];
    assert r[k - i] == REDACTED[0];
  }

  /** Output and text agree up to the first hidden token. */
  lemma {:induction false} AgreesUntilHidden(output: string, s: string, i: nat)
    requires i <= |s|
    ensures AgreesUpTo(Scan(output, s, i), s, i, FirstHidden(output, s, i))
    decreases |s| - i
  {
    hide StepAt, TokenEnd;
    if i == |s| {
      assert s[i..i] == "";
    } else {
      var step := StepAt(output, s, i);
      var piece := Emit(step, s, i);
      var rest := Scan(output + piece, s, step.next);
      hide AgreesUpTo;
      if step.keep == step.next {
        AgreesUntilHidden(output + piece, s, step.next);
        AgreesAfterKept(rest, s, i, step.next, FirstHidden(output + piece, s, step.next));
      } else {
        AgreesAtHidden(rest, s, i, step.keep);
      }
    }
  }

  lemma ShowsAt(r: string, s: string, i: nat, n: nat, j: nat)
    requires Shows(r, s, i, n) && j < n
    ensures r[j] == s[i + j]
  {
    assert r[..n][j] == s[i..i + n][j];
  }

  /** Redaction never lengthens the token a later look finds at a position. */
  lemma TokenShrinks(output: string, s: string, i: nat)
    requires i <= |s|
    ensures TokenEnd(Scan(output, s, i), 0) <= TokenEnd(s, i) - i
  {
    hide Scan, FirstHidden, FullRun, TokenEnd;
    var r, k, full := Scan(output, s, i), FirstHidden(output, s, i), FullRun(s, i);
    AgreesUntilHidden(output, s, i);
    if k < full {
      TokenEndUnique(s, k, full, TokenEnd(s, k));
      assert TokenEnd(s, k) <= TokenEnd(s, i);
      assert !IsTokenChar(r[k - i]);
      assert TokenEnd(r, 0) <= k - i;
    } else {
      assert k == full ==> full == |s|;
      ShowsLess(r, s, i, k - i, full - i);
      if full < |s| {
        ShowsLess(r, s, i, k - i, full - i + 1);
      }
      TokenEndMoves(r, s, i);
    }
  }

  lemma ShowsLess(r: string, s: string, i: nat, n: nat, m: nat)
    requires Shows(r, s, i, n) && m <= n
    ensures Shows(r, s, i, m)
  {
    assert r[..m] == r[..n][..m] && s[i..i + m] == s[i..i + n][..m];
  }

  /** A marker seen in the output was already there in the text. */
  lemma MarkerWasThere(output: string, s: string, i: nat, needle: string)
    requires i <= |s| && forall j | 0 <= j < |needle| :: needle[j] != '['
    requires StartsWithIgnoreCase(Scan(output, s, i), 0, needle)
    ensures StartsWithIgnoreCase(s, i, needle)
  {
    hide Scan, FirstHidden, FullRun, TokenEnd;
    var r, k := Scan(output, s, i), FirstHidden(output, s, i);
    AgreesUntilHidden(output, s, i);
    assert k == |s| || |needle| <= k - i;
    forall j | i <= j < i + |needle|
      ensures Text.LowerAscii(s[j]) == needle[j - i]
    {
      ShowsAt(r, s, i, k - i, j - i);
    }
  }

  // ---------- the output is in normal form ----------

  lemma SuffixToken(a: string, b: string)
    ensures TokenEnd(a + b, |a|) == |a| + TokenEnd(b, 0)
  {
    hide IsTokenChar, FullRun, TokenEnd;
    var full, end := FullRun(b, 0), TokenEnd(b, 0);
    assert forall j | |a| <= j < |a| + |b| :: (a + b)[j] == b[j - |a|];
    TokenEndUnique(a + b, |a|, |a| + full, |a| + end);
  }

  lemma SuffixStarts(a: string, b: string, needle: string)
    ensures StartsWithIgnoreCase(a + b, |a|, needle) <==> StartsWithIgnoreCase(b, 0, needle)
  {
    hide Text.LowerAscii;
    assert forall j | |a| <= j < |a| + |b| :: (a + b)[j] == b[j - |a|];
    assert forall j | 0 <= j < |b| :: b[j] == (a + b)[|a| + j];
  }

  lemma DullIsQuiet(t: string, p: nat)
    requires p < |t| && t[p] !in "=sSbB"
    ensures QuietAt(t, p)
  {
    hide KeyishNameBefore, AtTokenStart, TokenEnd, SkipBlanks;
    assert Text.LowerAscii(t[p]) != 's' && Text.LowerAscii(t[p]) != 'b';
  }

  lemma CopyMeans(output: string, s: string, i: nat)
    requires i < |s| && StepAt(output, s, i) == Step(i + 1, i + 1)
    ensures s[i] == '=' && KeyishNameBefore(output) ==> TokenEnd(s, i + 1) - (i + 1) < MIN_VALUE_CHARS
    ensures s[i] != '=' && AtTokenStart(output) && StartsWithIgnoreCase(s, i, "sk-") ==>
              TokenEnd(s, i) - i < MIN_SK_CHARS
  {
    hide KeyishNameBefore, AtTokenStart, TokenEnd, StartsWithIgnoreCase, SkipBlanks;
  }

  /** Position |output| is quiet when its character was copied alone. */
  lemma CopiedIsQuiet(output: string, s: string, i: nat)
    requires i < |s| && StepAt(output, s, i) == Step(i + 1, i + 1)
    requires !(AtTokenStart(output) && StartsWithIgnoreCase(s, i, "bearer"))
    ensures QuietAt(output + Scan(output, s, i), |output|)
  {
    hide KeyishNameBefore, AtTokenStart, TokenEnd, StartsWithIgnoreCase, SkipBlanks, StepAt, Scan;
    var r := Scan(output, s, i);
    var rest := Scan(output + [s[i]], s, i + 1);
    CopyMeans(output, s, i);
    ScanStep(output, s, i);
    assert s[i..i + 1] == [s[i]];
    Assoc(output, [s[i]], rest);
    assert (output + r)[..|output|] == output;
    TokenShrinks(output + [s[i]], s, i + 1);
    SuffixToken(output + [s[i]], rest);
    TokenShrinks(output, s, i);
    SuffixToken(output, r);
    SuffixStarts(output, r, "sk-");
    SuffixStarts(output, r, "bearer");
    if StartsWithIgnoreCase(r, 0, "sk-") {
      MarkerWasThere(output, s, i, "sk-");
      SkIsNoAssign(s, i);
    }
    if StartsWithIgnoreCase(r, 0, "bearer") {
      MarkerWasThere(output, s, i, "bearer");
    }
  }

  lemma SkIsNoAssign(s: string, i: nat)
    requires i < |s| && StartsWithIgnoreCase(s, i, "sk-")
    ensures s[i] != '='
  {
    assert Text.LowerAscii(s[i]) == "sk-"[0];
  }

  /** `head` is a bearer marker with the blanks after it. */
  predicate IsMarker(head: string) {
    && StartsWithIgnoreCase(head, 0, "bearer")
    && forall j | 6 <= j < |head| :: head[j] == ' ' || head[j] == '\t'
  }

  lemma MarkerLetterIsDull(head: string, k: nat)
    requires IsMarker(head) && 0 < k < |head|
    ensures head[k] !in "=sSbB"
  {
    var word := "bearer";
    assert word[1] == 'e' && word[2] == 'a' && word[3] == 'r' && word[4] == 'e' && word[5] == 'r';
    assert k < 6 ==> Text.LowerAscii(head[k]) == word[k - 0];
  }

  lemma MarkerIsQuiet(output: string, head: string, tail: string)
    requires IsMarker(head) && (tail != "" ==> tail[0] != ' ' && tail[0] != '\t')
    requires TokenEnd(tail, 0) < MIN_VALUE_CHARS
    ensures forall p | |output| <= p < |output| + |head| :: QuietAt(output + head + tail, p)
  {
    var t, n := output + head + tail, |output| + |head|;
    assert forall j | |output| <= j < n :: t[j] == head[j - |output|];
    forall p | |output| <= p < n
      ensures QuietAt(t, p)
    {
      hide KeyishNameBefore, AtTokenStart, TokenEnd;
      assert t[p] == head[p - |output|];
      if p == |output| {
        forall j | p + 6 <= j < n
          ensures t[j] == ' ' || t[j] == '\t'
        {
          assert t[j] == head[j - |output|];
        }
        assert n < |t| ==> t[n] == tail[0];
        assert SkipBlanks(t, p + 6) == n;
        SuffixToken(output + head, tail);
        assert Text.LowerAscii(head[0]) == "bearer"[0];
      } else {
        MarkerLetterIsDull(head, p - |output|);
        DullIsQuiet(t, p);
      }
    }
  }

  /** The rest of a scan starts with no blank if the text there does not. */
  lemma NoBlankAppears(output: string, s: string, i: nat)
    requires i <= |s| && (i < |s| ==> s[i] != ' ' && s[i] != '\t')
    ensures var r := Scan(output, s, i); r != "" ==> r[0] != ' ' && r[0] != '\t'
  {
    hide Scan, FirstHidden;
    AgreesUntilHidden(output, s, i);
    if FirstHidden(output, s, i) > i {
      ShowsAt(Scan(output, s, i), s, i, FirstHidden(output, s, i) - i, 0);
    }
  }

  lemma RedactedIsDull(output: string, rest: string)
    ensures forall p | |output| <= p < |output| + |REDACTED| :: QuietAt(output + REDACTED + rest, p)
  {
    var t := output + REDACTED + rest;
    forall p | |output| <= p < |output| + |REDACTED|
      ensures QuietAt(t, p)
    {
      assert t[p] == REDACTED[p - |output|];
      DullIsQuiet(t, p);
    }
  }

  /** The characters one step writes are quiet in the finished output. */
  lemma PieceIsQuiet(output: string, s: string, i: nat)
    requires i < |s|
    ensures
      var piece := Emit(StepAt(output, s, i), s, i);
      forall p | |output| <= p < |output| + |piece| :: QuietAt(output + Scan(output, s, i), p)
  {
    hide QuietAt, KeyishNameBefore, TokenEnd, Scan;
    var step := StepAt(output, s, i);
    if s[i] != '=' && AtTokenStart(output) && StartsWithIgnoreCase(s, i, "bearer") {
      hide StepAt;
      BearerPieceIsQuiet(output, s, i);
    } else if step == Step(i + 1, i + 1) {
      CopiedIsQuiet(output, s, i);
    } else {
      HiddenPieceIsQuiet(output, s, i);
    }
  }

  lemma BearerPieceIsQuiet(output: string, s: string, i: nat)
    requires i < |s| && s[i] != '=' && AtTokenStart(output) && StartsWithIgnoreCase(s, i, "bearer")
    ensures
      var piece := Emit(StepAt(output, s, i), s, i);
      forall p | |output| <= p < |output| + |piece| :: QuietAt(output + Scan(output, s, i), p)
  {
    hide QuietAt, KeyishNameBefore, TokenEnd, Scan, StepAt, IsMarker, SkipBlanks;
    var step := StepAt(output, s, i);
    var head := s[i..step.keep];
    var piece := Emit(step, s, i);
    var rest := Scan(output + piece, s, step.next);
    BearerStep(output, s, i);
    ScanStep(output, s, i);
    if step.keep < step.next {
      Assoc(head, REDACTED, rest);
      Assoc(output, head, REDACTED + rest);
      NoTokenAtBracket(REDACTED + rest);
      MarkerIsQuiet(output, head, REDACTED + rest);
      Assoc(output + head, REDACTED, rest);
      RedactedIsDull(output + head, rest);
    } else {
      Assoc(output, head, rest);
      NoBlankAppears(output + piece, s, step.next);
      TokenShrinks(output + piece, s, step.next);
      MarkerIsQuiet(output, head, rest);
    }
  }

  lemma NoTokenAtBracket(t: string)
    requires t != "" && t[0] == '['
    ensures TokenEnd(t, 0) == 0
  {
  }

  /** A hidden assignment value or `sk-` token. */
  lemma HiddenPieceIsQuiet(output: string, s: string, i: nat)
    requires i < |s|
    requires StepAt(output, s, i).keep < StepAt(output, s, i).next
    requires StepAt(output, s, i).keep == i || (s[i] == '=' && StepAt(output, s, i).keep == i + 1)
    ensures
      var piece := Emit(StepAt(output, s, i), s, i);
      forall p | |output| <= p < |output| + |piece| :: QuietAt(output + Scan(output, s, i), p)
  {
    hide QuietAt, KeyishNameBefore, TokenEnd, Scan, StepAt;
    var step := StepAt(output, s, i);
    var head := s[i..step.keep];
    var rest := Scan(output + Emit(step, s, i), s, step.next);
    ScanStep(output, s, i);
    Assoc(head, REDACTED, rest);
    Assoc(output, head, REDACTED + rest);
    Assoc(output + head, REDACTED, rest);
    RedactedIsDull(output + head, rest);
    if step.keep == i + 1 {
      assert head == "=";
      NoTokenAtBracket(REDACTED + rest);
      AssignIsQuiet(output, REDACTED + rest);
    }
  }

  lemma AssignIsQuiet(output: string, tail: string)
    requires TokenEnd(tail, 0) < MIN_VALUE_CHARS
    ensures QuietAt(output + "=" + tail, |output|)
  {
    hide KeyishNameBefore, AtTokenStart, TokenEnd;
    var t := output + "=" + tail;
    assert t[|output|] == '=';
    SuffixToken(output + "=", tail);
  }

  lemma BearerStep(output: string, s: string, i: nat)
    requires i < |s| && s[i] != '=' && AtTokenStart(output) && StartsWithIgnoreCase(s, i, "bearer")
    ensures
      var step := StepAt(output, s, i);
      && IsMarker(s[i..step.keep])
      && (step.keep == step.next ==>
            && TokenEnd(s, step.keep) - step.keep < MIN_VALUE_CHARS
            && (step.keep < |s| ==> s[step.keep] != ' ' && s[step.keep] != '\t'))
  {
    hide KeyishNameBefore, TokenEnd;
    assert Text.LowerAscii(s[i]) == "bearer"[0];
    assert !StartsWithIgnoreCase(s, i, "sk-");
    var head := s[i..SkipBlanks(s, i + 6)];
    assert forall j | 0 <= j < |head| :: head[j] == s[i + j];
  }

  lemma {:induction false} ScanIsQuiet(output: string, s: string, i: nat)
    requires i <= |s|
    ensures
      var t := output + Scan(output, s, i);
      forall p | |output| <= p < |t| :: QuietAt(t, p)
    decreases |s| - i
  {
    if i < |s| {
      hide StepAt, QuietAt, Scan;
      var step := StepAt(output, s, i);
      var piece := Emit(step, s, i);
      PieceIsQuiet(output, s, i);
      ScanIsQuiet(output + piece, s, step.next);
      ScanStep(output, s, i);
      Assoc(output, piece, Scan(output + piece, s, step.next));
    }
  }

  /** Everything the redactor returns is in normal form. */
  lemma OutputIsNormal(text: string)
    ensures NormalForm(RedactSecrets(text))
  {
    ScanIsQuiet("", text, 0);
    assert "" + Scan("", text, 0) == Scan("", text, 0);
  }

  lemma QuietStep(t: string, i: nat)
    requires i < |t| && QuietAt(t, i)
    ensures StepAt(t[..i], t, i).keep == StepAt(t[..i], t, i).next
  {
    hide KeyishNameBefore, AtTokenStart, TokenEnd, SkipBlanks, StartsWithIgnoreCase;
  }

  lemma {:induction false} QuietTextIsCopied(t: string, i: nat)
    requires i <= |t| && forall p | i <= p < |t| :: QuietAt(t, p)
    ensures Scan(t[..i], t, i) == t[i..]
    decreases |t| - i
  {
    if i < |t| {
      hide StepAt, QuietAt, Scan;
      var step := StepAt(t[..i], t, i);
      QuietStep(t, i);
      ScanStep(t[..i], t, i);
      SliceJoin(t, i, step.next);
      QuietTextIsCopied(t, step.next);
    }
  }

  /** Text is returned unchanged exactly when it is in normal form. */
  lemma UnchangedIff(text: string)
    ensures RedactSecrets(text) == text <==> NormalForm(text)
  {
    OutputIsNormal(text);
    if NormalForm(text) {
      QuietTextIsCopied(text, 0);
      assert text[..0] == "" && text[0..] == text;
    }
  }

  lemma Idempotent(text: string)
    ensures RedactSecrets(RedactSecrets(text)) == RedactSecrets(text)
  {
    OutputIsNormal(text);
    UnchangedIff(RedactSecrets(text));
  }

  // ---------- only marked tokens are replaced ----------

  datatype Piece = Kept(text: string) | Hidden(text: string)

  function Original(pieces: seq<Piece>): string {
    if pieces == [] then "" else pieces[0].text + Original(pieces[1..])
  }

  function Render(piece: Piece): string {
    match piece case Kept(text) => text case Hidden(_) => REDACTED
  }

  function Shown(pieces: seq<Piece>): string {
    if pieces == [] then "" else Render(pieces[0]) + Shown(pieces[1..])
  }

  /** A marker right before `secret` says it is one. */
  predicate Introduced(output: string, secret: string) {
    && |secret| >= MIN_VALUE_CHARS
    && (forall k | 0 <= k < |secret| :: IsTokenChar(secret[k]))
    && (|| (output != "" && output[|output| - 1] == '=' && KeyishNameBefore(output[..|output| - 1]))
        || (AtTokenStart(output) && StartsWithIgnoreCase(secret, 0, "sk-") && |secret| >= MIN_SK_CHARS)
        || exists j: nat :: j <= |output| && AtTokenStart(output[..j]) && IsMarker(output[j..]))
  }

  /** Every hidden piece is introduced by what was shown before it. */
  predicate OnlyMarked(output: string, pieces: seq<Piece>)
    decreases |pieces|
  {
    pieces == [] ||
    ((pieces[0].Hidden? ==> Introduced(output, pieces[0].text)) &&
     OnlyMarked(output + Render(pieces[0]), pieces[1..]))
  }

  lemma MarkerIntroduces(output: string, head: string, secret: string)
    requires AtTokenStart(output) && IsMarker(head) && |secret| >= MIN_VALUE_CHARS
    requires forall k | 0 <= k < |secret| :: IsTokenChar(secret[k])
    ensures Introduced(output + head, secret)
  {
    hide AtTokenStart, IsMarker, IsTokenChar, KeyishNameBefore, StartsWithIgnoreCase;
    assert (output + head)[..|output|] == output && (output + head)[|output|..] == head;
  }

  lemma StepIsMarked(output: string, s: string, i: nat)
    requires i < |s| && StepAt(output, s, i).keep < StepAt(output, s, i).next
    ensures
      var step := StepAt(output, s, i);
      Introduced(output + s[i..step.keep], s[step.keep..step.next])
  {
    hide KeyishNameBefore, IsTokenChar, FullRun, TokenEnd, IsMarker, SkipBlanks, Introduced, Text.LowerAscii;
    var step := StepAt(output, s, i);
    var head, secret := s[i..step.keep], s[step.keep..step.next];
    assert forall k | 0 <= k < |secret| :: secret[k] == s[step.keep + k];
    if s[i] == '=' {
      assert head == "=";
      hide StepAt;
      AssignIntroduces(output, secret);
    } else if step.keep == i {
      assert output + head == output;
      SliceStarts(s, i, step.next, "sk-");
      hide StepAt, AtTokenStart;
      SkIntroduces(output, secret);
    } else {
      BearerStep(output, s, i);
      hide StepAt, AtTokenStart;
      MarkerIntroduces(output, head, secret);
    }
  }

  lemma SliceStarts(s: string, i: nat, end: nat, needle: string)
    requires i + |needle| <= end <= |s| && StartsWithIgnoreCase(s, i, needle)
    ensures StartsWithIgnoreCase(s[i..end], 0, needle)
  {
    hide Text.LowerAscii;
    assert forall k | 0 <= k < end - i :: s[i..end][k] == s[i + k];
  }

  lemma AssignIntroduces(output: string, secret: string)
    requires KeyishNameBefore(output) && |secret| >= MIN_VALUE_CHARS
    requires forall k | 0 <= k < |secret| :: IsTokenChar(secret[k])
    ensures Introduced(output + "=", secret)
  {
    hide KeyishNameBefore, IsTokenChar;
    assert (output + "=")[..|output|] == output;
  }

  lemma SkIntroduces(output: string, secret: string)
    requires AtTokenStart(output) && |secret| >= MIN_SK_CHARS
    requires forall k | 0 <= k < |secret| :: IsTokenChar(secret[k])
    requires StartsWithIgnoreCase(secret, 0, "sk-")
    ensures Introduced(output, secret)
  {
    hide AtTokenStart, IsTokenChar, KeyishNameBefore, StartsWithIgnoreCase;
  }

  lemma AddPiece(output: string, piece: Piece, rest: seq<Piece>)
    ensures Original([piece] + rest) == piece.text + Original(rest)
    ensures Shown([piece] + rest) == Render(piece) + Shown(rest)
    ensures OnlyMarked(output, [piece] + rest) <==>
              (piece.Hidden? ==> Introduced(output, piece.text)) && OnlyMarked(output + Render(piece), rest)
  {
    hide Introduced;
    assert ([piece] + rest)[1..] == rest;
  }

  /** The output is the text with disjoint marked tokens replaced, and nothing else. */
  lemma {:induction false} Segments(output: string, s: string, i: nat) returns (pieces: seq<Piece>)
    requires i <= |s|
    ensures Original(pieces) == s[i..] && Shown(pieces) == Scan(output, s, i)
    ensures OnlyMarked(output, pieces)
    decreases |s| - i
  {
    if i == |s| {
      pieces := [];
    } else {
      var step := StepAt(output, s, i);
      var piece := Emit(step, s, i);
      var rest := Segments(output + piece, s, step.next);
      var kept, hidden := Kept(s[i..step.keep]), Hidden(s[step.keep..step.next]);
      ScanStep(output, s, i);
      hide StepAt, Introduced, Scan, OnlyMarked, Shown, Original;
      SliceJoin(s, i, step.keep);
      if step.keep == step.next {
        pieces := [kept] + rest;
        AddPiece(output, kept, rest);
      } else {
        StepIsMarked(output, s, i);
        pieces := [kept] + ([hidden] + rest);
        AddPiece(output, kept, [hidden] + rest);
        AddPiece(output + kept.text, hidden, rest);
        SliceJoin(s, step.keep, step.next);
        Assoc(output, kept.text, REDACTED);
        Assoc(kept.text, REDACTED, Shown(rest));
      }
    }
  }

  // ---------- the loops of the source ----------

  method TokenSpan(s: string, i: nat) returns (end: nat)
    requires i <= |s|
    ensures end == TokenEnd(s, i)
  {
    end := i;
    while end < |s| && IsTokenChar(s[end])
      invariant i <= end <= |s| && FullRun(s, i) == FullRun(s, end)
    {
      end := end + 1;
    }
    while end > i && s[end - 1] == '.'
      invariant i <= end <= FullRun(s, i)
      invariant DropStops(s, i, end) == TokenEnd(s, i)
    {
      end := end - 1;
    }
  }

  method FindKeyishName(output: string) returns (found: bool)
    ensures found == KeyishNameBefore(output)
  {
    var start := |output|;
    while start > 0
          && (IsAlphanumeric(output[start - 1]) || output[start - 1] == '_' || output[start - 1] == '-')
      invariant 0 <= start <= |output| && NameStart(output, start) == NameStart(output, |output|)
    {
      start := start - 1;
    }
    if start == |output| {
      return false;
    }
    found := exists suffix | suffix in KEYISH_SUFFIXES :: EndsWithIgnoreCase(output, start, suffix);
  }

  /** The branches of the loop body, in their order. */
  method DecideStep(output: string, text: string, i: nat) returns (keep: nat, next: nat)
    requires i < |text|
    ensures Step(keep, next) == StepAt(output, text, i)
  {
    hide KeyishNameBefore, TokenEnd, FullRun, AtTokenStart, Text.LowerAscii;
    keep, next := i + 1, i + 1;
    if text[i] == '=' {
      var keyish := FindKeyishName(output);
      if keyish {
        var end := TokenSpan(text, keep);
        next := if end - keep >= MIN_VALUE_CHARS then end else keep;
      }
      return;
    }
    if AtTokenStart(output) {
      var end := TokenSpan(text, i);
      if end - i >= MIN_SK_CHARS && StartsWithIgnoreCase(text, i, "sk-") {
        return i, end;
      }
      if StartsWithIgnoreCase(text, i, "bearer") {
        keep := SkipBlanksLoop(text, i + |"bearer"|);
        end := TokenSpan(text, keep);
        next := if end - keep >= MIN_VALUE_CHARS then end else keep;
      }
    }
  }

  method SkipBlanksLoop(s: string, i: nat) returns (end: nat)
    requires i <= |s|
    ensures end == SkipBlanks(s, i)
  {
    end := i;
    while end < |s| && (s[end] == ' ' || s[end] == '\t')
      invariant i <= end <= |s| && SkipBlanks(s, end) == SkipBlanks(s, i)
    {
      end := end + 1;
    }
  }

  /** `redact_secrets`: grow the output, look back at it, advance through the text. */
  method Redacted(text: string) returns (output: string)
    ensures output == RedactSecrets(text)
  {
    hide Scan, StepAt, KeyishNameBefore, TokenEnd;
    output := "";
    var i := 0;
    while i < |text|
      invariant 0 <= i <= |text|
      invariant output + Scan(output, text, i) == Scan("", text, 0)
      decreases |text| - i
    {
      var keep, next := DecideStep(output, text, i);
      ScanStep(output, text, i);
      ghost var before := output;
      var piece := text[i..keep];
      if keep < next {
        piece := piece + REDACTED;
      }
      output := output + piece;
      Assoc(before, piece, Scan(output, text, next));
      i := next;
    }
    ScanEnd(output, text);
  }

  lemma ScanEnd(output: string, text: string)
    ensures Scan(output, text, |text|) == ""
  {
  }
}
