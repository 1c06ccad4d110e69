/**
  What the scanner calls a secret, on characters: a token after a key-like name
  and `=`, after `bearer`, or one that begins with `sk-`, with every spelling and
  length written out. Lines are redacted one by one.
*/
module RedactMarkers {
  import opened Sequences
  import Text
  import opened Redact

  predicate NameChar(c: char) {
    'a' <= c <= 'z' || 'A' <= c <= 'Z' || '0' <= c <= '9' || c == '_' || c == '-'
  }

  predicate ValueChar(c: char) {
    NameChar(c) || c == '.' || c == '=' || c == '/' || c == '+'
  }

  predicate IsName(s: string) { forall i | 0 <= i < |s| :: NameChar(s[i]) }

  predicate IsValue(s: string) { s != "" && s[|s| - 1] != '.' && forall i | 0 <= i < |s| :: ValueChar(s[i]) }

  function Lower(c: char): char {
    if 'A' <= c <= 'Z' then (c as int + 32) as char else c
  }

  /** `s` reads `word`, whatever its case. */
  predicate Reads(s: string, word: string) {
    |s| == |word| && forall i | 0 <= i < |s| :: Lower(s[i]) == word[i]
  }

  predicate StartsLike(s: string, word: string) { |word| <= |s| && Reads(s[..|word|], word) }

  predicate EndsLike(s: string, word: string) { |word| <= |s| && Reads(s[|s| - |word|..], word) }

  predicate KeyLike(name: string) {
    || EndsLike(name, "key") || EndsLike(name, "api_key") || EndsLike(name, "apikey") || EndsLike(name, "api-key")
    || EndsLike(name, "token") || EndsLike(name, "access_token") || EndsLike(name, "secret") || EndsLike(name, "password")
  }

  /** Nothing before, or something no name, value or blank run goes across. */
  predicate Bordered(before: string) {
    before == "" || (var c := before[|before| - 1]; !ValueChar(c) && c != ' ' && c != '\t')
  }

  // ---------- key-like names ----------

  lemma {:induction false} NameStartIs(before: string, name: string, n: nat)
    requires n <= |name| && IsName(name) && (before == "" || !NameChar(before[|before| - 1]))
    ensures NameStart(before + name, |before| + n) == |before|
  {
    if n > 0 {
      assert (before + name)[|before| + n - 1] == name[n - 1];
      NameStartIs(before, name, n - 1);
    } else if before != "" {
      assert (before + name)[|before| - 1] == before[|before| - 1];
    }
  }

  lemma EndsLikeIff(before: string, name: string, suffix: string)
    ensures EndsWithIgnoreCase(before + name, |before|, suffix) <==> EndsLike(name, suffix)
  {
    var s := before + name;
    if |suffix| <= |name| {
      var tail := name[|name| - |suffix|..];
      assert forall k | |s| - |suffix| <= k < |s| :: s[k] == tail[k - (|s| - |suffix|)];
      assert forall k | 0 <= k < |tail| :: tail[k] == s[|s| - |suffix| + k];
    }
  }

  lemma SuffixesAre(word: string)
    ensures word in KEYISH_SUFFIXES <==>
            word in {"key", "api_key", "apikey", "api-key", "token", "access_token", "secret", "password"}
  {
    var s := KEYISH_SUFFIXES;
    assert s[0] == "api_key" && s[1] == "apikey" && s[2] == "api-key" && s[3] == "access_token";
    assert s[4] == "token" && s[5] == "secret" && s[6] == "password" && s[7] == "key" && |s| == 8;
  }

  lemma AnySuffixIff(name: string)
    ensures (exists word | word in KEYISH_SUFFIXES :: EndsLike(name, word)) <==> KeyLike(name)
  {
    hide EndsLike;
    hide KEYISH_SUFFIXES;
    forall word
      ensures word in KEYISH_SUFFIXES <==>
              word in {"key", "api_key", "apikey", "api-key", "token", "access_token", "secret", "password"}
    {
      SuffixesAre(word);
    }
  }

  /** A name is key-like exactly when it ends in one of the eight words, or is one. */
  lemma KeyishIff(before: string, name: string)
    requires IsName(name) && (before == "" || !NameChar(before[|before| - 1]))
    ensures KeyishNameBefore(before + name) <==> KeyLike(name)
  {
    NameStartIs(before, name, |name|);
    AnySuffixIff(name);
    NoKeyInNothing(name);
    hide EndsWithIgnoreCase, EndsLike, KEYISH_SUFFIXES, KeyLike, IsName, NameStart;
    forall word
      ensures EndsWithIgnoreCase(before + name, |before|, word) <==> EndsLike(name, word)
    {
      EndsLikeIff(before, name, word);
    }
  }

  lemma NoKeyInNothing(name: string)
    ensures name == "" ==> !KeyLike(name)
  {
  }

  // ---------- line by line ----------

  lemma SameClasses(c: char)
    ensures NameChar(c) <==> IsAlphanumeric(c) || c == '_' || c == '-'
    ensures ValueChar(c) <==> IsTokenChar(c)
    ensures Lower(c) == Text.LowerAscii(c)
  {
  }

  /** What stands behind a border does not change a token in front of it. */
  lemma TokenBeforeBorder(a: string, b: string, i: nat)
    requires a != "" && Bordered(a) && i < |a|
    ensures TokenEnd(a + b, i) == TokenEnd(a, i) < |a| && FullRun(a, i) < |a|
  {
    hide FullRun, TokenEnd, IsTokenChar, ValueChar;
    forall c
      ensures ValueChar(c) <==> IsTokenChar(c)
    {
      SameClasses(c);
    }
    var full, end := FullRun(a, i), TokenEnd(a, i);
    assert full < |a|;
    assert forall k | 0 <= k < |a| :: (a + b)[k] == a[k];
    TokenEndUnique(a + b, i, full, end);
  }

  lemma StartsBeforeBorder(a: string, b: string, i: nat, needle: string)
    requires a != "" && Bordered(a) && i < |a| && needle != "" && forall k | 0 <= k < |needle| :: ValueChar(needle[k])
    ensures StartsWithIgnoreCase(a + b, i, needle) <==> StartsWithIgnoreCase(a, i, needle)
    ensures StartsWithIgnoreCase(a, i, needle) ==> i + |needle| < |a|
  {
    var border := |a| - 1;
    assert forall k | 0 <= k < |a| :: (a + b)[k] == a[k];
    SameClasses(a[border]);
    LoweredValue(a[border]);
    if i <= border < i + |needle| {
      assert !ValueChar(Text.LowerAscii((a + b)[border])) && ValueChar(needle[border - i]);
    }
  }

  lemma LoweredValue(c: char)
    ensures ValueChar(Text.LowerAscii(c)) ==> ValueChar(c)
  {
  }

  lemma BlanksBeforeBorder(a: string, b: string, i: nat)
    requires a != "" && Bordered(a) && i < |a|
    ensures SkipBlanks(a + b, i) == SkipBlanks(a, i) < |a|
    decreases |a| - i
  {
    assert forall k | 0 <= k < |a| :: (a + b)[k] == a[k];
    if a[i] == ' ' || a[i] == '\t' {
      BlanksBeforeBorder(a, b, i + 1);
    }
  }

  lemma Needles()
    ensures forall k | 0 <= k < |"sk-"| :: ValueChar("sk-"[k])
    ensures forall k | 0 <= k < |"bearer"| :: ValueChar("bearer"[k])
  {
  }

  /** At `j` of `t` the scanner sees what it sees at `i` of `s`, `d` further on. */
  predicate Alike(s: string, i: nat, t: string, d: nat)
    requires i < |s|
  {
    && i + d < |t| && t[i + d] == s[i] && TokenEnd(t, i + d) == TokenEnd(s, i) + d
    && (s[i] == '=' ==> TokenEnd(t, i + d + 1) == TokenEnd(s, i + 1) + d)
    && (StartsWithIgnoreCase(t, i + d, "sk-") <==> StartsWithIgnoreCase(s, i, "sk-"))
    && (StartsWithIgnoreCase(t, i + d, "bearer") <==> StartsWithIgnoreCase(s, i, "bearer"))
    && (StartsWithIgnoreCase(s, i, "bearer") ==>
          && SkipBlanks(t, i + d + 6) == SkipBlanks(s, i + 6) + d
          && TokenEnd(t, SkipBlanks(s, i + 6) + d) == TokenEnd(s, SkipBlanks(s, i + 6)) + d)
  }

  lemma SameStep(output: string, s: string, i: nat, t: string, d: nat)
    requires i < |s| && Alike(s, i, t, d)
    ensures
      var step := StepAt(output, s, i);
      StepAt(output, t, i + d) == Step(step.keep + d, step.next + d)
  {
    hide StartsWithIgnoreCase, AtTokenStart, KeyishNameBefore, FullRun, TokenEnd, SkipBlanks;
  }

  lemma AlikeBeforeBorder(a: string, b: string, i: nat)
    requires a != "" && Bordered(a) && i < |a|
    ensures Alike(a, i, a + b, 0)
  {
    hide StartsWithIgnoreCase, FullRun, TokenEnd, SkipBlanks, Bordered;
    BorderIsNoAssign(a);
    assert (a + b)[i] == a[i];
    Needles();
    StartsBeforeBorder(a, b, i, "sk-");
    StartsBeforeBorder(a, b, i, "bearer");
    TokenBeforeBorder(a, b, i);
    if a[i] == '=' {
      TokenBeforeBorder(a, b, i + 1);
    }
    if StartsWithIgnoreCase(a, i, "bearer") {
      BlanksBeforeBorder(a, b, i + 6);
      TokenBeforeBorder(a, b, SkipBlanks(a, i + 6));
    }
  }

  /** A step that reaches the border copies it. */
  lemma BorderIsCopied(output: string, a: string, i: nat)
    requires a != "" && Bordered(a) && i < |a|
    ensures StepAt(output, a, i).next == |a| ==> StepAt(output, a, i).keep == |a|
  {
    var step := StepAt(output, a, i);
    hide StepAt, Bordered;
    if step.keep < step.next {
      TokenBeforeBorder(a, "", step.keep);
    }
  }

  /** No step in front of a border depends on what is behind it. */
  lemma StepBeforeBorder(output: string, a: string, b: string, i: nat)
    requires a != "" && Bordered(a) && i < |a|
    ensures StepAt(output, a + b, i) == StepAt(output, a, i)
    ensures Emit(StepAt(output, a, i), a + b, i) == Emit(StepAt(output, a, i), a, i)
  {
    hide StepAt, Alike, Bordered;
    AlikeBeforeBorder(a, b, i);
    SameStep(output, a, i, a + b, 0);
    var step := StepAt(output, a, i);
    assert (a + b)[i..step.keep] == a[i..step.keep];
  }

  lemma BorderIsNoAssign(a: string)
    requires a != "" && Bordered(a)
    ensures a[|a| - 1] != '='
  {
  }

  lemma {:induction false} ScanSplits(output: string, a: string, b: string, i: nat)
    requires a != "" && Bordered(a) && i <= |a|
    ensures Scan(output, a + b, i) == Scan(output, a, i) + Scan(output + Scan(output, a, i), b, 0)
    decreases |a| - i
  {
    hide Scan, StepAt, Bordered, Emit;
    if i == |a| {
      ScanShift(output, a, b, 0);
      assert Scan(output, a, i) == "" by { ScanAtEnd(output, a); }
      assert output + "" == output;
    } else {
      StepBeforeBorder(output, a, b, i);
      var step := StepAt(output, a, i);
      var piece := Emit(step, a, i);
      ScanStep(output, a + b, i);
      ScanStep(output, a, i);
      ScanSplits(output + piece, a, b, step.next);
      var rest := Scan(output + piece, a, step.next);
      Assoc(output, piece, rest);
      Assoc(piece, rest, Scan(output + piece + rest, b, 0));
    }
  }

  lemma ScanAtEnd(output: string, a: string)
    ensures Scan(output, a, |a|) == ""
  {
  }

  lemma TokenShift(a: string, b: string, i: nat)
    requires i <= |b|
    ensures TokenEnd(a + b, |a| + i) == |a| + TokenEnd(b, i)
  {
    hide IsTokenChar, FullRun, TokenEnd;
    assert forall j | |a| <= j < |a| + |b| :: (a + b)[j] == b[j - |a|];
    TokenEndUnique(a + b, |a| + i, |a| + FullRun(b, i), |a| + TokenEnd(b, i));
  }

  lemma BlanksShift(a: string, b: string, i: nat)
    requires i <= |b|
    ensures SkipBlanks(a + b, |a| + i) == |a| + SkipBlanks(b, i)
    decreases |b| - i
  {
    if i < |b| {
      assert (a + b)[|a| + i] == b[i];
      BlanksShift(a, b, i + 1);
    }
  }

  lemma StartsShift(a: string, b: string, i: nat, needle: string)
    requires i <= |b|
    ensures StartsWithIgnoreCase(a + b, |a| + i, needle) <==> StartsWithIgnoreCase(b, i, needle)
  {
    hide Text.LowerAscii;
    assert forall j | |a| <= j < |a| + |b| :: (a + b)[j] == b[j - |a|];
    assert forall j | 0 <= j < |b| :: b[j] == (a + b)[|a| + j];
  }

  lemma AlikeShift(a: string, b: string, i: nat)
    requires i < |b|
    ensures Alike(b, i, a + b, |a|)
  {
    hide StartsWithIgnoreCase, FullRun, TokenEnd, SkipBlanks;
    assert (a + b)[|a| + i] == b[i];
    TokenShift(a, b, i);
    TokenShift(a, b, i + 1);
    StartsShift(a, b, i, "sk-");
    StartsShift(a, b, i, "bearer");
    if StartsWithIgnoreCase(b, i, "bearer") {
      LongEnough(b, i);
      BlanksShift(a, b, i + 6);
      TokenShift(a, b, SkipBlanks(b, i + 6));
    }
  }

  lemma StepShift(output: string, a: string, b: string, i: nat)
    requires i < |b|
    ensures
      var step := StepAt(output, b, i);
      && StepAt(output, a + b, |a| + i) == Step(|a| + step.keep, |a| + step.next)
      && Emit(StepAt(output, a + b, |a| + i), a + b, |a| + i) == Emit(step, b, i)
  {
    hide StepAt, Alike;
    AlikeShift(a, b, i);
    SameStep(output, b, i, a + b, |a|);
    var step := StepAt(output, b, i);
    assert (a + b)[|a| + i..|a| + step.keep] == b[i..step.keep];
  }

  lemma LongEnough(b: string, i: nat)
    requires i <= |b| && StartsWithIgnoreCase(b, i, "bearer")
    ensures i + 6 <= |b|
  {
  }

  lemma {:induction false} ScanShift(output: string, a: string, b: string, i: nat)
    requires i <= |b|
    ensures Scan(output, a + b, |a| + i) == Scan(output, b, i)
    decreases |b| - i
  {
    hide StepAt, Emit, Scan;
    if i == |b| {
      ScanAtEnd(output, a + b);
      ScanAtEnd(output, b);
    } else {
      StepShift(output, a, b, i);
      var step := StepAt(output, b, i);
      ScanStep(output, a + b, |a| + i);
      ScanStep(output, b, i);
      ScanShift(output + Emit(step, b, i), a, b, step.next);
    }
  }

  /** Text behind it starts afresh: it ends in no character of a word. */
  predicate Opens(output: string) {
    output == "" || (var c := output[|output| - 1]; !NameChar(c) && c != '.')
  }

  lemma {:induction false} NameStartShift(output: string, more: string, n: nat)
    requires n <= |more| && Opens(output)
    ensures NameStart(output + more, |output| + n) == |output| + NameStart(more, n)
  {
    if n > 0 {
      assert (output + more)[|output| + n - 1] == more[n - 1];
      NameStartShift(output, more, n - 1);
    } else if output != "" {
      assert (output + more)[|output| - 1] == output[|output| - 1];
    }
  }

  lemma EndsShift(output: string, more: string, start: nat, suffix: string)
    requires start <= |more|
    ensures EndsWithIgnoreCase(output + more, |output| + start, suffix) <==> EndsWithIgnoreCase(more, start, suffix)
  {
    hide StartsWithIgnoreCase;
    if start + |suffix| <= |more| {
      StartsShift(output, more, |more| - |suffix|, suffix);
    }
  }

  lemma LookBackShift(output: string, more: string)
    requires Opens(output)
    ensures AtTokenStart(output + more) <==> AtTokenStart(more)
    ensures KeyishNameBefore(output + more) <==> KeyishNameBefore(more)
  {
    if more != "" {
      assert (output + more)[|output + more| - 1] == more[|more| - 1];
    }
    NameStartShift(output, more, |more|);
    var start := NameStart(more, |more|);
    hide EndsWithIgnoreCase, KEYISH_SUFFIXES, NameStart;
    forall suffix
      ensures EndsWithIgnoreCase(output + more, |output| + start, suffix) <==> EndsWithIgnoreCase(more, start, suffix)
    {
      EndsShift(output, more, start, suffix);
    }
  }

  lemma {:induction false} ScanAfresh(output: string, more: string, s: string, i: nat)
    requires i <= |s| && Opens(output)
    ensures Scan(output + more, s, i) == Scan(more, s, i)
    decreases |s| - i
  {
    hide Scan, Emit;
    if i == |s| {
      ScanAtEnd(output + more, s);
      ScanAtEnd(more, s);
    } else {
      LookBackShift(output, more);
      hide Opens, AtTokenStart, KeyishNameBefore, StartsWithIgnoreCase, TokenEnd, SkipBlanks;
      var step := StepAt(more, s, i);
      assert StepAt(output + more, s, i) == step;
      hide StepAt;
      ScanStep(output + more, s, i);
      ScanStep(more, s, i);
      Assoc(output, more, Emit(step, s, i));
      ScanAfresh(output, more + Emit(step, s, i), s, step.next);
    }
  }

  lemma {:induction false} BorderIsShown(output: string, a: string, i: nat)
    requires a != "" && Bordered(a) && i < |a|
    ensures
      var r := Scan(output, a, i);
      r != "" && r[|r| - 1] == a[|a| - 1]
    decreases |a| - i
  {
    hide Scan, StepAt, Bordered;
    var step := StepAt(output, a, i);
    var piece := Emit(step, a, i);
    ScanStep(output, a, i);
    BorderIsCopied(output, a, i);
    if step.next == |a| {
      ScanAtEnd(output + piece, a);
      assert piece + "" == piece == a[i..];
    } else {
      BorderIsShown(output + piece, a, step.next);
    }
  }

  /** Text is redacted line by line, and wherever else a border stands. */
  lemma LineByLine(a: string, b: string)
    requires Bordered(a)
    ensures RedactSecrets(a + b) == RedactSecrets(a) + RedactSecrets(b)
    ensures Opens(RedactSecrets(a))
  {
    hide Scan;
    if a == "" {
      assert a + b == b;
      ScanAtEnd("", a);
      assert "" + RedactSecrets(b) == RedactSecrets(b);
    } else {
      ScanSplits("", a, b, 0);
      BorderIsShown("", a, 0);
      var r := Scan("", a, 0);
      assert "" + r == r && r + "" == r;
      ScanAfresh(r, "", b, 0);
    }
  }

  // ---------- the three kinds of secrets ----------

  /** Full stops, and then nothing more of the value. */
  predicate Behind(rest: string) {
    exists k | 0 <= k <= |rest| :: (forall j | 0 <= j < k :: rest[j] == '.') && (k < |rest| ==> !ValueChar(rest[k]))
  }

  lemma TokenIs(head: string, token: string, rest: string)
    requires IsValue(token) && Behind(rest)
    ensures TokenEnd(head + (token + rest), |head|) == |head| + |token|
  {
    hide IsTokenChar, FullRun, TokenEnd, ValueChar;
    forall c
      ensures ValueChar(c) <==> IsTokenChar(c)
    {
      SameClasses(c);
    }
    assert ValueChar('.') by { SameClasses('.'); StopIsValue(); }
    var k :| 0 <= k <= |rest| && (forall j | 0 <= j < k :: rest[j] == '.') && (k < |rest| ==> !ValueChar(rest[k]));
    var s := head + (token + rest);
    assert forall j | |head| <= j < |head| + |token| :: s[j] == token[j - |head|];
    assert forall j | |head| + |token| <= j < |s| :: s[j] == rest[j - |head| - |token|];
    TokenEndUnique(s, |head|, |head| + |token| + k, |head| + |token|);
  }

  lemma StopIsValue()
    ensures ValueChar('.')
  {
  }

  /** The characters of one word. */
  predicate IsWord(s: string) { forall i | 0 <= i < |s| :: NameChar(s[i]) || s[i] == '.' }

  /** Inside a word nothing is looked for. */
  lemma {:induction false} WordIsCopied(word: string, rest: string, i: nat)
    requires IsWord(word) && 0 < i <= |word|
    ensures Scan(word[..i], word + rest, i) == word[i..] + Scan(word, word + rest, |word|)
    decreases |word| - i
  {
    hide Scan;
    var s := word + rest;
    if i == |word| {
      assert word[..i] == word && word[i..] == "";
      assert "" + Scan(word, s, |word|) == Scan(word, s, |word|);
    } else {
      InsideWord(word, rest, i);
      ScanStep(word[..i], s, i);
      assert s[i..i + 1] == [word[i]] && word[..i] + [word[i]] == word[..i + 1];
      WordIsCopied(word, rest, i + 1);
      assert [word[i]] + word[i + 1..] == word[i..];
      Assoc([word[i]], word[i + 1..], Scan(word, s, |word|));
    }
  }

  lemma InsideWord(word: string, rest: string, i: nat)
    requires IsWord(word) && 0 < i < |word|
    ensures StepAt(word[..i], word + rest, i) == Step(i + 1, i + 1)
  {
    hide StartsWithIgnoreCase, KeyishNameBefore, TokenEnd, SkipBlanks;
    assert word[..i][i - 1] == word[i - 1] && (word + rest)[i] == word[i];
    SameClasses(word[i - 1]);
  }

  /** A hidden token, and the rest redacted by itself. */
  lemma TokenIsHidden(output: string, s: string, i: nat, head: string, token: string, rest: string)
    requires i < |s| && s == head + (token + rest) && i <= |head|
    requires StepAt(output, s, i) == Step(|head|, |head| + |token|) && token != ""
    ensures Scan(output, s, i) == head[i..] + REDACTED + RedactSecrets(rest)
  {
    hide Scan, StepAt;
    var done := output + (head[i..] + REDACTED);
    ScanStep(output, s, i);
    assert s[i..|head|] == head[i..];
    assert s == head + token + rest by { Assoc(head, token, rest); }
    ScanShift(done, head + token, rest, 0);
    assert done[|done| - 1] == ']';
    assert done + "" == done;
    ScanAfresh(done, "", rest, 0);
  }

  /** A token after a key-like name and `=`. */
  lemma AssignStep(name: string, token: string, rest: string)
    requires IsName(name) && KeyLike(name) && IsValue(token) && |token| >= 8 && Behind(rest)
    ensures StepAt(name, (name + "=") + (token + rest), |name|) == Step(|name| + 1, |name| + 1 + |token|)
  {
    KeyishIff("", name);
    assert "" + name == name;
    TokenIs(name + "=", token, rest);
    hide KeyishNameBefore, TokenEnd, AtTokenStart, StartsWithIgnoreCase, SkipBlanks, KeyLike, IsValue, Behind;
    assert ((name + "=") + (token + rest))[|name|] == '=';
  }

  lemma ReadsIff(s: string, i: nat, needle: string, part: string)
    requires i + |needle| <= |s| && part == s[i..i + |needle|]
    ensures StartsWithIgnoreCase(s, i, needle) <==> Reads(part, needle)
  {
    forall c
      ensures Lower(c) == Text.LowerAscii(c)
    {
      SameClasses(c);
    }
    hide Lower, Text.LowerAscii;
    assert forall k | 0 <= k < |needle| :: part[k] == s[i + k];
    assert forall k | i <= k < i + |needle| :: s[k] == part[k - i];
  }

  /** A word that does not begin as a marker is entered character by character. */
  lemma PlainStart(word: string, rest: string)
    requires word != "" && IsWord(word) && !StartsLike(word, "sk-") && !StartsLike(word, "bearer")
    requires rest == "" || !NameChar(rest[0])
    ensures StepAt("", word + rest, 0) == Step(1, 1)
  {
    var s := word + rest;
    assert s[0] == word[0] != '=';
    NoMarker(word, rest, "sk-");
    NoMarker(word, rest, "bearer");
    hide StartsWithIgnoreCase, KeyishNameBefore, TokenEnd, SkipBlanks, AtTokenStart;
  }

  lemma NoMarker(word: string, rest: string, needle: string)
    requires word != "" && !StartsLike(word, needle) && needle in {"sk-", "bearer"}
    requires rest == "" || !NameChar(rest[0])
    ensures !StartsWithIgnoreCase(word + rest, 0, needle)
  {
    var s := word + rest;
    if |needle| <= |word| {
      assert s[0..|needle|] == word[..|needle|];
      ReadsIff(s, 0, needle, word[..|needle|]);
    } else if |needle| <= |s| {
      assert s[|word|] == rest[0];
      NoNameChar(rest[0]);
      assert needle[|word|] in "sk-bearer";
    }
  }

  lemma NoNameChar(c: char)
    ensures !NameChar(c) ==> Text.LowerAscii(c) !in "sk-bearer"
  {
  }

  /** A word alone is kept unless it begins as a marker. */
  lemma WordIsKept(word: string)
    requires IsWord(word) && !StartsLike(word, "sk-") && !StartsLike(word, "bearer")
    ensures RedactSecrets(word) == word
  {
    hide Scan, StartsLike, IsWord;
    if word == "" {
      ScanAtEnd("", word);
    } else {
      assert word + "" == word;
      PlainStart(word, "");
      ScanStep("", word, 0);
      assert word[0..1] == word[..1] && "" + word[..1] == word[..1];
      WordIsCopied(word, "", 1);
      ScanAtEnd(word, word);
      assert word[..1] + (word[1..] + "") == word;
    }
  }

  /** A token that begins with `sk-`. */
  lemma SkTokenIsHidden(before: string, token: string, rest: string)
    requires Bordered(before) && IsValue(token) && StartsLike(token, "sk-") && |token| >= 12 && Behind(rest)
    ensures RedactSecrets(before + (token + rest)) == RedactSecrets(before) + ("[REDACTED]" + RedactSecrets(rest))
  {
    hide RedactSecrets, IsValue, Behind, StartsLike;
    LineByLine(before, token + rest);
    SkHidden(token, rest);
  }

  lemma SkHidden(token: string, rest: string)
    requires IsValue(token) && StartsLike(token, "sk-") && |token| >= 12 && Behind(rest)
    ensures RedactSecrets(token + rest) == "[REDACTED]" + RedactSecrets(rest)
  {
    hide Scan, IsValue, Behind;
    SkStep(token, rest);
    assert "" + (token + rest) == token + rest;
    TokenIsHidden("", token + rest, 0, "", token, rest);
    assert ""[0..] + REDACTED == "[REDACTED]";
  }

  lemma SkStep(token: string, rest: string)
    requires IsValue(token) && StartsLike(token, "sk-") && |token| >= 12 && Behind(rest)
    ensures StepAt("", token + rest, 0) == Step(0, |token|)
  {
    hide StartsWithIgnoreCase, TokenEnd, KeyishNameBefore, SkipBlanks, IsValue, Behind, StartsLike;
    assert "" + (token + rest) == token + rest;
    TokenIs("", token, rest);
    SkReads(token, rest);
  }

  lemma SkReads(token: string, rest: string)
    requires StartsLike(token, "sk-")
    ensures token != "" && token[0] != '=' && StartsWithIgnoreCase(token + rest, 0, "sk-")
  {
    var s := token + rest;
    assert s[0..3] == token[..3];
    ReadsIff(s, 0, "sk-", token[..3]);
    assert Lower(token[0]) == 's';
    SIsNoAssign(token[0]);
  }

  lemma SIsNoAssign(c: char)
    ensures Text.LowerAscii(c) in "sb" ==> c != '='
  {
  }

  /** A token behind `bearer`, with or without blanks between. */
  lemma BearerTokenIsHidden(before: string, word: string, blanks: string, token: string, rest: string)
    requires Bordered(before) && Reads(word, "bearer") && (forall i | 0 <= i < |blanks| :: blanks[i] == ' ' || blanks[i] == '\t')
    requires IsValue(token) && |token| >= 8 && Behind(rest)
    ensures RedactSecrets(before + (word + blanks + (token + rest))) ==
            RedactSecrets(before) + (word + blanks + "[REDACTED]" + RedactSecrets(rest))
  {
    hide RedactSecrets, IsValue, Behind, Reads;
    LineByLine(before, word + blanks + (token + rest));
    BearerHidden(word, blanks, token, rest);
  }

  lemma BearerHidden(word: string, blanks: string, token: string, rest: string)
    requires Reads(word, "bearer") && (forall i | 0 <= i < |blanks| :: blanks[i] == ' ' || blanks[i] == '\t')
    requires IsValue(token) && |token| >= 8 && Behind(rest)
    ensures RedactSecrets(word + blanks + (token + rest)) == word + blanks + "[REDACTED]" + RedactSecrets(rest)
  {
    hide Scan, IsValue, Behind, Reads;
    BearerStepIs(word, blanks, token, rest);
    TokenIsHidden("", word + blanks + (token + rest), 0, word + blanks, token, rest);
    assert (word + blanks)[0..] == word + blanks;
  }

  lemma BearerStepIs(word: string, blanks: string, token: string, rest: string)
    requires Reads(word, "bearer") && (forall i | 0 <= i < |blanks| :: blanks[i] == ' ' || blanks[i] == '\t')
    requires IsValue(token) && |token| >= 8 && Behind(rest)
    ensures
      var head := word + blanks;
      |word| == 6 && StepAt("", head + (token + rest), 0) == Step(|head|, |head| + |token|)
  {
    var head := word + blanks;
    var s := head + (token + rest);
    TokenIs(head, token, rest);
    assert forall j | 0 <= j < 6 :: s[j] == word[j];
    assert s[0..6] == word;
    ReadsIff(s, 0, "bearer", word);
    NotBoth(s);
    SIsNoAssign(s[0]);
    BlanksEnd(s, 6, |head|) by {
      assert forall j | 6 <= j < |head| :: s[j] == blanks[j - 6];
      assert s[|head|] == token[0];
    }
    hide StartsWithIgnoreCase, TokenEnd, KeyishNameBefore, SkipBlanks;
  }

  lemma NotBoth(s: string)
    requires StartsWithIgnoreCase(s, 0, "bearer")
    ensures !StartsWithIgnoreCase(s, 0, "sk-") && s != "" && Text.LowerAscii(s[0]) in "sb"
  {
    assert Text.LowerAscii(s[0]) == "bearer"[0] == 'b';
    assert "sk-"[0] == 's';
  }

  lemma {:induction false} BlanksEnd(s: string, i: nat, end: nat)
    requires i <= end < |s| && (forall j | i <= j < end :: s[j] == ' ' || s[j] == '\t')
    requires s[end] != ' ' && s[end] != '\t'
    ensures SkipBlanks(s, i) == end
    decreases end - i
  {
    if i < end {
      BlanksEnd(s, i + 1, end);
    }
  }

  /** What is shown of a key-like name with a secret value. */
  function ShownFor(name: string): string {
    if StartsLike(name, "sk-") then "[REDACTED]"
    else if StartsLike(name, "bearer") then name[..6] + "[REDACTED]"
    else name + "=[REDACTED]"
  }

  /** From `i` on, a name, `=` and its value make one value. */
  lemma NameMakesValue(name: string, token: string, i: nat)
    requires IsName(name) && IsValue(token) && i <= |name|
    ensures IsValue(name[i..] + "=" + token)
  {
    var v := name[i..] + "=" + token;
    assert v[|v| - 1] == token[|token| - 1];
    forall k | 0 <= k < |v|
      ensures ValueChar(v[k])
    {
      if k < |name| - i {
        assert v[k] == name[i + k];
      } else if k > |name| - i {
        assert v[k] == token[k - (|name| - i) - 1];
      }
    }
  }

  lemma KeyIsLong(name: string)
    requires KeyLike(name)
    ensures |name| >= 3 && (StartsLike(name, "bearer") ==> |name| > 6)
  {
    KeyEnds(name);
    if StartsLike(name, "bearer") {
      assert "bearer"[5] == 'r' && Lower(name[..6][5]) == 'r';
    }
  }

  lemma KeyEnds(name: string)
    requires KeyLike(name)
    ensures |name| >= 3 && Lower(name[|name| - 1]) != 'r'
  {
  }

  lemma SkName(name: string, token: string, rest: string)
    requires IsName(name) && KeyLike(name) && IsValue(token) && |token| >= 8 && Behind(rest) && StartsLike(name, "sk-")
    ensures RedactSecrets(name + "=" + token + rest) == "[REDACTED]" + RedactSecrets(rest)
  {
    hide RedactSecrets, IsValue, Behind, KeyLike;
    var value := name + "=" + token;
    KeyIsLong(name);
    NameMakesValue(name, token, 0);
    assert name[0..] == name && value[..3] == name[..3];
    SkHidden(value, rest);
  }

  lemma BearerName(name: string, token: string, rest: string)
    requires IsName(name) && KeyLike(name) && IsValue(token) && |token| >= 8 && Behind(rest) && StartsLike(name, "bearer")
    ensures RedactSecrets(name + "=" + token + rest) == name[..6] + "[REDACTED]" + RedactSecrets(rest)
  {
    hide RedactSecrets, IsValue, Behind, KeyLike, Reads;
    KeyIsLong(name);
    var word, value := name[..6], name[6..] + "=" + token;
    NameMakesValue(name, token, 6);
    BearerHidden(word, "", value, rest);
    assert word + "" == word;
    assert word + (value + rest) == name + "=" + token + rest;
  }

  lemma PlainName(name: string, token: string, rest: string)
    requires IsName(name) && KeyLike(name) && IsValue(token) && |token| >= 8 && Behind(rest)
    requires !StartsLike(name, "sk-") && !StartsLike(name, "bearer")
    ensures RedactSecrets(name + "=" + token + rest) == name + "=[REDACTED]" + RedactSecrets(rest)
  {
    hide Scan, IsValue, Behind, KeyLike, StartsLike, Reads;
    KeyIsLong(name);
    var tail := "=" + (token + rest);
    var s := name + tail;
    assert s == (name + "=") + (token + rest) == name + "=" + token + rest;
    PlainStart(name, tail);
    ScanStep("", s, 0);
    assert s[0..1] == name[..1] && "" + name[..1] == name[..1];
    WordIsCopied(name, tail, 1);
    AssignStep(name, token, rest);
    TokenIsHidden(name, s, |name|, name + "=", token, rest);
    assert (name + "=")[|name|..] == "=";
    Regrouped(name, RedactSecrets(rest));
  }

  lemma Regrouped(name: string, rest: string)
    requires name != ""
    ensures name[..1] + (name[1..] + ("=" + REDACTED + rest)) == name + "=[REDACTED]" + rest
  {
    assert name[..1] + name[1..] == name;
    assert "=" + REDACTED == "=[REDACTED]";
  }

  /**
    The value of every key-like name is hidden, whatever the name, as long as the
    value has eight characters: only the name is shown, and of a name that is
    itself taken for a marked token not even that.
  */
  lemma AssignedTokenIsHidden(before: string, name: string, token: string, rest: string)
    requires Bordered(before) && IsName(name) && KeyLike(name)
    requires IsValue(token) && |token| >= 8 && Behind(rest)
    ensures RedactSecrets(before + (name + "=" + token + rest)) == RedactSecrets(before) + (ShownFor(name) + RedactSecrets(rest))
  {
    hide RedactSecrets, IsValue, Behind, IsName, StartsLike, KeyLike, Bordered;
    LineByLine(before, name + "=" + token + rest);
    if StartsLike(name, "sk-") {
      SkName(name, token, rest);
    } else if StartsLike(name, "bearer") {
      BearerName(name, token, rest);
    } else {
      PlainName(name, token, rest);
    }
  }
}
