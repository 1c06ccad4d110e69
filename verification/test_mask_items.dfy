/**
  What masking does to each thing a Rust source is made of: comments, nested ones
  too, strings with escapes, raw strings, characters, and the code between them.
*/
module TestMaskItems {
  import opened Wrappers
  import opened Text
  import opened TestMask
  import opened Sequences

  datatype CommentPart = Words(text: string) | Inner(parts: seq<CommentPart>)

  /** A character of a string, or an escape of two. */
  datatype Unit = One(c: char) | Escaped(c: char)

  datatype Letter = Plain(c: char) | Backslashed(c: char) | Scalar(hex: string)

  datatype Item =
    | Code(c: char)
    | LineComment(text: string)
    | BlockComment(parts: seq<CommentPart>)
    | Raw(byte: bool, hashes: nat, text: string)
    | Character(byte: bool, letter: Letter)
    | Quoted(byte: bool, units: seq<Unit>)

  // ---------- how they are spelled ----------

  function PartText(part: CommentPart): string {
    match part
    case Words(text) => text
    case Inner(parts) => "/*" + CommentText(parts) + "*/"
  }

  function CommentText(parts: seq<CommentPart>): string {
    if parts == [] then "" else PartText(parts[0]) + CommentText(parts[1..])
  }

  function UnitsText(units: seq<Unit>): string {
    if units == [] then ""
    else (match units[0] case One(c) => [c] case Escaped(c) => ['\\', c]) + UnitsText(units[1..])
  }

  function LetterText(letter: Letter): string {
    match letter
    case Plain(c) => [c]
    case Backslashed(c) => ['\\', c]
    case Scalar(hex) => ['\\', 'u', '{'] + hex + ['}']
  }

  function Hashes(n: nat): (s: string)
    ensures |s| == n && forall k | 0 <= k < n :: s[k] == '#'
  {
    seq(n, _ => '#')
  }

  function B(byte: bool): string { if byte then "b" else "" }

  function Spelled(item: Item): string {
    match item
    case Code(c) => [c]
    case LineComment(text) => "//" + text
    case BlockComment(parts) => "/*" + CommentText(parts) + "*/"
    case Raw(byte, n, text) => B(byte) + "r" + Hashes(n) + "\"" + text + "\"" + Hashes(n)
    case Character(byte, letter) => B(byte) + "'" + LetterText(letter) + "'"
    case Quoted(byte, units) => B(byte) + "\"" + UnitsText(units) + "\""
  }

  /** Everything but code turns into blanks, line breaks aside. */
  function Shown(item: Item): string {
    if item.Code? then [item.c]
    else
      var s := Spelled(item);
      seq(|s|, k requires 0 <= k < |s| => if s[k] == '\n' then '\n' else ' ')
  }

  predicate TidyPart(part: CommentPart) {
    match part
    case Words(text) => Free(text, '/') && Free(text, '*')
    case Inner(parts) => Tidy(parts)
  }

  predicate Tidy(parts: seq<CommentPart>) {
    parts == [] || (TidyPart(parts[0]) && Tidy(parts[1..]))
  }

  predicate WellSpelled(item: Item) {
    match item
    case Code(_) => true
    case LineComment(text) => Free(text, '\n')
    case BlockComment(parts) => Tidy(parts)
    case Raw(_, n, text) => Unclosed(text, n)
    case Character(_, letter) =>
      (match letter
       case Plain(c) => c != '\'' && c != '\\' && c != '\n'
       case Backslashed(c) => c != '\n'
       case Scalar(hex) => hex != "" && forall k | 0 <= k < |hex| :: hex[k] in "0123456789abcdefABCDEF")
    case Quoted(_, units) => forall k | 0 <= k < |units| && units[k].One? :: units[k].c != '"' && units[k].c != '\\'
  }

  predicate LooksAt(s: string, i: nat, part: string) {
    i + |part| <= |s| && s[i..i + |part|] == part
  }

  lemma PartAt(s: string, i: nat, a: string, b: string)
    requires LooksAt(s, i, a + b)
    ensures LooksAt(s, i, a) && LooksAt(s, i + |a|, b)
  {
    var w := s[i..i + |a| + |b|];
    assert s[i..i + |a|] == w[..|a|] && s[i + |a|..i + |a| + |b|] == w[|a|..];
  }

  lemma CharAt(s: string, i: nat, part: string, k: nat)
    requires LooksAt(s, i, part) && k < |part|
    ensures i + k < |s| && s[i + k] == part[k]
  {
    assert s[i..i + |part|][k] == part[k];
  }

  // ---------- comments ----------

  lemma {:induction false} WordsPass(s: string, i: nat, text: string, depth: nat)
    requires LooksAt(s, i, text) && Free(text, '/') && Free(text, '*') && depth >= 1
    ensures BlockEnd(s, i, depth) == BlockEnd(s, i + |text|, depth)
    decreases |text|
  {
    if text != "" {
      CharAt(s, i, text, 0);
      assert text == text[..1] + text[1..];
      PartAt(s, i, text[..1], text[1..]);
      WordsPass(s, i + 1, text[1..], depth);
    }
  }

  lemma {:induction false} PartPasses(s: string, i: nat, part: CommentPart, depth: nat)
    requires LooksAt(s, i, PartText(part)) && TidyPart(part) && depth >= 1
    ensures BlockEnd(s, i, depth) == BlockEnd(s, i + |PartText(part)|, depth)
    decreases part
  {
    hide BlockEnd;
    if part.Words? {
      WordsPass(s, i, part.text, depth);
    } else {
      var body := CommentText(part.parts);
      hide CommentText, LooksAt;
      PartAt(s, i, "/*" + body, "*/");
      PartAt(s, i, "/*", body);
      Opens(s, i, depth);
      PartsPass(s, i + 2, part.parts, depth + 1);
      ClosesOne(s, i + 2 + |body|, depth + 1);
    }
  }

  lemma {:induction false} PartsPass(s: string, i: nat, parts: seq<CommentPart>, depth: nat)
    requires LooksAt(s, i, CommentText(parts)) && Tidy(parts) && depth >= 1
    ensures i + |CommentText(parts)| <= |s|
    ensures BlockEnd(s, i, depth) == BlockEnd(s, i + |CommentText(parts)|, depth)
    decreases parts
  {
    if parts != [] {
      hide BlockEnd, PartText, TidyPart;
      PartAt(s, i, PartText(parts[0]), CommentText(parts[1..]));
      PartPasses(s, i, parts[0], depth);
      PartsPass(s, i + |PartText(parts[0])|, parts[1..], depth);
    }
  }

  lemma Opens(s: string, i: nat, depth: nat)
    requires LooksAt(s, i, "/*") && depth >= 1
    ensures BlockEnd(s, i, depth) == BlockEnd(s, i + 2, depth + 1)
  {
    CharAt(s, i, "/*", 0);
    CharAt(s, i, "/*", 1);
  }

  lemma ClosesOne(s: string, i: nat, depth: nat)
    requires LooksAt(s, i, "*/") && depth >= 1
    ensures BlockEnd(s, i, depth) == BlockEnd(s, i + 2, depth - 1)
  {
    CharAt(s, i, "*/", 0);
    CharAt(s, i, "*/", 1);
  }

  lemma CommentStart(s: string, i: nat)
    requires i + 2 <= |s| && s[i] == '/'
    ensures s[i + 1] == '/' ==> Region(s, i) == FindChar(s, '\n', i)
    ensures s[i + 1] == '*' ==> Region(s, i) == BlockEnd(s, i + 2, 1)
  {
    hide FindChar, BlockEnd, RawQuote, CharEnd, StringEnd, RawEnd;
  }

  lemma BlockRegion(s: string, i: nat, parts: seq<CommentPart>)
    requires LooksAt(s, i, Spelled(BlockComment(parts))) && Tidy(parts)
    ensures i < |s| && Region(s, i) == i + |Spelled(BlockComment(parts))| <= |s|
  {
    hide Region, LooksAt, CommentText, Tidy;
    var body := CommentText(parts);
    InText(s, i, "/*" + body + "*/");
    PartAt(s, i, "/*" + body, "*/");
    PartAt(s, i, "/*", body);
    StarEnds(s, i, parts);
  }

  lemma StarEnds(s: string, i: nat, parts: seq<CommentPart>)
    requires Tidy(parts) && LooksAt(s, i, "/*") && LooksAt(s, i + 2, CommentText(parts))
    requires LooksAt(s, i + 2 + |CommentText(parts)|, "*/")
    ensures i < |s| && Region(s, i) == i + 4 + |CommentText(parts)|
  {
    hide Region, LooksAt, CommentText, Tidy, BlockEnd;
    CharAt(s, i, "/*", 0);
    CharAt(s, i, "/*", 1);
    CharAt(s, i + 2 + |CommentText(parts)|, "*/", 1);
    CommentStart(s, i);
    PartsPass(s, i + 2, parts, 1);
    ClosesOne(s, i + 2 + |CommentText(parts)|, 1);
    BlockDone(s, i + 4 + |CommentText(parts)|);
  }

  lemma BlockDone(s: string, i: nat)
    requires i <= |s|
    ensures BlockEnd(s, i, 0) == i
  {
  }

  lemma LineRegion(s: string, i: nat, text: string)
    requires LooksAt(s, i, "//" + text) && Free(text, '\n')
    requires i + 2 + |text| == |s| || s[i + 2 + |text|] == '\n'
    ensures i < |s| && Region(s, i) == i + 2 + |text|
  {
    hide Region;
    PartAt(s, i, "//", text);
    CharAt(s, i, "//", 0);
    CharAt(s, i, "//", 1);
    CommentStart(s, i);
    forall j | i <= j < i + 2 + |text|
      ensures s[j] != '\n'
    {
      if j >= i + 2 {
        CharAt(s, i + 2, text, j - i - 2);
      }
    }
  }

  // ---------- strings and characters ----------

  lemma {:induction false} UnitsPass(s: string, i: nat, units: seq<Unit>)
    requires LooksAt(s, i, UnitsText(units))
    requires forall k | 0 <= k < |units| && units[k].One? :: units[k].c != '"' && units[k].c != '\\'
    ensures i + |UnitsText(units)| <= |s| && StringEnd(s, i) == StringEnd(s, i + |UnitsText(units)|)
    decreases |units|
  {
    if units != [] {
      var first := match units[0] case One(c) => [c] case Escaped(c) => ['\\', c];
      PartAt(s, i, first, UnitsText(units[1..]));
      CharAt(s, i, first, 0);
      UnitsPass(s, i + |first|, units[1..]);
    }
  }

  /** Nothing but a quote, an `r` or a `b` starts a literal. */
  lemma LiteralStart(s: string, i: nat)
    requires i < |s| && s[i] != '/'
    ensures s[i] == '"' ==> Region(s, i) == StringEnd(s, i + 1)
    ensures s[i] == 'b' && At(s, i + 1, '"') ==> Region(s, i) == StringEnd(s, i + 2)
    ensures s[i] == '\'' ==> Region(s, i) == if CharEnd(s, i).Some? then CharEnd(s, i).value else i
    ensures s[i] == 'b' && At(s, i + 1, '\'') && CharEnd(s, i + 1).Some? ==> Region(s, i) == CharEnd(s, i + 1).value
    ensures s[i] !in "\"'rb" ==> Region(s, i) == i
  {
    hide FindChar, BlockEnd, StringEnd, RawEnd, RunEnd;
  }

  lemma StringRegion(s: string, i: nat, byte: bool, units: seq<Unit>)
    requires LooksAt(s, i, Spelled(Quoted(byte, units))) && WellSpelled(Quoted(byte, units))
    ensures i < |s| && Region(s, i) == i + |Spelled(Quoted(byte, units))| <= |s|
  {
    hide Region, UnitsText, LooksAt, StringEnd;
    var body := UnitsText(units);
    var start := B(byte) + "\"";
    PartAt(s, i, start + body, "\"");
    PartAt(s, i, start, body);
    CharAt(s, i, start, 0);
    CharAt(s, i, start, |start| - 1);
    LiteralStart(s, i);
    UnitsPass(s, i + |start|, units);
    CharAt(s, i + |start| + |body|, "\"", 0);
    StringDone(s, i + |start| + |body|);
  }

  lemma StringDone(s: string, i: nat)
    requires i < |s| && s[i] == '"'
    ensures StringEnd(s, i) == i + 1
  {
  }

  lemma LetterEnds(s: string, q: nat, letter: Letter)
    requires LooksAt(s, q, "'" + LetterText(letter) + "'") && WellSpelled(Character(false, letter))
    ensures CharEnd(s, q) == Some(q + 2 + |LetterText(letter)|)
  {
    hide CharEnd;
    match letter {
      case Plain(c) => PlainEnds(s, q, c);
      case Backslashed(c) => EscapeEnds(s, q, c);
      case Scalar(hex) => ScalarEnds(s, q, hex);
    }
  }

  lemma PlainEnds(s: string, q: nat, c: char)
    requires LooksAt(s, q, "'" + LetterText(Plain(c)) + "'") && c != '\'' && c != '\\' && c != '\n'
    ensures CharEnd(s, q) == Some(q + 3)
  {
    hide LooksAt, RunEnd;
    var t := "'" + LetterText(Plain(c)) + "'";
    CharAt(s, q, t, 0);
    CharAt(s, q, t, 1);
    CharAt(s, q, t, 2);
  }

  lemma EscapeEnds(s: string, q: nat, c: char)
    requires LooksAt(s, q, "'" + LetterText(Backslashed(c)) + "'") && c != '\n'
    ensures CharEnd(s, q) == Some(q + 4)
  {
    hide LooksAt, RunEnd;
    var t := "'" + LetterText(Backslashed(c)) + "'";
    CharAt(s, q, t, 0);
    CharAt(s, q, t, 1);
    CharAt(s, q, t, 2);
    CharAt(s, q, t, 3);
  }

  lemma ScalarEnds(s: string, q: nat, hex: string)
    requires hex != "" && LooksAt(s, q, "'" + LetterText(Scalar(hex)) + "'")
    requires forall k | 0 <= k < |hex| :: hex[k] in "0123456789abcdefABCDEF"
    ensures CharEnd(s, q) == Some(q + 2 + |LetterText(Scalar(hex))|)
  {
    hide LooksAt, RunEnd, CharEnd, LetterText;
    var head, tail := "'" + ['\\', 'u', '{'], hex + "}";
    ScalarSpelling(hex);
    PartAt(s, q, head, tail + "'");
    PartAt(s, q + 4, tail, "'");
    CharAt(s, q, head, 0);
    CharAt(s, q, head, 1);
    CharAt(s, q, head, 2);
    CharAt(s, q, head, 3);
    HexRun(s, q + 4, hex);
    CharAt(s, q + 4, tail, |hex|);
    CharAt(s, q + 4 + |tail|, "'", 0);
    ScalarShape(s, q, q + 4 + |hex|);
  }

  lemma ScalarSpelling(hex: string)
    ensures "'" + LetterText(Scalar(hex)) + "'" == ("'" + ['\\', 'u', '{']) + ((hex + "}") + "'")
    ensures |LetterText(Scalar(hex))| == |hex| + 4
  {
    var a, b := ['\\', 'u', '{'], "}";
    Assoc(a, hex, b);
    Assoc("'", a, hex + b);
    Assoc("'" + a, hex + b, "'");
  }

  lemma ScalarShape(s: string, q: nat, h: nat)
    requires At(s, q, '\'') && At(s, q + 1, '\\') && At(s, q + 2, 'u') && At(s, q + 3, '{')
    requires q + 4 < h && RunEnd(s, q + 4, HEX_DIGITS) == h && At(s, h, '}') && At(s, h + 1, '\'')
    ensures CharEnd(s, q) == Some(h + 2)
  {
    hide RunEnd, HEX_DIGITS;
  }

  lemma {:induction false} HexRun(s: string, i: nat, hex: string)
    requires LooksAt(s, i, hex + "}") && forall k | 0 <= k < |hex| :: hex[k] in "0123456789abcdefABCDEF"
    ensures i <= |s| && RunEnd(s, i, HEX_DIGITS) == i + |hex|
    decreases |hex|
  {
    hide LooksAt;
    CharAt(s, i, hex + "}", 0);
    if hex != "" {
      assert hex == hex[..1] + hex[1..];
      Assoc(hex[..1], hex[1..], "}");
      PartAt(s, i, hex[..1], hex[1..] + "}");
      HexRun(s, i + 1, hex[1..]);
    }
  }

  lemma CharacterRegion(s: string, i: nat, byte: bool, letter: Letter)
    requires LooksAt(s, i, Spelled(Character(byte, letter))) && WellSpelled(Character(byte, letter))
    ensures i < |s| && Region(s, i) == i + |Spelled(Character(byte, letter))| <= |s|
  {
    hide Region, LetterText, LooksAt, CharEnd, Spelled, WellSpelled;
    var quoted := "'" + LetterText(letter) + "'";
    CharacterSpelling(byte, letter);
    InText(s, i, Spelled(Character(byte, letter)));
    PartAt(s, i, B(byte), quoted);
    var q := i + |B(byte)|;
    CharAt(s, q, quoted, 0);
    if byte {
      CharAt(s, i, B(byte), 0);
    }
    LetterEnds(s, q, letter);
    LiteralStart(s, i);
  }

  lemma CharacterSpelling(byte: bool, letter: Letter)
    ensures Spelled(Character(byte, letter)) == B(byte) + ("'" + LetterText(letter) + "'")
    ensures WellSpelled(Character(byte, letter)) == WellSpelled(Character(false, letter))
  {
    hide LetterText;
    Assoc(B(byte), "'", LetterText(letter));
    Assoc(B(byte), "'" + LetterText(letter), "'");
  }

  lemma InText(s: string, i: nat, part: string)
    requires LooksAt(s, i, part)
    ensures i + |part| <= |s|
  {
  }

  // ---------- raw strings ----------

  /** No quote inside is followed by all the hashes. */
  predicate Unclosed(text: string, n: nat) {
    forall k | 0 <= k < |text| && text[k] == '"' ::
      exists m | k < m <= k + n :: m < |text| + 1 && (text + "\"")[m] != '#'
  }

  lemma {:induction false} RawPasses(s: string, i: nat, text: string, n: nat)
    requires LooksAt(s, i, text + "\"" + Hashes(n)) && Unclosed(text, n)
    ensures i + |text| + 1 + n <= |s| && RawEnd(s, i, n) == i + |text| + 1 + n
    decreases |text|
  {
    var t := text + "\"" + Hashes(n);
    hide LooksAt;
    InText(s, i, t);
    CharAt(s, i, t, 0);
    if text == "" {
      forall k | i < k <= i + n
        ensures s[k] == '#'
      {
        CharAt(s, i, t, k - i);
      }
    } else {
      if text[0] == '"' {
        var m :| 0 < m <= n && m < |text| + 1 && (text + "\"")[m] != '#';
        CharAt(s, i, t, m);
        assert t[m] == (text + "\"")[m];
        assert s[i + m] != '#';
      }
      assert t == text[..1] + (text[1..] + "\"" + Hashes(n));
      PartAt(s, i, text[..1], text[1..] + "\"" + Hashes(n));
      UnclosedTail(text, n);
      hide Unclosed;
      RawPasses(s, i + 1, text[1..], n);
    }
  }

  lemma UnclosedTail(text: string, n: nat)
    requires text != "" && Unclosed(text, n)
    ensures Unclosed(text[1..], n)
  {
    var rest := text[1..];
    forall k | 0 <= k < |rest| && rest[k] == '"'
      ensures exists m | k < m <= k + n :: m < |rest| + 1 && (rest + "\"")[m] != '#'
    {
      assert text[k + 1] == '"';
      var m :| k + 1 < m <= k + 1 + n && m < |text| + 1 && (text + "\"")[m] != '#';
      assert (rest + "\"")[m - 1] == (text + "\"")[m];
    }
  }

  lemma RawStartIs(s: string, i: nat, byte: bool, n: nat)
    requires LooksAt(s, i, B(byte) + "r" + Hashes(n) + "\"")
    ensures i < |s| && RawStart(s, i) == i + |B(byte)| && RawQuote(s, i + |B(byte)|) == Some(i + |B(byte)| + 1 + n)
    ensures s[i] != '/'
  {
    var head, tail := B(byte) + "r", Hashes(n) + "\"";
    hide LooksAt, RunEnd, RawQuote, RawStart, B;
    Assoc(head, Hashes(n), "\"");
    PartAt(s, i, head, tail);
    RawHead(s, i, byte);
    HashRun(s, i + |head|, n);
    CharAt(s, i + |head|, tail, n);
    RawQuoteIs(s, i + |B(byte)|, i + |head| + n);
  }

  lemma RawHead(s: string, i: nat, byte: bool)
    requires LooksAt(s, i, B(byte) + "r")
    ensures i < |s| && s[i] != '/' && RawStart(s, i) == i + |B(byte)| && At(s, i + |B(byte)|, 'r')
  {
    CharAt(s, i, B(byte) + "r", 0);
    CharAt(s, i, B(byte) + "r", |B(byte)|);
  }

  lemma RawQuoteIs(s: string, r: nat, h: nat)
    requires At(s, r, 'r') && RunEnd(s, r + 1, HASHES) == h && At(s, h, '"')
    ensures RawQuote(s, r) == Some(h)
  {
    hide RunEnd;
  }

  lemma {:induction false} HashRun(s: string, i: nat, n: nat)
    requires LooksAt(s, i, Hashes(n) + "\"")
    ensures i <= |s| && RunEnd(s, i, HASHES) == i + n
    decreases n
  {
    CharAt(s, i, Hashes(n) + "\"", 0);
    if n > 0 {
      assert Hashes(n) + "\"" == Hashes(1) + (Hashes(n - 1) + "\"");
      PartAt(s, i, Hashes(1), Hashes(n - 1) + "\"");
      HashRun(s, i + 1, n - 1);
    }
  }

  lemma RawChosen(s: string, i: nat)
    requires i < |s| && s[i] != '/' && RawQuote(s, RawStart(s, i)).Some?
    ensures
      var r := RawStart(s, i);
      var q := RawQuote(s, r).value;
      Region(s, i) == RawEnd(s, q + 1, q - r - 1)
  {
    hide RawStart, RawEnd, BlockEnd, FindChar, CharEnd, StringEnd, RunEnd;
  }

  lemma RawSpelling(byte: bool, n: nat, text: string)
    ensures Spelled(Raw(byte, n, text)) == (B(byte) + "r" + Hashes(n) + "\"") + (text + "\"" + Hashes(n))
  {
    hide B, Hashes;
    var head := B(byte) + "r" + Hashes(n) + "\"";
    Assoc(head, text, "\"");
    Assoc(head, text + "\"", Hashes(n));
  }

  lemma RawRegion(s: string, i: nat, byte: bool, n: nat, text: string)
    requires LooksAt(s, i, Spelled(Raw(byte, n, text))) && Unclosed(text, n)
    ensures i < |s| && Region(s, i) == i + |Spelled(Raw(byte, n, text))| <= |s|
  {
    hide LooksAt, Region, RawStart, RawQuote, RawEnd, Unclosed, Spelled, B, Hashes;
    var head := B(byte) + "r" + Hashes(n) + "\"";
    RawSpelling(byte, n, text);
    InText(s, i, Spelled(Raw(byte, n, text)));
    PartAt(s, i, head, text + "\"" + Hashes(n));
    RawStartIs(s, i, byte, n);
    RawPasses(s, i + |head|, text, n);
    RawChosen(s, i);
    assert |head| == |B(byte)| + 2 + n;
  }

  // ---------- whole texts ----------

  /** The character at `i` starts nothing: a letter of a word, a lone slash, the tick of a lifetime, no quote. */
  predicate IsCode(s: string, i: nat) {
    i < |s|
    && if s[i] == '/' then i + 1 == |s| || s[i + 1] !in "/*"
       else if s[i] == 'r' then i + 1 == |s| || s[i + 1] !in "#\""
       else if s[i] == 'b' then
         i + 1 == |s| || (if s[i + 1] == 'r' then i + 2 == |s| || s[i + 2] !in "#\"" else s[i + 1] !in "\"'")
       else if s[i] == '\'' then i + 2 < |s| && s[i + 1] !in "\\'" && s[i + 2] != '\''
       else s[i] != '"'
  }

  lemma CodeRegion(s: string, i: nat)
    requires IsCode(s, i)
    ensures Region(s, i) == i
  {
    assert i + 1 < |s| && s[i + 1] !in "#\"" ==> RunEnd(s, i + 1, HASHES) == i + 1;
    assert i + 2 < |s| && s[i + 2] !in "#\"" ==> RunEnd(s, i + 2, HASHES) == i + 2;
    hide FindChar, BlockEnd, StringEnd, RawEnd, RunEnd;
  }

  /** `item` stands at `i`, as far as what follows lets it end there. */
  predicate Fits(s: string, i: nat, item: Item) {
    && LooksAt(s, i, Spelled(item)) && WellSpelled(item) && (item.Code? ==> IsCode(s, i))
    && (item.LineComment? ==> i + |Spelled(item)| == |s| || s[i + |Spelled(item)|] == '\n')
  }

  /** From `i` on the text is these items. */
  predicate Reads(s: string, i: nat, items: seq<Item>)
    decreases |items|
  {
    if items == [] then i == |s| else Fits(s, i, items[0]) && Reads(s, i + |Spelled(items[0])|, items[1..])
  }

  function ShownAll(items: seq<Item>): string {
    if items == [] then "" else Shown(items[0]) + ShownAll(items[1..])
  }

  lemma ItemRegion(s: string, i: nat, item: Item)
    requires Fits(s, i, item)
    ensures i < i + |Spelled(item)| <= |s|
    ensures Region(s, i) == if item.Code? then i else i + |Spelled(item)|
  {
    hide Region, CommentText, UnitsText, LetterText, Hashes;
    InText(s, i, Spelled(item));
    match item
    case Code(c) => CodeRegion(s, i);
    case LineComment(text) => LineRegion(s, i, text);
    case BlockComment(parts) => BlockRegion(s, i, parts);
    case Raw(byte, n, text) => RawRegion(s, i, byte, n, text);
    case Character(byte, letter) => CharacterRegion(s, i, byte, letter);
    case Quoted(byte, units) => StringRegion(s, i, byte, units);
  }

  lemma ItemPiece(s: string, i: nat, item: Item)
    requires Fits(s, i, item) && i < i + |Spelled(item)| <= |s|
    ensures Shown(item) == if item.Code? then [s[i]] else Blank(s, i, i + |Spelled(item)|)
  {
    hide WellSpelled, CommentText, UnitsText, LetterText, Hashes;
    var part := Spelled(item);
    forall k | 0 <= k < |part|
      ensures s[i + k] == part[k]
    {
      CharAt(s, i, part, k);
    }
    hide Spelled;
    assert item.Code? ==> part == [item.c];
  }

  lemma MaskedEnd(s: string)
    ensures MaskFrom(s, |s|) == Ok("")
  {
  }

  lemma OneItem(s: string, i: nat, item: Item)
    requires Fits(s, i, item) && i + |Spelled(item)| <= |s|
    requires MaskFrom(s, i + |Spelled(item)|).Ok?
    ensures i < |s| && MaskFrom(s, i) == Ok(Shown(item) + MaskFrom(s, i + |Spelled(item)|).value)
  {
    hide Region, Fits, Spelled, Shown, Blank;
    ItemRegion(s, i, item);
    ItemPiece(s, i, item);
    CodeIsOne(item);
  }

  lemma CodeIsOne(item: Item)
    ensures item.Code? ==> |Spelled(item)| == 1
  {
  }

  /**
    Masking a text made of these items keeps the code and blanks the rest, item by
    item, line breaks aside.
  */
  lemma {:induction false} MaskedItems(s: string, i: nat, items: seq<Item>)
    requires i <= |s| && Reads(s, i, items)
    ensures MaskFrom(s, i) == Ok(ShownAll(items))
    decreases |items|
  {
    hide Fits, Spelled, Shown, MaskFrom;
    if items == [] {
      MaskedEnd(s);
    } else {
      ItemRegion(s, i, items[0]);
      MaskedItems(s, i + |Spelled(items[0])|, items[1..]);
      OneItem(s, i, items[0]);
    }
  }
}
