/**
  `Content-Length` framing of src/language_intelligence.rs, after the base
  protocol of the Language Server Protocol 3.17.
*/
module LspFraming {
  import opened Wrappers
  import opened Text
  import opened Utf8
  import opened Sequences
  import Decimal

  const MAX_FRAME_BYTES := 4194304
  const MAX_HEADER_BYTES := 65536

  // ---------- writing ----------

  const HEADER_NAME := "Content-Length"

  function Header(length: nat): string {
    "Content-Length: " + Decimal.Digits(length)
  }

  /** The bytes `write_message` sends for a body. */
  function Frame(body: bytes): bytes {
    Encode(Header(|body|)) + [13, 10, 13, 10] + body
  }

  // ---------- reading one frame ----------

  predicate BlankLineAt(b: bytes, i: int) {
    0 <= i <= |b| - 4 && b[i] == 13 && b[i + 1] == 10 && b[i + 2] == 13 && b[i + 3] == 10
  }

  /** Where the first blank line starts, at or after `i`. */
  function HeaderEnd(b: bytes, i: nat): (r: Option<nat>)
    ensures r.Some? ==> i <= r.value && BlankLineAt(b, r.value) && forall j | i <= j < r.value :: !BlankLineAt(b, j)
    ensures r.None? ==> forall j | i <= j :: !BlankLineAt(b, j)
    decreases |b| - i
  {
    if i + 4 > |b| then None else if BlankLineAt(b, i) then Some(i) else HeaderEnd(b, i + 1)
  }

  /** Position of the next CRLF of a text, or its length. */
  function FindCrlf(s: string, i: nat): (k: nat)
    requires i <= |s|
    ensures i <= k <= |s|
    ensures k < |s| ==> k + 1 < |s| && s[k] == '\r' && s[k + 1] == '\n'
    ensures forall j | i <= j < k && j + 1 < |s| :: !(s[j] == '\r' && s[j + 1] == '\n')
    decreases |s| - i
  {
    if i + 1 >= |s| then |s|
    else if s[i] == '\r' && s[i + 1] == '\n' then i
    else FindCrlf(s, i + 1)
  }

  function Lines(s: string): (r: seq<string>)
    ensures r != []
    decreases |s|
  {
    var k := FindCrlf(s, 0);
    if k == |s| then [s] else [s[..k]] + Lines(s[k + 2..])
  }

  predicate SameIgnoringCase(a: string, b: string) {
    |a| == |b| && forall i | 0 <= i < |a| :: LowerAscii(a[i]) == LowerAscii(b[i])
  }

  /** Header fields in order: every line needs a colon, only one length may appear. */
  function ContentLength(lines: seq<string>, found: Option<nat>): Result<nat, string> {
    if lines == [] then
      (if found.Some? then Ok(found.value) else Err("missing Content-Length"))
    else
      var line := lines[0];
      var colon := FindChar(line, ':', 0);
      if colon == |line| then Err("malformed header")
      else if !SameIgnoringCase(Trim(line[..colon]), "content-length") then ContentLength(lines[1..], found)
      else if found.Some? then Err("duplicate Content-Length")
      else match Decimal.ParseUnsigned(Trim(line[colon + 1..]), U64_MAX)
        case None => Err("invalid Content-Length")
        case Some(n) => ContentLength(lines[1..], Some(n))
  }

  datatype Extracted = Failed(reason: string) | Pending | Body(body: bytes, rest: bytes)

  /** The length a complete header announces. */
  function Announced(header: bytes): Result<nat, string> {
    if |header| > MAX_HEADER_BYTES then Err("header too long")
    else
      var d := Decode(header);
      if !d.end.Complete? then Err("header is not UTF-8")
      else match ContentLength(Lines(d.text), None)
        case Err(e) => Err(e)
        case Ok(n) => if n > MAX_FRAME_BYTES then Err("message too long") else Ok(n)
  }

  function Extract(buffer: bytes): Extracted {
    match HeaderEnd(buffer, 0)
    case None => if |buffer| > MAX_HEADER_BYTES then Failed("header too long") else Pending
    case Some(end) =>
      match Announced(buffer[..end])
      case Err(e) => Failed(e)
      case Ok(n) =>
        if |buffer| < end + 4 + n then Pending
        else Body(buffer[end + 4..end + 4 + n], buffer[end + 4 + n..])
  }

  // ---------- more input never changes a frame ----------

  lemma HeaderEndIs(b: bytes, end: nat)
    requires BlankLineAt(b, end) && forall j | 0 <= j < end :: !BlankLineAt(b, j)
    ensures HeaderEnd(b, 0) == Some(end)
  {
  }

  lemma HeaderEndIsStable(a: bytes, more: bytes)
    requires HeaderEnd(a, 0).Some?
    ensures HeaderEnd(a + more, 0) == HeaderEnd(a, 0)
    ensures (a + more)[..HeaderEnd(a, 0).value] == a[..HeaderEnd(a, 0).value]
  {
    var end := HeaderEnd(a, 0).value;
    forall j | 0 <= j < end
      ensures !BlankLineAt(a + more, j)
    {
      assert !BlankLineAt(a, j);
    }
    HeaderEndIs(a + more, end);
  }

  /** A body found in a buffer is found the same with any bytes behind it. */
  lemma BodyIsStable(a: bytes, more: bytes)
    requires Extract(a).Body?
    ensures Extract(a + more) == Body(Extract(a).body, Extract(a).rest + more)
  {
    hide HeaderEnd, Announced;
    HeaderEndIsStable(a, more);
    var end := HeaderEnd(a, 0).value;
    var n := Announced(a[..end]).value;
    SuffixOfConcat(a, more, end + 4, end + 4 + n);
  }

  lemma SuffixOfConcat(a: bytes, more: bytes, i: nat, j: nat)
    requires i <= j <= |a|
    ensures (a + more)[i..j] == a[i..j] && (a + more)[j..] == a[j..] + more
  {
  }

  lemma ExtractShrinks(a: bytes)
    requires Extract(a).Body?
    ensures |Extract(a).rest| + |Extract(a).body| + 4 <= |a|
  {
  }

  // ---------- the writer's frames ----------

  lemma {:induction false} EncodeAscii(s: string)
    requires forall i | 0 <= i < |s| :: s[i] < '\U{80}'
    ensures |Encode(s)| == |s| && forall i | 0 <= i < |s| :: Encode(s)[i] == s[i] as int
  {
    if s != "" {
      EncodeAscii(s[1..]);
    }
  }

  /** The header the writer prints announces the length it was given. */
  lemma HeaderAnnounces(n: nat)
    requires n <= MAX_FRAME_BYTES
    ensures Announced(Encode(Header(n))) == Ok(n)
    ensures |Encode(Header(n))| <= 23
    ensures forall i | 0 <= i < |Encode(Header(n))| :: Encode(Header(n))[i] >= 32
  {
    assert Decimal.PowerOfTen(7) == 10000000 by { SevenDigits(); }
    Decimal.DigitsFit(n, 7);
    assert Header(n) == PaddedHeader(1, n);
    PaddedAnnounces(1, n);
  }

  lemma SevenDigits()
    ensures Decimal.PowerOfTen(7) == 10000000
  {
    assert Decimal.PowerOfTen(3) == 1000;
  }

  // ---------- headers with any padding ----------

  function Spaces(pad: nat): (s: string)
    ensures |s| == pad && forall i | 0 <= i < pad :: s[i] == ' '
  {
    seq(pad, i => ' ')
  }

  function PaddedHeader(pad: nat, length: nat): string {
    "Content-Length:" + Spaces(pad) + Decimal.Digits(length)
  }

  /** Blanks before the number change nothing but the size of the header. */
  lemma PaddedAnnounces(pad: nat, n: nat)
    requires n <= MAX_FRAME_BYTES && 15 + pad + |Decimal.Digits(n)| <= MAX_HEADER_BYTES
    ensures Announced(Encode(PaddedHeader(pad, n))) == Ok(n)
    ensures |Encode(PaddedHeader(pad, n))| == 15 + pad + |Decimal.Digits(n)|
    ensures forall i | 0 <= i < |Encode(PaddedHeader(pad, n))| :: Encode(PaddedHeader(pad, n))[i] >= 32
  {
    var h := PaddedHeader(pad, n);
    HeaderChars(pad, n);
    EncodeAscii(h);
    DecodeOfEncode(h);
    HeaderReads(pad, n);
    hide Decode, ContentLength, Lines;
  }

  lemma HeaderChars(pad: nat, n: nat)
    ensures forall i | 0 <= i < |PaddedHeader(pad, n)| :: ' ' <= PaddedHeader(pad, n)[i] < '\U{7F}'
  {
    var digits := Decimal.Digits(n);
    assert forall i | 0 <= i < |digits| :: Decimal.IsDigit(digits[i]);
  }

  lemma HeaderReads(pad: nat, n: nat)
    requires n <= MAX_FRAME_BYTES
    ensures ContentLength(Lines(PaddedHeader(pad, n)), None) == Ok(n)
  {
    hide PaddedHeader, FindChar, Lines, SameIgnoringCase, Trim;
    var h, digits := PaddedHeader(pad, n), Decimal.Digits(n);
    HeaderIsOneLine(pad, n);
    HeaderParts(pad, n);
    TrimFixed(HEADER_NAME);
    DigitsTrim(pad, digits);
    Decimal.DigitsReadBack(n, U64_MAX);
    assert [h][1..] == [];
  }

  lemma HeaderIsOneLine(pad: nat, n: nat)
    ensures Lines(PaddedHeader(pad, n)) == [PaddedHeader(pad, n)]
  {
    HeaderChars(pad, n);
    assert FindCrlf(PaddedHeader(pad, n), 0) == |PaddedHeader(pad, n)|;
  }

  lemma HeaderParts(pad: nat, n: nat)
    ensures
      var h := PaddedHeader(pad, n);
      && |h| > 14 && FindChar(h, ':', 0) == 14 && h[..14] == HEADER_NAME && h[15..] == Spaces(pad) + Decimal.Digits(n)
      && Bare(HEADER_NAME) && SameIgnoringCase(HEADER_NAME, "content-length")
  {
    var h := PaddedHeader(pad, n);
    assert h[..14] == HEADER_NAME && h[14] == ':';
    assert forall j | 0 <= j < 14 :: h[j] == HEADER_NAME[j] != ':';
    assert h == "Content-Length:" + (Spaces(pad) + Decimal.Digits(n));
  }

  lemma DigitsTrim(pad: nat, digits: string)
    requires digits != "" && Decimal.AllDigits(digits)
    ensures Trim(Spaces(pad) + digits) == digits
  {
    var s := Spaces(pad) + digits;
    assert Decimal.IsDigit(digits[0]) && Decimal.IsDigit(digits[|digits| - 1]);
    assert s[pad] == digits[0] && s[|s| - 1] == digits[|digits| - 1];
    SkipsSpaces(s, pad, 0);
    assert DropBlanks(s, pad, |s|) == |s|;
    assert s[pad..|s|] == digits;
  }

  lemma {:induction false} SkipsSpaces(s: string, pad: nat, i: nat)
    requires i <= pad < |s| && !IsWhitespace(s[pad]) && forall k | i <= k < pad :: s[k] == ' '
    ensures SkipBlanks(s, i) == pad
    decreases pad - i
  {
    if i < pad {
      SkipsSpaces(s, pad, i + 1);
    }
  }
}
