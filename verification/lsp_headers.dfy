/**
  Exactly which headers announce a length: every line a field, one of them a
  `Content-Length` in any case, and its value a number that is not too large.
*/
module LspHeaders {
  import opened Wrappers
  import opened Text
  import opened Utf8
  import opened Sequences
  import opened LspFraming
  import Decimal

  // ---------- lines ----------

  const CRLF := "\r\n"

  predicate NoCrlf(line: string) {
    forall j | 0 <= j < |line| - 1 :: !(line[j] == '\r' && line[j + 1] == '\n')
  }

  function Joined(lines: seq<string>): string
    requires lines != []
  {
    if |lines| == 1 then lines[0] else lines[0] + (CRLF + Joined(lines[1..]))
  }

  /** The lines of a header are its parts between line ends, and nothing else is cut. */
  lemma {:induction false} LinesJoin(s: string)
    ensures Joined(Lines(s)) == s && forall i | 0 <= i < |Lines(s)| :: NoCrlf(Lines(s)[i])
    decreases |s|
  {
    var k := FindCrlf(s, 0);
    if k < |s| {
      LinesJoin(s[k + 2..]);
      assert Lines(s)[1..] == Lines(s[k + 2..]);
      assert s[k..k + 2] == CRLF;
      assert s == s[..k] + (s[k..k + 2] + s[k + 2..]);
    }
  }

  // ---------- fields ----------

  /** Where the name of a field ends, if the line is one. */
  predicate ColonAt(line: string, k: nat) {
    k < |line| && line[k] == ':' && forall j | 0 <= j < k :: line[j] != ':'
  }

  predicate IsField(line: string) {
    exists k | 0 <= k < |line| :: line[k] == ':'
  }

  predicate NamesLength(line: string) {
    exists k | 0 <= k < |line| :: ColonAt(line, k) && SameIgnoringCase(Trim(line[..k]), "content-length")
  }

  /** The number behind the colon. */
  predicate HasLength(line: string, n: nat) {
    exists k | 0 <= k < |line| :: ColonAt(line, k) && Decimal.ParseUnsigned(Trim(line[k + 1..]), U64_MAX) == Some(n)
  }

  predicate Announces(lines: seq<string>, n: nat) {
    && (forall i | 0 <= i < |lines| :: IsField(lines[i]))
    && exists i | 0 <= i < |lines| ::
         && NamesLength(lines[i]) && HasLength(lines[i], n)
         && forall j | 0 <= j < |lines| && j != i :: !NamesLength(lines[j])
  }

  lemma ColonIs(line: string, k: nat)
    ensures ColonAt(line, k) ==> FindChar(line, ':', 0) == k
    ensures IsField(line) <==> FindChar(line, ':', 0) < |line|
    ensures FindChar(line, ':', 0) < |line| ==> ColonAt(line, FindChar(line, ':', 0))
  {
    hide FindChar;
  }

  lemma FieldIs(line: string, n: nat)
    requires IsField(line)
    ensures
      var colon := FindChar(line, ':', 0);
      && colon < |line|
      && (NamesLength(line) <==> SameIgnoringCase(Trim(line[..colon]), "content-length"))
      && (HasLength(line, n) <==> Decimal.ParseUnsigned(Trim(line[colon + 1..]), U64_MAX) == Some(n))
  {
    hide FindChar, SameIgnoringCase, Trim, Decimal.ParseUnsigned;
    forall k: nat
      ensures ColonAt(line, k) ==> FindChar(line, ':', 0) == k
    {
      ColonIs(line, k);
    }
    ColonIs(line, 0);
  }

  lemma {:induction false} FoundIff(lines: seq<string>, m: nat, n: nat)
    ensures ContentLength(lines, Some(m)) == Ok(n) <==>
            m == n && forall i | 0 <= i < |lines| :: IsField(lines[i]) && !NamesLength(lines[i])
  {
    if lines != [] {
      hide ContentLength, IsField, NamesLength;
      FoundIff(lines[1..], m, n);
      FoundStep(lines, m);
      assert forall i | 0 < i < |lines| :: lines[i] == lines[1..][i - 1];
    }
  }

  lemma FoundStep(lines: seq<string>, m: nat)
    requires lines != []
    ensures ContentLength(lines, Some(m)) ==
            if !IsField(lines[0]) then Err("malformed header")
            else if NamesLength(lines[0]) then Err("duplicate Content-Length")
            else ContentLength(lines[1..], Some(m))
  {
    hide FindChar, SameIgnoringCase, Trim, Decimal.ParseUnsigned, IsField, NamesLength;
    ColonIs(lines[0], 0);
    if IsField(lines[0]) {
      FieldIs(lines[0], 0);
    }
  }

  lemma LengthStep(lines: seq<string>)
    requires lines != []
    ensures !IsField(lines[0]) ==> ContentLength(lines, None).Err?
    ensures IsField(lines[0]) && !NamesLength(lines[0]) ==> ContentLength(lines, None) == ContentLength(lines[1..], None)
  {
    hide FindChar, SameIgnoringCase, Trim, Decimal.ParseUnsigned, IsField, NamesLength;
    ColonIs(lines[0], 0);
    if IsField(lines[0]) {
      FieldIs(lines[0], 0);
    }
  }

  lemma {:induction false} LengthIff(lines: seq<string>, n: nat)
    ensures ContentLength(lines, None) == Ok(n) <==> Announces(lines, n)
  {
    if lines != [] {
      hide IsField, NamesLength, HasLength, ContentLength;
      LengthIff(lines[1..], n);
      LengthStep(lines);
      if IsField(lines[0]) {
        FirstAnnounces(lines, n);
        hide Announces;
        if NamesLength(lines[0]) {
          FoundIff(lines[1..], n, n);
          OneLength(lines, n);
        }
      }
    }
  }

  lemma OneLength(lines: seq<string>, n: nat)
    requires lines != [] && IsField(lines[0]) && NamesLength(lines[0])
    ensures ContentLength(lines, None) == Ok(n) <==>
            HasLength(lines[0], n) && ContentLength(lines[1..], Some(n)) == Ok(n)
  {
    hide FindChar, SameIgnoringCase, Trim, Decimal.ParseUnsigned, IsField, NamesLength, HasLength;
    FieldIs(lines[0], n);
    var colon := FindChar(lines[0], ':', 0);
    var parsed := Decimal.ParseUnsigned(Trim(lines[0][colon + 1..]), U64_MAX);
    if parsed.Some? {
      FoundIff(lines[1..], parsed.value, n);
      FoundIff(lines[1..], n, n);
    }
  }

  lemma FirstAnnounces(lines: seq<string>, n: nat)
    requires lines != [] && IsField(lines[0])
    ensures NamesLength(lines[0]) ==>
              (Announces(lines, n) <==>
               HasLength(lines[0], n) && forall i | 0 <= i < |lines| - 1 :: IsField(lines[1..][i]) && !NamesLength(lines[1..][i]))
    ensures !NamesLength(lines[0]) ==> (Announces(lines, n) <==> Announces(lines[1..], n))
  {
    hide IsField, NamesLength, HasLength;
    var rest := lines[1..];
    assert forall i | 0 < i < |lines| :: lines[i] == rest[i - 1];
    assert forall i | 0 <= i < |rest| :: rest[i] == lines[i + 1];
    if Announces(rest, n) && !NamesLength(lines[0]) {
      var i :| 0 <= i < |rest| && NamesLength(rest[i]) && HasLength(rest[i], n)
               && forall j | 0 <= j < |rest| && j != i :: !NamesLength(rest[j]);
      assert NamesLength(lines[i + 1]);
    }
    if Announces(lines, n) && !NamesLength(lines[0]) {
      var i :| 0 <= i < |lines| && NamesLength(lines[i]) && HasLength(lines[i], n)
               && forall j | 0 <= j < |lines| && j != i :: !NamesLength(lines[j]);
      assert NamesLength(rest[i - 1]);
    }
  }

  /**
    A header announces `n` exactly when it is at most 64 KiB of text, all its lines
    are fields, exactly one is named Content-Length, and that one says `n`, at most
    4 MiB.
  */
  lemma AnnouncedIff(header: bytes, n: nat)
    ensures Announced(header) == Ok(n) <==>
            && |header| <= 65536 && n <= 4_194_304
            && exists text: string :: header == Encode(text) && Announces(Lines(text), n)
  {
    hide Decode, Encode, ContentLength, Announces, Lines;
    CompleteIff(header);
    LengthIff(Lines(Decode(header).text), n);
    if text: string :| header == Encode(text) && Announces(Lines(text), n) {
      DecodeOfEncode(text);
    }
    if Decode(header).end.Complete? {
      assert header[..|header|] == header;
    }
  }
}
