/**
  When the refusal of a buffer is final. A header that nearly fills its limit is
  refused while its blank line is still arriving, though it would be accepted
  whole; this module says exactly which buffers those are.
*/
module LspRefusal {
  import opened Wrappers
  import opened Utf8
  import opened Sequences
  import opened LspFraming
  import Decimal

  /** What completes a blank line of which the first `k` bytes are there. */
  function Completion(k: nat): bytes {
    if k == 1 then [10, 13, 10] else if k == 2 then [13, 10] else [10]
  }

  /** The byte `j` places from the end, when there is one. */
  function Last(a: bytes, j: nat): int {
    if 1 <= j <= |a| then a[|a| - j] else -1
  }

  /** How many bytes of a blank line the buffer ends with, short of all four. */
  function BlankBytes(a: bytes): (k: nat)
    ensures k <= 3 && k <= |a|
  {
    if Last(a, 3) == 13 && Last(a, 2) == 10 && Last(a, 1) == 13 then 3
    else if Last(a, 2) == 13 && Last(a, 1) == 10 then 2
    else if Last(a, 1) == 13 then 1
    else 0
  }

  /** No blank line yet, but its first bytes, behind a header that would be accepted. */
  predicate CutInBlankLine(a: bytes) {
    HeaderEnd(a, 0).None? && BlankBytes(a) > 0 && Announced(a[..|a| - BlankBytes(a)]).Ok?
  }

  /** The bytes of the buffer and of what follows it, by position. */
  lemma BytesOf(a: bytes, more: bytes)
    ensures forall j | 0 <= j < |a| :: (a + more)[j] == a[j]
    ensures forall j | |a| <= j < |a| + |more| :: (a + more)[j] == more[j - |a|]
  {
  }

  /** `b` is `a` with its blank line completed, by position. */
  predicate Completes(a: bytes, b: bytes) {
    && |b| == |a| + |Completion(BlankBytes(a))|
    && (forall j | 0 <= j < |a| :: b[j] == a[j])
    && forall j | |a| <= j < |b| :: b[j] == Completion(BlankBytes(a))[j - |a|]
  }

  lemma BlankLineCompleted(a: bytes, b: bytes)
    requires BlankBytes(a) > 0 && Completes(a, b)
    ensures BlankLineAt(b, |a| - BlankBytes(a))
  {
  }

  lemma NoBlankLineBefore(a: bytes, b: bytes, j: nat)
    requires BlankBytes(a) > 0 && Completes(a, b) && j < |a| - BlankBytes(a) && !BlankLineAt(a, j)
    ensures !BlankLineAt(b, j)
  {
  }

  /** Completing the blank line ends the header right where the buffer began it. */
  lemma CompletedHeader(a: bytes)
    requires HeaderEnd(a, 0).None? && BlankBytes(a) > 0
    ensures
      var k := BlankBytes(a);
      && HeaderEnd(a + Completion(k), 0) == Some(|a| - k)
      && (a + Completion(k))[..|a| - k] == a[..|a| - k]
  {
    var k := BlankBytes(a);
    var b := a + Completion(k);
    hide BlankBytes, Completion, BlankLineAt, HeaderEnd;
    BytesOf(a, Completion(k));
    assert Completes(a, b);
    hide Completes;
    BlankLineCompleted(a, b);
    forall j | 0 <= j < |a| - k
      ensures !BlankLineAt(b, j)
    {
      NoBlankLineBefore(a, b, j);
    }
    HeaderEndIs(b, |a| - k);
  }

  /** A header that ends inside the old bytes, or over their edge, ends at the cut. */
  lemma EndsAtTheCut(a: bytes, more: bytes)
    requires HeaderEnd(a, 0).None? && HeaderEnd(a + more, 0).Some? && HeaderEnd(a + more, 0).value < |a|
    ensures BlankBytes(a) > 0 && HeaderEnd(a + more, 0).value == |a| - BlankBytes(a)
  {
    var end := HeaderEnd(a + more, 0).value;
    var b := a + more;
    BytesOf(a, more);
    assert !BlankLineAt(a, end) && BlankLineAt(b, end);
    if |a| >= 3 {
      assert end > |a| - 3 ==> !BlankLineAt(b, |a| - 3);
    }
  }

  lemma ExtractsWhenAnnounced(b: bytes, end: nat)
    requires HeaderEnd(b, 0) == Some(end) && Announced(b[..end]).Ok?
    ensures !Extract(b).Failed?
  {
    hide HeaderEnd, Announced;
  }

  /**
    A refused buffer stays refused, whatever arrives, exactly when it is not cut
    inside the blank line of an acceptable header.
  */
  lemma RefusalIsFinalIff(a: bytes)
    requires Extract(a).Failed?
    ensures (forall more :: Extract(a + more).Failed?) <==> !CutInBlankLine(a)
  {
    hide HeaderEnd, Announced, BlankBytes;
    if CutInBlankLine(a) {
      var k := BlankBytes(a);
      CompletedHeader(a);
      ExtractsWhenAnnounced(a + Completion(k), |a| - k);
    } else {
      forall more
        ensures Extract(a + more).Failed?
      {
        RefusedWithMore(a, more);
      }
    }
  }

  lemma RefusedWithMore(a: bytes, more: bytes)
    requires Extract(a).Failed? && !CutInBlankLine(a)
    ensures Extract(a + more).Failed?
  {
    hide HeaderEnd, Announced, BlankBytes;
    var end := HeaderEnd(a + more, 0);
    if HeaderEnd(a, 0).Some? {
      HeaderEndIsStable(a, more);
    } else if end.Some? && end.value < |a| {
      EndsAtTheCut(a, more);
      assert (a + more)[..end.value] == a[..end.value];
    } else if end.Some? {
      LongHeaderIsRefused(a + more, end.value);
    }
  }

  lemma LongHeaderIsRefused(b: bytes, end: nat)
    requires HeaderEnd(b, 0) == Some(end) && end > MAX_HEADER_BYTES
    ensures Extract(b).Failed?
  {
    hide HeaderEnd;
  }

  /** The affected buffers hold 65537 to 65539 bytes, their headers 65534 to 65536. */
  lemma CutBuffersAreNearTheLimit(a: bytes)
    requires Extract(a).Failed? && CutInBlankLine(a)
    ensures MAX_HEADER_BYTES < |a| <= MAX_HEADER_BYTES + 3
    ensures MAX_HEADER_BYTES - 2 <= |a| - BlankBytes(a) <= MAX_HEADER_BYTES
  {
    hide HeaderEnd;
  }

  /** Such a buffer: 64 KiB of header and one byte of its blank line. */
  lemma LongHeaderCutIsRefused()
    ensures
      var header := Encode(PaddedHeader(65520, 0));
      && |header| == MAX_HEADER_BYTES
      && Extract(header + [13]).Failed? && CutInBlankLine(header + [13])
      && Extract((header + [13]) + [10, 13, 10]) == Body([], [])
  {
    var header := Encode(PaddedHeader(65520, 0));
    assert Decimal.Digits(0) == "0";
    PaddedAnnounces(65520, 0);
    hide PaddedHeader, Encode, Announced, Decimal.Digits;
    var a := header + [13];
    NoBlankLineIn(header, a);
    assert a[..|header|] == header;
    CompletedHeader(a);
    EmptyBody(a + [10, 13, 10], |header|);
  }

  lemma NoBlankLineIn(header: bytes, a: bytes)
    requires |header| >= 3 && a == header + [13] && forall j | 0 <= j < |header| :: header[j] >= 32
    ensures HeaderEnd(a, 0).None? && BlankBytes(a) == 1
  {
    BytesOf(header, [13]);
    forall j | 0 <= j <= |a|
      ensures !BlankLineAt(a, j)
    {
      assert j + 1 < |header| ==> a[j + 1] >= 32;
    }
  }

  lemma EmptyBody(b: bytes, end: nat)
    requires HeaderEnd(b, 0) == Some(end) && |b| == end + 4 && Announced(b[..end]) == Ok(0)
    ensures Extract(b) == Body([], [])
  {
    hide HeaderEnd, Announced;
  }
}
