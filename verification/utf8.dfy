/** UTF-8 as RFC 3629, section 4, defines it and `str::from_utf8` checks it. */
module Utf8 {
  import opened Text
  import opened Sequences

  type byte = n: int | 0 <= n < 256
  type bytes = seq<byte>

  function EncodeChar(c: char): (b: bytes)
    ensures |b| == CharBytes(c)
  {
    var v := c as int;
    if v < 0x80 then [v]
    else if v < 0x800 then [0xC0 + v / 64, 0x80 + v % 64]
    else if v < 0x1_0000 then [0xE0 + v / 4096, 0x80 + v / 64 % 64, 0x80 + v % 64]
    else [0xF0 + v / 262144, 0x80 + v / 4096 % 64, 0x80 + v / 64 % 64, 0x80 + v % 64]
  }

  function Encode(s: string): bytes {
    if s == "" then [] else EncodeChar(s[0]) + Encode(s[1..])
  }

  /** The first scalar, an end inside one, or a byte that cannot continue. */
  datatype Step = Scalar(c: char, width: nat) | Truncated | Broken

  /** How many bytes the lead byte announces; 0 when it cannot lead. */
  function Width(lead: byte): (w: nat)
    ensures w <= 4
  {
    if lead < 0x80 then 1
    else if 0xC2 <= lead <= 0xDF then 2
    else if 0xE0 <= lead <= 0xEF then 3
    else if 0xF0 <= lead <= 0xF4 then 4
    else 0
  }

  predicate SecondFits(lead: byte, b: byte) {
    if lead == 0xE0 then 0xA0 <= b <= 0xBF
    else if lead == 0xED then 0x80 <= b <= 0x9F
    else if lead == 0xF0 then 0x90 <= b <= 0xBF
    else if lead == 0xF4 then 0x80 <= b <= 0x8F
    else Continues(b)
  }

  predicate Continues(b: byte) { 0x80 <= b <= 0xBF }

  /** Scalar values from a lead byte and continuation bytes. */
  function Value2(a: int, b: int): int { (a - 0xC0) * 64 + (b - 0x80) }

  function Value3(a: int, b: int, c: int): int { (a - 0xE0) * 4096 + (b - 0x80) * 64 + (c - 0x80) }

  function Value4(a: int, b: int, c: int, d: int): int {
    (a - 0xF0) * 262144 + (b - 0x80) * 4096 + (c - 0x80) * 64 + (d - 0x80)
  }

  function DecodeStep(b: bytes): (r: Step)
    requires b != []
    ensures r.Scalar? ==> 1 <= r.width <= |b| && b[..r.width] == EncodeChar(r.c)
  {
    var w := Width(b[0]);
    if w == 0 then Broken
    else if w == 1 then Scalar(b[0] as char, 1)
    else if |b| < 2 then Truncated
    else if !SecondFits(b[0], b[1]) then Broken
    else if w == 2 then
      Encodes2(b[0], b[1]);
      Scalar(Value2(b[0], b[1]) as char, 2)
    else if |b| < 3 then Truncated
    else if !Continues(b[2]) then Broken
    else if w == 3 then
      Encodes3(b[0], b[1], b[2]);
      Scalar(Value3(b[0], b[1], b[2]) as char, 3)
    else if |b| < 4 then Truncated
    else if !Continues(b[3]) then Broken
    else
      Encodes4(b[0], b[1], b[2], b[3]);
      Scalar(Value4(b[0], b[1], b[2], b[3]) as char, 4)
  }

  lemma Encodes2(a: byte, b: byte)
    requires Width(a) == 2 && SecondFits(a, b)
    ensures 0x80 <= Value2(a, b) < 0x800 && EncodeChar(Value2(a, b) as char) == [a, b]
  {
  }

  lemma Encodes3(a: byte, b: byte, c: byte)
    requires Width(a) == 3 && SecondFits(a, b) && Continues(c)
    ensures 0x800 <= Value3(a, b, c) < 0xD800 || 0xE000 <= Value3(a, b, c) < 0x1_0000
    ensures EncodeChar(Value3(a, b, c) as char) == [a, b, c]
  {
    var v := Value3(a, b, c);
    assert v / 64 == (a - 0xE0) * 64 + (b - 0x80);
  }

  lemma Encodes4(a: byte, b: byte, c: byte, d: byte)
    requires Width(a) == 4 && SecondFits(a, b) && Continues(c) && Continues(d)
    ensures 0x1_0000 <= Value4(a, b, c, d) < 0x11_0000
    ensures EncodeChar(Value4(a, b, c, d) as char) == [a, b, c, d]
  {
    var v := Value4(a, b, c, d);
    assert v / 64 == (a - 0xF0) * 4096 + (b - 0x80) * 64 + (c - 0x80);
    assert v / 4096 == (a - 0xF0) * 64 + (b - 0x80);
  }

  datatype End = Complete | InsideScalar | Invalid

  /** The longest valid prefix as text, its byte length, and why it ends. */
  datatype Decoded = Decoded(text: string, upTo: nat, end: End)

  function Decode(b: bytes): (r: Decoded)
    ensures r.upTo <= |b| && b[..r.upTo] == Encode(r.text)
    ensures r.end.Complete? ==> r.upTo == |b|
  {
    if b == [] then Decoded("", 0, Complete)
    else match DecodeStep(b)
      case Truncated => Decoded("", 0, InsideScalar)
      case Broken => Decoded("", 0, Invalid)
      case Scalar(c, w) =>
        var rest := Decode(b[w..]);
        SliceJoin(b, w, w + rest.upTo);
        assert ([c] + rest.text)[1..] == rest.text;
        Decoded([c] + rest.text, w + rest.upTo, rest.end)
  }

  lemma ValueOfEncoded(c: char)
    ensures
      var e := EncodeChar(c);
      && Width(e[0]) == |e| == CharBytes(c)
      && (|e| >= 2 ==> SecondFits(e[0], e[1]))
      && (|e| >= 3 ==> Continues(e[2])) && (|e| >= 4 ==> Continues(e[3]))
      && c as int == if |e| == 1 then e[0] else if |e| == 2 then Value2(e[0], e[1])
                     else if |e| == 3 then Value3(e[0], e[1], e[2]) else Value4(e[0], e[1], e[2], e[3])
  {
    var v := c as int;
    assert v / 4096 == v / 64 / 64;
    assert v / 262144 == v / 4096 / 64;
  }

  lemma StepOfEncoded(c: char, b: bytes)
    requires CharBytes(c) <= |b| && forall i | 0 <= i < CharBytes(c) :: b[i] == EncodeChar(c)[i]
    ensures DecodeStep(b) == Scalar(c, CharBytes(c))
  {
    ValueOfEncoded(c);
    hide EncodeChar, SecondFits, Width, Value2, Value3, Value4;
  }

  lemma StepOfPart(c: char, b: bytes)
    requires 0 < |b| < CharBytes(c) && forall i | 0 <= i < |b| :: b[i] == EncodeChar(c)[i]
    ensures DecodeStep(b) == Truncated
  {
    ValueOfEncoded(c);
    hide EncodeChar, SecondFits, Width, Value2, Value3, Value4;
  }

  lemma {:induction false} BytesOfTail(s: string, k: nat)
    requires s != "" && k < |s|
    ensures BytesUpTo(s, k + 1) == CharBytes(s[0]) + BytesUpTo(s[1..], k)
  {
    if k > 0 {
      BytesOfTail(s, k - 1);
    } else {
      assert BytesUpTo(s, 0) == 0;
    }
  }

  lemma FittingIsUnique(s: string, max: nat, k: nat)
    requires k <= |s| && BytesUpTo(s, k) <= max && (k < |s| ==> BytesUpTo(s, k + 1) > max)
    ensures Fitting(s, max) == k
  {
    var f := Fitting(s, max);
    if f < k && f + 1 < k {
      BytesGrow(s, f + 1, k);
    } else if k < f && k + 1 < f {
      BytesGrow(s, k + 1, f);
    }
  }

  lemma {:induction false} EncodeLength(s: string)
    ensures |Encode(s)| == ByteLen(s)
  {
    if s != "" {
      EncodeLength(s[1..]);
      BytesOfTail(s, |s| - 1);
    }
  }

  /** Cutting encoded text anywhere decodes to the characters that fit, never as broken. */
  lemma {:induction false} DecodeOfPrefix(s: string, n: nat)
    requires n <= |Encode(s)|
    ensures
      var k := Fitting(s, n);
      Decode(Encode(s)[..n]) ==
      Decoded(s[..k], BytesUpTo(s, k), if BytesUpTo(s, k) == n then Complete else InsideScalar)
  {
    hide Fitting, BytesUpTo, EncodeChar, DecodeStep, Encode, Decode;
    if s == "" || n < CharBytes(s[0]) {
      NothingFits(s, n);
    } else {
      var w := CharBytes(s[0]);
      EncodeSplits(s, n);
      DecodeOfPrefix(s[1..], n - w);
      OneMoreFits(s, n);
      var k := Fitting(s[1..], n - w);
      assert s[..k + 1] == [s[0]] + s[1..][..k];
    }
  }

  lemma NothingFits(s: string, n: nat)
    requires n <= |Encode(s)| && (s != "" ==> n < CharBytes(s[0]))
    ensures Fitting(s, n) == 0 && BytesUpTo(s, 0) == 0
    ensures Decode(Encode(s)[..n]) == Decoded("", 0, if n == 0 then Complete else InsideScalar)
  {
    hide Fitting;
    assert s != "" ==> BytesUpTo(s, 1) == CharBytes(s[0]) + BytesUpTo(s, 0);
    FittingIsUnique(s, n, 0);
    if n > 0 {
      hide EncodeChar, DecodeStep, BytesUpTo;
      StepOfPart(s[0], Encode(s)[..n]);
    }
  }

  lemma DecodeAfterScalar(b: bytes, c: char)
    requires b != [] && DecodeStep(b) == Scalar(c, CharBytes(c))
    ensures
      var rest := Decode(b[CharBytes(c)..]);
      Decode(b) == Decoded([c] + rest.text, CharBytes(c) + rest.upTo, rest.end)
  {
  }

  lemma EncodeSplits(s: string, n: nat)
    requires s != "" && CharBytes(s[0]) <= n <= |Encode(s)|
    ensures |Encode(s)| == CharBytes(s[0]) + |Encode(s[1..])|
    ensures
      var rest := Decode(Encode(s[1..])[..n - CharBytes(s[0])]);
      Decode(Encode(s)[..n]) == Decoded([s[0]] + rest.text, CharBytes(s[0]) + rest.upTo, rest.end)
  {
    hide EncodeChar, DecodeStep, Decode;
    var e, t := EncodeChar(s[0]), Encode(s[1..]);
    PrefixOfConcat(e, t, n);
    var rest := t[..n - |e|];
    StepOfEncoded(s[0], e + rest);
    DecodeAfterScalar(e + rest, s[0]);
  }

  lemma OneMoreFits(s: string, n: nat)
    requires s != "" && CharBytes(s[0]) <= n
    ensures
      var k := Fitting(s[1..], n - CharBytes(s[0]));
      Fitting(s, n) == k + 1 && BytesUpTo(s, k + 1) == CharBytes(s[0]) + BytesUpTo(s[1..], k)
  {
    hide Fitting;
    var k := Fitting(s[1..], n - CharBytes(s[0]));
    BytesOfTail(s, k);
    if k + 1 < |s| {
      BytesOfTail(s, k + 1);
    }
    FittingIsUnique(s, n, k + 1);
  }

  lemma DecodeOfEncode(s: string)
    ensures Decode(Encode(s)) == Decoded(s, ByteLen(s), Complete)
  {
    hide Decode, Encode;
    EncodeLength(s);
    assert Encode(s)[..ByteLen(s)] == Encode(s);
    DecodeOfPrefix(s, ByteLen(s));
    TruncateKeepsWhatFits(s, ByteLen(s));
  }

  /** Bytes decode completely exactly when they are the encoding of some text. */
  lemma CompleteIff(b: bytes)
    ensures Decode(b).end.Complete? <==> exists s :: b == Encode(s)
  {
    hide Encode, Decode;
    if s :| b == Encode(s) {
      DecodeOfEncode(s);
    }
    if Decode(b).end.Complete? {
      assert b[..|b|] == b;
    }
  }

  lemma EncodeIsInjective(s: string, t: string)
    requires Encode(s) == Encode(t)
    ensures s == t
  {
    DecodeOfEncode(s);
    DecodeOfEncode(t);
  }

  // ---------- text with the broken parts replaced ----------

  const REPLACEMENT := 0xFFFD as char

  /** How many bytes one replacement stands for: what had begun well, or one byte. */
  function BrokenWidth(b: bytes): (w: nat)
    requires b != [] && !DecodeStep(b).Scalar?
    ensures 1 <= w <= |b|
  {
    if DecodeStep(b).Truncated? then |b|
    else if Width(b[0]) == 0 || !SecondFits(b[0], b[1]) then 1
    else if !Continues(b[2]) then 2
    else 3
  }

  /** `String::from_utf8_lossy`. */
  function Lossy(b: bytes): string
    decreases |b|
  {
    if b == [] then ""
    else match DecodeStep(b)
      case Scalar(c, w) => [c] + Lossy(b[w..])
      case _ => [REPLACEMENT] + Lossy(b[BrokenWidth(b)..])
  }

  lemma {:induction false} LossyKeepsText(b: bytes)
    requires Decode(b).end.Complete?
    ensures Lossy(b) == Decode(b).text
    decreases |b|
  {
    hide DecodeStep, Encode;
    if b != [] {
      LossyKeepsText(b[DecodeStep(b).width..]);
    }
  }

  /** The lossy text stands for exactly the bytes it came from if and only if they are UTF-8. */
  lemma LossyIsExactIff(b: bytes)
    ensures Encode(Lossy(b)) == b <==> Decode(b).end.Complete?
  {
    hide Encode, Decode, Lossy;
    CompleteIff(b);
    if Decode(b).end.Complete? {
      LossyKeepsText(b);
      assert b[..|b|] == b;
    }
  }
}
