/**
  Unicode text as the Rust sources use it: a `string` is a sequence of scalar
  values, and lengths and limits are counted in UTF-8 bytes.
*/
module Text {
  import opened Sequences

  const U64_MAX := 0xFFFF_FFFF_FFFF_FFFF
  const U32_MAX := 0xFFFF_FFFF

  type u64 = n: int | 0 <= n <= U64_MAX
  type u32 = n: int | 0 <= n <= U32_MAX

  /** The Unicode White_Space property, which `str::trim` strips. */
  predicate IsWhitespace(c: char) {
    var n := c as int;
    || 0x09 <= n <= 0x0D || n == 0x20 || n == 0x85 || n == 0xA0 || n == 0x1680
    || 0x2000 <= n <= 0x200A || n == 0x2028 || n == 0x2029 || n == 0x202F
    || n == 0x205F || n == 0x3000
  }

  /** General category Cc, which `char::is_control` tests. */
  predicate IsControl(c: char) {
    var n := c as int;
    n <= 0x1F || 0x7F <= n <= 0x9F
  }

  function CharBytes(c: char): (n: nat)
    ensures 1 <= n <= 4
  {
    var v := c as int;
    if v < 0x80 then 1 else if v < 0x800 then 2 else if v < 0x1_0000 then 3 else 4
  }

  /** UTF-8 bytes of the first `k` characters. */
  function BytesUpTo(s: string, k: nat): (n: nat)
    requires k <= |s|
    ensures k <= n <= 4 * k
  {
    if k == 0 then 0 else BytesUpTo(s, k - 1) + CharBytes(s[k - 1])
  }

  function ByteLen(s: string): nat {
    BytesUpTo(s, |s|)
  }

  lemma {:induction false} BytesOfPrefix(s: string, t: string, k: nat)
    requires k <= |s| && k <= |t|
    requires forall i | 0 <= i < k :: s[i] == t[i]
    ensures BytesUpTo(s, k) == BytesUpTo(t, k)
  {
    if k > 0 {
      BytesOfPrefix(s, t, k - 1);
    }
  }

  lemma {:induction false} BytesGrow(s: string, j: nat, k: nat)
    requires j < k <= |s|
    ensures BytesUpTo(s, j) < BytesUpTo(s, k)
  {
    if j < k - 1 {
      BytesGrow(s, j, k - 1);
    }
  }

  /** First position at or after `i` that is not white space. */
  function SkipBlanks(s: string, i: nat): (r: nat)
    requires i <= |s|
    ensures i <= r <= |s|
    ensures r < |s| ==> !IsWhitespace(s[r])
    decreases |s| - i
  {
    if i < |s| && IsWhitespace(s[i]) then SkipBlanks(s, i + 1) else i
  }

  /** Largest end in `low..=high` with no white space right before it. */
  function DropBlanks(s: string, low: nat, high: nat): (r: nat)
    requires low <= high <= |s|
    ensures low <= r <= high
    ensures r > low ==> !IsWhitespace(s[r - 1])
  {
    if high > low && IsWhitespace(s[high - 1]) then DropBlanks(s, low, high - 1) else high
  }

  function Trim(s: string): (r: string)
    ensures r == "" || Bare(r)
  {
    var low := SkipBlanks(s, 0);
    var high := DropBlanks(s, low, |s|);
    s[low..high]
  }

  /** Non-empty text with nothing to trim at either end. */
  predicate Bare(s: string) {
    s != "" && !IsWhitespace(s[0]) && !IsWhitespace(s[|s| - 1])
  }

  lemma TrimFixed(s: string)
    ensures Trim(s) == s <==> s == "" || Bare(s)
  {
  }

  lemma TrimIsShorter(s: string)
    ensures Trim(s) != s ==> |Trim(s)| < |s|
  {
  }

  lemma {:induction false} SkippedAreBlank(s: string, i: nat)
    requires i <= |s|
    ensures forall k | i <= k < SkipBlanks(s, i) :: IsWhitespace(s[k])
    decreases |s| - i
  {
    if i < |s| && IsWhitespace(s[i]) {
      SkippedAreBlank(s, i + 1);
    }
  }

  lemma {:induction false} DroppedAreBlank(s: string, low: nat, high: nat)
    requires low <= high <= |s|
    ensures forall k | DropBlanks(s, low, high) <= k < high :: IsWhitespace(s[k])
  {
    if high > low && IsWhitespace(s[high - 1]) {
      DroppedAreBlank(s, low, high - 1);
    }
  }

  /** Trimming takes nothing but white space from the two ends. */
  lemma TrimTakesBlanks(s: string) returns (low: nat, high: nat)
    ensures low <= high <= |s| && Trim(s) == s[low..high]
    ensures forall k | 0 <= k < low || high <= k < |s| :: IsWhitespace(s[k])
  {
    low := SkipBlanks(s, 0);
    high := DropBlanks(s, low, |s|);
    SkippedAreBlank(s, 0);
    DroppedAreBlank(s, low, |s|);
  }

  /** How many leading characters `truncate_utf8` keeps: the most that fit. */
  function Fitting(s: string, max: nat): (k: nat)
    ensures k <= |s| && BytesUpTo(s, k) <= max
    ensures k < |s| ==> BytesUpTo(s, k + 1) > max
  {
    FitFrom(s, 0, max)
  }

  function FitFrom(s: string, i: nat, max: nat): (k: nat)
    requires i <= |s| && BytesUpTo(s, i) <= max
    ensures i <= k <= |s| && BytesUpTo(s, k) <= max
    ensures k < |s| ==> BytesUpTo(s, k + 1) > max
    decreases |s| - i
  {
    if i == |s| || BytesUpTo(s, i + 1) > max then i else FitFrom(s, i + 1, max)
  }

  function TruncateUtf8(s: string, max: nat): string {
    s[..Fitting(s, max)]
  }

  lemma TruncateKeepsWhatFits(s: string, max: nat)
    ensures Fitting(s, max) == |s| <==> ByteLen(s) <= max
  {
    var k := Fitting(s, max);
    if k + 1 < |s| {
      BytesGrow(s, k + 1, |s|);
    }
  }

  // ---------- splitting at a character ----------

  predicate Free(s: string, c: char) {
    forall j | 0 <= j < |s| :: s[j] != c
  }

  function FindChar(s: string, c: char, i: nat): (k: nat)
    requires i <= |s|
    ensures i <= k <= |s| && (k < |s| ==> s[k] == c)
    ensures forall j | i <= j < k :: s[j] != c
    decreases |s| - i
  {
    if i < |s| && s[i] != c then FindChar(s, c, i + 1) else i
  }

  /** `str::split`. */
  function Split(s: string, c: char): (parts: seq<string>)
    ensures |parts| > 0
  {
    var k := FindChar(s, c, 0);
    if k == |s| then [s] else [s[..k]] + Split(s[k + 1..], c)
  }

  function Join(parts: seq<string>, c: char): string
    requires |parts| > 0
  {
    if |parts| == 1 then parts[0] else parts[0] + [c] + Join(parts[1..], c)
  }

  lemma {:induction false} SplitOfJoin(parts: seq<string>, c: char)
    requires |parts| > 0 && forall i | 0 <= i < |parts| :: Free(parts[i], c)
    ensures Split(Join(parts, c), c) == parts
  {
    var s, n := Join(parts, c), |parts[0]|;
    assert Free(parts[0], c);
    if |parts| == 1 {
      assert FindChar(s, c, 0) == |s|;
    } else {
      ThreeParts(parts[0], [c], Join(parts[1..], c));
      assert forall j | 0 <= j < n :: s[j] == parts[0][j];
      assert s[n] == c;
      assert FindChar(s, c, 0) == n;
      hide FindChar, Free;
      SplitOfJoin(parts[1..], c);
    }
  }

  lemma {:induction false} SplitPartsAreFree(s: string, c: char)
    ensures forall i | 0 <= i < |Split(s, c)| :: Free(Split(s, c)[i], c)
    decreases |s|
  {
    var k := FindChar(s, c, 0);
    if k < |s| {
      SplitPartsAreFree(s[k + 1..], c);
    }
  }

  lemma {:induction false} JoinOfSplit(s: string, c: char)
    ensures Join(Split(s, c), c) == s
    decreases |s|
  {
    var k := FindChar(s, c, 0);
    if k < |s| {
      JoinOfSplit(s[k + 1..], c);
      assert Split(s, c)[1..] == Split(s[k + 1..], c);
    }
  }

  // ---------- ASCII ----------

  lemma {:induction false} AsciiBytes(s: string, k: nat)
    requires k <= |s| && forall i | 0 <= i < k :: s[i] < '\U{80}'
    ensures BytesUpTo(s, k) == k
  {
    if k > 0 {
      AsciiBytes(s, k - 1);
    }
  }

  function LowerAscii(c: char): char {
    if 'A' <= c <= 'Z' then (c as int + 32) as char else c
  }

  /** A SHA-256 digest in hexadecimal. */
  predicate IsHexDigest(s: string) {
    |s| == 64 && forall i | 0 <= i < 64 :: '0' <= s[i] <= '9' || 'a' <= s[i] <= 'f' || 'A' <= s[i] <= 'F'
  }
}
