/** What the texts of a goal may look like: acceptance paths and block codes. */
module GoalTexts {
  import opened Wrappers
  import opened Text
  import opened InstructionPaths
  import opened ProjectInstructions
  import opened GoalFacts

  predicate AllNormal(scope: Scope) {
    forall i | 0 <= i < |scope| :: scope[i].Normal?
  }

  lemma AllNormalOfCons(first: Component, rest: Scope)
    ensures AllNormal([first] + rest) <==> first.Normal? && AllNormal(rest)
  {
    var scope := [first] + rest;
    assert forall i | 0 <= i < |rest| :: rest[i] == scope[i + 1];
    assert scope[0] == first;
  }

  lemma {:induction false} StepsAreNormalIff(parts: seq<string>)
    ensures AllNormal(Steps(parts)) <==> ".." !in parts
  {
    if parts != [] {
      hide AllNormal;
      var rest := Steps(parts[1..]);
      StepsAreNormalIff(parts[1..]);
      assert parts == [parts[0]] + parts[1..];
      AllNormalOfCons(Unsafe, rest);
      AllNormalOfCons(Normal(parts[0]), rest);
      assert [] + rest == rest;
    }
  }

  /** The path of an acceptance is short and made of normal components only. */
  lemma RelativePathIff(value: string)
    ensures ValidRelativePath(value) <==> value != "" && ByteLen(value) <= 4096 && AllNormal(Components(value))
  {
    hide ByteLen, AllNormal;
    if value != "" {
      var parts := Split(value, '/');
      FirstPart(value);
      hide Split, Steps;
      StepsAreNormalIff(parts);
      assert parts == [parts[0]] + parts[1..];
      AllNormalOfCons(Unsafe, Steps(parts[1..]));
      AllNormalOfCons(CurDir, Steps(parts[1..]));
    }
  }

  lemma FirstPart(value: string)
    requires value != ""
    ensures Split(value, '/')[0] == "" <==> value[0] == '/'
  {
  }

  predicate IsCodeWord(word: string) {
    word != "" && forall k | 0 <= k < |word| :: 'a' <= word[k] <= 'z' || '0' <= word[k] <= '9'
  }

  /** A block code but for its length. */
  predicate IsKebab(value: string) {
    && value != ""
    && (forall i | 0 <= i < |value| ::
          'a' <= value[i] <= 'z' || '0' <= value[i] <= '9' || (value[i] == '-' && i > 0))
    && value[|value| - 1] != '-'
    && forall i, j | 0 <= i < j == i + 1 < |value| :: !(value[i] == '-' && value[j] == '-')
  }

  lemma KebabOfTail(value: string, k: nat)
    requires k < |value| && value[k] == '-' && forall j | 0 <= j < k :: value[j] != '-'
    ensures IsKebab(value) <==> IsCodeWord(value[..k]) && IsKebab(value[k + 1..])
  {
    var word, rest := value[..k], value[k + 1..];
    if IsKebab(value) {
      assert k + 1 < |value|;
      forall i, j | 0 <= i < j == i + 1 < |rest|
        ensures !(rest[i] == '-' && rest[j] == '-')
      {
        assert rest[i] == value[k + 1 + i] && rest[j] == value[k + 2 + i];
      }
      assert rest[0] == value[k + 1] != '-';
    }
    if IsCodeWord(word) && IsKebab(rest) {
      forall i | 0 <= i < |value|
        ensures 'a' <= value[i] <= 'z' || '0' <= value[i] <= '9' || (value[i] == '-' && i > 0)
      {
        assert i < k ==> value[i] == word[i];
        assert i > k ==> value[i] == rest[i - k - 1];
      }
      forall i, j | 0 <= i < j == i + 1 < |value|
        ensures !(value[i] == '-' && value[j] == '-')
      {
        assert i > k ==> value[i] == rest[i - k - 1] && value[j] == rest[j - k - 1];
        assert i == k ==> value[j] == rest[0];
      }
    }
  }

  predicate AllWords(parts: seq<string>) {
    forall i | 0 <= i < |parts| :: IsCodeWord(parts[i])
  }

  lemma AllWordsOfCons(first: string, rest: seq<string>)
    ensures AllWords([first] + rest) <==> IsCodeWord(first) && AllWords(rest)
  {
    hide IsCodeWord;
    var parts := [first] + rest;
    assert parts[0] == first && forall i | 0 <= i < |rest| :: rest[i] == parts[i + 1];
  }

  lemma {:induction false} KebabIff(value: string)
    ensures IsKebab(value) <==> AllWords(Split(value, '-'))
    decreases |value|
  {
    var k := FindChar(value, '-', 0);
    hide FindChar, AllWords;
    if k < |value| {
      hide IsKebab, IsCodeWord;
      KebabOfTail(value, k);
      KebabIff(value[k + 1..]);
      AllWordsOfCons(value[..k], Split(value[k + 1..], '-'));
    } else {
      AllWordsOfCons(value, []);
      NoWords();
      assert [value] + [] == [value];
    }
  }

  lemma NoWords()
    ensures AllWords([])
  {
  }

  /** A block code is words of small letters and digits, joined by single dashes, of at most 64 characters. */
  lemma BlockCodeIff(value: string)
    ensures ValidBlockCode(value) <==> |value| <= 64 && AllWords(Split(value, '-'))
  {
    KebabIff(value);
    hide Split, AllWords;
  }
}
