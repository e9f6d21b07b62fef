/** The transcript statistics of the listening app's front end: the number of Japanese
    characters, the total number of characters, and the number of lines. */
module TranscriptStats {
  import opened Base
  import opened Text

  /** `is_japanese`: CJK unified ideographs, hiragana or katakana. */
  predicate IsJapanese(c: char)
  {
    ('\U{4E00}' <= c <= '\U{9FFF}') || ('\U{3040}' <= c <= '\U{309F}') || ('\U{30A0}' <= c <= '\U{30FF}')
  }

  /** `count_characters`: (Japanese characters, all characters); (0, 0) for a missing or
      empty text. */
  function CountCharacters(text: Option<string>): (r: (nat, nat))
  {
    if text.None? || text.value == [] then (0, 0)
    else (Count(text.value, IsJapanese), |text.value|)
  }

  /** The total is the length; the Japanese count is at most the total, is zero exactly when
      no character is Japanese and equals the total exactly when every character is. */
  lemma CountCharactersMeaning(text: string)
    ensures CountCharacters(Some(text)).1 == |text|
    ensures CountCharacters(Some(text)).0 <= CountCharacters(Some(text)).1
    ensures CountCharacters(Some(text)).0 == 0 <==> forall i | 0 <= i < |text| :: !IsJapanese(text[i])
    ensures CountCharacters(Some(text)).0 == |text| <==> forall i | 0 <= i < |text| :: IsJapanese(text[i])
  {
    CountSplit(text, IsJapanese, c => !IsJapanese(c));
    var others := Count(text, c => !IsJapanese(c));
    assert others == 0 <==> forall i | 0 <= i < |text| :: IsJapanese(text[i]);
  }

  /** Both counts add up over a concatenation. */
  lemma CountCharactersAdditive(a: string, b: string)
    ensures CountCharacters(Some(a + b)).0 == CountCharacters(Some(a)).0 + CountCharacters(Some(b)).0
    ensures CountCharacters(Some(a + b)).1 == CountCharacters(Some(a)).1 + CountCharacters(Some(b)).1
  {
    CountConcat(a, b, IsJapanese);
    if a == [] {
      assert a + b == b;
    }
    if b == [] {
      assert a + b == a;
    }
  }

  /** `len(transcript.split('\n'))`. */
  function LineCount(text: string): nat
  {
    |Split(text, "\n")|
  }

  /** The line count is the number of newlines plus one. */
  lemma LineCountNewlines(text: string)
    ensures LineCount(text) == CountChar(text, '\n') + 1
  {
    SplitCharCount(text, '\n');
  }
}
