/** The mock-material lookup of the listening app's vector store: a fixed dictionary from a
    practice type to two passages of learning material. The Chroma collection and the
    embedding service are left out. */
module VectorStore {
  import opened Base
  import opened Text

  const NOT_FOUND := "No materials found for this practice type."

  const DIALOGUE := "japanese dialogue"
  const VOCABULARY := "japanese vocabulary"
  const LISTENING := "japanese listening"

  const DIALOGUE_1 := "A: こんにちは。お元気ですか？\nB: はい、元気です。\n(Hello. How are you?\nYes, I'm fine.)"
  const DIALOGUE_2 := "A: お名前は何ですか？\nB: 田中です。\n(What is your name?\nI'm Tanaka.)"
  const VOCABULARY_1 := "食べる (taberu) - to eat\n飲む (nomu) - to drink"
  const VOCABULARY_2 := "行く (iku) - to go\n来る (kuru) - to come"
  const LISTENING_1 := "Basic greetings: おはようございます (ohayou gozaimasu) - Good morning"
  const LISTENING_2 := "Numbers: 一 (ichi) - one, 二 (ni) - two, 三 (san) - three"

  /** `mock_data[query]`, None where the practice type is not a key. */
  function MockData(query: string): (r: Option<seq<string>>)
    ensures r.Some? ==> |r.value| == 2
  {
    if query == DIALOGUE then Some([DIALOGUE_1, DIALOGUE_2])
    else if query == VOCABULARY then Some([VOCABULARY_1, VOCABULARY_2])
    else if query == LISTENING then Some([LISTENING_1, LISTENING_2])
    else None
  }

  /** Python's `s[:n]`: a negative bound counts from the end. */
  function TakePrefix<T>(s: seq<T>, n: int): (r: seq<T>)
    ensures |r| <= |s| && r == s[..|r|]
    ensures n >= 0 ==> |r| == if n < |s| then n else |s|
    ensures n < 0 ==> |r| == if |s| + n > 0 then |s| + n else 0
  {
    if n >= 0 then (if n < |s| then s[..n] else s)
    else if |s| + n > 0 then s[..|s| + n] else []
  }

  /** `search`: an exact-match lookup of the practice type; the first `n` passages joined by
      a blank line, or the not-found message. */
  function Search(query: string, n: int): string
  {
    match MockData(query)
    case Some(passages) => Join(TakePrefix(passages, n), "\n\n")
    case None => NOT_FOUND
  }

  /** No ASCII capital letter. */
  predicate LowerCase(s: string)
  {
    forall i | 0 <= i < |s| :: !('A' <= s[i] <= 'Z')
  }

  /** The three practice types are the only keys, and each is lower-case. */
  lemma KeysLowerCase(query: string)
    ensures MockData(query).Some? <==> query == DIALOGUE || query == VOCABULARY || query == LISTENING
    ensures MockData(query).Some? ==> LowerCase(query)
  {
  }

  /** A known practice type with room for both passages gets both, separated by a blank
      line; with no room it gets the empty string. */
  lemma SearchKnown(query: string, n: int)
    requires MockData(query).Some?
    ensures n >= 2 ==> Search(query, n) == MockData(query).value[0] + "\n\n" + MockData(query).value[1]
    ensures n == 0 ==> Search(query, n) == ""
    ensures n == 1 || n == -1 ==> Search(query, n) == MockData(query).value[0]
  {
    var passages := MockData(query).value;
    if n >= 2 {
      assert TakePrefix(passages, n) == passages;
      assert passages[1..] == [passages[1]];
      assert Join(passages[1..], "\n\n") == passages[1];
    } else if n == 1 || n == -1 {
      assert TakePrefix(passages, n) == [passages[0]];
    }
  }

  /** Any other query is answered with the not-found message. */
  lemma SearchUnknown(query: string, n: int)
    requires MockData(query).None?
    ensures Search(query, n) == NOT_FOUND
  {
  }

  /** Lookup is case-sensitive: a practice type with a capital letter is unknown. */
  lemma SearchCaseSensitive(query: string, n: int)
    requires !LowerCase(query)
    ensures Search(query, n) == NOT_FOUND
  {
    KeysLowerCase(query);
  }
}
