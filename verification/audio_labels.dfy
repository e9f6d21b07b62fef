/** The speaker-label matcher of the listening app's audio generator. The regular expression
    `^(alternatives)[\s:：]+` is modelled alternative by alternative, with Python's `re`
    semantics (first alternative that lets the whole pattern match, greedy runs with
    backtracking), as a function giving the end of the match. `clean_single_text` and
    `clean_dialogue` remove that label from a text and from each line of a dialogue. */
module SpeakerLabels {
  import opened Base
  import opened Text

  predicate AsciiLetter(c: char)
  {
    'A' <= c <= 'Z' || 'a' <= c <= 'z'
  }

  predicate AsciiLower(c: char)
  {
    'a' <= c <= 'z'
  }

  /** `[A-Za-z0-9]`. */
  predicate AsciiAlnum(c: char)
  {
    AsciiLetter(c) || IsDigit(c)
  }

  /** `[ぁ-んァ-ン一-龯]`: hiragana, katakana and the common kanji block. */
  predicate KanaKanji(c: char)
  {
    ('ぁ' <= c <= 'ん') || ('ァ' <= c <= 'ン') || ('一' <= c <= '龯')
  }

  /** `[\s:：]`. */
  predicate Separator(c: char)
  {
    IsSpace(c) || c == ':' || c == '：'
  }

  /** The length of the longest run of characters satisfying `p` from index `from`. */
  function Span(s: string, from: nat, p: char -> bool): (n: nat)
    requires from <= |s|
    ensures from + n <= |s|
    ensures forall k | from <= k < from + n :: p(s[k])
    ensures from + n < |s| ==> !p(s[from + n])
    decreases |s| - from
  {
    if from < |s| && p(s[from]) then 1 + Span(s, from + 1, p) else 0
  }

  /** A run is the longest one exactly when the character after it does not continue it. */
  lemma SpanExact(s: string, from: nat, n: nat, p: char -> bool)
    requires from + n <= |s|
    requires forall k | from <= k < from + n :: p(s[k])
    requires from + n < |s| ==> !p(s[from + n])
    ensures Span(s, from, p) == n
  {
  }

  /** A match of the pattern ends at `e`: after a separator, and not before another one. */
  predicate EndsSeparators(s: string, e: nat)
  {
    0 < e <= |s| && Separator(s[e - 1]) && (e < |s| ==> !Separator(s[e]))
  }

  /** `[\s:：]+` from index `at`: None when no separator is there, otherwise the end of the
      longest separator run (a shorter run would leave the rest of the pattern unmatched
      only if something followed it, and nothing does). */
  function Separators(s: string, at: nat): (r: Option<nat>)
    ensures r.None? <==> !(at < |s| && Separator(s[at]))
    ensures r.Some? ==> at < r.value <= |s| && (r.value < |s| ==> !Separator(s[r.value]))
    ensures r.Some? ==> forall k | at <= k < r.value :: Separator(s[k])
    ensures r.Some? ==> EndsSeparators(s, r.value)
  {
    if at < |s| && Separator(s[at]) then Some(at + Span(s, at, Separator)) else None
  }

  /** `[A-Za-z0-9]+` or `[ぁ-んァ-ン一-龯]+` followed by separators. Backtracking to a shorter
      run would leave a run character, not a separator, next, so only the longest run can
      match. */
  function RunLabel(s: string, p: char -> bool): (r: Option<nat>)
    ensures r.Some? ==> EndsSeparators(s, r.value)
  {
    var n := Span(s, 0, p);
    if n > 0 then Separators(s, n) else None
  }

  /** `[A-Za-z][a-z]+(?:-san|-kun|-chan)?` followed by separators: with the honorific first,
      then without it. */
  function NameLabel(s: string): (r: Option<nat>)
    ensures r.Some? ==> EndsSeparators(s, r.value)
  {
    if |s| >= 2 && AsciiLetter(s[0]) && AsciiLower(s[1]) then
      var p := 1 + Span(s, 1, AsciiLower);
      var honorific :=
        if StartsWith(s[p..], "-san") || StartsWith(s[p..], "-kun") then Separators(s, p + 4)
        else if StartsWith(s[p..], "-chan") then Separators(s, p + 5)
        else None;
      if honorific.Some? then honorific else Separators(s, p)
    else None
  }

  /** `Person\s+\d+` followed by separators (`\d` taken as the ASCII digits). */
  function PersonLabel(s: string): (r: Option<nat>)
    ensures r.Some? ==> EndsSeparators(s, r.value)
  {
    if StartsWith(s, "Person") then
      var w := Span(s, 6, IsSpace);
      var d := Span(s, 6 + w, IsDigit);
      if w > 0 && d > 0 then Separators(s, 6 + w + d) else None
    else None
  }

  /** The literal alternatives, in the order the pattern lists them. */
  const LABEL_WORDS: seq<string> := ["Student", "Teacher", "Male", "Female", "Man", "Woman", "Customer",
    "Staff", "お客様", "スタッフ", "先生", "生徒", "男性", "女性", "男", "女"]

  /** The first literal alternative that is followed by separators. */
  function WordLabel(s: string, words: seq<string>): (r: Option<nat>)
    ensures r.Some? ==> EndsSeparators(s, r.value)
  {
    if words == [] then None
    else if StartsWith(s, words[0]) && Separators(s, |words[0]|).Some? then Separators(s, |words[0]|)
    else WordLabel(s, words[1..])
  }

  /** `re.search(speaker_pattern, s)`: the end of the match of the first alternative that
      lets the whole pattern match, or None. The match always ends with the longest run of
      separators after the label. */
  function LabelEnd(s: string): (r: Option<nat>)
    ensures r.Some? ==> EndsSeparators(s, r.value)
  {
    if RunLabel(s, AsciiAlnum).Some? then RunLabel(s, AsciiAlnum)
    else if RunLabel(s, KanaKanji).Some? then RunLabel(s, KanaKanji)
    else if NameLabel(s).Some? then NameLabel(s)
    else if PersonLabel(s).Some? then PersonLabel(s)
    else WordLabel(s, LABEL_WORDS)
  }

  // ---------------------------------------------------------------------------------------
  // Which alternatives can decide

  /** A run of `p` that ends where a separator begins is the longest run. */
  lemma RunBeforeSeparator(s: string, n: nat, p: char -> bool)
    requires 0 < n < |s| && Separator(s[n]) && !p(s[n])
    requires forall k | 0 <= k < n :: p(s[k])
    ensures RunLabel(s, p).Some?
  {
    SpanExact(s, 0, n, p);
  }

  /** A non-empty word made only of alphanumerics or only of kana and kanji. */
  predicate RunWord(w: string)
  {
    w != [] && ((forall k | 0 <= k < |w| :: AsciiAlnum(w[k])) || (forall k | 0 <= k < |w| :: KanaKanji(w[k])))
  }

  lemma {:induction false} WordsAreRuns(s: string, words: seq<string>)
    requires forall i | 0 <= i < |words| :: RunWord(words[i])
    ensures WordLabel(s, words).Some? ==> RunLabel(s, AsciiAlnum).Some? || RunLabel(s, KanaKanji).Some?
  {
    if words != [] {
      var w := words[0];
      if StartsWith(s, w) && Separators(s, |w|).Some? {
        assert forall k | 0 <= k < |w| :: s[k] == w[k];
        if forall k | 0 <= k < |w| :: AsciiAlnum(w[k]) {
          RunBeforeSeparator(s, |w|, AsciiAlnum);
        } else {
          RunBeforeSeparator(s, |w|, KanaKanji);
        }
      } else {
        WordsAreRuns(s, words[1..]);
      }
    }
  }

  /** "Person" followed by whitespace is already an alphanumeric label. */
  lemma PersonIsRun(s: string)
    ensures PersonLabel(s).Some? ==> RunLabel(s, AsciiAlnum).Some?
  {
    if PersonLabel(s).Some? {
      assert s[..6] == "Person";
      assert forall k | 0 <= k < 6 :: s[k] == "Person"[k];
      RunBeforeSeparator(s, 6, AsciiAlnum);
    }
  }

  /** Only the first three alternatives ever decide a match: "Person" followed by
      whitespace, every English word and every Japanese word are matched earlier by the
      alphanumeric or the kana/kanji run, so the `Person\s+\d+` and word alternatives are
      dead. */
  lemma ShadowedAlternatives(s: string)
    ensures LabelEnd(s) ==
      if RunLabel(s, AsciiAlnum).Some? then RunLabel(s, AsciiAlnum)
      else if RunLabel(s, KanaKanji).Some? then RunLabel(s, KanaKanji)
      else NameLabel(s)
  {
    PersonIsRun(s);
    forall i | 0 <= i < |LABEL_WORDS| ensures RunWord(LABEL_WORDS[i]) {
    }
    WordsAreRuns(s, LABEL_WORDS);
  }

  // ---------------------------------------------------------------------------------------
  // Removing the label

  /** `clean_single_text` as written: "" for an empty text; otherwise the label is looked
      for in the stripped text, but the text after it is cut from the original text. */
  function CleanSingleText(text: string): (r: string)
    ensures IsStripped(r)
  {
    if text == [] then []
    else
      var t := Strip(text);
      match LabelEnd(t)
      case Some(e) => Strip(text[e..])
      case None => t
  }

  /** One line of `clean_dialogue`: None for a blank line and for a label with nothing after
      it; otherwise the (wrongly cut, for an indented line) text after the label, or the
      stripped line when it has no label. */
  function CleanLine(line: string): (r: Option<string>)
    ensures r.Some? ==> r.value != [] && IsStripped(r.value)
  {
    var t := Strip(line);
    if t == [] then None
    else match LabelEnd(t)
      case Some(e) => var rest := Strip(line[e..]); if rest != [] then Some(rest) else None
      case None => Some(t)
  }

  /** The lines `clean_dialogue` keeps, in order. */
  function Cleaned(lines: seq<string>): seq<string>
  {
    if lines == [] then []
    else Cleaned(lines[..|lines| - 1]) + (match CleanLine(lines[|lines| - 1]) case Some(x) => [x] case None => [])
  }

  /** The body of `clean_dialogue`'s loop for one line. */
  method CleanOneLine(line: string) returns (kept: Option<string>)
    ensures kept == CleanLine(line)
  {
    var stripped := Strip(line);
    if stripped == [] {
      return None;
    }
    var found := LabelEnd(stripped);
    if found.Some? {
      var rest := Strip(line[found.value..]);
      kept := if rest != [] then Some(rest) else None;
    } else {
      kept := Some(stripped);
    }
  }

  /** `clean_dialogue`: the text split on newlines, each line cleaned in turn. */
  method CleanDialogue(text: string) returns (cleaned: seq<string>)
    ensures cleaned == Cleaned(Split(text, "\n"))
  {
    var lines := Split(text, "\n");
    cleaned := CleanLines(lines);
  }

  /** The loop of `clean_dialogue`. */
  method CleanLines(lines: seq<string>) returns (cleaned: seq<string>)
    ensures cleaned == Cleaned(lines)
  {
    cleaned := [];
    for i := 0 to |lines|
      invariant cleaned == Cleaned(lines[..i])
    {
      assert lines[..i + 1][..i] == lines[..i];
      var kept := CleanOneLine(lines[i]);
      if kept.Some? {
        cleaned := cleaned + [kept.value];
      }
    }
    assert lines[..|lines|] == lines;
  }

  /** The dialogue never holds an empty or unstripped line, and has at most one entry per
      line of the text. */
  lemma {:induction false} CleanedWellFormed(lines: seq<string>)
    ensures |Cleaned(lines)| <= |lines|
    ensures forall i | 0 <= i < |Cleaned(lines)| :: Cleaned(lines)[i] != [] && IsStripped(Cleaned(lines)[i])
  {
    if lines != [] {
      CleanedWellFormed(lines[..|lines| - 1]);
    }
  }

  /** A label of `p` characters followed by separators and then a message: the label run
      ends where the separators begin, and the match ends where the message begins. */
  lemma RunLabelAt(l: string, sep: string, m: string, p: char -> bool)
    requires l != [] && forall k | 0 <= k < |l| :: p(l[k])
    requires sep != [] && forall k | 0 <= k < |sep| :: Separator(sep[k]) && !p(sep[k])
    requires m != [] && !Separator(m[0])
    ensures RunLabel(l + sep + m, p) == Some(|l| + |sep|)
  {
    var x := l + sep + m;
    SpanExact(x, 0, |l|, p);
    SpanExact(x, |l|, |sep|, Separator);
  }

  /** An alphanumeric label is what the pattern matches first. */
  lemma AlnumLabel(l: string, sep: string, m: string)
    requires l != [] && forall k | 0 <= k < |l| :: AsciiAlnum(l[k])
    requires sep != [] && forall k | 0 <= k < |sep| :: Separator(sep[k])
    requires m != [] && !Separator(m[0])
    ensures LabelEnd(l + sep + m) == Some(|l| + |sep|)
  {
    RunLabelAt(l, sep, m, AsciiAlnum);
  }

  /** A kana/kanji label such as 田中 is matched by the second alternative. */
  lemma KanaLabel(l: string, sep: string, m: string)
    requires l != [] && forall k | 0 <= k < |l| :: KanaKanji(l[k])
    requires sep != [] && forall k | 0 <= k < |sep| :: Separator(sep[k])
    requires m != [] && !Separator(m[0])
    ensures LabelEnd(l + sep + m) == Some(|l| + |sep|)
  {
    var x := l + sep + m;
    SpanExact(x, 0, 0, AsciiAlnum);
    RunLabelAt(l, sep, m, KanaKanji);
  }

  /** A text starting with a label, a separator run and a message loses exactly the label
      and the separators, in `clean_single_text` and in `clean_dialogue`. */
  lemma LabelRemoved(l: string, sep: string, m: string)
    requires l != [] && RunWord(l)
    requires sep != [] && forall k | 0 <= k < |sep| :: Separator(sep[k])
    requires m != [] && !Separator(m[0]) && IsStripped(m)
    ensures CleanSingleText(l + sep + m) == m
    ensures CleanLine(l + sep + m) == Some(m)
  {
    var x := l + sep + m;
    if forall k | 0 <= k < |l| :: AsciiAlnum(l[k]) {
      AlnumLabel(l, sep, m);
    } else {
      KanaLabel(l, sep, m);
    }
    assert !IsSpace(x[0]) && x[|x| - 1] == m[|m| - 1];
    StripOfStripped(x);
    assert x[|l| + |sep|..] == m;
    StripOfStripped(m);
  }

  // ---------------------------------------------------------------------------------------
  // Findings

  /** As written, "Person 1: hello" keeps its number: the alphanumeric run "Person" followed
      by a space is matched before `Person\s+\d+` is tried. */
  lemma PersonNumberKept(d: string, m: string)
    requires d != [] && forall k | 0 <= k < |d| :: IsDigit(d[k])
    requires m != [] && IsStripped(m)
    ensures CleanSingleText("Person " + d + ": " + m) == d + ": " + m
  {
    PersonWordLabel(d, m);
    PersonNumberShape(d, m);
    StripOfStripped("Person " + d + ": " + m);
    StripOfStripped(d + ": " + m);
  }

  /** "Person" followed by a space is an alphanumeric label ending before the number. */
  lemma PersonWordLabel(d: string, m: string)
    requires d != [] && forall k | 0 <= k < |d| :: IsDigit(d[k])
    ensures LabelEnd("Person " + d + ": " + m) == Some(7)
  {
    var rest := d + ": " + m;
    assert "Person " + d + ": " + m == "Person" + " " + rest;
    AlnumLabel("Person", " ", rest);
  }

  lemma PersonNumberShape(d: string, m: string)
    requires d != [] && forall k | 0 <= k < |d| :: IsDigit(d[k])
    requires m != [] && IsStripped(m)
    ensures var rest := d + ": " + m;
      IsStripped("Person " + d + ": " + m) && ("Person " + d + ": " + m)[7..] == rest && IsStripped(rest)
  {
    var rest := d + ": " + m;
    var x := "Person " + d + ": " + m;
    assert !IsSpace(x[0]) && x[|x| - 1] == m[|m| - 1];
    assert x[7..] == rest;
    assert !IsSpace(rest[0]) && rest[|rest| - 1] == m[|m| - 1];
  }

  /** As written, an indented labelled line keeps part of its label: the match is taken on
      the stripped text but its end is used on the original, so "  A: hi" gives ": hi". */
  lemma IndentedLabelMisplaced()
    ensures CleanSingleText("  A: hi") == ": hi"
  {
    IndentedStrip();
    IndentedLabel();
    IndentedRest();
  }

  /** The same line inside a dialogue. */
  lemma IndentedDialogueLineMisplaced()
    ensures CleanLine("  A: hi") == Some(": hi")
  {
    IndentedStrip();
    IndentedLabel();
    IndentedRest();
  }

  lemma IndentedStrip()
    ensures Strip("  A: hi") == "A: hi"
  {
    assert "  " + "A: hi" == "  A: hi";
    assert IsSpace(' ') && IsStripped("A: hi");
    StripIndented("  ", "A: hi");
  }

  lemma IndentedLabel()
    ensures LabelEnd("A: hi") == Some(3)
  {
    AlnumLabel("A", ": ", "hi");
    assert "A" + ": " + "hi" == "A: hi";
  }

  lemma IndentedRest()
    ensures "  A: hi"[3..] == ": hi" && Strip(": hi") == ": hi"
  {
    StripOfStripped(": hi");
  }

  /** The labels the pattern's comment lists, "Person 1:" among them: `Person\s+\d+` is
      tried before the alphanumeric run. */
  function IntendedLabelEnd(s: string): (r: Option<nat>)
    ensures r.Some? ==> EndsSeparators(s, r.value)
  {
    if PersonLabel(s).Some? then PersonLabel(s) else LabelEnd(s)
  }

  /** `clean_single_text` corrected: the label is cut from the stripped text it was found in. */
  function IntendedCleanText(text: string): (r: string)
    ensures IsStripped(r)
  {
    if text == [] then []
    else
      var t := Strip(text);
      match IntendedLabelEnd(t)
      case Some(e) => Strip(t[e..])
      case None => t
  }

  /** Corrected, "Person <n>:" is removed whole, whatever the indentation. */
  lemma IntendedRemovesPersonLabel(ws: string, d: string, m: string)
    requires forall k | 0 <= k < |ws| :: IsSpace(ws[k])
    requires d != [] && forall k | 0 <= k < |d| :: IsDigit(d[k])
    requires m != [] && !Separator(m[0]) && IsStripped(m)
    ensures IntendedCleanText(ws + "Person " + d + ": " + m) == m
  {
    var x := "Person " + d + ": " + m;
    assert ws + "Person " + d + ": " + m == ws + x;
    PersonLine(d, m);
    StripIndented(ws, x);
    StripOfStripped(m);
  }

  lemma PersonLine(d: string, m: string)
    requires d != [] && forall k | 0 <= k < |d| :: IsDigit(d[k])
    requires m != [] && !Separator(m[0]) && IsStripped(m)
    ensures var x := "Person " + d + ": " + m;
      IsStripped(x) && x != [] && PersonLabel(x) == Some(9 + |d|) && x[9 + |d|..] == m
  {
    PersonLineShape(d, m);
    PersonLineLabel(d, m);
  }

  lemma PersonLineShape(d: string, m: string)
    requires d != [] && m != [] && IsStripped(m)
    ensures var x := "Person " + d + ": " + m;
      IsStripped(x) && x[9 + |d|..] == m
  {
    var x := "Person " + d + ": " + m;
    assert !IsSpace(x[0]) && x[|x| - 1] == m[|m| - 1];
    assert x[9 + |d|..] == m;
  }

  lemma PersonLineLabel(d: string, m: string)
    requires d != [] && forall k | 0 <= k < |d| :: IsDigit(d[k])
    requires m != [] && !Separator(m[0])
    ensures PersonLabel("Person " + d + ": " + m) == Some(9 + |d|)
  {
    var x := "Person " + d + ": " + m;
    assert x[..6] == "Person";
    PersonLineSpans(d, m);
  }

  lemma PersonLineSpans(d: string, m: string)
    requires d != [] && forall k | 0 <= k < |d| :: IsDigit(d[k])
    requires m != [] && !Separator(m[0])
    ensures var x := "Person " + d + ": " + m;
      Span(x, 6, IsSpace) == 1 && Span(x, 7, IsDigit) == |d| && Span(x, 7 + |d|, Separator) == 2
  {
    SpaceSpan(d, m);
    DigitSpan(d, m);
    ColonSpan(d, m);
  }

  lemma SpaceSpan(d: string, m: string)
    requires d != [] && IsDigit(d[0])
    ensures Span("Person " + d + ": " + m, 6, IsSpace) == 1
  {
    var x := "Person " + d + ": " + m;
    assert x[6] == ' ' && x[7] == d[0];
    SpanExact(x, 6, 1, IsSpace);
  }

  lemma DigitSpan(d: string, m: string)
    requires forall k | 0 <= k < |d| :: IsDigit(d[k])
    ensures Span("Person " + d + ": " + m, 7, IsDigit) == |d|
  {
    var x := "Person " + d + ": " + m;
    assert forall k | 7 <= k < 7 + |d| :: x[k] == d[k - 7];
    assert x[7 + |d|] == ':';
    SpanExact(x, 7, |d|, IsDigit);
  }

  lemma ColonSpan(d: string, m: string)
    requires m != [] && !Separator(m[0])
    ensures Span("Person " + d + ": " + m, 7 + |d|, Separator) == 2
  {
    var x := "Person " + d + ": " + m;
    assert x[7 + |d|] == ':' && x[8 + |d|] == ' ' && x[9 + |d|] == m[0];
    assert Span(x, 9 + |d|, Separator) == 0;
  }

  /** Corrected, an alphanumeric or kana/kanji label followed by ": " is removed whole,
      whatever the indentation. */
  lemma IntendedRemovesIndentedLabel(ws: string, l: string, m: string)
    requires forall k | 0 <= k < |ws| :: IsSpace(ws[k])
    requires RunWord(l)
    requires m != [] && !Separator(m[0]) && IsStripped(m)
    ensures IntendedCleanText(ws + l + ": " + m) == m
  {
    var x := l + ": " + m;
    assert ws + l + ": " + m == ws + x;
    LabelledLine(l, m);
    StripIndented(ws, x);
    StripOfStripped(m);
  }

  lemma LabelledLine(l: string, m: string)
    requires RunWord(l)
    requires m != [] && !Separator(m[0]) && IsStripped(m)
    ensures var x := l + ": " + m;
      IsStripped(x) && x != [] && IntendedLabelEnd(x) == Some(|l| + 2) && x[|l| + 2..] == m
  {
    LabelledLineShape(l, m);
    LabelledLineEnd(l, m);
  }

  lemma LabelledLineShape(l: string, m: string)
    requires l != [] && !IsSpace(l[0]) && m != [] && IsStripped(m)
    ensures var x := l + ": " + m; IsStripped(x) && x[|l| + 2..] == m
  {
    var x := l + ": " + m;
    assert x[0] == l[0] && x[|x| - 1] == m[|m| - 1];
    assert x[|l| + 2..] == m;
  }

  lemma LabelledLineEnd(l: string, m: string)
    requires RunWord(l)
    requires m != [] && !Separator(m[0])
    ensures IntendedLabelEnd(l + ": " + m) == Some(|l| + 2)
  {
    if forall k | 0 <= k < |l| :: AsciiAlnum(l[k]) {
      AlnumLabel(l, ": ", m);
    } else {
      KanaLabel(l, ": ", m);
    }
    NoPersonBeforeColon(l, m);
  }

  /** A label followed by ": " is never read as "Person <n>". */
  lemma NoPersonBeforeColon(l: string, m: string)
    requires RunWord(l)
    ensures PersonLabel(l + ": " + m).None?
  {
    var x := l + ": " + m;
    if StartsWith(x, "Person") {
      assert x[..6] == "Person";
      if |l| >= 6 {
        assert !IsSpace(x[6]);
      } else {
        NoColonInPerson(x, |l|);
      }
    }
  }

  lemma NoColonInPerson(x: string, j: nat)
    requires StartsWith(x, "Person") && j < 6
    ensures x[j] != ':'
  {
    assert x[..6][j] == x[j];
  }
}
