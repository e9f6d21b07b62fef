/** The interactive practice page's question generator: a language model is asked for a
    question laid out in "Header:" sections, the reply is cut into sections line by line with
    the correct option marked "[CORRECT]", and the result is kept only when it has the four
    sections, a correct option and exactly four options. The model is an input: attempt `a`
    yields a reply, or None where the call raises (or returns nothing, so that splitting the
    reply raises). */
module InteractiveLearning {
  import opened Base
  import opened Text

  const MARKER := "[CORRECT]"
  const REQUIRED: seq<string> := ["introduction", "conversation", "question", "options"]

  // ---------------------------------------------------------------------------------------
  // Parsing

  /** The variables of `parse_generated_response`'s loop: the sections recorded so far, the
      current section's name (None before the first header), its non-blank lines, and the
      correct option seen last. */
  datatype ParseState = ParseState(
    sections: map<string, string>,
    current: Option<string>,
    content: seq<string>,
    correct: Option<string>)

  const START := ParseState(map[], None, [], None)

  /** `line.strip().lower().endswith(':')`. */
  predicate IsHeader(line: string)
  {
    EndsWith(Lower(Strip(line)), ":")
  }

  /** Lower-casing does not matter: a line is a header exactly when its stripped text ends
      with a colon. */
  lemma HeaderMeaning(line: string)
    ensures IsHeader(line) <==> Strip(line) != [] && Strip(line)[|Strip(line)| - 1] == ':'
  {
    var t := Strip(line);
    var l := Lower(t);
    if t != [] {
      assert l[|l| - 1..] == [l[|l| - 1]];
      assert l[|l| - 1] == LowerChar(t[|t| - 1]);
    }
  }

  /** `line.strip()[:-1].lower()`: the header without its colon, lower-cased. */
  function HeaderName(line: string): string
    requires IsHeader(line)
  {
    var t := Strip(line);
    Lower(t[..|t| - 1])
  }

  /** `if current_section and content: sections[current_section] = '\n'.join(content)`. */
  function Flush(st: ParseState): map<string, string>
  {
    if st.current.Some? && st.current.value != [] && st.content != [] then
      st.sections[st.current.value := Join(st.content, "\n")]
    else st.sections
  }

  /** What the loop makes of one line: a header with its name, or a text line with whether
      it holds the marker and its text with the marker removed and stripped. */
  datatype Line = HeaderLine(name: string) | TextLine(marked: bool, text: string)

  function Classify(line: string): Line
  {
    if IsHeader(line) then HeaderLine(HeaderName(line))
    else if Contains(line, MARKER) then TextLine(true, Strip(Replace(line, MARKER, "")))
    else TextLine(false, Strip(line))
  }

  /** One turn of the loop. A header flushes the current section and starts a new one; any
      other line sets the correct option when it holds the marker, and adds its text to the
      content unless the text is empty. */
  function Step(st: ParseState, line: Line): ParseState
  {
    match line
    case HeaderLine(name) => ParseState(Flush(st), Some(name), [], st.correct)
    case TextLine(marked, text) =>
      ParseState(st.sections, st.current,
        if text != [] then st.content + [text] else st.content,
        if marked then Some(text) else st.correct)
  }

  /** The loop over `lines` from state `st`. */
  function Run(st: ParseState, lines: seq<Line>): ParseState
    decreases |lines|
  {
    if lines == [] then st else Run(Step(st, lines[0]), lines[1..])
  }

  function Classified(lines: seq<string>): (r: seq<Line>)
    ensures |r| == |lines|
  {
    MapSeq(lines, Classify)
  }

  /** The sections and correct option read from the lines, after the final flush. */
  function ParseLines(lines: seq<string>): (map<string, string>, Option<string>)
  {
    var st := Run(START, Classified(lines));
    (Flush(st), st.correct)
  }

  /** `parse_generated_response` on the reply. */
  function ParseResponse(response: string): (map<string, string>, Option<string>)
  {
    ParseLines(Split(response, "\n"))
  }

  /** One more line read is one more step of the loop. */
  lemma RunPrefix(lines: seq<string>, i: nat)
    requires i < |lines|
    ensures Run(START, Classified(lines[..i + 1])) == Step(Run(START, Classified(lines[..i])), Classify(lines[i]))
  {
    assert lines[..i + 1] == lines[..i] + [lines[i]];
    ClassifiedConcat(lines[..i], [lines[i]]);
    RunConcat(START, Classified(lines[..i]), Classified([lines[i]]));
    assert Classified([lines[i]]) == [Classify(lines[i])];
  }

  lemma WholePrefix(lines: seq<string>)
    ensures Run(START, Classified(lines[..|lines|])) == Run(START, Classified(lines))
  {
    assert lines[..|lines|] == lines;
  }

  /** One turn of the loop of `parse_generated_response`, on its four variables. */
  method ReadLine(st: ParseState, line: string) returns (next: ParseState)
    ensures next == Step(st, Classify(line))
  {
    var sections, current, content, correctOption := st.sections, st.current, st.content, st.correct;
    var line := line;
    if IsHeader(line) {
      if current.Some? && current.value != [] && content != [] {
        sections := sections[current.value := Join(content, "\n")];
      }
      current := Some(HeaderName(line));
      content := [];
    } else {
      if Contains(line, MARKER) {
        correctOption := Some(Strip(Replace(line, MARKER, "")));
        line := Replace(line, MARKER, "");
      }
      if Strip(line) != [] {
        content := content + [Strip(line)];
      }
    }
    next := ParseState(sections, current, content, correctOption);
  }

  /** The loop of `parse_generated_response` over the reply's lines, and the final flush. */
  method ReadLines(lines: seq<string>) returns (sections: map<string, string>, correctOption: Option<string>)
    ensures (sections, correctOption) == ParseLines(lines)
  {
    var st := START;
    var i := 0;
    while i < |lines|
      invariant i <= |lines|
      invariant st == Run(START, Classified(lines[..i]))
    {
      RunPrefix(lines, i);
      st := ReadLine(st, lines[i]);
      i := i + 1;
    }
    WholePrefix(lines);
    sections, correctOption := Flush(st), st.correct;
  }

  /** `parse_generated_response`: the reply split on newlines, then read line by line. */
  method ParseGeneratedResponse(response: string) returns (sections: map<string, string>, correctOption: Option<string>)
    ensures (sections, correctOption) == ParseResponse(response)
  {
    var lines := Split(response, "\n");
    sections, correctOption := ReadLines(lines);
  }

  // ---------------------------------------------------------------------------------------
  // What the parser records

  /** A content line as recorded: the marker removed, stripped. */
  function ContentLine(line: string): string
  {
    Strip(Replace(line, MARKER, ""))
  }

  /** The lines a run of non-header lines contributes to its section, in order. */
  function Content(lines: seq<string>): seq<string>
  {
    if lines == [] then []
    else
      var c := ContentLine(lines[0]);
      (if c != [] then [c] else []) + Content(lines[1..])
  }

  /** Every line is non-empty and stripped. */
  predicate AllStripped(xs: seq<string>)
  {
    forall k | 0 <= k < |xs| :: xs[k] != [] && IsStripped(xs[k])
  }

  lemma PrependStripped(c: string, rest: seq<string>)
    requires AllStripped(rest) && (c == [] || IsStripped(c))
    ensures AllStripped((if c != [] then [c] else []) + rest)
  {
    var xs := (if c != [] then [c] else []) + rest;
    if c != [] {
      assert forall k | 1 <= k < |xs| :: xs[k] == rest[k - 1];
    } else {
      assert xs == rest;
    }
  }

  /** Every recorded line is non-empty and stripped, and there are no more of them than
      lines read. */
  lemma {:induction false} ContentStripped(lines: seq<string>)
    ensures |Content(lines)| <= |lines|
    ensures AllStripped(Content(lines))
  {
    if lines != [] {
      ContentStripped(lines[1..]);
      PrependStripped(ContentLine(lines[0]), Content(lines[1..]));
    }
  }

  predicate Headerless(lines: seq<string>)
  {
    forall i | 0 <= i < |lines| :: !IsHeader(lines[i])
  }

  /** A line that sets the correct option. */
  predicate Marked(line: string)
  {
    !IsHeader(line) && Contains(line, MARKER)
  }

  /** A text line's text is its content line, and it is marked exactly when the line is. */
  lemma ClassifyText(line: string)
    requires !IsHeader(line)
    ensures Classify(line).TextLine? && Classify(line).text == ContentLine(line)
    ensures Classify(line).marked <==> Marked(line)
  {
    if !Contains(line, MARKER) {
      ReplaceAbsent(line, MARKER, "");
    }
  }

  lemma ClassifiedConcat(a: seq<string>, b: seq<string>)
    ensures Classified(a + b) == Classified(a) + Classified(b)
  {
    MapConcat(a, b, Classify);
  }

  /** The non-empty texts of a run of text lines. */
  function Texts(ls: seq<Line>): seq<string>
    requires forall i | 0 <= i < |ls| :: ls[i].TextLine?
  {
    if ls == [] then []
    else (if ls[0].text != [] then [ls[0].text] else []) + Texts(ls[1..])
  }

  /** Without headers, every line is classified as text. */
  lemma HeaderlessIsText(lines: seq<string>)
    requires Headerless(lines)
    ensures forall i | 0 <= i < |lines| :: Classified(lines)[i].TextLine?
  {
    forall i | 0 <= i < |lines| ensures Classified(lines)[i].TextLine? {
      ClassifyText(lines[i]);
    }
  }

  lemma ClassifiedTail(lines: seq<string>)
    requires lines != []
    ensures Classified(lines)[0] == Classify(lines[0])
    ensures Classified(lines)[1..] == Classified(lines[1..])
  {
    MapTail(lines, Classify);
  }

  lemma {:induction false} TextsOfContent(lines: seq<string>)
    requires Headerless(lines)
    ensures forall i | 0 <= i < |lines| :: Classified(lines)[i].TextLine?
    ensures Texts(Classified(lines)) == Content(lines)
    decreases |lines|
  {
    HeaderlessIsText(lines);
    if lines != [] {
      ClassifyText(lines[0]);
      ClassifiedTail(lines);
      TextsOfContent(lines[1..]);
    }
  }

  /** Over text lines, the loop keeps the sections and the current header. */
  lemma {:induction false} RunOnTextKeeps(st: ParseState, ls: seq<Line>)
    requires forall i | 0 <= i < |ls| :: ls[i].TextLine?
    ensures Run(st, ls).sections == st.sections && Run(st, ls).current == st.current
    decreases |ls|
  {
    if ls != [] {
      RunOnTextKeeps(Step(st, ls[0]), ls[1..]);
    }
  }

  /** Over text lines, the loop only collects content. */
  lemma {:induction false} RunOnText(st: ParseState, ls: seq<Line>)
    requires forall i | 0 <= i < |ls| :: ls[i].TextLine?
    ensures Run(st, ls).sections == st.sections && Run(st, ls).current == st.current
    ensures Run(st, ls).content == st.content + Texts(ls)
    decreases |ls|
  {
    RunOnTextKeeps(st, ls);
    if ls != [] {
      var piece := if ls[0].text != [] then [ls[0].text] else [];
      var next := Step(st, ls[0]);
      assert next.content == st.content + piece;
      RunOnText(next, ls[1..]);
      assert Texts(ls) == piece + Texts(ls[1..]);
      assert st.content + piece + Texts(ls[1..]) == st.content + (piece + Texts(ls[1..]));
    }
  }

  /** Running over two pieces is running over the first, then the second. */
  lemma {:induction false} RunConcat(st: ParseState, a: seq<Line>, b: seq<Line>)
    ensures Run(st, a + b) == Run(Run(st, a), b)
    decreases |a|
  {
    if a != [] {
      assert (a + b)[0] == a[0] && (a + b)[1..] == a[1..] + b;
      RunConcat(Step(st, a[0]), a[1..], b);
    } else {
      assert a + b == b;
    }
  }

  /** Lines before the first header are discarded: a reply without a header has no
      sections. */
  lemma NoHeaderNoSections(lines: seq<string>)
    requires Headerless(lines)
    ensures ParseLines(lines).0 == map[]
  {
    TextsOfContent(lines);
    RunOnText(START, Classified(lines));
  }

  /** The last header and the lines after it: the section is recorded under the header's
      name, replacing any earlier section of that name, when both the name and its content
      are non-empty; otherwise the sections are those read before the header. */
  lemma LastSection(before: seq<string>, header: string, body: seq<string>)
    requires IsHeader(header) && Headerless(body)
    ensures var name := HeaderName(header);
      ParseLines(before + [header] + body).0 ==
        if name != [] && Content(body) != [] then ParseLines(before).0[name := Join(Content(body), "\n")]
        else ParseLines(before).0
  {
    LastRun(before, header, body);
  }

  /** The state the loop ends in after the last header and its lines. */
  lemma LastRun(before: seq<string>, header: string, body: seq<string>)
    requires IsHeader(header) && Headerless(body)
    ensures var fin := Run(START, Classified(before + [header] + body));
      && fin.sections == ParseLines(before).0
      && fin.current == Some(HeaderName(header))
      && fin.content == Content(body)
  {
    var a, h, b := Classified(before), Classify(header), Classified(body);
    ClassifiedAround(before, header, body);
    RunConcat(START, a, [h] + b);
    RunAfter(Run(START, a), h, b);
    var st1 := Step(Run(START, a), h);
    assert st1.sections == ParseLines(before).0 && st1.current == Some(HeaderName(header)) && st1.content == [];
    TextsOfContent(body);
    RunOnText(st1, b);
  }

  lemma ClassifiedAround(before: seq<string>, line: string, after: seq<string>)
    ensures Classified(before + [line] + after) == Classified(before) + ([Classify(line)] + Classified(after))
  {
    ClassifiedConcat(before + [line], after);
    ClassifiedConcat(before, [line]);
  }

  lemma RunAfter(st: ParseState, l: Line, ls: seq<Line>)
    ensures Run(st, [l] + ls) == Run(Step(st, l), ls)
  {
    assert ([l] + ls)[0] == l && ([l] + ls)[1..] == ls;
  }

  // ---------------------------------------------------------------------------------------
  // The correct option

  /** A classified line that sets the correct option. */
  predicate MarkedLine(l: Line)
  {
    l.TextLine? && l.marked
  }

  lemma ClassifyMarked(line: string)
    ensures MarkedLine(Classify(line)) <==> Marked(line)
    ensures Marked(line) ==> Classify(line).text == ContentLine(line)
  {
    if !IsHeader(line) {
      ClassifyText(line);
    }
  }

  /** The position of the last marked line. */
  function LastMarked(ls: seq<Line>): (r: Option<nat>)
    ensures r.Some? ==> r.value < |ls| && MarkedLine(ls[r.value])
    ensures r.Some? ==> forall j | r.value < j < |ls| :: !MarkedLine(ls[j])
    ensures r.None? ==> forall j | 0 <= j < |ls| :: !MarkedLine(ls[j])
  {
    if ls == [] then None
    else if MarkedLine(ls[|ls| - 1]) then Some(|ls| - 1)
    else LastMarked(ls[..|ls| - 1])
  }

  /** The loop leaves the correct option taken from the last marked line, or as it was. */
  lemma {:induction false} RunCorrect(st: ParseState, ls: seq<Line>)
    ensures Run(st, ls).correct ==
      match LastMarked(ls)
      case None => st.correct
      case Some(i) => Some(ls[i].text)
    decreases |ls|
  {
    if ls != [] {
      var p := ls[..|ls| - 1];
      var l := ls[|ls| - 1];
      assert ls == p + [l];
      RunConcat(st, p, [l]);
      RunCorrect(st, p);
      assert Run(Run(st, p), [l]) == Step(Run(st, p), l);
    }
  }

  /** `correct_option` is the last non-header line holding the marker, without the marker
      and stripped, and None when there is no such line. */
  lemma CorrectOptionIsLast(lines: seq<string>)
    ensures ParseLines(lines).1.None? <==> forall j | 0 <= j < |lines| :: !Marked(lines[j])
    ensures ParseLines(lines).1.Some? ==>
      exists i | 0 <= i < |lines| ::
        && Marked(lines[i]) && ParseLines(lines).1.value == ContentLine(lines[i])
        && forall j | i < j < |lines| :: !Marked(lines[j])
  {
    var ls := Classified(lines);
    RunCorrect(START, ls);
    forall j | 0 <= j < |lines| ensures MarkedLine(ls[j]) <==> Marked(lines[j]) {
      ClassifyMarked(lines[j]);
    }
    match LastMarked(ls)
    case None =>
    case Some(i) =>
      ClassifyMarked(lines[i]);
      assert Marked(lines[i]) && ParseLines(lines).1.value == ContentLine(lines[i]);
  }

  // ---------------------------------------------------------------------------------------
  // Validation

  /** `[opt.strip() for opt in options.split('\n') if opt.strip()]` over the pieces. */
  function NonBlankLines(pieces: seq<string>): (r: seq<string>)
    ensures |r| <= |pieces|
    ensures forall k | 0 <= k < |r| :: r[k] != [] && IsStripped(r[k])
  {
    if pieces == [] then []
    else (if Strip(pieces[0]) != [] then [Strip(pieces[0])] else []) + NonBlankLines(pieces[1..])
  }

  function OptionLines(options: string): seq<string>
  {
    NonBlankLines(Split(options, "\n"))
  }

  /** The four required sections are present and not blank. */
  predicate SectionsPresent(sections: map<string, string>)
  {
    forall k | 0 <= k < |REQUIRED| :: REQUIRED[k] in sections && !Blank(sections[REQUIRED[k]])
  }

  /** What `is_valid_question` accepts: the four required sections present and not blank, a
      non-empty correct option, and exactly four non-blank option lines. */
  predicate ValidQuestion(sections: map<string, string>, correctOption: Option<string>)
  {
    && SectionsPresent(sections)
    && correctOption.Some? && correctOption.value != []
    && "options" in sections && |OptionLines(sections["options"])| == 4
  }

  /** The loop of `is_valid_question` over the required sections. */
  method CheckSections(sections: map<string, string>) returns (present: bool)
    ensures present <==> SectionsPresent(sections)
  {
    for i := 0 to |REQUIRED|
      invariant forall k | 0 <= k < i :: REQUIRED[k] in sections && !Blank(sections[REQUIRED[k]])
    {
      var section := REQUIRED[i];
      if section !in sections {
        return false;
      }
      BlankIffStripEmpty(sections[section]);
      if Strip(sections[section]) == [] {
        return false;
      }
    }
    return true;
  }

  /** `is_valid_question`. */
  method IsValidQuestion(sections: map<string, string>, correctOption: Option<string>) returns (valid: bool)
    ensures valid <==> ValidQuestion(sections, correctOption)
  {
    var present := CheckSections(sections);
    if !present {
      return false;
    }
    if correctOption.None? || correctOption.value == [] {
      return false;
    }
    assert REQUIRED[3] == "options";
    var options := OptionLines(sections["options"]);
    if |options| != 4 {
      return false;
    }
    return true;
  }

  // ---------------------------------------------------------------------------------------
  // Generation with retries

  /** The outcome of `generate_question`: the parsed question (with the attempt that gave
      it), the exception of the last attempt re-raised, or the final "Failed to generate a
      valid question after multiple attempts". */
  datatype Generation =
    | Generated(sections: map<string, string>, correctOption: Option<string>, attempt: nat)
    | Reraised(attempt: nat)
    | GaveUp

  /** The question a reply yields, when it parses to a valid one. */
  function Accepted(response: string): Option<(map<string, string>, Option<string>)>
  {
    var parsed := ParseResponse(response);
    if ValidQuestion(parsed.0, parsed.1) then Some(parsed) else None
  }

  /** A model reply that parses to a valid question. */
  predicate ValidReply(r: Option<string>)
  {
    r.Some? && ValidQuestion(ParseResponse(r.value).0, ParseResponse(r.value).1)
  }

  /** The attempts that succeed, as a test on attempt numbers. */
  function Accepts(reply: nat -> Option<string>): nat -> bool
  {
    (a: nat) => ValidReply(reply(a))
  }

  /** The first position in `from .. to-1` where `ok` holds. */
  function FirstWhere(ok: nat -> bool, from: nat, to: int): Option<nat>
    decreases if to <= from then 0 else to - from
  {
    if to <= from then None
    else if ok(from) then Some(from)
    else FirstWhere(ok, from + 1, to)
  }

  /** The first position found holds `ok` with none before it, and there is none exactly
      when `ok` fails throughout the range. */
  lemma {:induction false} FirstWhereMeaning(ok: nat -> bool, from: nat, to: int)
    ensures var r := FirstWhere(ok, from, to);
      r.Some? ==> from <= r.value < to && ok(r.value) && forall b | from <= b < r.value :: !ok(b)
    ensures FirstWhere(ok, from, to).None? <==> forall b | from <= b < to :: !ok(b)
    decreases if to <= from then 0 else to - from
  {
    if from < to && !ok(from) {
      FirstWhereMeaning(ok, from + 1, to);
    }
  }

  /** A failed attempt passes the search on to the next one. */
  lemma FirstWhereSkips(ok: nat -> bool, from: nat, to: int)
    requires from < to && !ok(from)
    ensures FirstWhere(ok, from, to) == FirstWhere(ok, from + 1, to)
  {
  }

  lemma FirstWhereBefore(ok: nat -> bool, from: nat, to: int, a: nat, b: nat)
    requires FirstWhere(ok, from, to) == Some(a) && from <= b < a
    ensures !ok(b)
  {
    FirstWhereMeaning(ok, from, to);
  }

  lemma FirstWhereHit(ok: nat -> bool, from: nat, to: int)
    requires from < to && ok(from)
    ensures FirstWhere(ok, from, to) == Some(from)
  {
  }

  /** The body of one attempt once the model has replied: parse, then validate. */
  method TryReply(response: string) returns (result: Option<(map<string, string>, Option<string>)>)
    ensures result == Accepted(response)
  {
    var sections, correctOption := ParseGeneratedResponse(response);
    var valid := IsValidQuestion(sections, correctOption);
    result := if valid then Some((sections, correctOption)) else None;
  }

  /** `generate_question`: attempts 0 .. maxRetries-1 in order, returning the question of the
      first attempt whose reply parses to a valid one; a failed model call is swallowed
      except on the last attempt, where it is re-raised. The one-second pause between
      attempts is left out. */
  method GenerateQuestion(reply: nat -> Option<string>, maxRetries: int) returns (g: Generation)
    ensures g.Generated? <==> FirstWhere(Accepts(reply), 0, maxRetries).Some?
    ensures g.Generated? ==>
      && FirstWhere(Accepts(reply), 0, maxRetries) == Some(g.attempt) && reply(g.attempt).Some?
      && Accepted(reply(g.attempt).value) == Some((g.sections, g.correctOption))
    ensures g.Reraised? <==>
      && FirstWhere(Accepts(reply), 0, maxRetries).None? && 1 <= maxRetries && reply(maxRetries - 1).None?
    ensures g.Reraised? ==> g.attempt == maxRetries - 1
  {
    var attempt: nat := 0;
    while attempt < maxRetries
      invariant FirstWhere(Accepts(reply), attempt, maxRetries) == FirstWhere(Accepts(reply), 0, maxRetries)
      invariant maxRetries >= 0 ==> attempt <= maxRetries
      invariant 0 < attempt == maxRetries ==> reply(maxRetries - 1).Some?
      decreases maxRetries - attempt
    {
      var response := reply(attempt);
      if response.None? {
        if attempt == maxRetries - 1 {
          return Reraised(attempt);
        }
      } else {
        var result := TryReply(response.value);
        if result.Some? {
          FirstWhereHit(Accepts(reply), attempt, maxRetries);
          return Generated(result.value.0, result.value.1, attempt);
        }
      }
      assert attempt + 1 == maxRetries ==> reply(attempt).Some?;
      FirstWhereSkips(Accepts(reply), attempt, maxRetries);
      attempt := attempt + 1;
    }
    return GaveUp;
  }

  /** The attempt `generate_question` settles on has a reply that parses to a valid
      question. */
  lemma FirstValidAttempt(reply: nat -> Option<string>, maxRetries: int, a: nat)
    requires FirstWhere(Accepts(reply), 0, maxRetries) == Some(a)
    ensures a < maxRetries && ValidReply(reply(a))
  {
    FirstWhereMeaning(Accepts(reply), 0, maxRetries);
    assert Accepts(reply)(a);
  }

  /** Every attempt before the one settled on either failed to reply or replied with an
      invalid question. */
  lemma EarlierAttemptsInvalid(reply: nat -> Option<string>, maxRetries: int, a: nat, b: nat)
    requires FirstWhere(Accepts(reply), 0, maxRetries) == Some(a) && b < a
    ensures !ValidReply(reply(b))
  {
    FirstWhereBefore(Accepts(reply), 0, maxRetries, a, b);
  }

  /** No attempt in range gives a valid question exactly when the search comes back empty. */
  lemma NoValidAttempt(reply: nat -> Option<string>, maxRetries: int)
    ensures FirstWhere(Accepts(reply), 0, maxRetries).None? <==>
      forall b | 0 <= b < maxRetries :: !ValidReply(reply(b))
  {
    FirstWhereMeaning(Accepts(reply), 0, maxRetries);
    forall b | 0 <= b < maxRetries ensures Accepts(reply)(b) == ValidReply(reply(b)) {
    }
  }
}
