/** The transcript structurer of the listening-comprehension app: it cuts a language model's
    reply into `<question>…</question>` blocks, reads the Introduction, Conversation,
    Question and Options sections of each block, keeps the questions that pass a second
    validity check, and saves them to the vector store. The model's reply, the transcript file
    and the store's `add_question` are inputs. The section searches follow the order in which
    Python's `re` tries a match: the first occurrence of the header, the greedy `\s*` and what
    it gives back, the lazy group and the lookahead. */
module StructuredData {
  import opened Base
  import opened Text

  const OPEN := "<question>"
  const CLOSE := "</question>"
  const INTRO := "Introduction:"
  const CONV := "Conversation:"
  const QUEST := "Question:"
  const OPTS := "Options:"

  /** The options used when a block has no (or an empty) Options section. */
  const PLACEHOLDER := "1. 選択肢１\n2. 選択肢２\n3. 選択肢３\n4. 選択肢４"

  /** Words whose presence in the question marks it as needing a picture. */
  const VISUAL_KEYWORDS: seq<string> := ["地図", "マップ", "図", "絵", "写真", "画像"]

  datatype Question = Question(introduction: string, conversation: string, question: string, options: string)

  // ---------------------------------------------------------------------------------------
  // Project paths

  /** Index of the last '/' (Python's `p.rfind('/')`, None for -1). */
  function LastSlash(p: string): (r: Option<nat>)
    ensures r.Some? ==> r.value < |p| && p[r.value] == '/' && forall k | r.value < k < |p| :: p[k] != '/'
    ensures r.None? ==> forall k | 0 <= k < |p| :: p[k] != '/'
  {
    if p == [] then None
    else if p[|p| - 1] == '/' then Some(|p| - 1)
    else LastSlash(p[..|p| - 1])
  }

  predicate AllSlashes(s: string)
  {
    forall k | 0 <= k < |s| :: s[k] == '/'
  }

  /** `s.rstrip('/')`. */
  function TrimSlashes(s: string): (r: string)
    ensures StartsWith(s, r)
    ensures r == [] || r[|r| - 1] != '/'
    ensures forall k | |r| <= k < |s| :: s[k] == '/'
  {
    if s != [] && s[|s| - 1] == '/' then TrimSlashes(s[..|s| - 1]) else s
  }

  /** `os.path.dirname` on POSIX: everything up to the last '/', without trailing slashes
      unless it consists of slashes only. */
  function Dirname(p: string): (r: string)
    ensures StartsWith(p, r)
    ensures r == [] <==> forall k | 0 <= k < |p| :: p[k] != '/'
  {
    match LastSlash(p)
    case None => ""
    case Some(i) =>
      var head := p[..i + 1];
      if AllSlashes(head) then head
      else
        var r := TrimSlashes(head);
        assert r != [] by {
          var k :| 0 <= k < |head| && head[k] != '/';
          assert k < |r|;
        }
        r
  }

  /** `os.path.join(a, b)` for a component `b` that does not start with '/'. */
  function PathJoin(a: string, b: string): string
  {
    if a == [] || EndsWith(a, "/") then a + b else a + "/" + b
  }

  /** The directory that `get_project_paths` treats as the project root. */
  function ProjectRoot(cwd: string): string
  {
    if Contains(cwd, "frontend") then Dirname(cwd)
    else if Contains(cwd, "backend") then Dirname(cwd)
    else cwd
  }

  /** The root as a directory prefix: with a '/' appended unless it is empty or has one. */
  function DirPrefix(root: string): string
  {
    if root == [] || EndsWith(root, "/") then root else root + "/"
  }

  /** Joining onto a path that does not end in '/' inserts one. */
  lemma JoinAfterName(dir: string, name: string)
    requires dir != [] && dir[|dir| - 1] != '/'
    ensures PathJoin(dir, name) == dir + "/" + name
  {
    assert dir[|dir| - 1..] != "/";
  }

  /** Joining `backend`, `data` and a name onto a directory. */
  lemma JoinUnder(root: string, name: string)
    ensures PathJoin(PathJoin(PathJoin(root, "backend"), "data"), name) == DirPrefix(root) + "backend/data/" + name
  {
    var pre := DirPrefix(root);
    var backend := PathJoin(root, "backend");
    assert backend == pre + "backend";
    JoinAfterName(backend, "data");
    var data := backend + "/" + "data";
    JoinAfterName(data, name);
    assert data + "/" + name == pre + ("backend" + "/" + "data" + "/") + name;
    assert "backend" + "/" + "data" + "/" == "backend/data/";
  }

  /** `get_project_paths`: the transcript and question directories under the root's
      `backend/data`. */
  function ProjectPaths(cwd: string): (r: (string, string))
    ensures r.0 == DirPrefix(ProjectRoot(cwd)) + "backend/data/" + "transcripts"
    ensures r.1 == DirPrefix(ProjectRoot(cwd)) + "backend/data/" + "questions"
  {
    var root := ProjectRoot(cwd);
    JoinUnder(root, "transcripts");
    JoinUnder(root, "questions");
    (PathJoin(PathJoin(PathJoin(root, "backend"), "data"), "transcripts"),
     PathJoin(PathJoin(PathJoin(root, "backend"), "data"), "questions"))
  }

  /** Started from `<parent>/frontend` or `<parent>/backend`, the root is the parent. */
  lemma ParentIsRoot(parent: string, name: string)
    requires name == "frontend" || name == "backend"
    requires parent != [] && !AllSlashes(parent) && parent[|parent| - 1] != '/'
    ensures ProjectRoot(parent + "/" + name) == parent
  {
    var p := parent + "/" + name;
    assert OccursAt(p, name, |parent| + 1);
    assert LastSlash(p) == Some(|parent|) by {
      var r := LastSlash(p);
      assert r.Some? by {
        assert p[|parent|] == '/';
      }
      assert r.value >= |parent|;
      assert r.value <= |parent|;
    }
    var head := p[..|parent| + 1];
    assert head == parent + "/";
    assert !AllSlashes(head) by {
      var k :| 0 <= k < |parent| && parent[k] != '/';
      assert head[k] != '/';
    }
    assert TrimSlashes(head) == parent;
    assert Contains(p, "frontend") || Contains(p, "backend") by {
      if name == "frontend" {
        ContainsAt(p, "frontend", |parent| + 1);
      } else {
        ContainsAt(p, "backend", |parent| + 1);
      }
    }
  }

  // ---------------------------------------------------------------------------------------
  // Splitting the reply into blocks

  /** `re.findall(r'<question>(.*?)</question>', text, re.DOTALL)`: from the first opening
      tag, the text up to the nearest closing tag after it; then the same on the rest. An
      opening tag with no closing tag after it ends the search. */
  function Blocks(text: string): seq<string>
    decreases |text|
  {
    match IndexOf(text, OPEN)
    case None => []
    case Some(p) =>
      var body := text[p + |OPEN|..];
      match IndexOf(body, CLOSE)
      case None => []
      case Some(e) => [body[..e]] + Blocks(body[e + |CLOSE|..])
  }

  // ---------------------------------------------------------------------------------------
  // The section searches

  /** Length of the run of whitespace starting at `i`. */
  function WsRun(s: string, i: nat): (n: nat)
    requires i <= |s|
    ensures i + n <= |s|
    decreases |s| - i
  {
    if i < |s| && IsSpace(s[i]) then 1 + WsRun(s, i + 1) else 0
  }

  /** The run is whitespace and stops at the end or at a character that is not. */
  lemma {:induction false} WsRunMeaning(s: string, i: nat)
    requires i <= |s|
    ensures forall k | i <= k < i + WsRun(s, i) :: IsSpace(s[k])
    ensures i + WsRun(s, i) == |s| || !IsSpace(s[i + WsRun(s, i)])
    decreases |s| - i
  {
    if i < |s| && IsSpace(s[i]) {
      WsRunMeaning(s, i + 1);
    }
  }

  /** A whitespace run of length `w` that stops at the end or at a character that is not
      whitespace is the run. */
  lemma {:induction false} WsRunIs(s: string, i: nat, w: nat)
    requires i + w <= |s|
    requires forall k | i <= k < i + w :: IsSpace(s[k])
    requires i + w == |s| || !IsSpace(s[i + w])
    ensures WsRun(s, i) == w
    decreases w
  {
    if w > 0 {
      WsRunIs(s, i + 1, w - 1);
    }
  }

  /** The lookahead `(?=\s*\n\s*Next:)` holds at `e`: `next` begins where the whitespace run
      at `e` ends (its first character is not whitespace), and that run holds a newline. */
  predicate Lookahead(s: string, next: string, e: nat)
    requires e <= |s|
  {
    LookaheadFrom(s, next, e, false)
  }

  /** The lookahead scan from `i`, having seen a newline already when `seen` holds: skip
      whitespace, noting newlines, then `next` must begin. */
  predicate LookaheadFrom(s: string, next: string, i: nat, seen: bool)
    requires i <= |s|
    decreases |s| - i
  {
    if i < |s| && IsSpace(s[i]) then LookaheadFrom(s, next, i + 1, seen || s[i] == '\n')
    else seen && MatchesFrom(s, next, i, 0)
  }

  lemma {:induction false} LookaheadFromMeaning(s: string, next: string, i: nat, seen: bool)
    requires i <= |s|
    ensures var c := i + WsRun(s, i);
      LookaheadFrom(s, next, i, seen) <==> MatchesFrom(s, next, c, 0) && (seen || NewlineWithin(s, i, c))
    decreases |s| - i
  {
    if i < |s| && IsSpace(s[i]) {
      LookaheadFromMeaning(s, next, i + 1, seen || s[i] == '\n');
    }
  }

  /** The lookahead at `e`: `next` begins where the whitespace run at `e` ends, and the run
      holds a newline. */
  lemma LookaheadMeaning(s: string, next: string, e: nat)
    requires e <= |s|
    ensures var c := e + WsRun(s, e);
      Lookahead(s, next, e) <==> OccursAt(s, next, c) && '\n' in s[e..c]
  {
    var c := e + WsRun(s, e);
    LookaheadFromMeaning(s, next, e, false);
    MatchesOccurs(s, next, c);
    NewlineWithinMeaning(s, e, c);
  }

  /** Some character of `s[i..j]` is a newline. */
  predicate NewlineWithin(s: string, i: nat, j: nat)
    requires i <= j <= |s|
    decreases j - i
  {
    i < j && (s[i] == '\n' || NewlineWithin(s, i + 1, j))
  }

  lemma {:induction false} NewlineWithinMeaning(s: string, i: nat, j: nat)
    requires i <= j <= |s|
    ensures NewlineWithin(s, i, j) <==> '\n' in s[i..j]
    decreases j - i
  {
    if i < j {
      NewlineWithinMeaning(s, i + 1, j);
      assert s[i..j] == [s[i]] + s[i + 1..j];
    }
  }

  /** The first position at or after `from` where the lookahead holds. */
  function FirstLookahead(s: string, next: string, from: nat): (r: Option<nat>)
    requires from <= |s|
    ensures r.Some? ==> from <= r.value <= |s|
    decreases |s| - from
  {
    if Lookahead(s, next, from) then Some(from)
    else if from == |s| then None
    else FirstLookahead(s, next, from + 1)
  }

  /** The position found satisfies the lookahead and no earlier one does; None means no
      position from `from` to the end does. */
  lemma {:induction false} FirstLookaheadMeaning(s: string, next: string, from: nat)
    requires from <= |s|
    ensures var r := FirstLookahead(s, next, from);
      r.Some? ==> Lookahead(s, next, r.value) && forall e | from <= e < r.value :: !Lookahead(s, next, e)
    ensures FirstLookahead(s, next, from).None? ==> forall e | from <= e <= |s| :: !Lookahead(s, next, e)
    decreases |s| - from
  {
    if !Lookahead(s, next, from) && from < |s| {
      FirstLookaheadMeaning(s, next, from + 1);
    }
  }

  /** Group 1 of `re.search(r'Header:\s*(.*?)(?=\s*\n\s*Next:)', block, re.DOTALL)`. Only the
      first occurrence of the header can match: a later one starts later and so has fewer
      lookahead positions after it. */
  function SectionGroup(block: string, header: string, next: string): (r: Option<string>)
    ensures r.Some? ==> |r.value| <= |block|
  {
    match IndexOf(block, header)
    case None => None
    case Some(k) => SectionFrom(block, k + |header|, next)
  }

  /** The group matched once the header is known to end at `start`. `\s*` first takes the
      whole whitespace run, up to `g`, and the lazy group ends at the first lookahead position
      from `g` on. When there is none, `\s*` gives characters back one at a time; every
      position inside the run looks ahead to the same place, so the positions of the run
      where the lookahead holds come first, and the group is then empty. A non-empty group
      therefore always starts where the whitespace run ends. */
  function SectionFrom(block: string, start: nat, next: string): (r: Option<string>)
    requires start <= |block|
    ensures r.Some? ==> |r.value| <= |block| - start
  {
    var g := start + WsRun(block, start);
    match FirstLookahead(block, next, g)
    case Some(e) => Some(block[g..e])
    case None => if FirstLookahead(block, next, start).Some? then Some("") else None
  }

  /** The search fails exactly when no position after the header satisfies the lookahead. */
  lemma SectionFails(block: string, start: nat, next: string)
    requires start <= |block|
    ensures SectionFrom(block, start, next).None? <==> forall e | start <= e <= |block| :: !Lookahead(block, next, e)
  {
    var g := start + WsRun(block, start);
    match FirstLookahead(block, next, g)
    case Some(e) =>
      FirstLookaheadMeaning(block, next, g);
      assert start <= e <= |block| && Lookahead(block, next, e);
    case None =>
      FirstLookaheadMeaning(block, next, start);
  }

  /** A non-empty group starts where the whitespace run after the header ends, is followed
      by a lookahead position and holds none: `\s*` gives whitespace back only to yield an
      empty group. */
  lemma SectionText(block: string, start: nat, next: string)
    requires start <= |block|
    ensures var r := SectionFrom(block, start, next);
      r.Some? && r.value != [] ==>
      var g := start + WsRun(block, start);
      && g + |r.value| <= |block| && block[g..g + |r.value|] == r.value
      && Lookahead(block, next, g + |r.value|)
      && forall e | g <= e < g + |r.value| :: !Lookahead(block, next, e)
  {
    var g := start + WsRun(block, start);
    match FirstLookahead(block, next, g)
    case Some(e) =>
      FirstLookaheadMeaning(block, next, g);
      assert SectionFrom(block, start, next) == Some(block[g..e]);
    case None =>
  }

  /** Once the header is found at `k`, the group is the one matched after it. */
  lemma SectionGroupAt(block: string, header: string, next: string, k: nat)
    requires IndexOf(block, header) == Some(k)
    ensures k + |header| <= |block|
    ensures SectionGroup(block, header, next) == SectionFrom(block, k + |header|, next)
  {
  }

  /** The search fails exactly when the header is absent or no position after it satisfies
      the lookahead. */
  lemma SectionMissing(block: string, header: string, next: string)
    ensures SectionGroup(block, header, next).None? <==>
      || IndexOf(block, header).None?
      || forall e | IndexOf(block, header).value + |header| <= e <= |block| :: !Lookahead(block, next, e)
  {
    match IndexOf(block, header)
    case None =>
    case Some(k) =>
      SectionGroupAt(block, header, next, k);
      SectionFails(block, k + |header|, next);
  }

  /** The text between the first "Options:" and the second one (or the end), stripped; ""
      when there is no "Options:". */
  function OptionsText(block: string): (r: string)
    ensures IsStripped(r)
    ensures !Contains(block, OPTS) ==> r == []
  {
    match IndexOf(block, OPTS)
    case None => ""
    case Some(i) =>
      var rest := block[i + |OPTS|..];
      match IndexOf(rest, OPTS)
      case None => Strip(rest)
      case Some(j) => Strip(rest[..j])
  }

  /** Fields as the parser leaves them: stripped, with options never empty. */
  predicate Tidy(q: Question)
  {
    && IsStripped(q.introduction) && IsStripped(q.conversation) && IsStripped(q.question)
    && IsStripped(q.options) && q.options != []
  }

  /** One block of `_parse_gemini_response`: a question when all three of the Introduction,
      Conversation and Question sections are found. */
  function ParseBlock(block: string): (r: Option<Question>)
    ensures r.Some? <==>
      && SectionGroup(block, INTRO, CONV).Some?
      && SectionGroup(block, CONV, QUEST).Some?
      && SectionGroup(block, QUEST, OPTS).Some?
    ensures r.Some? ==> Tidy(r.value)
    ensures r.Some? ==> r.value.options == (if OptionsText(block) == [] then PLACEHOLDER else OptionsText(block))
  {
    var options := OptionsText(block);
    match (SectionGroup(block, INTRO, CONV), SectionGroup(block, CONV, QUEST), SectionGroup(block, QUEST, OPTS))
    case (Some(intro), Some(conv), Some(quest)) =>
      assert IsStripped(PLACEHOLDER);
      Some(Question(Strip(intro), Strip(conv), Strip(quest), if options == [] then PLACEHOLDER else options))
    case _ => None
  }

  /** The questions of the first `|blocks|` blocks, in order. */
  function ParseAll(blocks: seq<string>): (r: seq<Question>)
    ensures |r| <= |blocks|
    ensures forall j | 0 <= j < |r| :: Tidy(r[j])
  {
    if blocks == [] then []
    else
      var last := ParseBlock(blocks[|blocks| - 1]);
      ParseAll(blocks[..|blocks| - 1]) + (if last.Some? then [last.value] else [])
  }

  /** `_parse_gemini_response`: at most one question per block, in block order. */
  method ParseGeminiResponse(responseText: string) returns (questions: seq<Question>)
    ensures questions == ParseAll(Blocks(responseText))
    ensures |questions| <= |Blocks(responseText)|
  {
    var blocks := Blocks(responseText);
    questions := [];
    var i := 0;
    while i < |blocks|
      invariant i <= |blocks|
      invariant questions == ParseAll(blocks[..i])
    {
      assert blocks[..i + 1][..i] == blocks[..i];
      var parsed := ParseBlock(blocks[i]);
      if parsed.Some? {
        questions := questions + [parsed.value];
      }
      i := i + 1;
    }
    assert blocks[..i] == blocks;
  }

  // ---------------------------------------------------------------------------------------
  // Validation

  /** `any(keyword in text for keyword in keywords)`. */
  predicate AnyKeyword(text: string, keywords: seq<string>)
  {
    keywords != [] && (Contains(text, keywords[0]) || AnyKeyword(text, keywords[1..]))
  }

  lemma {:induction false} AnyKeywordMeaning(text: string, keywords: seq<string>)
    ensures AnyKeyword(text, keywords) <==> exists k | 0 <= k < |keywords| :: Contains(text, keywords[k])
  {
    if keywords != [] {
      AnyKeywordMeaning(text, keywords[1..]);
      if AnyKeyword(text, keywords[1..]) {
        var k :| 0 <= k < |keywords| - 1 && Contains(text, keywords[1..][k]);
        assert Contains(text, keywords[k + 1]);
      }
      if k :| 0 < k < |keywords| && Contains(text, keywords[k]) {
        assert Contains(text, keywords[1..][k - 1]);
      }
    }
  }

  predicate HasVisualKeyword(text: string)
  {
    AnyKeyword(text, VISUAL_KEYWORDS)
  }

  /** `_is_valid_question`: introduction, conversation and question are not blank and the
      question names nothing visual; the options are not looked at. */
  predicate IsValidQuestion(q: Question)
  {
    && !Blank(q.introduction) && !Blank(q.conversation) && !Blank(q.question)
    && !HasVisualKeyword(q.question)
  }

  /** A question is rejected exactly when one of its three text fields strips to "" or the
      question contains one of the visual keywords (a map, figure, picture, photo or image). */
  lemma ValidityMeaning(q: Question)
    ensures !IsValidQuestion(q) <==>
      || Strip(q.introduction) == [] || Strip(q.conversation) == [] || Strip(q.question) == []
      || exists k | 0 <= k < |VISUAL_KEYWORDS| :: Contains(q.question, VISUAL_KEYWORDS[k])
  {
    BlankIffStripEmpty(q.introduction);
    BlankIffStripEmpty(q.conversation);
    BlankIffStripEmpty(q.question);
    AnyKeywordMeaning(q.question, VISUAL_KEYWORDS);
  }

  // ---------------------------------------------------------------------------------------
  // Formatting

  /** The options as written out: every "Options:" removed and the rest stripped, when the
      options contain one. */
  function FormatOptions(options: string): (r: string)
    ensures !Contains(options, OPTS) ==> r == options
    ensures Contains(options, OPTS) ==> IsStripped(r) && |r| <= |options| - |OPTS|
  {
    if Contains(options, OPTS) then
      var parts := Split(options, OPTS);
      SplitShrinks(options, OPTS);
      Strip(Join(parts, ""))
    else options
  }

  /** The text `format_question` writes between the tags, built from each header on: the
      Introduction, Conversation and Question sections are each followed by a blank line
      except the Question, which is followed by a single newline. */
  function AfterOptions(q: Question): string
  {
    "\n" + q.options + "\n"
  }

  function AfterQuestion(q: Question): string
  {
    "\n" + q.question + "\n" + OPTS + AfterOptions(q)
  }

  function AfterConversation(q: Question): string
  {
    "\n" + q.conversation + "\n\n" + QUEST + AfterQuestion(q)
  }

  function AfterIntroduction(q: Question): string
  {
    "\n" + q.introduction + "\n\n" + CONV + AfterConversation(q)
  }

  /** The text between `<question>` and `</question>` in `format_question`'s output. */
  function Block(q: Question): string
  {
    "\n" + INTRO + AfterIntroduction(q)
  }

  /** `format_question`: the block, with the options reformatted, between the tags, then a
      blank line. */
  function FormatQuestion(q: Question): string
  {
    OPEN + Block(q.(options := FormatOptions(q.options))) + CLOSE + "\n\n"
  }

  /** Removing the pieces' separator shortens a string by at least one separator. */
  lemma SplitShrinks(s: string, sep: string)
    requires sep != [] && Contains(s, sep)
    ensures |Join(Split(s, sep), "")| <= |s| - |sep|
  {
    var i := IndexOf(s, sep).value;
    var rest := s[i + |sep|..];
    JoinEmptyLength(Split(rest, sep));
    JoinSplit(rest, sep);
    JoinEmptyLength(Split(s, sep));
    assert Split(s, sep) == [s[..i]] + Split(rest, sep);
    assert Split(s, sep)[1..] == Split(rest, sep);
    SumLengthsBound(Split(rest, sep), sep, rest);
  }

  function SumLengths(parts: seq<string>): nat
  {
    if parts == [] then 0 else |parts[0]| + SumLengths(parts[1..])
  }

  lemma {:induction false} JoinEmptyLength(parts: seq<string>)
    ensures |Join(parts, "")| == SumLengths(parts)
  {
    if |parts| > 1 {
      JoinEmptyLength(parts[1..]);
    }
  }

  lemma {:induction false} SumLengthsBound(parts: seq<string>, sep: string, s: string)
    requires sep != [] && Join(parts, sep) == s && parts != []
    ensures SumLengths(parts) <= |s|
  {
    if |parts| > 1 {
      SumLengthsBound(parts[1..], sep, Join(parts[1..], sep));
    }
  }

  // ---------------------------------------------------------------------------------------
  // Round trip: parsing a formatted question gives it back

  predicate NoNewline(pat: string)
  {
    forall k | 0 <= k < |pat| :: pat[k] != '\n'
  }

  /** An occurrence that covers a newline has one. */
  lemma NewlineInside(s: string, pat: string, j: nat, p: nat)
    requires OccursAt(s, pat, j) && j <= p < j + |pat| && s[p] == '\n'
    ensures !NoNewline(pat)
  {
    assert pat[p - j] == s[j..j + |pat|][p - j];
  }

  /** A pattern without a newline cannot straddle a newline. */
  lemma AvoidAcrossNewline(a: string, b: string, pat: string)
    requires NoNewline(pat) && !Contains(a, pat) && !Contains(b, pat)
    ensures !Contains(a + "\n" + b, pat)
  {
    var s := a + "\n" + b;
    if Contains(s, pat) {
      var j := IndexOf(s, pat).value;
      assert s[j..j + |pat|] == pat;
      if j + |pat| <= |a| {
        assert s[..|a|] == a;
        assert a[j..j + |pat|] == s[..|a|][j..j + |pat|];
        ContainsAt(a, pat, j);
      } else if j >= |a| + 1 {
        var t := j - |a| - 1;
        assert s[|a| + 1..] == b;
        assert b[t..t + |pat|] == s[|a| + 1..][t..t + |pat|];
        ContainsAt(b, pat, t);
      } else {
        NewlineInside(s, pat, j, |a|);
      }
    }
  }

  /** A newline-free pattern that `a` avoids is first found just after the newline. */
  lemma FirstAfterNewline(a: string, pat: string, rest: string)
    requires pat != [] && NoNewline(pat) && !Contains(a, pat)
    ensures IndexOf(a + "\n" + pat + rest, pat) == Some(|a| + 1)
  {
    var s := a + "\n" + pat + rest;
    assert s[|a| + 1..|a| + 1 + |pat|] == pat;
    forall j | 0 <= j < |a| + 1 && OccursAt(s, pat, j) ensures false {
      if j + |pat| <= |a| {
        assert a[j..j + |pat|] == s[j..j + |pat|];
        ContainsAt(a, pat, j);
      } else {
        NewlineInside(s, pat, j, |a|);
      }
    }
    assert OccursAt(s, pat, |a| + 1);
    var r := IndexOf(s, pat);
    assert r.Some?;
    assert r.value == |a| + 1;
  }

  lemma FirstCharAbsent(s: string, pat: string)
    requires pat != [] && forall i | 0 <= i < |s| :: s[i] != pat[0]
    ensures !Contains(s, pat)
  {
    forall j | 0 <= j ensures !OccursAt(s, pat, j) {
      if j + |pat| <= |s| {
        assert s[j..j + |pat|][0] == s[j];
      }
    }
  }

  /** An occurrence starting inside `x`, which is followed by a newline, lies inside `x`. */
  lemma OccursWithin(s: string, pat: string, xs: nat, x: string, c: nat)
    requires xs + |x| < |s| && s[xs..xs + |x|] == x && s[xs + |x|] == '\n'
    requires NoNewline(pat) && xs <= c <= xs + |x| && OccursAt(s, pat, c)
    ensures Contains(x, pat)
  {
    if c + |pat| <= xs + |x| {
      var y := x[c - xs..c - xs + |pat|];
      forall k | 0 <= k < |pat| ensures y[k] == pat[k] {
        assert y[k] == x[c - xs + k] == s[xs..xs + |x|][c - xs + k] == s[c + k];
        assert s[c + k] == s[c..c + |pat|][k];
      }
      assert y == pat;
      ContainsAt(x, pat, c - xs);
    } else {
      NewlineInside(s, pat, c, xs + |x|);
    }
  }

  /** The layout the formatter gives one section: the header ends at `start`, a newline
      follows, then the text `x`, then `gap` newlines, then the next header. */
  predicate LaidOut(s: string, start: nat, x: string, gap: nat, next: string)
  {
    && 1 <= gap && start + 1 + |x| + gap <= |s|
    && s[start] == '\n'
    && s[start + 1..start + 1 + |x|] == x
    && (forall k | start + 1 + |x| <= k < start + 1 + |x| + gap :: s[k] == '\n')
    && OccursAt(s, next, start + 1 + |x| + gap)
  }

  /** The lookahead holds just after the text. */
  lemma LookaheadAfterText(s: string, start: nat, x: string, gap: nat, next: string)
    requires LaidOut(s, start, x, gap, next) && next != [] && !IsSpace(next[0])
    ensures Lookahead(s, next, start + 1 + |x|)
  {
    var ex := start + 1 + |x|;
    var c := ex + gap;
    assert s[c] == s[c..c + |next|][0];
    WsRunIs(s, ex, gap);
    LookaheadMeaning(s, next, ex);
    assert s[ex..c][0] == '\n';
  }

  /** With no text, the lookahead already holds right after the header, inside the
      whitespace that `\s*` takes. */
  lemma LookaheadEmptyText(s: string, start: nat, gap: nat, next: string)
    requires LaidOut(s, start, [], gap, next) && next != [] && !IsSpace(next[0])
    ensures Lookahead(s, next, start)
    ensures WsRun(s, start) == 1 + gap
  {
    var c := start + 1 + gap;
    assert s[c] == s[c..c + |next|][0];
    WsRunIs(s, start, 1 + gap);
    LookaheadMeaning(s, next, start);
    assert s[start..c][0] == '\n';
  }

  /** With a stripped, non-empty text that does not contain the next header, no position from
      the header to the end of the text satisfies the lookahead, and `\s*` takes only the
      newline after the header. */
  lemma NoLookaheadInText(s: string, start: nat, x: string, gap: nat, next: string)
    requires LaidOut(s, start, x, gap, next) && next != [] && NoNewline(next)
    requires x != [] && IsStripped(x) && !Contains(x, next)
    ensures WsRun(s, start) == 1
    ensures forall e | start <= e < start + 1 + |x| :: !Lookahead(s, next, e)
  {
    var xs := start + 1;
    var ex := xs + |x|;
    assert s[xs] == s[xs..ex][0];
    assert s[ex - 1] == s[xs..ex][|x| - 1];
    assert s[ex] == '\n';
    WsRunIs(s, start, 1);
    forall e | start <= e < ex ensures !Lookahead(s, next, e) {
      var ce := e + WsRun(s, e);
      WsRunMeaning(s, e);
      assert xs <= ce < ex;
      LookaheadMeaning(s, next, e);
      if OccursAt(s, next, ce) {
        OccursWithin(s, next, xs, x, ce);
      }
    }
  }

  /** The first lookahead position is the one after which no earlier position qualifies. */
  lemma {:induction false} FirstLookaheadIs(s: string, next: string, from: nat, e: nat)
    requires from <= e <= |s| && Lookahead(s, next, e)
    requires forall d | from <= d < e :: !Lookahead(s, next, d)
    ensures FirstLookahead(s, next, from) == Some(e)
    decreases e - from
  {
    if from < e {
      FirstLookaheadIs(s, next, from + 1, e);
    }
  }

  /** A pattern whose first character does not occur again in it, so that two of its
      occurrences cannot overlap. */
  predicate HeadUnique(pat: string)
  {
    pat != [] && pat[0] !in pat[1..]
  }

  /** When `next` occurs at `c` and not in the text after that occurrence, no position from
      `c` on satisfies the lookahead. */
  lemma NoLookaheadFrom(s: string, next: string, c: nat)
    requires OccursAt(s, next, c) && HeadUnique(next) && !IsSpace(next[0])
    requires !Contains(s[c + |next|..], next)
    ensures FirstLookahead(s, next, c).None?
  {
    assert s[c] == s[c..c + |next|][0];
    WsRunIs(s, c, 0);
    forall e | c <= e <= |s| ensures !Lookahead(s, next, e) {
      var ce := e + WsRun(s, e);
      LookaheadMeaning(s, next, e);
      if e == c {
        assert s[e..ce] == [];
      } else if OccursAt(s, next, ce) && ce >= c + |next| {
        var t := s[c + |next|..];
        var j := ce - c - |next|;
        assert t[j..j + |next|] == s[ce..ce + |next|];
        ContainsAt(t, next, j);
      }
    }
    FirstLookaheadMeaning(s, next, c);
  }

  /** An empty section laid out as the formatter writes it is read back as empty when the
      next header does not occur again: `\s*` takes the run up to the next header, finds no
      lookahead there, and gives back one newline. */
  lemma EmptySectionLaidOut(s: string, start: nat, gap: nat, next: string)
    requires LaidOut(s, start, [], gap, next)
    requires HeadUnique(next) && !IsSpace(next[0])
    requires !Contains(s[start + 1 + gap + |next|..], next)
    ensures SectionFrom(s, start, next) == Some([])
  {
    LookaheadEmptyText(s, start, gap, next);
    NoLookaheadFrom(s, next, start + 1 + gap);
    FirstLookaheadIs(s, next, start, start);
  }

  /** A section laid out as the formatter writes it is read back exactly, once its header
      is found. */
  lemma SectionLaidOut(s: string, start: nat, x: string, gap: nat, next: string)
    requires LaidOut(s, start, x, gap, next)
    requires NoNewline(next) && HeadUnique(next) && !IsSpace(next[0])
    requires IsStripped(x) && !Contains(x, next)
    requires x == [] ==> !Contains(s[start + 1 + gap + |next|..], next)
    ensures SectionFrom(s, start, next) == Some(x)
  {
    if x == [] {
      EmptySectionLaidOut(s, start, gap, next);
    } else {
      var e := start + 1 + |x|;
      LookaheadAfterText(s, start, x, gap, next);
      NoLookaheadInText(s, start, x, gap, next);
      FirstLookaheadIs(s, next, start + 1, e);
      assert s[start + 1..e] == x;
    }
  }

  /** The layout of a section written as text before it, a newline, the header, then
      `"\n" + x + gapText + next + after`. */
  lemma SectionShape(before: string, header: string, x: string, gapText: string, next: string, after: string)
    requires gapText == "\n" || gapText == "\n\n"
    ensures var s := before + "\n" + header + ("\n" + x + gapText + next + after);
      LaidOut(s, |before| + 1 + |header|, x, |gapText|, next)
    ensures var s := before + "\n" + header + ("\n" + x + gapText + next + after);
      s[|before| + 1 + |header| + 1 + |x| + |gapText| + |next|..] == after
  {
    var s := before + "\n" + header + ("\n" + x + gapText + next + after);
    var start := |before| + 1 + |header|;
    var tail := "\n" + x + gapText + next + after;
    assert s[start..] == tail;
    assert s[start] == tail[0];
    assert s[start + 1..start + 1 + |x|] == tail[1..1 + |x|] == x;
    forall k | start + 1 + |x| <= k < start + 1 + |x| + |gapText| ensures s[k] == '\n' {
      assert s[k] == tail[k - start] == gapText[k - start - 1 - |x|];
    }
    var c := start + 1 + |x| + |gapText|;
    assert s[c..c + |next|] == tail[c - start..c - start + |next|] == next;
    assert s[c + |next|..] == tail[c - start + |next|..] == after;
  }

  /** What a question must satisfy for its formatted text to parse back to it: stripped
      fields, non-empty options, and no section header or closing tag where the parser would
      take it for the real one. An empty section makes the parser look for its next header
      after the one written (`\s*` runs up to it), so then that header must not occur in
      any later field either. */
  predicate Reparsable(q: Question)
  {
    && IsStripped(q.introduction) && IsStripped(q.conversation) && IsStripped(q.question)
    && IsStripped(q.options) && q.options != []
    && !Contains(q.introduction, CONV) && !Contains(q.introduction, QUEST) && !Contains(q.introduction, OPTS)
    && !Contains(q.conversation, QUEST) && !Contains(q.conversation, OPTS)
    && !Contains(q.question, OPTS) && !Contains(q.options, OPTS)
    && (q.introduction == [] ==>
          !Contains(q.conversation, CONV) && !Contains(q.question, CONV) && !Contains(q.options, CONV))
    && (q.conversation == [] ==> !Contains(q.question, QUEST) && !Contains(q.options, QUEST))
    && !Contains(q.introduction, CLOSE) && !Contains(q.conversation, CLOSE)
    && !Contains(q.question, CLOSE) && !Contains(q.options, CLOSE)
  }

  /** The block up to the newline before "Conversation:", "Question:", "Options:" and the
      closing tag. */
  function Before1(q: Question): string
  {
    "\n" + INTRO + "\n" + q.introduction + "\n"
  }

  function Before2(q: Question): string
  {
    Before1(q) + "\n" + CONV + "\n" + q.conversation + "\n"
  }

  function Before3(q: Question): string
  {
    Before2(q) + "\n" + QUEST + "\n" + q.question
  }

  function Before4(q: Question): string
  {
    Before3(q) + "\n" + OPTS + "\n" + q.options
  }

  lemma BlockAtConversation(q: Question)
    ensures Block(q) == Before1(q) + "\n" + CONV + AfterConversation(q)
  {
    var i := q.introduction;
    assert AfterIntroduction(q) == "\n" + i + "\n\n" + CONV + AfterConversation(q);
    assert "\n\n" == "\n" + "\n";
  }

  lemma BlockAtQuestion(q: Question)
    ensures Block(q) == Before2(q) + "\n" + QUEST + AfterQuestion(q)
  {
    BlockAtConversation(q);
    assert "\n\n" == "\n" + "\n";
  }

  lemma BlockAtOptions(q: Question)
    ensures Block(q) == Before3(q) + "\n" + OPTS + AfterOptions(q)
  {
    BlockAtQuestion(q);
  }

  lemma BlockAtEnd(q: Question)
    ensures Block(q) == Before4(q) + "\n"
  {
    BlockAtOptions(q);
  }

  lemma Before1Avoids(q: Question, pat: string)
    requires pat != [] && NoNewline(pat) && !Contains(INTRO, pat) && !Contains(q.introduction, pat)
    ensures !Contains(Before1(q), pat)
  {
    AvoidAcrossNewline("", INTRO, pat);
    AvoidAcrossNewline("" + "\n" + INTRO, q.introduction, pat);
    AvoidAcrossNewline("" + "\n" + INTRO + "\n" + q.introduction, "", pat);
    assert Before1(q) == "" + "\n" + INTRO + "\n" + q.introduction + "\n" + "";
  }

  lemma Before2Avoids(q: Question, pat: string)
    requires pat != [] && NoNewline(pat) && !Contains(INTRO, pat) && !Contains(q.introduction, pat)
    requires !Contains(CONV, pat) && !Contains(q.conversation, pat)
    ensures !Contains(Before2(q), pat)
  {
    Before1Avoids(q, pat);
    AvoidAcrossNewline(Before1(q), CONV, pat);
    AvoidAcrossNewline(Before1(q) + "\n" + CONV, q.conversation, pat);
    AvoidAcrossNewline(Before1(q) + "\n" + CONV + "\n" + q.conversation, "", pat);
    assert Before2(q) == Before1(q) + "\n" + CONV + "\n" + q.conversation + "\n" + "";
  }

  lemma Before3Avoids(q: Question, pat: string)
    requires pat != [] && NoNewline(pat) && !Contains(INTRO, pat) && !Contains(q.introduction, pat)
    requires !Contains(CONV, pat) && !Contains(q.conversation, pat)
    requires !Contains(QUEST, pat) && !Contains(q.question, pat)
    ensures !Contains(Before3(q), pat)
  {
    Before2Avoids(q, pat);
    AvoidAcrossNewline(Before2(q), QUEST, pat);
    AvoidAcrossNewline(Before2(q) + "\n" + QUEST, q.question, pat);
  }

  lemma Before4Avoids(q: Question, pat: string)
    requires pat != [] && NoNewline(pat) && !Contains(INTRO, pat) && !Contains(q.introduction, pat)
    requires !Contains(CONV, pat) && !Contains(q.conversation, pat)
    requires !Contains(QUEST, pat) && !Contains(q.question, pat)
    requires !Contains(OPTS, pat) && !Contains(q.options, pat)
    ensures !Contains(Before4(q), pat)
  {
    Before3Avoids(q, pat);
    AvoidAcrossNewline(Before3(q), OPTS, pat);
    AvoidAcrossNewline(Before3(q) + "\n" + OPTS, q.options, pat);
  }

  /** `format_question`'s output is the block between the two tags, then a blank line. */
  lemma FormatShape(q: Question)
    requires !Contains(q.options, OPTS)
    ensures FormatQuestion(q) == OPEN + Block(q) + CLOSE + "\n\n"
  {
    assert q.(options := FormatOptions(q.options)) == q;
  }

  /** The headers and tags are single-line and the section headers do not start with
      whitespace. */
  lemma HeadersSingleLine()
    ensures NoNewline(INTRO) && NoNewline(CONV) && NoNewline(QUEST) && NoNewline(OPTS) && NoNewline(CLOSE)
    ensures !IsSpace(CONV[0]) && !IsSpace(QUEST[0]) && !IsSpace(OPTS[0])
    ensures HeadUnique(CONV) && HeadUnique(QUEST) && HeadUnique(OPTS)
  {
  }

  /** No header contains a later one, the closing tag, or (for the trailing blank line) the
      opening tag. */
  lemma HeadersAvoidLater()
    ensures !Contains(INTRO, CONV) && !Contains(INTRO, QUEST) && !Contains(CONV, QUEST)
  {
    IntroductionAvoidsConversation();
    IntroductionAvoidsQuestion();
    ConversationAvoidsQuestion();
  }

  lemma IntroductionAvoidsConversation()
    ensures !Contains(INTRO, CONV)
  {
    FirstCharAbsent(INTRO, CONV);
  }

  lemma IntroductionAvoidsQuestion()
    ensures !Contains(INTRO, QUEST)
  {
    FirstCharAbsent(INTRO, QUEST);
  }

  lemma ConversationAvoidsQuestion()
    ensures !Contains(CONV, QUEST)
  {
    FirstCharAbsent(CONV, QUEST);
  }

  lemma HeadersAvoidOptions()
    ensures !Contains(INTRO, OPTS) && !Contains(CONV, OPTS) && !Contains(QUEST, OPTS)
  {
    IntroductionAvoidsOptions();
    ConversationAvoidsOptions();
    QuestionAvoidsOptions();
  }

  lemma IntroductionAvoidsOptions()
    ensures !Contains(INTRO, OPTS)
  {
    FirstCharAbsent(INTRO, OPTS);
  }

  lemma ConversationAvoidsOptions()
    ensures !Contains(CONV, OPTS)
  {
    FirstCharAbsent(CONV, OPTS);
  }

  lemma QuestionAvoidsOptions()
    ensures !Contains(QUEST, OPTS)
  {
    FirstCharAbsent(QUEST, OPTS);
  }

  lemma HeadersAvoidClose()
    ensures !Contains(INTRO, CLOSE) && !Contains(CONV, CLOSE) && !Contains(QUEST, CLOSE) && !Contains(OPTS, CLOSE)
    ensures !Contains("\n\n", OPEN)
  {
    SectionHeadersAvoidClose();
    OptionsAvoidsClose();
    BlankLineAvoidsOpen();
  }

  lemma BlankLineAvoidsOpen()
    ensures !Contains("\n\n", OPEN)
  {
    FirstCharAbsent("\n\n", OPEN);
  }

  lemma SectionHeadersAvoidClose()
    ensures !Contains(INTRO, CLOSE) && !Contains(CONV, CLOSE) && !Contains(QUEST, CLOSE)
  {
    IntroductionAvoidsClose();
    ConversationAvoidsClose();
    QuestionAvoidsClose();
  }

  lemma ConversationAvoidsClose()
    ensures !Contains(CONV, CLOSE)
  {
    FirstCharAbsent(CONV, CLOSE);
  }

  lemma QuestionAvoidsClose()
    ensures !Contains(QUEST, CLOSE)
  {
    FirstCharAbsent(QUEST, CLOSE);
  }

  lemma IntroductionAvoidsClose()
    ensures !Contains(INTRO, CLOSE)
  {
    FirstCharAbsent(INTRO, CLOSE);
  }

  lemma OptionsAvoidsClose()
    ensures !Contains(OPTS, CLOSE)
  {
    FirstCharAbsent(OPTS, CLOSE);
  }

  /** A text holding one block, whose closing tag is the first one, yields that block. */
  lemma OneBlock(b: string, tail: string)
    requires IndexOf(b + CLOSE + tail, CLOSE) == Some(|b|) && !Contains(tail, OPEN)
    ensures Blocks(OPEN + b + CLOSE + tail) == [b]
  {
    var body := b + CLOSE + tail;
    assert OPEN + b + CLOSE + tail == OPEN + body;
    OpenAtStart(body);
    BlocksStep(OPEN + body, body);
    assert body[..|b|] == b;
    assert body[|b| + |CLOSE|..] == tail;
    NoBlocks(tail);
  }

  /** A text whose first opening tag is at its start, followed by `body`: the first block is
      `body` up to its first closing tag, and the search goes on after that tag. */
  lemma BlocksStep(text: string, body: string)
    requires IndexOf(text, OPEN) == Some(0) && text[|OPEN|..] == body
    ensures Blocks(text) == match IndexOf(body, CLOSE)
      case None => []
      case Some(e) => [body[..e]] + Blocks(body[e + |CLOSE|..])
  {
  }

  /** A text that starts with the opening tag has its first one at 0. */
  lemma OpenAtStart(rest: string)
    ensures IndexOf(OPEN + rest, OPEN) == Some(0)
    ensures (OPEN + rest)[|OPEN|..] == rest
  {
    assert (OPEN + rest)[..|OPEN|] == OPEN;
  }

  /** A text without an opening tag holds no block. */
  lemma NoBlocks(text: string)
    requires !Contains(text, OPEN)
    ensures Blocks(text) == []
  {
  }

  /** The formatted text holds exactly one block, the formatted one. */
  lemma FormattedBlocks(q: Question)
    requires Reparsable(q)
    ensures Blocks(FormatQuestion(q)) == [Block(q)]
  {
    HeadersSingleLine();
    HeadersAvoidClose();
    FormatShape(q);
    Before4Avoids(q, CLOSE);
    BlockAtEnd(q);
    FirstAfterNewline(Before4(q), CLOSE, "\n\n");
    assert Block(q) + CLOSE + "\n\n" == Before4(q) + "\n" + CLOSE + "\n\n";
    OneBlock(Block(q), "\n\n");
  }

  /** The options read back from a block whose only "Options:" is followed by a stripped
      text on its own line. */
  lemma OptionsLaidOut(before: string, x: string)
    requires !Contains(before, OPTS) && IsStripped(x) && !Contains(x, OPTS) && NoNewline(OPTS)
    ensures OptionsText(before + "\n" + OPTS + ("\n" + x + "\n")) == x
  {
    var b := before + "\n" + OPTS + ("\n" + x + "\n");
    FirstAfterNewline(before, OPTS, "\n" + x + "\n");
    assert b[|before| + 1 + |OPTS|..] == "\n" + x + "\n";
    AvoidAcrossNewline("", x, OPTS);
    AvoidAcrossNewline("" + "\n" + x, "", OPTS);
    assert "\n" + x + "\n" == "" + "\n" + x + "\n" + "";
    StripPadded(x);
  }

  /** The Options section of the formatted block is the options. */
  lemma FormattedOptions(q: Question)
    requires Reparsable(q)
    ensures OptionsText(Block(q)) == q.options
  {
    HeadersSingleLine();
    HeadersAvoidOptions();
    Before3Avoids(q, OPTS);
    BlockAtOptions(q);
    OptionsLaidOut(Before3(q), q.options);
  }

  /** A section written as the formatter writes it, after text that does not contain its
      header, is read back exactly. */
  lemma SectionWritten(before: string, header: string, x: string, gapText: string, next: string, after: string)
    requires gapText == "\n" || gapText == "\n\n"
    requires header != [] && NoNewline(header) && !Contains(before, header)
    requires NoNewline(next) && HeadUnique(next) && !IsSpace(next[0])
    requires IsStripped(x) && !Contains(x, next)
    requires x == [] ==> !Contains(after, next)
    ensures SectionGroup(before + "\n" + header + ("\n" + x + gapText + next + after), header, next) == Some(x)
  {
    var s := before + "\n" + header + ("\n" + x + gapText + next + after);
    WrittenLayout(before, header, x, gapText, next, after);
    HeaderThenLaidOut(s, header, |before| + 1, x, |gapText|, next);
  }

  /** Where the header and the section's parts sit in a section written as the formatter
      writes it, after text that does not contain the header. */
  lemma WrittenLayout(before: string, header: string, x: string, gapText: string, next: string, after: string)
    requires gapText == "\n" || gapText == "\n\n"
    requires header != [] && NoNewline(header) && !Contains(before, header)
    requires x == [] ==> !Contains(after, next)
    ensures var s := before + "\n" + header + ("\n" + x + gapText + next + after);
      && IndexOf(s, header) == Some(|before| + 1)
      && LaidOut(s, |before| + 1 + |header|, x, |gapText|, next)
      && (x == [] ==> !Contains(s[|before| + 1 + |header| + 1 + |x| + |gapText| + |next|..], next))
  {
    FirstAfterNewline(before, header, "\n" + x + gapText + next + after);
    SectionShape(before, header, x, gapText, next, after);
  }

  /** A section laid out after the first occurrence of its header is the group found. */
  lemma HeaderThenLaidOut(s: string, header: string, k: nat, x: string, gap: nat, next: string)
    requires IndexOf(s, header) == Some(k)
    requires LaidOut(s, k + |header|, x, gap, next)
    requires NoNewline(next) && HeadUnique(next) && !IsSpace(next[0])
    requires IsStripped(x) && !Contains(x, next)
    requires x == [] ==> !Contains(s[k + |header| + 1 + |x| + gap + |next|..], next)
    ensures SectionGroup(s, header, next) == Some(x)
  {
    SectionGroupAt(s, header, next, k);
    SectionLaidOut(s, k + |header|, x, gap, next);
  }

  /** The later headers do not contain the earlier ones. */
  lemma LaterHeadersAvoidEarlier()
    ensures !Contains(QUEST, CONV) && !Contains(OPTS, CONV) && !Contains(OPTS, QUEST)
  {
    FirstCharAbsent(QUEST, CONV);
    FirstCharAbsent(OPTS, CONV);
    FirstCharAbsent(OPTS, QUEST);
  }

  /** The text after the Options header avoids a single-line pattern the options avoid. */
  lemma AfterOptionsAvoids(q: Question, pat: string)
    requires pat != [] && NoNewline(pat) && !Contains(q.options, pat)
    ensures !Contains(AfterOptions(q), pat)
  {
    AvoidAcrossNewline("", q.options, pat);
    AvoidAcrossNewline("" + "\n" + q.options, "", pat);
    assert AfterOptions(q) == "" + "\n" + q.options + "\n" + "";
  }

  /** The text after the Question header avoids a single-line pattern that neither the
      question, "Options:" nor the options contain. */
  lemma AfterQuestionAvoids(q: Question, pat: string)
    requires pat != [] && NoNewline(pat)
    requires !Contains(q.question, pat) && !Contains(OPTS, pat) && !Contains(q.options, pat)
    ensures !Contains(AfterQuestion(q), pat)
  {
    AvoidAcrossNewline("", q.question, pat);
    AvoidAcrossNewline("" + "\n" + q.question, OPTS, pat);
    AvoidAcrossNewline("" + "\n" + q.question + "\n" + OPTS, q.options, pat);
    AvoidAcrossNewline("" + "\n" + q.question + "\n" + OPTS + "\n" + q.options, "", pat);
    assert AfterQuestion(q) == "" + "\n" + q.question + "\n" + OPTS + "\n" + q.options + "\n" + "";
  }

  /** The text after the Conversation header avoids a single-line pattern that none of the
      later fields and headers contain. */
  lemma AfterConversationAvoids(q: Question, pat: string)
    requires pat != [] && NoNewline(pat) && !Contains(q.conversation, pat) && !Contains(QUEST, pat)
    requires !Contains(q.question, pat) && !Contains(OPTS, pat) && !Contains(q.options, pat)
    ensures !Contains(AfterConversation(q), pat)
  {
    var b := q.question + "\n" + OPTS + "\n" + q.options + "\n";
    QuestionTailAvoids(q, pat);
    var a := ConversationHead(q);
    ConversationHeadAvoids(q, pat);
    AvoidAcrossNewline(a, b, pat);
    assert AfterConversation(q) == a + "\n" + b;
  }

  /** The text after the Conversation header up to the Question header. */
  function ConversationHead(q: Question): string
  {
    "" + "\n" + q.conversation + "\n" + "" + "\n" + QUEST
  }

  lemma ConversationHeadAvoids(q: Question, pat: string)
    requires pat != [] && NoNewline(pat) && !Contains(q.conversation, pat) && !Contains(QUEST, pat)
    ensures !Contains(ConversationHead(q), pat)
  {
    AvoidAcrossNewline("", q.conversation, pat);
    AvoidAcrossNewline("" + "\n" + q.conversation, "", pat);
    AvoidAcrossNewline("" + "\n" + q.conversation + "\n" + "", QUEST, pat);
  }

  lemma QuestionTailAvoids(q: Question, pat: string)
    requires pat != [] && NoNewline(pat)
    requires !Contains(q.question, pat) && !Contains(OPTS, pat) && !Contains(q.options, pat)
    ensures !Contains(q.question + "\n" + OPTS + "\n" + q.options + "\n", pat)
  {
    AvoidAcrossNewline(q.question, OPTS, pat);
    AvoidAcrossNewline(q.question + "\n" + OPTS, q.options, pat);
    AvoidAcrossNewline(q.question + "\n" + OPTS + "\n" + q.options, "", pat);
    assert q.question + "\n" + OPTS + "\n" + q.options + "\n" == q.question + "\n" + OPTS + "\n" + q.options + "\n" + "";
  }

  /** The Introduction section of the formatted block. */
  lemma FormattedIntroduction(q: Question)
    requires Reparsable(q)
    ensures SectionGroup(Block(q), INTRO, CONV) == Some(q.introduction)
  {
    HeadersSingleLine();
    if q.introduction == [] {
      LaterHeadersAvoidEarlier();
      AfterConversationAvoids(q, CONV);
    }
    assert Block(q) == "" + "\n" + INTRO + AfterIntroduction(q);
    SectionWritten("", INTRO, q.introduction, "\n\n", CONV, AfterConversation(q));
  }

  /** The Conversation section of the formatted block. */
  lemma FormattedConversation(q: Question)
    requires Reparsable(q)
    ensures SectionGroup(Block(q), CONV, QUEST) == Some(q.conversation)
  {
    HeadersSingleLine();
    HeadersAvoidLater();
    if q.conversation == [] {
      LaterHeadersAvoidEarlier();
      AfterQuestionAvoids(q, QUEST);
    }
    Before1Avoids(q, CONV);
    BlockAtConversation(q);
    SectionWritten(Before1(q), CONV, q.conversation, "\n\n", QUEST, AfterQuestion(q));
  }

  /** The Question section of the formatted block. */
  lemma FormattedQuestionText(q: Question)
    requires Reparsable(q)
    ensures SectionGroup(Block(q), QUEST, OPTS) == Some(q.question)
  {
    HeadersSingleLine();
    HeadersAvoidLater();
    if q.question == [] {
      AfterOptionsAvoids(q, OPTS);
    }
    Before2Avoids(q, QUEST);
    BlockAtQuestion(q);
    SectionWritten(Before2(q), QUEST, q.question, "\n", OPTS, AfterOptions(q));
  }

  /** The block written for a question parses to that question. */
  lemma FormattedBlockParses(q: Question)
    requires Reparsable(q)
    ensures ParseBlock(Block(q)) == Some(q)
  {
    FormattedIntroduction(q);
    FormattedConversation(q);
    FormattedQuestionText(q);
    FormattedOptions(q);
    StripOfStripped(q.introduction);
    StripOfStripped(q.conversation);
    StripOfStripped(q.question);
  }

  /** Stripping a stripped text wrapped in newlines gives it back. */
  lemma StripPadded(x: string)
    requires IsStripped(x)
    ensures Strip("\n" + x + "\n") == x
  {
    var s := "\n" + x + "\n";
    if x == [] {
      StripEmpty(s);
    } else {
      assert s[1..] == x + "\n";
      assert TrimStart(s) == x + "\n" by {
        assert TrimStart(s) == TrimStart(s[1..]);
      }
      assert (x + "\n")[..|x|] == x;
      assert TrimEnd(x + "\n") == TrimEnd(x);
      assert TrimEnd(x) == x;
    }
  }

  /** Round trip: a question with stripped fields, non-empty options and no stray headers or
      closing tag is parsed back from its formatted text as exactly itself. */
  lemma FormatThenParse(q: Question)
    requires Reparsable(q)
    ensures ParseAll(Blocks(FormatQuestion(q))) == [q]
  {
    FormattedBlocks(q);
    FormattedBlockParses(q);
    assert ParseAll([Block(q)]) == ParseAll([]) + [q];
  }

  // ---------------------------------------------------------------------------------------
  // Saving and processing

  /** Whether one of the first `n` questions is valid and added. */
  predicate AnyAdded(questions: seq<Question>, addSucceeds: nat -> bool, n: nat)
    requires n <= |questions|
  {
    n > 0 && (AnyAdded(questions, addSucceeds, n - 1) || (IsValidQuestion(questions[n - 1]) && addSucceeds(n - 1)))
  }

  lemma {:induction false} AnyAddedMeaning(questions: seq<Question>, addSucceeds: nat -> bool, n: nat)
    requires n <= |questions|
    ensures AnyAdded(questions, addSucceeds, n) <==>
      exists i | 0 <= i < n :: IsValidQuestion(questions[i]) && addSucceeds(i)
  {
    if n > 0 {
      AnyAddedMeaning(questions, addSucceeds, n - 1);
    }
  }

  /** `save_questions`: false for an empty list; otherwise every valid question is offered to
      the vector store, where `addSucceeds(i)` says whether adding question `i` succeeds, and
      the result is whether at least one was added. */
  method SaveQuestions(questions: seq<Question>, addSucceeds: nat -> bool) returns (ok: bool)
    ensures ok <==> exists i | 0 <= i < |questions| :: IsValidQuestion(questions[i]) && addSucceeds(i)
    ensures questions == [] ==> !ok
  {
    if questions == [] {
      return false;
    }
    var saved := 0;
    var i := 0;
    while i < |questions|
      invariant i <= |questions|
      invariant saved > 0 <==> AnyAdded(questions, addSucceeds, i)
    {
      if IsValidQuestion(questions[i]) && addSucceeds(i) {
        saved := saved + 1;
      }
      i := i + 1;
    }
    AnyAddedMeaning(questions, addSucceeds, |questions|);
    return saved > 0;
  }

  /** `process_transcript`: an empty (or unreadable) transcript gives (False, []); otherwise the
      model's reply (None where the call fails, giving no questions) is parsed, the invalid
      questions are dropped, and the rest are saved. */
  method ProcessTranscript(transcript: string, reply: Option<string>, addSucceeds: nat -> bool)
    returns (success: bool, valid: seq<Question>)
    ensures transcript == [] ==> !success && valid == []
    ensures forall j | 0 <= j < |valid| :: IsValidQuestion(valid[j]) && Tidy(valid[j])
    ensures transcript != [] ==>
      valid == Filter(if reply.Some? then ParseAll(Blocks(reply.value)) else [], IsValidQuestion)
    ensures success <==> exists i | 0 <= i < |valid| :: addSucceeds(i)
  {
    if transcript == [] {
      return false, [];
    }
    var questions: seq<Question> := [];
    if reply.Some? {
      questions := ParseGeminiResponse(reply.value);
    }
    valid := Filter(questions, IsValidQuestion);
    forall j | 0 <= j < |valid| ensures IsValidQuestion(valid[j]) && Tidy(valid[j]) {
      assert valid[j] in questions;
    }
    success := SaveQuestions(valid, addSucceeds);
  }
}
