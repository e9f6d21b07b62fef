/** String operations with the semantics of Python's `str` methods (and JavaScript's
    `String.prototype.split` for a non-empty separator), over Dafny's Unicode `char`,
    so that `|s|` is the code-point length Python's `len` reports. */
module Text {
  import opened Base

  /** Python's `str.isspace` for one character; `re`'s `\s` and `str.strip()` use the same set. */
  predicate IsSpace(c: char)
  {
    if c <= ' ' then ('\t' <= c <= '\r') || ('\U{1C}' <= c)
    else
      || c == '\U{85}' || c == '\U{A0}' || c == '\U{1680}' || ('\U{2000}' <= c <= '\U{200A}')
      || c == '\U{2028}' || c == '\U{2029}' || c == '\U{202F}' || c == '\U{205F}' || c == '\U{3000}'
  }

  function TrimStart(s: string): (r: string)
    ensures |r| <= |s| && r == s[|s| - |r|..]
    ensures r == [] || !IsSpace(r[0])
    ensures forall i | 0 <= i < |s| - |r| :: IsSpace(s[i])
  {
    if s != [] && IsSpace(s[0]) then TrimStart(s[1..]) else s
  }

  function TrimEnd(s: string): (r: string)
    ensures |r| <= |s| && r == s[..|r|]
    ensures r == [] || !IsSpace(r[|r| - 1])
    ensures forall i | |r| <= i < |s| :: IsSpace(s[i])
  {
    if s != [] && IsSpace(s[|s| - 1]) then TrimEnd(s[..|s| - 1]) else s
  }

  /** Neither end is whitespace. */
  predicate IsStripped(s: string)
  {
    s == [] || (!IsSpace(s[0]) && !IsSpace(s[|s| - 1]))
  }

  /** Python's `s.strip()`. */
  function Strip(s: string): (r: string)
    ensures IsStripped(r)
    ensures |r| <= |s|
  {
    var t := TrimStart(s);
    var r := TrimEnd(t);
    assert r == [] || r[0] == t[0];
    r
  }

  lemma StripOfStripped(s: string)
    requires IsStripped(s)
    ensures Strip(s) == s
  {
  }

  /** Strip yields "" exactly when every character is whitespace (Python's `not s.strip()`). */
  lemma StripEmpty(s: string)
    ensures Strip(s) == [] <==> forall i | 0 <= i < |s| :: IsSpace(s[i])
  {
    var t := TrimStart(s);
    if t != [] {
      assert !IsSpace(s[|s| - |t|]);
      assert TrimEnd(t) != [] by {
        assert !IsSpace(t[0]);
      }
    }
  }

  /** Leading whitespace in front of a stripped string is what `strip` removes. */
  lemma StripIndented(ws: string, s: string)
    requires forall i | 0 <= i < |ws| :: IsSpace(ws[i])
    requires IsStripped(s) && s != []
    ensures Strip(ws + s) == s
  {
    TrimIndented(ws, s);
  }

  lemma {:induction false} TrimIndented(ws: string, s: string)
    requires forall i | 0 <= i < |ws| :: IsSpace(ws[i])
    requires s != [] && !IsSpace(s[0])
    ensures TrimStart(ws + s) == s
  {
    if ws != [] {
      assert (ws + s)[1..] == ws[1..] + s;
      TrimIndented(ws[1..], s);
    }
  }

  /** Every character is whitespace (Python's `not s.strip()`), checked left to right. */
  predicate Blank(s: string)
  {
    s == [] || (IsSpace(s[0]) && Blank(s[1..]))
  }

  lemma {:induction false} BlankIffStripEmpty(s: string)
    ensures Blank(s) <==> Strip(s) == []
  {
    StripEmpty(s);
    if s != [] {
      BlankIffStripEmpty(s[1..]);
      StripEmpty(s[1..]);
    }
  }

  predicate StartsWith(s: string, prefix: string)
  {
    |prefix| <= |s| && s[..|prefix|] == prefix
  }

  predicate EndsWith(s: string, suffix: string)
  {
    |suffix| <= |s| && s[|s| - |suffix|..] == suffix
  }

  /** `pat` occurs in `s` starting at index `i`. */
  predicate OccursAt(s: string, pat: string, i: int)
  {
    0 <= i && i + |pat| <= |s| && s[i..i + |pat|] == pat
  }

  lemma OccursShift(s: string, pat: string, j: int)
    requires s != [] && 0 <= j
    ensures OccursAt(s[1..], pat, j) <==> OccursAt(s, pat, j + 1)
  {
    if 0 <= j && j + |pat| <= |s| - 1 {
      assert s[1..][j..j + |pat|] == s[j + 1..j + 1 + |pat|];
    }
  }

  /** `pat[j..]` occurs in `s` at `c + j`, compared one character at a time. */
  predicate MatchesFrom(s: string, pat: string, c: nat, j: nat)
    decreases |pat| - j
  {
    if j >= |pat| then c + |pat| <= |s|
    else c + j < |s| && s[c + j] == pat[j] && MatchesFrom(s, pat, c, j + 1)
  }

  lemma {:induction false} MatchesFromMeaning(s: string, pat: string, c: nat, j: nat)
    requires j <= |pat|
    ensures MatchesFrom(s, pat, c, j) <==> c + |pat| <= |s| && forall i | j <= i < |pat| :: s[c + i] == pat[i]
    decreases |pat| - j
  {
    if j < |pat| {
      MatchesFromMeaning(s, pat, c, j + 1);
    }
  }

  /** The character-wise match is `OccursAt`. */
  lemma MatchesOccurs(s: string, pat: string, c: nat)
    ensures MatchesFrom(s, pat, c, 0) <==> OccursAt(s, pat, c)
  {
    MatchesFromMeaning(s, pat, c, 0);
    if c + |pat| <= |s| && forall i | 0 <= i < |pat| :: s[c + i] == pat[i] {
      assert s[c..c + |pat|] == pat;
    }
  }

  /** Index of the first occurrence of `pat` in `s` at or after `i`. */
  function IndexFrom(s: string, pat: string, i: nat): (r: Option<nat>)
    ensures r.Some? ==> i <= r.value && OccursAt(s, pat, r.value)
    ensures r.Some? ==> forall j | i <= j < r.value :: !OccursAt(s, pat, j)
    ensures r.None? ==> forall j | i <= j :: !OccursAt(s, pat, j)
    decreases |s| - i
  {
    if |s| < i + |pat| then None
    else if MatchesFrom(s, pat, i, 0) then MatchesOccurs(s, pat, i); Some(i)
    else MatchesOccurs(s, pat, i); IndexFrom(s, pat, i + 1)
  }

  /** Index of the first occurrence of `pat` in `s` (Python's `s.find(pat)`, None for -1). */
  function IndexOf(s: string, pat: string): (r: Option<nat>)
    ensures r.Some? ==> OccursAt(s, pat, r.value)
    ensures r.Some? ==> forall j | 0 <= j < r.value :: !OccursAt(s, pat, j)
    ensures r.None? ==> forall j :: !OccursAt(s, pat, j)
  {
    IndexFrom(s, pat, 0)
  }

  /** Python's `pat in s`. */
  predicate Contains(s: string, pat: string)
  {
    IndexOf(s, pat).Some?
  }

  lemma ContainsAt(s: string, pat: string, i: int)
    requires OccursAt(s, pat, i)
    ensures Contains(s, pat)
  {
  }

  /** An occurrence inside a slice is an occurrence in the whole string. */
  lemma OccursInSlice(s: string, pat: string, lo: int, hi: int, j: int)
    requires 0 <= lo <= hi <= |s|
    requires OccursAt(s[lo..hi], pat, j)
    ensures OccursAt(s, pat, lo + j)
  {
    assert 0 <= j && j + |pat| <= hi - lo;
    var t := s[lo..hi];
    var u := t[j..j + |pat|];
    var v := s[lo + j..lo + j + |pat|];
    forall k | 0 <= k < |pat| ensures u[k] == v[k] {
      assert t[j + k] == s[lo + j + k];
    }
    assert u == v;
  }

  /** Python's `s.split(sep)` (and JavaScript's `s.split(sep)`) for a non-empty separator. */
  function Split(s: string, sep: string): (r: seq<string>)
    requires sep != []
    ensures |r| >= 1
    decreases |s|
  {
    match IndexOf(s, sep)
    case None => [s]
    case Some(i) => [s[..i]] + Split(s[i + |sep|..], sep)
  }

  /** No piece contains the separator. */
  lemma {:induction false} SplitPiecesAvoid(s: string, sep: string)
    requires sep != []
    ensures forall k | 0 <= k < |Split(s, sep)| :: !Contains(Split(s, sep)[k], sep)
    decreases |s|
  {
    match IndexOf(s, sep)
    case None =>
    case Some(i) =>
      assert !Contains(s[..i], sep) by {
        if Contains(s[..i], sep) {
          var j := IndexOf(s[..i], sep).value;
          OccursInSlice(s, sep, 0, i, j);
        }
      }
      SplitPiecesAvoid(s[i + |sep|..], sep);
      var rest := Split(s[i + |sep|..], sep);
      assert Split(s, sep) == [s[..i]] + rest;
      forall k | 1 <= k < |Split(s, sep)| ensures Split(s, sep)[k] == rest[k - 1] {
      }
  }

  /** Python's `sep.join(parts)`. */
  function Join(parts: seq<string>, sep: string): string
  {
    if |parts| == 0 then ""
    else if |parts| == 1 then parts[0]
    else parts[0] + sep + Join(parts[1..], sep)
  }

  lemma {:induction false} JoinSplit(s: string, sep: string)
    requires sep != []
    ensures Join(Split(s, sep), sep) == s
    decreases |s|
  {
    match IndexOf(s, sep)
    case None =>
    case Some(i) =>
      var head, tail := s[..i], s[i + |sep|..];
      var rest := Split(tail, sep);
      JoinSplit(tail, sep);
      assert Split(s, sep) == [head] + rest;
      JoinCons(head, rest, sep);
      assert s[i..i + |sep|] == sep;
      assert s == head + sep + tail;
  }

  lemma JoinCons(head: string, rest: seq<string>, sep: string)
    requires rest != []
    ensures Join([head] + rest, sep) == head + sep + Join(rest, sep)
  {
    assert ([head] + rest)[1..] == rest;
  }

  /** Python's `s.replace(target, repl)`: every non-overlapping occurrence, left to right. */
  function Replace(s: string, target: string, repl: string): string
    requires target != []
  {
    Join(Split(s, target), repl)
  }

  lemma ReplaceAbsent(s: string, target: string, repl: string)
    requires target != []
    requires !Contains(s, target)
    ensures Replace(s, target, repl) == s
  {
  }

  /** The number of occurrences of character `c` in `s`. */
  function CountChar(s: string, c: char): nat
  {
    Count(s, (x: char) => x == c)
  }

  lemma CountCharConcat(a: string, b: string, c: char)
    ensures CountChar(a + b, c) == CountChar(a, c) + CountChar(b, c)
  {
    CountConcat(a, b, (x: char) => x == c);
  }

  lemma CountCharAbsent(s: string, c: char)
    requires c !in s
    ensures CountChar(s, c) == 0
  {
  }

  /** A character that does not occur at `k` as a one-character pattern is not `s[k]`. */
  lemma CharNotAt(s: string, c: char, k: nat)
    requires k < |s| && !OccursAt(s, [c], k)
    ensures s[k] != c
  {
    assert s[k..k + 1] == [s[k]];
  }

  /** Splitting on one character yields one more piece than there are occurrences of it. */
  lemma {:induction false} SplitCharCount(s: string, c: char)
    ensures |Split(s, [c])| == CountChar(s, c) + 1
    decreases |s|
  {
    match IndexOf(s, [c])
    case None =>
      forall i | 0 <= i < |s| ensures s[i] != c {
        CharNotAt(s, c, i);
      }
    case Some(i) =>
      SplitCharCount(s[i + 1..], c);
      assert s == s[..i] + [c] + s[i + 1..];
      forall k | 0 <= k < i ensures s[..i][k] != c {
        CharNotAt(s, c, k);
      }
      CountConcat(s[..i] + [c], s[i + 1..], (x: char) => x == c);
      CountConcat(s[..i], [c], (x: char) => x == c);
  }

  /** Python's `str.lower()` restricted to ASCII letters. */
  function LowerChar(c: char): char
  {
    if 'A' <= c <= 'Z' then (c as int + 32) as char else c
  }

  function Lower(s: string): (r: string)
    ensures |r| == |s|
    ensures forall i | 0 <= i < |s| :: r[i] == LowerChar(s[i])
  {
    if s == [] then [] else [LowerChar(s[0])] + Lower(s[1..])
  }

  function DigitChar(d: nat): char
    requires d < 10
  {
    "0123456789"[d]
  }

  predicate IsDigit(c: char)
  {
    '0' <= c <= '9'
  }

  /** Decimal rendering of a natural number (Python's `str(n)`, JavaScript's `${n}`). */
  function NatToString(n: nat): (r: string)
    ensures r != []
    ensures forall i | 0 <= i < |r| :: IsDigit(r[i])
    decreases n
  {
    if n < 10 then [DigitChar(n)] else NatToString(n / 10) + [DigitChar(n % 10)]
  }

  /** Reads a decimal number back (Python's `int(s)` on digit strings). */
  function ParseNat(s: string): nat
    requires forall i | 0 <= i < |s| :: IsDigit(s[i])
  {
    if s == [] then 0
    else
      assert IsDigit(s[|s| - 1]);
      ParseNat(s[..|s| - 1]) * 10 + (s[|s| - 1] as int - '0' as int)
  }

  /** Decimal text of an integer, with a leading '-' when negative, as JavaScript's
      `String(n)` and SQLite's integer-to-text conversion write it. */
  function IntText(n: int): (r: string)
    ensures r != [] && (r[0] == '-' <==> n < 0)
    ensures n >= 0 ==> (forall i | 0 <= i < |r| :: IsDigit(r[i])) && ParseNat(r) == n
    ensures n < 0 ==> (forall i | 1 <= i < |r| :: IsDigit(r[i])) && ParseNat(r[1..]) == -n
  {
    if n < 0 then
      ParseNatToString(-n);
      assert ("-" + NatToString(-n))[1..] == NatToString(-n);
      "-" + NatToString(-n)
    else
      ParseNatToString(n);
      NatToString(n)
  }

  lemma {:induction false} ParseNatToString(n: nat)
    ensures ParseNat(NatToString(n)) == n
    decreases n
  {
    if n >= 10 {
      var r := NatToString(n);
      assert r[..|r| - 1] == NatToString(n / 10);
      ParseNatToString(n / 10);
    }
  }

  /** Python's `a <= b` on strings: lexicographic by code point, a proper prefix first. */
  predicate LexLe(a: string, b: string)
  {
    a == [] || (b != [] && (a[0] < b[0] || (a[0] == b[0] && LexLe(a[1..], b[1..]))))
  }

  /** Any two strings are ordered one way or the other. */
  lemma {:induction false} LexLeTotal(a: string, b: string)
    ensures LexLe(a, b) || LexLe(b, a)
  {
    if a != [] && b != [] && a[0] == b[0] {
      LexLeTotal(a[1..], b[1..]);
    }
  }

  lemma {:induction false} LexLeTransitive(a: string, b: string, c: string)
    requires LexLe(a, b) && LexLe(b, c)
    ensures LexLe(a, c)
  {
    if a != [] && b != [] && c != [] && a[0] == b[0] && b[0] == c[0] {
      LexLeTransitive(a[1..], b[1..], c[1..]);
    }
  }

  /** `LexLe` is a total preorder, as `sorted` needs. */
  lemma LexLeOrders()
    ensures Total(LexLe) && Transitive(LexLe)
  {
    forall a, b ensures LexLe(a, b) || LexLe(b, a) {
      LexLeTotal(a, b);
    }
    forall a, b, c | LexLe(a, b) && LexLe(b, c) ensures LexLe(a, c) {
      LexLeTransitive(a, b, c);
    }
  }

  /** `toUpperCase()` / `str.upper()` restricted to ASCII letters. */
  function UpperChar(c: char): char
  {
    if 'a' <= c <= 'z' then (c as int - 32) as char else c
  }

  /** `''.join` grows by exactly the appended piece. */
  lemma ConcatSnoc(parts: seq<string>, x: string)
    ensures Join(parts + [x], "") == Join(parts, "") + x
  {
    if parts == [] {
      assert parts + [x] == [x];
    } else {
      JoinSnoc(parts, x, "");
      assert Join(parts, "") + "" == Join(parts, "");
    }
  }

  lemma {:induction false} JoinSnoc(parts: seq<string>, x: string, sep: string)
    requires parts != []
    ensures Join(parts + [x], sep) == Join(parts, sep) + sep + x
    decreases |parts|
  {
    if |parts| == 1 {
      assert parts + [x] == [parts[0], x];
      assert [parts[0], x][1..] == [x];
    } else {
      assert (parts + [x])[1..] == parts[1..] + [x];
      JoinSnoc(parts[1..], x, sep);
    }
  }

  /** Joining on one character and splitting on it again gives back parts that do not
      contain it. */
  lemma {:induction false} SplitJoin(parts: seq<string>, c: char)
    requires parts != []
    requires forall k | 0 <= k < |parts| :: !Contains(parts[k], [c])
    ensures Split(Join(parts, [c]), [c]) == parts
    decreases |parts|
  {
    var p := parts[0];
    if |parts| == 1 {
      assert IndexOf(p, [c]).None?;
    } else {
      var rest := Join(parts[1..], [c]);
      var s := p + [c] + rest;
      assert Join(parts, [c]) == s;
      assert OccursAt(s, [c], |p|) by {
        assert s[|p|..|p| + 1] == [c];
      }
      forall j | 0 <= j < |p| ensures !OccursAt(s, [c], j) {
        if OccursAt(s, [c], j) {
          assert p[j..j + 1] == s[j..j + 1];
          ContainsAt(p, [c], j);
        }
      }
      assert IndexOf(s, [c]) == Some(|p|);
      assert s[..|p|] == p && s[|p| + 1..] == rest;
      SplitJoin(parts[1..], c);
    }
  }
}
