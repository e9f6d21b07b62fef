/** The breadcrumb trail of the portal's layout: the location's path is cut into its
    non-empty '/'-separated segments, and each segment becomes a crumb that links to the path
    up to and including it, labelled with the segment's '-'-separated words capitalised and
    joined by spaces. The component shows nothing when there is no crumb. */
module Breadcrumbs {
  import opened Base
  import opened Text

  datatype Crumb = Crumb(name: string, url: string)

  /** `filter(Boolean)` on strings: the non-empty ones. */
  predicate NonEmpty(s: string)
  {
    s != []
  }

  /** `pathname.split("/").filter(Boolean)`. */
  function Segments(path: string): seq<string>
  {
    Filter(Split(path, "/"), NonEmpty)
  }

  /** Every segment is non-empty and holds no '/'. */
  lemma SegmentsClean(path: string)
    ensures forall k | 0 <= k < |Segments(path)| :: Segments(path)[k] != [] && !Contains(Segments(path)[k], "/")
  {
    SplitPiecesAvoid(path, "/");
    forall k | 0 <= k < |Segments(path)|
      ensures Segments(path)[k] != [] && !Contains(Segments(path)[k], "/")
    {
      assert Segments(path)[k] in Segments(path);
    }
  }

  /** `word.charAt(0).toUpperCase() + word.slice(1)`. */
  function Capitalize(word: string): (r: string)
    ensures |r| == |word|
    ensures word != [] ==> r[0] == UpperChar(word[0]) && r[1..] == word[1..]
  {
    if word == [] then [] else [UpperChar(word[0])] + word[1..]
  }

  function CapitalizeAll(words: seq<string>): (r: seq<string>)
    ensures |r| == |words|
    ensures forall k | 0 <= k < |words| :: r[k] == Capitalize(words[k])
  {
    seq(|words|, k requires 0 <= k < |words| => Capitalize(words[k]))
  }

  /** A crumb's label: `path.split("-").map(capitalise).join(" ")`. */
  function Name(segment: string): string
  {
    Join(CapitalizeAll(Split(segment, "-")), " ")
  }

  /** `"/" + paths.slice(0, index + 1).join("/")`. */
  function Url(segments: seq<string>, index: nat): string
    requires index < |segments|
  {
    "/" + Join(segments[..index + 1], "/")
  }

  /** `getBreadcrumbs`: one crumb per segment, in path order. */
  function GetBreadcrumbs(path: string): (r: seq<Crumb>)
    ensures |r| == |Segments(path)|
    ensures forall i | 0 <= i < |r| :: r[i] == Crumb(Name(Segments(path)[i]), Url(Segments(path), i))
  {
    var segments := Segments(path);
    seq(|segments|, i requires 0 <= i < |segments| => Crumb(Name(segments[i]), Url(segments, i)))
  }

  /** Each url is the previous one followed by "/" and its own segment. */
  lemma UrlStep(segments: seq<string>, i: nat)
    requires i + 1 < |segments|
    ensures Url(segments, i + 1) == Url(segments, i) + "/" + segments[i + 1]
  {
    assert segments[..i + 2] == segments[..i + 1] + [segments[i + 1]];
    JoinSnoc(segments[..i + 1], segments[i + 1], "/");
  }

  /** Each crumb's url is the previous one's followed by "/" and its own segment, so every
      crumb links to an ancestor of the next one's target. */
  lemma UrlExtends(path: string, i: nat)
    requires i + 1 < |GetBreadcrumbs(path)|
    ensures var r := GetBreadcrumbs(path);
      r[i + 1].url == r[i].url + "/" + Segments(path)[i + 1]
    ensures StartsWith(GetBreadcrumbs(path)[i + 1].url, GetBreadcrumbs(path)[i].url)
  {
    var segments := Segments(path);
    UrlStep(segments, i);
    var a := Url(segments, i);
    var b := Url(segments, i + 1);
    assert b[..|a|] == a;
  }

  /** The first crumb links to its own segment. */
  lemma FirstUrl(path: string)
    requires GetBreadcrumbs(path) != []
    ensures GetBreadcrumbs(path)[0].url == "/" + Segments(path)[0]
  {
    assert Segments(path)[..1] == [Segments(path)[0]];
  }

  /** The last crumb's url is the path with its empty segments (repeated, leading and trailing
      slashes) removed: following it shows the very same trail. */
  lemma LastUrlNormalises(path: string)
    requires GetBreadcrumbs(path) != []
    ensures var r := GetBreadcrumbs(path);
      && Segments(r[|r| - 1].url) == Segments(path)
      && GetBreadcrumbs(r[|r| - 1].url) == r
  {
    var segments := Segments(path);
    var n := |segments|;
    var url := GetBreadcrumbs(path)[n - 1].url;
    assert segments[..n] == segments;
    assert url == "/" + Join(segments, "/");
    SegmentsClean(path);
    SplitJoin(segments, '/');
    assert OccursAt(url, "/", 0);
    assert IndexOf(url, "/") == Some(0);
    assert url[1..] == Join(segments, "/");
    assert Split(url, "/") == [""] + segments;
    assert Filter([""] + segments, NonEmpty) == Filter(segments, NonEmpty) by {
      assert ([""] + segments)[1..] == segments;
    }
    AllNonEmptyKept(segments);
  }

  lemma {:induction false} AllNonEmptyKept(s: seq<string>)
    requires forall k | 0 <= k < |s| :: s[k] != []
    ensures Filter(s, NonEmpty) == s
  {
    if s != [] {
      AllNonEmptyKept(s[1..]);
    }
  }

  /** The root and the empty path have no crumb. */
  lemma RootHasNoCrumbs()
    ensures GetBreadcrumbs("/") == [] && GetBreadcrumbs("") == []
  {
    assert OccursAt("/", "/", 0);
    assert IndexOf("/", "/") == Some(0);
    assert "/"[1..] == "";
    assert Split("/", "/") == ["", ""];
    assert Split("", "/") == [""];
  }

  /** A label has as many characters as its segment: each '-' becomes a space and only first
      letters change. */
  lemma NameLength(segment: string)
    ensures |Name(segment)| == |segment|
  {
    SplitCapitalizeJoinLength(segment);
  }

  lemma {:induction false} SplitCapitalizeJoinLength(s: string)
    ensures |Join(CapitalizeAll(Split(s, "-")), " ")| == |s|
    decreases |s|
  {
    match IndexOf(s, "-")
    case None =>
    case Some(i) =>
      var tail := s[i + 1..];
      SplitCapitalizeJoinLength(tail);
      var words := CapitalizeAll(Split(s, "-"));
      var rest := CapitalizeAll(Split(tail, "-"));
      assert words == [Capitalize(s[..i])] + rest;
      assert words[1..] == rest;
  }

  /** A segment without '-' is labelled by capitalising it. */
  lemma NameOfOneWord(segment: string)
    requires !Contains(segment, "-")
    ensures Name(segment) == Capitalize(segment)
  {
  }

  /** What the component renders: the Home link to "/dashboard", then a link per crumb
      except the last, which is plain text. */
  datatype Item = Link(to: string, text: string) | Current(text: string)

  /** The items for a list of crumbs: Home, a link per crumb but the last, the last as text. */
  function RenderCrumbs(crumbs: seq<Crumb>): (r: Option<seq<Item>>)
    ensures r.None? <==> crumbs == []
    ensures r.Some? ==> |r.value| == |crumbs| + 1 && r.value[0] == Link("/dashboard", "Home")
    ensures r.Some? ==> r.value[|crumbs|] == Current(crumbs[|crumbs| - 1].name)
    ensures r.Some? ==> forall i | 1 <= i < |crumbs| :: r.value[i] == Link(crumbs[i - 1].url, crumbs[i - 1].name)
  {
    if |crumbs| == 0 then None
    else
      var n := |crumbs|;
      Some([Link("/dashboard", "Home")] + seq(n, i requires 0 <= i < n =>
        if i == n - 1 then Current(crumbs[i].name) else Link(crumbs[i].url, crumbs[i].name)))
  }

  /** The rendered trail: Home, then each segment's name, linked to its url except the last. */
  function Render(path: string): (r: Option<seq<Item>>)
    ensures r.None? <==> Segments(path) == []
    ensures r.Some? ==> |r.value| == |Segments(path)| + 1 && r.value[0] == Link("/dashboard", "Home")
    ensures r.Some? ==> r.value[|r.value| - 1] == Current(Name(Segments(path)[|Segments(path)| - 1]))
    ensures r.Some? ==> forall i | 1 <= i < |r.value| - 1 ::
      r.value[i] == Link(Url(Segments(path), i - 1), Name(Segments(path)[i - 1]))
  {
    var segments := Segments(path);
    var crumbs := GetBreadcrumbs(path);
    assert |crumbs| == |segments|;
    RenderCrumbs(crumbs)
  }
}
