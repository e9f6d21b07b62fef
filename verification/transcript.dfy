/** The YouTube transcript downloader of the listening app: the video id is taken from a
    watch URL (`v=`) or a short URL (`youtu.be/`), or the input is used as the id itself;
    the transcript service is a parameter; a fetched transcript is saved as one line of text
    per entry in a file named after the id. The service, the file system and the printing
    are left out. */
module Transcript {
  import opened Base
  import opened Text

  /** One transcript entry; only its 'text' is used. */
  datatype Entry = Entry(text: string)

  /** `extract_video_id`: the text after the first "v=", cut at the next "v=" and at the
      first "&"; otherwise the text after the first "youtu.be/", cut at the next one and at
      the first "?"; otherwise None. */
  function ExtractVideoId(url: string): Option<string>
  {
    if Contains(url, "v=") then
      SplitContains(url, "v=");
      Some(Split(Split(url, "v=")[1], "&")[0])
    else if Contains(url, "youtu.be/") then
      SplitContains(url, "youtu.be/");
      Some(Split(Split(url, "youtu.be/")[1], "?")[0])
    else None
  }

  /** A string that contains the separator splits into at least two pieces. */
  lemma SplitContains(s: string, sep: string)
    requires sep != [] && Contains(s, sep)
    ensures |Split(s, sep)| >= 2
  {
  }

  /** The first piece of a split is a prefix of the string. */
  lemma SplitFirstPrefix(s: string, sep: string)
    requires sep != []
    ensures |Split(s, sep)[0]| <= |s| && Split(s, sep)[0] == s[..|Split(s, sep)[0]|]
  {
  }

  /** A prefix of a string without `pat` has no `pat` either. */
  lemma PrefixAvoids(s: string, k: nat, pat: string)
    requires k <= |s| && !Contains(s, pat)
    ensures !Contains(s[..k], pat)
  {
    if Contains(s[..k], pat) {
      OccursInSlice(s, pat, 0, k, IndexOf(s[..k], pat).value);
    }
  }

  /** The first piece of a piece is free of both separators. */
  lemma PieceOfPiece(s: string, outer: string, inner: string)
    requires outer != [] && inner != [] && |Split(s, outer)| >= 2
    ensures !Contains(Split(Split(s, outer)[1], inner)[0], outer)
    ensures !Contains(Split(Split(s, outer)[1], inner)[0], inner)
  {
    var piece := Split(s, outer)[1];
    SplitPiecesAvoid(s, outer);
    SplitPiecesAvoid(piece, inner);
    SplitFirstPrefix(piece, inner);
    PrefixAvoids(piece, |Split(piece, inner)[0]|, outer);
  }

  /** The "v=" rule wins; its id holds neither "v=" nor "&". A short URL's id holds neither
      "youtu.be/" nor "?". A URL with neither marker has no id. */
  lemma ExtractVideoIdMeaning(url: string)
    ensures Contains(url, "v=") ==>
      ExtractVideoId(url).Some? && !Contains(ExtractVideoId(url).value, "v=") && !Contains(ExtractVideoId(url).value, "&")
    ensures !Contains(url, "v=") && Contains(url, "youtu.be/") ==>
      ExtractVideoId(url).Some? && !Contains(ExtractVideoId(url).value, "youtu.be/") && !Contains(ExtractVideoId(url).value, "?")
    ensures ExtractVideoId(url).None? <==> !Contains(url, "v=") && !Contains(url, "youtu.be/")
  {
    if Contains(url, "v=") {
      SplitContains(url, "v=");
      PieceOfPiece(url, "v=", "&");
    } else if Contains(url, "youtu.be/") {
      SplitContains(url, "youtu.be/");
      PieceOfPiece(url, "youtu.be/", "?");
    }
  }

  /** The id `get_transcript` uses: extracted from a YouTube URL, or the input itself. */
  function VideoIdOf(input: string): Option<string>
  {
    if Contains(input, "youtube.com") || Contains(input, "youtu.be") then ExtractVideoId(input) else Some(input)
  }

  /** `os.path.basename`: the text after the last '/'. */
  function Basename(path: string): (r: string)
  {
    Split(path, "/")[|Split(path, "/")| - 1]
  }

  /** The name `save_transcript` writes to. */
  function TranscriptFileName(filename: string): string
  {
    Basename(filename) + ".txt"
  }

  /** The file name never leaves the transcript directory, and a plain name is kept. */
  lemma FileNameIsLocal(filename: string)
    ensures !Contains(Basename(filename), "/")
    ensures !Contains(filename, "/") ==> TranscriptFileName(filename) == filename + ".txt"
  {
    SplitPiecesAvoid(filename, "/");
  }

  /** The file's text: each entry's text followed by a newline, in order. */
  function TranscriptText(entries: seq<Entry>): string
  {
    if entries == [] then []
    else TranscriptText(entries[..|entries| - 1]) + entries[|entries| - 1].text + "\n"
  }

  function Texts(entries: seq<Entry>): (r: seq<string>)
    ensures |r| == |entries| && forall i | 0 <= i < |entries| :: r[i] == entries[i].text
  {
    seq(|entries|, i requires 0 <= i < |entries| => entries[i].text)
  }

  /** The saved file is the texts joined by newlines, with a final newline. */
  lemma {:induction false} TranscriptTextJoin(entries: seq<Entry>)
    ensures TranscriptText(entries) == Join(Texts(entries) + [""], "\n")
  {
    if entries != [] {
      var init := entries[..|entries| - 1];
      var t := entries[|entries| - 1].text;
      TranscriptTextJoin(init);
      assert Texts(entries) == Texts(init) + [t];
      JoinNewlineSnoc(Texts(init), t);
    }
  }

  /** Appending a line before the final newline. */
  lemma JoinNewlineSnoc(lines: seq<string>, t: string)
    ensures Join(lines + [t] + [""], "\n") == Join(lines + [""], "\n") + t + "\n"
  {
    JoinSnoc(lines + [t], "", "\n");
    if lines == [] {
      assert lines + [t] == [t];
      assert lines + [""] == [""];
    } else {
      JoinSnoc(lines, t, "\n");
      JoinSnoc(lines, "", "\n");
    }
  }

  /** Reading the file back line by line gives the texts, then the empty piece after the
      final newline, when no text holds a newline. */
  lemma TranscriptRoundTrip(entries: seq<Entry>)
    requires forall i | 0 <= i < |entries| :: !Contains(entries[i].text, "\n")
    ensures Split(TranscriptText(entries), "\n") == Texts(entries) + [""]
  {
    TranscriptTextJoin(entries);
    LinesAvoidNewline(entries);
    SplitJoin(Texts(entries) + [""], '\n');
  }

  lemma LinesAvoidNewline(entries: seq<Entry>)
    requires forall i | 0 <= i < |entries| :: !Contains(entries[i].text, "\n")
    ensures forall k | 0 <= k < |Texts(entries) + [""]| :: !Contains((Texts(entries) + [""])[k], ['\n'])
  {
    var parts := Texts(entries) + [""];
    forall k | 0 <= k < |parts| ensures !Contains(parts[k], ['\n']) {
      if k == |entries| {
        assert parts[k] == [];
      } else {
        assert parts[k] == entries[k].text;
      }
    }
  }

  datatype SavedFile = SavedFile(name: string, content: string)

  /** `save_transcript`: the file is written entry by entry; when it cannot be written the
      result is False and nothing is saved. */
  method SaveTranscript(entries: seq<Entry>, filename: string, writable: bool) returns (ok: bool, saved: Option<SavedFile>)
    ensures ok == writable
    ensures saved == if writable then Some(SavedFile(TranscriptFileName(filename), TranscriptText(entries))) else None
  {
    var name := TranscriptFileName(filename);
    if !writable {
      return false, None;
    }
    var content: string := [];
    for i := 0 to |entries|
      invariant content == TranscriptText(entries[..i])
    {
      assert entries[..i + 1][..i] == entries[..i];
      content := content + entries[i].text + "\n";
    }
    assert entries[..|entries|] == entries;
    return true, Some(SavedFile(name, content));
  }

  /** What `get_transcript` returns and what it leaves on disk. */
  datatype Download = Download(transcript: Option<seq<Entry>>, saved: Option<SavedFile>)

  /** `get_transcript`: an empty or missing id returns None before the service is called;
      a failing service returns None; otherwise the transcript is saved under the id and
      returned whether or not the save succeeded. */
  method GetTranscript(input: string, fetch: string -> Option<seq<Entry>>, writable: bool) returns (r: Download)
    ensures r.transcript.Some? <==> VideoIdOf(input).Some? && VideoIdOf(input).value != [] && fetch(VideoIdOf(input).value).Some?
    ensures r.transcript.Some? ==> r.transcript == fetch(VideoIdOf(input).value)
    ensures r.saved.Some? <==> r.transcript.Some? && writable
    ensures r.saved.Some? ==>
      r.saved.value == SavedFile(TranscriptFileName(VideoIdOf(input).value), TranscriptText(r.transcript.value))
  {
    var videoId := if Contains(input, "youtube.com") || Contains(input, "youtu.be") then ExtractVideoId(input) else Some(input);
    if videoId.None? || videoId.value == [] {
      return Download(None, None);
    }
    var transcript := fetch(videoId.value);
    if transcript.None? {
      return Download(None, None);
    }
    var ok, saved := SaveTranscript(transcript.value, videoId.value, writable);
    r := Download(transcript, saved);
  }

  /** Input that mentions no YouTube host is looked up verbatim. */
  lemma PlainIdVerbatim(input: string)
    requires !Contains(input, "youtube.com") && !Contains(input, "youtu.be") && input != []
    ensures VideoIdOf(input) == Some(input)
  {
  }

  /** A YouTube link with neither marker is rejected before any lookup. */
  lemma UnrecognisedLinkRejected(input: string)
    requires Contains(input, "youtube.com") || Contains(input, "youtu.be")
    requires !Contains(input, "v=") && !Contains(input, "youtu.be/")
    ensures VideoIdOf(input).None?
  {
    ExtractVideoIdMeaning(input);
  }
}
