/** The ffmpeg arguments with which the audio generator joins its segments: one `-i` per
    file and a `filter_complex` that concatenates input k's first stream, in order, into the
    single output pad `[out]`. Running ffmpeg and deleting the files are left out. */
module AudioCombine {
  import opened Base
  import opened Text

  /** The pad of input k: "[k:0]". */
  function InputPad(k: nat): string
  {
    "[" + NatToString(k) + ":0]"
  }

  /** "[0:0][1:0]…[n-1:0]". */
  function FilterInputs(n: nat): string
  {
    if n == 0 then [] else FilterInputs(n - 1) + InputPad(n - 1)
  }

  /** The `filter_complex` for n files. */
  function FilterComplex(n: nat): string
  {
    FilterInputs(n) + "concat=n=" + NatToString(n) + ":v=0:a=1" + "[out]"
  }

  /** "-i f" for each file, in order. */
  function InputArgs(files: seq<string>): seq<string>
  {
    if files == [] then [] else InputArgs(files[..|files| - 1]) + ["-i", files[|files| - 1]]
  }

  /** The arguments `combine_audio_files` builds before running ffmpeg: the loop extends the
      inputs by `-i file` and collects one pad per file, and the pads are joined. */
  method CombineArguments(files: seq<string>) returns (inputs: seq<string>, filter: string)
    ensures inputs == InputArgs(files)
    ensures filter == FilterComplex(|files|)
  {
    inputs := [];
    var parts: seq<string> := [];
    for i := 0 to |files|
      invariant inputs == InputArgs(files[..i]) && |parts| == i
      invariant Join(parts, "") == FilterInputs(i)
    {
      assert files[..i + 1][..i] == files[..i];
      ConcatSnoc(parts, InputPad(i));
      inputs := inputs + ["-i", files[i]];
      parts := parts + [InputPad(i)];
    }
    assert files[..|files|] == files;
    filter := Join(parts, "") + "concat=n=" + NatToString(|files|) + ":v=0:a=1" + "[out]";
  }

  /** Every file is passed as its own `-i` argument, in order. */
  lemma {:induction false} InputArgsShape(files: seq<string>)
    ensures |InputArgs(files)| == 2 * |files|
    ensures forall k | 0 <= k < |files| :: InputArgs(files)[2 * k] == "-i" && InputArgs(files)[2 * k + 1] == files[k]
  {
    if files != [] {
      InputArgsShape(files[..|files| - 1]);
    }
  }

  lemma NoBracketInDigits(n: nat)
    ensures CountChar(NatToString(n), '[') == 0
  {
    var s := NatToString(n);
    CountCharAbsent(s, '[');
  }

  lemma PadBracket(k: nat)
    ensures CountChar(InputPad(k), '[') == 1
  {
    NoBracketInDigits(k);
    PadPieces();
    CountCharConcat("[", NatToString(k), '[');
    CountCharConcat("[" + NatToString(k), ":0]", '[');
  }

  lemma PadPieces()
    ensures CountChar("[", '[') == 1 && CountChar(":0]", '[') == 0
  {
  }

  /** Each file contributes exactly one input pad. */
  lemma {:induction false} InputPadCount(n: nat)
    ensures CountChar(FilterInputs(n), '[') == n
  {
    if n > 0 {
      InputPadCount(n - 1);
      PadBracket(n - 1);
      CountCharConcat(FilterInputs(n - 1), InputPad(n - 1), '[');
    }
  }

  /** The filter has one pad per input file and the single output pad. */
  lemma PadCount(n: nat)
    ensures CountChar(FilterComplex(n), '[') == n + 1
  {
    InputPadCount(n);
    NoBracketInDigits(n);
    TailPieces();
    var a := FilterInputs(n) + "concat=n=";
    CountCharConcat(FilterInputs(n), "concat=n=", '[');
    CountCharConcat(a, NatToString(n), '[');
    CountCharConcat(a + NatToString(n), ":v=0:a=1", '[');
    CountCharConcat(a + NatToString(n) + ":v=0:a=1", "[out]", '[');
  }

  lemma TailPieces()
    ensures CountChar("concat=n=", '[') == 0 && CountChar(":v=0:a=1", '[') == 0
    ensures CountChar("[out]", '[') == 1
  {
    CountCharAbsent("concat=n=", '[');
    CountCharAbsent(":v=0:a=1", '[');
    OutputPad();
  }

  lemma OutputPad()
    ensures CountChar("[out]", '[') == 1
  {
    CountCharAbsent("out]", '[');
    assert "[out]" == "[" + "out]";
    CountCharConcat("[", "out]", '[');
  }
}
