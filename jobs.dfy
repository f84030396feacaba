/**
 * What an encoding run depends on and does not change, shared by both
 * tabarnak versions, and the ffmpeg command line they build from it.
 */
module Jobs {
  import opened Text
  import opened Media
  import opened Encoding

  /**
   * What the run depends on and does not change: ffprobe's answers, ffmpeg's
   * outcome for each command line, the parsed arguments, `--copy`, and the
   * path of ffmpeg.
   */
  datatype Env = Env(probes: Probes, encoder: seq<string> -> EncodeOutcome, args: TranscodeArgs, copyOthers: bool, ffmpeg: string)

  /** The encoder's command line: ffmpeg, the input, the argument tokens and the output. */
  function Command(env: Env, src: string, out: string): seq<string> {
    [env.ffmpeg, "-i", src] + Tokens(env.args.encoder.args) + [out]
  }

  /** The command line is ffmpeg, `-i`, the input, the argument tokens in order, and the output last. */
  lemma CommandShape(env: Env, src: string, out: string)
    ensures var r := Command(env, src, out);
            |r| == |Tokens(env.args.encoder.args)| + 4
            && r[0] == env.ffmpeg && r[1] == "-i" && r[2] == src && r[|r| - 1] == out
            && r[3..|r| - 1] == Tokens(env.args.encoder.args)
  {
    var r := Command(env, src, out);
    assert r[3..|r| - 1] == Tokens(env.args.encoder.args);
  }

  /**
   * An argument string of words separated by single spaces reaches ffmpeg as
   * exactly those words, in order, between the input and the output.
   */
  lemma CommandWords(env: Env, src: string, out: string, words: seq<string>)
    requires |words| > 0 && forall i :: 0 <= i < |words| ==> Word(words[i])
    requires env.args.encoder.args == JoinWith(words, ' ')
    ensures Command(env, src, out) == [env.ffmpeg, "-i", src] + words + [out]
  {
    TokensOfWords(words);
  }

  /** The filesystem once the encoder has run: the output file it left, if any. */
  function AfterEncode(fs: FileSystem, out: string, outcome: EncodeOutcome): FileSystem {
    if outcome.output.Some? then fs[out := outcome.output.value] else fs
  }
}
