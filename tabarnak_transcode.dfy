/**
 * The module-level functions of the main version (tabarnak/tabarnak.py) as
 * methods on the two global objects, each proved to do what the matching
 * function of the model says.
 */
module TabarnakTranscode {
  import opened Wrappers
  import opened Text
  import opened Paths
  import opened Media
  import opened Encoding
  import opened Walking
  import opened Jobs
  import opened Tabarnak

  /** `fetch_codec_name`, with ffprobe's answer for the path as an input. */
  method FetchCodecName(results: TranscoderResults, probes: Probes, path: string) returns (codec: string)
    requires results.Valid()
    modifies results
    ensures results.Valid()
    ensures codec == CodecName(path, probes.codec(path)).value
    ensures results.State() == old(results.State()).RecordAll(CodecName(path, probes.codec(path)).events)
  {
    var ext := SplitExt(path).1;
    if ext in SkipExtensions {
      return "";
    }
    var probe := probes.codec(path);
    if probe.code != 0 {
      RecordOne(results.State(), Event(Level.Error, ProbeFailed(path, probe.code)));
      results.Error(ProbeFailed(path, probe.code));
      return "";
    }
    codec := ReplaceAll(probe.stdout, "\n", "");
    if codec == "" || codec !in VideoCodecs {
      RecordOne(results.State(), Event(Level.Error, InvalidCodec(codec, path)));
      results.Error(InvalidCodec(codec, path));
      return "";
    }
  }

  /** `fetch_duration_in_frames`, with ffprobe's answer for the path as an input. */
  method FetchDurationInFrames(results: TranscoderResults, probes: Probes, path: string) returns (frames: int)
    requires results.Valid()
    modifies results
    ensures results.Valid()
    ensures frames == DurationOf(path, probes.duration(path)).value
    ensures results.State() == old(results.State()).RecordAll(DurationOf(path, probes.duration(path)).events)
  {
    var probe := probes.duration(path);
    if probe.code != 0 {
      RecordOne(results.State(), Event(Level.Error, ProbeFailed(path, probe.code)));
      results.Error(ProbeFailed(path, probe.code));
      return 0;
    }
    frames := probe.truncated;
    if frames == 0 {
      RecordOne(results.State(), Event(Level.Error, ZeroDuration(path)));
      results.Error(ZeroDuration(path));
    }
  }

  /**
   * `compare_input_output`: returns the sizes, or the exception the division
   * by an empty input raises; `total_saved` grows by the saved bytes unless
   * it raised.
   */
  method CompareInputOutput(results: TranscoderResults, stats: TranscoderStats, env: Env,
                            input: string, output: string, codec: string, fs: FileSystem) returns (r: Try<Sizes>)
    requires results.Valid()
    modifies results, stats
    ensures results.Valid()
    ensures r == CompareSpec(env, input, output, codec, fs).outcome
    ensures results.State() == old(results.State()).RecordAll(CompareSpec(env, input, output, codec, fs).events)
    ensures stats.totalSaved == old(stats.totalSaved) + (if r.Ok? then r.value.Saved() else 0)
  {
    ghost var r0 := results.State();
    CompareDurations(results, env, input, output);
    ghost var durationEvents := DurationPart(env, input, output);
    var inSize := if input in fs then fs[input] else 0;
    var outSize := if output in fs then fs[output] else 0;
    if inSize == 0 {
      return Raise(ZeroDivision);
    }
    stats.IncrementTotalSaved(inSize - outSize);
    ghost var ws := SizeCheck(Sizes(inSize, outSize), output, codec, env.args.percentTolerance).value;
    if 100 * (inSize - outSize) > env.args.percentTolerance * inSize {
      RecordOne(results.State(), ws[0]);
      results.Warning(SizeReductionTooHigh(Basename(output), Sizes(inSize, outSize), codec));
    }
    RecordAllAppend(r0, durationEvents, ws);
    return Ok(Sizes(inSize, outSize));
  }

  /** The duration half of `compare_input_output`: both probes, then the tolerance check. */
  method CompareDurations(results: TranscoderResults, env: Env, input: string, output: string)
    requires results.Valid()
    modifies results
    ensures results.Valid()
    ensures results.State() == old(results.State()).RecordAll(DurationPart(env, input, output))
  {
    ghost var r0 := results.State();
    ghost var di := DurationOf(input, env.probes.duration(input));
    ghost var dout := DurationOf(output, env.probes.duration(output));
    var inFrames := FetchDurationInFrames(results, env.probes, input);
    var outFrames := FetchDurationInFrames(results, env.probes, output);
    RecordAllAppend(r0, di.events, dout.events);
    CheckDurations(results, input, inFrames, output, outFrames, env.args.durationTolerance);
    RecordAllAppend(r0, di.events + dout.events, DurationCheck(input, inFrames, output, outFrames, env.args.durationTolerance));
  }

  /** The tolerance check of the durations: one error when they differ by more than the tolerance. */
  method CheckDurations(results: TranscoderResults, input: string, inFrames: int, output: string, outFrames: int, tolerance: int)
    requires results.Valid()
    modifies results
    ensures results.Valid()
    ensures results.State() == old(results.State()).RecordAll(DurationCheck(input, inFrames, output, outFrames, tolerance))
  {
    ghost var check := DurationCheck(input, inFrames, output, outFrames, tolerance);
    if Abs(inFrames - outFrames) > tolerance {
      RecordOne(results.State(), check[0]);
      results.Error(DurationDiffers(Basename(input), inFrames, Basename(output), outFrames, outFrames - inFrames));
    }
  }

  /** `remove_file`: one information, and the file is gone. */
  method RemoveFile(results: TranscoderResults, path: string, fs: FileSystem) returns (fs': FileSystem)
    requires results.Valid()
    modifies results
    ensures results.Valid()
    ensures results.State() == old(results.State()).Record(Event(Level.Info, Removing(path)))
    ensures fs' == fs - {path} && path !in fs'
  {
    results.Info(Removing(path));
    fs' := if path in fs then fs - {path} else fs;
  }

  /**
   * `transcode_file`: in a file scope, run the encoder on the tokens of the
   * arguments; remove the output and raise when it fails or leaves an output
   * of no duration; otherwise compare and record that the job is done. The
   * scope records the exception, if any, and swallows it.
   */
  method TranscodeFile(results: TranscoderResults, stats: TranscoderStats, env: Env,
                       src: string, codec: string, out: string, fs: FileSystem) returns (fs': FileSystem)
    requires results.Valid()
    modifies results, stats
    ensures results.Valid()
    ensures Run(results.State(), stats.totalSaved, fs') ==
            TranscodeFileSpec(env, src, codec, out, Run(old(results.State()), old(stats.totalSaved), fs))
  {
    results.Enter();
    var fault;
    fs', fault := EncodeInScope(results, stats, env, src, codec, out, fs);
    var _ := results.Exit(fault);
  }

  /** The body of the `with` block of `transcode_file`; it returns the exception it raises, if any. */
  method EncodeInScope(results: TranscoderResults, stats: TranscoderStats, env: Env,
                       src: string, codec: string, out: string, fs: FileSystem) returns (fs': FileSystem, fault: Option<Fault>)
    requires results.Valid()
    modifies results, stats
    ensures results.Valid()
    ensures Outcome(Run(results.State(), stats.totalSaved, fs'), fault) ==
            EncodeSteps(env, src, codec, out, Run(old(results.State()), old(stats.totalSaved), fs))
  {
    var cmd := Command(env, src, out);
    results.Info(Running(cmd));
    ghost var s1 := Run(results.State(), stats.totalSaved, fs);
    var outcome := env.encoder(cmd);
    var fs1 := if outcome.output.Some? then fs[out := outcome.output.value] else fs;
    if outcome.code != 0 {
      fs' := RemoveFile(results, out, fs1);
      assert Outcome(Run(results.State(), stats.totalSaved, fs'), Some(EncoderFailed(cmd, outcome.code)))
          == Failure(s1, out, fs1, EncoderFailed(cmd, outcome.code));
      return fs', Some(EncoderFailed(cmd, outcome.code));
    }
    var frames := FetchDurationInFrames(results, env.probes, out);
    ghost var s2 := Run(results.State(), stats.totalSaved, fs);
    if frames == 0 {
      fs' := RemoveFile(results, out, fs1);
      assert Outcome(Run(results.State(), stats.totalSaved, fs'), Some(EmptyOutput(cmd, out)))
          == Failure(s2, out, fs1, EmptyOutput(cmd, out));
      return fs', Some(EmptyOutput(cmd, out));
    }
    fs' := fs1;
    fault := CompareAndReport(results, stats, env, src, codec, out, fs1);
  }

  /** The end of the `with` block of `transcode_file`, once the output has a duration. */
  method CompareAndReport(results: TranscoderResults, stats: TranscoderStats, env: Env,
                          src: string, codec: string, out: string, fs: FileSystem) returns (fault: Option<Fault>)
    requires results.Valid()
    modifies results, stats
    ensures results.Valid()
    ensures Outcome(Run(results.State(), stats.totalSaved, fs), fault) ==
            Finish(env, src, codec, out, Run(old(results.State()), old(stats.totalSaved), fs))
  {
    var c := CompareInputOutput(results, stats, env, src, out, codec, fs);
    if c.Raise? {
      return Some(c.fault);
    }
    results.Info(JobDone(out, c.value, stats.totalSaved));
    return None;
  }

  /**
   * `transcode`: walk the directories in the order `os.walk` lists them;
   * an exception raised outside a file scope ends the walk and is returned.
   */
  method Transcode(results: TranscoderResults, stats: TranscoderStats, env: Env,
                   listing: seq<(string, seq<string>)>, fs: FileSystem) returns (fs': FileSystem, fault: Option<Fault>)
    requires results.Valid()
    modifies results, stats
    ensures results.Valid()
    ensures Walked(Run(results.State(), stats.totalSaved, fs'), fault) ==
            Walk(env, Entries(listing), Run(old(results.State()), old(stats.totalSaved), fs))
  {
    ghost var init := Run(results.State(), stats.totalSaved, fs);
    fs' := fs;
    for i := 0 to |listing|
      invariant results.Valid()
      invariant Walk(env, Entries(listing[..i]), init) == Walked(Run(results.State(), stats.totalSaved, fs'), None)
    {
      var root := listing[i].0;
      var files := listing[i].1;
      assert Entries(listing[..i]) + Pairs(root, files[..0]) == Entries(listing[..i]);
      for j := 0 to |files|
        invariant results.Valid()
        invariant Walk(env, Entries(listing[..i]) + Pairs(root, files[..j]), init) ==
                  Walked(Run(results.State(), stats.totalSaved, fs'), None)
      {
        WalkNext(VisitStep(env), listing, i, j, init);
        var f;
        fs', f := VisitFile(results, stats, env, root, files[j], fs');
        if f.Some? {
          return fs', f;
        }
      }
      WalkNextDirectory(VisitStep(env), listing, i, init);
    }
    assert listing[..|listing|] == listing;
    return fs', None;
  }

  /** One iteration of the loop of `transcode`; it returns the exception it raises, if any. */
  method VisitFile(results: TranscoderResults, stats: TranscoderStats, env: Env,
                   root: string, name: string, fs: FileSystem) returns (fs': FileSystem, fault: Option<Fault>)
    requires results.Valid()
    modifies results, stats
    ensures results.Valid()
    ensures Outcome(Run(results.State(), stats.totalSaved, fs'), fault) ==
            Visit(env, Run(old(results.State()), old(stats.totalSaved), fs), (root, name))
  {
    var src := SourceNameAsWritten(root, name);
    var codec := FetchCodecName(results, env.probes, src);
    assert Visit(env, Run(old(results.State()), old(stats.totalSaved), fs), (root, name)) ==
           Act(env, Run(results.State(), stats.totalSaved, fs), src, codec);
    fs', fault := ActOn(results, stats, env, src, codec, fs);
  }

  /** What an iteration does once the codec is probed. */
  method ActOn(results: TranscoderResults, stats: TranscoderStats, env: Env,
               src: string, codec: string, fs: FileSystem) returns (fs': FileSystem, fault: Option<Fault>)
    requires results.Valid()
    modifies results, stats
    ensures results.Valid()
    ensures Outcome(Run(results.State(), stats.totalSaved, fs'), fault) ==
            Act(env, Run(old(results.State()), old(stats.totalSaved), fs), src, codec)
  {
    ghost var s1 := Run(results.State(), stats.totalSaved, fs);
    if Contains(env.args.encoder.outputVideoCodec, codec) {
      ActSkipped(env, s1, src, codec);
      fs', fault := CopyOther(results, stats, env, src, codec, fs);
      return;
    }
    var ext := ContainerExt(env.args);
    if ext.None? {
      ActUnconfigured(env, s1, src, codec);
      return fs, Some(TypeMismatch);
    }
    ActUnskipped(env, s1, src, codec);
    fs', fault := ProcessFile(results, stats, env, src, codec, ext.value, fs);
  }

  /**
   * The rest of an iteration for a file whose codec is skipped: with
   * `copy_others`, a file not yet in the output directory is copied there,
   * which raises when the source is missing.
   */
  method CopyOther(results: TranscoderResults, stats: TranscoderStats, env: Env,
                   src: string, codec: string, fs: FileSystem) returns (fs': FileSystem, fault: Option<Fault>)
    requires results.Valid()
    ensures Outcome(Run(results.State(), stats.totalSaved, fs'), fault) ==
            Perform(env, Run(results.State(), stats.totalSaved, fs), src, codec,
                    Decide(true, env.copyOthers, env.args.outputDir, "", fs, src))
  {
    ghost var d := Decide(true, env.copyOthers, env.args.outputDir, "", fs, src);
    if env.copyOthers {
      var dest := Join(env.args.outputDir, Basename(src));
      if dest !in fs {
        assert d == Copy(dest);
        if src !in fs {
          return fs, Some(FileNotFound(src));
        }
        return fs[dest := fs[src]], None;
      }
    }
    assert d == Skip;
    return fs, None;
  }

  /**
   * The rest of an iteration for a file whose codec is not skipped, once the
   * container extension is known: the output name, then the skip list, then
   * a comparison with an existing output or an encode.
   */
  method ProcessFile(results: TranscoderResults, stats: TranscoderStats, env: Env,
                     src: string, codec: string, ext: string, fs: FileSystem) returns (fs': FileSystem, fault: Option<Fault>)
    requires results.Valid()
    modifies results, stats
    ensures results.Valid()
    ensures Outcome(Run(results.State(), stats.totalSaved, fs'), fault) ==
            Perform(env, Run(old(results.State()), old(stats.totalSaved), fs), src, codec,
                    Decide(false, env.copyOthers, env.args.outputDir, env.args.outputSuffix + ext, fs, src))
  {
    ghost var s1 := Run(results.State(), stats.totalSaved, fs);
    ghost var d := Decide(false, env.copyOthers, env.args.outputDir, env.args.outputSuffix + ext, fs, src);
    var outputFilename := SplitExt(src).0 + (env.args.outputSuffix + ext);
    if Lower(SplitExt(src).1) in SkipExtensions {
      assert d == SkipListed;
      return fs, None;
    }
    var outputFile := Join(env.args.outputDir, Basename(outputFilename));
    if outputFile in fs {
      assert d == CompareOnly(outputFile);
      PerformCompareOnly(env, s1, src, codec, outputFile);
      var c := CompareInputOutput(results, stats, env, src, outputFile, codec, fs);
      return fs, if c.Raise? then Some(c.fault) else None;
    }
    assert d == Encode(outputFile);
    PerformEncode(env, s1, src, codec, outputFile);
    fs' := TranscodeFile(results, stats, env, src, codec, outputFile, fs);
    return fs', None;
  }
}
