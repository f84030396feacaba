/**
 * The functions of the older version (tabarnak.py) as methods on the global
 * lists and the `Stats` object, each proved to do what the matching function
 * of the model says.
 */
module LegacyTranscode {
  import opened Wrappers
  import opened Text
  import opened Paths
  import opened Media
  import opened RunState
  import opened Encoding
  import opened Walking
  import opened Jobs
  import opened LegacyTabarnak

  /** `fetch_codec_name`, with ffprobe's answer for the path as an input. */
  method FetchCodecName(log: GlobalLog, probes: Probes, path: string) returns (codec: string)
    modifies log
    ensures codec == CodecName(path, probes.codec(path)).value
    ensures log.State() == old(log.State()).RecordAll(CodecName(path, probes.codec(path)).events)
  {
    var ext := SplitExt(path).1;
    if ext in SkipExtensions {
      return "";
    }
    var probe := probes.codec(path);
    if probe.code != 0 {
      JournalRecordOne(log.State(), Event(Level.Error, ProbeFailed(path, probe.code)));
      log.LogError(ProbeFailed(path, probe.code));
      return "";
    }
    codec := ReplaceAll(probe.stdout, "\n", "");
    if codec == "" || codec !in VideoCodecs {
      JournalRecordOne(log.State(), Event(Level.Error, InvalidCodec(codec, path)));
      log.LogError(InvalidCodec(codec, path));
      return "";
    }
  }

  /** `fetch_duration_in_frames`, with ffprobe's answer for the path as an input. */
  method FetchDurationInFrames(log: GlobalLog, probes: Probes, path: string) returns (frames: int)
    modifies log
    ensures frames == DurationFrames(path, probes.duration(path)).value
    ensures log.State() == old(log.State()).RecordAll(DurationFrames(path, probes.duration(path)).events)
  {
    var ext := SplitExt(path).1;
    if ext in SkipExtensions {
      return 0;
    }
    var probe := probes.duration(path);
    if probe.code != 0 {
      JournalRecordOne(log.State(), Event(Level.Error, ProbeFailed(path, probe.code)));
      log.LogError(ProbeFailed(path, probe.code));
      return 0;
    }
    frames := probe.truncated;
    if frames == 0 {
      JournalRecordOne(log.State(), Event(Level.Error, ZeroDuration(path)));
      log.LogError(ZeroDuration(path));
    }
  }

  /** The duration half of `compare_input_output`: both probes, then the tolerance check. */
  method CompareDurations(log: GlobalLog, env: Env, input: string, output: string)
    modifies log
    ensures log.State() == old(log.State()).RecordAll(DurationPart(env, input, output))
  {
    ghost var j0 := log.State();
    ghost var di := DurationFrames(input, env.probes.duration(input));
    ghost var dout := DurationFrames(output, env.probes.duration(output));
    var inFrames := FetchDurationInFrames(log, env.probes, input);
    var outFrames := FetchDurationInFrames(log, env.probes, output);
    JournalAppend(j0, di.events, dout.events);
    CheckDurations(log, input, inFrames, output, outFrames, env.args.durationTolerance);
    JournalAppend(j0, di.events + dout.events, DurationCheck(input, inFrames, output, outFrames, env.args.durationTolerance));
  }

  /** The tolerance check of the durations: one error when they differ by more than the tolerance. */
  method CheckDurations(log: GlobalLog, input: string, inFrames: int, output: string, outFrames: int, tolerance: int)
    modifies log
    ensures log.State() == old(log.State()).RecordAll(DurationCheck(input, inFrames, output, outFrames, tolerance))
  {
    ghost var check := DurationCheck(input, inFrames, output, outFrames, tolerance);
    if Abs(inFrames - outFrames) > tolerance {
      JournalRecordOne(log.State(), check[0]);
      log.LogError(DurationDiffers(Basename(input), inFrames, Basename(output), outFrames, outFrames - inFrames));
    }
  }

  /**
   * `compare_input_output`: returns the sizes, or the exception a missing
   * file or an empty input raises; `total_saved` grows by the saved bytes
   * unless it raised.
   */
  method CompareInputOutput(log: GlobalLog, stats: Stats, env: Env,
                            input: string, output: string, codec: string, fs: FileSystem) returns (r: Try<Sizes>)
    modifies log, stats
    ensures r == CompareSpec(env, input, output, codec, fs).outcome
    ensures log.State() == old(log.State()).RecordAll(CompareSpec(env, input, output, codec, fs).events)
    ensures stats.totalSaved == old(stats.totalSaved) + (if r.Ok? then r.value.Saved() else 0)
  {
    ghost var j0 := log.State();
    CompareDurations(log, env, input, output);
    ghost var durations := DurationPart(env, input, output);
    if input !in fs {
      return Raise(FileNotFound(input));
    }
    var inSize := fs[input];
    if output !in fs {
      return Raise(FileNotFound(output));
    }
    var outSize := fs[output];
    if inSize == 0 {
      return Raise(ZeroDivision);
    }
    stats.IncrementTotalSaved(inSize - outSize);
    ghost var ws := SizeCheck(Sizes(inSize, outSize), output, codec, env.args.percentTolerance).value;
    if 100 * (inSize - outSize) > env.args.percentTolerance * inSize {
      JournalRecordOne(log.State(), ws[0]);
      log.LogWarning(SizeReductionTooHigh(Basename(output), Sizes(inSize, outSize), codec));
    }
    JournalAppend(j0, durations, ws);
    return Ok(Sizes(inSize, outSize));
  }

  /** `remove_file`: one information, then the removal, which raises for a missing file. */
  method RemoveFile(log: GlobalLog, path: string, fs: FileSystem) returns (fs': FileSystem, fault: Option<Fault>)
    modifies log
    ensures log.State() == old(log.State()).Record(Event(Level.Info, Removing(path)))
    ensures fs' == fs - {path}
    ensures fault == if path in fs then None else Some(FileNotFound(path))
  {
    log.LogInfo(Removing(path));
    if path !in fs {
      return fs - {path}, Some(FileNotFound(path));
    }
    return fs - {path}, None;
  }

  /** `transcode_file`; it returns the exception it raises, if any. */
  method TranscodeFile(log: GlobalLog, stats: Stats, env: Env,
                       src: string, codec: string, out: string, fs: FileSystem) returns (fs': FileSystem, fault: Option<Fault>)
    modifies log, stats
    ensures Outcome(Run(log.State(), stats.totalSaved, fs'), fault) ==
            TranscodeFileSpec(env, src, codec, out, Run(old(log.State()), old(stats.totalSaved), fs))
  {
    var cmd := Command(env, src, out);
    log.LogInfo(Running(cmd));
    var outcome := env.encoder(cmd);
    var fs1 := if outcome.output.Some? then fs[out := outcome.output.value] else fs;
    ghost var s2 := Run(log.State(), stats.totalSaved, fs1);
    if outcome.code != 0 {
      log.LogError(EncodeFailed(cmd));
      fs', fault := RemoveFile(log, out, fs1);
      assert Outcome(Run(log.State(), stats.totalSaved, fs'), fault) == Failure(s2, cmd, out);
      return;
    }
    fs' := fs1;
    fault := CompareAndReport(log, stats, env, src, codec, out, fs1);
  }

  /** The end of `transcode_file` once the encoder succeeded: compare, then "job done". */
  method CompareAndReport(log: GlobalLog, stats: Stats, env: Env,
                          src: string, codec: string, out: string, fs: FileSystem) returns (fault: Option<Fault>)
    modifies log, stats
    ensures Outcome(Run(log.State(), stats.totalSaved, fs), fault) ==
            Finish(env, src, codec, out, Run(old(log.State()), old(stats.totalSaved), fs))
  {
    ghost var s0 := Run(log.State(), stats.totalSaved, fs);
    var c := CompareInputOutput(log, stats, env, src, out, codec, fs);
    ghost var s := Compared(s0, CompareSpec(env, src, out, codec, fs));
    assert Run(log.State(), stats.totalSaved, fs) == s;
    if c.Raise? {
      return Some(c.fault);
    }
    log.LogInfo(JobDone(out, c.value, stats.totalSaved));
    return None;
  }

  /**
   * `transcode`: walk the directories in the order `os.walk` lists them;
   * any exception ends the walk and is returned.
   */
  method Transcode(log: GlobalLog, stats: Stats, env: Env,
                   listing: seq<(string, seq<string>)>, fs: FileSystem) returns (fs': FileSystem, fault: Option<Fault>)
    modifies log, stats
    ensures Walked(Run(log.State(), stats.totalSaved, fs'), fault) ==
            Walk(env, Entries(listing), Run(old(log.State()), old(stats.totalSaved), fs))
  {
    ghost var init := Run(log.State(), stats.totalSaved, fs);
    fs' := fs;
    for i := 0 to |listing|
      invariant Walk(env, Entries(listing[..i]), init) == Walked(Run(log.State(), stats.totalSaved, fs'), None)
    {
      var root := listing[i].0;
      var files := listing[i].1;
      assert Entries(listing[..i]) + Pairs(root, files[..0]) == Entries(listing[..i]);
      for j := 0 to |files|
        invariant Walk(env, Entries(listing[..i]) + Pairs(root, files[..j]), init) ==
                  Walked(Run(log.State(), stats.totalSaved, fs'), None)
      {
        WalkNext(VisitStep(env), listing, i, j, init);
        var f;
        fs', f := VisitFile(log, stats, env, root, files[j], fs');
        if f.Some? {
          return fs', f;
        }
      }
      WalkNextDirectory(VisitStep(env), listing, i, init);
    }
    assert listing[..|listing|] == listing;
    return fs', None;
  }

  /** One iteration of the loop of `transcode`; it returns the exception it raises, if any. */
  method VisitFile(log: GlobalLog, stats: Stats, env: Env,
                   root: string, name: string, fs: FileSystem) returns (fs': FileSystem, fault: Option<Fault>)
    modifies log, stats
    ensures Outcome(Run(log.State(), stats.totalSaved, fs'), fault) ==
            Visit(env, Run(old(log.State()), old(stats.totalSaved), fs), (root, name))
  {
    var src := SourceNameAsWritten(root, name);
    var codec := FetchCodecName(log, env.probes, src);
    assert Visit(env, Run(old(log.State()), old(stats.totalSaved), fs), (root, name)) ==
           Act(env, Run(log.State(), stats.totalSaved, fs), src, codec);
    fs', fault := ActOn(log, stats, env, src, codec, fs);
  }

  /** What an iteration does once the codec is probed. */
  method ActOn(log: GlobalLog, stats: Stats, env: Env,
               src: string, codec: string, fs: FileSystem) returns (fs': FileSystem, fault: Option<Fault>)
    modifies log, stats
    ensures Outcome(Run(log.State(), stats.totalSaved, fs'), fault) ==
            Act(env, Run(old(log.State()), old(stats.totalSaved), fs), src, codec)
  {
    ghost var s1 := Run(log.State(), stats.totalSaved, fs);
    if Contains(env.args.encoder.outputVideoCodec, codec) {
      ActSkipped(env, s1, src, codec);
      fs', fault := CopyOther(log, stats, env, src, codec, fs);
      return;
    }
    var ext := ContainerExt(env.args);
    if ext.None? {
      ActUnconfigured(env, s1, src, codec);
      return fs, Some(TypeMismatch);
    }
    ActUnskipped(env, s1, src, codec);
    fs', fault := ProcessFile(log, stats, env, src, codec, ext.value, fs);
  }

  /**
   * The rest of an iteration for a file whose codec is skipped: with
   * `copy_others`, a file not yet in the output directory is logged and
   * copied there; reading a missing source raises.
   */
  method CopyOther(log: GlobalLog, stats: Stats, env: Env,
                   src: string, codec: string, fs: FileSystem) returns (fs': FileSystem, fault: Option<Fault>)
    modifies log
    ensures Outcome(Run(log.State(), stats.totalSaved, fs'), fault) ==
            Perform(env, Run(old(log.State()), stats.totalSaved, fs), src, codec,
                    Decide(true, env.copyOthers, env.args.outputDir, "", fs, src))
  {
    ghost var d := Decide(true, env.copyOthers, env.args.outputDir, "", fs, src);
    if env.copyOthers {
      var dest := Join(env.args.outputDir, Basename(src));
      if dest !in fs {
        assert d == Copy(dest);
        log.LogInfo(Copying(dest));
        if src !in fs {
          return fs, Some(FileNotFound(src));
        }
        return fs[dest := fs[src]], None;
      }
    }
    assert d == Skip;
    return fs, None;
  }

  /**
   * The rest of an iteration for a file whose codec is not skipped, once the
   * container extension is known: the output name, then the skip list, then
   * a comparison with an existing output or an encode.
   */
  method ProcessFile(log: GlobalLog, stats: Stats, env: Env,
                     src: string, codec: string, ext: string, fs: FileSystem) returns (fs': FileSystem, fault: Option<Fault>)
    modifies log, stats
    ensures Outcome(Run(log.State(), stats.totalSaved, fs'), fault) ==
            Perform(env, Run(old(log.State()), old(stats.totalSaved), fs), src, codec,
                    Decide(false, env.copyOthers, env.args.outputDir, env.args.outputSuffix + ext, fs, src))
  {
    ghost var s1 := Run(log.State(), stats.totalSaved, fs);
    ghost var d := Decide(false, env.copyOthers, env.args.outputDir, env.args.outputSuffix + ext, fs, src);
    var outputFilename := SplitExt(src).0 + (env.args.outputSuffix + ext);
    if Lower(SplitExt(src).1) in SkipExtensions {
      assert d == SkipListed;
      return fs, None;
    }
    var outputFile := Join(env.args.outputDir, Basename(outputFilename));
    if outputFile in fs {
      assert d == CompareOnly(outputFile);
      PerformCompareOnly(env, s1, src, codec, outputFile);
      var c := CompareInputOutput(log, stats, env, src, outputFile, codec, fs);
      return fs, if c.Raise? then Some(c.fault) else None;
    }
    assert d == Encode(outputFile);
    PerformEncode(env, s1, src, codec, outputFile);
    fs', fault := TranscodeFile(log, stats, env, src, codec, outputFile, fs);
  }
}
