/**
 * The functions of the oldest version (tarbarnak.py) as methods on its
 * module-level state, the `Globals` object, each proved to do what the
 * matching function of the model says.
 */
module TarbarnakTranscode {
  import opened Wrappers
  import opened Text
  import opened Paths
  import opened Media
  import opened RunState
  import opened Encoding
  import opened Walking
  import opened Tarbarnak

  /** `fetch_codec_name`, with ffprobe's answer for the path as an input. */
  method FetchCodecName(g: Globals, probes: Probes, path: string) returns (codec: string)
    modifies g
    ensures codec == CodecName(path, probes.codec(path)).value
    ensures g.State() == old(g.State()).RecordAll(CodecName(path, probes.codec(path)).events)
    ensures g.totalSaved == old(g.totalSaved)
  {
    var ext := SplitExt(path).1;
    if ext in SkipExtensions {
      return "";
    }
    var probe := probes.codec(path);
    if probe.code != 0 {
      JournalRecordOne(g.State(), Event(Level.Error, ProbeFailed(path, probe.code)));
      g.HandleError(ProbeFailed(path, probe.code));
      return "";
    }
    codec := ReplaceAll(probe.stdout, "\n", "");
    if codec == "" || codec !in VideoCodecs {
      JournalRecordOne(g.State(), Event(Level.Error, InvalidCodec(codec, path)));
      g.HandleError(InvalidCodec(codec, path));
      return "";
    }
  }

  /** `fetch_duration_in_frames`, with ffprobe's answer for the path as an input. */
  method FetchDurationInFrames(g: Globals, probes: Probes, path: string) returns (d: Duration)
    modifies g
    ensures d == FetchDuration(path, probes.duration(path)).value
    ensures g.State() == old(g.State()).RecordAll(FetchDuration(path, probes.duration(path)).events)
    ensures g.totalSaved == old(g.totalSaved)
  {
    var ext := SplitExt(path).1;
    if ext in SkipExtensions {
      return EmptyText;
    }
    var probe := probes.duration(path);
    if probe.code != 0 {
      JournalRecordOne(g.State(), Event(Level.Error, ProbeFailed(path, probe.code)));
      g.HandleError(ProbeFailed(path, probe.code));
      return Frames(0);
    }
    if probe.truncated == 0 {
      JournalRecordOne(g.State(), Event(Level.Error, ZeroDuration(path)));
      g.HandleError(ZeroDuration(path));
    }
    return Frames(probe.truncated);
  }

  /**
   * The duration half of `compare_input_output`: both probes, then, when both
   * durations are numbers, the tolerance check; it answers whether they were.
   */
  method CompareDurations(g: Globals, env: Env, input: string, output: string) returns (subtracted: bool)
    modifies g
    ensures subtracted <==> Subtractable(input, output)
    ensures g.State() == old(g.State()).RecordAll(DurationPart(env, input, output))
    ensures g.totalSaved == old(g.totalSaved)
  {
    ghost var j0 := g.State();
    ghost var di := FetchDuration(input, env.probes.duration(input));
    ghost var dout := FetchDuration(output, env.probes.duration(output));
    var a := FetchDurationInFrames(g, env.probes, input);
    var b := FetchDurationInFrames(g, env.probes, output);
    JournalAppend(j0, di.events, dout.events);
    if a.EmptyText? || b.EmptyText? {
      return false;
    }
    CheckDurations(g, input, a.frames, output, b.frames, env.durationTolerance);
    JournalAppend(j0, di.events + dout.events, DurationCheck(input, a.frames, output, b.frames, env.durationTolerance));
    return true;
  }

  /** The tolerance check of the durations: one error when they differ by more than the tolerance. */
  method CheckDurations(g: Globals, input: string, inFrames: int, output: string, outFrames: int, tolerance: int)
    modifies g
    ensures g.State() == old(g.State()).RecordAll(DurationCheck(input, inFrames, output, outFrames, tolerance))
    ensures g.totalSaved == old(g.totalSaved)
  {
    ghost var check := DurationCheck(input, inFrames, output, outFrames, tolerance);
    if Abs(inFrames - outFrames) > tolerance {
      JournalRecordOne(g.State(), check[0]);
      g.HandleError(DurationDiffers(Basename(input), inFrames, Basename(output), outFrames, outFrames - inFrames));
    }
  }

  /**
   * `compare_input_output`: returns the sizes, or the exception an empty
   * duration, a missing file or an empty input raises; `total_saved` grows
   * by the saved bytes unless it raised.
   */
  method CompareInputOutput(g: Globals, env: Env, input: string, output: string, codec: string, fs: FileSystem)
    returns (r: Try<Sizes>)
    modifies g
    ensures r == CompareSpec(env, input, output, codec, fs).outcome
    ensures g.State() == old(g.State()).RecordAll(CompareSpec(env, input, output, codec, fs).events)
    ensures g.totalSaved == old(g.totalSaved) + (if r.Ok? then r.value.Saved() else 0)
  {
    ghost var j0 := g.State();
    var subtracted := CompareDurations(g, env, input, output);
    if !subtracted {
      return Raise(TypeMismatch);
    }
    ghost var durations := DurationPart(env, input, output);
    if input !in fs {
      return Raise(FileNotFound(input));
    }
    var inSize := fs[input];
    if output !in fs {
      return Raise(FileNotFound(output));
    }
    var outSize := fs[output];
    if inSize == 0 {
      return Raise(ZeroDivision);
    }
    g.AddSaved(inSize - outSize);
    ghost var ws := SizeCheck(Sizes(inSize, outSize), output, codec, env.percentTolerance).value;
    if 100 * (inSize - outSize) > env.percentTolerance * inSize {
      JournalRecordOne(g.State(), ws[0]);
      g.HandleWarning(SizeReductionTooHigh(Basename(output), Sizes(inSize, outSize), codec));
    }
    JournalAppend(j0, durations, ws);
    return Ok(Sizes(inSize, outSize));
  }

  /** `remove_file`: one information, then the removal; a missing file is logged as an error. */
  method RemoveFile(g: Globals, path: string, fs: FileSystem) returns (fs': FileSystem)
    modifies g
    ensures Run(g.State(), g.totalSaved, fs') == RemoveSpec(Run(old(g.State()), old(g.totalSaved), fs), path)
  {
    g.HandleInfo(Removing(path));
    if path !in fs {
      g.HandleError(CannotRemove(path));
      assert fs - {path} == fs;
    }
    return fs - {path};
  }

  /** `run_command`: runs the command line; it succeeds iff the exit status is 0. */
  method RunCommand(shell: string -> EncodeOutcome, cmd: string) returns (ok: bool, outcome: EncodeOutcome)
    ensures outcome == shell(cmd)
    ensures ok <==> shell(cmd).code == 0
  {
    outcome := shell(cmd);
    ok := outcome.code == 0;
  }

  /**
   * The encode at the end of an iteration of `transcode`: log and run the
   * command line; on failure log the error and remove the output; otherwise
   * compare and log "job done".
   */
  method EncodeFile(g: Globals, env: Env, src: string, codec: string, out: string, fs: FileSystem)
    returns (fs': FileSystem, fault: Option<Fault>)
    modifies g
    ensures Outcome(Run(g.State(), g.totalSaved, fs'), fault) ==
            EncodeSpec(env, src, codec, out, Run(old(g.State()), old(g.totalSaved), fs))
  {
    var cmd := "ffmpeg -i \"" + src + "\" " + env.encoder.args + " \"" + out + "\"";
    assert cmd == ShellCommand(env, src, out);
    g.HandleInfo(RunningShell(cmd));
    var ok, outcome := RunCommand(env.shell, cmd);
    var fs1 := if outcome.output.Some? then fs[out := outcome.output.value] else fs;
    if !ok {
      ghost var s2 := Run(g.State(), g.totalSaved, fs1);
      g.HandleError(EncodeFailedShell(cmd));
      fs' := RemoveFile(g, out, fs1);
      assert Run(g.State(), g.totalSaved, fs') == Failure(s2, cmd, out);
      return fs', None;
    }
    fs' := fs1;
    fault := CompareAndReport(g, env, src, codec, out, fs1);
  }

  /** The end of an encode once the command succeeded: compare, then "job done". */
  method CompareAndReport(g: Globals, env: Env, src: string, codec: string, out: string, fs: FileSystem)
    returns (fault: Option<Fault>)
    modifies g
    ensures Outcome(Run(g.State(), g.totalSaved, fs), fault) ==
            Finish(env, src, codec, out, Run(old(g.State()), old(g.totalSaved), fs))
  {
    ghost var s0 := Run(g.State(), g.totalSaved, fs);
    var c := CompareInputOutput(g, env, src, out, codec, fs);
    ghost var s := Compared(s0, CompareSpec(env, src, out, codec, fs));
    assert Run(g.State(), g.totalSaved, fs) == s;
    if c.Raise? {
      return Some(c.fault);
    }
    g.HandleInfo(JobDone(out, c.value, g.totalSaved));
    return None;
  }

  /** An existing output: compare, then, when verbose, log that the file is skipped. */
  method CompareExistingFile(g: Globals, env: Env, src: string, codec: string, out: string, fs: FileSystem)
    returns (fault: Option<Fault>)
    modifies g
    ensures Outcome(Run(g.State(), g.totalSaved, fs), fault) ==
            CompareExisting(env, src, codec, out, Run(old(g.State()), old(g.totalSaved), fs))
  {
    ghost var s0 := Run(g.State(), g.totalSaved, fs);
    var c := CompareInputOutput(g, env, src, out, codec, fs);
    ghost var s := Compared(s0, CompareSpec(env, src, out, codec, fs));
    assert Run(g.State(), g.totalSaved, fs) == s;
    if c.Raise? {
      return Some(c.fault);
    }
    if env.verbose {
      g.HandleInfo(SkippingExisting(out, c.value, g.totalSaved));
    }
    return None;
  }

  /**
   * `transcode`: walk the directories in the order `os.walk` lists them;
   * any exception ends the walk and is returned.
   */
  method Transcode(g: Globals, env: Env, listing: seq<(string, seq<string>)>, fs: FileSystem)
    returns (fs': FileSystem, fault: Option<Fault>)
    modifies g
    ensures Walked(Run(g.State(), g.totalSaved, fs'), fault) ==
            Walk(env, Entries(listing), Run(old(g.State()), old(g.totalSaved), fs))
  {
    ghost var init := Run(g.State(), g.totalSaved, fs);
    fs' := fs;
    for i := 0 to |listing|
      invariant Walk(env, Entries(listing[..i]), init) == Walked(Run(g.State(), g.totalSaved, fs'), None)
    {
      var root := listing[i].0;
      var files := listing[i].1;
      assert Entries(listing[..i]) + Pairs(root, files[..0]) == Entries(listing[..i]);
      for j := 0 to |files|
        invariant Walk(env, Entries(listing[..i]) + Pairs(root, files[..j]), init) ==
                  Walked(Run(g.State(), g.totalSaved, fs'), None)
      {
        WalkNext(VisitStep(env), listing, i, j, init);
        var f;
        fs', f := VisitFile(g, env, root, files[j], fs');
        if f.Some? {
          return fs', f;
        }
      }
      WalkNextDirectory(VisitStep(env), listing, i, init);
    }
    assert listing[..|listing|] == listing;
    return fs', None;
  }

  /** One iteration of the loop of `transcode`; it returns the exception it raises, if any. */
  method VisitFile(g: Globals, env: Env, root: string, name: string, fs: FileSystem)
    returns (fs': FileSystem, fault: Option<Fault>)
    modifies g
    ensures Outcome(Run(g.State(), g.totalSaved, fs'), fault) ==
            Visit(env, Run(old(g.State()), old(g.totalSaved), fs), (root, name))
  {
    var src := SourceNameAsWritten(root, name);
    var codec := FetchCodecName(g, env.probes, src);
    assert Visit(env, Run(old(g.State()), old(g.totalSaved), fs), (root, name)) ==
           Act(env, Run(g.State(), g.totalSaved, fs), name, src, codec);
    fs', fault := ActOn(g, env, name, src, codec, fs);
  }

  /** What an iteration does once the codec is probed. */
  method ActOn(g: Globals, env: Env, name: string, src: string, codec: string, fs: FileSystem)
    returns (fs': FileSystem, fault: Option<Fault>)
    modifies g
    ensures Outcome(Run(g.State(), g.totalSaved, fs'), fault) ==
            Act(env, Run(old(g.State()), old(g.totalSaved), fs), name, src, codec)
  {
    ghost var s1 := Run(g.State(), g.totalSaved, fs);
    if codec == "" || codec == env.encoder.outputVideoCodec {
      ActSkipped(env, s1, name, src, codec);
      if env.verbose {
        g.HandleInfo(Skipping(name, codec));
      }
      fs', fault := CopyOther(g, env, src, codec, fs);
      return;
    }
    var ext := GetContainerExt(OldestConfig, env.encoder.outputVideoCodec);
    if ext.None? {
      ActUnconfigured(env, s1, name, src, codec);
      return fs, Some(TypeMismatch);
    }
    ActUnskipped(env, s1, name, src, codec);
    fs', fault := ProcessFile(g, env, src, codec, ext.value, fs);
  }

  /**
   * The rest of an iteration for a file whose codec is skipped: with
   * `copy_others`, a file not yet in the output directory is logged and
   * copied there; reading a missing source raises.
   */
  method CopyOther(g: Globals, env: Env, src: string, codec: string, fs: FileSystem)
    returns (fs': FileSystem, fault: Option<Fault>)
    modifies g
    ensures Outcome(Run(g.State(), g.totalSaved, fs'), fault) ==
            Perform(env, Run(old(g.State()), old(g.totalSaved), fs), src, codec,
                    Decide(true, env.copyOthers, env.outputDir, "", fs, src))
  {
    ghost var d := Decide(true, env.copyOthers, env.outputDir, "", fs, src);
    if env.copyOthers {
      var dest := Join(env.outputDir, Basename(src));
      if dest !in fs {
        assert d == Copy(dest);
        g.HandleInfo(Copying(dest));
        if src !in fs {
          return fs, Some(FileNotFound(src));
        }
        return fs[dest := fs[src]], None;
      }
    }
    assert d == Skip;
    return fs, None;
  }

  /**
   * The rest of an iteration for a file whose codec is not skipped, once the
   * container extension is known: the output name, then the skip list, then
   * a comparison with an existing output or an encode.
   */
  method ProcessFile(g: Globals, env: Env, src: string, codec: string, ext: string, fs: FileSystem)
    returns (fs': FileSystem, fault: Option<Fault>)
    modifies g
    ensures Outcome(Run(g.State(), g.totalSaved, fs'), fault) ==
            Perform(env, Run(old(g.State()), old(g.totalSaved), fs), src, codec,
                    Decide(false, env.copyOthers, env.outputDir, ext, fs, src))
  {
    ghost var s1 := Run(g.State(), g.totalSaved, fs);
    ghost var d := Decide(false, env.copyOthers, env.outputDir, ext, fs, src);
    var outputFilename := SplitExt(src).0 + ext;
    if Lower(SplitExt(src).1) in SkipExtensions {
      assert d == SkipListed;
      return fs, None;
    }
    var outputFile := Join(env.outputDir, Basename(outputFilename));
    if outputFile in fs {
      assert d == CompareOnly(outputFile);
      PerformCompareOnly(env, s1, src, codec, outputFile);
      fault := CompareExistingFile(g, env, src, codec, outputFile, fs);
      return fs, fault;
    }
    assert d == Encode(outputFile);
    PerformEncode(env, s1, src, codec, outputFile);
    fs', fault := EncodeFile(g, env, src, codec, outputFile, fs);
  }
}
