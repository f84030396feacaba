/**
 * What the oldest version (tarbarnak.py) promises about comparisons, encodes
 * and the walk, proved about the model.
 */
module TarbarnakProperties {
  import opened Wrappers
  import opened Text
  import opened Paths
  import opened Media
  import opened RunState
  import opened Encoding
  import opened Walking
  import opened Tarbarnak

  /**
   * The duration events hold a duration error iff both durations are
   * numbers and differ by more than the tolerance, and never a size warning.
   */
  lemma DurationPartKinds(env: Env, input: string, output: string)
    ensures var p := DurationPart(env, input, output);
            var inFrames := DurationOf(input, env.probes.duration(input)).value;
            var outFrames := DurationOf(output, env.probes.duration(output)).value;
            ((exists k :: 0 <= k < |p| && p[k].msg.DurationDiffers?)
               <==> Subtractable(input, output) && DurationExceeded(inFrames, outFrames, env.durationTolerance))
            && (forall k :: 0 <= k < |p| ==> !p[k].msg.SizeReductionTooHigh?)
  {
    if Subtractable(input, output) {
      var di := DurationOf(input, env.probes.duration(input));
      var dout := DurationOf(output, env.probes.duration(output));
      var check := DurationCheck(input, di.value, output, dout.value, env.durationTolerance);
      ProbeMessagesJoin(di.events, dout.events);
      assert DurationPart(env, input, output) == di.events + dout.events + check;
      CheckedKinds(di.events + dout.events, check);
    } else {
      var fi := FetchDuration(input, env.probes.duration(input));
      var fo := FetchDuration(output, env.probes.duration(output));
      ProbeMessagesJoin(fi.events, fo.events);
      assert DurationPart(env, input, output) == fi.events + fo.events + [];
      CheckedKinds(fi.events + fo.events, []);
    }
  }

  /**
   * The comparison logs the duration events, then, once both durations are
   * numbers, both sizes are read and the input is not empty, the size
   * check's warnings.
   */
  lemma CompareEvents(env: Env, input: string, output: string, codec: string, fs: FileSystem)
    ensures CompareSpec(env, input, output, codec, fs).events ==
            DurationPart(env, input, output)
            + (if Subtractable(input, output) && input in fs && output in fs && fs[input] > 0
               then SizeCheck(Sizes(fs[input], fs[output]), output, codec, env.percentTolerance).value
               else [])
  {
    var durations := DurationPart(env, input, output);
    if Subtractable(input, output) && input in fs && output in fs {
      var sizes := Sizes(fs[input], fs[output]);
      assert CompareSpec(env, input, output, codec, fs) == CompareSizes(durations, sizes, output, codec, env.percentTolerance);
      if fs[input] == 0 {
        assert durations + [] == durations;
      }
    } else {
      assert durations + [] == durations;
    }
  }

  /**
   * The comparison logs a duration error iff both durations are numbers and
   * differ by more than the tolerance and, once both sizes are read and the
   * input is not empty, a size warning iff the saved percentage is above the
   * tolerance.
   */
  lemma CompareReports(env: Env, input: string, output: string, codec: string, fs: FileSystem)
    ensures var es := CompareSpec(env, input, output, codec, fs).events;
            var inFrames := DurationOf(input, env.probes.duration(input)).value;
            var outFrames := DurationOf(output, env.probes.duration(output)).value;
            (exists k :: 0 <= k < |es| && es[k].msg.DurationDiffers?)
              <==> Subtractable(input, output) && DurationExceeded(inFrames, outFrames, env.durationTolerance)
    ensures var es := CompareSpec(env, input, output, codec, fs).events;
            Subtractable(input, output) && input in fs && output in fs && fs[input] > 0 ==>
              ((exists k :: 0 <= k < |es| && es[k].msg.SizeReductionTooHigh?)
                 <==> PercentExceeded(fs[input], fs[output], env.percentTolerance))
  {
    var ws := if Subtractable(input, output) && input in fs && output in fs && fs[input] > 0
              then SizeCheck(Sizes(fs[input], fs[output]), output, codec, env.percentTolerance).value
              else [];
    CompareEvents(env, input, output, codec, fs);
    DurationPartKinds(env, input, output);
    WarnedKinds(DurationPart(env, input, output), ws);
  }

  /**
   * The walk only compares files whose durations are numbers: a file it
   * compares or encodes is not skip-listed, and its output has a container
   * extension, so the subtraction of `compare_input_output` never meets an
   * empty string.
   */
  lemma ComparedFilesSubtractable(env: Env, fs: FileSystem, src: string)
    requires GetContainerExt(OldestConfig, env.encoder.outputVideoCodec).Some?
    ensures var ext := GetContainerExt(OldestConfig, env.encoder.outputVideoCodec).value;
            var d := Decide(false, env.copyOthers, env.outputDir, ext, fs, src);
            d.CompareOnly? || d.Encode? ==> Subtractable(src, d.output)
  {
    var ext := GetContainerExt(OldestConfig, env.encoder.outputVideoCodec).value;
    var d := Decide(false, env.copyOthers, env.outputDir, ext, fs, src);
    ConfigTables(OldestConfig, env.encoder.outputVideoCodec);
    if d.CompareOnly? || d.Encode? {
      if NotProbed(src) {
        SkipListedWhenExact(src);
      }
      ContainerExtShape(ext);
      assert ext[|ext| - |ext|..] == ext;
      OutputNotSkipListed(env.outputDir, src, ext, ext);
    }
  }

  /**
   * A failed command logs it, one error and the removal, and goes on: nothing
   * is compared, "job done" is not logged, `total_saved` is unchanged and
   * nothing is raised. A second error says the removal failed, exactly when
   * the encoder left no output.
   */
  lemma FailedEncode(env: Env, src: string, codec: string, out: string, st: Run)
    requires env.shell(ShellCommand(env, src, out)).code != 0
    ensures var cmd := ShellCommand(env, src, out);
            var fs1 := AfterShell(st.fs, out, env.shell(cmd));
            var r := EncodeSpec(env, src, codec, out, st);
            r.fault.None?
            && r.run.log.infos == st.log.infos + [RunningShell(cmd), Removing(out)]
            && r.run.log.errors == st.log.errors + [EncodeFailedShell(cmd)] + (if out in fs1 then [] else [CannotRemove(out)])
            && r.run.log.warnings == st.log.warnings
            && r.run.totalSaved == st.totalSaved && r.run.fs == fs1 - {out}
  {
    var cmd := ShellCommand(env, src, out);
    var s1 := st.Note(Event(Level.Info, RunningShell(cmd)));
    var s2 := s1.(fs := AfterShell(s1.fs, out, env.shell(cmd)));
    var s3 := s2.Note(Event(Level.Error, EncodeFailedShell(cmd)));
    assert EncodeSpec(env, src, codec, out, st).run == Failure(s2, cmd, out) == RemoveSpec(s3, out);
    assert st.log.infos + [RunningShell(cmd)] + [Removing(out)] == st.log.infos + [RunningShell(cmd), Removing(out)];
  }

  /**
   * A successful command for a file whose durations are numbers, with both
   * files present and a non-empty input, logs "job done" last with the
   * sizes, adds the saved bytes to `total_saved` and keeps the output.
   */
  lemma SuccessfulEncode(env: Env, src: string, codec: string, out: string, st: Run)
    requires env.shell(ShellCommand(env, src, out)).code == 0 && Subtractable(src, out)
    requires var fs1 := AfterShell(st.fs, out, env.shell(ShellCommand(env, src, out)));
             src in fs1 && out in fs1 && fs1[src] > 0
    ensures var fs1 := AfterShell(st.fs, out, env.shell(ShellCommand(env, src, out)));
            var sizes := Sizes(fs1[src], fs1[out]);
            var r := EncodeSpec(env, src, codec, out, st);
            r.fault.None? && r.run.log.infos != [] && r.run.log.infos[|r.run.log.infos| - 1] == JobDone(out, sizes, r.run.totalSaved)
            && r.run.totalSaved == st.totalSaved + sizes.Saved() && r.run.fs == fs1
  {
    var cmd := ShellCommand(env, src, out);
    var s1 := st.Note(Event(Level.Info, RunningShell(cmd)));
    var s2 := s1.(fs := AfterShell(s1.fs, out, env.shell(cmd)));
    assert EncodeSpec(env, src, codec, out, st) == Finish(env, src, codec, out, s2);
  }

  /** A file whose output exists is compared and not encoded: the filesystem is left as it was. */
  lemma ExistingOutputNotEncoded(env: Env, st: Run, name: string, src: string, codec: string)
    requires !Skipped(env, codec) && GetContainerExt(OldestConfig, env.encoder.outputVideoCodec).Some?
    requires OutputFile(env.outputDir, src, GetContainerExt(OldestConfig, env.encoder.outputVideoCodec).value) in st.fs
    ensures Act(env, st, name, src, codec).run.fs == st.fs
  {
    var ext := GetContainerExt(OldestConfig, env.encoder.outputVideoCodec).value;
    var d := Decide(false, env.copyOthers, env.outputDir, ext, st.fs, src);
    ActUnskipped(env, st, name, src, codec);
    if d.CompareOnly? {
      PerformCompareOnly(env, st, src, codec, d.output);
    } else {
      assert d.SkipListed?;
    }
  }

  /**
   * A skipped file is copied to the output directory only with `copy_others`
   * and when no file of that name is there yet; the copy raises when the
   * source is missing, and nothing else changes.
   */
  lemma SkippedFile(env: Env, st: Run, name: string, src: string, codec: string)
    requires Skipped(env, codec)
    ensures var r := Act(env, st, name, src, codec);
            var dest := CopyDest(env.outputDir, src);
            var copies := env.copyOthers && dest !in st.fs;
            r.run.fs == (if copies && src in st.fs then st.fs[dest := st.fs[src]] else st.fs)
            && r.run.totalSaved == st.totalSaved
            && (r.fault.Some? <==> copies && src !in st.fs)
            && (r.fault.Some? ==> r.fault.value == FileNotFound(src))
  {
    ActSkipped(env, st, name, src, codec);
  }

  /**
   * The exceptions that can end the walk: a missing file (when sizes are
   * read or a source is copied), a division by an empty input, and the
   * failed concatenation when the output codec has no container extension.
   */
  predicate WalkFault(env: Env, f: Fault) {
    f.ZeroDivision? || f.FileNotFound?
    || (f.TypeMismatch? && GetContainerExt(OldestConfig, env.encoder.outputVideoCodec).None?)
  }

  /** An encode of a file whose durations are numbers raises only for a missing file or an empty input. */
  lemma EncodeFaults(env: Env, src: string, codec: string, out: string, st: Run)
    requires Subtractable(src, out)
    ensures var o := EncodeSpec(env, src, codec, out, st);
            o.fault.Some? ==> o.fault.value.ZeroDivision? || o.fault.value.FileNotFound?
  {
    var cmd := ShellCommand(env, src, out);
    var s1 := st.Note(Event(Level.Info, RunningShell(cmd)));
    var s2 := s1.(fs := AfterShell(s1.fs, out, env.shell(cmd)));
    if env.shell(cmd).code == 0 {
      assert EncodeSpec(env, src, codec, out, st) == Finish(env, src, codec, out, s2);
    }
  }

  /** The exceptions a file can raise once its codec is probed. */
  lemma ActFaults(env: Env, st: Run, name: string, src: string, codec: string)
    ensures var o := Act(env, st, name, src, codec);
            o.fault.Some? ==> WalkFault(env, o.fault.value)
  {
    var ext := GetContainerExt(OldestConfig, env.encoder.outputVideoCodec);
    if Skipped(env, codec) {
      SkippedFile(env, st, name, src, codec);
    } else if ext.Some? {
      ActUnskipped(env, st, name, src, codec);
      var d := Decide(false, env.copyOthers, env.outputDir, ext.value, st.fs, src);
      ComparedFilesSubtractable(env, st.fs, src);
      match d
      case CompareOnly(out) =>
        PerformCompareOnly(env, st, src, codec, out);
      case Encode(out) =>
        PerformEncode(env, st, src, codec, out);
        EncodeFaults(env, src, codec, out, st);
      case _ =>
    } else {
      ActUnconfigured(env, st, name, src, codec);
    }
  }

  /** The exceptions a visit can raise. */
  lemma VisitFaults(env: Env, st: Run, entry: (string, string))
    ensures var o := Visit(env, st, entry);
            o.fault.Some? ==> WalkFault(env, o.fault.value)
  {
    var src := SourceNameAsWritten(entry.0, entry.1);
    var cp := CodecName(src, env.probes.codec(src));
    ActFaults(env, st.Log(cp.events), entry.1, src, cp.value);
  }

  /** Every exception that ends the walk of `transcode` is one of those. */
  lemma WalkFaults(env: Env, es: seq<(string, string)>, st: Run)
    ensures var w := Walk(env, es, st);
            w.fault.Some? ==> WalkFault(env, w.fault.value)
  {
    forall s: Run, e: (string, string) | VisitStep(env)(s, e).fault.Some?
      ensures WalkFault(env, VisitStep(env)(s, e).fault.value)
    {
      VisitFaults(env, s, e);
    }
    WalkRaises(VisitStep(env), f => WalkFault(env, f), es, st);
  }

  /**
   * With the encoder arguments the module assembles at start-up, the output
   * codec always has a container extension, so the walk of `transcode` can
   * only end for a missing file or an empty input.
   */
  lemma AssembledWalkFaults(o: EncoderOptions, env: Env, es: seq<(string, string)>, st: Run)
    requires AssembledArgs(o, OldestConfig) == Some(env.encoder)
    ensures var w := Walk(env, es, st);
            w.fault.Some? ==> w.fault.value.ZeroDivision? || w.fault.value.FileNotFound?
  {
    AssembledHasContainer(o, OldestConfig);
    WalkFaults(env, es, st);
  }
}
