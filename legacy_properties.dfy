/**
 * What the older version (tabarnak.py) promises about comparisons, encodes
 * and the walk, proved about the model.
 */
module LegacyProperties {
  import opened Wrappers
  import opened Text
  import opened Paths
  import opened Media
  import opened RunState
  import opened Encoding
  import opened Walking
  import opened Jobs
  import opened LegacyTabarnak

  /**
   * The duration events hold a duration error iff the durations differ by
   * more than the tolerance, and never a size warning.
   */
  lemma DurationPartKinds(env: Env, input: string, output: string)
    ensures var p := DurationPart(env, input, output);
            var inFrames := DurationFrames(input, env.probes.duration(input)).value;
            var outFrames := DurationFrames(output, env.probes.duration(output)).value;
            ((exists k :: 0 <= k < |p| && p[k].msg.DurationDiffers?)
               <==> DurationExceeded(inFrames, outFrames, env.args.durationTolerance))
            && (forall k :: 0 <= k < |p| ==> !p[k].msg.SizeReductionTooHigh?)
  {
    var di := DurationFrames(input, env.probes.duration(input));
    var dout := DurationFrames(output, env.probes.duration(output));
    var check := DurationCheck(input, di.value, output, dout.value, env.args.durationTolerance);
    ProbeMessagesJoin(di.events, dout.events);
    assert DurationPart(env, input, output) == di.events + dout.events + check;
    CheckedKinds(di.events + dout.events, check);
  }

  /**
   * The comparison logs the duration events, then, once both sizes are read
   * and the input is not empty, the size check's warnings.
   */
  lemma CompareEvents(env: Env, input: string, output: string, codec: string, fs: FileSystem)
    ensures CompareSpec(env, input, output, codec, fs).events ==
            DurationPart(env, input, output)
            + (if input in fs && output in fs && fs[input] > 0
               then SizeCheck(Sizes(fs[input], fs[output]), output, codec, env.args.percentTolerance).value
               else [])
  {
    var durations := DurationPart(env, input, output);
    if input in fs && output in fs {
      var sizes := Sizes(fs[input], fs[output]);
      assert CompareSpec(env, input, output, codec, fs) == CompareSizes(durations, sizes, output, codec, env.args.percentTolerance);
      if fs[input] == 0 {
        assert durations + [] == durations;
      }
    } else {
      assert durations + [] == durations;
    }
  }

  /**
   * The comparison logs a duration error iff the durations differ by more
   * than the tolerance and, once both sizes are read and the input is not
   * empty, a size warning iff the saved percentage is above the tolerance.
   */
  lemma CompareReports(env: Env, input: string, output: string, codec: string, fs: FileSystem)
    ensures var es := CompareSpec(env, input, output, codec, fs).events;
            var inFrames := DurationFrames(input, env.probes.duration(input)).value;
            var outFrames := DurationFrames(output, env.probes.duration(output)).value;
            (exists k :: 0 <= k < |es| && es[k].msg.DurationDiffers?)
              <==> DurationExceeded(inFrames, outFrames, env.args.durationTolerance)
    ensures var es := CompareSpec(env, input, output, codec, fs).events;
            input in fs && output in fs && fs[input] > 0 ==>
              ((exists k :: 0 <= k < |es| && es[k].msg.SizeReductionTooHigh?)
                 <==> PercentExceeded(fs[input], fs[output], env.args.percentTolerance))
  {
    var ws := if input in fs && output in fs && fs[input] > 0
              then SizeCheck(Sizes(fs[input], fs[output]), output, codec, env.args.percentTolerance).value
              else [];
    CompareEvents(env, input, output, codec, fs);
    DurationPartKinds(env, input, output);
    WarnedKinds(DurationPart(env, input, output), ws);
  }

  /**
   * A failed encode logs the command and one error, then removes the output:
   * nothing is compared, "job done" is not logged and `total_saved` is
   * unchanged. The removal raises, and so ends the walk, exactly when the
   * encoder left no output.
   */
  lemma FailedEncode(env: Env, src: string, codec: string, out: string, st: Run)
    requires env.encoder(Command(env, src, out)).code != 0
    ensures var cmd := Command(env, src, out);
            var fs1 := AfterEncode(st.fs, out, env.encoder(cmd));
            var r := TranscodeFileSpec(env, src, codec, out, st);
            r.run.log.infos == st.log.infos + [Running(cmd), Removing(out)]
            && r.run.log.errors == st.log.errors + [EncodeFailed(cmd)]
            && r.run.log.warnings == st.log.warnings
            && r.run.totalSaved == st.totalSaved && r.run.fs == fs1 - {out}
            && (r.fault.Some? <==> out !in fs1)
            && (r.fault.Some? ==> r.fault.value == FileNotFound(out))
  {
    var cmd := Command(env, src, out);
    var s1 := st.Note(Event(Level.Info, Running(cmd)));
    var s2 := s1.(fs := AfterEncode(s1.fs, out, env.encoder(cmd)));
    var s3 := s2.Note(Event(Level.Error, EncodeFailed(cmd)));
    assert TranscodeFileSpec(env, src, codec, out, st) == Failure(s2, cmd, out) == RemoveSpec(s3, out);
    assert st.log.infos + [Running(cmd)] + [Removing(out)] == st.log.infos + [Running(cmd), Removing(out)];
  }

  /**
   * A successful encode of a non-empty input, with both files present, logs
   * "job done" last with the sizes, adds the saved bytes to `total_saved` and
   * keeps the output.
   */
  lemma SuccessfulEncode(env: Env, src: string, codec: string, out: string, st: Run)
    requires env.encoder(Command(env, src, out)).code == 0
    requires var fs1 := AfterEncode(st.fs, out, env.encoder(Command(env, src, out)));
             src in fs1 && out in fs1 && fs1[src] > 0
    ensures var fs1 := AfterEncode(st.fs, out, env.encoder(Command(env, src, out)));
            var sizes := Sizes(fs1[src], fs1[out]);
            var r := TranscodeFileSpec(env, src, codec, out, st);
            r.fault.None? && r.run.log.infos != [] && r.run.log.infos[|r.run.log.infos| - 1] == JobDone(out, sizes, r.run.totalSaved)
            && r.run.totalSaved == st.totalSaved + sizes.Saved() && r.run.fs == fs1
  {
  }

  /** A file whose output exists is compared and not encoded: the filesystem is left as it was. */
  lemma ExistingOutputNotEncoded(env: Env, st: Run, src: string, codec: string)
    requires !Contains(env.args.encoder.outputVideoCodec, codec) && ContainerExt(env.args).Some?
    requires OutputFile(env.args.outputDir, src, env.args.outputSuffix + ContainerExt(env.args).value) in st.fs
    ensures Act(env, st, src, codec).run.fs == st.fs
  {
    var tail := env.args.outputSuffix + ContainerExt(env.args).value;
    var d := Decide(false, env.copyOthers, env.args.outputDir, tail, st.fs, src);
    ActUnskipped(env, st, src, codec);
    if d.CompareOnly? {
      PerformCompareOnly(env, st, src, codec, d.output);
    } else {
      assert d.SkipListed?;
    }
  }

  /**
   * The exceptions that can end the walk: a missing file (when sizes are
   * read, an output is removed or a source is copied), a division by an empty
   * input, and the failed concatenation when the output codec has no
   * container extension.
   */
  predicate WalkFault(env: Env, f: Fault) {
    f.ZeroDivision? || f.FileNotFound? || (f.TypeMismatch? && !Configured(env.args))
  }

  /** An encode raises only for a missing file or an empty input. */
  lemma EncodeFaults(env: Env, src: string, codec: string, out: string, st: Run)
    ensures var o := TranscodeFileSpec(env, src, codec, out, st);
            o.fault.Some? ==> o.fault.value.ZeroDivision? || o.fault.value.FileNotFound?
  {
    var cmd := Command(env, src, out);
    var s1 := st.Note(Event(Level.Info, Running(cmd)));
    var s2 := s1.(fs := AfterEncode(s1.fs, out, env.encoder(cmd)));
    if env.encoder(cmd).code != 0 {
      assert TranscodeFileSpec(env, src, codec, out, st) == Failure(s2, cmd, out);
    } else {
      assert TranscodeFileSpec(env, src, codec, out, st) == Finish(env, src, codec, out, s2);
    }
  }

  /** The exceptions a decision can raise. */
  lemma PerformFaults(env: Env, st: Run, src: string, codec: string, d: Decision)
    ensures var o := Perform(env, st, src, codec, d);
            o.fault.Some? ==> o.fault.value.ZeroDivision? || o.fault.value.FileNotFound?
  {
    match d
    case CompareOnly(out) =>
      PerformCompareOnly(env, st, src, codec, out);
    case Encode(out) =>
      PerformEncode(env, st, src, codec, out);
      EncodeFaults(env, src, codec, out, st);
    case _ =>
  }

  /** The exceptions a visit can raise. */
  lemma VisitFaults(env: Env, st: Run, entry: (string, string))
    ensures var o := Visit(env, st, entry);
            o.fault.Some? ==> WalkFault(env, o.fault.value)
  {
    var src := SourceNameAsWritten(entry.0, entry.1);
    var cp := CodecName(src, env.probes.codec(src));
    var s := st.Log(cp.events);
    assert Visit(env, st, entry) == Act(env, s, src, cp.value);
    if Contains(env.args.encoder.outputVideoCodec, cp.value) {
      ActSkipped(env, s, src, cp.value);
      PerformFaults(env, s, src, cp.value, Decide(true, env.copyOthers, env.args.outputDir, "", s.fs, src));
    } else if ContainerExt(env.args).Some? {
      ActUnskipped(env, s, src, cp.value);
      PerformFaults(env, s, src, cp.value, Decide(false, env.copyOthers, env.args.outputDir,
                                                  env.args.outputSuffix + ContainerExt(env.args).value, s.fs, src));
    } else {
      ActUnconfigured(env, s, src, cp.value);
    }
  }

  /** Every exception that ends the walk of `transcode` is one of those. */
  lemma WalkFaults(env: Env, es: seq<(string, string)>, st: Run)
    ensures var w := Walk(env, es, st);
            w.fault.Some? ==> WalkFault(env, w.fault.value)
  {
    forall s: Run, e: (string, string) | VisitStep(env)(s, e).fault.Some?
      ensures WalkFault(env, VisitStep(env)(s, e).fault.value)
    {
      VisitFaults(env, s, e);
    }
    WalkRaises(VisitStep(env), f => WalkFault(env, f), es, st);
  }
}
