/**
 * What the main version (tabarnak/tabarnak.py) promises about comparisons,
 * encodes and the walk, proved about the model.
 */
module TabarnakProperties {
  import opened Wrappers
  import opened Text
  import opened Paths
  import opened Media
  import opened Encoding
  import opened Walking
  import opened Jobs
  import opened Tabarnak
  import opened TabarnakTranscode

  /**
   * The comparison records a duration error iff the durations differ by more
   * than the tolerance, and, for a non-empty input, a size warning iff the
   * saved percentage is above the tolerance; the bytes it reports saved are
   * the difference of the sizes, a missing file counting as empty.
   */
  lemma CompareReports(env: Env, input: string, output: string, codec: string, fs: FileSystem)
    ensures var c := CompareSpec(env, input, output, codec, fs);
            var inFrames := DurationOf(input, env.probes.duration(input)).value;
            var outFrames := DurationOf(output, env.probes.duration(output)).value;
            ((exists k :: 0 <= k < |c.events| && c.events[k].msg.DurationDiffers?)
               <==> DurationExceeded(inFrames, outFrames, env.args.durationTolerance))
            && (SizeOrZero(fs, input) > 0 ==>
                 ((exists k :: 0 <= k < |c.events| && c.events[k].msg.SizeReductionTooHigh?)
                    <==> PercentExceeded(SizeOrZero(fs, input), SizeOrZero(fs, output), env.args.percentTolerance)))
            && (c.outcome.Ok? ==> c.outcome.value.Saved() == SizeOrZero(fs, input) - SizeOrZero(fs, output))
  {
    var di := DurationOf(input, env.probes.duration(input));
    var dout := DurationOf(output, env.probes.duration(output));
    var check := DurationCheck(input, di.value, output, dout.value, env.args.durationTolerance);
    var sizes := Sizes(SizeOrZero(fs, input), SizeOrZero(fs, output));
    var c := CompareSpec(env, input, output, codec, fs);
    var probes := di.events + dout.events;
    assert forall k :: 0 <= k < |probes| ==> !probes[k].msg.DurationDiffers? && !probes[k].msg.SizeReductionTooHigh? by {
      forall k | 0 <= k < |probes|
        ensures !probes[k].msg.DurationDiffers? && !probes[k].msg.SizeReductionTooHigh?
      {
        if k < |di.events| {
          assert probes[k] == di.events[k];
        } else {
          assert probes[k] == dout.events[k - |di.events|];
        }
      }
    }
    var ws := if sizes.input == 0 then [] else SizeCheck(sizes, output, codec, env.args.percentTolerance).value;
    assert c.events == probes + check + ws;
    EventKinds(probes, check, ws);
  }

  /**
   * A failed encode, by a non-zero exit status or an output of no duration:
   * the new file result holds exactly one exception (so its status is false),
   * the output is removed, nothing is compared, `total_saved` is unchanged and
   * nothing else is recorded.
   */
  lemma FailedEncode(env: Env, src: string, codec: string, out: string, st: Run)
    requires st.Valid()
    requires env.encoder(Command(env, src, out)).code != 0 || DurationOf(out, env.probes.duration(out)).value == 0
    ensures var cmd := Command(env, src, out);
            var outcome := env.encoder(cmd);
            var r := TranscodeFileSpec(env, src, codec, out, st);
            var fr := r.results.files[|st.results.files|];
            fr.exceptions == [if outcome.code != 0 then EncoderFailed(cmd, outcome.code) else EmptyOutput(cmd, out)]
            && !fr.Status()
            && fr.infos == [Running(cmd), Removing(out)] && fr.errors == []
            && r.results.files[..|st.results.files|] == st.results.files && r.results.run == st.results.run
            && r.totalSaved == st.totalSaved && out !in r.fs
  {
    var cmd := Command(env, src, out);
    var c := |st.results.files|;
    var e := st.results.Enter();
    var s1 := e.Record(Event(Level.Info, Running(cmd)));
    assert s1.files[c] == FreshFileResult.(infos := [Running(cmd)]);
    assert s1.files[..c] == st.results.files;
    if env.encoder(cmd).code == 0 {
      var d := DurationOf(out, env.probes.duration(out));
      RecordInScope(s1, d.events);
    }
  }

  /**
   * A successful encode of a non-empty input: the new file result holds no
   * exception and ends with "job done" and the sizes; `total_saved` grows by
   * the bytes saved, and the output is kept.
   */
  lemma SuccessfulEncode(env: Env, src: string, codec: string, out: string, st: Run)
    requires st.Valid()
    requires env.encoder(Command(env, src, out)).code == 0 && DurationOf(out, env.probes.duration(out)).value != 0
    requires SizeOrZero(AfterEncode(st.fs, out, env.encoder(Command(env, src, out))), src) > 0
    ensures var fs1 := AfterEncode(st.fs, out, env.encoder(Command(env, src, out)));
            var sizes := Sizes(SizeOrZero(fs1, src), SizeOrZero(fs1, out));
            var r := TranscodeFileSpec(env, src, codec, out, st);
            var fr := r.results.files[|st.results.files|];
            fr.Status() && fr.errors == [] && fr.infos != [] && fr.infos[|fr.infos| - 1] == JobDone(out, sizes, r.totalSaved)
            && r.results.files[..|st.results.files|] == st.results.files && r.results.run == st.results.run
            && r.totalSaved == st.totalSaved + sizes.Saved() && r.fs == fs1
  {
    var cmd := Command(env, src, out);
    var fs1 := AfterEncode(st.fs, out, env.encoder(cmd));
    var c := |st.results.files|;
    var e := st.results.Enter();
    var s1 := e.Record(Event(Level.Info, Running(cmd)));
    assert s1.files[c] == FreshFileResult.(infos := [Running(cmd)]);
    assert s1.files[..c] == st.results.files;
    var d := DurationOf(out, env.probes.duration(out));
    var s2 := s1.RecordAll(d.events);
    RecordInScope(s1, d.events);
    var cmp := CompareSpec(env, src, out, codec, fs1);
    RecordInScope(s2, cmp.events);
  }

  /**
   * For the target codecs the command line offers, a file is skipped exactly
   * when its probed codec is empty or is the target itself.
   */
  lemma SkipRule(env: Env, src: string)
    requires env.args.encoder.outputVideoCodec in ["h264", "hevc", "av1", "vp9"]
    ensures var codec := CodecName(src, env.probes.codec(src)).value;
            Contains(env.args.encoder.outputVideoCodec, codec) <==> codec == "" || codec == env.args.encoder.outputVideoCodec
  {
    SubstringSkipIsEquality(CodecName(src, env.probes.codec(src)).value, env.args.encoder.outputVideoCodec);
  }

  /**
   * A file is encoded when its codec is not skipped, the output name can be
   * built, its extension is not skip-listed and its output does not exist.
   */
  predicate Encodes(env: Env, fs: FileSystem, src: string, codec: string) {
    var ext := ContainerExt(env.args);
    !Contains(env.args.encoder.outputVideoCodec, codec) && ext.Some? && !SkipListedExt(src)
    && OutputFile(env.args.outputDir, src, env.args.outputSuffix + ext.value) !in fs
  }

  /**
   * Outside a scope, a visit adds a file result exactly when it encodes, and
   * otherwise leaves the file results as they were.
   */
  lemma VisitResults(env: Env, st: Run, root: string, name: string)
    requires st.Valid() && st.results.current.None?
    ensures var src := SourceNameAsWritten(root, name);
            var codec := CodecName(src, env.probes.codec(src)).value;
            var r := Visit(env, st, (root, name)).run;
            var n := |st.results.files|;
            (Encodes(env, st.fs, src, codec) ==> |r.results.files| == n + 1 && r.results.files[..n] == st.results.files)
            && (!Encodes(env, st.fs, src, codec) ==> r.results.files == st.results.files)
  {
    var src := SourceNameAsWritten(root, name);
    var cp := CodecName(src, env.probes.codec(src));
    RecordKeepsStatus(st.results, cp.events);
    ActResults(env, st.Log(cp.events), src, cp.value);
  }

  lemma ActResults(env: Env, st: Run, src: string, codec: string)
    requires st.Valid() && st.results.current.None?
    ensures var r := Act(env, st, src, codec).run;
            var n := |st.results.files|;
            (Encodes(env, st.fs, src, codec) ==> |r.results.files| == n + 1 && r.results.files[..n] == st.results.files)
            && (!Encodes(env, st.fs, src, codec) ==> r.results.files == st.results.files)
  {
    var ext := ContainerExt(env.args);
    if Encodes(env, st.fs, src, codec) {
      EncodePrefix(env, src, codec, OutputFile(env.args.outputDir, src, env.args.outputSuffix + ext.value), st);
    } else if !Contains(env.args.encoder.outputVideoCodec, codec) && ext.Some? && !SkipListedExt(src) {
      var out := OutputFile(env.args.outputDir, src, env.args.outputSuffix + ext.value);
      RecordKeepsStatus(st.results, CompareSpec(env, src, out, codec, st.fs).events);
    }
  }

  /** Encoding a file appends its result and leaves the results before it alone. */
  lemma EncodePrefix(env: Env, src: string, codec: string, out: string, st: Run)
    requires st.Valid()
    ensures TranscodeFileSpec(env, src, codec, out, st).results.files[..|st.results.files|] == st.results.files
  {
    var cmd := Command(env, src, out);
    var c := |st.results.files|;
    var e := st.results.Enter();
    assert e.files[..c] == st.results.files;
    var s1 := e.Record(Event(Level.Info, Running(cmd)));
    var d := DurationOf(out, env.probes.duration(out));
    var s2 := s1.RecordAll(d.events);
    RecordInScope(s1, d.events);
    var fs1 := AfterEncode(st.fs, out, env.encoder(cmd));
    RecordInScope(s2, CompareSpec(env, src, out, codec, fs1).events);
  }

  /** A file whose output exists is compared and not encoded: the filesystem is left as it was. */
  lemma ExistingOutputNotEncoded(env: Env, st: Run, src: string, codec: string)
    requires st.Valid()
    requires !Contains(env.args.encoder.outputVideoCodec, codec) && ContainerExt(env.args).Some?
    requires OutputFile(env.args.outputDir, src, env.args.outputSuffix + ContainerExt(env.args).value) in st.fs
    ensures Act(env, st, src, codec).run.fs == st.fs
    ensures Act(env, st, src, codec).run.results.current == st.results.current
    ensures |Act(env, st, src, codec).run.results.files| == |st.results.files|
  {
    var tail := env.args.outputSuffix + ContainerExt(env.args).value;
    var d := Decide(false, env.copyOthers, env.args.outputDir, tail, st.fs, src);
    ActUnskipped(env, st, src, codec);
    if d.CompareOnly? {
      CompareKeepsFiles(env, st, src, codec, d.output);
    } else {
      assert d.SkipListed?;
    }
  }

  /** A comparison changes neither the filesystem nor the scope nor the number of file results. */
  lemma CompareKeepsFiles(env: Env, st: Run, src: string, codec: string, out: string)
    requires st.Valid()
    ensures Perform(env, st, src, codec, CompareOnly(out)).run.fs == st.fs
    ensures Perform(env, st, src, codec, CompareOnly(out)).run.results.current == st.results.current
    ensures |Perform(env, st, src, codec, CompareOnly(out)).run.results.files| == |st.results.files|
  {
  }

  /** The walk's state: valid, outside any scope, and without an error in any file result. */
  predicate Clean(s: Run) {
    s.Valid() && s.results.current.None? && s.results.NoFileErrors()
  }

  /** Noting one event never gives a file result an error. */
  lemma NoteKeepsNoErrors(st: Run, e: Event)
    requires st.Valid()
    ensures st.results.NoFileErrors() ==> st.Note(e).results.NoFileErrors()
  {
    assert [e][..0] == [];
    RecordKeepsStatus(st.results, [e]);
  }

  /** The steps of an encode never give a file result an error. */
  lemma EncodeKeepsNoErrors(env: Env, src: string, codec: string, out: string, st: Run)
    requires st.Valid() && st.results.NoFileErrors()
    ensures EncodeSteps(env, src, codec, out, st).run.results.NoFileErrors()
  {
    var cmd := Command(env, src, out);
    var s1 := st.Note(Event(Level.Info, Running(cmd)));
    NoteKeepsNoErrors(st, Event(Level.Info, Running(cmd)));
    NoteKeepsNoErrors(s1, Event(Level.Info, Removing(out)));
    var fs1 := AfterEncode(s1.fs, out, env.encoder(cmd));
    if env.encoder(cmd).code == 0 {
      var d := DurationOf(out, env.probes.duration(out));
      var s2 := s1.Log(d.events);
      RecordKeepsStatus(s1.results, d.events);
      NoteKeepsNoErrors(s2, Event(Level.Info, Removing(out)));
      if d.value != 0 {
        var s := s2.(fs := fs1);
        var c := CompareSpec(env, src, out, codec, s.fs);
        RecordKeepsStatus(s.results, c.events);
        NoteKeepsNoErrors(Compared(s, c), Event(Level.Info, JobDone(out, if c.outcome.Ok? then c.outcome.value else Sizes(0, 0), Compared(s, c).totalSaved)));
      }
    }
  }

  /** Transcoding a file in its scope never gives a file result an error. */
  lemma TranscodeKeepsNoErrors(env: Env, src: string, codec: string, out: string, st: Run)
    requires st.Valid() && st.results.NoFileErrors()
    ensures TranscodeFileSpec(env, src, codec, out, st).results.NoFileErrors()
  {
    var e := st.(results := st.results.Enter());
    ScopeStatus(st.results, None);
    EncodeKeepsNoErrors(env, src, codec, out, e);
    var o := EncodeSteps(env, src, codec, out, e);
    ScopeStatus(o.run.results, o.fault);
  }

  /** Carrying out a decision keeps the walk's state clean. */
  lemma PerformKeepsClean(env: Env, st: Run, src: string, codec: string, d: Decision)
    requires Clean(st)
    ensures Clean(Perform(env, st, src, codec, d).run)
  {
    match d
    case CompareOnly(out) =>
      RecordKeepsStatus(st.results, CompareSpec(env, src, out, codec, st.fs).events);
    case Encode(out) =>
      TranscodeKeepsNoErrors(env, src, codec, out, st);
    case _ =>
  }

  /** A visit keeps the walk's state clean. */
  lemma VisitKeepsClean(env: Env, st: Run, entry: (string, string))
    requires Clean(st)
    ensures Clean(Visit(env, st, entry).run)
  {
    var src := SourceNameAsWritten(entry.0, entry.1);
    var cp := CodecName(src, env.probes.codec(src));
    var s := st.Log(cp.events);
    RecordKeepsStatus(st.results, cp.events);
    assert Visit(env, st, entry) == Act(env, s, src, cp.value);
    if Contains(env.args.encoder.outputVideoCodec, cp.value) {
      ActSkipped(env, s, src, cp.value);
      PerformKeepsClean(env, s, src, cp.value, Decide(true, env.copyOthers, env.args.outputDir, "", s.fs, src));
    } else if ContainerExt(env.args).Some? {
      ActUnskipped(env, s, src, cp.value);
      PerformKeepsClean(env, s, src, cp.value, Decide(false, env.copyOthers, env.args.outputDir,
                                         env.args.outputSuffix + ContainerExt(env.args).value, s.fs, src));
    } else {
      ActUnconfigured(env, s, src, cp.value);
    }
  }

  /**
   * All along the walk of `transcode`, no file scope is left open and no file
   * result ever holds an error: `error()` inside a scope goes to the warnings.
   */
  lemma WalkStaysClean(env: Env, es: seq<(string, string)>, st: Run)
    requires Clean(st)
    ensures Clean(Walk(env, es, st).state)
  {
    forall s: Run, e: (string, string) | Clean(s)
      ensures Clean(VisitStep(env)(s, e).state)
    {
      VisitKeepsClean(env, s, e);
    }
    WalkKeeps(VisitStep(env), Clean, es, st);
  }

  /**
   * The exceptions that can end the walk: a division by zero in a comparison,
   * a source missing when copied, and the failed concatenation when the
   * output codec has no container extension; an encode's own exception never
   * escapes its scope.
   */
  predicate WalkFault(env: Env, f: Fault) {
    f.ZeroDivision? || f.FileNotFound? || (f.TypeMismatch? && !Configured(env.args))
  }

  /** The exceptions a decision can raise. */
  lemma PerformFaults(env: Env, st: Run, src: string, codec: string, d: Decision)
    requires st.Valid()
    ensures var o := Perform(env, st, src, codec, d);
            o.fault.Some? ==> o.fault.value.ZeroDivision? || o.fault.value == FileNotFound(src)
    ensures d.Skip? || d.SkipListed? || d.Encode? ==> Perform(env, st, src, codec, d).fault.None?
  {
  }

  /** The exceptions a visit can raise. */
  lemma VisitFaults(env: Env, st: Run, entry: (string, string))
    requires st.Valid()
    ensures var o := Visit(env, st, entry);
            o.fault.Some? ==> WalkFault(env, o.fault.value)
  {
    var src := SourceNameAsWritten(entry.0, entry.1);
    var cp := CodecName(src, env.probes.codec(src));
    var s := st.Log(cp.events);
    assert Visit(env, st, entry) == Act(env, s, src, cp.value);
    if Contains(env.args.encoder.outputVideoCodec, cp.value) {
      ActSkipped(env, s, src, cp.value);
      PerformFaults(env, s, src, cp.value, Decide(true, env.copyOthers, env.args.outputDir, "", s.fs, src));
    } else if ContainerExt(env.args).Some? {
      ActUnskipped(env, s, src, cp.value);
      PerformFaults(env, s, src, cp.value, Decide(false, env.copyOthers, env.args.outputDir,
                                         env.args.outputSuffix + ContainerExt(env.args).value, s.fs, src));
    } else {
      ActUnconfigured(env, s, src, cp.value);
    }
  }

  /** Every exception that ends the walk of `transcode` is one of those. */
  lemma WalkFaults(env: Env, es: seq<(string, string)>, st: Run)
    ensures var w := Walk(env, es, st);
            w.fault.Some? ==> WalkFault(env, w.fault.value)
  {
    forall s: Run, e: (string, string) | VisitStep(env)(s, e).fault.Some?
      ensures WalkFault(env, VisitStep(env)(s, e).fault.value)
    {
      if s.Valid() {
        VisitFaults(env, s, e);
      }
    }
    WalkRaises(VisitStep(env), f => WalkFault(env, f), es, st);
  }
}
