/**
 * The older single-file version of the transcoder (tabarnak.py): messages go
 * to three global lists, the saved bytes to a `Stats` object, and an
 * exception anywhere in the walk (a missing file when sizes are read or an
 * output is removed, a division by an empty input) ends the run.
 */
module LegacyTabarnak {
  import opened Wrappers
  import opened Text
  import opened Paths
  import opened Media
  import opened RunState
  import opened Encoding
  import opened Walking
  import opened Jobs

  /** The global `infos`, `warnings` and `errors` lists and `log_info`, `log_warning`, `log_error`. */
  class GlobalLog {
    var infos: seq<Message>
    var warnings: seq<Message>
    var errors: seq<Message>

    function State(): Journal
      reads this
    {
      Journal(infos, warnings, errors)
    }

    constructor ()
      ensures State() == EmptyJournal
    {
      infos, warnings, errors := [], [], [];
    }

    /** `log_info`: one more information; the other lists are untouched. */
    method LogInfo(m: Message)
      modifies this
      ensures infos == old(infos) + [m] && warnings == old(warnings) && errors == old(errors)
      ensures State() == old(State()).Record(Event(Level.Info, m))
    {
      infos := infos + [m];
    }

    /** `log_warning`: one more warning; the other lists are untouched. */
    method LogWarning(m: Message)
      modifies this
      ensures warnings == old(warnings) + [m] && infos == old(infos) && errors == old(errors)
      ensures State() == old(State()).Record(Event(Level.Warning, m))
    {
      warnings := warnings + [m];
    }

    /** `log_error`: one more error; the other lists are untouched. */
    method LogError(m: Message)
      modifies this
      ensures errors == old(errors) + [m] && infos == old(infos) && warnings == old(warnings)
      ensures State() == old(State()).Record(Event(Level.Error, m))
    {
      errors := errors + [m];
    }

    /** Logs an event at its own level. */
    method Log(e: Event)
      modifies this
      ensures State() == old(State()).Record(e)
    {
      match e.level
      case Info => LogInfo(e.msg);
      case Warning => LogWarning(e.msg);
      case Error => LogError(e.msg);
    }
  }

  /** `Stats`: the bytes saved so far. */
  class Stats {
    var totalSaved: int

    constructor ()
      ensures totalSaved == 0
    {
      totalSaved := 0;
    }

    /** `increment_total_saved`. */
    method IncrementTotalSaved(value: int)
      modifies this
      ensures totalSaved == old(totalSaved) + value
    {
      totalSaved := totalSaved + value;
    }
  }

  /**
   * `fetch_duration_in_frames`: a path with a skip-listed extension is not
   * probed and has 0 frames without an error; otherwise a failed probe gives
   * 0 and one error, and the truncated duration is returned with an error
   * exactly when it is 0.
   */
  function DurationFrames(path: string, probe: DurationProbe): (r: Probed<int>)
    ensures AllAt(r.events, Level.Error) && |r.events| <= 1
    ensures ProbeMessages(r.events)
    ensures NotProbed(path) ==> r == Probed(0, [])
    ensures !NotProbed(path) && probe.code != 0 ==> r == Probed(0, [Event(Level.Error, ProbeFailed(path, probe.code))])
    ensures !NotProbed(path) && probe.code == 0 ==>
              r.value == probe.truncated && (r.events != [] <==> probe.truncated == 0)
  {
    if NotProbed(path) then Probed(0, []) else DurationOf(path, probe)
  }

  /** Both durations probed, then their tolerance check. */
  function DurationPart(env: Env, input: string, output: string): (r: seq<Event>)
    ensures AllAt(r, Level.Error)
  {
    DurationEvents(input, DurationFrames(input, env.probes.duration(input)),
                   output, DurationFrames(output, env.probes.duration(output)), env.args.durationTolerance)
  }

  /**
   * `compare_input_output`: the durations are compared, then the sizes are
   * read, which raises for a missing input and then for a missing output,
   * and the percentage divides by the input size.
   */
  function CompareSpec(env: Env, input: string, output: string, codec: string, fs: FileSystem): (r: Comparison)
    ensures r.outcome.Raise? <==> input !in fs || output !in fs || fs[input] == 0
    ensures r.outcome.Raise? ==>
              r.outcome.fault == (if input !in fs then FileNotFound(input) else if output !in fs then FileNotFound(output) else ZeroDivision)
    ensures r.outcome.Ok? ==> r.outcome.value == Sizes(fs[input], fs[output])
  {
    var durations := DurationPart(env, input, output);
    match GetSize(fs, input)
    case Raise(f) => Comparison(durations, Raise(f))
    case Ok(inSize) =>
      match GetSize(fs, output)
      case Raise(f) => Comparison(durations, Raise(f))
      case Ok(outSize) => CompareSizes(durations, Sizes(inSize, outSize), output, codec, env.args.percentTolerance)
  }


  /**
   * `remove_file`: one information, then the removal, which raises for a
   * missing file (only a directory's error is caught).
   */
  function RemoveSpec(st: Run, path: string): (r: Outcome)
    ensures r.run.log == st.log.Record(Event(Level.Info, Removing(path))) && r.run.totalSaved == st.totalSaved
    ensures r.run.fs == st.fs - {path} && path !in r.run.fs
    ensures r.fault.Some? <==> path !in st.fs
    ensures r.fault.Some? ==> r.fault.value == FileNotFound(path)
  {
    var s := st.Note(Event(Level.Info, Removing(path)));
    if path in st.fs then Outcome(s.(fs := st.fs - {path}), None)
    else Outcome(s, Some(FileNotFound(path)))
  }

  /**
   * `transcode_file`: run the encoder on the tokens of the arguments; when it
   * fails, log the error and remove the output, without comparing; otherwise
   * compare and log that the job is done. Nothing is caught.
   */
  function TranscodeFileSpec(env: Env, src: string, codec: string, out: string, st: Run): (r: Outcome)
  {
    var cmd := Command(env, src, out);
    var s1 := st.Note(Event(Level.Info, Running(cmd)));
    var outcome := env.encoder(cmd);
    var s2 := s1.(fs := AfterEncode(s1.fs, out, outcome));
    if outcome.code != 0 then Failure(s2, cmd, out)
    else Finish(env, src, codec, out, s2)
  }

  /** A failed encode: the error is logged and the output removed, which raises when there is none. */
  function Failure(st: Run, cmd: seq<string>, out: string): (r: Outcome)
    ensures r.run.totalSaved == st.totalSaved && out !in r.run.fs
    ensures r.fault.Some? <==> out !in st.fs
    ensures r.fault.Some? ==> r.fault.value == FileNotFound(out)
  {
    RemoveSpec(st.Note(Event(Level.Error, EncodeFailed(cmd))), out)
  }

  /** A successful encode: the comparison, then "job done" unless it raised. */
  function Finish(env: Env, src: string, codec: string, out: string, st: Run): (r: Outcome)
    ensures r.run.fs == st.fs
    ensures r.fault.Some? ==> r.fault.value.ZeroDivision? || r.fault.value.FileNotFound?
  {
    var c := CompareSpec(env, src, out, codec, st.fs);
    var s := Compared(st, c);
    match c.outcome
    case Raise(f) => Outcome(s, Some(f))
    case Ok(sizes) => Outcome(s.Note(Event(Level.Info, JobDone(out, sizes, s.totalSaved))), None)
  }

  /**
   * One iteration of the walk in `transcode`: probe the codec; skip (and
   * perhaps copy) a file whose codec is a substring of the target codec;
   * otherwise build the output name, leave skip-listed extensions alone,
   * compare with an existing output, or encode.
   */
  function Visit(env: Env, st: Run, entry: (string, string)): Outcome {
    var src := SourceNameAsWritten(entry.0, entry.1);
    var cp := CodecName(src, env.probes.codec(src));
    Act(env, st.Log(cp.events), src, cp.value)
  }

  /**
   * What the walk does with a file once its codec is probed: a file whose
   * codec is not skipped but has no container extension raises (the output
   * name cannot be built); otherwise the decision is carried out.
   */
  function Act(env: Env, st: Run, src: string, codec: string): Outcome {
    var skip := Contains(env.args.encoder.outputVideoCodec, codec);
    var ext := ContainerExt(env.args);
    if !skip && ext.None? then Outcome(st, Some(TypeMismatch))
    else
      var tail := if skip then "" else env.args.outputSuffix + ext.value;
      Perform(env, st, src, codec, Decide(skip, env.copyOthers, env.args.outputDir, tail, st.fs, src))
  }

  /**
   * Carrying out a decision: a copy is logged before the source is read,
   * which raises when it is missing; a comparison or an encode raises what
   * it raises.
   */
  function Perform(env: Env, st: Run, src: string, codec: string, d: Decision): Outcome {
    match d
    case Skip => Outcome(st, None)
    case SkipListed => Outcome(st, None)
    case Copy(dest) =>
      var s := st.Note(Event(Level.Info, Copying(dest)));
      if src in st.fs then Outcome(s.(fs := st.fs[dest := st.fs[src]]), None)
      else Outcome(s, Some(FileNotFound(src)))
    case CompareOnly(out) => CompareExisting(env, src, codec, out, st)
    case Encode(out) => TranscodeFileSpec(env, src, codec, out, st)
  }

  /** An existing output: the comparison is logged and raises what it raises; nothing else happens. */
  function CompareExisting(env: Env, src: string, codec: string, out: string, st: Run): (r: Outcome)
    ensures r.run.fs == st.fs
    ensures r.fault.Some? ==> r.fault.value.ZeroDivision? || r.fault.value.FileNotFound?
  {
    var c := CompareSpec(env, src, out, codec, st.fs);
    Outcome(Compared(st, c), if c.outcome.Raise? then Some(c.outcome.fault) else None)
  }

  /** A file whose codec is skipped is acted on as `Decide` says. */
  lemma ActSkipped(env: Env, st: Run, src: string, codec: string)
    requires Contains(env.args.encoder.outputVideoCodec, codec)
    ensures Act(env, st, src, codec) == Perform(env, st, src, codec, Decide(true, env.copyOthers, env.args.outputDir, "", st.fs, src))
  {
  }

  /** A file whose codec is not skipped and has a container extension is acted on as `Decide` says. */
  lemma ActUnskipped(env: Env, st: Run, src: string, codec: string)
    requires !Contains(env.args.encoder.outputVideoCodec, codec) && ContainerExt(env.args).Some?
    ensures Act(env, st, src, codec) == Perform(env, st, src, codec,
              Decide(false, env.copyOthers, env.args.outputDir, env.args.outputSuffix + ContainerExt(env.args).value, st.fs, src))
  {
  }

  /** A file whose codec is not skipped and has no container extension raises. */
  lemma ActUnconfigured(env: Env, st: Run, src: string, codec: string)
    requires !Contains(env.args.encoder.outputVideoCodec, codec) && ContainerExt(env.args).None?
    ensures Act(env, st, src, codec) == Outcome(st, Some(TypeMismatch))
  {
  }

  /** Comparing with an existing output is `CompareExisting`. */
  lemma PerformCompareOnly(env: Env, st: Run, src: string, codec: string, out: string)
    ensures Perform(env, st, src, codec, CompareOnly(out)) == CompareExisting(env, src, codec, out, st)
  {
    var d := CompareOnly(out);
    assert !d.Skip? && !d.SkipListed? && !d.Copy? && !d.Encode?;
  }

  /** Encoding is `transcode_file`. */
  lemma PerformEncode(env: Env, st: Run, src: string, codec: string, out: string)
    ensures Perform(env, st, src, codec, Encode(out)) == TranscodeFileSpec(env, src, codec, out, st)
  {
  }

  /** A visit as the walk takes it. */
  function VisitStep(env: Env): (Run, (string, string)) -> Walked<Run> {
    (s: Run, e: (string, string)) => var o := Visit(env, s, e); Walked(o.run, o.fault)
  }

  /** `transcode`: the files visited in walk order; an exception stops the walk. */
  function Walk(env: Env, es: seq<(string, string)>, st: Run): Walked<Run> {
    WalkWith(VisitStep(env), es, st)
  }
}
