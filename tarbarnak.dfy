/**
 * The oldest version of the transcoder (tarbarnak.py): module-level lists
 * and `total_saved`, a shell command line for ffmpeg, a duration probe that
 * answers with an empty string for skip-listed files, and an exception
 * anywhere in the walk ends the run. Nothing is caught but a failed removal.
 *
 * ffprobe, the shell and the filesystem are the inputs of `Env` and the
 * `FileSystem` map; the walk's listing is an input of `Walk`.
 */
module Tarbarnak {
  import opened Wrappers
  import opened Text
  import opened Paths
  import opened Media
  import opened RunState
  import opened Encoding
  import opened Walking

  /**
   * What the run depends on and does not change: ffprobe's answers, the
   * shell's outcome for each command line, the output directory, the
   * assembled encoder arguments and output codec, the two tolerances,
   * `--copy` and `--verbose`.
   */
  datatype Env = Env(
    probes: Probes,
    shell: string -> EncodeOutcome,
    outputDir: string,
    encoder: EncoderArgs,
    durationTolerance: int,
    percentTolerance: int,
    copyOthers: bool,
    verbose: bool)

  /** The global `infos`, `warnings`, `errors` and `total_saved` of the module. */
  class Globals {
    var infos: seq<Message>
    var warnings: seq<Message>
    var errors: seq<Message>
    var totalSaved: int

    function State(): Journal
      reads this
    {
      Journal(infos, warnings, errors)
    }

    constructor ()
      ensures State() == EmptyJournal && totalSaved == 0
    {
      infos, warnings, errors := [], [], [];
      totalSaved := 0;
    }

    /** `handle_info`: one more information; the rest is untouched. */
    method HandleInfo(m: Message)
      modifies this
      ensures infos == old(infos) + [m] && warnings == old(warnings) && errors == old(errors)
      ensures totalSaved == old(totalSaved)
      ensures State() == old(State()).Record(Event(Level.Info, m))
    {
      infos := infos + [m];
    }

    /** `handle_warning`: one more warning; the rest is untouched. */
    method HandleWarning(m: Message)
      modifies this
      ensures warnings == old(warnings) + [m] && infos == old(infos) && errors == old(errors)
      ensures totalSaved == old(totalSaved)
      ensures State() == old(State()).Record(Event(Level.Warning, m))
    {
      warnings := warnings + [m];
    }

    /** `handle_error`: one more error; the rest is untouched. */
    method HandleError(m: Message)
      modifies this
      ensures errors == old(errors) + [m] && infos == old(infos) && warnings == old(warnings)
      ensures totalSaved == old(totalSaved)
      ensures State() == old(State()).Record(Event(Level.Error, m))
    {
      errors := errors + [m];
    }

    /** `total_saved += saved`. */
    method AddSaved(saved: int)
      modifies this
      ensures totalSaved == old(totalSaved) + saved && State() == old(State())
    {
      totalSaved := totalSaved + saved;
    }
  }

  /** What `fetch_duration_in_frames` returns: a number of frames, or "" for a skip-listed file. */
  datatype Duration = Frames(frames: int) | EmptyText

  /**
   * `fetch_duration_in_frames`: a skip-listed file is not probed and gives the
   * empty string; otherwise the answer of ffprobe, truncated, as in the
   * other versions.
   */
  function FetchDuration(path: string, probe: DurationProbe): (r: Probed<Duration>)
    ensures AllAt(r.events, Level.Error) && ProbeMessages(r.events) && |r.events| <= 1
    ensures r.value.EmptyText? <==> NotProbed(path)
    ensures r.value.EmptyText? ==> r.events == []
    ensures r.value.Frames? ==> r.value.frames == DurationOf(path, probe).value && r.events == DurationOf(path, probe).events
  {
    if NotProbed(path) then Probed(EmptyText, [])
    else
      var d := DurationOf(path, probe);
      Probed(Frames(d.value), d.events)
  }

  /**
   * Both durations are numbers, so that `compare_input_output` can subtract
   * them: neither file has an extension of the skip list.
   */
  predicate Subtractable(input: string, output: string) {
    !NotProbed(input) && !NotProbed(output)
  }

  /**
   * The events of the duration half of `compare_input_output`: both probes,
   * then, when both durations are numbers, the tolerance check.
   */
  function DurationPart(env: Env, input: string, output: string): (r: seq<Event>)
    ensures AllAt(r, Level.Error)
  {
    if Subtractable(input, output) then
      DurationEvents(input, DurationOf(input, env.probes.duration(input)),
                     output, DurationOf(output, env.probes.duration(output)), env.durationTolerance)
    else
      FetchDuration(input, env.probes.duration(input)).events + FetchDuration(output, env.probes.duration(output)).events
  }

  /**
   * `compare_input_output`: both durations are fetched; subtracting an empty
   * string raises; otherwise the durations are checked, then the sizes are
   * read, which raises for a missing input and then for a missing output,
   * and the percentage divides by the input size.
   */
  function CompareSpec(env: Env, input: string, output: string, codec: string, fs: FileSystem): (r: Comparison)
    ensures r.outcome.Raise? <==>
              !Subtractable(input, output) || input !in fs || output !in fs || fs[input] == 0
    ensures r.outcome.Raise? ==>
              r.outcome.fault == (if !Subtractable(input, output) then TypeMismatch
                                  else if input !in fs then FileNotFound(input)
                                  else if output !in fs then FileNotFound(output)
                                  else ZeroDivision)
    ensures r.outcome.Ok? ==> r.outcome.value == Sizes(fs[input], fs[output])
  {
    var durations := DurationPart(env, input, output);
    if !Subtractable(input, output) then Comparison(durations, Raise(TypeMismatch))
    else
      match GetSize(fs, input)
      case Raise(f) => Comparison(durations, Raise(f))
      case Ok(inSize) =>
        match GetSize(fs, output)
        case Raise(f) => Comparison(durations, Raise(f))
        case Ok(outSize) => CompareSizes(durations, Sizes(inSize, outSize), output, codec, env.percentTolerance)
  }


  /** `remove_file`: one information, then the removal; a missing file is logged as an error, not raised. */
  function RemoveSpec(st: Run, path: string): (r: Run)
    ensures r.totalSaved == st.totalSaved && r.fs == st.fs - {path}
    ensures r.log.infos == st.log.infos + [Removing(path)] && r.log.warnings == st.log.warnings
    ensures r.log.errors == st.log.errors + (if path in st.fs then [] else [CannotRemove(path)])
  {
    var s := st.Note(Event(Level.Info, Removing(path)));
    if path in st.fs then s.(fs := st.fs - {path})
    else
      var r := s.Note(Event(Level.Error, CannotRemove(path)));
      assert st.fs - {path} == st.fs;
      r
  }

  /** The shell command line `ffmpeg -i "<src>" <args> "<out>"`. */
  function ShellCommand(env: Env, src: string, out: string): string {
    "ffmpeg -i \"" + src + "\" " + env.encoder.args + " \"" + out + "\""
  }

  /** The command line holds the input, the encoder arguments and the output at fixed places, each quoted path between double quotes. */
  lemma ShellCommandShape(env: Env, src: string, out: string)
    ensures var r := ShellCommand(env, src, out);
            |r| == 16 + |src| + |env.encoder.args| + |out|
            && r[..11] == "ffmpeg -i \"" && r[11..11 + |src|] == src
            && r[11 + |src|..13 + |src|] == "\" "
            && r[13 + |src|..13 + |src| + |env.encoder.args|] == env.encoder.args
            && r[|r| - |out| - 1..|r| - 1] == out && r[|r| - 1] == '"'
  {
  }

  /**
   * The encode of one file: log the command and run it; when it fails, log
   * the error and remove the output, and go on; otherwise compare and log
   * that the job is done.
   */
  function EncodeSpec(env: Env, src: string, codec: string, out: string, st: Run): (r: Outcome)
  {
    var cmd := ShellCommand(env, src, out);
    var s1 := st.Note(Event(Level.Info, RunningShell(cmd)));
    var outcome := env.shell(cmd);
    var s2 := s1.(fs := AfterShell(s1.fs, out, outcome));
    if outcome.code != 0 then Outcome(Failure(s2, cmd, out), None)
    else Finish(env, src, codec, out, s2)
  }

  /** The filesystem once the shell has run: the output file the encoder left, if any. */
  function AfterShell(fs: FileSystem, out: string, outcome: EncodeOutcome): (r: FileSystem)
    ensures outcome.output.Some? ==> r == fs[out := outcome.output.value]
    ensures outcome.output.None? ==> r == fs
  {
    if outcome.output.Some? then fs[out := outcome.output.value] else fs
  }

  /** A failed command: the error is logged and the output removed. */
  function Failure(st: Run, cmd: string, out: string): (r: Run)
    ensures r.totalSaved == st.totalSaved && r.fs == st.fs - {out}
  {
    RemoveSpec(st.Note(Event(Level.Error, EncodeFailedShell(cmd))), out)
  }

  /** A successful command: the comparison, then "job done" unless it raised. */
  function Finish(env: Env, src: string, codec: string, out: string, st: Run): (r: Outcome)
    ensures r.run.fs == st.fs
  {
    var c := CompareSpec(env, src, out, codec, st.fs);
    var s := Compared(st, c);
    match c.outcome
    case Raise(f) => Outcome(s, Some(f))
    case Ok(sizes) => Outcome(s.Note(Event(Level.Info, JobDone(out, sizes, s.totalSaved))), None)
  }

  /** An existing output: the comparison, then, when verbose, that the file is skipped. */
  function CompareExisting(env: Env, src: string, codec: string, out: string, st: Run): (r: Outcome)
    ensures r.run.fs == st.fs
  {
    var c := CompareSpec(env, src, out, codec, st.fs);
    var s := Compared(st, c);
    match c.outcome
    case Raise(f) => Outcome(s, Some(f))
    case Ok(sizes) =>
      Outcome(if env.verbose then s.Note(Event(Level.Info, SkippingExisting(out, sizes, s.totalSaved))) else s, None)
  }

  /**
   * One iteration of the walk in `transcode`: probe the codec, then act on
   * the file.
   */
  function Visit(env: Env, st: Run, entry: (string, string)): Outcome {
    var src := SourceNameAsWritten(entry.0, entry.1);
    var cp := CodecName(src, env.probes.codec(src));
    Act(env, st.Log(cp.events), entry.1, src, cp.value)
  }

  /** The codec skips the file: it is empty (not probed, or unusable) or already the output codec. */
  predicate Skipped(env: Env, codec: string) {
    codec == "" || codec == env.encoder.outputVideoCodec
  }

  /**
   * What the walk does with a file once its codec is probed: a skipped file
   * is announced when verbose and perhaps copied; otherwise the output name
   * is built, which raises when the output codec has no container
   * extension, and the decision is carried out.
   */
  function Act(env: Env, st: Run, name: string, src: string, codec: string): Outcome {
    if Skipped(env, codec) then
      var s := if env.verbose then st.Note(Event(Level.Info, Skipping(name, codec))) else st;
      Perform(env, s, src, codec, Decide(true, env.copyOthers, env.outputDir, "", s.fs, src))
    else
      match GetContainerExt(OldestConfig, env.encoder.outputVideoCodec)
      case None => Outcome(st, Some(TypeMismatch))
      case Some(ext) => Perform(env, st, src, codec, Decide(false, env.copyOthers, env.outputDir, ext, st.fs, src))
  }

  /**
   * Carrying out a decision: a copy is logged before the source is read,
   * which raises when it is missing; a comparison or an encode raises what
   * it raises.
   */
  function Perform(env: Env, st: Run, src: string, codec: string, d: Decision): Outcome {
    match d
    case Skip => Outcome(st, None)
    case SkipListed => Outcome(st, None)
    case Copy(dest) =>
      var s := st.Note(Event(Level.Info, Copying(dest)));
      if src in st.fs then Outcome(s.(fs := st.fs[dest := st.fs[src]]), None)
      else Outcome(s, Some(FileNotFound(src)))
    case CompareOnly(out) => CompareExisting(env, src, codec, out, st)
    case Encode(out) => EncodeSpec(env, src, codec, out, st)
  }

  /** A skipped file is announced when verbose, then acted on as `Decide` says. */
  lemma ActSkipped(env: Env, st: Run, name: string, src: string, codec: string)
    requires Skipped(env, codec)
    ensures var s := if env.verbose then st.Note(Event(Level.Info, Skipping(name, codec))) else st;
            Act(env, st, name, src, codec) == Perform(env, s, src, codec, Decide(true, env.copyOthers, env.outputDir, "", s.fs, src))
  {
  }

  /** A file that is not skipped, when the output codec has a container extension, is acted on as `Decide` says. */
  lemma ActUnskipped(env: Env, st: Run, name: string, src: string, codec: string)
    requires !Skipped(env, codec) && GetContainerExt(OldestConfig, env.encoder.outputVideoCodec).Some?
    ensures Act(env, st, name, src, codec) ==
            Perform(env, st, src, codec, Decide(false, env.copyOthers, env.outputDir,
                                                GetContainerExt(OldestConfig, env.encoder.outputVideoCodec).value, st.fs, src))
  {
  }

  /** A file that is not skipped raises when the output codec has no container extension. */
  lemma ActUnconfigured(env: Env, st: Run, name: string, src: string, codec: string)
    requires !Skipped(env, codec) && GetContainerExt(OldestConfig, env.encoder.outputVideoCodec).None?
    ensures Act(env, st, name, src, codec) == Outcome(st, Some(TypeMismatch))
  {
  }

  /** Comparing with an existing output is `CompareExisting`. */
  lemma PerformCompareOnly(env: Env, st: Run, src: string, codec: string, out: string)
    ensures Perform(env, st, src, codec, CompareOnly(out)) == CompareExisting(env, src, codec, out, st)
  {
  }

  /** Encoding is `EncodeSpec`. */
  lemma PerformEncode(env: Env, st: Run, src: string, codec: string, out: string)
    ensures Perform(env, st, src, codec, Encode(out)) == EncodeSpec(env, src, codec, out, st)
  {
  }

  /** A visit as the walk takes it. */
  function VisitStep(env: Env): (Run, (string, string)) -> Walked<Run> {
    (s: Run, e: (string, string)) => var o := Visit(env, s, e); Walked(o.run, o.fault)
  }

  /** `transcode`: the visits in order, until one raises. */
  function Walk(env: Env, es: seq<(string, string)>, st: Run): Walked<Run> {
    WalkWith(VisitStep(env), es, st)
  }
}
