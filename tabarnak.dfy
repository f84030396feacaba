/**
 * The main version of the transcoder (tabarnak/tabarnak.py): the result
 * accumulator with its per-file scopes, the saved-bytes statistics, the
 * comparison of an input with its output, the encoding of one file and the
 * walk over the input directory.
 *
 * The module-level `transcoder_results` and `transcoder_stats` are passed to
 * the methods as objects; ffprobe, ffmpeg and the filesystem are the inputs
 * of `Env` and the `FileSystem` map.
 */
module Tabarnak {
  import opened Wrappers
  import opened Text
  import opened Paths
  import opened Media
  import opened Encoding
  import opened Walking
  import opened Jobs

  /** `TrancodeFileResult`: what was recorded while one file was transcoded. */
  datatype FileResult = FileResult(infos: seq<Message>, errors: seq<Message>, warnings: seq<Message>, exceptions: seq<Fault>)
  {
    /** `status()`: the file was transcoded without an exception. */
    predicate Status() {
      |exceptions| == 0
    }

    /**
     * `info`, `warning` and `error`: an information goes to the infos, and
     * both a warning and an error go to the warnings.
     */
    function Add(e: Event): (r: FileResult)
      ensures r.exceptions == exceptions && r.errors == errors
      ensures |r.infos| + |r.warnings| == |infos| + |warnings| + 1
      ensures e.level == Level.Info ==> r.infos == infos + [e.msg] && r.warnings == warnings
      ensures e.level != Level.Info ==> r.infos == infos && r.warnings == warnings + [e.msg]
    {
      if e.level == Level.Info then this.(infos := infos + [e.msg])
      else this.(warnings := warnings + [e.msg])
    }

    /** `exception`: one more exception, and the status is lost. */
    function Exception(f: Fault): (r: FileResult)
      ensures r.infos == infos && r.errors == errors && r.warnings == warnings
      ensures r.exceptions == exceptions + [f]
      ensures !r.Status()
    {
      this.(exceptions := exceptions + [f])
    }
  }

  const FreshFileResult := FileResult([], [], [], [])

  /**
   * The state of `TranscoderResults`: the run-level lists, the index of the
   * current file result (the object `file_result` points to, which is always
   * the one last appended) and the file results.
   */
  datatype Results = Results(run: Journal, current: Option<nat>, files: seq<FileResult>)
  {
    /** While a file scope is open, its result is the last one. */
    predicate Valid() {
      current.Some? ==> current.value + 1 == |files|
    }

    /** `__enter__`: one fresh file result is appended and becomes current. */
    function Enter(): (r: Results)
      ensures r.Valid() && r.current == Some(|files|)
      ensures r.files == files + [FreshFileResult] && r.run == run
    {
      Results(run, Some(|files|), files + [FreshFileResult])
    }

    /**
     * `__exit__`: an exception, if any, is recorded in the current file
     * result; no scope is current any more; every other result is unchanged.
     */
    function Exit(exc: Option<Fault>): (r: Results)
      requires Valid() && (exc.Some? ==> current.Some?)
      ensures r.Valid() && r.current.None? && r.run == run && |r.files| == |files|
      ensures exc.None? ==> r.files == files
      ensures exc.Some? ==> r.files == files[current.value := files[current.value].Exception(exc.value)]
    {
      match exc
      case None => this.(current := None)
      case Some(f) => Results(run, None, files[current.value := files[current.value].Exception(f)])
    }

    /**
     * `info`, `warning` and `error`: the message goes to the current file
     * result when there is one, otherwise to the run-level list of its level.
     */
    function Record(e: Event): (r: Results)
      requires Valid()
      ensures r.Valid() && r.current == current && |r.files| == |files|
      ensures current.None? ==> r.run == run.Record(e) && r.files == files
      ensures current.Some? ==> r.run == run && r.files == files[current.value := files[current.value].Add(e)]
    {
      match current
      case None => this.(run := run.Record(e))
      case Some(i) => this.(files := files[i := files[i].Add(e)])
    }

    /** Records the events in order. */
    function RecordAll(es: seq<Event>): (r: Results)
      requires Valid()
      ensures r.Valid() && r.current == current && |r.files| == |files|
      decreases |es|
    {
      if es == [] then this else RecordAll(es[..|es| - 1]).Record(es[|es| - 1])
    }

    /** `status()`: no file result holds an exception. */
    predicate Status() {
      forall i :: 0 <= i < |files| ==> files[i].Status()
    }

    /** No file result holds an error: `error()` routes errors to the warnings. */
    predicate NoFileErrors() {
      forall i :: 0 <= i < |files| ==> files[i].errors == []
    }
  }

  const EmptyResults := Results(EmptyJournal, None, [])

  /** Recording a sequence of events, then another, is recording both in order. */
  lemma {:induction false} RecordAllAppend(r: Results, a: seq<Event>, b: seq<Event>)
    requires r.Valid()
    ensures r.RecordAll(a + b) == r.RecordAll(a).RecordAll(b)
    decreases |b|
  {
    if b == [] {
      assert a + b == a;
    } else {
      assert (a + b)[..|a + b| - 1] == a + b[..|b| - 1];
      RecordAllAppend(r, a, b[..|b| - 1]);
    }
  }

  /**
   * Messages never change the status nor give a file result an error, and
   * outside a scope they leave the file results alone.
   */
  lemma {:induction false} RecordKeepsStatus(r: Results, es: seq<Event>)
    requires r.Valid()
    ensures r.RecordAll(es).Status() == r.Status()
    ensures r.NoFileErrors() ==> r.RecordAll(es).NoFileErrors()
    ensures r.current.None? ==> r.RecordAll(es).files == r.files
    decreases |es|
  {
    if es != [] {
      var q := r.RecordAll(es[..|es| - 1]);
      RecordKeepsStatus(r, es[..|es| - 1]);
      var s := q.Record(es[|es| - 1]);
      if q.current.Some? {
        var c := q.current.value;
        assert forall i :: 0 <= i < |s.files| ==> s.files[i].exceptions == q.files[i].exceptions && s.files[i].errors == q.files[i].errors;
      }
    }
  }

  /**
   * Entering keeps the status; leaving with an exception loses it, and
   * leaving without one keeps it.
   */
  lemma ScopeStatus(r: Results, exc: Option<Fault>)
    requires r.Valid() && (exc.Some? ==> r.current.Some?)
    ensures r.Enter().Status() == r.Status()
    ensures r.Enter().NoFileErrors() == r.NoFileErrors()
    ensures exc.Some? ==> !r.Exit(exc).Status()
    ensures exc.None? ==> r.Exit(exc).Status() == r.Status()
    ensures r.NoFileErrors() ==> r.Exit(exc).NoFileErrors()
  {
    var e := r.Enter();
    assert forall i :: 0 <= i < |r.files| ==> e.files[i] == r.files[i];
    assert e.files[|r.files|] == FreshFileResult;
    if exc.Some? {
      var x := r.Exit(exc);
      assert !x.files[r.current.value].Status();
    }
  }

  /** `TranscoderResults`: the run-level lists, the current file result and all file results. */
  class TranscoderResults {
    var infos: seq<Message>
    var errors: seq<Message>
    var warnings: seq<Message>
    var fileResult: Option<nat>
    var fileResults: seq<FileResult>

    function State(): Results
      reads this
    {
      Results(Journal(infos, warnings, errors), fileResult, fileResults)
    }

    predicate Valid()
      reads this
    {
      State().Valid()
    }

    constructor ()
      ensures State() == EmptyResults && Valid()
    {
      infos, errors, warnings := [], [], [];
      fileResult, fileResults := None, [];
    }

    /** `__enter__`. */
    method Enter()
      requires Valid()
      modifies this
      ensures Valid() && State() == old(State()).Enter()
    {
      fileResults := fileResults + [FreshFileResult];
      fileResult := Some(|fileResults| - 1);
    }

    /** `__exit__`: always asks for the exception to be swallowed. */
    method Exit(exc: Option<Fault>) returns (suppress: bool)
      requires Valid() && (exc.Some? ==> fileResult.Some?)
      modifies this
      ensures suppress
      ensures Valid() && State() == old(State()).Exit(exc)
    {
      if exc.Some? {
        var i := fileResult.value;
        fileResults := fileResults[i := fileResults[i].Exception(exc.value)];
      }
      fileResult := None;
      return true;
    }

    /** `info`. */
    method Info(m: Message)
      requires Valid()
      modifies this
      ensures Valid() && State() == old(State()).Record(Event(Level.Info, m))
    {
      if fileResult.Some? {
        var i := fileResult.value;
        fileResults := fileResults[i := fileResults[i].(infos := fileResults[i].infos + [m])];
      } else {
        infos := infos + [m];
      }
    }

    /** `warning`. */
    method Warning(m: Message)
      requires Valid()
      modifies this
      ensures Valid() && State() == old(State()).Record(Event(Level.Warning, m))
    {
      if fileResult.Some? {
        var i := fileResult.value;
        fileResults := fileResults[i := fileResults[i].(warnings := fileResults[i].warnings + [m])];
      } else {
        warnings := warnings + [m];
      }
    }

    /** `error`: in a scope, the file result's `error` appends to its warnings. */
    method Error(m: Message)
      requires Valid()
      modifies this
      ensures Valid() && State() == old(State()).Record(Event(Level.Error, m))
    {
      if fileResult.Some? {
        var i := fileResult.value;
        fileResults := fileResults[i := fileResults[i].(warnings := fileResults[i].warnings + [m])];
      } else {
        errors := errors + [m];
      }
    }

    /** `status()`: stops at the first file result that holds an exception. */
    method Status() returns (ok: bool)
      ensures ok <==> forall i :: 0 <= i < |fileResults| ==> fileResults[i].exceptions == []
    {
      var i := 0;
      while i < |fileResults|
        invariant 0 <= i <= |fileResults|
        invariant forall k :: 0 <= k < i ==> fileResults[k].exceptions == []
      {
        if !fileResults[i].Status() {
          return false;
        }
        i := i + 1;
      }
      return true;
    }
  }

  /** `TranscoderStats`: the bytes saved so far. */
  class TranscoderStats {
    var totalSaved: int

    constructor ()
      ensures totalSaved == 0
    {
      totalSaved := 0;
    }

    /** `increment_total_saved`. */
    method IncrementTotalSaved(value: int)
      modifies this
      ensures totalSaved == old(totalSaved) + value
    {
      totalSaved := totalSaved + value;
    }
  }

  /** The state a run changes: the results, `total_saved` and the filesystem. */
  datatype Run = Run(results: Results, totalSaved: int, fs: FileSystem)
  {
    predicate Valid() {
      results.Valid()
    }

    function Note(e: Event): (r: Run)
      requires Valid()
      ensures r.Valid() && r.totalSaved == totalSaved && r.fs == fs
      ensures r.results == results.Record(e)
    {
      this.(results := results.Record(e))
    }

    function Log(es: seq<Event>): (r: Run)
      requires Valid()
      ensures r.Valid() && r.totalSaved == totalSaved && r.fs == fs
      ensures r.results == results.RecordAll(es)
    {
      this.(results := results.RecordAll(es))
    }
  }

  /** A run's state and the exception it raised, if any. */
  datatype Outcome = Outcome(run: Run, fault: Option<Fault>)

  /** The size `os.path.getsize` reports, with a missing file counted as 0 as the code does. */
  function SizeOrZero(fs: FileSystem, path: string): nat {
    if path in fs then fs[path] else 0
  }

  /**
   * `compare_input_output`: both durations are probed, then compared; both
   * sizes are read (0 for a missing file), and an empty input makes the
   * percentage a division by zero.
   */
  function CompareSpec(env: Env, input: string, output: string, codec: string, fs: FileSystem): (r: Comparison)
    ensures r.outcome.Raise? <==> SizeOrZero(fs, input) == 0
    ensures r.outcome.Raise? ==> r.outcome.fault == ZeroDivision
    ensures r.outcome.Ok? ==> r.outcome.value == Sizes(SizeOrZero(fs, input), SizeOrZero(fs, output))
  {
    var di := DurationOf(input, env.probes.duration(input));
    var dout := DurationOf(output, env.probes.duration(output));
    CompareSizes(DurationEvents(input, di, output, dout, env.args.durationTolerance),
                 Sizes(SizeOrZero(fs, input), SizeOrZero(fs, output)), output, codec, env.args.percentTolerance)
  }

  /** The run after a comparison: its events recorded and, unless it raised, the saved bytes added. */
  function Compared(st: Run, c: Comparison): (r: Run)
    requires st.Valid()
    ensures r.Valid() && r.fs == st.fs && r.results == st.results.RecordAll(c.events)
    ensures r.totalSaved == st.totalSaved + (if c.outcome.Ok? then c.outcome.value.Saved() else 0)
  {
    Run(st.results.RecordAll(c.events), st.totalSaved + (if c.outcome.Ok? then c.outcome.value.Saved() else 0), st.fs)
  }

  /**
   * The body of the `with` block of `transcode_file`: run the encoder; on a
   * failure or an output of no duration, remove the output and raise; else
   * compare, and record that the job is done unless the comparison raised.
   */
  function EncodeSteps(env: Env, src: string, codec: string, out: string, st: Run): (r: Outcome)
    requires st.Valid()
    ensures r.run.Valid() && r.run.results.current == st.results.current
    ensures |r.run.results.files| == |st.results.files|
  {
    var cmd := Command(env, src, out);
    var s1 := st.Note(Event(Level.Info, Running(cmd)));
    var outcome := env.encoder(cmd);
    var fs1 := AfterEncode(s1.fs, out, outcome);
    if outcome.code != 0 then
      Failure(s1, out, fs1, EncoderFailed(cmd, outcome.code))
    else
      var d := DurationOf(out, env.probes.duration(out));
      var s2 := s1.Log(d.events);
      if d.value == 0 then Failure(s2, out, fs1, EmptyOutput(cmd, out))
      else Finish(env, src, codec, out, s2.(fs := fs1))
  }

  /** A failed encode: the output is removed (which is recorded) and the fault raised. */
  function Failure(st: Run, out: string, fs: FileSystem, f: Fault): (r: Outcome)
    requires st.Valid()
    ensures r.run.Valid() && r.run.results.current == st.results.current
    ensures |r.run.results.files| == |st.results.files|
    ensures r.fault == Some(f) && r.run.totalSaved == st.totalSaved && r.run.fs == fs - {out}
  {
    Outcome(st.Note(Event(Level.Info, Removing(out))).(fs := fs - {out}), Some(f))
  }

  /** A successful encode: the comparison, then "job done" unless it raised. */
  function Finish(env: Env, src: string, codec: string, out: string, st: Run): (r: Outcome)
    requires st.Valid()
    ensures r.run.Valid() && r.run.results.current == st.results.current
    ensures |r.run.results.files| == |st.results.files|
    ensures r.run.fs == st.fs
  {
    var c := CompareSpec(env, src, out, codec, st.fs);
    var s3 := Compared(st, c);
    match c.outcome
    case Raise(f) => Outcome(s3, Some(f))
    case Ok(sizes) => Outcome(s3.Note(Event(Level.Info, JobDone(out, sizes, s3.totalSaved))), None)
  }

  /** `transcode_file`: the steps inside a file scope, whose exception is recorded and swallowed. */
  function TranscodeFileSpec(env: Env, src: string, codec: string, out: string, st: Run): (r: Run)
    requires st.Valid()
    ensures r.Valid() && r.results.current.None?
    ensures |r.results.files| == |st.results.files| + 1
  {
    var o := EncodeSteps(env, src, codec, out, st.(results := st.results.Enter()));
    o.run.(results := o.run.results.Exit(o.fault))
  }

  /**
   * One iteration of the walk in `transcode`: probe the codec; skip (and
   * perhaps copy) a file whose codec is a substring of the target codec;
   * otherwise build the output name (which fails when the codec has no
   * container extension), leave skip-listed extensions alone, compare with
   * an existing output, or encode.
   */
  function Visit(env: Env, st: Run, entry: (string, string)): (r: Outcome)
    requires st.Valid()
    ensures r.run.Valid()
    ensures st.results.current.None? ==> r.run.results.current.None?
  {
    var src := SourceNameAsWritten(entry.0, entry.1);
    var cp := CodecName(src, env.probes.codec(src));
    Act(env, st.Log(cp.events), src, cp.value)
  }

  /**
   * What the walk does with a file once its codec is probed: a file whose
   * codec is not skipped but has no container extension raises (the output
   * name cannot be built); otherwise the decision is carried out.
   */
  function Act(env: Env, st: Run, src: string, codec: string): (r: Outcome)
    requires st.Valid()
    ensures r.run.Valid()
    ensures st.results.current.None? ==> r.run.results.current.None?
  {
    var skip := Contains(env.args.encoder.outputVideoCodec, codec);
    var ext := ContainerExt(env.args);
    if !skip && ext.None? then Outcome(st, Some(TypeMismatch))
    else
      var tail := if skip then "" else env.args.outputSuffix + ext.value;
      Perform(env, st, src, codec, Decide(skip, env.copyOthers, env.args.outputDir, tail, st.fs, src))
  }

  /**
   * Carrying out a decision: copying a missing source raises, comparing
   * raises what the comparison raises, encoding happens in a file scope.
   */
  function Perform(env: Env, st: Run, src: string, codec: string, d: Decision): (r: Outcome)
    requires st.Valid()
    ensures r.run.Valid()
    ensures st.results.current.None? ==> r.run.results.current.None?
  {
    match d
    case Skip => Outcome(st, None)
    case SkipListed => Outcome(st, None)
    case Copy(dest) =>
      if src in st.fs then Outcome(st.(fs := st.fs[dest := st.fs[src]]), None)
      else Outcome(st, Some(FileNotFound(src)))
    case CompareOnly(out) =>
      var c := CompareSpec(env, src, out, codec, st.fs);
      Outcome(Compared(st, c), if c.outcome.Raise? then Some(c.outcome.fault) else None)
    case Encode(out) => Outcome(TranscodeFileSpec(env, src, codec, out, st), None)
  }

  /** A file whose codec is skipped is acted on as `Decide` says. */
  lemma ActSkipped(env: Env, st: Run, src: string, codec: string)
    requires st.Valid()
    requires Contains(env.args.encoder.outputVideoCodec, codec)
    ensures Act(env, st, src, codec) == Perform(env, st, src, codec, Decide(true, env.copyOthers, env.args.outputDir, "", st.fs, src))
  {
  }

  /** A file whose codec is not skipped and has a container extension is acted on as `Decide` says. */
  lemma ActUnskipped(env: Env, st: Run, src: string, codec: string)
    requires st.Valid()
    requires !Contains(env.args.encoder.outputVideoCodec, codec) && ContainerExt(env.args).Some?
    ensures Act(env, st, src, codec) == Perform(env, st, src, codec,
              Decide(false, env.copyOthers, env.args.outputDir, env.args.outputSuffix + ContainerExt(env.args).value, st.fs, src))
  {
  }

  /** A file whose codec is not skipped and has no container extension raises. */
  lemma ActUnconfigured(env: Env, st: Run, src: string, codec: string)
    requires st.Valid()
    requires !Contains(env.args.encoder.outputVideoCodec, codec) && ContainerExt(env.args).None?
    ensures Act(env, st, src, codec) == Outcome(st, Some(TypeMismatch))
  {
  }

  /** Comparing with an existing output records the comparison and raises what it raises. */
  lemma PerformCompareOnly(env: Env, st: Run, src: string, codec: string, out: string)
    requires st.Valid()
    ensures var c := CompareSpec(env, src, out, codec, st.fs);
            Perform(env, st, src, codec, CompareOnly(out)) == Outcome(Compared(st, c), if c.outcome.Raise? then Some(c.outcome.fault) else None)
  {
  }

  /** Encoding is `transcode_file`, whose scope swallows what it raises. */
  lemma PerformEncode(env: Env, st: Run, src: string, codec: string, out: string)
    requires st.Valid()
    ensures Perform(env, st, src, codec, Encode(out)) == Outcome(TranscodeFileSpec(env, src, codec, out, st), None)
  {
  }

  /** A visit as the walk takes it; the state the walk keeps is always valid. */
  function VisitStep(env: Env): (Run, (string, string)) -> Walked<Run> {
    (s: Run, e: (string, string)) => if s.Valid() then (var o := Visit(env, s, e); Walked(o.run, o.fault)) else Walked(s, None)
  }

  /** `transcode`: the files visited in walk order; an exception stops the walk. */
  function Walk(env: Env, es: seq<(string, string)>, st: Run): Walked<Run> {
    WalkWith(VisitStep(env), es, st)
  }

  lemma RecordOne(r: Results, e: Event)
    requires r.Valid()
    ensures r.RecordAll([e]) == r.Record(e)
  {
    assert [e][..0] == [];
  }

  /** The events of the duration half of `compare_input_output`, for the probes of `env`. */
  function DurationPart(env: Env, input: string, output: string): (r: seq<Event>)
    ensures AllAt(r, Level.Error)
  {
    DurationEvents(input, DurationOf(input, env.probes.duration(input)),
                   output, DurationOf(output, env.probes.duration(output)), env.args.durationTolerance)
  }

  /**
   * In a scope, recording changes the current file result only, never its
   * exceptions nor its errors; errors all go to its warnings, in order.
   */
  lemma {:induction false} RecordInScope(r: Results, es: seq<Event>)
    requires r.Valid() && r.current.Some?
    ensures var q := r.RecordAll(es);
            var c := r.current.value;
            q.run == r.run && q.files[..c] == r.files[..c]
            && q.files[c].exceptions == r.files[c].exceptions && q.files[c].errors == r.files[c].errors
            && (AllAt(es, Level.Error) ==> q.files[c] == r.files[c].(warnings := r.files[c].warnings + Messages(es)))
    decreases |es|
  {
    if es != [] {
      var init := es[..|es| - 1];
      RecordInScope(r, init);
      assert AllAt(es, Level.Error) ==> AllAt(init, Level.Error);
      assert Messages(es) == Messages(init) + [es[|es| - 1].msg];
    }
  }
}
