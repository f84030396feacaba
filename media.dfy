/**
 * What the three versions of the transcoder share: the codec and extension
 * tables, the messages they record, the ffprobe classification of a media
 * file, and the comparison policy between an input and its output.
 *
 * ffprobe is not run: its exit code and output for a path are inputs
 * (`Probes`). The filesystem is a map from the path of each existing regular
 * file to its size in bytes.
 */
module Media {
  import opened Wrappers
  import opened Text
  import opened Paths

  /** The codecs ffprobe may report that the transcoder accepts as video. */
  const VideoCodecs: seq<string> := ["hevc", "h264", "dvvideo", "mpeg4", "msmpeg4v3", "dnxhd"]

  /** Extensions of files that are never probed for a codec nor transcoded. */
  const SkipExtensions: seq<string> := [".srt", ".jpg", ".txt", ".py", ".pyc"]

  /** Existing regular files and their sizes in bytes. */
  type FileSystem = map<string, nat>

  /** ffprobe's answer to the codec query: its exit code and its standard output. */
  datatype CodecProbe = CodecProbe(code: int, stdout: string)

  /**
   * ffprobe's answer to the duration query: its exit code and the number its
   * output denotes, as Python's `int(float(text))` makes it (0 when the text
   * is not a number).
   */
  datatype DurationProbe = DurationProbe(code: int, truncated: int)

  /** ffprobe, as the answers it gives for each path. */
  datatype Probes = Probes(codec: string -> CodecProbe, duration: string -> DurationProbe)

  /** What running the encoder did: its exit status, and the size of the output file it left, if any. */
  datatype EncodeOutcome = EncodeOutcome(code: int, output: Option<nat>)

  /** The sizes of an input and its output. */
  datatype Sizes = Sizes(input: nat, output: nat) {
    function Saved(): int { input - output }
  }

  /** The messages the transcoder records; their text formatting is not modelled. */
  datatype Message =
    | ProbeFailed(path: string, code: int)
    | InvalidCodec(codec: string, path: string)
    | ZeroDuration(path: string)
    | DurationDiffers(inputName: string, inputFrames: int, outputName: string, outputFrames: int, delta: int)
    | SizeReductionTooHigh(outputName: string, sizes: Sizes, codec: string)
    | Running(cmd: seq<string>)
    | RunningShell(line: string)
    | EncodeFailed(cmd: seq<string>)
    | EncodeFailedShell(line: string)
    | JobDone(output: string, sizes: Sizes, total: int)
    | Removing(path: string)
    | CannotRemove(path: string)
    | Copying(path: string)
    | Skipping(name: string, codec: string)
    | SkippingExisting(output: string, sizes: Sizes, total: int)

  /** The exceptions the transcoder raises (or lets Python raise). */
  datatype Fault =
    | EncoderFailed(cmd: seq<string>, code: int)
    | EmptyOutput(cmd: seq<string>, output: string)
    | ZeroDivision
    | FileNotFound(path: string)
    | TypeMismatch

  /** A value, or the exception raised instead of returning one. */
  datatype Try<+T> = Ok(value: T) | Raise(fault: Fault)

  datatype Level = Info | Warning | Error

  /** One message recorded at one level. */
  datatype Event = Event(level: Level, msg: Message)

  predicate AllAt(es: seq<Event>, l: Level) {
    forall i :: 0 <= i < |es| ==> es[i].level == l
  }

  /** The three message lists. */
  datatype Journal = Journal(infos: seq<Message>, warnings: seq<Message>, errors: seq<Message>) {
    function Size(): nat { |infos| + |warnings| + |errors| }

    /** Appends the message to the list of its level; the other two lists are untouched. */
    function Record(e: Event): (r: Journal)
      ensures r.Size() == Size() + 1
      ensures r.infos == (if e.level == Level.Info then infos + [e.msg] else infos)
      ensures r.warnings == (if e.level == Level.Warning then warnings + [e.msg] else warnings)
      ensures r.errors == (if e.level == Level.Error then errors + [e.msg] else errors)
    {
      match e.level
      case Info => this.(infos := infos + [e.msg])
      case Warning => this.(warnings := warnings + [e.msg])
      case Error => this.(errors := errors + [e.msg])
    }

    /** Records the events in order. */
    function RecordAll(es: seq<Event>): (r: Journal)
      ensures r.Size() == Size() + |es|
      ensures AllAt(es, Level.Error) ==> r == this.(errors := errors + Messages(es))
      decreases |es|
    {
      if es == [] then this
      else
        var init, last := es[..|es| - 1], es[|es| - 1];
        assert AllAt(es, Level.Error) ==> AllAt(init, Level.Error) && last.level == Level.Error;
        assert Messages(es) == Messages(init) + [last.msg];
        RecordAll(init).Record(last)
    }
  }

  /** Recording a single event is `Record`. */
  lemma JournalRecordOne(j: Journal, e: Event)
    ensures j.RecordAll([e]) == j.Record(e)
  {
    assert [e][..0] == [];
  }

  /** Recording a sequence of events, then another, is recording both in order. */
  lemma {:induction false} JournalAppend(j: Journal, a: seq<Event>, b: seq<Event>)
    ensures j.RecordAll(a + b) == j.RecordAll(a).RecordAll(b)
    decreases |b|
  {
    if b == [] {
      assert a + b == a;
    } else {
      assert (a + b)[..|a + b| - 1] == a + b[..|b| - 1];
      JournalAppend(j, a, b[..|b| - 1]);
    }
  }

  /** The messages of the events, in order. */
  function Messages(es: seq<Event>): (r: seq<Message>)
    ensures |r| == |es| && forall i :: 0 <= i < |es| ==> r[i] == es[i].msg
  {
    seq(|es|, i requires 0 <= i < |es| => es[i].msg)
  }

  const EmptyJournal := Journal([], [], [])

  /** A probe's value and the events recorded while computing it. */
  datatype Probed<+T> = Probed(value: T, events: seq<Event>)

  /** A file whose extension is on the skip list, which the probes leave alone. */
  predicate NotProbed(path: string) {
    SplitExt(path).1 in SkipExtensions
  }

  /**
   * `fetch_codec_name`: the codec of a video, or "" when the file has a
   * skip-listed extension (not probed, nothing recorded), when ffprobe fails
   * or when the codec it reports is not an accepted one (one error each).
   */
  function CodecName(path: string, probe: CodecProbe): (r: Probed<string>)
    ensures AllAt(r.events, Level.Error) && |r.events| <= 1
    ensures r.value == "" || r.value in VideoCodecs
    ensures NotProbed(path) ==> r == Probed("", [])
    ensures |r.events| == 1 <==> r.value == "" && !NotProbed(path)
    ensures r.value != "" <==>
              !NotProbed(path) && probe.code == 0
              && ReplaceAll(probe.stdout, "\n", "") in VideoCodecs
    ensures r.value != "" ==> r.value == ReplaceAll(probe.stdout, "\n", "")
  {
    if NotProbed(path) then Probed("", [])
    else if probe.code != 0 then Probed("", [Event(Level.Error, ProbeFailed(path, probe.code))])
    else Classify(path, ReplaceAll(probe.stdout, "\n", ""))
  }

  /** The codec ffprobe reported, once its newlines are removed: kept when accepted, else "" and one error. */
  function Classify(path: string, codec: string): (r: Probed<string>)
    ensures AllAt(r.events, Level.Error) && |r.events| <= 1
    ensures r.value != "" <==> codec in VideoCodecs
    ensures r.value != "" ==> r.value == codec && r.events == []
    ensures r.value == "" ==> r.events == [Event(Level.Error, InvalidCodec(codec, path))]
  {
    if codec == "" || codec !in VideoCodecs then
      Probed("", [Event(Level.Error, InvalidCodec(codec, path))])
    else
      Probed(codec, [])
  }

  /**
   * `fetch_duration_in_frames` once the file is probed: 0 with one error when
   * ffprobe fails; otherwise the truncated duration, with one error exactly
   * when it is 0.
   */
  function DurationOf(path: string, probe: DurationProbe): (r: Probed<int>)
    ensures AllAt(r.events, Level.Error) && |r.events| <= 1
    ensures forall i :: 0 <= i < |r.events| ==> r.events[i].msg in {ProbeFailed(path, probe.code), ZeroDuration(path)}
    ensures ProbeMessages(r.events)
    ensures r.events == [] <==> r.value != 0
    ensures r.value != 0 ==> probe.code == 0 && r.value == probe.truncated
    ensures probe.code == 0 ==> r.value == probe.truncated
  {
    if probe.code != 0 then Probed(0, [Event(Level.Error, ProbeFailed(path, probe.code))])
    else if probe.truncated == 0 then Probed(0, [Event(Level.Error, ZeroDuration(path))])
    else Probed(probe.truncated, [])
  }

  function Abs(x: int): nat { if x < 0 then -x else x }

  /** The durations differ by more than the tolerance, in either direction. */
  predicate DurationExceeded(inFrames: int, outFrames: int, tolerance: int) {
    Abs(inFrames - outFrames) > tolerance
  }

  /** The duration check of `compare_input_output`: one error iff the durations differ too much. */
  function DurationCheck(input: string, inFrames: int, output: string, outFrames: int, tolerance: int): (r: seq<Event>)
    ensures AllAt(r, Level.Error) && |r| <= 1
    ensures r != [] <==> DurationExceeded(inFrames, outFrames, tolerance)
    ensures r != [] ==> r[0].msg.DurationDiffers? && r[0].msg.delta == outFrames - inFrames
    ensures forall k :: 0 <= k < |r| ==> r[k].msg.DurationDiffers?
  {
    if Abs(inFrames - outFrames) > tolerance then
      [Event(Level.Error, DurationDiffers(Basename(input), inFrames, Basename(output), outFrames, outFrames - inFrames))]
    else []
  }

  /**
   * The saved percentage `(1 - out/in) * 100` is above the tolerance, stated
   * with integers: `100 * (in - out) > tolerance * in`.
   */
  predicate PercentExceeded(inSize: nat, outSize: nat, tolerance: int)
    requires inSize > 0
  {
    100 * (inSize - outSize) > tolerance * inSize
  }

  /** The integer form agrees with the percentage computed on the reals. */
  lemma PercentExceededAsReal(inSize: nat, outSize: nat, tolerance: int)
    requires inSize > 0
    ensures PercentExceeded(inSize, outSize, tolerance)
            <==> (1.0 - (outSize as real) / (inSize as real)) * 100.0 > tolerance as real
  {
    var i, o, t := inSize as real, outSize as real, tolerance as real;
    var x := (1.0 - o / i) * 100.0;
    var a, b := 100 * (inSize - outSize), tolerance * inSize;
    ScaledPercent(i, o);
    CastProducts(inSize, outSize, tolerance);
    ScaleAbove(x, i, t);
    SameComparison(x, t, x * i, t * i, a, b);
  }

  /** Two comparisons of reals carried over to the integers they are equal to. */
  lemma SameComparison(x: real, t: real, xs: real, ts: real, a: int, b: int)
    requires x > t <==> xs > ts
    requires xs == a as real && ts == b as real
    ensures x > t <==> a > b
  {
  }

  /** Multiplied back by the input size, the percentage is a hundred times the bytes saved. */
  lemma ScaledPercent(i: real, o: real)
    requires i > 0.0
    ensures (1.0 - o / i) * 100.0 * i == 100.0 * (i - o)
  {
    var q := o / i;
    assert q * i == o;
    assert (1.0 - q) * 100.0 * i == 100.0 * i - 100.0 * (q * i);
  }

  lemma CastProducts(inSize: nat, outSize: nat, tolerance: int)
    ensures (100 * (inSize - outSize)) as real == 100.0 * ((inSize as real) - (outSize as real))
    ensures (tolerance * inSize) as real == (tolerance as real) * (inSize as real)
  {
  }

  lemma ScaleAbove(x: real, d: real, t: real)
    requires d > 0.0
    ensures x > t <==> x * d > t * d
  {
  }

  /**
   * The size check of `compare_input_output`: dividing by an empty input
   * raises; otherwise one warning iff the saved percentage is above the
   * tolerance.
   */
  function SizeCheck(sizes: Sizes, output: string, codec: string, tolerance: int): (r: Try<seq<Event>>)
    ensures r.Raise? <==> sizes.input == 0
    ensures r.Raise? ==> r.fault == ZeroDivision
    ensures r.Ok? ==> AllAt(r.value, Level.Warning) && |r.value| <= 1
    ensures r.Ok? ==> (r.value != [] <==> PercentExceeded(sizes.input, sizes.output, tolerance))
    ensures r.Ok? ==> forall k :: 0 <= k < |r.value| ==> r.value[k].msg.SizeReductionTooHigh?
  {
    if sizes.input == 0 then Raise(ZeroDivision)
    else if 100 * (sizes.input - sizes.output) > tolerance * sizes.input then
      Ok([Event(Level.Warning, SizeReductionTooHigh(Basename(output), sizes, codec))])
    else Ok([])
  }

  /** What a comparison recorded, and the sizes it returned or the exception it raised. */
  datatype Comparison = Comparison(events: seq<Event>, outcome: Try<Sizes>)

  /** The events of both duration probes and of the duration check: all errors. */
  function DurationEvents(input: string, inDuration: Probed<int>, output: string, outDuration: Probed<int>, tolerance: int): (r: seq<Event>)
    requires AllAt(inDuration.events, Level.Error) && AllAt(outDuration.events, Level.Error)
    ensures AllAt(r, Level.Error)
    ensures |r| == |inDuration.events| + |outDuration.events| + (if DurationExceeded(inDuration.value, outDuration.value, tolerance) then 1 else 0)
  {
    inDuration.events + outDuration.events + DurationCheck(input, inDuration.value, output, outDuration.value, tolerance)
  }

  /** `os.path.getsize` in both older versions, which raises for a missing file. */
  function GetSize(fs: FileSystem, path: string): (r: Try<nat>)
    ensures r.Ok? <==> path in fs
    ensures r.Ok? ==> r.value == fs[path]
    ensures r.Raise? ==> r.fault == FileNotFound(path)
  {
    if path in fs then Ok(fs[path]) else Raise(FileNotFound(path))
  }

  /**
   * The rest of a comparison once both sizes are known: the duration events,
   * then the size check.
   */
  function CompareSizes(durationEvents: seq<Event>, sizes: Sizes, output: string, codec: string, tolerance: int): (r: Comparison)
    ensures r.outcome.Raise? <==> sizes.input == 0
    ensures r.outcome.Ok? ==> r.outcome.value == sizes
    ensures r.outcome.Raise? ==> r.outcome.fault == ZeroDivision && r.events == durationEvents
    ensures r.outcome.Ok? ==> |r.events| == |durationEvents| + (if PercentExceeded(sizes.input, sizes.output, tolerance) then 1 else 0)
    ensures |durationEvents| <= |r.events| && r.events[..|durationEvents|] == durationEvents
  {
    match SizeCheck(sizes, output, codec, tolerance)
    case Raise(f) => Comparison(durationEvents, Raise(f))
    case Ok(ws) =>
      assert (durationEvents + ws)[..|durationEvents|] == durationEvents;
      Comparison(durationEvents + ws, Ok(sizes))
  }

  /**
   * In probe events, then duration checks, then size warnings, a duration
   * message occurs iff there is a check and a size warning iff there is one.
   */
  lemma EventKinds(probes: seq<Event>, check: seq<Event>, ws: seq<Event>)
    requires forall k :: 0 <= k < |probes| ==> !probes[k].msg.DurationDiffers? && !probes[k].msg.SizeReductionTooHigh?
    requires forall k :: 0 <= k < |check| ==> check[k].msg.DurationDiffers?
    requires forall k :: 0 <= k < |ws| ==> ws[k].msg.SizeReductionTooHigh?
    ensures var es := probes + check + ws;
            ((exists k :: 0 <= k < |es| && es[k].msg.DurationDiffers?) <==> check != [])
            && ((exists k :: 0 <= k < |es| && es[k].msg.SizeReductionTooHigh?) <==> ws != [])
  {
    var es := probes + check + ws;
    if check != [] {
      assert es[|probes|] == check[0];
    }
    if ws != [] {
      assert es[|probes| + |check|] == ws[0];
    }
    forall k | 0 <= k < |es| ensures es[k].msg.DurationDiffers? ==> check != [] {
      if k >= |probes| + |check| {
        assert es[k] == ws[k - |probes| - |check|];
      } else if k < |probes| {
        assert es[k] == probes[k];
      }
    }
    forall k | 0 <= k < |es| ensures es[k].msg.SizeReductionTooHigh? ==> ws != [] {
      if k < |probes| {
        assert es[k] == probes[k];
      } else if k < |probes| + |check| {
        assert es[k] == check[k - |probes|];
      }
    }
  }

  /** Events that only report failed or empty probes. */
  predicate ProbeMessages(es: seq<Event>) {
    forall k :: 0 <= k < |es| ==> es[k].msg.ProbeFailed? || es[k].msg.ZeroDuration?
  }

  /** Probe reports joined are probe reports. */
  lemma ProbeMessagesJoin(a: seq<Event>, b: seq<Event>)
    requires ProbeMessages(a) && ProbeMessages(b)
    ensures ProbeMessages(a + b)
  {
    var ab := a + b;
    forall k | 0 <= k < |ab|
      ensures ab[k].msg.ProbeFailed? || ab[k].msg.ZeroDuration?
    {
      if k < |a| {
        assert ab[k] == a[k];
      } else {
        assert ab[k] == b[k - |a|];
      }
    }
  }

  /**
   * Probe events followed by a duration check: a duration message occurs iff
   * there is a check, and no size warning occurs.
   */
  lemma CheckedKinds(probes: seq<Event>, check: seq<Event>)
    requires ProbeMessages(probes)
    requires forall k :: 0 <= k < |check| ==> check[k].msg.DurationDiffers?
    ensures var es := probes + check;
            ((exists k :: 0 <= k < |es| && es[k].msg.DurationDiffers?) <==> check != [])
            && (forall k :: 0 <= k < |es| ==> !es[k].msg.SizeReductionTooHigh?)
  {
    var es := probes + check;
    if check != [] {
      assert es[|probes|] == check[0];
    }
    forall k | 0 <= k < |es|
      ensures !es[k].msg.SizeReductionTooHigh? && (es[k].msg.DurationDiffers? ==> check != [])
    {
      if k < |probes| {
        assert es[k] == probes[k];
      } else {
        assert es[k] == check[k - |probes|];
      }
    }
  }

  /**
   * Events without size warnings followed by size warnings: the duration
   * messages are those of the first part, and a size warning occurs iff
   * there is one.
   */
  lemma WarnedKinds(es: seq<Event>, ws: seq<Event>)
    requires forall k :: 0 <= k < |es| ==> !es[k].msg.SizeReductionTooHigh?
    requires forall k :: 0 <= k < |ws| ==> ws[k].msg.SizeReductionTooHigh?
    ensures var all := es + ws;
            ((exists k :: 0 <= k < |all| && all[k].msg.DurationDiffers?) <==> (exists k :: 0 <= k < |es| && es[k].msg.DurationDiffers?))
            && ((exists k :: 0 <= k < |all| && all[k].msg.SizeReductionTooHigh?) <==> ws != [])
  {
    var all := es + ws;
    if ws != [] {
      assert all[|es|] == ws[0];
    }
    if exists k :: 0 <= k < |es| && es[k].msg.DurationDiffers? {
      var k :| 0 <= k < |es| && es[k].msg.DurationDiffers?;
      assert all[k] == es[k];
    }
    forall k | 0 <= k < |all|
      ensures (all[k].msg.DurationDiffers? ==> k < |es| && es[k].msg.DurationDiffers?)
              && (all[k].msg.SizeReductionTooHigh? ==> ws != [])
    {
      if k < |es| {
        assert all[k] == es[k];
      } else {
        assert all[k] == ws[k - |es|];
      }
    }
  }
}
