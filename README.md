# tabarnak: a verified model of the transcode walk

tabarnak is a batch transcoder. It walks an input directory and probes each
file's video codec with ffprobe. Files already in the target codec, or with
no usable codec, are skipped, and optionally copied to the output directory.
Every other file is encoded with ffmpeg into
`<output dir>/<base name><suffix><container extension>`, unless that output
already exists. Each encode is then checked against its input twice:

- the durations must agree within a tolerance in frames;
- the saved space must not exceed a tolerance in percent.

The repository holds three generations of this program, and each one is
modelled:

| version | source | Dafny modules |
|---|---|---|
| current | `tabarnak/tabarnak.py` | `Tabarnak`, `TabarnakTranscode`, `TabarnakProperties` |
| older | `tabarnak.py` | `LegacyTabarnak`, `LegacyTranscode`, `LegacyProperties` |
| oldest | `tarbarnak.py` | `Tarbarnak`, `TarbarnakTranscode`, `TarbarnakProperties` |

Shared modules:

- `Wrappers`: `Option`.
- `Text`: Python's `in`, `strip`, `split`, `replace` and `lower` on strings.
- `Paths`: `os.path.join`, `basename` and `splitext`.
- `Encoding`: the configuration tables and the assembly of the encoder arguments.
- `Jobs`: the environment (probes, encoder) and the encoder's command line.
- `Media`: the codec and duration probes and the two comparison checks. It also holds the message journal that the two older versions keep in module-level lists.
- `Walking`: the directory walk, the source name, and the per-file decision.
- `RunState`: the state of a run of the two older versions (journal, total saved, filesystem) and its updates.

Each version is split the same way:

- Its state is an imperative class: `TranscoderResults` and `TranscoderStats`, `GlobalLog` and `Stats`, or `Globals`.
- Its operations are methods with loops and state updates. Each is proved equal to a specification function over a value `Run` (journal or results, total saved, filesystem).
- Its properties are lemmas about those functions.

The external world is an input, not modelled behaviour:

- The filesystem is `map<string, nat>`, mapping each existing regular file to its size.
- ffprobe's answers are functions from path to exit status, output and truncated duration.
- ffmpeg (or the shell, in the oldest version) is a function from the command line to an exit status and the output file it leaves.
- The listing `os.walk` yields is a sequence of (directory, file names) pairs.

Exceptions are `Fault` values, and an operation's result carries the fault it
raises (`Outcome`). So the model states exactly which exceptions escape each
version's walk:

- current: only those raised outside a file scope;
- older and oldest: any exception ends the run.

## Behaviour of the code worth knowing

- **Status.** `TrancodeFileResult.status` looks only at exceptions. The two
  tolerance checks of `compare_input_output` (duration drift, too much size
  reduction) report through `error` and `warning`, and inside a file scope
  `error` appends to the warnings (`tabarnak/tabarnak.py:91-95`). So a
  tolerance failure never changes a status (`TabarnakProperties.WalkStaysClean`,
  `TabarnakProperties.CompareReports`).
- **Division by zero.** Both sizes default to 0 when a file is missing, and
  the code then divides by the input size, so an empty or missing input raises
  `ZeroDivisionError` (`Tabarnak.CompareSpec`). When the comparison of an
  existing output raises it, no scope catches it and the walk ends
  (`TabarnakProperties.WalkFaults`).
- **Durations.** A duration is ffprobe's number of seconds truncated toward
  zero by `int(...)`.
- **Probe faults.** `fetch_codec_name` runs outside any file scope, so an
  exception raised while probing would end the walk. Here the probes return
  an exit status and never raise.
- **Source names.** All three walks remove every "./" from the joined path,
  which breaks paths below a parent directory (see "## Findings").

## Model

| member | source | states |
|---|---|---|
| Encoding.Get | tabarnak/tabarnak.py:214-224 | `dict.get` is `Some` exactly for a present key, with its value |
| Encoding.ConfigTables | tabarnak/tabarnak.py:198-212 | in both configurations a name has a container extension exactly when it has encoder arguments; every container is ".mkv" or ".webm", and ".webm" is vp9's alone |
| Encoding.OldestConfigLookups | tarbarnak.py:24-34 | the oldest tables are the current ones without h264 |
| Encoding.MapPart | tabarnak/tabarnak.py:234-237 | explicit map arguments win; otherwise " -map 0 " unless the default mapping is asked for |
| Encoding.MetadataPart | tabarnak/tabarnak.py:239-240 | " -map_metadata -1 " exactly when metadata is stripped |
| Encoding.CodecPart | tabarnak/tabarnak.py:242-248 | a named configuration gives its arguments and becomes the output codec, else the override, else hevc's arguments; a name missing from the table yields no arguments, because `+=` fails on `None` |
| Encoding.AssembledArgs | tabarnak/tabarnak.py:230-248 | the argument string is map part + metadata part + codec part in that order; it exists iff the codec part does; the output codec is the configuration name or hevc |
| Encoding.AssembleEncoderArgs | tabarnak.py:78-96 | the branch-by-branch `+=` construction yields exactly `AssembledArgs` |
| Encoding.AssembledHasContainer | tabarnak/tabarnak.py:327-331 | whenever assembly succeeds, the output codec has a container extension in both configurations |
| Encoding.DefaultAssembly | tarbarnak.py:333-349 | for any options without a configuration name or an override, the arguments are the map and metadata parts followed by libx265 at CRF 28, and the codec is hevc; with no option at all they are " -map 0 " and those |
| Encoding.ContainerExt | tabarnak/tabarnak.py:327-331 | `get_container_ext` is defined iff the output codec is in the extension table |
| Jobs.CommandWords | tabarnak/tabarnak.py:588-592 | when the argument string is words separated by single spaces, the command line is ffmpeg, `-i`, the source, exactly those words in order, and the output |
| Text.Contains | tabarnak/tabarnak.py:630 | Python's `a in b` on strings holds iff `a` occurs at some index of `b` |
| Text.ContainsByLength | tabarnak/tabarnak.py:630 | "" is in every string; a longer string is in none; a string of equal length only when it is equal |
| Text.TrimStart | tabarnak/tabarnak.py:589 | the result is a suffix starting at a non-space, and everything dropped is whitespace |
| Text.TrimEnd | tabarnak/tabarnak.py:589 | the result is a prefix ending at a non-space, and everything dropped is whitespace |
| Text.Strip | tabarnak/tabarnak.py:589 | `strip()` yields a slice of the string that neither starts nor ends with whitespace, and everything outside that slice is whitespace |
| Text.Split | tabarnak/tabarnak.py:589 | `split(sep)` pieces contain no separator, and joining them with it gives back the string |
| Text.SplitOfJoin | tabarnak/tabarnak.py:589 | splitting parts joined by a separator none of them holds gives back the parts |
| Text.NonEmpty | tabarnak/tabarnak.py:590 | the filter keeps no empty piece and every non-empty piece as often as it occurs, and their concatenation is unchanged |
| Text.NonEmptyAppend | tabarnak/tabarnak.py:590 | the filter keeps the pieces' order: filtering a concatenation is concatenating the filtered halves |
| Text.TokensShape | tabarnak/tabarnak.py:589-590 | every argument token is non-empty and space-free, and concatenated they are the stripped string without its spaces |
| Text.TokensOfWords | tabarnak/tabarnak.py:589-590 | words without whitespace joined by single spaces are tokenised back into exactly those words |
| Text.ReplaceAll | tabarnak/tabarnak.py:506 | `replace(pat, "")` never lengthens the string |
| Text.RemoveAllUnchangedIff | tabarnak/tabarnak.py:627 | removing a pattern leaves the string unchanged exactly when the pattern does not occur in it |
| Text.Lower | tabarnak/tabarnak.py:645 | lower-casing keeps the length and maps each character on its own |
| Text.LowerIdempotent | tabarnak/tabarnak.py:645 | lower-casing twice is lower-casing once |
| Text.LowerOfLowerCase | tabarnak/tabarnak.py:645 | a string without upper-case letters is its own lower case |
| Paths.Join | tabarnak/tabarnak.py:648 | `os.path.join(a, b)` ends in `b`; an absolute `b` replaces `a`; otherwise `a` comes first and a '/' is added exactly when `a` is non-empty and does not end in one, so a non-empty `a` is always followed by '/' |
| Paths.Basename | tabarnak/tabarnak.py:648 | `basename` is the '/'-free suffix that is all of the path or follows its last '/' |
| Paths.BasenameAppend | tabarnak/tabarnak.py:643-648 | appending a '/'-free suffix to a path appends it to the base name |
| Paths.BasenameOfJoin | tabarnak/tabarnak.py:635 | the base name of a joined path is that of its last part |
| Paths.LastDot | tabarnak/tabarnak.py:642 | the index of the last '.', or none when there is no '.' |
| Paths.SplitExt | tabarnak/tabarnak.py:642 | `splitext` gives root + ext == path; ext is empty or is a '.' followed by no '.' or '/', and a non-dot character precedes it in the base name; ext is non-empty exactly when the base name has a '.' after some non-dot character |
| Paths.ExtOfDottedSuffix | tabarnak/tabarnak.py:642-645 | a path ending with an extension-shaped suffix has that suffix or nothing as its extension |
| Media.Journal.Record | tabarnak.py:301-320 | `log_info`, `log_warning` and `log_error` each append to the list of their own level and leave the other two lists alone |
| Media.Journal.RecordAll | tabarnak.py:301-320 | logging a sequence adds one message per event; a sequence of errors extends exactly the error list |
| Media.JournalAppend | tabarnak.py:301-320 | logging two sequences one after the other is logging their concatenation |
| Media.CodecName | tabarnak/tabarnak.py:490-513 | a skip-listed file is not probed and gets "" silently; otherwise a failed probe or an unlisted codec gives "" and exactly one error; a result is non-empty iff the probe succeeded with a listed codec, and then it is the probe's output without newlines |
| Media.Classify | tabarnak/tabarnak.py:506-513 | a listed codec is kept without any message; any other value gives "" and one invalid-codec error |
| Media.DurationOf | tabarnak/tabarnak.py:515-540 | a failed probe gives 0 and one error; otherwise the truncated duration, with one zero-duration error exactly when it is 0 |
| Media.DurationCheck | tabarnak/tabarnak.py:553-558 | exactly one error iff the durations differ by more than the tolerance in either direction, carrying out − in |
| Media.PercentExceededAsReal | tabarnak/tabarnak.py:573-577 | the integer test 100·(in − out) > tol·in agrees with the reals' (1 − out/in)·100 > tol |
| Media.SizeCheck | tabarnak/tabarnak.py:573-580 | an empty input raises division by zero; otherwise exactly one size warning iff the saved percentage is above the tolerance |
| Media.DurationEvents | tabarnak/tabarnak.py:547-558 | the duration probes and check yield only errors: the two probes' errors plus one if the durations are out of tolerance |
| Media.GetSize | tabarnak.py:454-455 | `os.path.getsize` returns the size of an existing file and raises `FileNotFoundError` for a missing one |
| Media.CompareSizes | tabarnak/tabarnak.py:572-582 | once sizes are known, the result raises iff the input is empty; the duration events come first, then at most one size warning |
| Media.EventKinds | tabarnak/tabarnak.py:547-580 | in the events of a comparison, a duration message occurs iff the check fired, and a size warning iff the size check fired |
| Walking.SourceNameAsWrittenBreaksParent | tabarnak/tabarnak.py:627 | under a parent root, the code's `.replace("./", "")` gives "." + path while the corrected name keeps "../" |
| Walking.SourceName | tabarnak/tabarnak.py:627 | the corrected source name is the joined path, less a leading "./" |
| Walking.SourceNameKeepsBasename | tabarnak/tabarnak.py:627 | the corrected source name ends with the file's own name |
| Walking.SourceNamesAgreeInCurrentDirectory | tabarnak/tabarnak.py:627 | walking ".", both names are the file name itself |
| Walking.Pairs | tabarnak/tabarnak.py:625-626 | a directory's files each come paired with that directory, in order |
| Walking.EntriesPrefix | tabarnak/tabarnak.py:625-626 | files walked so far come first in the whole walk order |
| Walking.DirectoriesPrefix | tabarnak/tabarnak.py:625 | the files of the first n directories come first in the walk |
| Walking.WalkAppend | tabarnak/tabarnak.py:625-657 | one more file is visited from the state so far, unless an exception already stopped the walk |
| Walking.WalkStops | tabarnak/tabarnak.py:625-657 | once a visit raises, the rest of the walk changes nothing |
| Walking.WalkNext | tabarnak/tabarnak.py:625-657 | the j-th file of the i-th directory is visited next, and if that visit raises, the whole walk ends there |
| Walking.WalkNextDirectory | tabarnak/tabarnak.py:625-626 | walking all files of directory i completes the first i + 1 directories |
| Walking.WalkKeeps | tabarnak/tabarnak.py:625-657 | an invariant preserved by every visit holds after the walk |
| Walking.WalkRaises | tabarnak/tabarnak.py:625-657 | every exception that ends the walk was raised by some visit |
| Walking.Decide | tabarnak/tabarnak.py:630-657 | skipped files (and only they) are copied or left alone, copied iff copying is asked for and the destination is absent; otherwise skip-listed extensions are left alone, an existing output is compared and a missing one is encoded, under the output name |
| Walking.OutputFileName | tabarnak/tabarnak.py:642-648 | the output is the source's base name without its extension, plus suffix and container extension, in the output directory |
| Walking.OutputNotSkipListed | tarbarnak.py:271-277 | an output named with .mkv or .webm never has a skip-listed extension |
| Walking.ContainerExtShape | tabarnak/tabarnak.py:199-204 | the container extensions are extension-shaped and not skip-listed |
| Walking.SkipListedWhenExact | tabarnak/tabarnak.py:645 | an extension on the skip list is on it after lower-casing too |
| Walking.SubstringSkipIsEquality | tabarnak/tabarnak.py:630 | for the command line's targets, "codec in target" means the codec is "" or the target itself |
| Tabarnak.FileResult.Add | tabarnak/tabarnak.py:79-95 | `info` appends to infos; both `warning` and `error` append to warnings; errors and exceptions never change |
| Tabarnak.FileResult.Exception | tabarnak/tabarnak.py:97-101 | one more exception, messages unchanged, and the status is now false |
| Tabarnak.Results.Enter | tabarnak/tabarnak.py:114-116 | a fresh file result is appended and becomes current |
| Tabarnak.Results.Exit | tabarnak/tabarnak.py:118-124 | an exception is recorded into the current file result only; no scope is current afterwards |
| Tabarnak.Results.Record | tabarnak/tabarnak.py:135-160 | a message goes to the current file result, or to the run lists outside a scope |
| Tabarnak.Results.RecordAll | tabarnak/tabarnak.py:135-160 | recording events keeps the scope and the number of file results |
| Tabarnak.RecordAllAppend | tabarnak/tabarnak.py:135-160 | recording two sequences in turn is recording their concatenation |
| Tabarnak.RecordKeepsStatus | tabarnak/tabarnak.py:126-160 | messages never change the status nor give a file result an error, and outside a scope they leave file results alone |
| Tabarnak.RecordInScope | tabarnak/tabarnak.py:91-95 | inside a scope only the current file result changes, and errors land in its warnings in order |
| Tabarnak.ScopeStatus | tabarnak/tabarnak.py:114-133 | entering keeps the status; leaving with an exception makes it false; leaving without one keeps it |
| Tabarnak.TranscoderResults.constructor | tabarnak/tabarnak.py:107-112 | the results start empty with no current scope |
| Tabarnak.TranscoderResults.Enter | tabarnak/tabarnak.py:114-116 | the object's new state is `Results.Enter` of the old one |
| Tabarnak.TranscoderResults.Exit | tabarnak/tabarnak.py:118-124 | `__exit__` always suppresses the exception, and the new state is `Results.Exit` |
| Tabarnak.TranscoderResults.Info | tabarnak/tabarnak.py:135-142 | the new state is the old one with one info recorded |
| Tabarnak.TranscoderResults.Warning | tabarnak/tabarnak.py:144-151 | the new state is the old one with one warning recorded |
| Tabarnak.TranscoderResults.Error | tabarnak/tabarnak.py:153-160 | the new state is the old one with one error recorded |
| Tabarnak.TranscoderResults.Status | tabarnak/tabarnak.py:126-133 | the loop returns true iff no file result holds an exception |
| Tabarnak.TranscoderStats.constructor | tabarnak/tabarnak.py:355-357 | the total saved starts at 0 |
| Tabarnak.TranscoderStats.IncrementTotalSaved | tabarnak/tabarnak.py:359-363 | the total grows by the value |
| Tabarnak.CompareSpec | tabarnak/tabarnak.py:542-582 | a missing file counts as size 0; the comparison raises division by zero iff the input size is 0; otherwise it returns both sizes |
| Tabarnak.Compared | tabarnak/tabarnak.py:573-575 | the comparison's events are recorded, and the saved bytes are added unless it raised |
| Tabarnak.EncodeSteps | tabarnak/tabarnak.py:589-618 | the body of the `with` block keeps the scope and the number of file results |
| Tabarnak.Failure | tabarnak/tabarnak.py:604-612 | a failed encode removes the output, raises its fault and leaves the total alone |
| Tabarnak.Finish | tabarnak/tabarnak.py:614-618 | after a successful encode, comparing and reporting leave the filesystem alone |
| Tabarnak.TranscodeFileSpec | tabarnak/tabarnak.py:584-618 | `transcode_file` adds exactly one file result and closes its scope |
| Tabarnak.Visit | tabarnak/tabarnak.py:625-657 | a visit outside a scope stays outside a scope |
| Tabarnak.Act | tabarnak/tabarnak.py:630-657 | acting on a probed file outside a scope stays outside a scope |
| Tabarnak.Perform | tabarnak/tabarnak.py:634-657 | carrying out a decision outside a scope stays outside a scope |
| Tabarnak.DurationPart | tabarnak/tabarnak.py:547-558 | the duration half of a comparison yields only errors |
| TabarnakTranscode.FetchCodecName | tabarnak/tabarnak.py:490-513 | the method returns `CodecName` and records its events |
| TabarnakTranscode.FetchDurationInFrames | tabarnak/tabarnak.py:515-540 | the method returns `DurationOf` and records its events |
| TabarnakTranscode.CompareDurations | tabarnak/tabarnak.py:547-558 | both probes, then the check, record exactly the duration events |
| TabarnakTranscode.CheckDurations | tabarnak/tabarnak.py:553-558 | at most one duration error is recorded, as `DurationCheck` says |
| TabarnakTranscode.CompareInputOutput | tabarnak/tabarnak.py:542-582 | the result and recorded events are `CompareSpec`'s; the total grows by the saved bytes unless it raised |
| TabarnakTranscode.RemoveFile | tabarnak/tabarnak.py:447-456 | one "Removing" info is recorded; the file is gone, whether it existed or not, without raising |
| TabarnakTranscode.TranscodeFile | tabarnak/tabarnak.py:584-618 | the new results, total and filesystem are `TranscodeFileSpec`'s |
| TabarnakTranscode.EncodeInScope | tabarnak/tabarnak.py:589-618 | the body of the `with` block computes `EncodeSteps` and returns its fault |
| TabarnakTranscode.CompareAndReport | tabarnak/tabarnak.py:614-618 | the end of the block computes `Finish` |
| TabarnakTranscode.Transcode | tabarnak/tabarnak.py:621-657 | the nested loops over the listing compute the walk of `Entries(listing)`, each file named as the code names it (every "./" removed), stopping at the first escaping exception |
| TabarnakTranscode.VisitFile | tabarnak/tabarnak.py:626-657 | one iteration computes `Visit` on the source name as the code builds it, the joined path with every "./" removed |
| TabarnakTranscode.ActOn | tabarnak/tabarnak.py:629-657 | the rest of an iteration computes `Act` |
| TabarnakTranscode.CopyOther | tabarnak/tabarnak.py:630-640 | the skipped-codec branch carries out the copy-or-skip decision |
| TabarnakTranscode.ProcessFile | tabarnak/tabarnak.py:642-657 | the remaining branch carries out the skip-list, compare or encode decision |
| TabarnakProperties.CompareReports | tabarnak/tabarnak.py:547-582 | a comparison records a duration error iff the durations are out of tolerance; for a non-empty input, a size warning iff the saved percentage is above the tolerance; the saved bytes are input − output |
| TabarnakProperties.FailedEncode | tabarnak/tabarnak.py:604-612 | a non-zero exit or a zero-duration output leaves the new file result with exactly that exception (status false) and infos "running", "removing"; the output is gone, the total and the earlier results are unchanged |
| TabarnakProperties.SuccessfulEncode | tabarnak/tabarnak.py:614-618 | a successful encode of a non-empty input gives a new file result with status true that ends with "job done" and the sizes; the total grows by the saved bytes, and the output is kept |
| TabarnakProperties.SkipRule | tabarnak/tabarnak.py:630 | for the command line's targets, a file is skipped exactly when its probed codec is "" or the target |
| TabarnakProperties.VisitResults | tabarnak/tabarnak.py:626-657 | a visit adds a file result exactly when it encodes, and otherwise leaves the file results as they were |
| TabarnakProperties.ActResults | tabarnak/tabarnak.py:630-657 | the same, for a file whose codec is already probed |
| TabarnakProperties.EncodePrefix | tabarnak/tabarnak.py:588 | an encode leaves all earlier file results unchanged |
| TabarnakProperties.ExistingOutputNotEncoded | tabarnak/tabarnak.py:650-655 | an existing output is compared, not encoded: the filesystem, the scope and the number of file results are unchanged |
| TabarnakProperties.CompareKeepsFiles | tabarnak/tabarnak.py:542-582 | a comparison changes neither the filesystem, the scope nor the file results' count |
| TabarnakProperties.NoteKeepsNoErrors | tabarnak/tabarnak.py:91-95 | noting a message never gives a file result an error |
| TabarnakProperties.EncodeKeepsNoErrors | tabarnak/tabarnak.py:589-618 | the steps of an encode never give a file result an error |
| TabarnakProperties.TranscodeKeepsNoErrors | tabarnak/tabarnak.py:584-618 | `transcode_file` never gives a file result an error |
| TabarnakProperties.PerformKeepsClean | tabarnak/tabarnak.py:630-657 | carrying out a decision keeps both invariants: no open scope, and no file result with an error |
| TabarnakProperties.VisitKeepsClean | tabarnak/tabarnak.py:626-657 | a visit keeps both invariants |
| TabarnakProperties.WalkStaysClean | tabarnak/tabarnak.py:621-657 | all along `transcode`, no scope is left open and no file result holds an error |
| TabarnakProperties.PerformFaults | tabarnak/tabarnak.py:630-657 | a decision raises only division by zero or a missing source for the copy; skipping and encoding never raise |
| TabarnakProperties.VisitFaults | tabarnak/tabarnak.py:626-657 | a visit raises only those, or the concatenation failure when the codec has no container extension |
| TabarnakProperties.WalkFaults | tabarnak/tabarnak.py:621-657 | every exception that ends `transcode` is one of those; an encode's own exception never escapes |
| LegacyTabarnak.GlobalLog.constructor | tabarnak.py:38-40 | the three lists start empty |
| LegacyTabarnak.GlobalLog.LogInfo | tabarnak.py:301-306 | `log_info` appends to the infos and leaves the other lists alone |
| LegacyTabarnak.GlobalLog.LogWarning | tabarnak.py:308-313 | `log_warning` appends to the warnings and leaves the other lists alone |
| LegacyTabarnak.GlobalLog.LogError | tabarnak.py:315-320 | `log_error` appends to the errors and leaves the other lists alone |
| LegacyTabarnak.GlobalLog.Log | tabarnak.py:301-320 | an event is logged at its own level |
| LegacyTabarnak.Stats.constructor | tabarnak.py:210-212 | the total saved starts at 0 |
| LegacyTabarnak.Stats.IncrementTotalSaved | tabarnak.py:214-218 | the total grows by the value |
| LegacyTabarnak.DurationFrames | tabarnak.py:410-436 | a skip-listed file is not probed and has 0 frames silently; a failed probe gives 0 and one error; otherwise the truncated duration, with one error iff it is 0 |
| LegacyTabarnak.DurationPart | tabarnak.py:443-452 | the duration half yields only errors |
| LegacyTabarnak.CompareSpec | tabarnak.py:438-463 | `getsize` raises for a missing input, then for a missing output; an empty input raises division by zero; otherwise both sizes are returned |
| RunState.Compared | tabarnak.py:456-458 | the events are logged, and the saved bytes added unless the comparison raised (the same step as tarbarnak.py:242-244) |
| LegacyTabarnak.RemoveSpec | tabarnak.py:322-330 | one "Removing" info; the file is gone; removing a missing file raises `FileNotFoundError` |
| LegacyTabarnak.Failure | tabarnak.py:476-481 | a failed encode removes the output and leaves the total alone; it raises exactly when there was no output to remove |
| LegacyTabarnak.Finish | tabarnak.py:483-485 | a successful encode leaves the filesystem alone and raises only a missing file or division by zero |
| LegacyTabarnak.CompareExisting | tabarnak.py:518-524 | the comparison of an existing output leaves the filesystem alone and raises only a missing file or division by zero |
| LegacyTranscode.FetchCodecName | tabarnak.py:387-408 | the method returns `CodecName` and logs its events |
| LegacyTranscode.FetchDurationInFrames | tabarnak.py:410-436 | the method returns `DurationFrames` and logs its events |
| LegacyTranscode.CompareDurations | tabarnak.py:443-452 | both probes and the check log exactly the duration events |
| LegacyTranscode.CheckDurations | tabarnak.py:449-452 | at most one duration error is logged, as `DurationCheck` says |
| LegacyTranscode.CompareInputOutput | tabarnak.py:438-463 | the result and logged events are `CompareSpec`'s; the total grows by the saved bytes unless it raised |
| LegacyTranscode.RemoveFile | tabarnak.py:322-330 | one info is logged and the file is gone; the method raises iff the file was missing |
| LegacyTranscode.TranscodeFile | tabarnak.py:465-485 | the method computes `TranscodeFileSpec` |
| LegacyTranscode.CompareAndReport | tabarnak.py:483-485 | the method computes `Finish` |
| LegacyTranscode.Transcode | tabarnak.py:488-526 | the nested loops compute the walk of `Entries(listing)`, each file named as the code names it (every "./" removed), stopping at the first exception |
| LegacyTranscode.VisitFile | tabarnak.py:495-526 | one iteration computes `Visit` on the source name as the code builds it, the joined path with every "./" removed |
| LegacyTranscode.ActOn | tabarnak.py:497-526 | the rest of an iteration computes `Act` |
| LegacyTranscode.CopyOther | tabarnak.py:497-508 | the skipped-codec branch logs and copies, as the copy-or-skip decision says |
| LegacyTranscode.ProcessFile | tabarnak.py:510-526 | the remaining branch carries out the skip-list, compare or encode decision |
| LegacyProperties.DurationPartKinds | tabarnak.py:443-452 | the duration events hold a duration error iff the durations are out of tolerance, and never a size warning |
| LegacyProperties.CompareEvents | tabarnak.py:438-463 | a comparison logs the duration events, then the size check's warning only once both sizes are read and the input is non-empty |
| LegacyProperties.CompareReports | tabarnak.py:449-461 | a duration error iff out of tolerance; a size warning iff the saved percentage is above the tolerance, for present files and a non-empty input |
| LegacyProperties.FailedEncode | tabarnak.py:476-481 | a failed encode logs "running", one error, then "removing"; it compares nothing and leaves the total alone; it raises `FileNotFoundError` exactly when the encoder left no output |
| LegacyProperties.SuccessfulEncode | tabarnak.py:483-485 | a successful encode with both files present and a non-empty input logs "job done" last, adds the saved bytes to the total and keeps the output |
| LegacyProperties.ExistingOutputNotEncoded | tabarnak.py:518-524 | an existing output is compared, not encoded: the filesystem is unchanged |
| LegacyProperties.EncodeFaults | tabarnak.py:465-485 | an encode raises only a missing file or division by zero |
| LegacyProperties.PerformFaults | tabarnak.py:497-526 | a decision raises only a missing file or division by zero |
| LegacyProperties.VisitFaults | tabarnak.py:495-526 | a visit raises only those or the concatenation failure |
| LegacyProperties.WalkFaults | tabarnak.py:488-526 | every exception that ends `transcode` is one of those |
| Tarbarnak.Globals.constructor | tarbarnak.py:40-44 | the lists start empty and the total at 0 |
| Tarbarnak.Globals.HandleInfo | tarbarnak.py:115-117 | `handle_info` appends to the infos; the rest is untouched |
| Tarbarnak.Globals.HandleWarning | tarbarnak.py:119-121 | `handle_warning` appends to the warnings; the rest is untouched |
| Tarbarnak.Globals.HandleError | tarbarnak.py:123-125 | `handle_error` appends to the errors; the rest is untouched |
| Tarbarnak.Globals.AddSaved | tarbarnak.py:244 | `total_saved += saved`, with the lists unchanged |
| Tarbarnak.FetchDuration | tarbarnak.py:200-223 | a skip-listed file gives the empty string without probing; otherwise as in the current version |
| Tarbarnak.DurationPart | tarbarnak.py:229-238 | the duration half yields only errors |
| Tarbarnak.CompareSpec | tarbarnak.py:225-249 | subtracting an empty duration raises `TypeError`; then `getsize` raises for a missing input, then output; an empty input raises division by zero; otherwise both sizes are returned |
| Tarbarnak.RemoveSpec | tarbarnak.py:135-140 | one "Removing" info; the file is gone; a missing file is logged as an error instead of raising |
| Tarbarnak.AfterShell | tarbarnak.py:289-290 | after the shell, the filesystem holds the output the encoder left, if any |
| Tarbarnak.Failure | tarbarnak.py:291-296 | a failed command removes the output and leaves the total alone |
| Tarbarnak.Finish | tarbarnak.py:298-300 | a successful command leaves the filesystem alone |
| Tarbarnak.CompareExisting | tarbarnak.py:279-286 | the comparison of an existing output leaves the filesystem alone |
| TarbarnakTranscode.FetchCodecName | tarbarnak.py:180-198 | the method returns `CodecName` and logs its events |
| TarbarnakTranscode.FetchDurationInFrames | tarbarnak.py:200-223 | the method returns `FetchDuration` and logs its events |
| TarbarnakTranscode.CompareDurations | tarbarnak.py:229-238 | the method logs the duration events and answers whether both durations were numbers |
| TarbarnakTranscode.CheckDurations | tarbarnak.py:235-238 | at most one duration error is logged, as `DurationCheck` says |
| TarbarnakTranscode.CompareInputOutput | tarbarnak.py:225-249 | the result and logged events are `CompareSpec`'s; the total grows by the saved bytes unless it raised |
| TarbarnakTranscode.RemoveFile | tarbarnak.py:135-140 | the method computes `RemoveSpec` |
| TarbarnakTranscode.RunCommand | tarbarnak.py:127-133 | `run_command` is true iff the exit status is 0 |
| TarbarnakTranscode.EncodeFile | tarbarnak.py:288-300 | the method computes the encode of one file |
| TarbarnakTranscode.CompareAndReport | tarbarnak.py:298-300 | the method computes `Finish` |
| TarbarnakTranscode.CompareExistingFile | tarbarnak.py:279-286 | the method computes `CompareExisting` |
| TarbarnakTranscode.Transcode | tarbarnak.py:251-300 | the nested loops compute the walk of `Entries(listing)`, each file named as the code names it (every "./" removed), stopping at the first exception |
| TarbarnakTranscode.VisitFile | tarbarnak.py:256-300 | one iteration computes `Visit` on the source name as the code builds it, the joined path with every "./" removed |
| TarbarnakTranscode.ActOn | tarbarnak.py:259-300 | the rest of an iteration computes `Act` |
| TarbarnakTranscode.CopyOther | tarbarnak.py:263-269 | the copy branch carries out the copy-or-skip decision |
| TarbarnakTranscode.ProcessFile | tarbarnak.py:271-300 | the remaining branch carries out the skip-list, compare or encode decision |
| TarbarnakProperties.DurationPartKinds | tarbarnak.py:229-238 | a duration error occurs iff both durations are numbers and out of tolerance, and never a size warning |
| TarbarnakProperties.CompareEvents | tarbarnak.py:225-249 | the duration events come first, then the size check's warning only past the subtraction and both reads with a non-empty input |
| TarbarnakProperties.CompareReports | tarbarnak.py:235-247 | a duration error iff subtractable and out of tolerance; a size warning iff the saved percentage is above the tolerance, once past the subtraction and reads |
| TarbarnakProperties.ComparedFilesSubtractable | tarbarnak.py:271-277 | whatever the walk compares or encodes has numeric durations, so the `TypeError` never arises there |
| TarbarnakProperties.FailedEncode | tarbarnak.py:288-296 | a failed command logs it, an error and "removing", plus a second error when there was no output; it raises nothing, compares nothing and leaves the total alone |
| TarbarnakProperties.SuccessfulEncode | tarbarnak.py:298-300 | a successful command with both files present and a non-empty input logs "job done" last, adds the saved bytes and keeps the output |
| TarbarnakProperties.ExistingOutputNotEncoded | tarbarnak.py:279-286 | an existing output is compared, not encoded: the filesystem is unchanged |
| TarbarnakProperties.SkippedFile | tarbarnak.py:259-269 | a skipped file is copied only with copying on and no such destination; the copy raises iff the source is missing; nothing else changes |
| TarbarnakProperties.EncodeFaults | tarbarnak.py:288-300 | an encode of numeric-duration files raises only a missing file or division by zero |
| TarbarnakProperties.ActFaults | tarbarnak.py:259-300 | acting on a probed file raises only a missing file, division by zero or the concatenation failure |
| TarbarnakProperties.VisitFaults | tarbarnak.py:256-300 | a visit raises only those |
| TarbarnakProperties.WalkFaults | tarbarnak.py:251-300 | every exception that ends `transcode` is one of those |
| TarbarnakProperties.AssembledWalkFaults | tarbarnak.py:333-354 | with the arguments assembled at start-up, the walk can end only for a missing file or division by zero |

## Left out

- Output formatting: the message texts and their `%` formatting, `format_size`, `format_input_output` and `print_summary`. Messages are constructors of a `Message` datatype that carry their data.
- Program plumbing: logging setup and the Python `logging` calls, Prometheus export, signal handling, argument parsing, `main` and its exit status, and the makedirs of the output directory. They are plumbing around the walk and change none of its state.
- Process output: the encoder's stdout and stderr passthrough, and the `print` calls of `run_command`. They are output only.
- Directories: directories in the filesystem, `IsADirectoryError`, `SameFileError`, permission errors, and files created during the walk showing up in it. The filesystem holds regular files only, and the listing `os.walk` yields is a fixed input.
- Directory tree: hidden-file skipping and relative-path mirroring. None of the three versions does them.
- Tools: ffprobe, ffmpeg and the shell are inputs: functions from path or command line to outcome. The shell's quoting of the command string is not interpreted.
- The test suite under `tests/` and `setup.py`: they are not part of the walk.
- JSON and YAML configuration dump and load: the tests use such options, but `parse_args` defines none of them.
- Trivial getters such as `get_input_dir` and `get_output_suffix`. Their values are fields of the environment.
- Media.DurationOf: ffprobe's stdout parsed with `float()` and truncated with `int()` is an input field (`truncated`). Float parsing, and the unparsable case becoming 0, are folded into that field.
- Media.PercentExceededAsReal: agreement is proved against the reals, not IEEE doubles. The size check is stated on integers.
- Tabarnak.TranscoderStats.IncrementTotalSaved: `total_saved` starts as the float `0.0`. It is an unbounded integer here, since it only ever adds integer byte counts.
- Text.Lower: case mapping covers ASCII letters only, not all of Unicode.
- Text.ReplaceAll: its own contract states only the length bound. What removing a pattern does is stated by `RemoveAllUnchangedIff`, `RemoveSeparatorOfJoin` and `Walking.SourceNameAsWrittenBreaksParent`.
- Tabarnak.Results.Exit: the exception text `"%s:%s" % (exc_type, exc_value)` is recorded as the `Fault` value. The requirement that a scope is open when an exception arrives is what `with` guarantees; an exception with no current result, which would raise `AttributeError`, is not modelled.
- Tabarnak.Results: `file_result` and the last element of `file_results` are the same Python object. Here the current result is an index into the list, and the index form is proved to stay on the last element (`Results.Valid`).
- TarbarnakTranscode.RunCommand: `os.system` returns an encoded wait status. Only zero versus non-zero matters to the code, and that is what is modelled.
- Encoding.AssembledArgs: a configuration name missing from the table makes `str += None` raise at start-up. This is modelled as an absent result rather than as an exception.
- Tabarnak.EncodeSteps, Tabarnak.Finish, Tabarnak.Visit, Tabarnak.Act and Tabarnak.Perform: their own contracts state only the scope, the count of file results and the filesystem. What they record and raise is stated by the lemmas of `TabarnakProperties`.
- Tarbarnak.Failure and Tarbarnak.Finish: their own contracts state only the filesystem and the total. The logging is stated by `TarbarnakProperties.FailedEncode` and `TarbarnakProperties.SuccessfulEncode`.

## Findings

| source | as written | input that shows it | evidently intended | confidence | as-written member | corrected member |
|---|---|---|---|---|---|---|
| tabarnak/tabarnak.py:627 (same line at tabarnak.py:495 and tarbarnak.py:256) | `os.path.join(root, name).replace("./", "")` removes every "./" in the path | input directory "../videos" and file "a.mkv": the joined path "../videos/a.mkv" becomes ".videos/a.mkv", which is not the file | remove only the "./" that walking the current directory puts in front of each path | not executed | Walking.SourceNameAsWrittenBreaksParent | Walking.SourceName |

The three walks use the name as written (`Walking.SourceNameAsWritten`), so
their lemmas hold for the code as it is. `Walking.SourceName` is the corrected
name, and it keeps the file's own name (`Walking.SourceNameKeepsBasename`).
Both names agree when the walk starts in the current directory, the default
(`Walking.SourceNamesAgreeInCurrentDirectory`).
