/**
 * The per-file decision of the directory walk, shared by the three versions:
 * the name of the source file, whether it is skipped (and perhaps copied),
 * left alone because of its extension, only compared with an output that
 * already exists, or encoded; and the name of that output.
 */
module Walking {
  import opened Wrappers
  import opened Text
  import opened Paths
  import opened Media

  /**
   * The source name as the walk computes it, `os.path.join(root, name)` with
   * every "./" removed.
   */
  function SourceNameAsWritten(root: string, name: string): string {
    ReplaceAll(Join(root, name), "./", "")
  }

  /**
   * Below a parent directory the removal takes the ".." apart: the file
   * "../videos/a.mkv" is looked for at ".videos/a.mkv", while the intended
   * name is the joined path itself.
   */
  lemma SourceNameAsWrittenBreaksParent(dir: string, name: string)
    requires dir != [] && dir[|dir| - 1] != '/'
    requires name != [] && name[0] != '/'
    requires !Contains(Join(dir, name), "./")
    ensures SourceNameAsWritten("../" + dir, name) == "." + Join(dir, name)
    ensures SourceName("../" + dir, name) == "../" + Join(dir, name)
  {
    JoinBelowParent(dir, name);
    RemoveBelowParent(Join(dir, name));
    ParentPrefix(Join(dir, name));
  }

  lemma JoinBelowParent(dir: string, name: string)
    requires dir != [] && dir[|dir| - 1] != '/'
    requires name != [] && name[0] != '/'
    ensures Join("../" + dir, name) == "../" + Join(dir, name)
  {
    var a := "../" + dir;
    assert a[|a| - 1] == dir[|dir| - 1];
    assert a + "/" + name == "../" + (dir + "/" + name);
  }

  lemma RemoveBelowParent(rest: string)
    requires !Contains(rest, "./")
    ensures ReplaceAll("../" + rest, "./", "") == "." + rest
  {
    ParentPrefix(rest);
    KeepLeadingDot("./" + rest);
    RemoveLeadingDotSlash(rest);
    RemoveAllUnchangedIff(rest, "./");
  }

  lemma ParentPrefix(rest: string)
    ensures "../" + rest == "." + ("./" + rest)
    ensures ("./" + rest)[..2] == "./"
    ensures ("../" + rest)[..2] != "./"
  {
    assert "../" == "." + "./";
    assert ("../" + rest)[..2][1] == '.';
  }

  lemma KeepLeadingDot(q: string)
    requires |q| >= 2 && q[..2] == "./"
    ensures ReplaceAll("." + q, "./", "") == "." + ReplaceAll(q, "./", "")
  {
    ReplaceAllPrependHead('.', q, "./", "");
  }

  lemma RemoveLeadingDotSlash(rest: string)
    ensures ReplaceAll("./" + rest, "./", "") == ReplaceAll(rest, "./", "")
  {
    ReplaceAllMatch(rest, "./", "");
  }

  /**
   * The source name the walk means: the joined path with the leading "./"
   * that walking the current directory puts in front of it removed.
   */
  function SourceName(root: string, name: string): (r: string)
    ensures Join(root, name) == r || Join(root, name) == "./" + r
    ensures |r| + 2 == |Join(root, name)| ==> Join(root, name)[..2] == "./"
  {
    var p := Join(root, name);
    if |p| >= 2 && p[..2] == "./" then
      assert p == "./" + p[2..];
      p[2..]
    else p
  }

  /** The corrected name ends with the file's own name. */
  lemma SourceNameKeepsBasename(root: string, name: string)
    ensures Basename(SourceName(root, name)) == Basename(name)
  {
    var p := Join(root, name);
    BasenameOfJoin(root, name);
    if p != SourceName(root, name) {
      BasenameAfterSlash("./", SourceName(root, name));
    }
  }

  /**
   * In the current directory, where the walk is started by default, both
   * names are the file's own name (for a name that holds no "./").
   */
  lemma SourceNamesAgreeInCurrentDirectory(name: string)
    requires name != "" && name[0] != '/'
    requires !Contains(name, "./")
    ensures SourceNameAsWritten(".", name) == name
    ensures SourceName(".", name) == name
  {
    var p := Join(".", name);
    assert p == "." + "/" + name;
    assert "." + "/" + name == "./" + name;
    var q: string := "./" + name;
    assert q[..2] == "./";
    assert q[2..] == name;
    assert ReplaceAll(q, "./", "") == "" + ReplaceAll(name, "./", "");
    RemoveAllUnchangedIff(name, "./");
  }

  /** The files of one directory, each with the directory it is in. */
  function Pairs(root: string, files: seq<string>): (r: seq<(string, string)>)
    ensures |r| == |files|
    ensures forall k :: 0 <= k < |files| ==> r[k] == (root, files[k])
  {
    seq(|files|, k requires 0 <= k < |files| => (root, files[k]))
  }

  /** The files `os.walk` yields, directory by directory, in the same order. */
  function Entries(listing: seq<(string, seq<string>)>): seq<(string, string)>
    decreases |listing|
  {
    if listing == [] then []
    else Entries(listing[..|listing| - 1]) + Pairs(listing[|listing| - 1].0, listing[|listing| - 1].1)
  }

  /** One more directory of the listing adds its files at the end. */
  lemma EntriesAppend(listing: seq<(string, seq<string>)>, i: nat)
    requires i < |listing|
    ensures Entries(listing[..i + 1]) == Entries(listing[..i]) + Pairs(listing[i].0, listing[i].1)
  {
    assert listing[..i + 1][..i] == listing[..i];
  }

  /** One more file of a directory adds one pair at the end. */
  lemma PairsAppend(root: string, files: seq<string>, j: nat)
    requires j < |files|
    ensures Pairs(root, files[..j + 1]) == Pairs(root, files[..j]) + [(root, files[j])]
  {
  }

  /** The files walked so far, up to the j-th of the i-th directory, come first in the whole walk. */
  lemma EntriesPrefix(listing: seq<(string, seq<string>)>, i: nat, j: nat)
    requires i < |listing| && j <= |listing[i].1|
    ensures Entries(listing[..i]) + Pairs(listing[i].0, listing[i].1[..j]) <= Entries(listing)
  {
    EntriesAppend(listing, i);
    var files := listing[i].1;
    assert Pairs(listing[i].0, files[..j]) <= Pairs(listing[i].0, files);
    DirectoriesPrefix(listing, i + 1);
  }

  /** The files of the first n directories come first in the whole walk. */
  lemma {:induction false} DirectoriesPrefix(listing: seq<(string, seq<string>)>, n: nat)
    requires n <= |listing|
    ensures Entries(listing[..n]) <= Entries(listing)
    decreases |listing| - n
  {
    if n == |listing| {
      assert listing[..n] == listing;
    } else {
      EntriesAppend(listing, n);
      DirectoriesPrefix(listing, n + 1);
    }
  }

  /** What a walk, or one step of it, leaves: the state, and the exception that ended it, if any. */
  datatype Walked<S> = Walked(state: S, fault: Option<Fault>)

  /**
   * Visits the files in order with `visit`; an exception raised by a visit
   * ends the walk, which raises it in turn.
   */
  function WalkWith<S>(visit: (S, (string, string)) -> Walked<S>, es: seq<(string, string)>, st: S): Walked<S>
    decreases |es|
  {
    if es == [] then Walked(st, None)
    else
      var o := WalkWith(visit, es[..|es| - 1], st);
      if o.fault.Some? then o else visit(o.state, es[|es| - 1])
  }

  /** One more file of the walk. */
  lemma WalkAppend<S>(visit: (S, (string, string)) -> Walked<S>, es: seq<(string, string)>, e: (string, string), st: S)
    ensures WalkWith(visit, es + [e], st) ==
            (var o := WalkWith(visit, es, st); if o.fault.Some? then o else visit(o.state, e))
  {
    assert (es + [e])[..|es|] == es;
  }

  /** Once an exception is raised, the rest of the walk does not happen. */
  lemma {:induction false} WalkStops<S>(visit: (S, (string, string)) -> Walked<S>, es: seq<(string, string)>, all: seq<(string, string)>, st: S)
    requires es <= all
    requires WalkWith(visit, es, st).fault.Some?
    ensures WalkWith(visit, all, st) == WalkWith(visit, es, st)
    decreases |all|
  {
    if |all| > |es| {
      WalkStops(visit, es, all[..|all| - 1], st);
    } else {
      assert all == es;
    }
  }

  /**
   * The walk up to and including the j-th file of the i-th directory visits
   * that file last; when that visit raises, the whole walk ends there.
   */
  lemma WalkNext<S>(visit: (S, (string, string)) -> Walked<S>, listing: seq<(string, seq<string>)>, i: nat, j: nat, st: S)
    requires i < |listing| && j < |listing[i].1|
    requires WalkWith(visit, Entries(listing[..i]) + Pairs(listing[i].0, listing[i].1[..j]), st).fault.None?
    ensures var o := WalkWith(visit, Entries(listing[..i]) + Pairs(listing[i].0, listing[i].1[..j]), st);
            var v := visit(o.state, (listing[i].0, listing[i].1[j]));
            WalkWith(visit, Entries(listing[..i]) + Pairs(listing[i].0, listing[i].1[..j + 1]), st) == v
            && (v.fault.Some? ==> WalkWith(visit, Entries(listing), st) == v)
  {
    var done := Entries(listing[..i]) + Pairs(listing[i].0, listing[i].1[..j]);
    var e := (listing[i].0, listing[i].1[j]);
    NextEntry(listing, i, j);
    WalkAppend(visit, done, e, st);
    if WalkWith(visit, done + [e], st).fault.Some? {
      WalkStops(visit, done + [e], Entries(listing), st);
    }
  }

  /** The files walked up to the j-th of the i-th directory, with it, come first in the whole walk. */
  lemma NextEntry(listing: seq<(string, seq<string>)>, i: nat, j: nat)
    requires i < |listing| && j < |listing[i].1|
    ensures Entries(listing[..i]) + Pairs(listing[i].0, listing[i].1[..j + 1])
            == Entries(listing[..i]) + Pairs(listing[i].0, listing[i].1[..j]) + [(listing[i].0, listing[i].1[j])]
    ensures Entries(listing[..i]) + Pairs(listing[i].0, listing[i].1[..j + 1]) <= Entries(listing)
  {
    PairsAppend(listing[i].0, listing[i].1, j);
    EntriesPrefix(listing, i, j + 1);
  }

  /** Walking all files of the i-th directory is walking the first i + 1 directories. */
  lemma WalkNextDirectory<S>(visit: (S, (string, string)) -> Walked<S>, listing: seq<(string, seq<string>)>, i: nat, st: S)
    requires i < |listing|
    ensures WalkWith(visit, Entries(listing[..i]) + Pairs(listing[i].0, listing[i].1[..|listing[i].1|]), st)
            == WalkWith(visit, Entries(listing[..i + 1]), st)
  {
    EntriesAppend(listing, i);
    assert listing[i].1[..|listing[i].1|] == listing[i].1;
  }

  /** A property every visit keeps holds all along the walk. */
  lemma {:induction false} WalkKeeps<S>(visit: (S, (string, string)) -> Walked<S>, inv: S -> bool, es: seq<(string, string)>, st: S)
    requires inv(st)
    requires forall s, e :: inv(s) ==> inv(visit(s, e).state)
    ensures inv(WalkWith(visit, es, st).state)
    decreases |es|
  {
    if es != [] {
      WalkKeeps(visit, inv, es[..|es| - 1], st);
    }
  }

  /** Every exception a walk raises is one some visit raises. */
  lemma {:induction false} WalkRaises<S>(visit: (S, (string, string)) -> Walked<S>, can: Fault -> bool, es: seq<(string, string)>, st: S)
    requires forall s, e :: visit(s, e).fault.Some? ==> can(visit(s, e).fault.value)
    ensures WalkWith(visit, es, st).fault.Some? ==> can(WalkWith(visit, es, st).fault.value)
    decreases |es|
  {
    if es != [] {
      WalkRaises(visit, can, es[..|es| - 1], st);
    }
  }

  /** What the walk does with one file. */
  datatype Decision =
    | Skip
    | Copy(dest: string)
    | SkipListed
    | CompareOnly(output: string)
    | Encode(output: string)

  /** Where a skipped file is copied: the output directory, under its own base name. */
  function CopyDest(outputDir: string, src: string): string {
    Join(outputDir, Basename(src))
  }

  /** The output file: the source's base name with its extension replaced by `tail`, in the output directory. */
  function OutputFile(outputDir: string, src: string, tail: string): string {
    Join(outputDir, Basename(SplitExt(src).0 + tail))
  }

  /** The extension, lower-cased, is one of the skip list. */
  predicate SkipListedExt(src: string) {
    Lower(SplitExt(src).1) in SkipExtensions
  }

  /**
   * The decision for one file, once its codec has been probed and the
   * version has said whether that codec is skipped: a skipped file is copied
   * when copying is asked for and the copy is absent; any other file is left
   * alone when its extension is skip-listed, compared when its output exists,
   * and encoded otherwise.
   */
  function Decide(skip: bool, copyOthers: bool, outputDir: string, tail: string, fs: FileSystem, src: string): (r: Decision)
    ensures (r.Skip? || r.Copy?) <==> skip
    ensures r.Copy? <==> skip && copyOthers && CopyDest(outputDir, src) !in fs
    ensures r.Copy? ==> r.dest == CopyDest(outputDir, src)
    ensures r.SkipListed? <==> !skip && SkipListedExt(src)
    ensures r.CompareOnly? ==> r.output == OutputFile(outputDir, src, tail) && r.output in fs
    ensures r.Encode? ==> r.output == OutputFile(outputDir, src, tail) && r.output !in fs
    ensures !skip && !SkipListedExt(src) ==> (r.CompareOnly? || r.Encode?)
  {
    if skip then
      if copyOthers && CopyDest(outputDir, src) !in fs then Copy(CopyDest(outputDir, src)) else Skip
    else if SkipListedExt(src) then SkipListed
    else
      var out := OutputFile(outputDir, src, tail);
      if out in fs then CompareOnly(out) else Encode(out)
  }

  /**
   * With a tail free of '/', the output is the source's base name without its
   * extension, followed by the tail, in the output directory.
   */
  lemma OutputFileName(outputDir: string, src: string, tail: string)
    requires '/' !in tail
    ensures OutputFile(outputDir, src, tail) == Join(outputDir, Basename(SplitExt(src).0) + tail)
  {
    BasenameAppend(SplitExt(src).0, tail);
  }

  /**
   * An output named with a container extension (a '.' then no '.' nor '/')
   * does not have a skip-listed extension, whether or not Python sees the
   * extension in its name.
   */
  lemma OutputNotSkipListed(outputDir: string, src: string, tail: string, ext: string)
    requires ext == ".mkv" || ext == ".webm"
    requires EndsWith(tail, ext) && '/' !in tail
    ensures SplitExt(OutputFile(outputDir, src, tail)).1 !in SkipExtensions
  {
    var root := SplitExt(src).0;
    BasenameAppend(root, tail);
    EndsWithAppend(Basename(root), tail, ext);
    EndsWithJoin(outputDir, Basename(root + tail), ext);
    ContainerExtShape(ext);
    ExtOfDottedSuffix(OutputFile(outputDir, src, tail), ext);
  }

  lemma EndsWithAppend(a: string, b: string, e: string)
    requires EndsWith(b, e)
    ensures EndsWith(a + b, e)
  {
    assert (a + b)[|a + b| - |e|..] == b[|b| - |e|..];
  }

  lemma EndsWithJoin(a: string, b: string, e: string)
    requires EndsWith(b, e)
    ensures EndsWith(Join(a, b), e)
  {
    var r := Join(a, b);
    assert r[|r| - |e|..] == r[|r| - |b|..][|b| - |e|..];
  }

  /** The container extensions have the shape of an extension and are not skip-listed. */
  lemma ContainerExtShape(ext: string)
    requires ext == ".mkv" || ext == ".webm"
    ensures ExtShaped(ext) && '/' !in ext
    ensures ext !in SkipExtensions && "" !in SkipExtensions
  {
  }

  /** A skip-listed extension is skip-listed once lower-cased too. */
  lemma SkipListedWhenExact(src: string)
    requires SplitExt(src).1 in SkipExtensions
    ensures SkipListedExt(src)
  {
    LowerOfSkipExtension(SplitExt(src).1);
  }

  lemma LowerOfSkipExtension(e: string)
    requires e in SkipExtensions
    ensures Lower(e) == e
  {
    assert e == ".srt" || e == ".jpg" || e == ".txt" || e == ".py" || e == ".pyc";
    forall i | 0 <= i < |e| ensures !('A' <= e[i] <= 'Z') {
    }
    LowerOfLowerCase(e);
  }

  /**
   * The configuration names the command line offers. For the target codec
   * being one of them and the codec being one `fetch_codec_name` can return,
   * "the codec is a substring of the target" means "the codec is empty or is
   * the target".
   */
  lemma SubstringSkipIsEquality(codec: string, target: string)
    requires target in ["h264", "hevc", "av1", "vp9"]
    requires codec == "" || codec in VideoCodecs
    ensures Contains(target, codec) <==> codec == "" || codec == target
  {
    ContainsByLength(target, codec);
  }
}
