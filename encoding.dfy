/**
 * The encoder configuration tables and the assembly of the ffmpeg argument
 * string from the command-line options: a map part, then a metadata part,
 * then a codec part. All three versions assemble it the same way; the oldest
 * one uses tables without an h264 entry.
 */
module Encoding {
  import opened Wrappers
  import opened Text

  /** The container extension and the video encoder arguments of each configuration name. */
  datatype Config = Config(containerExt: map<string, string>, encoderArgs: map<string, string>)

  const HevcArgs := " -c:v libx265 -crf 28 "
  const H264Args := " -c:v libx264 -crf 30 "
  const Av1Args := " -c:v libaom-av1 -crf 30 -b:v 2000k -strict experimental -row-mt 1 -tile-columns 4 -tile-rows 4 -threads 12"
  const Vp9Args := " -c:v libvpx-vp9 -crf 30 -b:v 2000k "

  /** `TranscoderConfig` of both tabarnak versions. */
  const TranscoderConfig := Config(
    map["h264" := ".mkv", "hevc" := ".mkv", "av1" := ".mkv", "vp9" := ".webm"],
    map["h264" := H264Args, "hevc" := HevcArgs, "av1" := Av1Args, "vp9" := Vp9Args])

  /** The default tables of the oldest version, keyed by codec. */
  const OldestConfig := Config(
    map["hevc" := ".mkv", "av1" := ".mkv", "vp9" := ".webm"],
    map["hevc" := HevcArgs, "av1" := Av1Args, "vp9" := Vp9Args])

  /** Python's `dict.get`: the value of the key, or `None`. */
  function Get(m: map<string, string>, key: string): (r: Option<string>)
    ensures r.Some? <==> key in m
    ensures r.Some? ==> r.value == m[key]
  {
    if key in m then Some(m[key]) else None
  }

  /** `get_container_ext`. */
  function GetContainerExt(c: Config, name: string): Option<string> {
    Get(c.containerExt, name)
  }

  /** `get_encoder_args`. */
  function GetEncoderArgs(c: Config, name: string): Option<string> {
    Get(c.encoderArgs, name)
  }

  /**
   * In both configurations the two tables know the same names, every
   * container is ".mkv" or ".webm", and ".webm" is the container of vp9 alone.
   */
  lemma ConfigTables(c: Config, name: string)
    requires c == TranscoderConfig || c == OldestConfig
    ensures GetContainerExt(c, name).Some? <==> GetEncoderArgs(c, name).Some?
    ensures GetContainerExt(c, name).Some? ==> GetContainerExt(c, name).value in {".mkv", ".webm"}
    ensures GetContainerExt(c, name) == Some(".webm") <==> name == "vp9"
  {
  }

  /** The oldest tables are those of `TranscoderConfig` without h264. */
  lemma OldestConfigLookups(name: string)
    ensures GetContainerExt(OldestConfig, name) == (if name == "h264" then None else GetContainerExt(TranscoderConfig, name))
    ensures GetEncoderArgs(OldestConfig, name) == (if name == "h264" then None else GetEncoderArgs(TranscoderConfig, name))
  {
  }

  /** The options that decide the encoder arguments. */
  datatype EncoderOptions = EncoderOptions(
    mapArgs: Option<string>,
    defaultMap: bool,
    stripMetadata: bool,
    videoConfigName: Option<string>,
    encoderArgs: Option<string>)

  /** `TranscoderEncoderArgs`: the argument string and the name of the output video codec. */
  datatype EncoderArgs = EncoderArgs(args: string, outputVideoCodec: string)

  const DefaultCodec := "hevc"

  /** The map part: the given map arguments, else " -map 0 " unless the default mapping is asked for. */
  function MapPart(o: EncoderOptions): (r: string)
    ensures o.mapArgs.Some? ==> r == o.mapArgs.value
    ensures o.mapArgs.None? && !o.defaultMap ==> r == " -map 0 "
    ensures o.mapArgs.None? && o.defaultMap ==> r == ""
  {
    match o.mapArgs
    case Some(a) => a
    case None => if o.defaultMap then "" else " -map 0 "
  }

  /** The metadata part: " -map_metadata -1 " iff metadata is stripped. */
  function MetadataPart(o: EncoderOptions): (r: string)
    ensures r != "" <==> o.stripMetadata
    ensures o.stripMetadata ==> r == " -map_metadata -1 "
  {
    if o.stripMetadata then " -map_metadata -1 " else ""
  }

  /**
   * The codec part and the output codec: the configuration's arguments when a
   * configuration is named, else the override, else the arguments of hevc.
   * A name the configuration lacks has no arguments, and appending them
   * fails (`None`).
   */
  function CodecPart(o: EncoderOptions, c: Config): (r: Option<EncoderArgs>)
    ensures o.videoConfigName.Some? ==>
              r == (if o.videoConfigName.value in c.encoderArgs
                    then Some(EncoderArgs(c.encoderArgs[o.videoConfigName.value], o.videoConfigName.value))
                    else None)
    ensures o.videoConfigName.None? && o.encoderArgs.Some? ==> r == Some(EncoderArgs(o.encoderArgs.value, DefaultCodec))
    ensures o.videoConfigName.None? && o.encoderArgs.None? ==>
              r == (if DefaultCodec in c.encoderArgs then Some(EncoderArgs(c.encoderArgs[DefaultCodec], DefaultCodec)) else None)
  {
    match o.videoConfigName
    case Some(name) =>
      (match GetEncoderArgs(c, name)
       case Some(a) => Some(EncoderArgs(a, name))
       case None => None)
    case None =>
      match o.encoderArgs
      case Some(a) => Some(EncoderArgs(a, DefaultCodec))
      case None =>
        match GetEncoderArgs(c, DefaultCodec)
        case Some(a) => Some(EncoderArgs(a, DefaultCodec))
        case None => None
  }

  /** The assembled encoder arguments: map part, metadata part, codec part, in that order. */
  function AssembledArgs(o: EncoderOptions, c: Config): (r: Option<EncoderArgs>)
    ensures r.None? <==> CodecPart(o, c).None?
    ensures r.Some? ==> r.value.args == MapPart(o) + MetadataPart(o) + CodecPart(o, c).value.args
    ensures r.Some? ==> r.value.outputVideoCodec == (if o.videoConfigName.Some? then o.videoConfigName.value else DefaultCodec)
    ensures r.Some? ==> r.value.outputVideoCodec in c.encoderArgs || o.encoderArgs.Some?
  {
    match CodecPart(o, c)
    case None => None
    case Some(p) => Some(EncoderArgs(MapPart(o) + MetadataPart(o) + p.args, p.outputVideoCodec))
  }

  /** `TranscoderEncoderArgs.__init__`, building the string with `+=` branch by branch. */
  method AssembleEncoderArgs(o: EncoderOptions, c: Config) returns (r: Option<EncoderArgs>)
    ensures r == AssembledArgs(o, c)
  {
    var args := "";
    var codec := DefaultCodec;
    if o.mapArgs.Some? {
      args := args + o.mapArgs.value;
    } else if !o.defaultMap {
      args := args + " -map 0 ";
    }
    assert args == MapPart(o);
    if o.stripMetadata {
      args := args + " -map_metadata -1 ";
    }
    assert args == MapPart(o) + MetadataPart(o);
    if o.videoConfigName.Some? {
      var a := GetEncoderArgs(c, o.videoConfigName.value);
      if a.None? {
        return None;
      }
      args := args + a.value;
      codec := o.videoConfigName.value;
    } else if o.encoderArgs.Some? {
      args := args + o.encoderArgs.value;
    } else {
      var a := GetEncoderArgs(c, codec);
      if a.None? {
        return None;
      }
      args := args + a.value;
    }
    return Some(EncoderArgs(args, codec));
  }

  /**
   * Both configurations have the same names in both tables, so whenever the
   * assembly succeeds without an override, the output codec has a container
   * extension; and hevc, the codec used with an override, always has one.
   */
  lemma AssembledHasContainer(o: EncoderOptions, c: Config)
    requires c == TranscoderConfig || c == OldestConfig
    requires AssembledArgs(o, c).Some?
    ensures GetContainerExt(c, AssembledArgs(o, c).value.outputVideoCodec).Some?
  {
    var codec := AssembledArgs(o, c).value.outputVideoCodec;
    assert codec in c.encoderArgs || codec == DefaultCodec;
    assert c.containerExt.Keys == c.encoderArgs.Keys;
  }

  /**
   * Without a configuration name or an override, the codec part is hevc's
   * libx265 at CRF 28 after the map and metadata parts, whatever those are;
   * with no option at all, the encoder maps all streams and nothing else.
   */
  lemma DefaultAssembly(o: EncoderOptions, c: Config)
    requires c == TranscoderConfig || c == OldestConfig
    ensures o.videoConfigName.None? && o.encoderArgs.None? ==>
              AssembledArgs(o, c) == Some(EncoderArgs(MapPart(o) + MetadataPart(o) + HevcArgs, "hevc"))
    ensures AssembledArgs(EncoderOptions(None, false, false, None, None), c)
            == Some(EncoderArgs(" -map 0 " + HevcArgs, "hevc"))
  {
    var none := EncoderOptions(None, false, false, None, None);
    assert MapPart(none) + MetadataPart(none) == " -map 0 ";
  }

  /** The options of `TranscoderArgs` that the transcoding steps read. */
  datatype TranscodeArgs = TranscodeArgs(
    inputDir: string,
    outputDir: string,
    outputSuffix: string,
    encoder: EncoderArgs,
    durationTolerance: int,
    percentTolerance: int)

  /** `TranscoderArgs.get_container_ext`: the extension of the output codec. */
  function ContainerExt(a: TranscodeArgs): (r: Option<string>)
    ensures r.Some? <==> a.encoder.outputVideoCodec in TranscoderConfig.containerExt
  {
    GetContainerExt(TranscoderConfig, a.encoder.outputVideoCodec)
  }

  /** The arguments could have been built: the output codec has a container extension. */
  predicate Configured(a: TranscodeArgs) {
    a.encoder.outputVideoCodec in TranscoderConfig.containerExt
  }
}
