/** `run_embed` (embed.rs): turns the `embed` parameters into encoder
    settings and an output mode, then etches the input file's contents into
    "output.binvid". Reading the input file is a parameter: `contents` are
    the bytes found at the chosen input path. */
module Embed {
  import opened Wrappers
  import opened Config
  import Args
  import opened BitCodec
  import opened Container
  import opened Visualizer
  import opened Etcher

  /** Where the input is read from when no `--in-path` is given. */
  const DefaultInputPath: string := "test_file.txt"

  /** Where the container is written. */
  const OutputPath: string := "output.binvid"

  /** The settings and output mode `run_embed` hands to `etch`. */
  datatype Resolved = Resolved(settings: Settings, mode: OutputMode)

  /** The preset table. Without a preset: all-zero settings and Binary mode. */
  function PresetResolved(preset: Option<Args.EmbedPreset>): (r: Resolved)
    ensures preset.None? <==> r.settings.width == 0 || r.settings.height == 0
    ensures preset.None? ==> r == Resolved(DefaultSettings(), Binary)
    ensures preset.Some? ==> r.settings.size > 0 && r.settings.threads == 8 && r.settings.fps == 10
  {
    if preset.None? then Resolved(DefaultSettings(), Binary)
    else if preset.value.MaxEfficiency? then Resolved(Settings(1, 8, 10, 256, 144), Color)
    else if preset.value.Optimal? then Resolved(Settings(2, 8, 10, 1280, 720), Binary)
    else Resolved(Settings(4, 8, 10, 1280, 720), Binary)
  }

  /** The `--resolution` table, as (width, height). A missing or unknown
      token means 360p. */
  function ResolutionOf(token: Option<string>): (wh: (I32, I32))
    ensures 0 < wh.1 < wh.0
    ensures token.None? ==> wh == (640, 360)
    ensures token.Some? && token.value !in {"144p", "240p", "360p", "480p", "720p"} ==> wh == (640, 360)
  {
    match token
    case None => (640, 360)
    case Some(t) =>
      if t == "144p" then (256, 144)
      else if t == "240p" then (426, 240)
      else if t == "360p" then (640, 360)
      else if t == "480p" then (854, 480)
      else if t == "720p" then (1280, 720)
      else (640, 360)
  }

  /** What `run_embed` settles on, field by field: each override given on
      the command line wins; otherwise the preset's value, or zero without a
      preset; the frame size is the preset's, or the `--resolution` one. */
  function Resolve(args: Args.EmbedParams): (r: Resolved)
    ensures r.settings.width > 0 && r.settings.height > 0
  {
    var base := PresetResolved(args.preset);
    var frame := if args.preset.Some? then (base.settings.width, base.settings.height) else ResolutionOf(args.resolution);
    Resolved(
      Settings(
        size := args.blockSize.GetOr(base.settings.size),
        threads := args.threads.GetOr(base.settings.threads),
        fps := args.fps.GetOr(base.settings.fps),
        width := frame.0,
        height := frame.1),
      if args.mode.Some? then Args.ToOutputMode(args.mode.value) else base.mode)
  }

  /** The settings part of `run_embed`: start from the defaults, apply the
      preset, fill in a missing frame size, then apply each override in turn. */
  method ResolveSettings(args: Args.EmbedParams) returns (settings: Settings, outputMode: OutputMode)
    ensures Resolved(settings, outputMode) == Resolve(args)
  {
    settings := DefaultSettings();
    outputMode := Binary;

    if args.preset == Some(Args.MaxEfficiency) {
      outputMode := Color;
      settings := settings.(size := 1);
      settings := settings.(threads := 8);
      settings := settings.(fps := 10);
      settings := settings.(width := 256);
      settings := settings.(height := 144);
    } else if args.preset == Some(Args.Optimal) {
      outputMode := Binary;
      settings := settings.(size := 2);
      settings := settings.(threads := 8);
      settings := settings.(fps := 10);
      settings := settings.(width := 1280);
      settings := settings.(height := 720);
    } else if args.preset == Some(Args.Paranoid) {
      outputMode := Binary;
      settings := settings.(size := 4);
      settings := settings.(threads := 8);
      settings := settings.(fps := 10);
      settings := settings.(width := 1280);
      settings := settings.(height := 720);
    }

    if settings.width == 0 || settings.height == 0 {
      if args.resolution.None? {
        settings := settings.(width := 640);
        settings := settings.(height := 360);
      } else {
        var frame := ResolutionOf(args.resolution);
        settings := settings.(width := frame.0);
        settings := settings.(height := frame.1);
      }
    }

    if args.mode.Some? {
      outputMode := Args.ToOutputMode(args.mode.value);
    }
    if args.blockSize.Some? {
      settings := settings.(size := args.blockSize.value);
    }
    if args.threads.Some? {
      settings := settings.(threads := args.threads.value);
    }
    if args.fps.Some? {
      settings := settings.(fps := args.fps.value);
    }
  }

  /** A preset alone fixes everything: no other parameter changes the result. */
  lemma PresetWithoutOverrides(args: Args.EmbedParams)
    requires args.preset.Some?
    requires args.mode.None? && args.blockSize.None? && args.threads.None? && args.fps.None?
    ensures Resolve(args) == PresetResolved(args.preset)
  {
  }

  /** The three presets on their own, through the whole resolution. */
  lemma PresetOutcomes(args: Args.EmbedParams)
    requires args.mode.None? && args.blockSize.None? && args.threads.None? && args.fps.None?
    ensures args.preset == Some(Args.MaxEfficiency) ==> Resolve(args) == Resolved(Settings(1, 8, 10, 256, 144), Color)
    ensures args.preset == Some(Args.Optimal) ==> Resolve(args) == Resolved(Settings(2, 8, 10, 1280, 720), Binary)
    ensures args.preset == Some(Args.Paranoid) ==> Resolve(args) == Resolved(Settings(4, 8, 10, 1280, 720), Binary)
  {
  }

  /** Without a preset, the frame size each `--resolution` token selects. */
  lemma ResolutionOutcomes(args: Args.EmbedParams)
    requires args.preset.None?
    ensures var frame := (Resolve(args).settings.width, Resolve(args).settings.height);
      && (args.resolution == Some("144p") ==> frame == (256, 144))
      && (args.resolution == Some("240p") ==> frame == (426, 240))
      && (args.resolution == Some("360p") ==> frame == (640, 360))
      && (args.resolution == Some("480p") ==> frame == (854, 480))
      && (args.resolution == Some("720p") ==> frame == (1280, 720))
      && (args.resolution.None? ==> frame == (640, 360))
      && (args.resolution.Some? && args.resolution.value !in {"144p", "240p", "360p", "480p", "720p"} ==> frame == (640, 360))
  {
  }

  /** With a preset, `--resolution` is ignored. */
  lemma PresetIgnoresResolution(args: Args.EmbedParams, token: Option<string>)
    requires args.preset.Some?
    ensures Resolve(args.(resolution := token)) == Resolve(args)
  {
  }

  /** Without a preset, the frame size is the `--resolution` one. */
  lemma ResolutionWithoutPreset(args: Args.EmbedParams)
    requires args.preset.None?
    ensures (Resolve(args).settings.width, Resolve(args).settings.height) == ResolutionOf(args.resolution)
  {
  }

  /** An override given on the command line wins; one not given leaves the
      preset's value (zero, or Binary, without a preset). */
  lemma OverridesWin(args: Args.EmbedParams)
    ensures var r, base := Resolve(args), PresetResolved(args.preset);
      && (args.mode.Some? ==> r.mode == Args.ToOutputMode(args.mode.value))
      && (args.mode.None? ==> r.mode == base.mode)
      && (args.blockSize.Some? ==> r.settings.size == args.blockSize.value)
      && (args.blockSize.None? ==> r.settings.size == base.settings.size)
      && (args.threads.Some? ==> r.settings.threads == args.threads.value)
      && (args.threads.None? ==> r.settings.threads == base.settings.threads)
      && (args.fps.Some? ==> r.settings.fps == args.fps.value)
      && (args.fps.None? ==> r.settings.fps == base.settings.fps)
  {
  }

  /** With no parameter at all, the block size stays 0, which `etch` cannot
      use (it divides by the block size). */
  lemma DefaultsHaveNoBlockSize()
    ensures Resolve(Args.DefaultEmbedParams()) == Resolved(Settings(0, 0, 0, 640, 360), Binary)
    ensures Resolve(Args.DefaultEmbedParams()).settings.size == 0
  {
  }

  /** The payload `run_embed` builds from the input's contents: the bytes
      themselves for Color, their bits (least significant first) for Binary. */
  function Payload(mode: OutputMode, contents: seq<bv8>): (d: Data)
    ensures WellTagged(d) && d.outMode == mode
    ensures mode == Color ==> d.bytes == contents
    ensures mode == Binary ==> d.binary == Bits(contents)
  {
    match mode
    case Color => FromColor(contents)
    case Binary => FromBinary(Bits(contents))
  }

  /** `run_embed`, from the parameters and the bytes at the input path it
      chose. It needs a non-zero block size, which the presets and
      `--block-size` provide. */
  method RunEmbed(args: Args.EmbedParams, contents: seq<bv8>)
    returns (inputPath: string, sample: array2<Rgb>, samplePath: string, outPath: string, file: seq<bv8>)
    requires Resolve(args).settings.size != 0
    ensures inputPath == args.inPath.GetOr(DefaultInputPath)
    ensures var s := Resolve(args).settings;
      && fresh(sample) && sample.Length0 == s.height && sample.Length1 == s.width
      && forall py, px :: 0 <= py < s.height && 0 <= px < s.width ==>
           sample[py, px] == Painted(SampleCells(Payload(Resolve(args).mode, contents)), s.width, BlockSize(s.size), px, py)
    ensures samplePath == SamplePath(OutputPath)
    ensures outPath == OutputPath && file == EtchedFile(Payload(Resolve(args).mode, contents))
  {
    var settings, outputMode := ResolveSettings(args);
    inputPath := args.inPath.GetOr(DefaultInputPath);
    match outputMode
    case Color =>
      var data := FromColor(contents);
      sample, samplePath, outPath, file := Etch(OutputPath, data, settings);
    case Binary =>
      var binary := RipBinary(contents);
      var data := FromBinary(binary);
      sample, samplePath, outPath, file := Etch(OutputPath, data, settings);
  }

  /** Embedding then reading the output back gives the input's contents in
      Color mode always, and in Binary mode while its bit count fits the
      32-bit length field; past that, Binary mode returns fewer bytes. */
  lemma EmbedThenRead(mode: OutputMode, contents: seq<bv8>)
    ensures mode == Color ==> Decode(EtchedFile(Payload(mode, contents))) == Success(contents)
    ensures mode == Binary && 8 * |contents| < U32Modulus ==>
      Decode(EtchedFile(Payload(mode, contents))) == Success(contents)
    ensures mode == Binary && 8 * |contents| >= U32Modulus ==>
      Decode(EtchedFile(Payload(mode, contents))).Success? &&
      |Decode(EtchedFile(Payload(mode, contents))).value| < |contents|
  {
    match mode
    case Color => ColorRoundTrip(contents);
    case Binary =>
      if 8 * |contents| < U32Modulus {
        BinaryBytesRoundTrip(contents);
      } else {
        BinaryBytesTruncated(contents);
      }
  }
}
