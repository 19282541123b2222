/** args.rs: the `embed` subcommand's parameters and the conversion of its
    `--mode` value into the encoder's output mode. Command-line parsing
    itself is not modelled; a parameter set is a value. */
module Args {
  import opened Wrappers
  import Config

  /** `--preset`. */
  datatype EmbedPreset = Optimal | Paranoid | MaxEfficiency

  /** `--mode`. */
  datatype EmbedOutputMode = Colored | Binary

  /** The `embed` subcommand's parameters; every one is optional. */
  datatype EmbedParams = EmbedParams(
    inPath: Option<string>,
    preset: Option<EmbedPreset>,
    mode: Option<EmbedOutputMode>,
    blockSize: Option<Config.I32>,
    threads: Option<Config.Usize>,
    fps: Option<Config.I32>,
    resolution: Option<string>)

  /** The derived `EmbedParams::default()`: no parameter given. */
  function DefaultEmbedParams(): (p: EmbedParams)
    ensures p.inPath.None? && p.preset.None? && p.mode.None? && p.blockSize.None?
    ensures p.threads.None? && p.fps.None? && p.resolution.None?
  {
    EmbedParams(None, None, None, None, None, None, None)
  }

  /** `From<EmbedOutputMode> for OutputMode`: `Colored` becomes Color and
      `Binary` becomes Binary. */
  function ToOutputMode(m: EmbedOutputMode): (r: Config.OutputMode)
    ensures r == Config.Color <==> m == Colored
    ensures r == Config.Binary <==> m == EmbedOutputMode.Binary
  {
    match m
    case Colored => Config.Color
    case Binary => Config.Binary
  }

  /** The `--mode` value that asks for a given output mode. */
  function ModeArgument(o: Config.OutputMode): EmbedOutputMode {
    match o
    case Color => Colored
    case Binary => EmbedOutputMode.Binary
  }

  /** The conversion is a bijection: distinct variants give distinct modes,
      and every output mode can be asked for on the command line. */
  lemma ToOutputModeBijective(m: EmbedOutputMode, o: Config.OutputMode)
    ensures ModeArgument(ToOutputMode(m)) == m
    ensures ToOutputMode(ModeArgument(o)) == o
  {
  }
}
