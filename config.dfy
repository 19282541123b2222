/** settings.rs: the output mode, the payload handed to `etch`, and the
    encoder settings. */
module Config {

  /** Rust's `i32`. */
  type I32 = x: int | -0x8000_0000 <= x < 0x8000_0000

  /** Rust's `usize` on a 64-bit target. */
  type Usize = x: int | 0 <= x < 0x1_0000_0000_0000_0000

  /** Black-and-white blocks with packed bits, or RGB blocks with raw bytes. */
  datatype OutputMode = Binary | Color

  /** What `etch` encodes: raw bytes for Color, bits for Binary; the tag says
      which of the two is in use. */
  datatype Data = Data(bytes: seq<bv8>, binary: seq<bool>, outMode: OutputMode)

  /** The tag invariant both constructors establish: the field the mode does
      not use is empty. */
  predicate WellTagged(d: Data) {
    && (d.outMode == Binary ==> d.bytes == [])
    && (d.outMode == Color ==> d.binary == [])
  }

  /** `Data::from_binary`. */
  function FromBinary(binary: seq<bool>): (d: Data)
    ensures d.outMode == Binary && d.binary == binary
    ensures WellTagged(d)
  {
    Data([], binary, Binary)
  }

  /** `Data::from_color`. */
  function FromColor(bytes: seq<bv8>): (d: Data)
    ensures d.outMode == Color && d.bytes == bytes
    ensures WellTagged(d)
  {
    Data(bytes, [], Color)
  }

  /** A well-tagged `Data` is exactly what one of the two constructors builds
      from its payload. */
  lemma WellTaggedIsConstructed(d: Data)
    ensures WellTagged(d) <==> (d == FromBinary(d.binary) || d == FromColor(d.bytes))
  {
  }

  /** The encoder settings. `fps` is an `f64` in the Rust code, but every value
      ever stored there is an `i32` converted exactly (`Settings::new`, the
      presets' 10.0 and the `--fps` override), so it is an integer here. */
  datatype Settings = Settings(size: I32, threads: Usize, fps: I32, width: I32, height: I32)

  /** The derived `Settings::default()`: every field zero. */
  function DefaultSettings(): (s: Settings)
    ensures s.size == 0 && s.threads == 0 && s.fps == 0 && s.width == 0 && s.height == 0
  {
    Settings(0, 0, 0, 0, 0)
  }

  /** `Settings::new`: each argument goes to the field of its own name; the
      struct literal lists `height` before `width`, which does not swap them. */
  function NewSettings(size: I32, threads: Usize, fps: I32, width: I32, height: I32): (s: Settings)
    ensures s.size == size && s.threads == threads && s.fps == fps
    ensures s.width == width && s.height == height
  {
    Settings(size, threads, fps, width, height)
  }
}
