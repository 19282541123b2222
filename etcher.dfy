/** `etch` (etcher.rs): draws the sample frame for the payload and builds the
    container file for it, in the mode the payload is tagged with. Writing
    the file and saving the frame are not modelled: the method returns the
    bytes, the frame and the frame's path instead. */
module Etcher {
  import opened Wrappers
  import opened BitCodec
  import opened Container
  import opened Visualizer
  import opened Config

  /** The file `etch` writes for a payload: a Binary container of its bits,
      or a Color container of its bytes. Its magic tells the two apart. */
  function EtchedFile(data: Data): (file: seq<bv8>)
    ensures |file| >= HeaderLength
    ensures file[..6] == BinMagic <==> data.outMode == Binary
    ensures file[..6] == ColMagic <==> data.outMode == Color
  {
    ContainerParts(BinMagic, Le32(|data.binary|), Pack(data.binary));
    ContainerParts(ColMagic, Le32(|data.bytes|), data.bytes);
    match data.outMode
    case Binary => BinaryContainer(data.binary)
    case Color => ColorContainer(data.bytes)
  }

  /** The blocks of the sample frame: one per bit, or one per complete RGB triple. */
  function SampleCells(data: Data): (cells: seq<Rgb>)
    ensures data.outMode == Binary ==> |cells| == |data.binary|
    ensures data.outMode == Color ==> |cells| == |data.bytes| / 3
  {
    match data.outMode
    case Binary => BinaryCells(data.binary)
    case Color => ColorCells(data.bytes)
  }

  /** `settings.size as u32`: a negative block size wraps around. */
  function BlockSize(size: I32): (b: nat)
    ensures b < U32Modulus
    ensures b == 0 <==> size == 0
    ensures size > 0 ==> b == size
  {
    size % U32Modulus
  }

  /** Where the sample frame of an output at `path` is saved. */
  function SamplePath(path: string): (p: string)
    ensures |p| == |path| + 11 && p[..|path|] == path
  {
    path + "_sample.png"
  }

  /** `etch`. The sample frame is returned with the path it is saved to, and
      the container with the path it is written to. A block size of 0
      divides by zero in the pixels-per-frame count and a negative width or
      height wraps to an enormous canvas; both are excluded. The frame is
      `width` by `height`, block `k` of the row-major grid showing payload
      cell `k`; the file is the container for the payload. */
  method Etch(path: string, data: Data, settings: Settings)
    returns (sample: array2<Rgb>, samplePath: string, filePath: string, file: seq<bv8>)
    requires settings.size != 0 && settings.width >= 0 && settings.height >= 0
    ensures fresh(sample) && sample.Length0 == settings.height && sample.Length1 == settings.width
    ensures forall py, px :: 0 <= py < settings.height && 0 <= px < settings.width ==>
      sample[py, px] == Painted(SampleCells(data), settings.width, BlockSize(settings.size), px, py)
    ensures samplePath == SamplePath(path)
    ensures filePath == path && file == EtchedFile(data)
  {
    var blockSize := settings.size % U32Modulus;
    samplePath := path + "_sample.png";
    filePath := path;
    match data.outMode
    case Binary =>
      sample := DrawBinary(data.binary, settings.width, settings.height, blockSize);
      var outputBytes := BinMagic;
      outputBytes := outputBytes + Le32(|data.binary|);
      var packed := PackBits(data.binary);
      outputBytes := outputBytes + packed;
      file := outputBytes;
    case Color =>
      sample := DrawColor(data.bytes, settings.width, settings.height, blockSize);
      var outputBytes := ColMagic;
      outputBytes := outputBytes + Le32(|data.bytes|);
      outputBytes := outputBytes + data.bytes;
      file := outputBytes;
  }

  /** Reading back what `etch` wrote: a Color payload comes back whole; a
      Binary payload comes back packed, cut to its bit count modulo 2^32. */
  lemma EtchThenRead(data: Data)
    ensures data.outMode == Color ==> Decode(EtchedFile(data)) == Success(data.bytes)
    ensures data.outMode == Binary ==>
      Decode(EtchedFile(data)) == Success(Pack(data.binary[..|data.binary| % U32Modulus]))
  {
    match data.outMode
    case Color => ColorRoundTrip(data.bytes);
    case Binary => BinaryRoundTrip(data.binary);
  }
}
