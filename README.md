# Video-container encoder core, modelled in Dafny

This project models the encode/decode pipeline of a small Rust tool. The tool hides a file inside
"video" output: it writes a container file and a sample frame.

- **Bit codec** (`BitCodec`). `rip_binary` turns bytes into bits, least significant bit
  first. The packer in `etch` folds bits back into bytes, 8 per byte.
- **Container format** (`Container`). Two layouts exist:
  - Binary: `"BINVID"`, the bit count as a little-endian `u32`, then the packed bits.
  - Color: `"COLVID"`, the byte count as a little-endian `u32`, then the raw bytes.

  `read` is modelled twice:
  - `Decode` is a function from the file's contents to a result;
  - `Read` is the imperative unpack/repack loop proved equal to it.
- **Sample frame** (`Visualizer`). A `width` × `height` canvas (a 2-D array, indexed
  `[y, x]`, initially black) is tiled by square blocks in row-major order. Block `k` shows the
  `k`-th payload cell: one white/black cell per bit in Binary mode, one RGB cell per complete
  byte triple in Color mode. Blocks past the payload stay black, and blocks at the right and
  bottom edges are clipped.
- **`etch`** (`Etcher`). It draws the frame and builds the container for a tagged payload.
- **Settings** (`Config`, `Args`, `Embed`):
  - `Config` holds the output mode, the tagged payload and the encoder settings.
  - `Args` holds the `embed` parameters and the `--mode` conversion.
  - `Embed` holds `run_embed`. It takes the preset table, then the resolution table, then the
    command-line overrides. It then hands `etch` either the bytes or their bits.

The main results:
- Packing inverts `rip_binary`.
- `Read` computes `Decode`.
- `Decode` gives back exactly what `etch` wrote. This holds for any Color payload. For a Binary
  payload it holds when the bit count fits the 32-bit length field; beyond that fewer bytes come
  back.
- Every pixel of the sample frame has the colour of the grid cell it lies in.
- The imperative settings resolution agrees with a field-by-field definition. The preset,
  resolution and override outcomes are proved about that definition.

Files contain bytes (`bv8`). Bits are `bool`. Rust's `i32` and `usize` are subset types of `int`.

## Model

| member | source | states |
|---|---|---|
| BitCodec.Bit | etcher.rs:21 | bit `i` of a byte, counting from the least significant: `(b >> i) & 1 == 1` (definition; `BitsDetermineByte` shows the eight bits determine the byte) |
| BitCodec.Bits | etcher.rs:16-27 | the bits of a byte string, eight per byte |
| BitCodec.ByteBits | etcher.rs:20-23 | a byte yields 8 bits, bit `i` being `(b >> i) & 1 == 1` |
| BitCodec.BitsAt | etcher.rs:19-23 | bit `8k+i` of the bit string is bit `i` of byte `k` |
| BitCodec.RipBinary | etcher.rs:16-27 | the nested push loop yields `8*n` bits, bit `8k+i` being bit `i` of byte `k`, i.e. exactly `Bits(bytes)` |
| BitCodec.MaskIsShift | etcher.rs:214 | the mask OR-ed in for bit position `p` is `1 << p` |
| BitCodec.PackByte | etcher.rs:212-215 | a group of at most eight bits as one byte, bit `i` of the group OR-ed in as `1 << i` (definition; its bit layout is `PackByteBit`) |
| BitCodec.PackByteBit | etcher.rs:212-215 | bit `i` of a packed group is set iff the group has an `i`-th bit and it is true (unused high bits are zero) |
| BitCodec.PackByteBits | etcher.rs:209-224 | packing the 8 bits of a byte gives the byte back |
| BitCodec.Pack | etcher.rs:209-229 | the reference packing: consecutive groups of eight bits, each by `PackByte`, a final shorter group still taking a byte (definition; length in `PackLength`, layout in `PackBitAt`, inverse in `PackOfBits`) |
| BitCodec.PackLength | etcher.rs:219-229 | packing `n` bits gives `ceil(n/8)` bytes |
| BitCodec.PackBitAt | etcher.rs:209-229 | bit `j` is stored at bit `j%8` of byte `j/8`; padding bits of the last byte are zero |
| BitCodec.PackOfBits | etcher.rs:209-229 | packing inverts `rip_binary`: the packed bits of whole bytes are those bytes |
| BitCodec.UnpackPack | etcher.rs:209-229 | unpacking packed bits gives the original bits followed only by padding |
| BitCodec.UnpackPackPrefix | etcher.rs:209-229 | any prefix of the bits survives packing and unpacking |
| BitCodec.PackBits | etcher.rs:209-229 | the byte-accumulating loop (flush at 8, final partial byte) computes `Pack(bits)`, `ceil(n/8)` bytes long |
| BitCodec.PackBitsAll | etcher.rs:209-229 | every bit of the loop's output is the corresponding input bit, or zero past the end |
| Container.Le32 | etcher.rs:205-206 | `(n as u32).to_le_bytes()` is four bytes |
| Container.FromLe32 | etcher.rs:61-63 | `u32::from_le_bytes` is below 2^32 |
| Container.Le32RoundTrip | etcher.rs:205 | reading the length field back gives the count modulo 2^32 |
| Container.FromLe32RoundTrip | etcher.rs:61-63 | every 4-byte field is the encoding of its value |
| Container.ValidUtf8 | etcher.rs:55-56 | the well-formedness test `std::str::from_utf8` applies to the six magic bytes: the UTF-8 byte patterns of Table 3-7 of the Unicode Standard (definition; `AsciiIsUtf8` and `DecodeOutcome` use it) |
| Container.AsciiIsUtf8 | etcher.rs:55-56 | ASCII magics such as `BINVID` pass the UTF-8 check |
| Container.BinaryContainer | etcher.rs:199-229 | the Binary file: `BINVID`, the bit count as four little-endian bytes modulo 2^32, the packed bits (definition; read back by `BinaryRoundTrip`) |
| Container.ColorContainer | etcher.rs:283-293 | the Color file: `COLVID`, the byte count as four little-endian bytes modulo 2^32, the bytes unchanged (definition; read back by `ColorRoundTrip`) |
| Container.Decode | etcher.rs:47-134 | `read` on the file's contents; success only for files holding a full 10-byte header |
| Container.DecodeOutcome | etcher.rs:52-132 | success iff the header is complete and the magic is `BINVID` or `COLVID`; a short file and a non-UTF-8 magic fail with their own errors, any other magic is unknown |
| Container.DecodeColor | etcher.rs:120-130 | a `COLVID` file yields exactly its bytes from offset 10, whatever the length field says |
| Container.DecodeBinary | etcher.rs:59-118 | a `BINVID` file yields the repacked first `m = min(L, 8*|payload|)` bits, `ceil(m/8)` bytes |
| Container.UnpackBits | etcher.rs:70-92 | the early-exit unpack loop yields the first `min(L, 8*|payload|)` payload bits |
| Container.Read | etcher.rs:47-134 | the imperative `read` returns exactly `Decode(file)` |
| Container.ContainerParts | etcher.rs:199-206 | a container's header and payload are where the reader looks for them |
| Container.DecodeBinaryParts | etcher.rs:59-118 | decoding a `BINVID` container built from a length field and payload |
| Container.DecodeColorIgnoresLength | etcher.rs:120-130 | a `COLVID` container decodes to its payload whatever its length field |
| Container.ColorRoundTrip | etcher.rs:283-293 | reading a Color container gives its bytes back |
| Container.DecodeBinaryContainer | etcher.rs:199-229 | reading a Binary container repacks its first `n mod 2^32` bits |
| Container.BinaryRoundTrip | etcher.rs:199-229 | reading a Binary container of `n` bits gives the packing of its first `n mod 2^32` bits |
| Container.BinaryRoundTripFits | etcher.rs:199-229 | below 2^32 bits, reading a Binary container gives the packed bits |
| Container.BinaryBytesRoundTrip | etcher.rs:59-118 | `read(binaryContainer(rip_binary(B))) == B` whenever `8*|B| < 2^32` |
| Container.BinaryBytesTruncated | etcher.rs:205 | from 2^32 bits on, the wrapped length field makes `read` return fewer bytes than were written |
| Config.FromBinary | settings.rs:14-20 | Binary mode, the given bits, no bytes |
| Config.FromColor | settings.rs:22-28 | Color mode, the given bytes, no bits |
| Config.WellTaggedIsConstructed | settings.rs:14-28 | the tag invariant holds exactly for what the two constructors build |
| Config.DefaultSettings | settings.rs:31-38 | every field of the derived default is zero |
| Config.NewSettings | settings.rs:41-49 | each argument is stored in the field of its own name (width and height not swapped) |
| Args.DefaultEmbedParams | args.rs:16-45 | every parameter of the derived default is absent |
| Args.ToOutputMode | args.rs:65-72 | `Colored` becomes Color and `Binary` becomes Binary, both directions |
| Args.ToOutputModeBijective | args.rs:65-72 | the conversion is total and injective, with an inverse |
| Visualizer.BinaryCells | etcher.rs:172-177 | one cell per bit, white for a set bit and black otherwise |
| Visualizer.ColorCells | etcher.rs:256-261 | one cell per complete byte triple, coloured `(B[3k], B[3k+1], B[3k+2])` |
| Visualizer.ColorCellDrawn | etcher.rs:256 | cell `k` is drawn iff `3k+2 < |B|`, so trailing bytes are dropped |
| Visualizer.CellsPerRow | etcher.rs:170-171 | the number of `x` values `step_by(size)` visits in a row, `(width + size - 1) / size` (definition; pinned to `ceil(width/size)` by `CellsPerRowBounds`) |
| Visualizer.CellOf | etcher.rs:170-171 | the counter value at which the loops reach the block holding pixel `(px, py)`: block row times blocks per row plus block column (definition; `CellOfBlock` ties it to the blocks) |
| Visualizer.CellsPerRowBounds | etcher.rs:170-171 | a row holds `ceil(width/size)` blocks |
| Visualizer.CellOfBlock | etcher.rs:170-171 | a pixel lies in the block of row-major cell `k` iff its block coordinates index `k` |
| Visualizer.FillBlock | etcher.rs:180-186 | exactly the pixels of the block that lie on the canvas take the colour; the rest are unchanged |
| Visualizer.DrawBinary | etcher.rs:161-191 | a fresh `width`×`height` frame whose every pixel has the colour of its cell, black past the last bit |
| Visualizer.DrawColor | etcher.rs:245-275 | a fresh `width`×`height` frame whose every pixel has the colour of its cell, black past the last complete triple |
| Etcher.EtchedFile | etcher.rs:150-233 | the file for a payload is a full 10-byte header whose magic is `BINVID` exactly for Binary payloads and `COLVID` exactly for Color ones |
| Etcher.SampleCells | etcher.rs:150-275 | the frame shows one cell per bit in Binary mode and one per complete byte triple in Color mode |
| Etcher.BlockSize | etcher.rs:167 | `size as u32`: zero only for zero, the size itself when positive |
| Etcher.SamplePath | etcher.rs:194 | the sample frame's path extends the output path |
| Etcher.Etch | etcher.rs:137-302 | the frame of the payload's cells, saved beside the output path, and exactly the container for the payload's mode, written to the output path |
| Etcher.EtchThenRead | etcher.rs:199-296 | reading what `etch` wrote gives the bytes back (Color), or the packed bits up to the wrapped count (Binary) |
| Embed.PresetResolved | embed.rs:11-40 | no preset: zero settings and Binary; a preset: positive size, 8 threads, 10 fps, non-zero frame |
| Embed.ResolutionOf | embed.rs:45-61 | every token, known or not, selects a non-empty landscape frame; no token, or any token other than the five known ones, means 640×360 |
| Embed.Resolve | embed.rs:11-77 | the resolved frame is never empty |
| Embed.ResolveSettings | embed.rs:11-77 | the step-by-step overwrites compute `Resolve(args)` |
| Embed.PresetOutcomes | embed.rs:14-40 | MaxEfficiency: Color, 1, 8, 10, 256×144; Optimal: Binary, 2, 8, 10, 1280×720; Paranoid: Binary, 4, 8, 10, 1280×720 |
| Embed.ResolutionOutcomes | embed.rs:45-61 | 144p, 240p, 360p, 480p and 720p give their frame sizes; no token or an unknown one gives 640×360 |
| Embed.PresetWithoutOverrides | embed.rs:14-77 | with a preset and no override, the preset's values are the result |
| Embed.PresetIgnoresResolution | embed.rs:45 | with a preset, the resolution token changes nothing |
| Embed.ResolutionWithoutPreset | embed.rs:45-61 | without a preset, the frame is the token's |
| Embed.OverridesWin | embed.rs:63-77 | a given mode, block size, thread count or fps wins; an absent one leaves the preset's value |
| Embed.DefaultsHaveNoBlockSize | embed.rs:11-12 | no parameters give Binary, size 0, threads 0, fps 0, 640×360; size 0 is unusable by `etch` |
| Embed.Payload | embed.rs:85-98 | Color hands over the bytes, Binary their bits; the payload is well tagged |
| Embed.RunEmbed | embed.rs:7-98 | the default input path, the container written to "output.binvid" with its sample frame beside it, and the frame and container of the mode's payload |
| Embed.EmbedThenRead | embed.rs:85-98 | embedding then reading gives the input back, always in Color mode and below 2^32 bits in Binary mode |

## Left out

- File I/O. `rip_bytes`, `write_bytes`, opening and reading the file in `read`, and saving the
  PNG are not modelled. File contents are byte sequences passed in or returned. The errors of
  those calls are not modelled, except a file too short for the 10-byte header.
- Console output. Every `println!` is left out, and so are the values computed only to be
  printed: `pixels_per_frame` and the `f64` frame counts. The overflow panic of the former in a
  debug build is described under `Etcher.Etch` below.
- `Settings.fps` is an `f64` in the code. It is an integer here, because every value stored in
  it is an exactly converted `i32`.
- `threads` is stored and never used, so it is only a field here.
- Etcher.Etch: follows a release build, where integer overflow wraps. With overflow checks
  on (a debug build), `pixels_per_frame` at etcher.rs:144 panics once
  `(width / size) * (height / size)` passes `i32::MAX` (for example 50000×50000 with size 1).
  In Color mode, `pixels_per_frame * 3` at etcher.rs:241 panics earlier (for example
  30000×30000 with size 1). The model accepts those inputs and promises a frame and a file.
  `run_embed` never reaches them, since its frames are at most 1280×720. Those values are
  only printed, so wrapping changes nothing else.
- Etcher.Etch: requires a non-zero block size and a non-negative width and height.
  - A zero size divides by zero.
  - A negative size is converted with `as u32` and drawn with that block size, as the code does.
  - A negative width or height would wrap to a canvas of about 2^32 pixels per side.
- Embed.RunEmbed: requires the resolved block size to be non-zero, for the same reason. Running
  `embed` with no preset and no `--block-size` leaves it at 0.
- Container.Decode: the function states only that success needs a full header. Its outcomes and
  round trips are the lemmas in the table.
- BitCodec.PackBits: the per-bit property of its output is stated by `PackBitsAll` rather than
  in its own contract.
- `read`'s `_mode` argument is unused by the code and is not a parameter here.
- `read` collects the unpacked bits as integers 0/1. The model keeps them as booleans.
- The call from `run_embed` to `rip_binary` cannot fail and is modelled without a result
  wrapper.
- `dislodge.rs` is not part of this model. It only calls `read` and writes the result.
- `ui.rs`, `download.rs`, `youtube_dl.rs`, `main.rs`, `run_tasks.rs`, `timer.rs` and
  `embedsource.rs` are not part of this model. They cover interactive prompts, network
  download, argument dispatch, timing and an unused input abstraction.
