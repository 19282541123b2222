/** The framed container of etcher.rs: a six-byte magic ("BINVID" or "COLVID"),
    a four-byte little-endian length, then the payload. The writer halves of
    `etch` build it; `read` parses it back. File contents are whole byte
    sequences here; opening, reading and writing files is not modelled. */
module Container {
  import opened Wrappers
  import opened BitCodec

  const U32Modulus: int := 0x1_0000_0000

  /** Bytes before the payload: six of magic, four of length. */
  const HeaderLength: nat := 10

  /** ASCII "BINVID": the magic of a Binary container. */
  const BinMagic: seq<bv8> := [0x42, 0x49, 0x4E, 0x56, 0x49, 0x44]

  /** ASCII "COLVID": the magic of a Color container. */
  const ColMagic: seq<bv8> := [0x43, 0x4F, 0x4C, 0x56, 0x49, 0x44]

  /** `(n as u32).to_le_bytes()`: `n` truncated to 32 bits, least significant byte first. */
  function Le32(n: nat): (b: seq<bv8>)
    ensures |b| == 4
  {
    var v := n % U32Modulus;
    [(v % 0x100) as bv8, (v / 0x100 % 0x100) as bv8,
     (v / 0x1_0000 % 0x100) as bv8, (v / 0x100_0000 % 0x100) as bv8]
  }

  /** `u32::from_le_bytes`. */
  function FromLe32(b: seq<bv8>): (n: nat)
    requires |b| == 4
    ensures n < U32Modulus
  {
    (b[0] as nat) + 0x100 * (b[1] as nat) + 0x1_0000 * (b[2] as nat) + 0x100_0000 * (b[3] as nat)
  }

  /** Reading back a written length gives the length truncated to 32 bits. */
  lemma Le32RoundTrip(n: nat)
    ensures FromLe32(Le32(n)) == n % U32Modulus
  {
    var v := n % U32Modulus;
    ByteThroughBv8(v % 0x100);
    ByteThroughBv8(v / 0x100 % 0x100);
    ByteThroughBv8(v / 0x1_0000 % 0x100);
    ByteThroughBv8(v / 0x100_0000 % 0x100);
    Base256Digits(v);
  }

  /** Writing a parsed length field gives the same four bytes. */
  lemma FromLe32RoundTrip(b: seq<bv8>)
    requires |b| == 4
    ensures Le32(FromLe32(b)) == b
  {
    Le32OfDigits(b[0] as nat, b[1] as nat, b[2] as nat, b[3] as nat);
    BytesThroughNat(b);
  }

  /** A byte value survives the trip through `bv8`. */
  lemma ByteThroughBv8(x: int)
    requires 0 <= x < 0x100
    ensures (x as bv8) as nat == x
  {
    assert x % 0x100 == x;
  }

  lemma BytesThroughNat(b: seq<bv8>)
    requires |b| == 4
    ensures [(b[0] as nat) as bv8, (b[1] as nat) as bv8, (b[2] as nat) as bv8, (b[3] as nat) as bv8] == b
  {
    assert (b[0] as nat) as bv8 == b[0] && (b[1] as nat) as bv8 == b[1];
    assert (b[2] as nat) as bv8 == b[2] && (b[3] as nat) as bv8 == b[3];
  }

  lemma Split8(a: int, lo: int, hi: int)
    requires a == lo + 0x100 * hi && 0 <= lo < 0x100
    ensures a / 0x100 == hi && a % 0x100 == lo
  {
  }

  lemma Split16(a: int, lo: int, hi: int)
    requires a == lo + 0x1_0000 * hi && 0 <= lo < 0x1_0000
    ensures a / 0x1_0000 == hi
  {
  }

  lemma Split24(a: int, lo: int, hi: int)
    requires a == lo + 0x100_0000 * hi && 0 <= lo < 0x100_0000
    ensures a / 0x100_0000 == hi
  {
  }

  /** The four base-256 digits of a 32-bit value, as `Le32` takes them. */
  lemma Base256Digits(v: nat)
    requires v < U32Modulus
    ensures v == v % 0x100 + 0x100 * (v / 0x100 % 0x100) + 0x1_0000 * (v / 0x1_0000 % 0x100)
                 + 0x100_0000 * (v / 0x100_0000 % 0x100)
  {
    var q1 := v / 0x100;
    var q2 := q1 / 0x100;
    var q3 := q2 / 0x100;
    Split16(v, v % 0x100 + 0x100 * (q1 % 0x100), q2);
    Split24(v, v % 0x100 + 0x100 * (q1 % 0x100) + 0x1_0000 * (q2 % 0x100), q3);
  }

  /** A value below 2^32 is its own truncation. */
  lemma SmallMod(n: nat)
    requires n < U32Modulus
    ensures n % U32Modulus == n
  {
  }

  /** The four base-256 digits of `x0 + 2^8 x1 + 2^16 x2 + 2^24 x3`. */
  lemma DigitsOf(x0: nat, x1: nat, x2: nat, x3: nat)
    requires x0 < 0x100 && x1 < 0x100 && x2 < 0x100 && x3 < 0x100
    ensures var n := x0 + 0x100 * x1 + 0x1_0000 * x2 + 0x100_0000 * x3;
      n % 0x100 == x0 && n / 0x100 % 0x100 == x1 && n / 0x1_0000 % 0x100 == x2 && n / 0x100_0000 % 0x100 == x3
  {
    var n := x0 + 0x100 * x1 + 0x1_0000 * x2 + 0x100_0000 * x3;
    Split8(n, x0, x1 + 0x100 * x2 + 0x1_0000 * x3);
    Split8(x1 + 0x100 * x2 + 0x1_0000 * x3, x1, x2 + 0x100 * x3);
    Split16(n, x0 + 0x100 * x1, x2 + 0x100 * x3);
    Split8(x2 + 0x100 * x3, x2, x3);
    Split24(n, x0 + 0x100 * x1 + 0x1_0000 * x2, x3);
    Split8(x3, x3, 0);
  }

  /** `Le32` of a value given by its four digits yields those digits. */
  lemma Le32OfDigits(x0: nat, x1: nat, x2: nat, x3: nat)
    requires x0 < 0x100 && x1 < 0x100 && x2 < 0x100 && x3 < 0x100
    ensures Le32(x0 + 0x100 * x1 + 0x1_0000 * x2 + 0x100_0000 * x3) ==
      [x0 as bv8, x1 as bv8, x2 as bv8, x3 as bv8]
  {
    var n := x0 + 0x100 * x1 + 0x1_0000 * x2 + 0x100_0000 * x3;
    SmallMod(n);
    DigitsOf(x0, x1, x2, x3);
  }

  /** A UTF-8 continuation byte, 0x80..0xBF. */
  predicate IsContinuation(b: bv8) {
    0x80 <= b <= 0xBF
  }

  /** Well-formed UTF-8 (Table 3-7 of the Unicode Standard), the test
      `std::str::from_utf8` applies to the magic before comparing it. */
  predicate ValidUtf8(s: seq<bv8>)
    decreases |s|
  {
    if s == [] then true
    else if s[0] < 0x80 then ValidUtf8(s[1..])
    else if 0xC2 <= s[0] <= 0xDF then
      |s| >= 2 && IsContinuation(s[1]) && ValidUtf8(s[2..])
    else if 0xE0 <= s[0] <= 0xEF then
      |s| >= 3
      && (if s[0] == 0xE0 then 0xA0 <= s[1] <= 0xBF
          else if s[0] == 0xED then 0x80 <= s[1] <= 0x9F
          else IsContinuation(s[1]))
      && IsContinuation(s[2]) && ValidUtf8(s[3..])
    else if 0xF0 <= s[0] <= 0xF4 then
      |s| >= 4
      && (if s[0] == 0xF0 then 0x90 <= s[1] <= 0xBF
          else if s[0] == 0xF4 then 0x80 <= s[1] <= 0x8F
          else IsContinuation(s[1]))
      && IsContinuation(s[2]) && IsContinuation(s[3]) && ValidUtf8(s[4..])
    else false
  }

  /** Every ASCII string is valid UTF-8. */
  lemma {:induction false} AsciiIsUtf8(s: seq<bv8>)
    requires forall i :: 0 <= i < |s| ==> s[i] < 0x80
    ensures ValidUtf8(s)
  {
    if s != [] {
      AsciiIsUtf8(s[1..]);
    }
  }

  /** Why `read` gives up: the file is shorter than the header (`read_exact`
      fails), the magic is not UTF-8 ("Invalid header format"), or it is UTF-8
      but neither magic ("Unknown file format"). */
  datatype ReadError = ShortHeader | InvalidHeader | UnknownFormat

  /** The container `etch` writes in Binary mode: "BINVID", the bit count
      truncated to 32 bits, then the bits packed eight to a byte. */
  function BinaryContainer(bits: seq<bool>): seq<bv8> {
    BinMagic + Le32(|bits|) + Pack(bits)
  }

  /** The container `etch` writes in Color mode: "COLVID", the byte count
      truncated to 32 bits, then the bytes verbatim. */
  function ColorContainer(bytes: seq<bv8>): seq<bv8> {
    ColMagic + Le32(|bytes|) + bytes
  }

  /** What `read` returns for a file with the given contents. Binary: the
      first `min(L, 8 * |payload|)` payload bits, `L` the stored bit count,
      repacked into bytes. Color: everything after the header, whatever the
      length field says. */
  function Decode(file: seq<bv8>): (r: Result<seq<bv8>, ReadError>)
    ensures r.Success? ==> |file| >= HeaderLength
  {
    if |file| < HeaderLength then Failure(ShortHeader)
    else if !ValidUtf8(file[..6]) then Failure(InvalidHeader)
    else if file[..6] == BinMagic then
      var payload := file[HeaderLength..];
      Success(Pack(Bits(payload)[..Min(FromLe32(file[6..10]), 8 * |payload|)]))
    else if file[..6] == ColMagic then Success(file[HeaderLength..])
    else Failure(UnknownFormat)
  }

  /** `read` succeeds exactly on files of at least ten bytes that start with
      one of the two magics; it reports "Invalid header format" exactly when
      the first six bytes are not UTF-8. */
  lemma DecodeOutcome(file: seq<bv8>)
    ensures Decode(file).Success? <==> |file| >= HeaderLength && (file[..6] == BinMagic || file[..6] == ColMagic)
    ensures Decode(file) == Failure(InvalidHeader) <==> |file| >= HeaderLength && !ValidUtf8(file[..6])
    ensures Decode(file) == Failure(ShortHeader) <==> |file| < HeaderLength
  {
    AsciiIsUtf8(BinMagic);
    AsciiIsUtf8(ColMagic);
  }

  /** A Color file decodes to everything after its header. */
  lemma DecodeColor(file: seq<bv8>)
    requires |file| >= HeaderLength && file[..6] == ColMagic
    ensures Decode(file) == Success(file[HeaderLength..])
  {
    AsciiIsUtf8(ColMagic);
  }

  /** The unpacking loop of `read`: bit `i` of each payload byte in turn,
      least-significant first, stopping once `dataLength` bits are collected
      or the payload runs out. (The Rust code collects the bits as integers 0
      and 1; they are booleans here.) */
  method UnpackBits(packedData: seq<bv8>, dataLength: nat) returns (result: seq<bool>)
    ensures |result| == Min(dataLength, 8 * |packedData|)
    ensures result == Bits(packedData)[..|result|]
  {
    ghost var all := Bits(packedData);
    result := [];
    var bitsRead := 0;
    var j := 0;
    while j < |packedData|
      invariant 0 <= j <= |packedData|
      invariant bitsRead == 8 * j <= dataLength
      invariant result == all[..bitsRead]
    {
      var byte := packedData[j];
      var i := 0;
      while i < 8
        invariant 0 <= i <= 8
        invariant bitsRead == 8 * j + i <= dataLength
        invariant result == all[..bitsRead]
      {
        if bitsRead >= dataLength {
          break;
        }
        var bit := (byte >> i) & 1 == 1;
        BitsAt(packedData, j, i);
        assert all[..bitsRead + 1] == all[..bitsRead] + [bit];
        result := result + [bit];
        bitsRead := bitsRead + 1;
        i := i + 1;
      }
      if bitsRead >= dataLength {
        break;
      }
      j := j + 1;
    }
  }

  /** `read`: takes the ten-byte header, checks that the magic is UTF-8 and
      which one it is; for a Binary file it unpacks the stored number of bits
      and repacks them, for a Color file it returns the rest of the file. */
  method Read(file: seq<bv8>) returns (r: Result<seq<bv8>, ReadError>)
    ensures r == Decode(file)
  {
    if |file| < HeaderLength {
      return Failure(ShortHeader);
    }
    var header := file[..HeaderLength];
    var magic := header[..6];
    assert magic == file[..6] && header[6..10] == file[6..10];
    if !ValidUtf8(magic) {
      return Failure(InvalidHeader);
    }
    if magic == BinMagic {
      var dataLength := FromLe32(header[6..10]);
      var result := UnpackBits(file[HeaderLength..], dataLength);
      var bytes := PackBits(result);
      return Success(bytes);
    } else if magic == ColMagic {
      return Success(file[HeaderLength..]);
    } else {
      return Failure(UnknownFormat);
    }
  }

  /** The three parts of a container are where `read` looks for them. */
  lemma ContainerParts(magic: seq<bv8>, lengthField: seq<bv8>, payload: seq<bv8>)
    requires |magic| == 6 && |lengthField| == 4
    ensures |magic + lengthField + payload| >= HeaderLength
    ensures (magic + lengthField + payload)[..6] == magic
    ensures (magic + lengthField + payload)[6..10] == lengthField
    ensures (magic + lengthField + payload)[HeaderLength..] == payload
  {
  }

  /** `read` on a file that starts with "BINVID" unpacks as many payload bits
      as the length field says, or all of them if there are fewer, and
      repacks them: the result has one byte per started group of eight. */
  lemma DecodeBinary(file: seq<bv8>)
    requires |file| >= HeaderLength && file[..6] == BinMagic
    ensures var count := Min(FromLe32(file[6..10]), 8 * (|file| - HeaderLength));
      && Decode(file) == Success(Pack(Bits(file[HeaderLength..])[..count]))
      && 8 * |Decode(file).value| - 8 < count <= 8 * |Decode(file).value|
  {
    AsciiIsUtf8(BinMagic);
    var count := Min(FromLe32(file[6..10]), 8 * (|file| - HeaderLength));
    PackLength(Bits(file[HeaderLength..])[..count]);
  }

  /** A Binary container assembled from a length field and a payload. */
  lemma DecodeBinaryParts(lengthField: seq<bv8>, payload: seq<bv8>)
    requires |lengthField| == 4
    ensures Decode(BinMagic + lengthField + payload) ==
      Success(Pack(Bits(payload)[..Min(FromLe32(lengthField), 8 * |payload|)]))
  {
    ContainerParts(BinMagic, lengthField, payload);
    DecodeBinary(BinMagic + lengthField + payload);
  }

  /** `read` never looks at a Color file's length field: with any four bytes
      there, it returns exactly the payload. */
  lemma DecodeColorIgnoresLength(lengthField: seq<bv8>, bytes: seq<bv8>)
    requires |lengthField| == 4
    ensures Decode(ColMagic + lengthField + bytes) == Success(bytes)
  {
    ContainerParts(ColMagic, lengthField, bytes);
    DecodeColor(ColMagic + lengthField + bytes);
  }

  /** Color round trip: reading a written Color container gives the bytes back. */
  lemma ColorRoundTrip(bytes: seq<bv8>)
    ensures Decode(ColorContainer(bytes)) == Success(bytes)
  {
    DecodeColorIgnoresLength(Le32(|bytes|), bytes);
  }

  /** `read` on a written Binary container unpacks `|bits| mod 2^32` bits of its payload. */
  lemma DecodeBinaryContainer(bits: seq<bool>)
    ensures |bits| % U32Modulus <= |Bits(Pack(bits))|
    ensures Decode(BinaryContainer(bits)) == Success(Pack(Bits(Pack(bits))[..|bits| % U32Modulus]))
  {
    var lengthField, packed := Le32(|bits|), Pack(bits);
    DecodeBinaryParts(lengthField, packed);
    Le32RoundTrip(|bits|);
    PackLength(bits);
    TruncatedFits(|bits|, 8 * |packed|);
    assert Min(FromLe32(lengthField), 8 * |packed|) == |bits| % U32Modulus;
  }

  /** A count truncated to 32 bits still fits wherever the whole count fits. */
  lemma TruncatedFits(n: nat, room: nat)
    requires n <= room
    ensures n % U32Modulus <= room
  {
  }

  /** Binary round trip: reading a written Binary container gives the packed
      bits back, except that a bit count of 2^32 or more was stored truncated,
      so only that many bits (modulo 2^32) come back. */
  lemma BinaryRoundTrip(bits: seq<bool>)
    ensures Decode(BinaryContainer(bits)) == Success(Pack(bits[..|bits| % U32Modulus]))
  {
    DecodeBinaryContainer(bits);
    TruncatedFits(|bits|, |bits|);
    UnpackPackPrefix(bits, |bits| % U32Modulus);
  }

  /** Binary round trip when the bit count fits the 32-bit field: the bits
      come back packed. */
  lemma BinaryRoundTripFits(bits: seq<bool>)
    requires |bits| < U32Modulus
    ensures Decode(BinaryContainer(bits)) == Success(Pack(bits))
  {
    BinaryRoundTrip(bits);
    SmallMod(|bits|);
    assert bits[..|bits|] == bits;
  }

  /** Binary round trip on whole bytes: a payload under 2^29 bytes (so that its
      bit count fits the 32-bit field) is read back unchanged. */
  lemma BinaryBytesRoundTrip(bytes: seq<bv8>)
    requires 8 * |bytes| < U32Modulus
    ensures Decode(BinaryContainer(Bits(bytes))) == Success(bytes)
  {
    BinaryRoundTripFits(Bits(bytes));
    PackOfBits(bytes);
  }

  /** A count of 2^32 or more loses at least 2^32 when truncated. */
  lemma WrapShrinks(n: nat)
    requires n >= U32Modulus
    ensures n % U32Modulus <= n - U32Modulus
  {
  }

  /** A payload of 2^29 bytes or more does not survive the Binary container:
      its bit count wraps around in the 32-bit field, and `read` returns fewer
      bytes than were written. */
  lemma BinaryBytesTruncated(bytes: seq<bv8>)
    requires 8 * |bytes| >= U32Modulus
    ensures Decode(BinaryContainer(Bits(bytes))).Success?
    ensures |Decode(BinaryContainer(Bits(bytes))).value| < |bytes|
  {
    var bits := Bits(bytes);
    var count := |bits| % U32Modulus;
    BinaryRoundTrip(bits);
    WrapShrinks(|bits|);
    var back := Pack(bits[..count]);
    PackLength(bits[..count]);
    assert 8 * |back| < 8 * |bytes|;
  }
}
