/** The bit codec of etcher.rs: bytes become bits least-significant bit first
    (`rip_binary`), and bits are packed back eight to a byte in the same order
    (the packing loops of `etch` and `read`). */
module BitCodec {

  /** Bit `i` of `b`, counting from the least significant: `(b >> i) & 1 == 1`. */
  function Bit(b: bv8, i: nat): bool
    requires i < 8
  {
    (b >> i) & 1 == 1
  }

  /** The eight bits of one byte, least-significant first. */
  function ByteBits(b: bv8): (bits: seq<bool>)
    ensures |bits| == 8
    ensures forall i :: 0 <= i < 8 ==> bits[i] == Bit(b, i)
  {
    [Bit(b, 0), Bit(b, 1), Bit(b, 2), Bit(b, 3), Bit(b, 4), Bit(b, 5), Bit(b, 6), Bit(b, 7)]
  }

  /** Two bytes that agree on all eight bits are equal. */
  lemma BitsDetermineByte(x: bv8, y: bv8)
    requires forall i :: 0 <= i < 8 ==> Bit(x, i) == Bit(y, i)
    ensures x == y
  {
    assert Bit(x, 0) == Bit(y, 0) && Bit(x, 1) == Bit(y, 1);
    assert Bit(x, 2) == Bit(y, 2) && Bit(x, 3) == Bit(y, 3);
    assert Bit(x, 4) == Bit(y, 4) && Bit(x, 5) == Bit(y, 5);
    assert Bit(x, 6) == Bit(y, 6) && Bit(x, 7) == Bit(y, 7);
  }

  /** The bit sequence of a byte sequence: eight bits per byte, in byte order,
      each byte least-significant bit first. */
  function Bits(bytes: seq<bv8>): (bits: seq<bool>)
    ensures |bits| == 8 * |bytes|
  {
    if bytes == [] then [] else ByteBits(bytes[0]) + Bits(bytes[1..])
  }

  /** Bit `8k + i` of `Bits(bytes)` is bit `i` of byte `k`. */
  lemma {:induction false} BitsAt(bytes: seq<bv8>, k: nat, i: nat)
    requires k < |bytes| && i < 8
    ensures Bits(bytes)[8 * k + i] == Bit(bytes[k], i)
  {
    if k > 0 {
      BitsAt(bytes[1..], k - 1, i);
      assert Bits(bytes)[8 * k + i] == Bits(bytes[1..])[8 * (k - 1) + i];
    }
  }

  /** `rip_binary`: the nested loop that pushes the eight bits of every byte,
      least-significant first. Its result has `8 * |bytes|` bits and bit
      `8k + i` is bit `i` of byte `k`. (The Rust function is declared to
      return a `Result` but never fails.) */
  method RipBinary(bytes: seq<bv8>) returns (binary: seq<bool>)
    ensures |binary| == 8 * |bytes|
    ensures forall k, i :: 0 <= k < |bytes| && 0 <= i < 8 ==> binary[8 * k + i] == Bit(bytes[k], i)
    ensures binary == Bits(bytes)
  {
    ghost var all := Bits(bytes);
    binary := [];
    for j := 0 to |bytes|
      invariant binary == all[..8 * j]
    {
      var byte := bytes[j];
      for i := 0 to 8
        invariant binary == all[..8 * j + i]
      {
        var bit := (byte >> i) & 1 == 1;
        BitsAt(bytes, j, i);
        assert all[..8 * j + i + 1] == all[..8 * j + i] + [bit];
        binary := binary + [bit];
      }
    }
    assert all[..8 * |bytes|] == all;
    forall k, i | 0 <= k < |bytes| && 0 <= i < 8
      ensures binary[8 * k + i] == Bit(bytes[k], i)
    {
      BitsAt(bytes, k, i);
    }
  }

  /** The byte `1 << p`, spelled out so that packing needs no shift by a
      variable amount. */
  function Mask(p: nat): bv8
    requires p < 8
  {
    if p == 0 then 1 else if p == 1 then 2 else if p == 2 then 4 else if p == 3 then 8
    else if p == 4 then 16 else if p == 5 then 32 else if p == 6 then 64 else 128
  }

  /** `Mask(p)` is the shift the packing loops compute. */
  lemma MaskIsShift(p: nat)
    requires p < 8
    ensures Mask(p) == (1 as bv8) << p
  {
  }

  /** Up to eight bits folded into one byte the way both packing loops do it:
      bit `p` of the group sets `1 << p`. */
  function PackByte(bits: seq<bool>): bv8
    requires |bits| <= 8
  {
    if bits == [] then 0
    else
      var p := |bits| - 1;
      if bits[p] then PackByte(bits[..p]) | Mask(p) else PackByte(bits[..p])
  }

  /** A bit of an OR is the OR of the bits. */
  lemma BitOfOr(x: bv8, y: bv8, i: nat)
    requires i < 8
    ensures Bit(x | y, i) == (Bit(x, i) || Bit(y, i))
  {
  }

  /** `1 << p` has exactly bit `p` set; zero has none. */
  lemma BitOfMask(p: nat, i: nat)
    requires p < 8 && i < 8
    ensures Bit(Mask(p), i) == (i == p)
    ensures !Bit(0, i)
  {
  }

  /** Bit `i` of a packed group is the group's bit `i`; bits above the group are zero. */
  lemma {:induction false} PackByteBit(bits: seq<bool>, i: nat)
    requires |bits| <= 8 && i < 8
    ensures Bit(PackByte(bits), i) == (i < |bits| && bits[i])
  {
    if bits == [] {
      BitOfMask(0, i);
    } else {
      var p := |bits| - 1;
      PackByteBit(bits[..p], i);
      BitOfOr(PackByte(bits[..p]), Mask(p), i);
      BitOfMask(p, i);
    }
  }

  /** Packing the eight bits of a byte gives the byte back. */
  lemma PackByteBits(b: bv8)
    ensures PackByte(ByteBits(b)) == b
  {
    forall i | 0 <= i < 8
      ensures Bit(PackByte(ByteBits(b)), i) == Bit(b, i)
    {
      PackByteBit(ByteBits(b), i);
    }
    BitsDetermineByte(PackByte(ByteBits(b)), b);
  }

  /** Bits packed eight to a byte, the first group in the first byte; a final
      group of fewer than eight bits still fills one byte. */
  function Pack(bits: seq<bool>): seq<bv8>
    decreases |bits|
  {
    if bits == [] then []
    else if |bits| <= 8 then [PackByte(bits)]
    else [PackByte(bits[..8])] + Pack(bits[8..])
  }

  /** Packing uses the fewest bytes that hold every bit: `ceil(|bits| / 8)`. */
  lemma {:induction false} PackLength(bits: seq<bool>)
    ensures |bits| <= 8 * |Pack(bits)| < |bits| + 8
    decreases |bits|
  {
    if |bits| > 8 {
      PackLength(bits[8..]);
    }
  }

  /** Bit `i` of packed byte `k` holds bit `8k + i` of the input, and is zero
      past the end of the input (the unused high bits of the last byte). */
  lemma {:induction false} PackBitAt(bits: seq<bool>, k: nat, i: nat)
    requires k < |Pack(bits)| && i < 8
    ensures Bit(Pack(bits)[k], i) == (8 * k + i < |bits| && bits[8 * k + i])
    decreases |bits|
  {
    if |bits| <= 8 {
      PackByteBit(bits, i);
    } else if k == 0 {
      PackByteBit(bits[..8], i);
    } else {
      PackBitAt(bits[8..], k - 1, i);
    }
  }

  /** Cutting the input after a whole number of bytes, with at most eight bits
      left over, puts those bits in one last byte. */
  lemma {:induction false} PackSplit(bits: seq<bool>, start: nat)
    requires start % 8 == 0 && start < |bits| <= start + 8
    ensures Pack(bits) == Pack(bits[..start]) + [PackByte(bits[start..])]
    decreases start
  {
    if start == 0 {
      assert bits[start..] == bits;
    } else {
      var rest := bits[8..];
      PackSplit(rest, start - 8);
      assert rest[start - 8..] == bits[start..];
      assert rest[..start - 8] == bits[..start][8..];
      assert bits[..start][..8] == bits[..8];
    }
  }

  /** Packing is the inverse of ripping: `Pack(Bits(B)) == B`. */
  lemma {:induction false} PackOfBits(bytes: seq<bv8>)
    ensures Pack(Bits(bytes)) == bytes
  {
    if bytes != [] {
      var bits := Bits(bytes);
      assert bits[..8] == ByteBits(bytes[0]);
      PackByteBits(bytes[0]);
      if |bytes| == 1 {
        assert bits == ByteBits(bytes[0]);
      } else {
        assert bits[8..] == Bits(bytes[1..]);
        PackOfBits(bytes[1..]);
      }
    }
  }

  /** One position of `UnpackPack`. */
  lemma UnpackPackAt(bits: seq<bool>, j: nat)
    requires j < |bits|
    ensures j < |Bits(Pack(bits))| && Bits(Pack(bits))[j] == bits[j]
  {
    PackLength(bits);
    var k, i := j / 8, j % 8;
    assert 8 * k + i == j && k < |Pack(bits)|;
    BitsAt(Pack(bits), k, i);
    PackBitAt(bits, k, i);
  }

  /** Ripping the packed bytes gives the original bits back, followed by the
      zero padding of the last byte. */
  lemma UnpackPack(bits: seq<bool>)
    ensures |bits| <= |Bits(Pack(bits))|
    ensures Bits(Pack(bits))[..|bits|] == bits
  {
    PackLength(bits);
    forall j | 0 <= j < |bits|
      ensures Bits(Pack(bits))[j] == bits[j]
    {
      UnpackPackAt(bits, j);
    }
  }

  /** Any prefix of the input survives packing and ripping. */
  lemma UnpackPackPrefix(bits: seq<bool>, count: nat)
    requires count <= |bits|
    ensures count <= |Bits(Pack(bits))|
    ensures Bits(Pack(bits))[..count] == bits[..count]
  {
    var unpacked := Bits(Pack(bits));
    UnpackPack(bits);
    assert unpacked[..count] == unpacked[..|bits|][..count];
  }

  /** Extending a group by one bit ORs in that bit at its position. */
  lemma PackByteSnoc(bits: seq<bool>, start: nat, n: nat, count: nat, current: bv8)
    requires start <= n < |bits| && count == n - start < 8
    requires current == PackByte(bits[start..n])
    ensures PackByte(bits[start..n + 1]) == if bits[n] then current | ((1 as bv8) << count) else current
  {
    assert bits[start..n + 1] == bits[start..n] + [bits[n]];
    PackByteAppend(bits[start..n], bits[n]);
    MaskIsShift(count);
  }

  /** Packing a group with one more bit at its end. */
  lemma PackByteAppend(group: seq<bool>, bit: bool)
    requires |group| < 8
    ensures PackByte(group + [bit]) == if bit then PackByte(group) | Mask(|group|) else PackByte(group)
  {
    assert (group + [bit])[..|group|] == group;
  }

  /** A completed group of eight bits is appended as one byte. */
  lemma PackWhole(bits: seq<bool>, start: nat, n: nat)
    requires start % 8 == 0 && n < |bits| && n + 1 == start + 8
    ensures Pack(bits[..n + 1]) == Pack(bits[..start]) + [PackByte(bits[start..n + 1])]
  {
    PackSplit(bits[..n + 1], start);
    assert bits[..n + 1][..start] == bits[..start];
    assert bits[..n + 1][start..] == bits[start..n + 1];
  }

  /** The bits after the last whole byte become one final byte, if there are any. */
  lemma PackTail(bits: seq<bool>, start: nat)
    requires start % 8 == 0 && start <= |bits| < start + 8
    ensures Pack(bits) == Pack(bits[..start]) + (if start < |bits| then [PackByte(bits[start..])] else [])
  {
    if start < |bits| {
      PackSplit(bits, start);
    } else {
      assert bits[..start] == bits;
    }
  }

  /** The packing loop shared by the writer half of `etch` and by `read`:
      `current_byte |= 1 << bit_count` for each set bit, a byte pushed every
      eight bits, and a final partial byte pushed if bits remain. */
  method PackBits(bits: seq<bool>) returns (packed: seq<bv8>)
    ensures packed == Pack(bits)
    ensures |bits| <= 8 * |packed| < |bits| + 8
  {
    packed := [];
    var currentByte: bv8 := 0;
    var bitCount := 0;
    ghost var start := 0;  // index of the first bit of the current group
    for n := 0 to |bits|
      invariant 0 <= bitCount < 8 && start + bitCount == n
      invariant start % 8 == 0
      invariant packed == Pack(bits[..start])
      invariant currentByte == PackByte(bits[start..n])
    {
      PackByteSnoc(bits, start, n, bitCount, currentByte);
      if bits[n] {
        currentByte := currentByte | ((1 as bv8) << bitCount);
      }
      bitCount := bitCount + 1;
      if bitCount == 8 {
        PackWhole(bits, start, n);
        packed := packed + [currentByte];
        currentByte := 0;
        bitCount := 0;
        start := n + 1;
        assert bits[start..n + 1] == [];
      }
    }
    PackTail(bits, start);
    assert bits[start..|bits|] == bits[start..];
    if bitCount > 0 {
      packed := packed + [currentByte];
    }
    PackLength(bits);
  }

  /** `PackBitAt` for every position of a packing at once. */
  lemma PackBitsAll(bits: seq<bool>, packed: seq<bv8>)
    requires packed == Pack(bits)
    ensures forall k, i :: 0 <= k < |packed| && 0 <= i < 8 ==>
      Bit(packed[k], i) == (8 * k + i < |bits| && bits[8 * k + i])
  {
    forall k, i | 0 <= k < |packed| && 0 <= i < 8
      ensures Bit(packed[k], i) == (8 * k + i < |bits| && bits[8 * k + i])
    {
      PackBitAt(bits, k, i);
    }
  }
}
