/**
 * The integer path of the block-mean perceptual image hash: sum the pixel values of
 * each of bits*bits blocks, turn each block into one bit against the median of its
 * quarter of the blocks, and pack the bits into bytes; plus the Hamming distance
 * between two hashes.
 */
module Blockhash {

  import opened Wrappers
  import EnumerableExtensions
  import opened Arith

  /** HashSize in bits, as the hash algorithm object reports it. */
  const HashSize := 256

  /** The default number of blocks per side. */
  const DefaultBits := 16

  /** How ProcessImage ends: a hash, an ArgumentException, an index out of range, or the floating-point path. */
  datatype Outcome = Hash(bytes: seq<bv8>) | ArgumentError(message: string) | IndexOutOfRange | FloatPath

  // ------------------------------------------------------------ bits to bytes

  /** One byte from 8 bit values, most significant first, truncated to 8 bits as the byte cast does. */
  function PackByte(b: seq<int>): bv8
    requires |b| == 8
  {
    ((b[0] * 128 + b[1] * 64 + b[2] * 32 + b[3] * 16 + b[4] * 8 + b[5] * 4 + b[6] * 2 + b[7]) % 256) as bv8
  }

  /** The k low binary digits of n, most significant first. */
  function BitsOf(n: int, k: nat): (r: seq<int>)
    ensures |r| == k
    decreases k
  {
    if k == 0 then [] else BitsOf(n / 2, k - 1) + [n % 2]
  }

  /** The 8 bits of a byte, most significant first. */
  function UnpackByte(x: bv8): seq<int>
  {
    BitsOf(x as int, 8)
  }

  /** The number whose binary digits are b, most significant first. */
  function Horner(b: seq<int>): int
  {
    if b == [] then 0 else 2 * Horner(b[..|b| - 1]) + b[|b| - 1]
  }

  predicate IsBit(v: int)
  {
    v == 0 || v == 1
  }

  predicate AllBits(s: seq<int>)
  {
    forall i :: 0 <= i < |s| ==> IsBit(s[i])
  }

  function PackBits(bits: seq<int>): (r: seq<bv8>)
    requires |bits| % 8 == 0
    ensures |r| == |bits| / 8
    decreases |bits|
  {
    if bits == [] then [] else [PackByte(bits[..8])] + PackBits(bits[8..])
  }

  function UnpackBits(bytes: seq<bv8>): (r: seq<int>)
    ensures |r| == 8 * |bytes|
  {
    if bytes == [] then [] else UnpackByte(bytes[0]) + UnpackBits(bytes[1..])
  }

  /** Byte k of the packing is made of bits 8k to 8k+7. */
  lemma {:induction false} PackBitsAt(bits: seq<int>, k: int)
    requires |bits| % 8 == 0 && 0 <= k < |bits| / 8
    ensures PackBits(bits)[k] == PackByte(bits[8 * k..8 * k + 8])
    decreases |bits|
  {
    if k > 0 {
      PackBitsAt(bits[8..], k - 1);
      assert bits[8..][8 * (k - 1)..8 * (k - 1) + 8] == bits[8 * k..8 * k + 8];
    }
  }

  /** Euclidean division is determined by quotient and remainder. */
  lemma {:induction false} BitsOfHorner(b: seq<int>)
    requires AllBits(b)
    ensures BitsOf(Horner(b), |b|) == b
    decreases |b|
  {
    if b != [] {
      var k := |b| - 1;
      DivUnique(Horner(b), 2, Horner(b[..k]), b[k]);
      BitsOfHorner(b[..k]);
      assert b == b[..k] + [b[k]];
    }
  }

  lemma HornerSnoc(b: seq<int>, k: int)
    requires 0 < k <= |b|
    ensures Horner(b[..k]) == 2 * Horner(b[..k - 1]) + b[k - 1]
  {
    assert b[..k][..k - 1] == b[..k - 1];
  }

  /** Horner's rule over 8 digits is the weighted sum of PackByte. */
  lemma HornerEight(b: seq<int>)
    requires |b| == 8
    ensures Horner(b) == b[0] * 128 + b[1] * 64 + b[2] * 32 + b[3] * 16 + b[4] * 8 + b[5] * 4 + b[6] * 2 + b[7]
  {
    assert b[..0] == [] && b[..8] == b;
    HornerSnoc(b, 1);
    var h1 := Horner(b[..1]);
    assert h1 == b[0];
    HornerSnoc(b, 2);
    var h2 := Horner(b[..2]);
    assert h2 == 2 * h1 + b[1];
    HornerSnoc(b, 3);
    var h3 := Horner(b[..3]);
    assert h3 == 2 * h2 + b[2];
    HornerSnoc(b, 4);
    var h4 := Horner(b[..4]);
    assert h4 == 2 * h3 + b[3];
    HornerSnoc(b, 5);
    var h5 := Horner(b[..5]);
    assert h5 == 2 * h4 + b[4];
    HornerSnoc(b, 6);
    var h6 := Horner(b[..6]);
    assert h6 == 2 * h5 + b[5];
    HornerSnoc(b, 7);
    var h7 := Horner(b[..7]);
    assert h7 == 2 * h6 + b[6];
    HornerSnoc(b, 8);
    assert Horner(b) == 2 * h7 + b[7];
  }

  lemma PackByteIsHorner(b: seq<int>)
    requires |b| == 8 && AllBits(b)
    ensures PackByte(b) as int == Horner(b)
  {
    HornerEight(b);
    assert IsBit(b[0]) && IsBit(b[1]) && IsBit(b[2]) && IsBit(b[3]);
    assert IsBit(b[4]) && IsBit(b[5]) && IsBit(b[6]) && IsBit(b[7]);
    ByteCast(b[0] * 128 + b[1] * 64 + b[2] * 32 + b[3] * 16 + b[4] * 8 + b[5] * 4 + b[6] * 2 + b[7]);
  }

  lemma ByteCast(n: int)
    requires 0 <= n < 256
    ensures (n % 256) as bv8 as int == n
  {
    DivUnique(n, 256, 0, n);
  }

  /** Unpacking a packed byte gives back its 8 bit values. */
  lemma UnpackPackByte(b: seq<int>)
    requires |b| == 8 && AllBits(b)
    ensures UnpackByte(PackByte(b)) == b
  {
    PackByteIsHorner(b);
    BitsOfHorner(b);
  }

  /** Packing bit values and unpacking them again gives the bits back. */
  lemma {:induction false} UnpackPackBits(bits: seq<int>)
    requires |bits| % 8 == 0 && AllBits(bits)
    ensures UnpackBits(PackBits(bits)) == bits
    decreases |bits|
  {
    if bits != [] {
      UnpackPackByte(bits[..8]);
      UnpackPackBits(bits[8..]);
      assert PackBits(bits)[0] == PackByte(bits[..8]);
      assert PackBits(bits)[1..] == PackBits(bits[8..]);
      assert bits[..8] + bits[8..] == bits;
    }
  }

  /** Bytes built group by group are the packing. */
  lemma PackedBytes(bits: seq<int>, bytes: seq<bv8>)
    requires |bits| % 8 == 0 && |bytes| == |bits| / 8
    requires forall k :: 0 <= k < |bytes| ==> 8 * k + 8 <= |bits| && bytes[k] == PackByte(bits[8 * k..8 * k + 8])
    ensures bytes == PackBits(bits)
  {
    forall k | 0 <= k < |bytes|
      ensures bytes[k] == PackBits(bits)[k]
    {
      PackBitsAt(bits, k);
    }
  }

  /** The byte the loop of Bits_to_bytes builds from bits i .. i+7. */
  method PackAt(bits: array<int>, i: int) returns (b: bv8)
    requires 0 <= i && i + 8 <= bits.Length
    ensures b == PackByte(bits[i..i + 8])
  {
    b := ((bits[i] * 128 + bits[i + 1] * 64 + bits[i + 2] * 32 + bits[i + 3] * 16
      + bits[i + 4] * 8 + bits[i + 5] * 4 + bits[i + 6] * 2 + bits[i + 7]) % 256) as bv8;
    assert bits[i..i + 8][0] == bits[i] && bits[i..i + 8][7] == bits[i + 7];
  }

  /**
   * Bits_to_bytes: byte i/8 packs bits i..i+7. The length is bits.Length / 8; when
   * the bit count is not a multiple of 8 the last group reads past the end.
   */
  method BitsToBytes(bits: array<int>) returns (r: Option<array<bv8>>)
    ensures r.None? <==> bits.Length % 8 != 0
    ensures r.Some? ==> fresh(r.value) && r.value[..] == PackBits(bits[..])
  {
    var result := new bv8[bits.Length / 8];
    var i := 0;
    while i < bits.Length
      invariant 0 <= i <= bits.Length && i % 8 == 0
      invariant i / 8 <= result.Length
      invariant forall k :: 0 <= k < i / 8 ==> 8 * k + 8 <= i && result[k] == PackByte(bits[8 * k..8 * k + 8])
      decreases bits.Length - i
    {
      if i + 8 > bits.Length {
        return None;
      }
      result[i / 8] := PackAt(bits, i);
      i := i + 8;
    }
    PackedBytes(bits[..], result[..]);
    return Some(result);
  }

  // ------------------------------------------------------------- block sums

  /** A pixel's value: 765 when fully transparent, else red + green + blue. */
  function PixelValue(data: seq<bv8>, ii: int): (v: int)
    requires 0 <= ii && ii + 3 < |data|
    ensures 0 <= v <= 765
  {
    if data[ii + 3] == 0 then 765 else data[ii] as int + data[ii + 1] as int + data[ii + 2] as int
  }

  /** The geometry of the integer path: the RGBA bytes cover width*height pixels. */
  predicate Geometry(bits: int, width: int, height: int, dataLength: int)
  {
    bits > 0 && width >= 0 && height >= 0 && dataLength >= width * height * 4
  }

  /** The byte offset of pixel (ix, iy) of block (x, y). */
  function PixelIndex(bits: int, width: int, height: int, x: int, y: int, ix: int, iy: int): int
    requires bits > 0
  {
    ((y * (height / bits) + iy) * width + x * (width / bits) + ix) * 4
  }

  lemma CoordinateBound(bits: int, blockSize: int, b: int, i: int, side: int)
    requires bits > 0 && 0 <= b < bits && 0 <= i < blockSize && side >= 0 && blockSize == side / bits
    ensures 0 <= b * blockSize + i < side
  {
    MulNonneg(b, blockSize);
    MulMonotone(b, bits - 1, blockSize);
    MulPred(bits, blockSize);
    DivMulLe(side, bits);
  }

  lemma RowMajorBound(row: int, col: int, width: int, height: int)
    requires 0 <= row < height && 0 <= col < width
    ensures 0 <= (row * width + col) * 4 && (row * width + col) * 4 + 3 < width * height * 4
  {
    MulNonneg(row, width);
    MulMonotone(row, height - 1, width);
    MulPred(height, width);
    MulComm(width, height);
  }

  lemma PixelIndexInRange(bits: int, width: int, height: int, dataLength: int, x: int, y: int, ix: int, iy: int)
    requires Geometry(bits, width, height, dataLength)
    requires 0 <= x < bits && 0 <= y < bits && 0 <= ix < width / bits && 0 <= iy < height / bits
    ensures 0 <= PixelIndex(bits, width, height, x, y, ix, iy)
    ensures PixelIndex(bits, width, height, x, y, ix, iy) + 3 < dataLength
  {
    CoordinateBound(bits, height / bits, y, iy, height);
    CoordinateBound(bits, width / bits, x, ix, width);
    RowMajorBound(y * (height / bits) + iy, x * (width / bits) + ix, width, height);
  }

  /** The first n pixels of row iy of block (x, y). */
  function RowSum(data: seq<bv8>, bits: int, width: int, height: int, x: int, y: int, iy: int, n: int): (s: int)
    requires Geometry(bits, width, height, |data|)
    requires 0 <= x < bits && 0 <= y < bits && 0 <= iy < height / bits && 0 <= n <= width / bits
    ensures 0 <= s <= 765 * n
    decreases n
  {
    if n == 0 then 0
    else
      PixelIndexInRange(bits, width, height, |data|, x, y, n - 1, iy);
      RowSum(data, bits, width, height, x, y, iy, n - 1) + PixelValue(data, PixelIndex(bits, width, height, x, y, n - 1, iy))
  }

  lemma RowSumStep(data: seq<bv8>, bits: int, width: int, height: int, x: int, y: int, iy: int, n: int)
    requires Geometry(bits, width, height, |data|)
    requires 0 <= x < bits && 0 <= y < bits && 0 <= iy < height / bits && 0 <= n < width / bits
    ensures 0 <= PixelIndex(bits, width, height, x, y, n, iy) && PixelIndex(bits, width, height, x, y, n, iy) + 3 < |data|
    ensures RowSum(data, bits, width, height, x, y, iy, n + 1)
         == RowSum(data, bits, width, height, x, y, iy, n) + PixelValue(data, PixelIndex(bits, width, height, x, y, n, iy))
  {
    PixelIndexInRange(bits, width, height, |data|, x, y, n, iy);
  }

  /** The first m rows of block (x, y). */
  function BlockSum(data: seq<bv8>, bits: int, width: int, height: int, x: int, y: int, m: int): (s: int)
    requires Geometry(bits, width, height, |data|)
    requires 0 <= x < bits && 0 <= y < bits && 0 <= m <= height / bits
    ensures 0 <= s <= 765 * (width / bits) * m
    decreases m
  {
    if m == 0 then 0
    else
      MulStep(765 * (width / bits), m);
      BlockSum(data, bits, width, height, x, y, m - 1) + RowSum(data, bits, width, height, x, y, m - 1, width / bits)
  }

  /** The bits*bits block values in row-major order, before translation. */
  function BlockValues(data: seq<bv8>, bits: int, width: int, height: int): (v: seq<int>)
    requires Geometry(bits, width, height, |data|)
    ensures |v| == bits * bits
  {
    seq(bits * bits, k requires 0 <= k < bits * bits => BlockSum(data, bits, width, height, k % bits, k / bits, height / bits))
  }

  lemma BlockCoordinates(bits: int, x: int, y: int)
    requires bits > 0 && 0 <= x < bits && 0 <= y < bits
    ensures 0 <= y * bits + x < bits * bits
    ensures (y * bits + x) % bits == x && (y * bits + x) / bits == y
  {
    DivUnique(y * bits + x, bits, y, x);
    MulMonotone(y, bits - 1, bits);
    MulPred(bits, bits);
  }

  /** Block (x, y) sits at index y * bits + x. */
  lemma BlockValuesAt(data: seq<bv8>, bits: int, width: int, height: int, x: int, y: int)
    requires Geometry(bits, width, height, |data|) && 0 <= x < bits && 0 <= y < bits
    ensures 0 <= y * bits + x < bits * bits
    ensures BlockValues(data, bits, width, height)[y * bits + x] == BlockSum(data, bits, width, height, x, y, height / bits)
  {
    BlockCoordinates(bits, x, y);
  }

  lemma IndexCoordinates(bits: int, k: int)
    requires bits > 0 && 0 <= k < bits * bits
    ensures 0 <= k % bits < bits && 0 <= k / bits < bits
    ensures k == (k / bits) * bits + k % bits
  {
    DivMulLe(k, bits);
    if k / bits >= bits {
      MulMonotone(bits, k / bits, bits);
    }
  }

  /** Every block value lies between 0 and 765 times the pixels of a block. */
  lemma BlockValuesBounded(data: seq<bv8>, bits: int, width: int, height: int, k: int)
    requires Geometry(bits, width, height, |data|) && 0 <= k < bits * bits
    ensures 0 <= BlockValues(data, bits, width, height)[k] <= 765 * (width / bits) * (height / bits)
  {
    IndexCoordinates(bits, k);
  }

  /** The two inner loops of Blockhash_quick: the value of block (x, y). */
  method BlockValue(bits: int, data: array<bv8>, width: int, height: int, x: int, y: int) returns (value: int)
    requires Geometry(bits, width, height, data.Length) && 0 <= x < bits && 0 <= y < bits
    ensures value == BlockSum(data[..], bits, width, height, x, y, height / bits)
  {
    var blockWidth := width / bits;
    var blockHeight := height / bits;
    value := 0;
    var iy := 0;
    while iy < blockHeight
      invariant 0 <= iy <= blockHeight
      invariant value == BlockSum(data[..], bits, width, height, x, y, iy)
    {
      value := AddRow(bits, data, width, height, x, y, iy, value);
      iy := iy + 1;
    }
  }

  /** The innermost loop of Blockhash_quick: row iy of block (x, y) added to the running value. */
  method AddRow(bits: int, data: array<bv8>, width: int, height: int, x: int, y: int, iy: int, start: int) returns (value: int)
    requires Geometry(bits, width, height, data.Length) && 0 <= x < bits && 0 <= y < bits && 0 <= iy < height / bits
    ensures value == start + RowSum(data[..], bits, width, height, x, y, iy, width / bits)
  {
    var blockWidth := width / bits;
    value := start;
    var ix := 0;
    while ix < blockWidth
      invariant 0 <= ix <= blockWidth
      invariant value == start + RowSum(data[..], bits, width, height, x, y, iy, ix)
    {
      var ii := PixelIndex(bits, width, height, x, y, ix, iy);
      RowSumStep(data[..], bits, width, height, x, y, iy, ix);
      var pixel := PixelAt(data, ii);
      value := value + pixel;
      ix := ix + 1;
    }
  }

  /** One pixel of the innermost loop: 765 when its alpha byte is 0, else red + green + blue. */
  method PixelAt(data: array<bv8>, ii: int) returns (v: int)
    requires 0 <= ii && ii + 3 < data.Length
    ensures v == PixelValue(data[..], ii)
  {
    var alpha := data[ii + 3];
    if alpha == 0 {
      v := 765;
    } else {
      v := data[ii] as int + data[ii + 1] as int + data[ii + 2] as int;
    }
  }

  /** The four nested loops of Blockhash_quick, accumulating into a fresh block array. */
  method QuickBlocks(bits: int, data: array<bv8>, width: int, height: int) returns (blocks: array<int>)
    requires Geometry(bits, width, height, data.Length)
    ensures fresh(blocks)
    ensures blocks[..] == BlockValues(data[..], bits, width, height)
  {
    ghost var values := BlockValues(data[..], bits, width, height);
    blocks := new int[bits * bits];
    var y := 0;
    while y < bits
      invariant 0 <= y <= bits
      invariant 0 <= y * bits <= bits * bits
      invariant forall k :: 0 <= k < y * bits ==> blocks[k] == values[k]
    {
      var x := 0;
      while x < bits
        invariant 0 <= x <= bits
        invariant y * bits + x <= bits * bits
        invariant forall k :: 0 <= k < y * bits + x ==> blocks[k] == values[k]
      {
        var value := BlockValue(bits, data, width, height, x, y);
        BlockValuesAt(data[..], bits, width, height, x, y);
        blocks[y * bits + x] := value;
        x := x + 1;
      }
      assert y * bits + bits == (y + 1) * bits;
      y := y + 1;
    }
    assert blocks[..] == values;
  }

  // ------------------------------------------------------- blocks to bits

  /** pixels_per_block * 256 * 3 / 2, computed on integers and then widened. */
  function HalfBlockValue(pixelsPerBlock: int): real
  {
    ((pixelsPerBlock * 256 * 3) / 2) as real
  }

  function Abs(v: int): int
  {
    if v < 0 then -v else v
  }

  /** One block against its band median: 1 above it, or equal to it when the median is above half the block value. */
  function BitOf(v: int, m: int, half: real): (b: int)
    ensures IsBit(b)
    ensures b == 1 <==> v > m || (v == m && m as real > half)
  {
    if v > m || (Abs(v - m) < 1 && m as real > half) then 1 else 0
  }

  /** The median of a band, truncated to an integer; it fails on an empty band. */
  function BandMedian(band: seq<int>): (r: Result<int, string>)
    ensures r.Failure? <==> band == []
  {
    match EnumerableExtensions.Median(band)
    case Success(m) => Success(EnumerableExtensions.TruncateToInt(m))
    case Failure(e) => Failure(e)
  }

  /** The size of each of the four bands. */
  function BandSize(nblocks: int): int
  {
    nblocks / 4
  }

  /** The median of band i of `blocks`. */
  function BandMedianAt(blocks: seq<int>, bandSize: int, i: int): int
    requires bandSize > 0 && 0 <= i < 4 && 4 * bandSize <= |blocks|
  {
    BandMedian(blocks[i * bandSize..(i + 1) * bandSize]).value
  }

  /** Block j after translation: its band's bit in the first 4 bands, unchanged after them. */
  function TranslatedAt(blocks: seq<int>, bandSize: int, pixelsPerBlock: int, j: int): int
    requires bandSize > 0 && 4 * bandSize <= |blocks| && 0 <= j < |blocks|
  {
    if j < 4 * bandSize then BitOf(blocks[j], BandMedianAt(blocks, bandSize, j / bandSize), HalfBlockValue(pixelsPerBlock))
    else blocks[j]
  }

  /** Translate_blocks_to_bits on the values: fails when a band is empty; otherwise every block of a band is compared with that band's median. */
  function Translated(blocks: seq<int>, nblocks: int, pixelsPerBlock: int): (r: Result<seq<int>, string>)
    requires 0 <= nblocks <= |blocks|
    ensures r.Failure? <==> BandSize(nblocks) == 0
    ensures r.Failure? ==> r.error == "No elements to median-ize"
    ensures r.Success? ==> |r.value| == |blocks|
  {
    var bandSize := BandSize(nblocks);
    if bandSize == 0 then Failure("No elements to median-ize")
    else Success(seq(|blocks|, j requires 0 <= j < |blocks| => TranslatedAt(blocks, bandSize, pixelsPerBlock, j)))
  }

  /** With a block count divisible by 4 and at least 4 blocks, every output is 0 or 1. */
  lemma TranslatedAllBits(blocks: seq<int>, pixelsPerBlock: int)
    requires |blocks| % 4 == 0 && |blocks| >= 4
    ensures Translated(blocks, |blocks|, pixelsPerBlock).Success?
    ensures AllBits(Translated(blocks, |blocks|, pixelsPerBlock).value)
  {
    var r := Translated(blocks, |blocks|, pixelsPerBlock).value;
    forall j | 0 <= j < |r|
      ensures IsBit(r[j])
    {
      assert r[j] == TranslatedAt(blocks, BandSize(|blocks|), pixelsPerBlock, j);
    }
  }

  /** A block of band i is 1 exactly when it is above the band's median, or equal to a median above half the block value. */
  lemma TranslatedBit(blocks: seq<int>, nblocks: int, pixelsPerBlock: int, j: int)
    requires 0 <= nblocks <= |blocks| && 0 <= j < 4 * BandSize(nblocks)
    ensures Translated(blocks, nblocks, pixelsPerBlock).Success?
    ensures var m := BandMedianAt(blocks, BandSize(nblocks), j / BandSize(nblocks));
      Translated(blocks, nblocks, pixelsPerBlock).value[j] == 1
      <==> blocks[j] > m || (blocks[j] == m && m as real > HalfBlockValue(pixelsPerBlock))
  {
  }

  /** A band's translation only depends on the band: the median is taken before any block is overwritten. */
  lemma BandOfPrefix(cur: seq<int>, orig: seq<int>, bandSize: int, i: int)
    requires bandSize > 0 && 0 <= i < 4 && 4 * bandSize <= |orig| == |cur|
    requires forall k :: i * bandSize <= k < |orig| ==> cur[k] == orig[k]
    ensures cur[i * bandSize..(i + 1) * bandSize] == orig[i * bandSize..(i + 1) * bandSize]
  {
  }

  /** Block j of band i has j / bandSize == i. */
  lemma BandIndex(j: int, i: int, bandSize: int)
    requires bandSize > 0 && i * bandSize <= j < (i + 1) * bandSize
    ensures j / bandSize == i
  {
    MulSucc(i, bandSize);
    DivUnique(j, bandSize, i, j - i * bandSize);
  }

  /** The inner loop of Translate_blocks_to_bits: the blocks of band i against median m. */
  method TranslateBand(blocks: array<int>, bandSize: int, i: int, m: int, half: real)
    requires bandSize > 0 && 0 <= i && (i + 1) * bandSize <= blocks.Length
    modifies blocks
    ensures forall k :: 0 <= k < blocks.Length && (k < i * bandSize || k >= (i + 1) * bandSize) ==> blocks[k] == old(blocks[k])
    ensures forall k :: i * bandSize <= k < (i + 1) * bandSize ==> blocks[k] == BitOf(old(blocks[k]), m, half)
  {
    var j := i * bandSize;
    while j < (i + 1) * bandSize
      invariant i * bandSize <= j <= (i + 1) * bandSize
      invariant forall k :: 0 <= k < blocks.Length && (k < i * bandSize || k >= j) ==> blocks[k] == old(blocks[k])
      invariant forall k :: i * bandSize <= k < j ==> blocks[k] == BitOf(old(blocks[k]), m, half)
    {
      var v := blocks[j];
      blocks[j] := if v > m || (Abs(v - m) < 1 && m as real > half) then 1 else 0;
      j := j + 1;
    }
  }

  /** After band i, the blocks of the first i + 1 bands are translated and the rest are untouched. */
  lemma BandStep(orig: seq<int>, before: seq<int>, after: seq<int>, bandSize: int, pixelsPerBlock: int, i: int)
    requires bandSize > 0 && 0 <= i < 4 && 4 * bandSize <= |orig| == |before| == |after|
    requires BandsDone(before, orig, bandSize, pixelsPerBlock, i)
    requires forall k :: 0 <= k < |after| && (k < i * bandSize || k >= (i + 1) * bandSize) ==> after[k] == before[k]
    requires forall k :: i * bandSize <= k < (i + 1) * bandSize ==>
      after[k] == BitOf(before[k], BandMedianAt(orig, bandSize, i), HalfBlockValue(pixelsPerBlock))
    ensures BandsDone(after, orig, bandSize, pixelsPerBlock, i + 1)
  {
    var lo, hi := i * bandSize, (i + 1) * bandSize;
    forall k | hi <= k < |orig|
      ensures after[k] == orig[k]
    {
      assert after[k] == before[k];
    }
    forall k | 0 <= k < lo
      ensures after[k] == TranslatedAt(orig, bandSize, pixelsPerBlock, k)
    {
      assert after[k] == before[k];
    }
    forall k | lo <= k < hi
      ensures after[k] == TranslatedAt(orig, bandSize, pixelsPerBlock, k)
    {
      assert before[k] == orig[k];
      BandCell(orig, bandSize, pixelsPerBlock, i, k, after[k]);
    }
  }

  /** A block of band i compared with band i's median is that block's translation. */
  lemma BandCell(orig: seq<int>, bandSize: int, pixelsPerBlock: int, i: int, k: int, v: int)
    requires bandSize > 0 && 0 <= i < 4 && 4 * bandSize <= |orig|
    requires i * bandSize <= k < (i + 1) * bandSize
    requires v == BitOf(orig[k], BandMedianAt(orig, bandSize, i), HalfBlockValue(pixelsPerBlock))
    ensures v == TranslatedAt(orig, bandSize, pixelsPerBlock, k)
  {
    BandIndex(k, i, bandSize);
  }

  /** Once all four bands are done, the blocks are the translation. */
  lemma TranslatedFromBands(orig: seq<int>, cur: seq<int>, nblocks: int, pixelsPerBlock: int)
    requires 0 <= nblocks <= |orig| == |cur| && BandSize(nblocks) > 0
    requires forall k :: 4 * BandSize(nblocks) <= k < |orig| ==> cur[k] == orig[k]
    requires forall k :: 0 <= k < 4 * BandSize(nblocks) ==> cur[k] == TranslatedAt(orig, BandSize(nblocks), pixelsPerBlock, k)
    ensures Translated(orig, nblocks, pixelsPerBlock) == Success(cur)
  {
    var t := Translated(orig, nblocks, pixelsPerBlock).value;
    forall k | 0 <= k < |cur|
      ensures t[k] == cur[k]
    {
      assert t[k] == TranslatedAt(orig, BandSize(nblocks), pixelsPerBlock, k);
    }
    assert t == cur;
  }

  /** The first `done` bands translated, the rest as they were. */
  ghost predicate BandsDone(cur: seq<int>, orig: seq<int>, bandSize: int, pixelsPerBlock: int, done: int)
    requires bandSize > 0 && 0 <= done <= 4 && 4 * bandSize <= |orig| == |cur|
  {
    (forall k :: done * bandSize <= k < |orig| ==> cur[k] == orig[k])
    && (forall k :: 0 <= k < done * bandSize ==> cur[k] == TranslatedAt(orig, bandSize, pixelsPerBlock, k))
  }

  /** One pass of the outer loop: band i is copied out, its median taken and its blocks overwritten. */
  method TranslateOneBand(blocks: array<int>, bandSize: int, pixelsPerBlock: int, i: int, ghost orig: seq<int>)
    requires bandSize > 0 && 0 <= i < 4 && 4 * bandSize <= blocks.Length == |orig|
    requires BandsDone(blocks[..], orig, bandSize, pixelsPerBlock, i)
    modifies blocks
    ensures BandsDone(blocks[..], orig, bandSize, pixelsPerBlock, i + 1)
  {
    var subblocks := blocks[i * bandSize..(i + 1) * bandSize];
    BandOfPrefix(blocks[..], orig, bandSize, i);
    var m := BandMedian(subblocks).value;
    ghost var before := blocks[..];
    TranslateBand(blocks, bandSize, i, m, HalfBlockValue(pixelsPerBlock));
    BandStep(orig, before, blocks[..], bandSize, pixelsPerBlock, i);
  }

  /** Translate_blocks_to_bits, in place: each of the four bands is copied out, its median taken, and its blocks overwritten. */
  method TranslateBlocksToBits(blocks: array<int>, nblocks: int, pixelsPerBlock: int) returns (r: Result<array<int>, string>)
    requires 0 <= nblocks <= blocks.Length
    modifies blocks
    ensures var spec := Translated(old(blocks[..]), nblocks, pixelsPerBlock);
      (r.Success? <==> spec.Success?)
      && (r.Failure? ==> r.error == spec.error && blocks[..] == old(blocks[..]))
      && (r.Success? ==> r.value == blocks && blocks[..] == spec.value)
  {
    var bandSize := nblocks / 4;
    if bandSize == 0 {
      var median := BandMedian(blocks[0..0]);
      return Failure(median.error);
    }
    ghost var orig := blocks[..];
    var i := 0;
    while i < 4
      invariant 0 <= i <= 4
      invariant BandsDone(blocks[..], orig, bandSize, pixelsPerBlock, i)
    {
      TranslateOneBand(blocks, bandSize, pixelsPerBlock, i, orig);
      i := i + 1;
    }
    TranslatedFromBands(orig, blocks[..], nblocks, pixelsPerBlock);
    return Success(blocks);
  }

  // ------------------------------------------------------------ the hash

  /** Blockhash_quick on the values: block sums, then translation with pixels per block = block width * block height. */
  function Quick(data: seq<bv8>, bits: int, width: int, height: int): (r: Result<seq<int>, string>)
    requires Geometry(bits, width, height, |data|)
    ensures r.Success? ==> |r.value| == bits * bits
  {
    Translated(BlockValues(data, bits, width, height), bits * bits, (width / bits) * (height / bits))
  }

  method BlockhashQuick(bits: int, data: array<bv8>, width: int, height: int) returns (r: Result<array<int>, string>)
    requires Geometry(bits, width, height, data.Length)
    ensures r.Success? <==> Quick(data[..], bits, width, height).Success?
    ensures r.Failure? ==> r.error == Quick(data[..], bits, width, height).error
    ensures r.Success? ==> fresh(r.value) && r.value[..] == Quick(data[..], bits, width, height).value
  {
    var blocks := QuickBlocks(bits, data, width, height);
    r := TranslateBlocksToBits(blocks, bits * bits, (width / bits) * (height / bits));
  }

  /**
   * Blockhash_full: when both sides are divisible by `bits` it is the quick path;
   * otherwise the floating-point path, which is not part of this model, signalled by None.
   */
  method BlockhashFull(bits: int, data: array<bv8>, width: int, height: int) returns (r: Option<Result<array<int>, string>>)
    requires Geometry(bits, width, height, data.Length)
    ensures r.Some? <==> width % bits == 0 && height % bits == 0
    ensures r.Some? ==> (r.value.Success? <==> Quick(data[..], bits, width, height).Success?)
    ensures r.Some? && r.value.Failure? ==> r.value.error == Quick(data[..], bits, width, height).error
    ensures r.Some? && r.value.Success? ==> fresh(r.value.value) && r.value.value[..] == Quick(data[..], bits, width, height).value
  {
    if width % bits == 0 && height % bits == 0 {
      var q := BlockhashQuick(bits, data, width, height);
      return Some(q);
    }
    return None;
  }

  /** ProcessImage on the values: the selected path, then the bit packing. */
  function ProcessImageSpec(data: seq<bv8>, bits: int, width: int, height: int, quick: bool): Outcome
    requires Geometry(bits, width, height, |data|)
  {
    if !quick && !(width % bits == 0 && height % bits == 0) then FloatPath
    else
      match Quick(data, bits, width, height)
      case Failure(e) => ArgumentError(e)
      case Success(hash) => if |hash| % 8 != 0 then IndexOutOfRange else Hash(PackBits(hash))
  }

  /** ProcessImage on the RGBA bytes of an image: the hash, or how it fails. */
  method ProcessImage(data: array<bv8>, bits: int, width: int, height: int, quick: bool) returns (r: Outcome)
    requires Geometry(bits, width, height, data.Length)
    ensures r == ProcessImageSpec(data[..], bits, width, height, quick)
  {
    var hash: Result<array<int>, string>;
    if quick {
      hash := BlockhashQuick(bits, data, width, height);
    } else {
      var full := BlockhashFull(bits, data, width, height);
      if full.None? {
        return FloatPath;
      }
      hash := full.value;
    }
    if hash.Failure? {
      return ArgumentError(hash.error);
    }
    var bytes := BitsToBytes(hash.value);
    if bytes.None? {
      return IndexOutOfRange;
    }
    return Hash(bytes.value[..]);
  }

  /** With the default 16 bits and the integer path, the hash is 32 bytes of bit values, which is HashSize bits. */
  lemma DefaultHashSize(data: seq<bv8>, width: int, height: int, quick: bool)
    requires Geometry(DefaultBits, width, height, |data|)
    requires quick || (width % DefaultBits == 0 && height % DefaultBits == 0)
    ensures ProcessImageSpec(data, DefaultBits, width, height, quick).Hash?
    ensures |ProcessImageSpec(data, DefaultBits, width, height, quick).bytes| == 32
    ensures 8 * |ProcessImageSpec(data, DefaultBits, width, height, quick).bytes| == HashSize
  {
    var blocks := BlockValues(data, DefaultBits, width, height);
    assert |blocks| == 256;
    TranslatedAllBits(blocks, (width / DefaultBits) * (height / DefaultBits));
  }

  /** The 256 block bits of a default hash are recovered by unpacking its 32 bytes. */
  lemma DefaultHashUnpacks(data: seq<bv8>, width: int, height: int)
    requires Geometry(DefaultBits, width, height, |data|)
    ensures Quick(data, DefaultBits, width, height).Success?
    ensures UnpackBits(ProcessImageSpec(data, DefaultBits, width, height, true).bytes)
      == Quick(data, DefaultBits, width, height).value
  {
    var blocks := BlockValues(data, DefaultBits, width, height);
    TranslatedAllBits(blocks, (width / DefaultBits) * (height / DefaultBits));
    UnpackPackBits(Quick(data, DefaultBits, width, height).value);
  }

  // ------------------------------------------------------- hamming distance

  /** The number of set bits of a byte. */
  function PopCount(x: bv8): (n: int)
    ensures 0 <= n <= 8
  {
    ((x >> 7) & 1) as int + ((x >> 6) & 1) as int + ((x >> 5) & 1) as int + ((x >> 4) & 1) as int
    + ((x >> 3) & 1) as int + ((x >> 2) & 1) as int + ((x >> 1) & 1) as int + (x & 1) as int
  }

  lemma PopCountZero(x: bv8)
    ensures PopCount(x) == 0 <==> x == 0
  {
  }

  lemma XorZero(a: bv8, b: bv8)
    ensures a ^ b == 0 <==> a == b
  {
  }

  lemma XorSymmetric(a: bv8, b: bv8)
    ensures a ^ b == b ^ a
  {
  }

  /** Two bytes are at distance 0 exactly when equal. */
  lemma ByteDistanceZero(a: bv8, b: bv8)
    ensures PopCount(a ^ b) == 0 <==> a == b
  {
    PopCountZero(a ^ b);
    XorZero(a, b);
  }

  lemma SnocEqual(a: seq<bv8>, b: seq<bv8>)
    requires |a| == |b| > 0
    ensures a == b <==> a[..|a| - 1] == b[..|b| - 1] && a[|a| - 1] == b[|b| - 1]
  {
    var n := |a| - 1;
    if a[..n] == b[..n] && a[n] == b[n] {
      assert a == a[..n] + [a[n]];
      assert b == b[..n] + [b[n]];
    }
  }

  /** The number of differing bit positions of two equally long byte sequences. */
  function Distance(left: seq<bv8>, right: seq<bv8>): (d: int)
    requires |left| == |right|
    ensures 0 <= d <= 8 * |left|
    decreases |left|
  {
    if left == [] then 0 else Distance(left[..|left| - 1], right[..|right| - 1]) + PopCount(left[|left| - 1] ^ right[|right| - 1])
  }

  lemma {:induction false} DistanceSymmetric(left: seq<bv8>, right: seq<bv8>)
    requires |left| == |right|
    ensures Distance(left, right) == Distance(right, left)
    decreases |left|
  {
    if left != [] {
      DistanceSymmetric(left[..|left| - 1], right[..|right| - 1]);
      XorSymmetric(left[|left| - 1], right[|right| - 1]);
    }
  }

  /** The distance is 0 exactly when the hashes are equal. */
  lemma {:induction false} DistanceZeroIffEqual(left: seq<bv8>, right: seq<bv8>)
    requires |left| == |right|
    ensures Distance(left, right) == 0 <==> left == right
    decreases |left|
  {
    if left != [] {
      var n := |left| - 1;
      DistanceZeroIffEqual(left[..n], right[..n]);
      ByteDistanceZero(left[n], right[n]);
      SnocEqual(left, right);
    }
  }

  /** The bit count in the loop of HammingDistance, bit 7 down to bit 0. */
  method CountBits(diff: bv8) returns (n: int)
    ensures n == PopCount(diff)
  {
    n := ((diff >> 7) & 1) as int + ((diff >> 6) & 1) as int + ((diff >> 5) & 1) as int
      + ((diff >> 4) & 1) as int + ((diff >> 3) & 1) as int + ((diff >> 2) & 1) as int
      + ((diff >> 1) & 1) as int + (diff & 1) as int;
  }

  lemma DistanceStep(left: seq<bv8>, right: seq<bv8>, i: int, n: int)
    requires |left| == |right| && 0 <= i < |left| && n == PopCount(left[i] ^ right[i])
    ensures Distance(left[..i + 1], right[..i + 1]) == Distance(left[..i], right[..i]) + n
  {
    assert left[..i + 1][..i] == left[..i] && right[..i + 1][..i] == right[..i];
  }

  /** HammingDistance: unequal lengths are rejected with an ArgumentException; otherwise the count of differing bits. */
  method HammingDistance(left: array<bv8>, right: array<bv8>) returns (r: Result<int, string>)
    ensures r.Failure? <==> left.Length != right.Length
    ensures r.Failure? ==> r.error == "Should only compare equal-length arrays"
    ensures r.Success? ==> r.value == Distance(left[..], right[..])
  {
    if left.Length != right.Length {
      return Failure("Should only compare equal-length arrays");
    }
    ghost var l, rr := left[..], right[..];
    var count := 0;
    var i := 0;
    while i < left.Length
      invariant 0 <= i <= left.Length
      invariant count == Distance(l[..i], rr[..i])
    {
      var diff := left[i] ^ right[i];
      var bitsSet := CountBits(diff);
      DistanceStep(l, rr, i, bitsSet);
      count := count + bitsSet;
      i := i + 1;
    }
    assert l == l[..i] && rr == rr[..i];
    return Success(count);
  }
}
