/**
 * The bit-level pieces of CRC-32: the reflected shift step the table is built from,
 * and the byte packing of the result, each with its bit-vector fact proved on its own.
 */
module Crc32Bits {

  /** One bit of the reflected CRC: shift right, XOR the polynomial when the low bit was set. */
  function Step(poly: bv32, e: bv32): bv32
  {
    if e & 1 == 1 then (e >> 1) ^ poly else e >> 1
  }

  /** `n` steps, one after the other, as the table loop takes them. */
  function Steps(poly: bv32, e: bv32, n: nat): bv32
    decreases n
  {
    if n == 0 then e else Step(poly, Steps(poly, e, n - 1))
  }

  lemma ByteXorInRange(crc: bv32, b: bv8)
    ensures ((b as bv32) ^ (crc & 0xff)) as int < 256
  {
    assert (b as bv32) ^ (crc & 0xff) <= 0xff;
  }

  /** Bytes most significant first, put back together. */
  function FromBytes(b0: bv8, b1: bv8, b2: bv8, b3: bv8): bv32
  {
    (b0 as bv32 << 24) | (b1 as bv32 << 16) | (b2 as bv32 << 8) | b3 as bv32
  }

  lemma BytesRoundTrip(x: bv32)
    ensures FromBytes(((x >> 24) & 0xff) as bv8, ((x >> 16) & 0xff) as bv8, ((x >> 8) & 0xff) as bv8, (x & 0xff) as bv8) == x
  {
  }
}

/**
 * The table-driven CRC-32 hash: the reflected polynomial 0xEDB88320 of the frame
 * check sequence in clause 3.2.9 of IEEE 802.3, seed 0xFFFFFFFF, final complement,
 * result written big-endian.
 */
module Crc32 {

  import opened Crc32Bits

  const DefaultPolynomial: bv32 := 0xedb88320
  const DefaultSeed: bv32 := 0xffffffff

  // ------------------------------------------------------------------ the table

  /** Entry i of the table for `poly`. */
  function TableEntry(poly: bv32, i: nat): bv32
    requires i < 256
  {
    Steps(poly, i as bv32, 8)
  }

  function Table(poly: bv32): (t: seq<bv32>)
    ensures |t| == 256
    ensures forall i :: 0 <= i < 256 ==> t[i] == TableEntry(poly, i)
  {
    seq(256, i requires 0 <= i < 256 => TableEntry(poly, i))
  }

  /** The table index of the byte update, `b ^ (crc & 0xff)`. */
  function UpdateIndex(crc: bv32, b: bv8): (k: int)
    ensures 0 <= k < 256
  {
    ByteXorInRange(crc, b);
    ((b as bv32) ^ (crc & 0xff)) as int
  }

  /** The table loop's byte update: `(crc >> 8) ^ table[b ^ (crc & 0xff)]`. */
  function Update(table: seq<bv32>, crc: bv32, b: bv8): bv32
    requires |table| == 256
  {
    (crc >> 8) ^ table[UpdateIndex(crc, b)]
  }

  /** The running value after feeding `data` byte by byte. */
  function Fold(table: seq<bv32>, crc: bv32, data: seq<bv8>): bv32
    requires |table| == 256
    decreases |data|
  {
    if data == [] then crc else Fold(table, Update(table, crc, data[0]), data[1..])
  }

  /** Feeding a and then b gives the same running value as feeding a ++ b. */
  lemma {:induction false} FoldAppend(table: seq<bv32>, crc: bv32, a: seq<bv8>, b: seq<bv8>)
    requires |table| == 256
    ensures Fold(table, Fold(table, crc, a), b) == Fold(table, crc, a + b)
    decreases |a|
  {
    if a == [] {
      assert a + b == b;
    } else {
      assert (a + b)[0] == a[0] && (a + b)[1..] == a[1..] + b;
      FoldAppend(table, Update(table, crc, a[0]), a[1..], b);
    }
  }

  lemma {:induction false} FoldSnoc(table: seq<bv32>, crc: bv32, a: seq<bv8>, x: bv8)
    requires |table| == 256
    ensures Fold(table, crc, a + [x]) == Update(table, Fold(table, crc, a), x)
  {
    FoldAppend(table, crc, a, [x]);
  }

  // ----------------------------------------------------------- byte order

  /** BitConverter.GetBytes on a little-endian machine. */
  function LittleEndianBytes(x: bv32): seq<bv8>
  {
    [(x & 0xff) as bv8, ((x >> 8) & 0xff) as bv8, ((x >> 16) & 0xff) as bv8, ((x >> 24) & 0xff) as bv8]
  }

  function Reverse<T>(s: seq<T>): (r: seq<T>)
    ensures |r| == |s| && forall i :: 0 <= i < |s| ==> r[i] == s[|s| - 1 - i]
  {
    if s == [] then [] else Reverse(s[1..]) + [s[0]]
  }

  /** UInt32ToBigEndianBytes: the little-endian bytes, reversed. */
  function UInt32ToBigEndianBytes(x: bv32): (r: seq<bv8>)
    ensures |r| == 4
  {
    Reverse(LittleEndianBytes(x))
  }

  function FromBigEndianBytes(b: seq<bv8>): bv32
    requires |b| == 4
  {
    FromBytes(b[0], b[1], b[2], b[3])
  }

  /** The 4 bytes are most significant first, and reading them back gives the value. */
  lemma BigEndianRoundTrip(x: bv32)
    ensures UInt32ToBigEndianBytes(x)[0] == (x >> 24) as bv8
    ensures UInt32ToBigEndianBytes(x)[3] == (x & 0xff) as bv8
    ensures FromBigEndianBytes(UInt32ToBigEndianBytes(x)) == x
  {
    var r := UInt32ToBigEndianBytes(x);
    assert r == [((x >> 24) & 0xff) as bv8, ((x >> 16) & 0xff) as bv8, ((x >> 8) & 0xff) as bv8, (x & 0xff) as bv8];
    BytesRoundTrip(x);
  }

  // ----------------------------------------------------------------- the code

  /** The static cache of the default-polynomial table. */
  class TableCache {
    var defaultTable: array?<bv32>

    ghost predicate Valid()
      reads this, defaultTable
    {
      defaultTable != null ==> defaultTable.Length == 256 && defaultTable[..] == Table(DefaultPolynomial)
    }

    constructor()
      ensures Valid() && defaultTable == null
    {
      defaultTable := null;
    }

    /**
     * InitializeTable: the cached table for the default polynomial when there is one,
     * otherwise a new table of 256 entries, stored in the cache for the default.
     */
    method InitializeTable(polynomial: bv32) returns (table: array<bv32>)
      requires Valid()
      modifies this
      ensures Valid()
      ensures table.Length == 256 && table[..] == Table(polynomial)
      ensures polynomial == DefaultPolynomial && old(defaultTable) != null ==> table == old(defaultTable)
      ensures polynomial == DefaultPolynomial ==> defaultTable == table
      ensures polynomial != DefaultPolynomial ==> defaultTable == old(defaultTable)
      ensures table != old(defaultTable) ==> fresh(table)
    {
      if polynomial == DefaultPolynomial && defaultTable != null {
        return defaultTable;
      }
      var createTable := new bv32[256];
      var i := 0;
      while i < 256
        modifies createTable
        invariant 0 <= i <= 256
        invariant forall k :: 0 <= k < i ==> createTable[k] == TableEntry(polynomial, k)
      {
        var entry := ComputeEntry(polynomial, i);
        createTable[i] := entry;
        i := i + 1;
      }
      assert createTable[..] == Table(polynomial);
      if polynomial == DefaultPolynomial {
        defaultTable := createTable;
      }
      return createTable;
    }
  }

  /** The inner loop of InitializeTable: eight shift steps from the index. */
  method ComputeEntry(polynomial: bv32, i: int) returns (entry: bv32)
    requires 0 <= i < 256
    ensures entry == TableEntry(polynomial, i)
  {
    entry := i as bv32;
    ghost var index := entry;
    var j := 0;
    while j < 8
      invariant 0 <= j <= 8
      invariant entry == Steps(polynomial, index, j)
    {
      StepsNext(polynomial, index, j);
      entry := ShiftStep(polynomial, entry);
      j := j + 1;
    }
  }

  /** The body of the inner loop: shift right, XOR the polynomial when the low bit was set. */
  method ShiftStep(polynomial: bv32, entry: bv32) returns (next: bv32)
    ensures next == Step(polynomial, entry)
  {
    if entry & 1 == 1 {
      next := (entry >> 1) ^ polynomial;
    } else {
      next := entry >> 1;
    }
  }

  lemma StepsNext(poly: bv32, e: bv32, n: nat)
    ensures Steps(poly, e, n + 1) == Step(poly, Steps(poly, e, n))
  {
  }

  /** The body of the hashing loop for one byte. */
  method UpdateByte(table: array<bv32>, crc: bv32, b: bv8) returns (next: bv32)
    requires table.Length == 256
    ensures next == Update(table[..], crc, b)
  {
    next := (crc >> 8) ^ table[UpdateIndex(crc, b)];
  }

  /** One more byte of the range folded in. */
  lemma FoldRangeStep(table: seq<bv32>, seed: bv32, buffer: seq<bv8>, start: int, i: int)
    requires |table| == 256 && 0 <= start <= i < |buffer|
    ensures Fold(table, seed, buffer[start..i + 1]) == Update(table, Fold(table, seed, buffer[start..i]), buffer[i])
  {
    FoldSnoc(table, seed, buffer[start..i], buffer[i]);
    assert buffer[start..i + 1] == buffer[start..i] + [buffer[i]];
  }

  /**
   * CalculateHash as written: the loop bound is `size - start`, so it reads the bytes
   * from `start` up to `size - start`, not the `size` bytes from `start`.
   */
  method CalculateHashAsWritten(table: array<bv32>, seed: bv32, buffer: array<bv8>, start: int, size: int)
    returns (crc: bv32)
    requires table.Length == 256
    requires 0 <= start && 0 <= size && start + size <= buffer.Length
    ensures crc == Fold(table[..], seed, buffer[start..AsWrittenEnd(start, size)])
  {
    crc := seed;
    var i := start;
    while i < size - start
      invariant start <= i <= AsWrittenEnd(start, size)
      invariant crc == Fold(table[..], seed, buffer[start..i])
    {
      FoldRangeStep(table[..], seed, buffer[..], start, i);
      crc := UpdateByte(table, crc, buffer[i]);
      i := i + 1;
    }
  }

  /** Where the written loop stops. */
  function AsWrittenEnd(start: int, size: int): int
  {
    if size - start > start then size - start else start
  }

  /** With start = 1 and size = 2 the written loop hashes nothing, while two bytes were asked for. */
  lemma AsWrittenSkipsBytes(buffer: seq<bv8>)
    requires |buffer| >= 3
    ensures buffer[1..AsWrittenEnd(1, 2)] == []
    ensures |buffer[1..1 + 2]| == 2
  {
  }

  /** For that input the outcome differs: two 0xFF bytes move the default seed, nothing does not. */
  lemma AsWrittenDiffers()
    ensures Fold(Table(DefaultPolynomial), DefaultSeed, [0xff, 0xff]) != DefaultSeed
  {
    assert TableEntry(DefaultPolynomial, 0) == 0;
    var t := Table(DefaultPolynomial);
    var c1 := Update(t, DefaultSeed, 0xff);
    assert c1 == 0x00ffffff;
    assert [0xff, 0xff][1..] == [0xff as bv8];
    assert Fold(t, DefaultSeed, [0xff, 0xff]) == Fold(t, c1, [0xff]);
    assert Update(t, c1, 0xff) == 0x0000ffff;
  }

  /** The two loops agree at start = 0, the offset the stream-hashing callers use. */
  lemma AsWrittenAgreesAtZero(size: int)
    requires 0 <= size
    ensures AsWrittenEnd(0, size) == 0 + size
  {
  }

  /** CalculateHash with the evident bound `start + size`: it folds exactly buffer[start..start+size]. */
  method CalculateHash(table: array<bv32>, seed: bv32, buffer: array<bv8>, start: int, size: int)
    returns (crc: bv32)
    requires table.Length == 256
    requires 0 <= start && 0 <= size && start + size <= buffer.Length
    ensures crc == Fold(table[..], seed, buffer[start..start + size])
  {
    crc := seed;
    var i := start;
    while i < start + size
      invariant start <= i <= start + size
      invariant crc == Fold(table[..], seed, buffer[start..i])
    {
      FoldRangeStep(table[..], seed, buffer[..], start, i);
      crc := UpdateByte(table, crc, buffer[i]);
      i := i + 1;
    }
  }

  /** A CRC-32 hasher: its table, its seed and the running value. */
  class Crc32 {
    ghost const polynomial: bv32
    const seed: bv32
    const table: array<bv32>
    var hash: bv32

    ghost predicate Valid()
      reads this, table
    {
      table.Length == 256 && table[..] == Table(polynomial)
    }

    /** The constructor: the table for `polynomial`, the running value set to the seed. */
    constructor(cache: TableCache, polynomial: bv32, seed: bv32)
      requires cache.Valid()
      modifies cache
      ensures Valid() && cache.Valid()
      ensures this.polynomial == polynomial && this.seed == seed && hash == seed
      ensures polynomial == DefaultPolynomial ==> table == cache.defaultTable
    {
      var t := cache.InitializeTable(polynomial);
      this.polynomial := polynomial;
      this.table := t;
      this.seed := seed;
      this.hash := seed;
    }

    /** The parameterless constructor: default polynomial and seed. */
    constructor Default(cache: TableCache)
      requires cache.Valid()
      modifies cache
      ensures Valid() && cache.Valid()
      ensures polynomial == DefaultPolynomial && seed == DefaultSeed && hash == DefaultSeed
    {
      var t := cache.InitializeTable(DefaultPolynomial);
      this.polynomial := DefaultPolynomial;
      this.table := t;
      this.seed := DefaultSeed;
      this.hash := DefaultSeed;
    }

    method Initialize()
      modifies this
      ensures hash == seed
    {
      hash := seed;
    }

    /** HashCore: the running value advances over buffer[start..start+length]. */
    method HashCore(buffer: array<bv8>, start: int, length: int)
      requires Valid()
      requires 0 <= start && 0 <= length && start + length <= buffer.Length
      modifies this
      ensures Valid()
      ensures hash == Fold(Table(polynomial), old(hash), buffer[start..start + length])
    {
      hash := CalculateHash(table, hash, buffer, start, length);
    }

    /** HashFinal: the complement of the running value, most significant byte first. */
    method HashFinal() returns (r: seq<bv8>)
      ensures r == UInt32ToBigEndianBytes(!hash)
      ensures |r| == 4 && FromBigEndianBytes(r) == !hash
    {
      var v := !hash;
      BigEndianRoundTrip(v);
      r := UInt32ToBigEndianBytes(v);
    }
  }

  /** The digest of a whole message hashed from the default seed. */
  function Checksum(data: seq<bv8>): bv32
  {
    !Fold(Table(DefaultPolynomial), DefaultSeed, data)
  }

  /** Hashing in two HashCore calls gives the checksum of the concatenation. */
  lemma ChecksumOfChunks(a: seq<bv8>, b: seq<bv8>)
    ensures !Fold(Table(DefaultPolynomial), Fold(Table(DefaultPolynomial), DefaultSeed, a), b) == Checksum(a + b)
  {
    FoldAppend(Table(DefaultPolynomial), DefaultSeed, a, b);
  }
}
