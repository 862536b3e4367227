/** Sizes and index arithmetic of the on-disk inode (inode.c): how many
    sectors a byte length needs, where a byte offset lives among the direct
    blocks and the index tables, and the byte encoding of an index table
    sector. */
module Layout {
  import opened Device

  /** INODE_DIRECT_N, also spelled DIRECT_PTR_NUM: direct block pointers. */
  const DirectPtrNum: nat := 8

  /** INODE_TABLE_LENGTH: sector numbers held by one index table sector. */
  const TableLength: nat := 128

  /** INODE_MAGIC. */
  const InodeMagic: int := 0x494e4f44

  /** The block_sector_t value of -1, the "no sector" result. */
  const NoSector: Sector := 0xFFFF_FFFF

  /** Bytes covered by the direct blocks. */
  const DirectBytes: nat := DirectPtrNum * BlockSectorSize

  /** Bytes covered by one index table. */
  const TableBytes: nat := TableLength * BlockSectorSize

  /** C's `/` on signed integers: the quotient truncated toward zero. */
  function CDiv(a: int, b: int): (q: int)
    requires b > 0
    ensures a >= 0 ==> q == a / b
    ensures a < 0 ==> q <= 0 && q * b >= a > (q - 1) * b
  {
    if a >= 0 then a / b else -((-a) / b)
  }

  /** bytes_to_sectors: DIV_ROUND_UP(size, BLOCK_SECTOR_SIZE). */
  function BytesToSectors(size: int): (r: int)
    ensures size >= 0 ==> r >= 0 && (r - 1) * 512 < size <= r * 512
  {
    CDiv(size + 512 - 1, 512)
  }

  /** compare_substitute: the smaller of two values. */
  function CompareSubstitute(a: int, b: int): (r: int)
    ensures r <= a && r <= b
    ensures r == a || r == b
  {
    if a < b then a else b
  }

  /** get_direct_i: the direct block holding byte `pos`, or -1 when `pos`
      lies past the direct blocks. */
  function GetDirectI(pos: int): (r: int)
    ensures 0 <= pos ==> (r == -1 <==> pos >= 4096)
    ensures 0 <= pos < 4096 ==> 0 <= r < DirectPtrNum && r * 512 <= pos < (r + 1) * 512
  {
    var i := CDiv(pos, 512);
    if i < 8 then i else -1
  }

  /** Bytes addressable through the direct blocks and `ni` index tables. */
  function MaxBytes(ni: nat): nat {
    4096 + ni * 65536
  }

  /** Data blocks addressable through the direct blocks and `ni` tables. */
  function MaxBlocks(ni: nat): nat {
    DirectPtrNum + ni * 128
  }

  /** Index tables needed for a file of `n` data blocks. */
  function NumTables(n: int): (r: nat)
    ensures n <= DirectPtrNum ==> r == 0
    ensures n > DirectPtrNum ==> (r - 1) * 128 < n - DirectPtrNum <= r * 128
  {
    if n <= DirectPtrNum then 0 else (n - DirectPtrNum + 128 - 1) / 128
  }

  // ---------------------------------------------------------------------
  // Division facts

  /** A quotient and remainder are determined by any decomposition. */
  lemma {:induction false} DivUnique(x: int, m: int, q: int, s: int)
    requires m > 0 && 0 <= s < m && x == q * m + s
    ensures x / m == q && x % m == s
  {
    var q', s' := x / m, x % m;
    assert (q - q') * m == s' - s;
    if q > q' {
      MulMono(q - q', 1, m);
    } else if q < q' {
      MulMono(q' - q, 1, m);
    }
  }

  lemma MulMono(a: int, b: int, m: int)
    requires a >= b && m > 0
    ensures a * m >= b * m
  {
  }

  /** byte_to_sector's arithmetic for an offset past the direct blocks: the
      table index and the entry it computes are the table and entry of the
      offset's data block, and both are in range. */
  lemma {:induction false} IndirectIndices(pos: int, ni: nat)
    requires 4096 <= pos < MaxBytes(ni)
    ensures var t := CDiv(pos - 4096, 65536);
            var e := CDiv(pos - 4096 - t * 65536, 512);
            && 0 <= t < ni && 0 <= e < 128
            && t == (pos / 512 - DirectPtrNum) / 128
            && e == (pos / 512 - DirectPtrNum) % 128
  {
    var k, r := pos / 512, pos % 512;
    var b := k - DirectPtrNum;
    var bt, be := b / 128, b % 128;
    assert pos - 4096 == bt * 65536 + (be * 512 + r);
    DivUnique(pos - 4096, 65536, bt, be * 512 + r);
    var t := CDiv(pos - 4096, 65536);
    assert pos - 4096 - t * 65536 == be * 512 + r;
    DivUnique(pos - 4096 - t * 65536, 512, be, r);
    if t >= ni {
      MulMono(t, ni, 65536);
    }
  }

  // ---------------------------------------------------------------------
  // Index tables on disk: 128 four-byte little-endian sector numbers.

  /** Byte `k` (0 = least significant) of a 32-bit word. */
  function WordByte(w: Sector, k: nat): (b: byte)
    requires k < 4
  {
    if k == 0 then w % 256
    else if k == 1 then (w / 256) % 256
    else if k == 2 then (w / 65536) % 256
    else w / 16777216
  }

  /** The 32-bit word with little-endian bytes b0, b1, b2, b3. */
  function Word(b0: byte, b1: byte, b2: byte, b3: byte): Sector {
    b0 + 256 * b1 + 65536 * b2 + 16777216 * b3
  }

  lemma {:induction false} WordBytes(w: Sector)
    ensures Word(WordByte(w, 0), WordByte(w, 1), WordByte(w, 2), WordByte(w, 3)) == w
  {
    var q1 := w / 256;
    var q2 := q1 / 256;
    var q3 := q2 / 256;
    assert w == q3 * 16777216 + (q2 % 256) * 65536 + (q1 % 256) * 256 + w % 256;
    DivUnique(w, 65536, q2, (q1 % 256) * 256 + w % 256);
    DivUnique(w, 16777216, q3, (q2 % 256) * 65536 + (q1 % 256) * 256 + w % 256);
  }

  lemma {:induction false} BytesWord(b0: byte, b1: byte, b2: byte, b3: byte)
    ensures var w := Word(b0, b1, b2, b3);
            WordByte(w, 0) == b0 && WordByte(w, 1) == b1 && WordByte(w, 2) == b2 && WordByte(w, 3) == b3
  {
    var w := Word(b0, b1, b2, b3);
    DivUnique(w, 256, b1 + 256 * b2 + 65536 * b3, b0);
    DivUnique(w, 65536, b2 + 256 * b3, b0 + 256 * b1);
    DivUnique(w, 16777216, b3, b0 + 256 * b1 + 65536 * b2);
    DivUnique(b1 + 256 * b2 + 65536 * b3, 256, b2 + 256 * b3, b1);
    DivUnique(b2 + 256 * b3, 256, b3, b2);
  }

  /** An index table: one sector number per entry. */
  type Table = t: seq<Sector> | |t| == 128 witness seq(128, _ => 0)

  /** A table with every entry zero (the memset of a new table). */
  function EmptyTable(): (t: Table)
    ensures forall j :: 0 <= j < 128 ==> t[j] == 0
  {
    seq(128, _ => 0)
  }

  /** The sector image of an index table. */
  function EncodeTable(t: Table): (b: Block)
  {
    seq(512, i requires 0 <= i < 512 => WordByte(t[i / 4], i % 4))
  }

  /** The index table a sector holds (cache_read into a table buffer). */
  function DecodeTable(b: Block): (t: Table)
  {
    seq(128, j requires 0 <= j < 128 => Word(b[4 * j], b[4 * j + 1], b[4 * j + 2], b[4 * j + 3]))
  }

  /** Writing a table and reading it back gives the same table. */
  lemma {:induction false} DecodeEncode(t: Table)
    ensures DecodeTable(EncodeTable(t)) == t
  {
    var b := EncodeTable(t);
    forall j | 0 <= j < 128 ensures DecodeTable(b)[j] == t[j] {
      DivUnique(4 * j, 4, j, 0);
      DivUnique(4 * j + 1, 4, j, 1);
      DivUnique(4 * j + 2, 4, j, 2);
      DivUnique(4 * j + 3, 4, j, 3);
      WordBytes(t[j]);
    }
  }

  /** Every sector image is the image of the table read from it. */
  lemma {:induction false} EncodeDecode(b: Block)
    ensures EncodeTable(DecodeTable(b)) == b
  {
    var t := DecodeTable(b);
    forall i | 0 <= i < 512 ensures EncodeTable(t)[i] == b[i] {
      var j := i / 4;
      DivUnique(i, 4, j, i % 4);
      BytesWord(b[4 * j], b[4 * j + 1], b[4 * j + 2], b[4 * j + 3]);
    }
  }

  /** The all-zero sector reads as a table of zero entries (the memset of a
      fresh table). */
  lemma DecodeZeros()
    ensures DecodeTable(Zeros()) == seq(128, _ => 0)
  {
  }
}
