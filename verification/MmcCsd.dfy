/**
 The card-specific data (CSD) register: decoding of the four response words, the capacity
 arithmetic of READ CAPACITY in 32-bit words, and the transfer-speed code.
 */
module MmcCsd {

  const WORD := 0x1_0000_0000
  const DEFAULT_BLOCK := 512

  /** A 136-bit response as the host controller delivers it: r3 holds register bits 127..96. */
  datatype Response = Response(r0: bv32, r1: bv32, r2: bv32, r3: bv32)

  /** The 128-bit register a response carries. */
  function Register(r: Response): bv128
  {
    (r.r3 as bv128 << 96) | (r.r2 as bv128 << 64) | (r.r1 as bv128 << 32) | r.r0 as bv128
  }

  /** Bits hi..lo of a register, as the SD and MMC specifications number them. */
  function Bits(reg: bv128, hi: bv7, lo: bv7): bv128
    requires lo <= hi
  {
    (reg << (127 - hi)) >> (127 - hi + lo)
  }

  /** The size fields: the source's union of the two register layouts. */
  datatype Size = Version1(cSize: bv12, cSizeMult: bv3) | Version2(longSize: bv22)

  /** The fields of the CSD that decide clock, command classes, capacity and write protection. */
  datatype Csd = Csd(structure: bv2, tranSpeed: bv8, ccc: bv12, readBlLen: bv4, size: Size, permWp: bv1, tmpWp: bv1)
  {
    predicate WriteProtected() {
      permWp != 0 || tmpWp != 0
    }
  }

  function ParseVersion1(r: Response): (s: Size)
    ensures s.Version1?
  {
    Version1((((r.r2 & 0x3FF) << 2) | (r.r1 >> 30)) as bv12, ((r.r1 >> 15) & 0x07) as bv3)
  }

  function ParseVersion2(r: Response): (s: Size)
    ensures s.Version2?
  {
    Version2((((r.r2 & 0x3F) << 16) | (r.r1 >> 16)) as bv22)
  }

  /** mmc_parse_sd_csd: any structure but 0 is read as version 2, with a long C_SIZE and no multiplier. */
  function ParseSd(r: Response): Csd
  {
    var structure := (r.r3 >> 30) as bv2;
    Csd(structure, (r.r3 & 0xFF) as bv8, (r.r2 >> 20) as bv12, ((r.r2 >> 16) & 0x0F) as bv4,
        if structure == 0 then ParseVersion1(r)
        else ParseVersion2(r),
        ((r.r0 >> 13) & 1) as bv1, ((r.r0 >> 12) & 1) as bv1)
  }

  /** mmc_parse_mmc_csd. */
  function ParseMmc(r: Response): Csd
  {
    Csd((r.r3 >> 30) as bv2, (r.r3 & 0xFF) as bv8, (r.r2 >> 20) as bv12, ((r.r2 >> 16) & 0x0F) as bv4,
        ParseVersion1(r), ((r.r0 >> 13) & 1) as bv1, ((r.r0 >> 12) & 1) as bv1)
  }

  /** The decoded fields are the register's bits at the positions of the SD specification, section 5.3. */
  lemma SdFieldPositions(r: Response)
    ensures var reg, csd := Register(r), ParseSd(r);
      && csd.structure as bv128 == Bits(reg, 127, 126)
      && csd.tranSpeed as bv128 == Bits(reg, 103, 96)
      && csd.ccc as bv128 == Bits(reg, 95, 84)
      && csd.readBlLen as bv128 == Bits(reg, 83, 80)
      && csd.permWp as bv128 == Bits(reg, 13, 13) && csd.tmpWp as bv128 == Bits(reg, 12, 12)
  {
  }

  lemma Version1Positions(r: Response)
    ensures ParseVersion1(r).cSize as bv128 == Bits(Register(r), 73, 62)
    ensures ParseVersion1(r).cSizeMult as bv128 == Bits(Register(r), 49, 47)
  {
  }

  lemma Version2Positions(r: Response)
    ensures ParseVersion2(r).longSize as bv128 == Bits(Register(r), 69, 48)
  {
  }

  /** The CSD_STRUCTURE bits decide which layout is read. */
  lemma StructureDecides(r: Response)
    ensures ParseSd(r).size == if Bits(Register(r), 127, 126) == 0 then ParseVersion1(r) else ParseVersion2(r)
  {
    SdFieldPositions(r);
    hide Bits, Register, ParseVersion1, ParseVersion2;
    assert ParseSd(r).structure == 0 <==> ParseSd(r).structure as bv128 == 0;
  }

  lemma MmcFieldPositions(r: Response)
    ensures var reg, csd := Register(r), ParseMmc(r);
      && csd.structure as bv128 == Bits(reg, 127, 126) && csd.ccc as bv128 == Bits(reg, 95, 84)
      && csd.tranSpeed as bv128 == Bits(reg, 103, 96)
      && csd.readBlLen as bv128 == Bits(reg, 83, 80)
      && csd.permWp as bv128 == Bits(reg, 13, 13) && csd.tmpWp as bv128 == Bits(reg, 12, 12)
      && csd.size == ParseVersion1(r)
  {
  }

  function Pow2(n: nat): (p: nat)
    ensures 0 < p
  {
    if n == 0 then 1 else 2 * Pow2(n - 1)
  }

  lemma {:induction false} Pow2Sum(a: nat, b: nat)
    ensures Pow2(a + b) == Pow2(a) * Pow2(b)
  {
    if a != 0 {
      Pow2Sum(a - 1, b);
    }
  }

  lemma {:induction false} Pow2Monotonic(a: nat, b: nat)
    requires a <= b
    ensures Pow2(a) <= Pow2(b)
  {
    if a < b {
      Pow2Monotonic(a, b - 1);
    }
  }

  /** What decides the capacity: version 2 or not, READ_BL_LEN, C_SIZE + 1 and C_SIZE_MULT + 2. */
  datatype Geometry = Geometry(long: bool, len: nat, size: nat, mult: nat) {
    predicate InRange() {
      len < 16 && 2 <= mult < 10 && 1 <= size <= (if long then 0x40_0000 else 0x1000)
    }
  }

  function GeometryOf(csd: Csd): (g: Geometry)
    ensures g.InRange()
  {
    match csd.size
    case Version1(cSize, cSizeMult) => Geometry(false, csd.readBlLen as nat, cSize as nat + 1, cSizeMult as nat + 2)
    case Version2(longSize) => Geometry(true, csd.readBlLen as nat, longSize as nat + 1, 2)
  }

  /**
   The capacity in bytes, sections 5.3.2 and 5.3.3 of the SD specification:
   (C_SIZE + 1) * 2^(C_SIZE_MULT + 2) * 2^READ_BL_LEN, or (C_SIZE + 1) * 512 KiB.
   */
  function CapacityBytes(g: Geometry): nat
  {
    Scale(g.size, if g.long then 19 else g.mult + g.len)
  }

  /** n * 2^e */
  function Scale(n: nat, e: nat): nat
  {
    if e == 0 then n else 2 * Scale(n, e - 1)
  }

  lemma {:induction false} ScaleIsProduct(n: nat, e: nat)
    ensures Scale(n, e) == n * Pow2(e)
  {
    if e != 0 {
      ScaleIsProduct(n, e - 1);
      assert n * Pow2(e) == 2 * (n * Pow2(e - 1));
    }
  }

  lemma {:induction false} ScaleScale(n: nat, d: nat, e: nat)
    ensures Scale(Scale(n, d), e) == Scale(n, d + e)
  {
    if e != 0 {
      ScaleScale(n, d, e - 1);
    }
  }

  lemma {:induction false} ScaleMonotonic(m: nat, n: nat, e: nat)
    requires m <= n
    ensures Scale(m, e) <= Scale(n, e)
    ensures m < n ==> Scale(m, e) < Scale(n, e)
  {
    if e != 0 {
      ScaleMonotonic(m, n, e - 1);
    }
  }

  lemma {:induction false} ScaleGrows(n: nat, d: nat, e: nat)
    requires d <= e
    ensures Scale(n, d) <= Scale(n, e)
  {
    if d < e {
      ScaleGrows(n, d, e - 1);
    }
  }

  lemma WordScale()
    ensures Scale(1, 9) == DEFAULT_BLOCK && Scale(0x1000, 20) == WORD && Scale(0x40_0000, 10) == WORD
  {
    assert Scale(1, 4) == 16 && Scale(16, 5) == 512;
    ScaleScale(1, 4, 5);
    assert Scale(0x1000, 5) == 0x2_0000 && Scale(0x2_0000, 5) == 0x40_0000;
    assert Scale(0x40_0000, 5) == 0x800_0000 && Scale(0x800_0000, 5) == WORD;
    ScaleScale(0x1000, 5, 5);
    ScaleScale(0x40_0000, 5, 5);
    ScaleScale(0x1000, 10, 10);
  }

  /** The capacity in the specification's own terms. */
  lemma CapacityFormula(g: Geometry)
    ensures g.long ==> CapacityBytes(g) == g.size * (512 * 1024)
    ensures !g.long ==> CapacityBytes(g) == g.size * Pow2(g.mult) * Pow2(g.len)
  {
    hide Scale, Pow2;
    if g.long {
      PowersUsed();
      Pow2Sum(9, 10);
      ScaleIsProduct(g.size, 19);
    } else {
      ScaleScale(g.size, g.mult, g.len);
      ScaleIsProduct(g.size, g.mult);
      ScaleIsProduct(Scale(g.size, g.mult), g.len);
    }
  }

  /** log2 of the block size reported. */
  function BlockBits(g: Geometry): nat
  {
    if g.long || 9 <= g.len then 9 else g.len
  }

  /** The number of blocks reported. */
  function Blocks(g: Geometry): nat
  {
    Scale(g.size, if g.long then 10 else g.mult + if 9 <= g.len then g.len - 9 else 0)
  }

  /** The blocks reported make up the capacity, and there are between 1 and 2^32 of them. */
  lemma BlocksExact(g: Geometry)
    requires g.InRange()
    ensures Scale(Blocks(g), BlockBits(g)) == CapacityBytes(g)
    ensures 1 <= Blocks(g) <= WORD
  {
    WordScale();
    hide Scale;
    var e := if g.long then 10 else g.mult + if 9 <= g.len then g.len - 9 else 0;
    ScaleScale(g.size, e, BlockBits(g));
    ScaleMonotonic(g.size, if g.long then 0x40_0000 else 0x1000, e);
    if !g.long {
      ScaleGrows(0x1000, e, 20);
    }
    ScaleGrows(g.size, 0, e);
    ScaleZero(g.size);
  }

  lemma ScaleZero(n: nat)
    ensures Scale(n, 0) == n
  {
  }

  lemma LastBlock(blocks: nat)
    requires 1 <= blocks <= WORD
    ensures (blocks % WORD - 1) % WORD == blocks - 1
  {
  }

  lemma PowersUsed()
    ensures Pow2(9) == DEFAULT_BLOCK && Pow2(10) == 1024
  {
    assert Pow2(3) == 8 && Pow2(4) == 16 && Pow2(1) == 2;
    Pow2Sum(3, 3);
    Pow2Sum(6, 3);
    Pow2Sum(9, 1);
  }

  /** A product by a power of two is exact. */
  lemma Exact(x: nat, k: nat)
    requires 0 < x
    ensures x * k / x == k && x * k % x == 0
  {
    assert x * k == k * x + 0;
    DivMod(x * k, x, k);
  }

  lemma DivMod(y: nat, x: nat, k: nat)
    requires 0 < x && y == k * x
    ensures y / x == k && y % x == 0
  {
    var q, r := y / x, y % x;
    assert q * x + r == k * x;
    if q < k {
      AtLeast(q + 1, k, x);
    } else if k < q {
      AtLeast(k + 1, q, x);
    }
  }

  lemma AtLeast(a: nat, b: nat, x: nat)
    requires a <= b
    ensures a * x <= b * x
    ensures 0 < a ==> (a - 1) * x == a * x - x
  {
  }

  /** The block size reported divides the default block. */
  lemma BlockDivides(g: Geometry)
    ensures DEFAULT_BLOCK % Pow2(BlockBits(g)) == 0
  {
    PowersUsed();
    Pow2Sum(9 - BlockBits(g), BlockBits(g));
    Exact(Pow2(BlockBits(g)), Pow2(9 - BlockBits(g)));
  }

  /** Blocks of 2^len bytes with len above 9 are taken apart into 2^(len - 9) default blocks. */
  lemma SplitBlock(len: nat)
    ensures 9 < len ==> Pow2(len) > DEFAULT_BLOCK && Pow2(len) % DEFAULT_BLOCK == 0
    ensures 9 < len ==> Pow2(len) / DEFAULT_BLOCK == Pow2(len - 9) && Pow2(len) / Pow2(len - 9) == DEFAULT_BLOCK
    ensures len <= 9 ==> Pow2(len) <= DEFAULT_BLOCK
  {
    PowersUsed();
    if 9 < len {
      Pow2Sum(9, len - 9);
      Exact(DEFAULT_BLOCK, Pow2(len - 9));
      Exact(Pow2(len - 9), DEFAULT_BLOCK);
      Pow2Monotonic(10, len);
    } else {
      Pow2Monotonic(len, 9);
    }
  }

  /** The products mmc_capacity forms for short CSDs. */
  lemma ProductsExact(g: Geometry)
    requires g.InRange() && !g.long
    ensures g.len <= 9 ==> g.size * Pow2(g.mult) == Blocks(g)
    ensures 9 < g.len ==> g.size * Pow2(g.len - 9) < WORD && g.size * Pow2(g.len - 9) * Pow2(g.mult) == Blocks(g)
  {
    WordScale();
    hide Scale, Pow2;
    ScaleIsProduct(g.size, g.mult);
    if 9 < g.len {
      ScaleIsProduct(g.size, g.len - 9);
      ScaleIsProduct(Scale(g.size, g.len - 9), g.mult);
      ScaleScale(g.size, g.len - 9, g.mult);
      ScaleMonotonic(g.size, 0x1000, g.len - 9);
      ScaleGrows(0x1000, g.len - 9, 19);
      ScaleScale(0x1000, 19, 1);
      ScaleDoubles(0x1000, 19);
    }
  }

  lemma ScaleDoubles(n: nat, e: nat)
    ensures Scale(n, e + 1) == 2 * Scale(n, e)
  {
  }

  /** The intermediate values of mmc_capacity for short CSDs. */
  lemma ShortSteps(g: Geometry, bsize: nat, csizem: nat)
    requires g.InRange() && !g.long && bsize == Pow2(g.len) && csizem == Pow2(g.mult)
    ensures bsize > DEFAULT_BLOCK && bsize % DEFAULT_BLOCK == 0 ==>
      var ts := bsize / DEFAULT_BLOCK;
      0 < ts && bsize / ts == DEFAULT_BLOCK && 9 < g.len && g.size * ts < WORD && g.size * ts * csizem == Blocks(g)
    ensures !(bsize > DEFAULT_BLOCK && bsize % DEFAULT_BLOCK == 0) ==> g.len <= 9 && g.size * csizem == Blocks(g)
  {
    SplitBlock(g.len);
    ProductsExact(g);
  }

  lemma LongSteps(g: Geometry)
    requires g.InRange() && g.long
    ensures g.size * 1024 == Blocks(g)
  {
    PowersUsed();
    ScaleIsProduct(g.size, 10);
  }

  /**
   mmc_capacity, in unsigned 32-bit arithmetic: blocks larger than 512 bytes are reported as
   several blocks of 512. The last block's number and the block size describe the exact
   capacity, also when the block count wraps to 0.
   */
  method ReadCapacity(g: Geometry) returns (lba: nat, blkSize: nat)
    requires g.InRange()
    ensures lba + 1 == Blocks(g) <= WORD && blkSize == Pow2(BlockBits(g))
    ensures blkSize == if g.long || 9 <= g.len then 512 else Pow2(g.len)
    ensures (lba + 1) * blkSize == CapacityBytes(g)
  {
    hide Scale, Pow2, Blocks, CapacityBytes;
    BlocksExact(g);
    var bsize, csize, csizem := DEFAULT_BLOCK, g.size, 1024;
    if g.long {
      LongSteps(g);
    } else {
      bsize, csizem := Pow2(g.len), Pow2(g.mult);
      ShortSteps(g, bsize, csizem);
    }
    if bsize > DEFAULT_BLOCK && bsize % DEFAULT_BLOCK == 0 {
      var ts := bsize / DEFAULT_BLOCK;
      Unwrapped(csize * ts);
      csize := csize * ts % WORD;
      bsize := bsize / ts;
    }
    var count := csize * csizem;
    assert count == Blocks(g);
    LastBlock(count);
    lba := (count % WORD - 1) % WORD;
    blkSize := bsize;
    PowersUsed();
    ScaleIsProduct(Blocks(g), BlockBits(g));
  }

  lemma Unwrapped(x: nat)
    ensures x < WORD ==> x % WORD == x
  {
  }

  // ----- From the register to the capacity

  /** Fields of at most 22 bits as numbers. */
  function Low22(b: bv128): bv22
  {
    (b & 0x3F_FFFF) as bv22
  }

  function Low12(b: bv128): bv12
  {
    (b & 0xFFF) as bv12
  }

  function Low4(b: bv128): bv4
  {
    (b & 0xF) as bv4
  }

  function Low3(b: bv128): bv3
  {
    (b & 7) as bv3
  }

  lemma LowBits(a: bv22, b: bv12, c: bv4, d: bv3)
    ensures Low22(a as bv128) == a && Low12(b as bv128) == b && Low4(c as bv128) == c && Low3(d as bv128) == d
  {
  }

  /** C_SIZE, C_SIZE_MULT and READ_BL_LEN where the SD specification places them. */
  function SizeField(reg: bv128): bv12
  {
    Low12(Bits(reg, 73, 62))
  }

  function MultField(reg: bv128): bv3
  {
    Low3(Bits(reg, 49, 47))
  }

  function BlLen(reg: bv128): bv4
  {
    Low4(Bits(reg, 83, 80))
  }

  function LongSizeField(reg: bv128): bv22
  {
    Low22(Bits(reg, 69, 48))
  }

  lemma ParsedFields(r: Response)
    ensures var reg := Register(r);
      && ParseSd(r).readBlLen == ParseMmc(r).readBlLen == BlLen(reg)
      && ParseVersion1(r).cSize == SizeField(reg) && ParseVersion1(r).cSizeMult == MultField(reg)
      && ParseVersion2(r).longSize == LongSizeField(reg)
  {
    SdFieldPositions(r);
    MmcFieldPositions(r);
    Version1Positions(r);
    Version2Positions(r);
    hide Bits, Register, ParseVersion1, ParseVersion2, ParseSd, ParseMmc, Low22, Low12, Low4, Low3;
    var v1 := ParseVersion1(r);
    LowBits(ParseVersion2(r).longSize, v1.cSize, ParseSd(r).readBlLen, v1.cSizeMult);
    LowBits(0, 0, ParseMmc(r).readBlLen, 0);
  }

  /** The capacity of a version 1 card or an MMC card in bytes, by its register. */
  function ShortCapacity(reg: bv128): nat
  {
    Bytes(SizeField(reg) as nat, MultField(reg) as nat, BlLen(reg) as nat)
  }

  function Bytes(cSize: nat, cSizeMult: nat, readBlLen: nat): nat
  {
    (cSize + 1) * Pow2(cSizeMult + 2) * Pow2(readBlLen)
  }

  /** The capacity of a version 2 card. */
  function LongCapacity(reg: bv128): nat
  {
    (LongSizeField(reg) as nat + 1) * (512 * 1024)
  }

  lemma SdGeometry(r: Response)
    ensures CapacityBytes(GeometryOf(ParseSd(r)))
         == if Bits(Register(r), 127, 126) == 0 then ShortCapacity(Register(r)) else LongCapacity(Register(r))
  {
    hide Register, CapacityBytes, Pow2, Bits, SizeField, MultField, BlLen, LongSizeField;
    hide ParseVersion1, ParseVersion2;
    ParsedFields(r);
    StructureDecides(r);
    CapacityFormula(GeometryOf(ParseSd(r)));
  }

  lemma MmcGeometry(r: Response)
    ensures CapacityBytes(GeometryOf(ParseMmc(r))) == ShortCapacity(Register(r))
  {
    hide Register, CapacityBytes, Pow2, Bits, SizeField, MultField, BlLen, ParseVersion1;
    ParsedFields(r);
    CapacityFormula(GeometryOf(ParseMmc(r)));
  }

  lemma SdLength(r: Response)
    ensures GeometryOf(ParseSd(r)).len == BlLen(Register(r)) as nat
    ensures GeometryOf(ParseSd(r)).long <==> Bits(Register(r), 127, 126) != 0
  {
    hide Register, Bits, BlLen, ParseVersion1, ParseVersion2;
    ParsedFields(r);
    StructureDecides(r);
  }

  lemma MmcLength(r: Response)
    ensures GeometryOf(ParseMmc(r)).len == BlLen(Register(r)) as nat && !GeometryOf(ParseMmc(r)).long
  {
    hide Register, Bits, BlLen, ParseVersion1;
    ParsedFields(r);
  }

  /** For every SD card's CSD, what READ CAPACITY reports is the capacity of the specification's formula. */
  method SdCapacity(r: Response) returns (lba: nat, blkSize: nat)
    ensures lba < WORD && (lba + 1) * blkSize
         == if Bits(Register(r), 127, 126) == 0 then ShortCapacity(Register(r)) else LongCapacity(Register(r))
    ensures blkSize == if Bits(Register(r), 127, 126) != 0 || 9 <= BlLen(Register(r)) as nat then 512
                       else Pow2(BlLen(Register(r)) as nat)
  {
    hide CapacityBytes, Register, ShortCapacity, LongCapacity, Bits, Pow2, BlLen;
    SdGeometry(r);
    SdLength(r);
    lba, blkSize := ReadCapacity(GeometryOf(ParseSd(r)));
  }

  /** And for every MMC card's CSD. */
  method MmcCapacity(r: Response) returns (lba: nat, blkSize: nat)
    ensures lba < WORD && (lba + 1) * blkSize == ShortCapacity(Register(r))
    ensures blkSize == if 9 <= BlLen(Register(r)) as nat then 512 else Pow2(BlLen(Register(r)) as nat)
  {
    hide CapacityBytes, Register, ShortCapacity, Pow2, BlLen;
    MmcGeometry(r);
    MmcLength(r);
    lba, blkSize := ReadCapacity(GeometryOf(ParseMmc(r)));
  }

  /** The byte address of block blk, computed without a limit. */
  function Address(g: Geometry, blk: nat): nat
  {
    Scale(blk, BlockBits(g))
  }

  /**
   Byte addresses of a card that is not block addressed are 32 bits wide. The addresses of all
   its blocks fit exactly when the capacity is at most 4 GiB.
   */
  lemma AddressesFit(g: Geometry)
    requires g.InRange()
    ensures (forall blk :: 0 <= blk < Blocks(g) ==> Address(g, blk) < WORD) <==> CapacityBytes(g) <= WORD
  {
    BlocksExact(g);
    WordInBlocks(BlockBits(g));
    hide Scale;
    var k := Pow2(32 - BlockBits(g));
    if CapacityBytes(g) <= WORD {
      forall blk | 0 <= blk < Blocks(g)
        ensures Address(g, blk) < WORD
      {
        ScaleMonotonic(blk, Blocks(g), BlockBits(g));
      }
    } else {
      if Blocks(g) <= k {
        ScaleMonotonic(Blocks(g), k, BlockBits(g));
      }
      assert !(Address(g, k) < WORD);
    }
  }

  /** 2^32 bytes are a whole number of blocks. */
  lemma WordInBlocks(bits: nat)
    requires bits <= 9
    ensures Scale(Pow2(32 - bits), bits) == WORD
  {
    Pow2OfWord();
    hide Scale, Pow2;
    ScaleIsProduct(Pow2(32 - bits), bits);
    Pow2Sum(32 - bits, bits);
  }

  lemma Pow2OfWord()
    ensures Pow2(32) == WORD
  {
    assert Pow2(4) == 16;
    hide Pow2;
    Pow2Sum(4, 4);
    Pow2Sum(8, 8);
    Pow2Sum(16, 16);
  }

  /** If x and an even multiple of it differ by a multiple of 2^k, so does x from 0. */
  lemma {:induction false} EvenMultiple(x: int, m: int, q: int, k: nat) returns (r: int)
    requires x * (2 * m) - x == q * Pow2(k)
    ensures x == r * Pow2(k)
    decreases k
  {
    if k == 0 {
      r := x;
    } else {
      var h := Pow2(k - 1);
      assert q * Pow2(k) == 2 * (q * h);
      var y := x * m - q * h;
      assert x == 2 * y;
      assert y * (2 * m) - y == q * h by {
        assert y * (2 * m) == x * m;
      }
      r := EvenMultiple(y, m, q, k - 1);
    }
  }

  /** The byte addresses of a block with two block sizes are the same in 32 bits only if both are 0. */
  lemma SameWrapped(n: nat, i: nat, j: nat)
    requires i < j
    ensures n * Pow2(i) % WORD == n * Pow2(j) % WORD <==> n * Pow2(i) % WORD == 0 == n * Pow2(j) % WORD
  {
    hide Pow2;
    var x, y := n * Pow2(i), n * Pow2(j);
    if x % WORD == y % WORD {
      var m := Pow2(j - i - 1);
      PowerBetween(n, i, j);
      var q := y / WORD - x / WORD;
      assert y - x == q * WORD;
      Pow2OfWord();
      var r := EvenMultiple(x, m, q, 32);
      WholeWords(x, r);
    }
  }

  lemma PowerBetween(n: nat, i: nat, j: nat)
    requires i < j
    ensures n * Pow2(j) == n * Pow2(i) * (2 * Pow2(j - i - 1))
  {
    Pow2Sum(i, j - i);
    assert Pow2(j - i) == 2 * Pow2(j - i - 1);
    assert n * (Pow2(i) * Pow2(j - i)) == n * Pow2(i) * Pow2(j - i);
  }

  lemma WholeWords(x: nat, r: int)
    requires x == r * WORD
    ensures x % WORD == 0
  {
  }

  /** For the block lengths the SD specification allows in version 1 (9 to 11), every block's address fits. */
  lemma SpecifiedCardsFit(g: Geometry)
    requires g.InRange() && !g.long && g.len <= 11
    ensures CapacityBytes(g) <= WORD
  {
    WordScale();
    hide Scale;
    ScaleMonotonic(g.size, 0x1000, g.mult + g.len);
    ScaleGrows(0x1000, g.mult + g.len, 20);
  }

  /** A block length of 4096 admits capacities beyond 4 GiB, whose addresses wrap. */
  lemma LongBlocksOverflow()
    ensures var g := Geometry(false, 12, 0x1000, 9); g.InRange() && CapacityBytes(g) > WORD
  {
    WordScale();
    ScaleDoubles(0x1000, 20);
  }

  // ----- Transfer speed

  const TS_EXP: seq<nat> := [100, 1000, 10000, 100000, 0, 0, 0, 0]
  const TS_MUL: seq<nat> := [0, 1000, 1200, 1300, 1500, 2000, 2500, 3000,
                             3500, 4000, 4500, 5000, 5500, 6000, 7000, 8000]

  /** mmcsd_tran_speed: the clock rate in Hz a TRAN_SPEED code stands for. It fits in a signed int. */
  function TranSpeed(ts: bv8): (hz: nat)
    ensures hz <= 800_000_000
  {
    var unit, value := (ts & 7) as bv3, ((ts & 0x78) >> 3) as bv4;
    SpeedBound(unit as nat, value as nat);
    TS_EXP[unit as nat] * TS_MUL[value as nat]
  }

  /**
   The codes of the SD specification, section 5.3.2: bits 2..0 are the unit, 100 kbit/s times a power
   of ten, bits 6..3 the multiplier in tenths; the units from 4 on are reserved and read as rate 0.
   */
  lemma SpeedCodes(ts: bv8)
    ensures var unit, value := ts % 8, (ts / 8) % 16;
      if unit < 4 then
        10 * TranSpeed(ts) == [100_000, 1_000_000, 10_000_000, 100_000_000][unit as nat]
                              * [0, 10, 12, 13, 15, 20, 25, 30, 35, 40, 45, 50, 55, 60, 70, 80][value as nat]
      else TranSpeed(ts) == 0
  {
    assert ts & 7 == ts % 8 && (ts & 0x78) >> 3 == (ts / 8) % 16;
  }

  lemma SpeedBound(unit: nat, value: nat)
    requires unit < 8 && value < 16
    ensures TS_EXP[unit] * TS_MUL[value] <= 800_000_000
  {
    assert TS_EXP[unit] <= 100000 && TS_MUL[value] <= 8000;
    ProductBound(TS_EXP[unit], TS_MUL[value], 100000, 8000);
  }

  lemma ProductBound(a: nat, b: nat, x: nat, y: nat)
    requires a <= x && b <= y
    ensures a * b <= x * y
  {
    AtLeast(a, x, b);
    AtLeast(b, y, x);
  }
}
