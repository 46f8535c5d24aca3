/**
 What the MMC driver's I/O engine is asked to do, and what it owes: requests, the jobs READ and WRITE
 become, the data commands of a job, and the record of requests that have been answered.
 */
module MmcJobs {
  import opened Common
  import opened MmcTrace
  import opened MmcScatter
  import MmcCsd
  import MmcIdent
  import MmcIdentRuns

  const LIMIT := 0x8000_0000

  datatype Op = Read10 | Write10 | Capacity | UnitReady | OtherCommand

  datatype Request =
    | Scsi(op: Op, lba: nat, scatter: bool, sg: seq<Elem>, addr: nat, len: nat, phys: bool)
    | Devctl
    | Unsupported
  {
    predicate Moves() {
      Scsi? && (op == Read10 || op == Write10)
    }

    predicate Measures() {
      Scsi? && op == Capacity
    }

    /** The caller's buffer as a list of pieces. */
    function Pieces(): seq<Elem>
      requires Scsi?
    {
      if scatter then sg else [Elem(addr, len)]
    }

    /** What the driver relies on: 32-bit block numbers, lengths of a signed int, lists inside memory. */
    predicate Sane(size: nat) {
      Scsi? ==> lba < WORD && Total(Pieces()) < LIMIT && (scatter ==> Inside(sg, size))
    }
  }

  datatype Ccb = Ccb(id: nat, req: Request)

  /** Trapped: the driver has stopped in a division by zero. */
  datatype Status = InProgress | Complete | Failure | Trapped

  /**
   What does not change: the host, PIO instead of DMA, stopping multi-block transfers by itself,
   where memory and the bounce buffer lie for the DMA engine.
   */
  datatype Board = Board(host: MmcIdent.Host, pio: bool, auto: bool, physical: nat -> nat, pbounce: nat) {
    /** The address a DMA transfer starts at. */
    function Base(r: Request): nat
      requires r.Scsi?
    {
      if r.scatter then pbounce else if r.phys then r.addr else physical(r.addr)
    }
  }

  /** An identification: where it began and what the card has answered. */
  datatype Identification = Identification(begun: MmcIdent.State, ios: seq<MmcIdent.Io>)

  function Result(h: MmcIdent.Host, run: Identification): MmcIdent.Outcome
  {
    MmcIdent.Run(h, run.begun, run.ios)
  }

  /** What a READ or WRITE asks for, and how this host and card carry it out. */
  datatype Job = Job(read: bool, hc: bool, wp: bool, geometry: MmcCsd.Geometry, run: Identification,
                     auto: bool, pio: bool, blksize: nat, lba: nat, base: nat, sg: seq<Elem>)

  /** The job is what the request asks for, addresses the request's buffer, and writes to no protected card. */
  predicate JobFor(b: Board, j: Job, r: Request)
  {
    && r.Moves() && j.read == (r.op == Read10) && j.lba == r.lba && j.sg == r.Pieces()
    && j.pio == b.pio && j.auto == b.auto && j.base == (if j.pio then 0 else b.Base(r))
    && (!j.read ==> !j.wp) && Total(j.sg) < LIMIT
  }

  /** How an identification may begin; one that has had no answer yet has only cleared the flags. */
  predicate Identified(run: Identification)
  {
    MmcIdentRuns.Begins(run.begun) && (run.ios == [] ==> !run.begun.hc && !run.begun.wp)
  }

  /** The flags are what the card has said in the identification begun last. */
  lemma FlagsHeard(h: MmcIdent.Host, run: Identification)
    requires Identified(run)
    ensures var s := Result(h, run).s;
      && (s.hc <==> MmcIdentRuns.CapacityHeard(h, run.begun, run.ios))
      && (s.wp <==> MmcIdentRuns.ProtectionHeard(h, run.begun, run.ios))
  {
    if run.ios != [] {
      MmcIdentRuns.FlagsAreTheCards(h, run.begun, run.ios);
    }
  }

  /** What the job takes for granted about the card is what its identification found. */
  predicate CardOk(h: MmcIdent.Host, j: Job)
  {
    var s := Result(h, j.run).s;
    && Identified(j.run)
    && j.hc == s.hc && j.wp == s.wp && j.geometry == MmcCsd.GeometryOf(s.csd)
  }

  // ----- The data commands of a job

  function Sent(xfers: seq<Data>): nat
  {
    if xfers == [] then 0 else Sent(xfers[..|xfers| - 1]) + xfers[|xfers| - 1].blocks
  }

  lemma SentSnoc(xfers: seq<Data>, d: Data)
    ensures Sent(xfers + [d]) == Sent(xfers) + d.blocks
  {
    assert (xfers + [d])[..|xfers + [d]| - 1] == xfers;
  }

  function Opcode(read: bool, multi: bool): nat
  {
    if multi then (if read then 18 else 25) else if read then 17 else 24
  }

  /** The size of n blocks. */
  function Size(n: nat, blksize: nat): nat
  {
    n * blksize
  }

  /** The blocks transfers are counted in: those READ CAPACITY has reported, else the controller's. */
  function Unit(blksize: nat): nat
  {
    if blksize == 0 then MmcCsd.DEFAULT_BLOCK else blksize
  }

  /** The block sizes READ CAPACITY can report divide the controller's. */
  predicate Divides(blksize: nat)
  {
    blksize == 0 || MmcCsd.DEFAULT_BLOCK % blksize == 0
  }

  /** Whether n blocks take a multi-block command. With no block size reported, all but none do. */
  predicate Multi(blksize: nat, n: nat)
  {
    if blksize == 0 then n != 0 else n != 1
  }

  /** The driver tells by comparing sizes. */
  lemma OneBlock(n: nat, blksize: nat)
    ensures Size(n, Unit(blksize)) == blksize <==> !Multi(blksize, n)
  {
    if 0 < blksize && n != 1 {
      MmcCsd.AtLeast(if n == 0 then 0 else 2, if n == 0 then 0 else n, blksize);
    }
  }

  /** The command for n blocks of a job when done blocks have been asked for. */
  function Command(j: Job, done: nat, n: nat): Data
  {
    var block, multi := (j.lba + done) % WORD, Multi(j.blksize, n);
    Data(Opcode(j.read, multi), if j.hc then block else block * j.blksize % WORD, block, n,
         if j.pio then 0 else j.base + Size(done, Unit(j.blksize)), multi, multi && j.auto)
  }

  /** As the driver forms it, from a length in bytes. */
  lemma CommandIs(j: Job, done: nat, n: nat, count: nat, blkno: nat, buf: nat)
    requires count == Size(n, Unit(j.blksize)) && blkno == (j.lba + done) % WORD
    requires buf == if j.pio then 0 else j.base + Size(done, Unit(j.blksize))
    ensures var one := count == j.blksize;
      Command(j, done, n)
      == Data(if j.read then if one then 17 else 18 else if one then 24 else 25,
              if j.hc then blkno else blkno * j.blksize % 0x1_0000_0000, blkno, n, buf, !one, !one && j.auto)
  {
    OneBlock(n, j.blksize);
    hide Size, Unit, Multi;
  }

  /** n blocks go on where done blocks have left off, within the buffer; a second command needs a block size. */
  predicate Continues(j: Job, first: bool, done: nat, n: nat)
  {
    && Size(done, Unit(j.blksize)) + Size(n, Unit(j.blksize)) <= Total(j.sg)
    && (first || (!j.pio && 0 < j.blksize)) && (j.pio || 0 < n)
  }

  /** Data commands that carry a job on, each where the one before left off. */
  predicate Follows(j: Job, xfers: seq<Data>)
  {
    xfers == [] ||
    var init, d := xfers[..|xfers| - 1], xfers[|xfers| - 1];
    && Follows(j, init) && d == Command(j, Sent(init), d.blocks)
    && Continues(j, init == [], Sent(init), d.blocks)
  }

  lemma FollowsNone(j: Job)
    ensures Follows(j, [])
  {
  }

  lemma FollowsSnoc(j: Job, xfers: seq<Data>, n: nat)
    requires Follows(j, xfers) && Continues(j, xfers == [], Sent(xfers), n)
    ensures Follows(j, xfers + [Command(j, Sent(xfers), n)])
  {
    var all := xfers + [Command(j, Sent(xfers), n)];
    assert all[..|all| - 1] == xfers;
  }

  /** Together they cover consecutive blocks from the job's first one on, each once, in ascending order. */
  lemma {:induction false} FollowsCovers(j: Job, xfers: seq<Data>)
    requires Follows(j, xfers)
    ensures Blocks(xfers) == Range(j.lba, Sent(xfers))
  {
    if xfers != [] {
      var init, d := xfers[..|xfers| - 1], xfers[|xfers| - 1];
      FollowsCovers(j, init);
      RangeJoin(j.lba, Sent(init), d.blocks);
    }
  }

  /** Command i is the one for its blocks, when those of the commands before it have been asked for. */
  lemma {:induction false} FollowsAt(j: Job, xfers: seq<Data>, i: nat)
    requires Follows(j, xfers) && i < |xfers|
    ensures xfers[i] == Command(j, Sent(xfers[..i]), xfers[i].blocks)
    ensures Continues(j, i == 0, Sent(xfers[..i]), xfers[i].blocks)
  {
    if i < |xfers| - 1 {
      FollowsAt(j, xfers[..|xfers| - 1], i);
      assert xfers[..|xfers| - 1][..i] == xfers[..i];
    }
  }

  /** DMA commands are never empty. */
  lemma FollowsMore(j: Job, xfers: seq<Data>, i: nat)
    requires Follows(j, xfers) && 0 < i < |xfers|
    ensures !j.pio && 0 < j.blksize && 0 < Sent(xfers[..i])
  {
    FollowsAt(j, xfers, i);
    FollowsAt(j, xfers, i - 1);
    assert xfers[..i][..i - 1] == xfers[..i - 1];
  }

  /** After n more blocks, the byte offset and the block number still belong together. */
  lemma NextChunk(lba: nat, done: nat, n: nat, blksize: nat)
    requires 0 < blksize
    ensures Size(done + n, blksize) == Size(done, blksize) + Size(n, blksize)
    ensures ((lba + done) % WORD + Size(n, blksize) / blksize) % WORD == (lba + (done + n)) % WORD
  {
    MmcCsd.DivMod(Size(n, blksize), blksize, n);
    ModShift(lba, done, n);
  }

  /** m blocks of the controller's size in the driver's blocks. */
  lemma WholeBlocks(m: nat, blksize: nat)
    requires Divides(blksize)
    ensures Size(m * (MmcCsd.DEFAULT_BLOCK / Unit(blksize)), Unit(blksize)) == m * MmcCsd.DEFAULT_BLOCK
  {
    var u := Unit(blksize);
    var q := MmcCsd.DEFAULT_BLOCK / u;
    assert q * u == MmcCsd.DEFAULT_BLOCK;
    assert m * q * u == m * (q * u);
  }

  lemma NothingSent(blksize: nat, lba: nat)
    ensures Sent([]) == 0 && Size(0, blksize) == 0
    ensures lba < WORD ==> (lba + Sent([])) % WORD == lba
  {
  }

  lemma OnePiece(addr: nat, len: nat)
    ensures Total([Elem(addr, len)]) == len
  {
    assert [Elem(addr, len)][..0] == [];
  }

  // ----- Addresses

  /** The block size READ CAPACITY reports for a card. */
  function CardSize(g: MmcCsd.Geometry): (n: nat)
    ensures 0 < n
  {
    MmcCsd.Pow2(MmcCsd.BlockBits(g))
  }

  /** The block size READ CAPACITY has left, if there was one. */
  function SizeOf(card: Option<MmcCsd.Geometry>): nat
  {
    if card.None? then 0 else CardSize(card.value)
  }

  /** The block size of the card in the slot, by its CSD. */
  function CardBlock(j: Job): nat
  {
    CardSize(j.geometry)
  }

  /**
   A command goes to where the bytes of the request from off on are on the card: by the number of
   the card's block, or by the byte address, in 32 bits, on cards of the older kind.
   */
  predicate Right(j: Job, off: nat, d: Data)
  {
    d.arg == if j.hc then (j.lba + Quotient(off, CardBlock(j))) % WORD else (j.lba * CardBlock(j) + off) % WORD
  }

  /** The byte address of a block is 0, by the card's block size and by the one in use. */
  predicate AtZero(j: Job, block: nat)
  {
    block * CardBlock(j) % WORD == 0 == block * j.blksize % WORD
  }

  /** The bytes of the commands before command i. */
  function Before(j: Job, xfers: seq<Data>, i: nat): nat
    requires i <= |xfers|
  {
    Size(Sent(xfers[..i]), Unit(j.blksize))
  }

  function Quotient(x: nat, m: nat): nat
    requires 0 < m
  {
    QuotientSign(x, m);
    x / m
  }

  lemma QuotientSign(x: nat, m: nat)
    requires 0 < m
    ensures 0 <= x / m
  {
    var q := x / m;
    assert x == q * m + x % m;
    if q < 0 {
      MmcCsd.AtLeast(0, -1 - q, m);
    }
  }

  lemma ModAddends(c: nat, x: nat, y: nat)
    requires x < WORD && y < WORD
    ensures (c + x) % WORD == (c + y) % WORD <==> x == y
  {
  }

  lemma ModCancel(a: nat, b: nat, c: nat)
    ensures (a + c) % WORD == (b + c) % WORD <==> a % WORD == b % WORD
  {
  }

  /** Multiplying the reduced block number or the whole one is the same in 32 bits. */
  lemma ModProduct(x: nat, b: nat)
    ensures x % WORD * b % WORD == x * b % WORD
  {
    var q, r := x / WORD, x % WORD;
    assert x == q * WORD + r;
    assert x * b == q * b * WORD + r * b;
    ModWhole(r * b, q * b);
  }

  lemma ModWhole(r: nat, q: nat)
    ensures (q * WORD + r) % WORD == r % WORD
  {
  }

  /** Counting done blocks of the size in use gives the card's block number only if the sizes are the same. */
  lemma CountedRight(done: nat, a: nat, b: nat)
    requires 0 < done
    ensures done * MmcCsd.Pow2(a) / MmcCsd.Pow2(b) == done <==> a == b
  {
    hide MmcCsd.Pow2;
    var used, card := MmcCsd.Pow2(a), MmcCsd.Pow2(b);
    if a == b {
      MmcCsd.DivMod(done * used, card, done);
    } else if a < b {
      Doubles(a, b);
      Smaller(done, used, card);
      QuotientBelow(done * used, card, done);
    } else {
      Doubles(b, a);
      QuotientAbove(done, used, card);
    }
  }

  lemma Smaller(done: nat, used: nat, card: nat)
    requires 0 < done && 0 < used && 2 * used <= card
    ensures done * used < done * card
  {
    MmcCsd.AtLeast(1, done, used);
    MmcCsd.AtLeast(2 * used, card, done);
    assert 2 * used * done == 2 * (done * used);
  }

  lemma Doubles(a: nat, b: nat)
    requires a < b
    ensures 2 * MmcCsd.Pow2(a) <= MmcCsd.Pow2(b)
  {
    MmcCsd.Pow2Monotonic(a + 1, b);
  }

  lemma QuotientBelow(x: nat, m: nat, k: nat)
    requires 0 < m && x < k * m
    ensures x / m < k
  {
    if k <= x / m {
      MmcCsd.AtLeast(k, x / m, m);
    }
  }

  lemma QuotientAbove(done: nat, used: nat, card: nat)
    requires 0 < done && 0 < card && 2 * card <= used
    ensures done < done * used / card
  {
    var q := done * used / card;
    assert done * used < (q + 1) * card;
    if q <= done {
      MmcCsd.AtLeast(q + 1, done + 1, card);
      MmcCsd.AtLeast(2 * card, used, done);
      MmcCsd.AtLeast(1, done, card);
    }
  }

  /** done blocks of one size, in blocks of another. */
  lemma Recounted(done: nat, g: MmcCsd.Geometry, h: MmcCsd.Geometry)
    requires 0 < done
    ensures Quotient(Size(done, CardSize(g)), CardSize(h)) == done <==> MmcCsd.BlockBits(g) == MmcCsd.BlockBits(h)
  {
    CountedRight(done, MmcCsd.BlockBits(g), MmcCsd.BlockBits(h));
    hide MmcCsd.Pow2, MmcCsd.BlockBits;
  }

  lemma AtLeastDone(done: nat, unit: nat)
    requires 0 < unit
    ensures done <= Size(done, unit)
  {
    MmcCsd.AtLeast(1, unit, done);
  }

  lemma QuotientBound(x: nat, m: nat)
    requires 0 < m
    ensures Quotient(x, m) <= x
  {
    NoLarger(x, m);
  }

  /** The driver's block number and the card's agree only if the sizes do. */
  lemma CountsAgree(lba: nat, done: nat, g: MmcCsd.Geometry, h: MmcCsd.Geometry)
    requires 0 < done && Size(done, CardSize(g)) < LIMIT
    ensures (lba + done) % WORD == (lba + Quotient(Size(done, CardSize(g)), CardSize(h))) % WORD <==>
            CardSize(g) == CardSize(h)
  {
    hide CardSize, Size, Quotient;
    var x := Size(done, CardSize(g));
    SizesDiffer(g, h);
    Recounted(done, g, h);
    AtLeastDone(done, CardSize(g));
    QuotientBound(x, CardSize(h));
    ModAddends(lba, done, Quotient(x, CardSize(h)));
  }

  /** On cards addressed by blocks: right as long as nothing has been counted, or with the card's size. */
  lemma NumberedRight(j: Job, done: nat, n: nat, last: Option<MmcCsd.Geometry>)
    requires j.hc && j.blksize == SizeOf(last) && (done == 0 || 0 < j.blksize)
    requires Size(done, Unit(j.blksize)) < LIMIT
    ensures Right(j, Size(done, Unit(j.blksize)), Command(j, done, n)) <==> done == 0 || j.blksize == CardBlock(j)
  {
    if 0 < done {
      CountsAgree(j.lba, done, last.value, j.geometry);
      hide CardSize;
    } else {
      hide CardSize;
      QuotientZero(CardBlock(j));
    }
  }

  lemma QuotientZero(m: nat)
    requires 0 < m
    ensures 0 / m == 0
  {
  }

  lemma NoLarger(x: nat, m: nat)
    requires 0 < m
    ensures x / m <= x
  {
    MmcCsd.AtLeast(1, m, x + 1);
    QuotientBelow(x, m, x + 1);
  }

  lemma SizesDiffer(g: MmcCsd.Geometry, h: MmcCsd.Geometry)
    ensures CardSize(g) == CardSize(h) <==> MmcCsd.BlockBits(g) == MmcCsd.BlockBits(h)
  {
    var a, b := MmcCsd.BlockBits(g), MmcCsd.BlockBits(h);
    hide MmcCsd.Pow2, MmcCsd.BlockBits;
    if a < b {
      Doubles(a, b);
    } else if b < a {
      Doubles(b, a);
    }
  }

  /** On cards addressed by bytes: right if the request's first block is. */
  lemma BytewiseRight(j: Job, done: nat, n: nat, last: Option<MmcCsd.Geometry>)
    requires !j.hc && j.blksize == SizeOf(last) && (done == 0 || 0 < j.blksize)
    ensures Right(j, Size(done, Unit(j.blksize)), Command(j, done, n)) <==>
            j.blksize == CardBlock(j) || AtZero(j, j.lba)
  {
    hide MmcCsd.Pow2, MmcCsd.BlockBits;
    ModProduct(j.lba + done, j.blksize);
    assert (j.lba + done) * j.blksize == j.lba * j.blksize + done * j.blksize;
    ModCancel(j.lba * j.blksize, j.lba * CardBlock(j), done * j.blksize);
    if last.Some? {
      var a, b := MmcCsd.BlockBits(last.value), MmcCsd.BlockBits(j.geometry);
      if a < b {
        MmcCsd.SameWrapped(j.lba, a, b);
      } else if b < a {
        MmcCsd.SameWrapped(j.lba, b, a);
      }
    }
  }

  /**
   Command i of a job goes to the right place exactly if the last card that READ CAPACITY was
   answered for had the same block size, or, on cards addressed by blocks, it is the first, or, by
   bytes, the request begins at byte address 0 by both sizes.
   */
  lemma AddressedRight(j: Job, xfers: seq<Data>, i: nat, last: Option<MmcCsd.Geometry>)
    requires Follows(j, xfers) && i < |xfers| && j.blksize == SizeOf(last) && Total(j.sg) < LIMIT
    ensures Right(j, Before(j, xfers, i), xfers[i]) <==>
            || j.blksize == CardBlock(j)
            || (if j.hc then i == 0 else AtZero(j, j.lba))
  {
    FollowsAt(j, xfers, i);
    if i != 0 {
      FollowsMore(j, xfers, i);
    }
    hide Follows, Command, Right, AtZero, SizeOf, CardBlock, Total;
    if j.hc {
      NumberedRight(j, Sent(xfers[..i]), xfers[i].blocks, last);
    } else {
      BytewiseRight(j, Sent(xfers[..i]), xfers[i].blocks, last);
    }
  }

  /**
   Inside a card of at most 4 GiB byte addresses do not wrap: with its block size in use, a
   command's argument is exactly the address of its block. With another, or none, only requests
   that begin at block 0 go to the right place.
   */
  lemma AddressedExactly(j: Job, xfers: seq<Data>, i: nat, last: Option<MmcCsd.Geometry>)
    requires j.geometry.InRange() && MmcCsd.CapacityBytes(j.geometry) <= WORD && !j.hc
    requires Total(j.sg) < LIMIT && Follows(j, xfers) && i < |xfers| && j.blksize == SizeOf(last)
    requires j.lba < MmcCsd.Blocks(j.geometry)
    ensures xfers[i].block < MmcCsd.Blocks(j.geometry) && j.blksize == CardBlock(j) ==>
      xfers[i].arg == MmcCsd.Address(j.geometry, xfers[i].block)
    ensures Right(j, Before(j, xfers, i), xfers[i]) <==> j.blksize == CardBlock(j) || j.lba == 0
  {
    AddressedRight(j, xfers, i, last);
    FollowsAt(j, xfers, i);
    hide CardSize, MmcCsd.Blocks, MmcCsd.CapacityBytes, MmcCsd.Address, Right, Follows, Before, Total;
    ByteAddress(j, j.lba);
    if xfers[i].block < MmcCsd.Blocks(j.geometry) && j.blksize == CardBlock(j) {
      ByteAddress(j, xfers[i].block);
      assert xfers[i].arg == Reduced(Size(xfers[i].block, CardBlock(j)));
    }
  }

  function Reduced(x: nat): nat
  {
    x % WORD
  }

  /** The byte address of a block of such a card, as the driver multiplies it out. */
  lemma ByteAddress(j: Job, block: nat)
    requires j.geometry.InRange() && MmcCsd.CapacityBytes(j.geometry) <= WORD && block < MmcCsd.Blocks(j.geometry)
    ensures Size(block, CardBlock(j)) == MmcCsd.Address(j.geometry, block) == Reduced(Size(block, CardBlock(j)))
    ensures block * CardBlock(j) % WORD == 0 <==> block == 0
  {
    MmcCsd.AddressesFit(j.geometry);
    hide MmcCsd.Pow2, MmcCsd.BlockBits, MmcCsd.Scale, MmcCsd.Blocks, MmcCsd.CapacityBytes;
    assert MmcCsd.Address(j.geometry, block) < WORD;
    MmcCsd.ScaleIsProduct(block, MmcCsd.BlockBits(j.geometry));
    if block != 0 {
      MmcCsd.AtLeast(1, block, CardBlock(j));
    }
  }

  /** A write to block 5 of a byte-addressed card goes to address 0 when no block size has been reported. */
  lemma WrittenToZero(j: Job)
    requires !j.read && !j.hc && j.blksize == 0 && j.lba == 5 && CardBlock(j) == MmcCsd.DEFAULT_BLOCK
    ensures Command(j, 0, 1).block == 5 && Command(j, 0, 1).arg == 0 && !Right(j, 0, Command(j, 0, 1))
  {
  }

  /**
   A write to block 5 of a card of 512-byte blocks goes to byte 1280 when READ CAPACITY was last
   answered for a card with READ_BL_LEN 8, taken out since.
   */
  lemma WrittenAstray(j: Job, before: MmcCsd.Geometry)
    requires !before.long && before.len == 8 && !j.geometry.long && j.geometry.len == 9
    requires !j.read && !j.hc && j.blksize == SizeOf(Some(before)) && j.lba == 5
    ensures Command(j, 0, 1).arg == 1280 && !Right(j, 0, Command(j, 0, 1))
  {
    MmcCsd.PowersUsed();
    assert MmcCsd.Pow2(9) == 2 * MmcCsd.Pow2(8);
  }

  /**
   After the same card, the second chunk of 512 bytes of a DMA read from a card addressed by blocks
   goes to block 2, while the buffer is at the bytes of block 1.
   */
  lemma ChunkAstray(j: Job, before: MmcCsd.Geometry)
    requires !before.long && before.len == 8 && j.geometry.long
    requires j.read && !j.pio && j.hc && j.blksize == SizeOf(Some(before)) && j.lba == 0
    ensures var d := Command(j, 2, 2);
      && Size(2, Unit(j.blksize)) == 512 && d.buf == j.base + 512 && d.arg == 2
      && (Right(j, 512, d) <==> d.arg == 1)
  {
    MmcCsd.PowersUsed();
    assert MmcCsd.Pow2(9) == 2 * MmcCsd.Pow2(8);
  }

  // ----- The card's blocks

  /** The block of the card a data command begins at. */
  function FirstReached(j: Job, d: Data): nat
  {
    if j.hc then d.arg else Quotient(d.arg, CardBlock(j))
  }

  /** The blocks of the card that data commands transfer. */
  function Reached(j: Job, xfers: seq<Data>): seq<nat>
  {
    if xfers == [] then []
    else
      var d := xfers[|xfers| - 1];
      Reached(j, xfers[..|xfers| - 1])
      + Range(FirstReached(j, d), Quotient(Size(d.blocks, Unit(j.blksize)), CardBlock(j)))
  }

  /** The request lies on a card whose byte addresses do not wrap, or is addressed by blocks. */
  predicate OnTheCard(j: Job, n: nat)
  {
    || j.hc
    || (j.geometry.InRange() && MmcCsd.CapacityBytes(j.geometry) <= WORD && j.lba + n <= MmcCsd.Blocks(j.geometry))
  }

  /** With the card's block size in use, they are the blocks the driver counts. */
  lemma {:induction false} ReachedCounted(j: Job, xfers: seq<Data>)
    requires Follows(j, xfers) && j.blksize == CardBlock(j) && OnTheCard(j, Sent(xfers))
    ensures Reached(j, xfers) == Blocks(xfers)
  {
    if xfers != [] {
      var init, d := xfers[..|xfers| - 1], xfers[|xfers| - 1];
      ReachedCounted(j, init);
      hide OnTheCard, Blocks, Reached, FirstReached, CardSize, Range, Command, Continues;
      MmcCsd.DivMod(Size(d.blocks, CardBlock(j)), CardBlock(j), d.blocks);
      if 0 < d.blocks {
        ReachedOne(j, Sent(init), d);
      }
      assert Range(d.block, 0) == Range(FirstReached(j, d), 0);
      Unfold(j, xfers);
    }
  }

  lemma Unfold(j: Job, xfers: seq<Data>)
    requires xfers != []
    ensures var init, d := xfers[..|xfers| - 1], xfers[|xfers| - 1];
      && Blocks(xfers) == Blocks(init) + Range(d.block, d.blocks)
      && Reached(j, xfers) == Reached(j, init)
         + Range(FirstReached(j, d), Quotient(Size(d.blocks, Unit(j.blksize)), CardBlock(j)))
  {
  }

  lemma ReachedOne(j: Job, done: nat, d: Data)
    requires d == Command(j, done, d.blocks) && 0 < d.blocks
    requires j.blksize == CardBlock(j) && OnTheCard(j, done + d.blocks)
    ensures FirstReached(j, d) == d.block
  {
    if !j.hc {
      MmcCsd.BlocksExact(j.geometry);
      hide CardSize, MmcCsd.Blocks, MmcCsd.CapacityBytes, MmcCsd.Address, MmcCsd.Scale;
      ByteAddress(j, d.block);
      assert d.arg == Reduced(Size(d.block, CardBlock(j)));
      MmcCsd.DivMod(Size(d.block, CardBlock(j)), CardBlock(j), d.block);
    }
  }

  // ----- Requests that have been answered

  /** The answer to READ CAPACITY: the last block and the block size. */
  datatype Reply = Reply(lba: nat, size: nat)

  /** card: the card in the slot when the request was answered. */
  datatype Posted = Posted(ccb: Ccb, status: Status, job: Job, xfers: seq<Data>, moved: seq<nat>,
                           caller: seq<Byte>, wire: seq<Byte>, card: MmcCsd.Geometry, reply: Option<Reply>)

  /** A completed READ CAPACITY. */
  predicate Measured(p: Posted)
  {
    p.status == Complete && p.ccb.req.Measures()
  }

  /** A completed READ CAPACITY was answered with exactly the card's capacity and its block size. */
  predicate Reported(p: Posted)
  {
    Measured(p) ==>
      && p.reply.Some? && p.reply.value.size == CardSize(p.card) && p.reply.value.lba < WORD
      && (p.reply.value.lba + 1) * p.reply.value.size == MmcCsd.CapacityBytes(p.card)
  }

  /**
   A completed READ CAPACITY was answered with exactly the card's capacity. A READ or WRITE
   reported complete has had exactly its bytes transferred, in consecutive blocks of the size in
   use: by PIO, to or from exactly the bytes of its buffer, in order; by DMA, to or
   from the request's buffer or, for a list, the bounce buffer, with the caller's bytes and the
   bounce buffer's the same.
   */
  predicate Fulfilled(b: Board, p: Posted)
  {
    && Reported(p)
    && (p.status == Complete && p.ccb.req.Moves() ==>
      && JobFor(b, p.job, p.ccb.req) && Follows(p.job, p.xfers)
      && Size(Sent(p.xfers), Unit(p.job.blksize)) == Total(p.job.sg)
      && (p.job.pio ==> p.moved == Addresses(p.job.sg))
      && (!p.job.pio && p.ccb.req.scatter && (p.job.read ==> Distinct(Addresses(p.job.sg))) ==> p.caller == p.wire))
  }

  /** Whatever became of the request, its data commands are those of its job, on the card in the slot. */
  predicate Justified(b: Board, p: Posted)
  {
    p.xfers != [] ==>
      && JobFor(b, p.job, p.ccb.req) && Follows(p.job, p.xfers) && CardOk(b.host, p.job)
      && (!p.job.pio ==> (p.status == Trapped <==> p.job.blksize == 0))
  }

  predicate Answered(b: Board, p: Posted)
  {
    && (p.status == Complete || p.status == Failure)
    && Fulfilled(b, p) && Justified(b, p)
  }

  predicate AllAnswered(b: Board, posted: seq<Posted>)
  {
    forall i :: 0 <= i < |posted| ==> Answered(b, posted[i])
  }

  /** The card the last completed READ CAPACITY was answered for. */
  function LastCard(posted: seq<Posted>): Option<MmcCsd.Geometry>
  {
    if posted == [] then None
    else
      var p := posted[|posted| - 1];
      if Measured(p) then Some(p.card) else LastCard(posted[..|posted| - 1])
  }

  /** The block size it has left. */
  function LastSize(posted: seq<Posted>): nat
  {
    SizeOf(LastCard(posted))
  }

  /** Every transfer used the block size known when it began. */
  predicate SizesUsed(posted: seq<Posted>)
  {
    forall i :: 0 <= i < |posted| ==> (posted[i].xfers != [] ==> posted[i].job.blksize == LastSize(posted[..i]))
  }

  function Ccbs(posted: seq<Posted>): seq<Ccb>
  {
    if posted == [] then [] else Ccbs(posted[..|posted| - 1]) + [posted[|posted| - 1].ccb]
  }

  function XfersOf(posted: seq<Posted>): seq<Data>
  {
    if posted == [] then [] else XfersOf(posted[..|posted| - 1]) + posted[|posted| - 1].xfers
  }

  lemma PostedSnoc(posted: seq<Posted>, p: Posted)
    ensures Ccbs(posted + [p]) == Ccbs(posted) + [p.ccb]
    ensures XfersOf(posted + [p]) == XfersOf(posted) + p.xfers
    ensures LastCard(posted + [p]) == if Measured(p) then Some(p.card) else LastCard(posted)
    ensures LastSize(posted + [p]) == if Measured(p) then CardSize(p.card) else LastSize(posted)
  {
    assert (posted + [p])[..|posted + [p]| - 1] == posted;
  }

  lemma SizesSnoc(posted: seq<Posted>, p: Posted)
    requires SizesUsed(posted) && (p.xfers != [] ==> p.job.blksize == LastSize(posted))
    ensures SizesUsed(posted + [p])
  {
    var all := posted + [p];
    forall i | 0 <= i < |all|
      ensures all[i].xfers != [] ==> all[i].job.blksize == LastSize(all[..i])
    {
      assert all[..i] == posted[..i];
      if i == |posted| {
        assert posted[..i] == posted;
      }
    }
  }

  function Held(nexus: Option<Ccb>): seq<Ccb>
  {
    if nexus.None? then [] else [nexus.value]
  }

  /** Exactly the card's blocks the request asks for have been transferred, in ascending order. */
  predicate CoversCard(p: Posted)
  {
    && p.ccb.req.Scsi?
    && var n, size := Total(p.ccb.req.Pieces()), CardBlock(p.job);
       n % size == 0 && Reached(p.job, p.xfers) == Range(p.ccb.req.lba, Quotient(n, size))
  }

  /**
   A completed request covers exactly its bytes, in consecutive blocks of the size in use; with the
   card's block size in use, those are exactly the card's blocks it asks for.
   */
  lemma CompletedCovers(b: Board, p: Posted)
    requires Fulfilled(b, p) && p.status == Complete && p.ccb.req.Moves()
    ensures var n, unit := Total(p.ccb.req.Pieces()), Unit(p.job.blksize);
      && n % unit == 0 && Blocks(p.xfers) == Range(p.ccb.req.lba, n / unit)
      && (p.job.blksize == CardBlock(p.job) && OnTheCard(p.job, n / unit) ==> CoversCard(p))
  {
    FollowsCovers(p.job, p.xfers);
    MmcCsd.DivMod(Total(p.job.sg), Unit(p.job.blksize), Sent(p.xfers));
    hide Follows, Reached, Blocks, OnTheCard, Total, Range, CardBlock;
    if p.job.blksize == CardBlock(p.job) && OnTheCard(p.job, Sent(p.xfers)) {
      ReachedCounted(p.job, p.xfers);
    }
  }

  /** Each DMA command addresses the request's buffer, or the bounce buffer, at the offset of its blocks. */
  lemma DmaAddresses(b: Board, p: Posted, i: nat)
    requires Justified(b, p) && !p.job.pio && i < |p.xfers|
    ensures p.ccb.req.Scsi?
    ensures var r, before := p.ccb.req, Sent(p.xfers[..i]);
      p.xfers[i].buf == (if r.scatter then b.pbounce else if r.phys then r.addr else b.physical(r.addr))
                        + before * if p.job.blksize == 0 then 512 else p.job.blksize
  {
    FollowsAt(p.job, p.xfers, i);
  }

  /**
   A READ sends CMD17 and CMD18 only, a WRITE CMD24 and CMD25 only; CMD18 and CMD25 exactly when it
   is not one block, or, as long as no block size has been reported, when it is any at all. Those are
   the commands counted as of several blocks, which a host that can stop them stops. Every command
   goes to the next block, and by DMA none is for nothing.
   */
  lemma OpcodesSent(b: Board, p: Posted, k: nat)
    requires Justified(b, p) && k < |p.xfers|
    ensures p.ccb.req.Scsi? && (p.ccb.req.op == Read10 || p.ccb.req.op == Write10)
    ensures var d := p.xfers[k];
      && (p.ccb.req.op == Read10 ==> d.opcode == 17 || d.opcode == 18)
      && (p.ccb.req.op == Write10 ==> d.opcode == 24 || d.opcode == 25)
      && (d.opcode == 18 || d.opcode == 25 <==> if 0 < p.job.blksize then d.blocks != 1 else d.blocks != 0)
      && (d.multi <==> d.opcode == 18 || d.opcode == 25)
      && (d.auto <==> d.multi && b.auto)
      && d.block == (p.ccb.req.lba + Sent(p.xfers[..k])) % 0x1_0000_0000
      && (!p.job.pio ==> 0 < d.blocks)
  {
    FollowsAt(p.job, p.xfers, k);
    hide CardOk, Follows, Size, Total;
  }

  /** Every data command of the record belongs to a request. */
  lemma {:induction false} XferOwner(posted: seq<Posted>, d: Data) returns (i: nat, m: nat)
    requires d in XfersOf(posted)
    ensures i < |posted| && m < |posted[i].xfers| && posted[i].xfers[m] == d
  {
    var init, p := posted[..|posted| - 1], posted[|posted| - 1];
    if d in XfersOf(init) {
      i, m := XferOwner(init, d);
    } else {
      i := |posted| - 1;
      m :| 0 <= m < |p.xfers| && p.xfers[m] == d;
    }
  }

  // ----- READ CAPACITY first

  /** READ CAPACITY completed before request i. */
  ghost predicate MeasuredBefore(posted: seq<Posted>, i: nat)
    requires i <= |posted|
  {
    exists k :: 0 <= k < i && Measured(posted[k])
  }

  /** There is a block size exactly after a READ CAPACITY has completed. */
  lemma {:induction false} SizeKnown(posted: seq<Posted>)
    ensures 0 < LastSize(posted) <==> MeasuredBefore(posted, |posted|)
  {
    hide CardSize, Measured;
    if posted != [] {
      var init := posted[..|posted| - 1];
      SizeKnown(init);
      if Measured(posted[|posted| - 1]) {
        assert MeasuredBefore(posted, |posted|);
      } else if MeasuredBefore(init, |init|) {
        var k :| 0 <= k < |init| && Measured(init[k]);
        assert Measured(posted[k]);
      }
    }
  }

  lemma SizeKnownAt(posted: seq<Posted>, i: nat)
    requires i <= |posted|
    ensures 0 < LastSize(posted[..i]) <==> MeasuredBefore(posted, i)
  {
    hide LastSize, Measured;
    SizeKnown(posted[..i]);
    if MeasuredBefore(posted, i) {
      var k :| 0 <= k < i && Measured(posted[k]);
      assert Measured(posted[..i][k]);
    }
  }

  /** DMA moves some blocks at a time. */
  lemma SomeBlocks(n: nat, unit: nat)
    ensures 0 < Size(n, unit) ==> 0 < n
  {
  }

  /** Of a request whose transfer has reached the controller: nothing has trapped, every command is right. */
  predicate Unharmed(p: Posted)
  {
    && p.status != Trapped
    && forall i :: 0 <= i < |p.xfers| ==> Right(p.job, Before(p.job, p.xfers, i), p.xfers[i])
  }

  /** The last card READ CAPACITY was answered for before request i had the block size of the card in the slot. */
  predicate SameSize(posted: seq<Posted>, i: nat)
    requires i < |posted|
  {
    var last := LastCard(posted[..i]);
    last.Some? && CardSize(last.value) == CardBlock(posted[i].job)
  }

  /** The block size does not matter: a single command by block number, or a request from byte address 0 on. */
  predicate Immune(p: Posted)
  {
    if p.job.hc then |p.xfers| == 1 else AtZero(p.job, p.job.lba)
  }

  /**
   A transfer is unharmed exactly if, for DMA, a READ CAPACITY has completed before it, and the last
   one was answered for a card of the same block size, or, on a card addressed by blocks, the
   transfer is a single command, or, by bytes, it begins at address 0.
   */
  lemma UnharmedIff(b: Board, posted: seq<Posted>, i: nat)
    requires i < |posted| && SizesUsed(posted) && Justified(b, posted[i]) && posted[i].xfers != []
    requires posted[i].status == Trapped ==> !posted[i].job.pio
    ensures Unharmed(posted[i]) <==>
            && (posted[i].job.pio || MeasuredBefore(posted, i))
            && (SameSize(posted, i) || Immune(posted[i]))
  {
    var p, last := posted[i], LastCard(posted[..i]);
    SizeKnownAt(posted, i);
    assert p.job.blksize == LastSize(posted[..i]) == SizeOf(last);
    hide MeasuredBefore, LastCard, Right, AtZero, CardOk, SizesUsed, CardSize, Follows, Before, Total;
    forall k | 0 <= k < |p.xfers|
      ensures Right(p.job, Before(p.job, p.xfers, k), p.xfers[k]) <==>
              || p.job.blksize == CardBlock(p.job)
              || (if p.job.hc then k == 0 else AtZero(p.job, p.job.lba))
    {
      AddressedRight(p.job, p.xfers, k, last);
    }
    assert Right(p.job, Before(p.job, p.xfers, 0), p.xfers[0]) || !p.job.hc;
    assert |p.xfers| == 1 || 0 <= 1 < |p.xfers|;
    var k := if |p.xfers| == 1 then 0 else 1;
    assert Unharmed(p) ==> Right(p.job, Before(p.job, p.xfers, k), p.xfers[k]);
  }

  // ----- PIO progress

  /** How far PIO has come: whole pieces before cur, then offset bytes; -1 when all is moved. */
  predicate MovedTo(sg: seq<Elem>, cur: nat, offset: int, moved: seq<nat>)
  {
    if offset == -1 then moved == Addresses(sg)
    else
      && cur < |sg| && 0 <= offset <= sg[cur].count
      && moved == Addresses(sg[..cur]) + Span(sg[cur].addr, offset)
  }

  /** n more bytes of piece cur. */
  lemma MovedMore(sg: seq<Elem>, cur: nat, offset: nat, moved: seq<nat>, n: nat)
    requires MovedTo(sg, cur, offset, moved) && offset + n <= sg[cur].count
    ensures MovedTo(sg, cur, offset + n, moved + Span(sg[cur].addr + offset, n))
  {
    var a := sg[cur].addr;
    assert Span(a, offset) + Span(a + offset, n) == Span(a, offset + n);
    Assoc(Addresses(sg[..cur]), Span(a, offset), Span(a + offset, n));
  }

  /** The end of piece cur is the beginning of the next one, or the end. */
  lemma MovedPiece(sg: seq<Elem>, cur: nat, moved: seq<nat>)
    requires cur < |sg| && MovedTo(sg, cur, sg[cur].count, moved)
    ensures if cur + 1 < |sg| then MovedTo(sg, cur + 1, 0, moved) else MovedTo(sg, cur + 1, -1, moved)
  {
    PrefixStep(sg, cur);
    if cur + 1 < |sg| {
      assert Span(sg[cur + 1].addr, 0) == [];
    } else {
      assert sg[..cur + 1] == sg;
    }
  }

  /** All bytes of the list have been moved. */
  predicate AllMoved(sg: seq<Elem>, moved: seq<nat>)
  {
    |moved| == Total(sg)
  }

  /** Between two interrupts the current piece is not finished, unless it is empty. */
  predicate PieceOpen(sg: seq<Elem>, cur: nat, offset: int)
  {
    offset == -1 || (cur < |sg| && (offset == 0 || offset < sg[cur].count))
  }

  /** A list that does not end in two empty pieces. */
  predicate EndsOnce(sg: seq<Elem>)
  {
    |sg| < 2 || 0 < sg[|sg| - 1].count || 0 < sg[|sg| - 2].count
  }

  lemma MovedCount(sg: seq<Elem>, cur: nat, offset: int, moved: seq<nat>)
    requires MovedTo(sg, cur, offset, moved)
    ensures offset == -1 ==> AllMoved(sg, moved)
    ensures offset != -1 && offset < sg[cur].count ==> !AllMoved(sg, moved)
    ensures offset != -1 ==> |moved| == Total(sg[..cur]) + offset
  {
    if offset != -1 {
      PrefixStep(sg, cur);
      PrefixTotal(sg, cur + 1);
    }
  }

  /** What is left from piece k on is nothing only if all those pieces are empty. */
  lemma {:induction false} RestEmpty(sg: seq<Elem>, k: nat)
    requires k <= |sg| && Total(sg[..k]) == Total(sg)
    ensures forall i :: k <= i < |sg| ==> sg[i].count == 0
    decreases |sg| - k
  {
    if k < |sg| {
      PrefixStep(sg, k);
      PrefixTotal(sg, k + 1);
      RestEmpty(sg, k + 1);
    }
  }

  /** When the last byte was that of the piece before cur, what follows are empty pieces. */
  lemma OnlyEmpty(sg: seq<Elem>, cur: nat, moved: seq<nat>)
    requires MovedTo(sg, cur, 0, moved) && AllMoved(sg, moved) && 0 < cur && 0 < sg[cur - 1].count
    ensures sg[cur].count == 0 && (cur + 1 == |sg| <==> EndsOnce(sg))
  {
    MovedCount(sg, cur, 0, moved);
    RestEmpty(sg, cur);
  }

  /**
   The round of the loop that ends it: count bytes of piece cur from offset on. If all has been
   moved by then, and what was moved last before was a whole piece, the end is reached exactly if
   the list does not end in two empty pieces.
   */
  lemma LastPiece(sg: seq<Elem>, cur: nat, offset: nat, moved: seq<nat>, count: nat)
    requires MovedTo(sg, cur, offset, moved) && offset + count <= sg[cur].count
    requires AllMoved(sg, moved) ==> offset == 0 && 0 < cur && 0 < sg[cur - 1].count
    requires count == 0 || (offset + count == sg[cur].count && cur + 1 == |sg|)
    ensures |moved| + count == Total(sg) ==>
      && offset + count == sg[cur].count
      && (cur + 1 == |sg| <==> EndsOnce(sg))
  {
    MovedCount(sg, cur, offset, moved);
    if AllMoved(sg, moved) {
      OnlyEmpty(sg, cur, moved);
    }
  }

  /** After a list that ends in two empty pieces, the driver waits for more although all is moved. */
  lemma StuckPieces(addr: nat)
    ensures var sg := [Elem(addr, 512), Elem(addr, 0), Elem(addr, 0)];
      && !EndsOnce(sg) && AllMoved(sg, Addresses(sg))
      && MovedTo(sg, 2, 0, Addresses(sg)) && PieceOpen(sg, 2, 0)
  {
    var sg := [Elem(addr, 512), Elem(addr, 0), Elem(addr, 0)];
    PrefixStep(sg, 2);
    assert sg[..3] == sg && Span(addr, 0) == [];
    assert Addresses(sg[..2]) + Span(addr, 0) == Addresses(sg);
  }

  lemma {:induction false} MovedBound(sg: seq<Elem>, cur: nat, offset: int, moved: seq<nat>)
    requires MovedTo(sg, cur, offset, moved)
    ensures |moved| <= Total(sg)
  {
    if offset != -1 {
      PrefixStep(sg, cur);
      PrefixTotal(sg, cur + 1);
    }
  }

  lemma MovedAll(sg: seq<Elem>, cur: nat, other: nat, moved: seq<nat>)
    requires MovedTo(sg, cur, -1, moved)
    ensures MovedTo(sg, other, -1, moved)
  {
  }

  lemma MovedWithin(sg: seq<Elem>, cur: nat, offset: int, moved: seq<nat>)
    requires MovedTo(sg, cur, offset, moved) && offset != -1
    ensures cur < |sg| && 0 <= offset <= sg[cur].count
  {
  }

  lemma MovedNothing(sg: seq<Elem>)
    requires 0 < Total(sg)
    ensures MovedTo(sg, 0, 0, []) && PieceOpen(sg, 0, 0) && !AllMoved(sg, [])
  {
  }

  /** Whether CMD12 is not needed, due, under way, or sent by the host. */
  datatype StopState = NoStop | Pending | Issued | AutoStop

  /** The stop state and the monitor agree. */
  predicate StopOk(stop: StopState, retry: nat, w: Watch)
  {
    match stop
    case NoStop => w == Free
    case AutoStop => w == Free
    case Pending => w == NeedStop
    case Issued => w == Stopping(retry + 1) && retry < MAX_STOPS
  }
}
