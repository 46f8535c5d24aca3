/**
 What the SMC9118 driver writes into the transmit data FIFO for one packet, and what the chip reads
 out of it: two command words per fragment, then the fragment's bytes in aligned 32-bit words.
 */
module Smc9118Encoder {
  import opened Common

  type Memory = nat -> Byte

  const LAST_SEG := 0x1000
  const FIRST_SEG := 0x2000
  const IOC := 0x8000_0000
  const PAD_DISABLE := 0x1000
  const CRC_DISABLE := 0x2000

  /**
   How many lengths the fields for buffer size and packet length tell apart: a power of two that ends
   below the first flag and holds the shortest Ethernet frame.
   */
  type Limit = n: nat | 64 <= n <= LAST_SEG && LAST_SEG % n == 0 witness LAST_SEG

  /** The chip's, any one of these. */
  const SIZE_LIMIT: Limit

  datatype Iov = Iov(addr: nat, len: nat)

  /** Distance of the start of a fragment from the last 32-bit boundary. */
  function Offset(v: Iov): nat
  {
    v.addr % 4
  }

  function Bytes(mem: Memory, v: Iov): (s: seq<Byte>)
    ensures |s| == v.len
  {
    seq(v.len, i requires 0 <= i < v.len => mem(v.addr + i))
  }

  function FrameBytes(mem: Memory, frags: seq<Iov>): seq<Byte>
  {
    if frags == [] then [] else Bytes(mem, frags[0]) + FrameBytes(mem, frags[1..])
  }

  function TotalLength(frags: seq<Iov>): nat
  {
    if frags == [] then 0 else frags[0].len + TotalLength(frags[1..])
  }

  // ----- Words

  /** Four bytes as a little-endian word. */
  function Word(a: Byte, b: Byte, c: Byte, d: Byte): nat
  {
    a + 0x100 * b + 0x1_0000 * c + 0x100_0000 * d
  }

  function Unpacked(w: nat): (s: seq<Byte>)
    ensures |s| == 4
  {
    [w % 0x100, w / 0x100 % 0x100, w / 0x1_0000 % 0x100, w / 0x100_0000 % 0x100]
  }

  function UnpackAll(words: seq<nat>): (s: seq<Byte>)
    ensures |s| == 4 * |words|
  {
    if words == [] then [] else Unpacked(words[0]) + UnpackAll(words[1..])
  }

  lemma LowByte(a: Byte, x: nat)
    ensures (a + 0x100 * x) % 0x100 == a && (a + 0x100 * x) / 0x100 == x
  {
  }

  lemma UnpackWord(a: Byte, b: Byte, c: Byte, d: Byte)
    ensures Unpacked(Word(a, b, c, d)) == [a, b, c, d]
  {
    var w := Word(a, b, c, d);
    LowByte(a, b + 0x100 * c + 0x1_0000 * d);
    LowByte(b, c + 0x100 * d);
    LowByte(c, d);
    assert w / 0x1_0000 == w / 0x100 / 0x100 && w / 0x100_0000 == w / 0x1_0000 / 0x100;
  }

  /** w | bit, for a power of two. */
  function Or(w: nat, bit: nat): nat
    requires 0 < bit
  {
    if w / bit % 2 == 1 then w else w + bit
  }

  // ----- Encoding

  /** TX command A: buffer size, flags and start offset. */
  function CommandA(len: nat, first: bool, last: bool, off: nat): nat
  {
    var w := if first then Or(len, FIRST_SEG) else len;
    var x := if last then Or(Or(w, IOC), LAST_SEG) else w;
    var y := if off % 2 == 1 then Or(x, 0x1_0000) else x;
    if off / 2 % 2 == 1 then Or(y, 0x2_0000) else y
  }

  /** How many data words hold the start offset and the bytes. */
  function WordCount(v: Iov): nat
  {
    (Offset(v) + v.len + 3) / 4
  }

  /** Byte j counted from the boundary before the fragment: zero up to its start, then memory. */
  function ByteAt(mem: Memory, v: Iov, j: nat): Byte
  {
    if j < Offset(v) then 0 else mem(v.addr - Offset(v) + j)
  }

  function WordAt(mem: Memory, v: Iov, k: nat): nat
  {
    Word(ByteAt(mem, v, 4 * k), ByteAt(mem, v, 4 * k + 1), ByteAt(mem, v, 4 * k + 2), ByteAt(mem, v, 4 * k + 3))
  }

  function DataWords(mem: Memory, v: Iov, from: nat): (s: seq<nat>)
    requires from <= WordCount(v)
    ensures |s| == WordCount(v) - from
    decreases WordCount(v) - from
  {
    if from == WordCount(v) then [] else [WordAt(mem, v, from)] + DataWords(mem, v, from + 1)
  }

  function EncodeFragment(mem: Memory, v: Iov, first: bool, last: bool, framelen: nat): seq<nat>
  {
    [CommandA(v.len, first, last, Offset(v)), framelen] + DataWords(mem, v, 0)
  }

  /** Fragments k, k + 1, ... of a packet. */
  function EncodeFrom(mem: Memory, frags: seq<Iov>, k: nat, framelen: nat): seq<nat>
    requires k <= |frags|
    decreases |frags| - k
  {
    if k == |frags| then []
    else EncodeFragment(mem, frags[k], k == 0, k == |frags| - 1, framelen) + EncodeFrom(mem, frags, k + 1, framelen)
  }

  // ----- Decoding

  datatype Command = Command(size: nat, first: bool, last: bool, ioc: bool, off: nat)

  function DecodeCommand(w: nat): Command
  {
    Command(w % SIZE_LIMIT, w / FIRST_SEG % 2 == 1, w / LAST_SEG % 2 == 1, w / IOC % 2 == 1, w / 0x1_0000 % 32)
  }

  /** TX command B: the packet length, whether padding and CRC are turned off, and a tag. */
  datatype LengthCommand = LengthCommand(length: nat, padDisable: bool, crcDisable: bool, tag: nat)

  function DecodeLength(w: nat): LengthCommand
  {
    LengthCommand(w % SIZE_LIMIT, w / PAD_DISABLE % 2 == 1, w / CRC_DISABLE % 2 == 1, w / 0x1_0000)
  }

  /** A bare length: padding and CRC as usual, no tag. */
  function Plain(framelen: nat): LengthCommand
  {
    LengthCommand(framelen, false, false, 0)
  }

  /** The driver writes a bare length as command B, which means that length exactly when it fits in its field. */
  lemma LengthRoundTrip(framelen: nat)
    ensures DecodeLength(framelen) == Plain(framelen) <==> framelen < SIZE_LIMIT
  {
    if framelen < SIZE_LIMIT {
      FieldIgnores(framelen, 0);
    } else {
      ReadsShort(framelen);
    }
  }

  /** A command word means what it was made from exactly when the length fits in its field. */
  lemma CommandRoundTrip(len: nat, first: bool, last: bool, off: nat)
    requires off < 4
    ensures DecodeCommand(CommandA(len, first, last, off)) == Command(len, first, last, last, off) <==> len < SIZE_LIMIT
  {
    if len < SIZE_LIMIT {
      var f, l := if first then 1 else 0, if last then 1 else 0;
      CommandSum(len, first, last, off);
      SumFields(len, f, l, off);
    }
  }

  /** The fields of a command word do not overlap, so or-ing them together adds them up. */
  lemma CommandSum(len: nat, first: bool, last: bool, off: nat)
    requires off < 4 && len < SIZE_LIMIT
    ensures CommandA(len, first, last, off) == Sum(len, if first then 1 else 0, if last then 1 else 0, off)
  {
    var f, l := if first then 1 else 0, if last then 1 else 0;
    var w := if first then Or(len, FIRST_SEG) else len;
    assert w == len + 0x2000 * f;
    var i := if last then Or(w, IOC) else w;
    assert i == w + IOC * l;
    assert i / 0x1000 == 2 * f + 0x8_0000 * l;
    var x := if last then Or(i, LAST_SEG) else i;
    assert x == i + 0x1000 * l;
    assert x / 0x1_0000 == 0x8000 * l;
    var y := if off % 2 == 1 then Or(x, 0x1_0000) else x;
    assert y == x + 0x1_0000 * (off % 2);
    assert y / 0x2_0000 == 0x4000 * l;
  }

  function Sum(len: nat, f: nat, l: nat, off: nat): nat
  {
    len + 0x2000 * f + 0x8000_1000 * l + 0x1_0000 * off
  }

  lemma SumFields(len: nat, f: nat, l: nat, off: nat)
    requires off < 4 && len < SIZE_LIMIT && f < 2 && l < 2
    ensures DecodeCommand(Sum(len, f, l, off)) == Command(len, f == 1, l == 1, l == 1, off)
  {
    var w := Sum(len, f, l, off);
    assert w / 0x1000 == l + 2 * f + 16 * off + 0x8_0000 * l;
    assert w / 0x2000 == f + 8 * off + 0x4_0000 * l;
    assert w / 0x1_0000 == off + 0x8000 * l;
    assert w / IOC == l;
    FieldIgnores(len, 2 * f + 0x8_0001 * l + 16 * off);
  }

  /** The remainder is the one number below m that x exceeds by a multiple of m. */
  lemma Remainder(x: nat, m: nat, q: nat, r: nat)
    requires r < m && x == q * m + r
    ensures x % m == r
  {
    var q', r' := x / m, x % m;
    assert x == q' * m + r';
    if q < q' {
      AtLeast(q + 1, q', m);
    } else if q' < q {
      AtLeast(q' + 1, q, m);
    }
  }

  lemma AtLeast(a: nat, b: nat, m: nat)
    requires a <= b
    ensures a * m <= b * m
  {
  }

  /** Flags are multiples of 4096, so they do not show in a field that ends below. */
  lemma FieldIgnores(len: nat, q: nat)
    ensures (len + 0x1000 * q) % SIZE_LIMIT == len % SIZE_LIMIT
    ensures len < SIZE_LIMIT ==> len % SIZE_LIMIT == len
  {
    var m: nat := SIZE_LIMIT;
    var k, n, r := 0x1000 / m, len / m, len % m;
    assert len == n * m + r && 0x1000 == k * m;
    Multiples(n, k, q, m);
    Remainder(len + 0x1000 * q, m, n + k * q, r);
    if len < m {
      Remainder(len, m, 0, len);
    }
  }

  lemma Multiples(n: nat, k: nat, q: nat, m: nat)
    ensures (n + k * q) * m == n * m + k * m * q
  {
  }

  /** A length that does not fit is read as one that is shorter by the limit at least. */
  lemma ReadsShort(len: nat)
    requires SIZE_LIMIT <= len
    ensures len % SIZE_LIMIT + SIZE_LIMIT <= len
  {
    var m: nat := SIZE_LIMIT;
    assert len == len / m * m + len % m;
    if 0 < len / m {
      AtLeast(1, len / m, m);
    }
  }

  /** A received frame: its bytes, command B, which every buffer repeats, and the words left. */
  datatype Frame = Frame(bytes: seq<Byte>, b: LengthCommand, rest: seq<nat>)

  /** One frame read from the FIFO: FIRST_SEG on its first buffer only, up to LAST_SEG. */
  function Decode(words: seq<nat>, first: bool): Option<Frame>
    decreases |words|
  {
    if |words| < 2 then None
    else
      var c, b := DecodeCommand(words[0]), DecodeLength(words[1]);
      var n := (c.off + c.size + 3) / 4;
      if c.first != first || c.last != c.ioc || |words| < 2 + n then None
      else
        var bytes := UnpackAll(words[2..2 + n])[c.off..c.off + c.size];
        var rest := words[2 + n..];
        if c.last then Some(Frame(bytes, b, rest))
        else
          var more := Decode(rest, false);
          if more.None? || more.value.b != b then None
          else Some(Frame(bytes + more.value.bytes, b, more.value.rest))
  }

  lemma DataWordAt(mem: Memory, v: Iov, from: nat, k: nat)
    requires from + k < WordCount(v)
    ensures DataWords(mem, v, from)[k] == WordAt(mem, v, from + k)
    decreases k
  {
    hide WordAt, WordCount;
    if 0 < k {
      DataWordAt(mem, v, from + 1, k - 1);
    }
  }

  /**
   The words of a fragment: its length, bit 13 on the first fragment, bits 31 and 12 on the last, and from
   bit 16 on its offset from the boundary before it; the packet's length; and as many words as it
   touches, low byte first, with zeros before its beginning.
   */
  lemma FragmentWords(mem: Memory, v: Iov, first: bool, last: bool, framelen: nat, k: nat)
    requires v.len < SIZE_LIMIT && k < (v.addr % 4 + v.len + 3) / 4
    ensures var words, a, p := EncodeFragment(mem, v, first, last, framelen), v.addr - v.addr % 4, v.addr % 4;
      && |words| == 2 + (v.addr % 4 + v.len + 3) / 4
      && words[0] == v.len + (if first then 0x2000 else 0) + (if last then 0x8000_1000 else 0) + 0x1_0000 * p
      && words[1] == framelen
      && words[2 + k] == (if 4 * k < p then 0 else mem(a + 4 * k))
                         + 0x100 * (if 4 * k + 1 < p then 0 else mem(a + 4 * k + 1))
                         + 0x1_0000 * (if 4 * k + 2 < p then 0 else mem(a + 4 * k + 2))
                         + 0x100_0000 * (if 4 * k + 3 < p then 0 else mem(a + 4 * k + 3))
  {
    CommandSum(v.len, first, last, Offset(v));
    DataWordAt(mem, v, 0, k);
    hide CommandA, DataWords;
  }

  /** Byte j of the unpacked data words. */
  lemma {:induction false} UnpackedAt(mem: Memory, v: Iov, from: nat, j: nat)
    requires from <= WordCount(v) && j < 4 * (WordCount(v) - from)
    ensures UnpackAll(DataWords(mem, v, from))[j] == ByteAt(mem, v, 4 * from + j)
    decreases WordCount(v) - from
  {
    hide Word, Unpacked, ByteAt, WordCount;
    var words := DataWords(mem, v, from);
    assert words[0] == WordAt(mem, v, from) && words[1..] == DataWords(mem, v, from + 1);
    if 4 <= j {
      UnpackedAt(mem, v, from + 1, j - 4);
      assert 4 * (from + 1) + (j - 4) == 4 * from + j;
    } else {
      UnpackWord(ByteAt(mem, v, 4 * from), ByteAt(mem, v, 4 * from + 1), ByteAt(mem, v, 4 * from + 2),
                 ByteAt(mem, v, 4 * from + 3));
    }
  }

  /** Skipping the start offset and taking the buffer size gives the fragment's bytes, for every alignment. */
  lemma FragmentBytes(mem: Memory, v: Iov)
    ensures Offset(v) + v.len <= 4 * WordCount(v)
    ensures UnpackAll(DataWords(mem, v, 0))[Offset(v)..Offset(v) + v.len] == Bytes(mem, v)
  {
    var all := UnpackAll(DataWords(mem, v, 0));
    forall i | 0 <= i < v.len
      ensures all[Offset(v) + i] == Bytes(mem, v)[i]
    {
      UnpackedAt(mem, v, 0, Offset(v) + i);
    }
  }

  predicate Fits(frags: seq<Iov>)
  {
    forall i :: 0 <= i < |frags| ==> frags[i].len < SIZE_LIMIT
  }

  /**
   Decoding undoes encoding, for any number of fragments with any lengths that fit the size field
   and any start alignments.
   */
  lemma {:induction false} DecodeEncode(mem: Memory, frags: seq<Iov>, k: nat, framelen: nat, rest: seq<nat>)
    requires k < |frags| && Fits(frags)
    ensures Decode(EncodeFrom(mem, frags, k, framelen) + rest, k == 0)
         == Some(Frame(FrameBytes(mem, frags[k..]), DecodeLength(framelen), rest))
    decreases |frags| - k
  {
    hide CommandA, DecodeCommand, DecodeLength, DataWords, UnpackAll, Bytes, Decode, FrameBytes, EncodeFrom;
    var v, last := frags[k], k == |frags| - 1;
    var more := EncodeFrom(mem, frags, k + 1, framelen) + rest;
    EncodeStep(mem, frags, k, framelen, rest);
    CommandRoundTrip(v.len, k == 0, last, Offset(v));
    FragmentBytes(mem, v);
    FrameStep(mem, frags, k);
    DecodeStep(CommandA(v.len, k == 0, last, Offset(v)), framelen, DataWords(mem, v, 0), more, k == 0);
    if last {
      EncodeNone(mem, frags, framelen);
      assert [] + rest == rest;
    } else {
      DecodeEncode(mem, frags, k + 1, framelen, rest);
    }
  }

  lemma EncodeStep(mem: Memory, frags: seq<Iov>, k: nat, framelen: nat, rest: seq<nat>)
    requires k < |frags|
    ensures EncodeFrom(mem, frags, k, framelen) + rest
         == [CommandA(frags[k].len, k == 0, k == |frags| - 1, Offset(frags[k])), framelen] + DataWords(mem, frags[k], 0)
            + (EncodeFrom(mem, frags, k + 1, framelen) + rest)
  {
    Assoc(EncodeFragment(mem, frags[k], k == 0, k == |frags| - 1, framelen),
          EncodeFrom(mem, frags, k + 1, framelen), rest);
  }

  lemma EncodeNone(mem: Memory, frags: seq<Iov>, framelen: nat)
    ensures EncodeFrom(mem, frags, |frags|, framelen) == []
  {
  }

  lemma FrameStep(mem: Memory, frags: seq<Iov>, k: nat)
    requires k < |frags|
    ensures FrameBytes(mem, frags[k..]) == Bytes(mem, frags[k]) + FrameBytes(mem, frags[k + 1..])
    ensures k == |frags| - 1 ==> FrameBytes(mem, frags[k..]) == Bytes(mem, frags[k])
  {
    assert frags[k..][1..] == frags[k + 1..];
    if k == |frags| - 1 {
      assert FrameBytes(mem, frags[k + 1..]) == [];
      assert Bytes(mem, frags[k]) + [] == Bytes(mem, frags[k]);
    }
  }

  /** One buffer read from the FIFO. */
  lemma DecodeStep(w: nat, framelen: nat, data: seq<nat>, more: seq<nat>, first: bool)
    requires var c := DecodeCommand(w);
      c.first == first && c.last == c.ioc && |data| == (c.off + c.size + 3) / 4
    ensures var c, d := DecodeCommand(w), Decode([w, framelen] + data + more, first);
      var bytes := UnpackAll(data)[c.off..c.off + c.size];
      var b := DecodeLength(framelen);
      if c.last then d == Some(Frame(bytes, b, more))
      else
        var e := Decode(more, false);
        d == if e.None? || e.value.b != b then None else Some(Frame(bytes + e.value.bytes, b, e.value.rest))
  {
    hide DecodeCommand, DecodeLength, UnpackAll;
    var words := [w, framelen] + data + more;
    assert words[2..2 + |data|] == data && words[2 + |data|..] == more;
  }

  // ----- What does not fit is misread

  /** Or-ing a flag in leaves the size field alone. */
  lemma OrKeepsSize(w: nat, bit: nat)
    requires bit == FIRST_SEG || bit == LAST_SEG || bit == IOC || bit == 0x1_0000 || bit == 0x2_0000
    ensures Or(w, bit) % SIZE_LIMIT == w % SIZE_LIMIT
  {
    FieldIgnores(w, bit / 0x1000);
  }

  /** The size field of a command word is the length modulo the limit, whatever the length. */
  lemma CommandSize(len: nat, first: bool, last: bool, off: nat)
    ensures DecodeCommand(CommandA(len, first, last, off)).size == len % SIZE_LIMIT
  {
    hide Or;
    var w := if first then Or(len, FIRST_SEG) else len;
    var x := if last then Or(Or(w, IOC), LAST_SEG) else w;
    var y := if off % 2 == 1 then Or(x, 0x1_0000) else x;
    OrKeepsSize(len, FIRST_SEG);
    OrKeepsSize(w, IOC);
    OrKeepsSize(Or(w, IOC), LAST_SEG);
    OrKeepsSize(x, 0x1_0000);
    OrKeepsSize(y, 0x2_0000);
  }

  lemma OrOffset(w: nat)
    ensures Or(w, 0x1_0000) / 0x1_0000 % 2 == 1
    ensures Or(w, 0x2_0000) / 0x1_0000 % 2 == w / 0x1_0000 % 2 && 2 <= Or(w, 0x2_0000) / 0x1_0000 % 4
  {
    var q := w / 0x1_0000;
    assert (w + 0x1_0000) / 0x1_0000 == q + 1;
    assert w / 0x2_0000 == q / 2 && (w + 0x2_0000) / 0x1_0000 == q + 2;
  }

  /** A nonzero start offset shows in the command word, whatever the length. */
  lemma OffsetFlag(len: nat, first: bool, last: bool, off: nat)
    requires 0 < off < 4
    ensures DecodeCommand(CommandA(len, first, last, off)).off != 0
  {
    hide Or;
    var w := if first then Or(len, FIRST_SEG) else len;
    var x := if last then Or(Or(w, IOC), LAST_SEG) else w;
    var y := if off % 2 == 1 then Or(x, 0x1_0000) else x;
    OrOffset(x);
    OrOffset(y);
    NotMultiple(CommandA(len, first, last, off) / 0x1_0000);
  }

  lemma NotMultiple(q: nat)
    ensures q % 2 == 1 || 2 <= q % 4 ==> q % 32 != 0
  {
  }

  /** Memory full of ones, whose words look like first segments. */
  function Ones(a: nat): Byte
  {
    255
  }

  /** A word of ones is never taken for the command of a further buffer. */
  lemma OnesStopDecoding(words: seq<nat>)
    requires 0 < |words| && words[0] == 0xFFFF_FFFF
    ensures Decode(words, false) == None
  {
    assert DecodeCommand(0xFFFF_FFFF).first;
    hide DecodeCommand, DecodeLength, UnpackAll;
  }

  /** The length read for a long buffer ends before its last data word. */
  lemma ShortCount(v: Iov, c: Command)
    requires SIZE_LIMIT <= v.len && c.size == v.len % SIZE_LIMIT && c.off < 32
    ensures (c.off + c.size + 3) / 4 < WordCount(v) && c.size < v.len
  {
    ReadsShort(v.len);
  }

  lemma OffsetField(w: nat)
    ensures DecodeCommand(w).off < 32
  {
  }

  /** Every whole data word is ones, and so is the first one unless there is a start offset. */
  lemma OnesWord(v: Iov, n: nat)
    requires 0 < n || Offset(v) == 0
    ensures WordAt(Ones, v, n) == 0xFFFF_FFFF
  {
  }

  /** A buffer whose length does not fit in its field is read as a shorter one, and reading does not get past it. */
  lemma LongBuffer(v: Iov, framelen: nat, more: seq<nat>, first: bool, last: bool)
    requires SIZE_LIMIT <= v.len
    ensures var d := Decode(EncodeFragment(Ones, v, first, last, framelen) + more, first);
      d.None? || |d.value.bytes| < v.len
  {
    hide CommandA, DataWords, UnpackAll, DecodeLength, DecodeCommand, WordAt, WordCount, Decode;
    var w, data := CommandA(v.len, first, last, Offset(v)), DataWords(Ones, v, 0);
    var c := DecodeCommand(w);
    var n := (c.off + c.size + 3) / 4;
    CommandSize(v.len, first, last, Offset(v));
    if Offset(v) != 0 {
      OffsetFlag(v.len, first, last, Offset(v));
    }
    OffsetField(w);
    ShortCount(v, c);
    DataWordAt(Ones, v, 0, n);
    OnesWord(v, n);
    ReadShort(w, framelen, data, more, first, n);
  }

  /** Reading a buffer that ends before word n of the data, which is ones. */
  lemma ReadShort(w: nat, framelen: nat, data: seq<nat>, more: seq<nat>, first: bool, n: nat)
    requires var c := DecodeCommand(w);
      n == (c.off + c.size + 3) / 4 && n < |data| && data[n] == 0xFFFF_FFFF
    ensures var d := Decode([w, framelen] + data + more, first);
      d.None? || |d.value.bytes| == DecodeCommand(w).size
  {
    hide DecodeLength, UnpackAll;
    var words := [w, framelen] + data + more;
    assert words[2 + n..][0] == data[n];
    OnesStopDecoding(words[2 + n..]);
  }

  lemma FrameLength(mem: Memory, frags: seq<Iov>)
    ensures |FrameBytes(mem, frags)| == TotalLength(frags)
  {
  }

  /** A packet with a buffer that does not fit is read short, or not at all, when memory is full of ones. */
  lemma {:induction false} LongPacket(frags: seq<Iov>, k: nat, framelen: nat)
    requires k < |frags| && !Fits(frags[k..])
    ensures var d := Decode(EncodeFrom(Ones, frags, k, framelen), k == 0);
      d.None? || |d.value.bytes| < TotalLength(frags[k..])
    decreases |frags| - k
  {
    hide CommandA, DecodeCommand, DecodeLength, DataWords, UnpackAll, Bytes, Decode, EncodeFrom, TotalLength;
    var v, last := frags[k], k == |frags| - 1;
    var more := EncodeFrom(Ones, frags, k + 1, framelen);
    EncodeStep(Ones, frags, k, framelen, []);
    LengthStep(frags, k);
    assert EncodeFrom(Ones, frags, k, framelen) + [] == EncodeFrom(Ones, frags, k, framelen) && more + [] == more;
    if SIZE_LIMIT <= v.len {
      LongBuffer(v, framelen, more, k == 0, last);
    } else {
      FitsLater(frags, k);
      CommandRoundTrip(v.len, k == 0, last, Offset(v));
      FragmentBytes(Ones, v);
      DecodeStep(CommandA(v.len, k == 0, last, Offset(v)), framelen, DataWords(Ones, v, 0), more, k == 0);
      LongPacket(frags, k + 1, framelen);
    }
  }

  lemma LengthStep(frags: seq<Iov>, k: nat)
    requires k < |frags|
    ensures TotalLength(frags[k..]) == frags[k].len + TotalLength(frags[k + 1..])
  {
    assert frags[k..][1..] == frags[k + 1..];
  }

  lemma FitsLater(frags: seq<Iov>, k: nat)
    requires k < |frags| && !Fits(frags[k..]) && frags[k].len < SIZE_LIMIT
    ensures k + 1 < |frags| && !Fits(frags[k + 1..])
  {
    var i :| 0 <= i < |frags[k..]| && SIZE_LIMIT <= frags[k..][i].len;
    assert frags[k + 1..][i - 1] == frags[k..][i];
  }

  /** What the chip reads is the packet, with its length and no other option, for any memory and whatever follows. */
  ghost predicate ReadBack(frags: seq<Iov>, framelen: nat)
  {
    forall mem: Memory, rest: seq<nat> ::
      Decode(EncodeFrom(mem, frags, 0, framelen) + rest, true)
      == Some(Frame(FrameBytes(mem, frags), Plain(framelen), rest))
  }

  /** A packet is read back exactly when every fragment and the packet length fit in their fields. */
  lemma PacketRoundTrip(frags: seq<Iov>, framelen: nat)
    requires frags != []
    ensures ReadBack(frags, framelen) <==> Fits(frags) && framelen < SIZE_LIMIT
  {
    assert frags[0..] == frags;
    LengthRoundTrip(framelen);
    hide Decode, EncodeFrom, FrameBytes, DecodeLength;
    var words := EncodeFrom(Ones, frags, 0, framelen);
    assert words + [] == words;
    if Fits(frags) {
      forall mem: Memory, rest: seq<nat>
        ensures Decode(EncodeFrom(mem, frags, 0, framelen) + rest, true)
             == Some(Frame(FrameBytes(mem, frags), DecodeLength(framelen), rest))
      {
        DecodeEncode(mem, frags, 0, framelen, rest);
      }
      assert Decode(words + [], true) == Some(Frame(FrameBytes(Ones, frags), DecodeLength(framelen), []));
    } else {
      LongPacket(frags, 0, framelen);
      FrameLength(Ones, frags);
      assert Decode(words + [], true) != Some(Frame(FrameBytes(Ones, frags), Plain(framelen), []));
    }
  }

  /** A length of 4096 sets the LAST_SEG bit, however wide the field below it. */
  lemma LongBufferMisread()
    ensures DecodeCommand(CommandA(LAST_SEG, false, false, 0)) == Command(0, false, true, false, 0)
  {
    FieldIgnores(0, 1);
  }

  // ----- Space in the FIFO

  /** All words of a packet take no more bytes than the check before sending asks for. */
  lemma {:induction false} SpaceEnough(mem: Memory, frags: seq<Iov>, k: nat, framelen: nat)
    requires k <= |frags|
    ensures 4 * |EncodeFrom(mem, frags, k, framelen)| <= TotalLength(frags[k..]) + 16 * (|frags| - k)
    decreases |frags| - k
  {
    if k < |frags| {
      SpaceEnough(mem, frags, k + 1, framelen);
      assert frags[k..][1..] == frags[k + 1..];
      FragmentSpace(frags[k]);
    }
  }

  lemma FragmentSpace(v: Iov)
    ensures 4 * (2 + WordCount(v)) <= v.len + 16
  {
  }
}
