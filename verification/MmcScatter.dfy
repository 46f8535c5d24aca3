/**
 Scatter/gather lists and the bounce buffer of the MMC driver's DMA mode: writes gather the
 caller's pieces into the buffer, reads scatter the buffer back.
 */
module MmcScatter {
  import opened Common

  const BOUNCE := 65536

  datatype Elem = Elem(addr: nat, count: nat)

  /** The addresses addr, addr + 1, ... of n bytes. */
  function Span(addr: nat, n: nat): (s: seq<nat>)
    ensures |s| == n
  {
    seq(n, i requires 0 <= i < n => addr + i)
  }

  /** The addresses of a list's bytes, in order. */
  function Addresses(sg: seq<Elem>): seq<nat>
  {
    if sg == [] then [] else Addresses(sg[..|sg| - 1]) + Span(sg[|sg| - 1].addr, sg[|sg| - 1].count)
  }

  function Total(sg: seq<Elem>): (n: nat)
    ensures n == |Addresses(sg)|
  {
    if sg == [] then 0 else Total(sg[..|sg| - 1]) + sg[|sg| - 1].count
  }

  predicate Inside(sg: seq<Elem>, size: nat)
  {
    forall i :: 0 <= i < |sg| ==> sg[i].addr + sg[i].count <= size
  }

  lemma {:induction false} AddressesInside(sg: seq<Elem>, size: nat)
    requires Inside(sg, size)
    ensures forall i :: 0 <= i < |Addresses(sg)| ==> Addresses(sg)[i] < size
  {
    if sg != [] {
      AddressesInside(sg[..|sg| - 1], size);
    }
  }

  lemma PrefixStep(sg: seq<Elem>, k: nat)
    requires k < |sg|
    ensures Addresses(sg[..k + 1]) == Addresses(sg[..k]) + Span(sg[k].addr, sg[k].count)
    ensures Total(sg[..k + 1]) == Total(sg[..k]) + sg[k].count
  {
    assert sg[..k + 1][..k] == sg[..k];
  }

  lemma {:induction false} PrefixTotal(sg: seq<Elem>, k: nat)
    requires k <= |sg|
    ensures Total(sg[..k]) <= Total(sg)
    decreases |sg| - k
  {
    if k < |sg| {
      PrefixStep(sg, k);
      PrefixTotal(sg, k + 1);
    } else {
      assert sg[..k] == sg;
    }
  }

  /** The bytes at the given addresses. */
  function At(mem: seq<Byte>, addrs: seq<nat>): (s: seq<Byte>)
    requires forall i :: 0 <= i < |addrs| ==> addrs[i] < |mem|
    ensures |s| == |addrs|
  {
    seq(|addrs|, i requires 0 <= i < |addrs| => mem[addrs[i]])
  }

  /** The bytes a list describes. */
  function Bytes(mem: seq<Byte>, sg: seq<Elem>): (s: seq<Byte>)
    requires Inside(sg, |mem|)
    ensures |s| == Total(sg)
  {
    AddressesInside(sg, |mem|);
    At(mem, Addresses(sg))
  }

  lemma BytesStep(mem: seq<Byte>, sg: seq<Elem>, k: nat)
    requires Inside(sg, |mem|) && k < |sg|
    ensures Bytes(mem, sg[..k + 1]) == Bytes(mem, sg[..k]) + mem[sg[k].addr..sg[k].addr + sg[k].count]
  {
    PrefixStep(sg, k);
    AddressesInside(sg[..k], |mem|);
    AddressesInside(sg[..k + 1], |mem|);
  }

  /** Memory after storing data at address a. */
  function Stored(mem: seq<Byte>, a: nat, data: seq<Byte>): (m: seq<Byte>)
    requires a + |data| <= |mem|
    ensures |m| == |mem|
  {
    mem[..a] + data + mem[a + |data|..]
  }

  /** Memory after the pieces of a list have been filled from data, first to last. */
  function Scattered(mem: seq<Byte>, sg: seq<Elem>, data: seq<Byte>): (m: seq<Byte>)
    requires Inside(sg, |mem|) && |data| == Total(sg)
    ensures |m| == |mem|
  {
    if sg == [] then mem
    else
      var last := sg[|sg| - 1];
      var n := |data| - last.count;
      Stored(Scattered(mem, sg[..|sg| - 1], data[..n]), last.addr, data[n..])
  }

  lemma SpanHas(addr: nat, n: nat, a: nat)
    ensures a in Span(addr, n) <==> addr <= a < addr + n
  {
    if addr <= a < addr + n {
      assert Span(addr, n)[a - addr] == a;
    }
  }

  predicate Distinct(s: seq<nat>)
  {
    forall i, j :: 0 <= i < j < |s| ==> s[i] != s[j]
  }

  /** Bytes outside the list keep their values. */
  lemma {:induction false} ScatteredElsewhere(mem: seq<Byte>, sg: seq<Elem>, data: seq<Byte>, a: nat)
    requires Inside(sg, |mem|) && |data| == Total(sg) && a < |mem| && a !in Addresses(sg)
    ensures Scattered(mem, sg, data)[a] == mem[a]
  {
    if sg != [] {
      var last := sg[|sg| - 1];
      assert a !in Addresses(sg[..|sg| - 1]) + Span(last.addr, last.count);
      SpanHas(last.addr, last.count, a);
      ScatteredElsewhere(mem, sg[..|sg| - 1], data[..|data| - last.count], a);
    }
  }

  /** When no byte is listed twice, the list describes exactly the data scattered into it. */
  lemma {:induction false} ScatterExact(mem: seq<Byte>, sg: seq<Elem>, data: seq<Byte>)
    requires Inside(sg, |mem|) && |data| == Total(sg) && Distinct(Addresses(sg))
    ensures Bytes(Scattered(mem, sg, data), sg) == data
  {
    if sg != [] {
      var init, last := sg[..|sg| - 1], sg[|sg| - 1];
      var n := |data| - last.count;
      var before := Scattered(mem, init, data[..n]);
      var after := Scattered(mem, sg, data);
      var all := Addresses(sg);
      assert all == Addresses(init) + Span(last.addr, last.count) && all[..n] == Addresses(init);
      ScatterExact(mem, init, data[..n]);
      AddressesInside(sg, |mem|);
      AddressesInside(init, |mem|);
      assert after == Stored(before, last.addr, data[n..]);
      forall i | 0 <= i < |data|
        ensures after[all[i]] == data[i]
      {
        if i < n {
          Apart(all, n, last, i);
          assert after[all[i]] == before[all[i]] == Bytes(before, init)[i];
        } else {
          assert all[i] == last.addr + (i - n);
        }
      }
    }
  }

  lemma Apart(all: seq<nat>, n: nat, last: Elem, i: nat)
    requires |all| == n + last.count && all[n..] == Span(last.addr, last.count) && i < n
    ensures last.addr <= all[i] < last.addr + last.count ==> !Distinct(all)
  {
    if last.addr <= all[i] < last.addr + last.count {
      var j := all[i] - last.addr;
      assert all[n..][j] == all[n + j] == all[i];
    }
  }

  /** What was gathered, scattered into the same list, changes nothing. */
  lemma {:induction false} ScatterGathered(mem: seq<Byte>, sg: seq<Elem>)
    requires Inside(sg, |mem|)
    ensures Scattered(mem, sg, Bytes(mem, sg)) == mem
  {
    if sg != [] {
      var k := |sg| - 1;
      BytesStep(mem, sg, k);
      assert sg[..k + 1] == sg;
      ScatterGathered(mem, sg[..k]);
    }
  }

  lemma StoredAt(mem: seq<Byte>, a: nat, data: seq<Byte>)
    requires a + |data| <= |mem|
    ensures Stored(mem, a, data)[..a + |data|] == mem[..a] + data
  {
  }

  lemma ScatteredStep(mem: seq<Byte>, sg: seq<Elem>, k: nat, data: seq<Byte>, more: seq<Byte>)
    requires Inside(sg, |mem|) && k < |sg| && |data| == Total(sg[..k]) && |more| == sg[k].count
    ensures Total(sg[..k + 1]) == |data + more|
    ensures Scattered(mem, sg[..k + 1], data + more) == Stored(Scattered(mem, sg[..k], data), sg[k].addr, more)
  {
    PrefixStep(sg, k);
    assert sg[..k + 1][..k] == sg[..k];
    assert (data + more)[..|data|] == data && (data + more)[|data|..] == more;
  }

  /** memcpy */
  method Copy(dst: array<Byte>, d: nat, src: array<Byte>, s: nat, n: nat)
    requires dst != src && d + n <= dst.Length && s + n <= src.Length
    modifies dst
    ensures dst[..] == Stored(old(dst[..]), d, src[s..s + n])
  {
    forall i | 0 <= i < n {
      dst[d + i] := src[s + i];
    }
  }

  /** The copy loop of mmc_dma_initiate: the sum is checked before every copy. */
  method Gather(mem: array<Byte>, sg: seq<Elem>, copy: bool, bounce: array<Byte>) returns (ok: bool, nbytes: nat)
    requires Inside(sg, mem.Length) && bounce.Length == BOUNCE && mem != bounce
    modifies bounce
    ensures ok <==> Total(sg) <= 65536
    ensures ok ==> nbytes == Total(sg)
    ensures ok && copy ==> bounce[..nbytes] == Bytes(mem[..], sg)
    ensures !copy ==> bounce[..] == old(bounce[..])
  {
    hide Addresses, Bytes, Stored, Total;
    nbytes := 0;
    var sgi := 0;
    NoPieces(mem[..]);
    while sgi < |sg|
      invariant 0 <= sgi <= |sg| && nbytes == Total(sg[..sgi]) <= BOUNCE
      invariant copy ==> bounce[..nbytes] == Bytes(mem[..], sg[..sgi])
      invariant !copy ==> bounce[..] == old(bounce[..])
    {
      var sge, ptr := sg[sgi], nbytes;
      PrefixStep(sg, sgi);
      PrefixTotal(sg, sgi + 1);
      nbytes := nbytes + sge.count;
      if nbytes > BOUNCE {
        return false, nbytes;
      }
      if copy {
        ghost var was := bounce[..];
        Copy(bounce, ptr, mem, sge.addr, sge.count);
        StoredAt(was, ptr, mem[sge.addr..sge.addr + sge.count]);
        BytesStep(mem[..], sg, sgi);
      }
      sgi := sgi + 1;
    }
    assert sg[..sgi] == sg;
    ok := true;
  }

  lemma NoPieces(mem: seq<Byte>)
    ensures Total([]) == 0 && Bytes(mem, []) == [] && Scattered(mem, [], []) == mem
  {
  }

  /** The copy loop at the end of a read in mmc_dma_rw. */
  method Scatter(mem: array<Byte>, sg: seq<Elem>, bounce: array<Byte>)
    requires Inside(sg, mem.Length) && Total(sg) <= bounce.Length && mem != bounce
    modifies mem
    ensures mem[..] == Scattered(old(mem[..]), sg, bounce[..Total(sg)])
  {
    hide Scattered, Stored, Total, Addresses;
    ghost var before, data := mem[..], bounce[..Total(sg)];
    var ptr, sgi := 0, 0;
    NoPieces(before);
    while sgi < |sg|
      invariant 0 <= sgi <= |sg| && ptr == Total(sg[..sgi]) <= Total(sg)
      invariant mem[..] == Scattered(before, sg[..sgi], data[..ptr])
    {
      var sge := sg[sgi];
      PrefixStep(sg, sgi);
      PrefixTotal(sg, sgi + 1);
      ScatteredStep(before, sg, sgi, data[..ptr], data[ptr..ptr + sge.count]);
      assert data[..ptr] + data[ptr..ptr + sge.count] == data[..ptr + sge.count];
      assert bounce[ptr..ptr + sge.count] == data[ptr..ptr + sge.count];
      Copy(mem, sge.addr, bounce, ptr, sge.count);
      ptr := ptr + sge.count;
      sgi := sgi + 1;
    }
    assert sg[..sgi] == sg && data[..ptr] == data;
  }
}
