/**
 The IPL's serial image download: after a start byte, data records with 7-bit sequence numbers are
 stored one behind the other, until a go byte; anything else aborts.
 */
module ImageDownload {
  import opened Common

  const START_CMD := 0x80
  const DATA_CMD := 0x81
  const GO_CMD := 0x82
  const ABORT_CMD := 0x88
  const ABORT_SEQ := 2
  const ABORT_PROTOCOL := 3
  const HEADER := 8

  /** Waiting: the downloader still waits for a byte. */
  datatype Outcome = Loaded | Aborted(reason: Byte) | Waiting

  /** How a download goes, the bytes stored, and the input not read. */
  datatype Result = Result(outcome: Outcome, image: seq<Byte>, rest: seq<Byte>) {
    function After(stored: seq<Byte>): Result {
      Result(outcome, stored + image, rest)
    }
  }

  function NextSeq(n: nat): nat
  {
    (n + 1) % 128
  }

  /** What becomes of the input when a record with sequence number n is due. */
  function Records(input: seq<Byte>, n: nat): Result
    decreases |input|
  {
    if input == [] then Result(Waiting, [], [])
    else if input[0] == GO_CMD then Result(Loaded, [], input[1..])
    else if input[0] != DATA_CMD then Result(Aborted(ABORT_PROTOCOL), [], input[1..])
    else if |input| < HEADER then Result(Waiting, [], [])
    else if input[1] != n then Result(Aborted(ABORT_SEQ), [], input[HEADER..])
    else
      var end := HEADER + input[3] + 1;
      if |input| < end then Result(Waiting, input[HEADER..], [])
      else Records(input[end..], NextSeq(n)).After(input[HEADER..end])
  }

  function Download(input: seq<Byte>): Result
    decreases |input|
  {
    if input == [] then Result(Waiting, [], [])
    else if input[0] == START_CMD then Records(input[1..], 0)
    else Download(input[1..])
  }

  /** What is sent back. */
  function Reply(o: Outcome): seq<Byte>
  {
    if o.Aborted? then [ABORT_CMD, o.reason] else []
  }

  // ----- The sender's side

  datatype Record = Record(cksum: Byte, daddr: seq<Byte>, payload: seq<Byte>) {
    predicate Ok() {
      |daddr| == 4 && 1 <= |payload| <= 256
    }
  }

  predicate AllOk(rs: seq<Record>)
  {
    forall i :: 0 <= i < |rs| ==> rs[i].Ok()
  }

  function EncodeRecord(r: Record, n: nat): (s: seq<Byte>)
    requires r.Ok() && n < 128
    ensures |s| == HEADER + |r.payload|
  {
    [DATA_CMD, n, r.cksum, |r.payload| - 1] + r.daddr + r.payload
  }

  /** Records with consecutive sequence numbers from n on, modulo 128. */
  function Encode(rs: seq<Record>, n: nat): seq<Byte>
    requires AllOk(rs) && n < 128
  {
    if rs == [] then [] else EncodeRecord(rs[0], n) + Encode(rs[1..], NextSeq(n))
  }

  function SeqAfter(n: nat, count: nat): nat
  {
    (n + count) % 128
  }

  function Image(rs: seq<Record>): seq<Byte>
  {
    if rs == [] then [] else rs[0].payload + Image(rs[1..])
  }

  /** One encoded record is stored, and the next sequence number is due. */
  lemma RecordsOne(r: Record, n: nat, more: seq<Byte>)
    requires r.Ok() && n < 128
    ensures Records(EncodeRecord(r, n) + more, n) == Records(more, NextSeq(n)).After(r.payload)
  {
    var input := EncodeRecord(r, n) + more;
    var end := HEADER + |r.payload|;
    assert input[0] == DATA_CMD && input[1] == n && input[3] == |r.payload| - 1;
    assert input[HEADER..end] == r.payload && input[end..] == more;
  }

  /** Any number of encoded records are stored in order, whatever follows. */
  lemma {:induction false} RecordsMany(rs: seq<Record>, n: nat, more: seq<Byte>)
    requires AllOk(rs) && n < 128
    ensures Records(Encode(rs, n) + more, n) == Records(more, SeqAfter(n, |rs|)).After(Image(rs))
    decreases |rs|
  {
    hide Records;
    if rs == [] {
      assert Encode(rs, n) + more == more;
      assert SeqAfter(n, 0) == n;
    } else {
      var later := Encode(rs[1..], NextSeq(n)) + more;
      Assoc(EncodeRecord(rs[0], n), Encode(rs[1..], NextSeq(n)), more);
      RecordsOne(rs[0], n, later);
      RecordsMany(rs[1..], NextSeq(n), more);
      assert SeqAfter(NextSeq(n), |rs| - 1) == SeqAfter(n, |rs|);
      Assoc(rs[0].payload, Image(rs[1..]), Records(more, SeqAfter(n, |rs|)).image);
    }
  }

  predicate Junk(s: seq<Byte>)
  {
    forall i :: 0 <= i < |s| ==> s[i] != 0x80
  }

  lemma {:induction false} EncodeSplit(rs: seq<Record>, n: nat, k: nat)
    requires AllOk(rs) && n < 128 && k <= |rs|
    ensures Encode(rs, n) == Encode(rs[..k], n) + Encode(rs[k..], SeqAfter(n, k))
    decreases k
  {
    hide EncodeRecord;
    if k == 0 {
      assert rs[..0] == [] && rs[0..] == rs && SeqAfter(n, 0) == n;
    } else {
      assert rs[1..][..k - 1] == rs[..k][1..] && rs[1..][k - 1..] == rs[k..];
      assert SeqAfter(NextSeq(n), k - 1) == SeqAfter(n, k);
      EncodeSplit(rs[1..], NextSeq(n), k - 1);
      Assoc(EncodeRecord(rs[0], n), Encode(rs[..k][1..], NextSeq(n)), Encode(rs[k..], SeqAfter(n, k)));
    }
  }

  /**
   Record k of an image is sent behind the records before it: the byte 0x81, a sequence number that
   counts on modulo 128, the checksum, the payload's length less one, the address, the payload.
   */
  lemma RecordAt(rs: seq<Record>, n: nat, k: nat)
    requires AllOk(rs) && n < 128 && k < |rs|
    ensures Encode(rs, n) == Encode(rs[..k], n)
      + (([0x81, (n + k) % 128, rs[k].cksum, |rs[k].payload| - 1] + rs[k].daddr + rs[k].payload)
         + Encode(rs[k + 1..], (n + k + 1) % 128))
  {
    var m := SeqAfter(n, k);
    assert rs[k..][0] == rs[k] && rs[k..][1..] == rs[k + 1..] && NextSeq(m) == (n + k + 1) % 128;
    assert Encode(rs[k..], m) == EncodeRecord(rs[k], m) + Encode(rs[k + 1..], NextSeq(m));
    EncodeSplit(rs, n, k);
  }

  /** Everything before the first start byte is skipped. */
  lemma {:induction false} SkipsJunk(junk: seq<Byte>, more: seq<Byte>)
    requires Junk(junk)
    ensures Download(junk + [0x80] + more) == Records(more, 0)
    decreases |junk|
  {
    var input := junk + [0x80] + more;
    if junk == [] {
      assert input[1..] == more;
    } else {
      assert input[1..] == junk[1..] + [0x80] + more;
      SkipsJunk(junk[1..], more);
    }
  }

  /** An image split into records of any sizes arrives whole, and nothing goes back. */
  lemma DownloadEncoded(junk: seq<Byte>, rs: seq<Record>, rest: seq<Byte>)
    requires Junk(junk) && AllOk(rs)
    ensures Download(junk + [0x80] + (Encode(rs, 0) + ([0x82] + rest))) == Result(Loaded, Image(rs), rest)
    ensures Reply(Loaded) == []
  {
    hide Download;
    SkipsJunk(junk, Encode(rs, 0) + ([0x82] + rest));
    RecordsMany(rs, 0, [0x82] + rest);
    assert ([0x82] + rest)[1..] == rest;
    assert Image(rs) + [] == Image(rs);
  }

  /** A record out of sequence aborts the download, and 0x88, 2 goes back; the records before it are stored. */
  lemma WrongSequence(junk: seq<Byte>, rs: seq<Record>, header: seq<Byte>, rest: seq<Byte>)
    requires Junk(junk) && AllOk(rs)
    requires |header| == 8 && header[0] == 0x81 && header[1] != |rs| % 128
    ensures Download(junk + [0x80] + (Encode(rs, 0) + (header + rest)))
         == Result(Aborted(2), Image(rs), rest)
    ensures Reply(Aborted(2)) == [0x88, 2]
  {
    hide Download;
    SkipsJunk(junk, Encode(rs, 0) + (header + rest));
    RecordsMany(rs, 0, header + rest);
    assert (header + rest)[HEADER..] == rest;
    assert Image(rs) + [] == Image(rs);
  }

  /** Any other command aborts it, and 0x88, 3 goes back. */
  lemma WrongCommand(junk: seq<Byte>, rs: seq<Record>, cmd: Byte, rest: seq<Byte>)
    requires Junk(junk) && AllOk(rs) && cmd != 0x81 && cmd != 0x82
    ensures Download(junk + [0x80] + (Encode(rs, 0) + ([cmd] + rest)))
         == Result(Aborted(3), Image(rs), rest)
    ensures Reply(Aborted(3)) == [0x88, 3]
  {
    hide Download;
    SkipsJunk(junk, Encode(rs, 0) + ([cmd] + rest));
    RecordsMany(rs, 0, [cmd] + rest);
    assert ([cmd] + rest)[1..] == rest;
    assert Image(rs) + [] == Image(rs);
  }

  /** The records a successful download has read. */
  ghost function Read(input: seq<Byte>, n: nat): (rs: seq<Record>)
    requires Records(input, n).outcome == Loaded && n < 128
    ensures AllOk(rs)
    decreases |input|
  {
    if input[0] == GO_CMD then []
    else
      var end := HEADER + input[3] + 1;
      [Record(input[2], input[4..HEADER], input[HEADER..end])] + Read(input[end..], NextSeq(n))
  }

  lemma {:induction false} ReadEncodes(input: seq<Byte>, n: nat)
    requires Records(input, n).outcome == Loaded && n < 128
    ensures var rs, r := Read(input, n), Records(input, n);
      input == Encode(rs, n) + ([GO_CMD] + r.rest) && r.image == Image(rs)
    decreases |input|
  {
    if input[0] == GO_CMD {
      assert input == [GO_CMD] + input[1..];
    } else {
      var end := HEADER + input[3] + 1;
      var r := Record(input[2], input[4..HEADER], input[HEADER..end]);
      assert input[..end] == EncodeRecord(r, n);
      hide EncodeRecord;
      ReadEncodes(input[end..], NextSeq(n));
      var later := Read(input[end..], NextSeq(n));
      assert Read(input, n)[1..] == later;
      assert input == input[..end] + input[end..];
      Assoc(EncodeRecord(r, n), Encode(later, NextSeq(n)), [GO_CMD] + Records(input, n).rest);
    }
  }

  /** The bytes before the first start byte. */
  function Skipped(input: seq<Byte>): (junk: seq<Byte>)
    ensures Junk(junk)
    decreases |input|
  {
    if input == [] || input[0] == START_CMD then [] else [input[0]] + Skipped(input[1..])
  }

  lemma {:induction false} StartFound(input: seq<Byte>)
    requires Download(input).outcome != Waiting
    ensures var k := |Skipped(input)|;
      && k < |input| && input[k] == START_CMD && input[..k] == Skipped(input)
      && Download(input) == Records(input[k + 1..], 0)
    decreases |input|
  {
    hide Records;
    if input[0] != START_CMD {
      var k := |Skipped(input[1..])|;
      StartFound(input[1..]);
      assert input[1..][..k] == input[1..k + 1] && input[1..][k + 1..] == input[k + 2..];
      assert input[..k + 1] == [input[0]] + input[1..k + 1];
    }
  }

  /**
   A download succeeds only for junk, a start byte, well-formed records in sequence and a go byte,
   and then stores exactly the records' payloads.
   */
  lemma LoadedIsEncoded(input: seq<Byte>)
    requires Download(input).outcome == Loaded
    ensures exists junk: seq<Byte>, rs: seq<Record> | Junk(junk) && AllOk(rs) ::
      && input == junk + [0x80] + (Encode(rs, 0) + ([0x82] + Download(input).rest))
      && Download(input).image == Image(rs)
  {
    hide Records, Download, Skipped, Read, Encode, Image;
    var junk := Skipped(input);
    StartFound(input);
    var rest := input[|junk| + 1..];
    ReadEncodes(rest, 0);
    var rs := Read(rest, 0);
    assert input == junk + [0x80] + rest;
    assert Junk(junk) && AllOk(rs);
  }

  // ----- Memory

  /** Memory after data has been stored from address a on. */
  function Stored(m: map<nat, Byte>, a: nat, data: seq<Byte>): map<nat, Byte>
  {
    if data == [] then m
    else Stored(m, a, data[..|data| - 1])[a + |data| - 1 := data[|data| - 1]]
  }

  lemma StoredSnoc(m: map<nat, Byte>, a: nat, data: seq<Byte>, b: Byte)
    ensures Stored(m, a, data + [b]) == Stored(m, a, data)[a + |data| := b]
  {
    assert (data + [b])[..|data + [b]| - 1] == data;
  }

  /** The data is at its addresses, and nothing else has changed. */
  lemma {:induction false} StoredAt(m: map<nat, Byte>, a: nat, data: seq<Byte>, k: nat)
    ensures var s := Stored(m, a, data);
      if a <= k < a + |data| then k in s && s[k] == data[k - a]
      else (k in s <==> k in m) && (k in m ==> s[k] == m[k])
  {
    if data != [] {
      StoredAt(m, a, data[..|data| - 1], k);
    }
  }

  class Downloader {
    var input: seq<Byte>            // bytes still to come from the serial port
    var output: seq<Byte>           // bytes sent
    var memory: map<nat, Byte>

    constructor (input: seq<Byte>, memory: map<nat, Byte>)
      ensures this.input == input && output == [] && this.memory == memory
    {
      this.input, output, this.memory := input, [], memory;
    }

    /** get_byte; none when the wait never ends. */
    method GetByte() returns (b: Option<Byte>)
      modifies `input
      ensures old(input) == [] ==> b == None && input == []
      ensures old(input) != [] ==> b == Some(old(input)[0]) && input == old(input)[1..]
    {
      if input == [] {
        return None;
      }
      b := Some(input[0]);
      input := input[1..];
    }

    /** abort_cmd */
    method AbortCmd(reason: Byte)
      modifies `output
      ensures output == old(output) + [ABORT_CMD, reason]
    {
      output := output + [ABORT_CMD];
      output := output + [reason];
    }

    /** The wait for the start record. */
    method AwaitStart() returns (found: bool)
      modifies `input
      ensures found ==> Download(old(input)) == Records(input, 0)
      ensures !found ==> Download(old(input)) == Result(Waiting, [], []) && input == []
    {
      while true
        invariant Download(input) == Download(old(input))
        decreases |input|
      {
        var b := GetByte();
        if b == None {
          return false;
        }
        if b.value == START_CMD {
          return true;
        }
      }
    }

    /** The rest of a data record's header. */
    method ReadHeader() returns (header: seq<Byte>, ok: bool)
      modifies `input
      ensures ok <==> HEADER - 1 <= |old(input)|
      ensures if ok then header == old(input)[..HEADER - 1] && input == old(input)[HEADER - 1..] else input == []
    {
      header := [];
      for i := 0 to HEADER - 1
        invariant |header| == i && old(input) == header + input
      {
        var b := GetByte();
        if b == None {
          assert header + [] == header;
          return header, false;
        }
        header := header + [b.value];
      }
      ok := true;
    }

    /** A record's payload, stored as it comes. */
    method ReadPayload(dst: nat, nbytes: nat) returns (end: nat, ok: bool)
      modifies `input, `memory
      ensures ok <==> nbytes < |old(input)|
      ensures end == dst + if ok then nbytes + 1 else |old(input)|
      ensures input == old(input)[end - dst..]
      ensures memory == Stored(old(memory), dst, old(input)[..end - dst])
    {
      end := dst;
      for i := 0 to nbytes + 1
        invariant end == dst + i && i <= |old(input)| && input == old(input)[i..]
        invariant memory == Stored(old(memory), dst, old(input)[..i])
      {
        var b := GetByte();
        if b == None {
          return end, false;
        }
        StoredSnoc(old(memory), dst, old(input)[..i], b.value);
        assert old(input)[..i + 1] == old(input)[..i] + [old(input)[i]];
        memory := memory[end := b.value];
        end := end + 1;
      }
      ok := true;
    }

    lemma {:induction false} StoredOn(m: map<nat, Byte>, a: nat, first: seq<Byte>, more: seq<Byte>)
      ensures Stored(Stored(m, a, first), a + |first|, more) == Stored(m, a, first + more)
      decreases |more|
    {
      if more == [] {
        assert first + more == first;
      } else {
        var init := more[..|more| - 1];
        StoredOn(m, a, first, init);
        assert (first + more)[..|first + more| - 1] == first + init;
      }
    }

    lemma StoredNone(m: map<nat, Byte>, a: nat)
      ensures Stored(m, a, []) == m
    {
    }

    /** The ends a download can come to at a command byte. */
    lemma RecordsHead(s: seq<Byte>, n: nat, image: seq<Byte>)
      ensures s == [] ==> Records(s, n).After(image) == Result(Waiting, image, [])
      ensures s != [] && s[0] == GO_CMD ==> Records(s, n).After(image) == Result(Loaded, image, s[1..])
      ensures s != [] && s[0] != GO_CMD && s[0] != DATA_CMD ==>
        Records(s, n).After(image) == Result(Aborted(ABORT_PROTOCOL), image, s[1..])
    {
      assert image + [] == image;
    }

    /** The record that begins with the rest of a header: checked, then stored. */
    method DataRecord(dst: nat, seqno: nat, ghost image: seq<Byte>, ghost memory0: map<nat, Byte>, ghost address: nat)
      returns (code: Option<nat>, more: bool, end: nat, ghost stored: seq<Byte>)
      requires seqno < 128 && dst == address + |image| && memory == Stored(memory0, address, image)
      modifies `input, `memory, `output
      ensures var r := Records([DATA_CMD] + old(input), seqno).After(image);
        if more then
          && r == Records(input, NextSeq(seqno)).After(image + stored)
          && end == dst + |stored| && |input| < |old(input)|
          && memory == Stored(memory0, address, image + stored) && output == old(output)
        else
          && code == (if r.outcome == Waiting then None else Some(1)) && r.outcome != Loaded
          && memory == Stored(memory0, address, r.image) && output == old(output) + Reply(r.outcome) && input == r.rest
    {
      ghost var all := [DATA_CMD] + input;
      end, code, more, stored := dst, None, false, [];
      var header, ok := ReadHeader();
      assert all[1..] == old(input);
      if !ok {
        assert image + [] == image;
        return;
      }
      assert all[HEADER..] == input && all[1] == header[0] && all[3] == header[2];
      if seqno != header[0] {
        AbortCmd(ABORT_SEQ);
        assert image + [] == image;
        code := Some(1);
        return;
      }
      ghost var payload := input;
      end, ok := ReadPayload(dst, header[2]);
      StoredOn(memory0, address, image, payload[..end - dst]);
      if !ok {
        assert payload[..end - dst] == payload;
        return;
      }
      more, stored := true, payload[..end - dst];
      assert stored == all[HEADER..HEADER + header[2] + 1] && input == all[HEADER + header[2] + 1..];
      Assoc(image, stored, Records(input, NextSeq(seqno)).image);
    }

    /** image_download_8250, from the initial wait on. */
    method Image8250(address: nat) returns (code: Option<nat>)
      modifies this
      ensures var r := Download(old(input));
        && code == (match r.outcome case Loaded => Some(0) case Aborted(_) => Some(1) case Waiting => None)
        && memory == Stored(old(memory), address, r.image)
        && output == old(output) + (match r.outcome case Aborted(reason) => [0x88, reason] case _ => [])
        && input == r.rest
    {
      hide Records, Download, Stored;
      StoredNone(memory, address);
      var found := AwaitStart();
      if !found {
        return None;
      }
      ghost var image, all := [], Download(old(input));
      var seqno: nat, dst := 0, address;
      assert all.After(image) == all;
      while true
        invariant all == Records(input, seqno).After(image) && seqno < 128
        invariant dst == address + |image| && memory == Stored(old(memory), address, image) && output == old(output)
        decreases |input|
      {
        ghost var before := input;
        RecordsHead(before, seqno, image);
        var cmd := GetByte();
        if cmd == None {
          return None;
        }
        if cmd.value != DATA_CMD {
          if cmd.value == GO_CMD {
            return Some(0);
          }
          AbortCmd(ABORT_PROTOCOL);
          return Some(1);
        }
        assert before == [DATA_CMD] + input;
        var more;
        ghost var stored;
        code, more, dst, stored := DataRecord(dst, seqno, image, old(memory), address);
        if !more {
          return;
        }
        image := image + stored;
        seqno := (seqno + 1) % 128;
      }
    }
  }
}
