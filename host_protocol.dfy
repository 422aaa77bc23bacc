/** The host side of the serial bootloader protocol (class `LM32Serial` of
    the uploader): command framing, chunked transfers and the probe that
    looks for the bootloader's prompt. The serial port is an abstract
    link: `tx` is everything written to it, in order, and `rx` the bytes
    it will still deliver. */
module HostProtocol {
  import opened Bytes

  /** The text the bootloader prints in its prompt. */
  const BOOT_SIG: seq<uint8> := Ascii("**soc-lm32/bootloader**")

  const CMD_UPLOAD: uint8 := 0x75    // 'u'
  const CMD_DOWNLOAD: uint8 := 0x64  // 'd'
  const CMD_JUMP: uint8 := 0x67      // 'g'
  const CR: uint8 := 0x0D
  const LF: uint8 := 0x0A

  /** The bytes `upload(addr, data)` writes: the command byte, the address
      and the length (both big-endian, low 32 bits) and the payload. */
  function UploadFrame(addr: int, data: seq<uint8>): seq<uint8>
  {
    [CMD_UPLOAD] + Be32(addr) + Be32(|data|) + data
  }

  /** The bytes `download(addr, size)` writes before it reads the reply. */
  function DownloadRequest(addr: int, size: int): seq<uint8>
  {
    [CMD_DOWNLOAD] + Be32(addr) + Be32(size)
  }

  /** The bytes `jump(addr)` writes. */
  function JumpRequest(addr: int): seq<uint8>
  {
    [CMD_JUMP] + Be32(addr)
  }

  /** Where block `i` starts: `i * blockSize`, written as a sum of `i`
      blocks so that reasoning about consecutive blocks stays linear. */
  function Offset(i: nat, blockSize: nat): nat
  {
    if i == 0 then 0 else Offset(i - 1, blockSize) + blockSize
  }

  lemma {:induction false} OffsetIsProduct(i: nat, blockSize: nat)
    ensures Offset(i, blockSize) == i * blockSize
  {
    if i > 0 {
      OffsetIsProduct(i - 1, blockSize);
    }
  }

  lemma {:induction false} OffsetMono(i: nat, j: nat, blockSize: nat)
    requires i <= j
    ensures Offset(i, blockSize) <= Offset(j, blockSize)
  {
    if i < j {
      OffsetMono(i, j - 1, blockSize);
    }
  }
  /** What iteration `i` of `upload_chunked` writes: the upload of
      `data[i * blockSize : i * blockSize + blockSize]` to
      `addr + i * blockSize`. */
  function BlockFrame(data: seq<uint8>, addr: int, blockSize: nat, i: nat): seq<uint8>
  {
    var off := Offset(i, blockSize);
    UploadFrame(addr + off, Slice(data, off, off + blockSize))
  }

  /** Everything the first `n` iterations of `upload_chunked` write. */
  function ChunkedUploadFrames(data: seq<uint8>, addr: int, blockSize: nat, n: nat): seq<uint8>
  {
    if n == 0 then [] else ChunkedUploadFrames(data, addr, blockSize, n - 1) + BlockFrame(data, addr, blockSize, n - 1)
  }

  /** What iteration `i` of `download_chunked` writes. */
  function BlockRequest(addr: int, blockSize: nat, i: nat): seq<uint8>
  {
    DownloadRequest(addr + Offset(i, blockSize), blockSize)
  }

  /** Everything the first `n` iterations of `download_chunked` write. */
  function ChunkedDownloadRequests(addr: int, blockSize: nat, n: nat): seq<uint8>
  {
    if n == 0 then [] else ChunkedDownloadRequests(addr, blockSize, n - 1) + BlockRequest(addr, blockSize, n - 1)
  }

  /** A chunked transfer moves whole blocks only: it covers
      `(size / blockSize) * blockSize` bytes, and the remainder, shorter
      than a block, is never transferred. */
  lemma ChunkedCoverage(size: nat, blockSize: nat)
    requires blockSize > 0
    ensures (size / blockSize) * blockSize <= size < (size / blockSize) * blockSize + blockSize
    ensures size - (size / blockSize) * blockSize == size % blockSize
  {
  }

  /** What one `readline()` returns: the bytes through the first line feed.
      A port opened without a timeout waits in `readline` until a line feed
      arrives, so the probe reads a line only when one is pending; a file
      at its end gives what is left, which is what this returns when no
      line feed is pending. */
  function NextLine(s: seq<uint8>): (r: (seq<uint8>, seq<uint8>))
    ensures r.0 + r.1 == s
    ensures s != [] ==> |r.0| > 0
    ensures r.0 == [] || LF !in r.0[..|r.0| - 1]
    ensures LF in s <==> r.0 != [] && r.0[|r.0| - 1] == LF
    ensures r.0 != [] && r.0[|r.0| - 1] != LF ==> r.1 == []
  {
    if s == [] then ([], [])
    else if s[0] == LF then ([LF], s[1..])
    else
      var r' := NextLine(s[1..]);
      assert [s[0]] + r'.0 + r'.1 == s;
      assert LF in s <==> LF in s[1..];
      ([s[0]] + r'.0, r'.1)
  }

  /** The number of whole lines, each ended by a line feed, in `s`. */
  function Lines(s: seq<uint8>): nat
    decreases |s|
  {
    if LF !in s then 0 else 1 + Lines(NextLine(s).1)
  }

  /** How a search for the bootloader ends: found after `probes` carriage
      returns, given up after `probes` of them, or waiting in `readline`
      after `probes` of them for a line feed that has not arrived. */
  datatype ProbeResult = Found(probes: nat) | NotFound(probes: nat) | Waiting(probes: nat)

  /** `find_bootloader` as written, from the moment `count` iterations are
      done: the next iteration increments `count` and gives up when it
      reaches `maxTries`, before it probes. Returns the outcome and the
      bytes the link still holds. */
  function ProbeRun(s: seq<uint8>, count: nat, maxTries: int): (ProbeResult, seq<uint8>)
    requires count < maxTries
    decreases maxTries - count
  {
    if count + 1 == maxTries then (NotFound(count), s)
    else if LF !in s then (Waiting(count + 1), s)
    else
      var (line, rest) := NextLine(s);
      if Contains(line, BOOT_SIG) then (Found(count + 1), rest)
      else ProbeRun(rest, count + 1, maxTries)
  }

  /** The position (counting from 1) of the first whole reply line that
      holds the boot signature, or None when no whole line does. */
  function SigLine(s: seq<uint8>): (k: Option<nat>)
    ensures k.Some? ==> 1 <= k.value <= Lines(s)
    decreases |s|
  {
    if LF !in s then None
    else
      var (line, rest) := NextLine(s);
      if Contains(line, BOOT_SIG) then Some(1)
      else match SigLine(rest)
        case None => None
        case Some(k) => Some(k + 1)
  }

  /** The probe as written succeeds exactly when the signature arrives in
      one of the first `maxTries - 1` reply lines, and then it has sent one
      carriage return per line read. When fewer whole lines than that have
      arrived, none with the signature, it waits in `readline` after one
      probe more than there are lines; otherwise it gives up after
      `maxTries - 1` probes. */
  lemma {:induction false} ProbeRunOutcome(s: seq<uint8>, count: nat, maxTries: int)
    requires count < maxTries
    ensures var r := ProbeRun(s, count, maxTries).0;
      && (r.Found? <==> SigLine(s).Some? && count + SigLine(s).value < maxTries)
      && (r.Found? ==> r.probes == count + SigLine(s).value)
      && (r.Waiting? <==> !r.Found? && count + Lines(s) + 1 < maxTries)
      && (r.Waiting? ==> r.probes == count + Lines(s) + 1)
      && (r.NotFound? ==> r.probes == maxTries - 1)
    decreases maxTries - count
  {
    if count + 1 < maxTries && LF in s {
      var (line, rest) := NextLine(s);
      if !Contains(line, BOOT_SIG) {
        ProbeRunOutcome(rest, count + 1, maxTries);
      }
    }
  }

  /** The search as its name promises: at most `maxTries` probes. */
  function ProbeRunIntended(s: seq<uint8>, done: nat, maxTries: nat): (ProbeResult, seq<uint8>)
    requires done <= maxTries
    decreases maxTries - done
  {
    if done == maxTries then (NotFound(done), s)
    else if LF !in s then (Waiting(done + 1), s)
    else
      var (line, rest) := NextLine(s);
      if Contains(line, BOOT_SIG) then (Found(done + 1), rest)
      else ProbeRunIntended(rest, done + 1, maxTries)
  }

  /** The intended search succeeds exactly when the signature arrives within
      `maxTries` reply lines, after exactly that many probes; it waits in
      `readline` when fewer whole lines than that have arrived, none with
      the signature, and gives up after `maxTries` probes otherwise. */
  lemma {:induction false} ProbeRunIntendedOutcome(s: seq<uint8>, done: nat, maxTries: nat)
    requires done <= maxTries
    ensures var r := ProbeRunIntended(s, done, maxTries).0;
      && (r.Found? <==> SigLine(s).Some? && done + SigLine(s).value <= maxTries)
      && (r.Found? ==> r.probes == done + SigLine(s).value)
      && (r.Waiting? <==> !r.Found? && done + Lines(s) < maxTries)
      && (r.Waiting? ==> r.probes == done + Lines(s) + 1)
      && (r.NotFound? ==> r.probes == maxTries)
    decreases maxTries - done
  {
    if done < maxTries && LF in s {
      var (line, rest) := NextLine(s);
      if !Contains(line, BOOT_SIG) {
        ProbeRunIntendedOutcome(rest, done + 1, maxTries);
      }
    }
  }

  /** With `max_tries = 1` the search as written gives up without sending a
      single probe, even though a bootloader would answer the first one. */
  lemma ProbeLimitMissesLastTry()
    ensures var prompt := BOOT_SIG + [LF];
      ProbeRun(prompt, 0, 1).0 == NotFound(0)
      && ProbeRunIntended(prompt, 0, 1).0 == Found(1)
  {
    var prompt := BOOT_SIG + [LF];
    assert LF !in BOOT_SIG;
    assert prompt[..|BOOT_SIG|] == BOOT_SIG;
    assert OccursAt(prompt, BOOT_SIG, 0);
    assert prompt + [] == prompt;
    IntendedFindsFirstLine(BOOT_SIG, [], 0, 1);
  }

  /** A first whole reply line that holds the signature ends the intended
      search with one more probe. */
  lemma IntendedFindsFirstLine(line: seq<uint8>, rest: seq<uint8>, done: nat, maxTries: nat)
    requires LF !in line && done < maxTries && Contains(line + [LF], BOOT_SIG)
    ensures ProbeRunIntended(line + [LF] + rest, done, maxTries) == (Found(done + 1), rest)
  {
    NextLineTakesLine(line, rest);
  }

  /** A device that sends nothing, or a reply without a line feed, leaves
      the search waiting in `readline` after its first probe. */
  lemma UnterminatedReplyWaits(s: seq<uint8>, maxTries: int)
    requires maxTries >= 2 && LF !in s
    ensures ProbeRun(s, 0, maxTries) == (Waiting(1), s)
  {
  }

  /** A reply of one line without an inner line feed is read whole. */
  lemma {:induction false} NextLineTakesLine(line: seq<uint8>, rest: seq<uint8>)
    requires LF !in line
    ensures NextLine(line + [LF] + rest) == (line + [LF], rest)
  {
    var s := line + [LF] + rest;
    if line != [] {
      assert s[0] == line[0] != LF;
      assert s[1..] == line[1..] + [LF] + rest;
      NextLineTakesLine(line[1..], rest);
      assert [line[0]] + (line[1..] + [LF]) == line + [LF];
    } else {
      assert s == [LF] + rest;
    }
  }

  class LM32Serial {
    /** Every byte written to the link so far, in order. */
    var tx: seq<uint8>
    /** The bytes the link will deliver that have not been read yet. */
    var rx: seq<uint8>
    /** Progress dots written to standard output. */
    var ticks: nat

    constructor (incoming: seq<uint8>)
      ensures tx == [] && rx == incoming && ticks == 0
    {
      tx, rx, ticks := [], incoming, 0;
    }

    method Write(b: seq<uint8>)
      modifies this
      ensures tx == old(tx) + b && rx == old(rx) && ticks == old(ticks)
    {
      tx := tx + b;
    }

    method Progress()
      modifies this
      ensures ticks == old(ticks) + 1 && tx == old(tx) && rx == old(rx)
    {
      ticks := ticks + 1;
    }

    /** `put_uint32`: four single-byte writes, most significant byte first. */
    method PutUint32(i: int)
      modifies this
      ensures tx == old(tx) + Be32(i) && rx == old(rx) && ticks == old(ticks)
    {
      Write([(i / 0x100_0000) % 0x100]);
      Write([(i / 0x1_0000) % 0x100]);
      Write([(i / 0x100) % 0x100]);
      Write([i % 0x100]);
    }

    /** `put_uint8`: the low byte of `i`. */
    method PutUint8(i: int)
      modifies this
      ensures tx == old(tx) + [i % 0x100] && rx == old(rx) && ticks == old(ticks)
    {
      Write([i % 0x100]);
    }

    /** `get_uint8`: one byte from the link. */
    method GetUint8() returns (b: uint8)
      requires |rx| >= 1
      modifies this
      ensures b == old(rx)[0] && rx == old(rx)[1..] && tx == old(tx) && ticks == old(ticks)
    {
      b := rx[0];
      rx := rx[1..];
    }

    method Upload(addr: int, data: seq<uint8>)
      modifies this
      ensures tx == old(tx) + UploadFrame(addr, data) && rx == old(rx) && ticks == old(ticks)
    {
      Write([CMD_UPLOAD]);
      PutUint32(addr);
      PutUint32(|data|);
      var i := 0;
      while i < |data|
        invariant 0 <= i <= |data|
        invariant tx == old(tx) + [CMD_UPLOAD] + Be32(addr) + Be32(|data|) + data[..i]
        invariant rx == old(rx) && ticks == old(ticks)
      {
        Write([data[i]]);
        assert data[..i + 1] == data[..i] + [data[i]];
        i := i + 1;
      }
      assert data[..i] == data;
    }

    /** `download`: sends the request and then reads exactly `size` bytes,
        which it returns in the order they arrived. */
    method Download(addr: int, size: nat) returns (r: seq<uint8>)
      requires size <= |rx|
      modifies this
      ensures r == old(rx)[..size] && rx == old(rx)[size..]
      ensures tx == old(tx) + DownloadRequest(addr, size) && ticks == old(ticks)
    {
      Write([CMD_DOWNLOAD]);
      PutUint32(addr);
      PutUint32(size);
      r := [];
      var i := 0;
      while i < size
        invariant 0 <= i <= size
        invariant r == old(rx)[..i] && rx == old(rx)[i..]
        invariant tx == old(tx) + DownloadRequest(addr, size) && ticks == old(ticks)
      {
        var b := GetUint8();
        r := r + [b];
        i := i + 1;
      }
    }

    method Jump(addr: int)
      modifies this
      ensures tx == old(tx) + JumpRequest(addr) && rx == old(rx) && ticks == old(ticks)
    {
      Write([CMD_JUMP]);
      PutUint32(addr);
    }

    /** `upload_chunked`: one upload and one progress dot per whole block. */
    method UploadChunked(data: seq<uint8>, addr: int, size: nat, blockSize: nat)
      requires blockSize > 0
      modifies this
      ensures tx == old(tx) + ChunkedUploadFrames(data, addr, blockSize, size / blockSize)
      ensures rx == old(rx) && ticks == old(ticks) + size / blockSize
    {
      UploadBlocks(data, addr, blockSize, size / blockSize);
    }

    /** The loop of `upload_chunked`, over `n` whole blocks. */
    method UploadBlocks(data: seq<uint8>, addr: int, blockSize: nat, n: nat)
      modifies this
      ensures tx == old(tx) + ChunkedUploadFrames(data, addr, blockSize, n)
      ensures rx == old(rx) && ticks == old(ticks) + n
    {
      var i := 0;
      while i < n
        invariant 0 <= i <= n
        invariant tx == old(tx) + ChunkedUploadFrames(data, addr, blockSize, i)
        invariant rx == old(rx) && ticks == old(ticks) + i
      {
        Progress();
        UploadBlock(data, addr, blockSize, i);
        AppendAssoc(old(tx), ChunkedUploadFrames(data, addr, blockSize, i), BlockFrame(data, addr, blockSize, i));
        i := i + 1;
      }
    }

    /** Iteration `i` of `upload_chunked`, after its progress dot. */
    method UploadBlock(data: seq<uint8>, addr: int, blockSize: nat, i: nat)
      modifies this
      ensures tx == old(tx) + BlockFrame(data, addr, blockSize, i) && rx == old(rx) && ticks == old(ticks)
    {
      var offset := i * blockSize;
      OffsetIsProduct(i, blockSize);
      var block := Slice(data, offset, offset + blockSize);
      Upload(addr + offset, block);
    }

    /** `download_chunked`: the concatenation, in block order, of one
        download per whole block. */
    method DownloadChunked(addr: int, size: nat, blockSize: nat) returns (data: seq<uint8>)
      requires blockSize > 0 && (size / blockSize) * blockSize <= |rx|
      modifies this
      ensures data == old(rx)[..(size / blockSize) * blockSize]
      ensures rx == old(rx)[(size / blockSize) * blockSize..]
      ensures tx == old(tx) + ChunkedDownloadRequests(addr, blockSize, size / blockSize)
      ensures ticks == old(ticks) + size / blockSize
    {
      data := DownloadBlocks(addr, blockSize, size / blockSize);
    }

    /** The loop of `download_chunked`, over `n` whole blocks. */
    method DownloadBlocks(addr: int, blockSize: nat, n: nat) returns (data: seq<uint8>)
      requires n * blockSize <= |rx|
      modifies this
      ensures data == old(rx)[..n * blockSize] && rx == old(rx)[n * blockSize..]
      ensures tx == old(tx) + ChunkedDownloadRequests(addr, blockSize, n)
      ensures ticks == old(ticks) + n
    {
      assert Offset(n, blockSize) <= |rx| by {
        OffsetIsProduct(n, blockSize);
      }
      data := [];
      var i := 0;
      while i < n
        invariant 0 <= i <= n
        invariant data + rx == old(rx) && |data| == Offset(i, blockSize)
        invariant Offset(i, blockSize) <= Offset(n, blockSize) <= |old(rx)|
        invariant tx == old(tx) + ChunkedDownloadRequests(addr, blockSize, i)
        invariant ticks == old(ticks) + i
      {
        Progress();
        OffsetMono(i + 1, n, blockSize);
        ghost var pending := rx;
        var block := DownloadBlock(addr, blockSize, i);
        TakeDrop(pending, blockSize);
        AppendAssoc(data, block, rx);
        AppendAssoc(old(tx), ChunkedDownloadRequests(addr, blockSize, i), BlockRequest(addr, blockSize, i));
        data := data + block;
        i := i + 1;
      }
      OffsetIsProduct(n, blockSize);
      SplitAt(data, rx, old(rx));
    }

    /** Iteration `i` of `download_chunked`, after its progress dot. */
    method DownloadBlock(addr: int, blockSize: nat, i: nat) returns (block: seq<uint8>)
      requires blockSize <= |rx|
      modifies this
      ensures block == old(rx)[..blockSize] && rx == old(rx)[blockSize..]
      ensures tx == old(tx) + BlockRequest(addr, blockSize, i) && ticks == old(ticks)
    {
      OffsetIsProduct(i, blockSize);
      block := Download(addr + i * blockSize, blockSize);
    }

    /** `readline` on a port without a timeout: it returns once a line
        feed has arrived, with the bytes through the first one. */
    method ReadLine() returns (line: seq<uint8>)
      requires LF in rx
      modifies this
      ensures (line, rx) == NextLine(old(rx)) && tx == old(tx) && ticks == old(ticks)
      ensures line != [] && line[|line| - 1] == LF && LF !in line[..|line| - 1]
    {
      var r := NextLine(rx);
      line, rx := r.0, r.1;
    }

    /** `find_bootloader`: one progress dot per iteration; each iteration
        that does not give up sends a carriage return and reads one line.
        The search stops as `Waiting` where the source would stay in
        `readline`, and `die` is the `NotFound` result. */
    method FindBootloader(maxTries: int) returns (r: ProbeResult)
      requires maxTries >= 1
      modifies this
      ensures var (res, rest) := ProbeRun(old(rx), 0, maxTries);
        && r == res
        && tx == old(tx) + Repeat([CR], r.probes)
        && rx == rest
        && ticks == old(ticks) + (if r.NotFound? then r.probes + 1 else r.probes)
    {
      var count := 0;
      while true
        invariant 0 <= count < maxTries
        invariant ProbeRun(rx, count, maxTries) == ProbeRun(old(rx), 0, maxTries)
        invariant tx == old(tx) + Repeat([CR], count) && ticks == old(ticks) + count
        decreases maxTries - count
      {
        Progress();
        count := count + 1;
        if count == maxTries {
          return NotFound(count - 1);
        }
        Write([CR]);
        if LF !in rx {
          return Waiting(count);
        }
        var line := ReadLine();
        if Contains(line, BOOT_SIG) {
          return Found(count);
        }
      }
    }
  }
}
