/** The host's frames as the bootloader's command loop reads them: what
    the uploader writes is what the device decodes, and downloading what
    was uploaded gives the data back. */
module EndToEnd {
  import opened Bytes
  import opened Soc
  import opened HostProtocol
  import opened Boot0

  /** The two sides agree on the command bytes. */
  lemma CommandBytesAgree()
    ensures CMD_UPLOAD == UPLOAD && CMD_DOWNLOAD == DOWNLOAD && CMD_JUMP == GO
  {
  }

  /** `read_uint32` on the device decodes what `put_uint32` on the host
      encodes, up to the low 32 bits. */
  lemma WordRoundTrip(x: int, rest: seq<uint8>)
    ensures (Be32(x) + rest)[..4] == Be32(x)
    ensures Be32Value((Be32(x) + rest)[..4]) == x % 0x1_0000_0000
  {
    assert (Be32(x) + rest)[..4] == Be32(x);
    Be32RoundTrip(x);
  }

  /** Two big-endian words and what follows them. */
  lemma Header(x: uint32, y: uint32, tail: seq<uint8>)
    ensures var t := Be32(x) + Be32(y) + tail;
      Be32Value(t[..4]) == x && Be32Value(t[4..8]) == y && t[8..] == tail
  {
    var t := Be32(x) + Be32(y) + tail;
    assert t[..4] == Be32(x) && t[4..8] == Be32(y) && t[8..] == tail;
    Be32Word(x);
    Be32Word(y);
  }

  /** What follows the command byte of an upload frame. */
  lemma UploadFrameBody(a: uint32, d: seq<uint8>, rest: seq<uint8>)
    ensures (UploadFrame(a, d) + rest)[0] == UPLOAD
    ensures (UploadFrame(a, d) + rest)[1..] == Be32(a) + Be32(|d|) + (d + rest)
  {
  }

  /** The device reads an upload frame back as the upload it describes. */
  lemma DecodeUploadFrame(a: uint32, d: seq<uint8>, rest: seq<uint8>)
    requires |d| < WORD
    ensures var t := Be32(a) + Be32(|d|) + (d + rest);
      var n := Span(a, |d|);
      Decode(UPLOAD, t) == Some((Upload(a, |d|, d[..n]), 8 + n)) && t[8 + n..] == d[n..] + rest
  {
    Header(a, |d|, d + rest);
    DecodeUploadHeader(Be32(a) + Be32(|d|) + (d + rest), a, d, rest);
  }

  /** An upload command whose two words are `a` and `|d|`, followed by
      `d` and then `rest`. */
  lemma DecodeUploadHeader(t: seq<uint8>, a: uint32, d: seq<uint8>, rest: seq<uint8>)
    requires |d| < WORD && |t| >= 8
    requires Be32Value(t[..4]) == a && Be32Value(t[4..8]) == |d| && t[8..] == d + rest
    ensures var n := Span(a, |d|);
      Decode(UPLOAD, t) == Some((Upload(a, |d|, d[..n]), 8 + n)) && t[8 + n..] == d[n..] + rest
  {
    var n := Span(a, |d|);
    SpanMeaning(a, |d|);
    assert t[8..8 + n] == d[..n];
    assert t[8 + n..] == d[n..] + rest;
    DecodeUploadOf(t, a, |d|);
  }

  /** An upload whose range lies below 2^32 stores the data at the address
      and leaves the device waiting for the next command. */
  lemma UploadThenListen(m: seq<uint8>, a: uint32, d: seq<uint8>, rest: seq<uint8>)
    requires |m| == WORD && a + |d| < WORD
    ensures Listen(m, UploadFrame(a, d) + rest) == Listen(Store(m, a, d), rest)
  {
    UploadStep(m, a, d, rest);
    AfterNothing(Listen(Store(m, a, d), rest));
  }

  /** The upload command taken by the loop, before its empty reply is
      dropped. */
  lemma UploadStep(m: seq<uint8>, a: uint32, d: seq<uint8>, rest: seq<uint8>)
    requires |m| == WORD && a + |d| < WORD
    ensures Listen(m, UploadFrame(a, d) + rest) == After([], Listen(Store(m, a, d), rest))
  {
    var t := Be32(a) + Be32(|d|) + (d + rest);
    UploadFrameBody(a, d, rest);
    DecodeUploadFrame(a, d, rest);
    SpanMeaning(a, |d|);
    assert d[..|d|] == d && d[|d|..] + rest == rest;
    assert [UPLOAD] + t == UploadFrame(a, d) + rest;
    ListenStep(m, UPLOAD, t, Upload(a, |d|, d), 8 + |d|);
  }

  /** An upload whose range reaches the top of the address space stores
      nothing, and the device then reads the payload as commands. */
  lemma WrappedUploadRunsPayload(m: seq<uint8>, a: uint32, d: seq<uint8>, rest: seq<uint8>)
    requires |m| == WORD && |d| < WORD && a + |d| >= WORD
    ensures Listen(m, UploadFrame(a, d) + rest) == Listen(m, d + rest)
  {
    WrappedUploadStep(m, a, d, rest);
    AfterNothing(Listen(m, d + rest));
  }

  /** The wrapped upload taken by the loop, before its empty reply is
      dropped. */
  lemma WrappedUploadStep(m: seq<uint8>, a: uint32, d: seq<uint8>, rest: seq<uint8>)
    requires |m| == WORD && |d| < WORD && a + |d| >= WORD
    ensures Listen(m, UploadFrame(a, d) + rest) == After([], Listen(m, d + rest))
  {
    var t := Be32(a) + Be32(|d|) + (d + rest);
    UploadFrameBody(a, d, rest);
    DecodeUploadFrame(a, d, rest);
    SpanMeaning(a, |d|);
    assert d[..0] == [] && d[0..] == d;
    assert [UPLOAD] + t == UploadFrame(a, d) + rest;
    ListenStep(m, UPLOAD, t, Upload(a, |d|, []), 8);
    StoreNothing(m, a);
  }

  /** The device reads a download request back as the download it asks for. */
  lemma DecodeDownloadRequest(a: uint32, n: uint32, rest: seq<uint8>)
    ensures var t := (DownloadRequest(a, n) + rest)[1..];
      Decode(DOWNLOAD, t) == Some((Download(a, n), 8)) && t[8..] == rest
  {
    var t := (DownloadRequest(a, n) + rest)[1..];
    FrameTail(CMD_DOWNLOAD, Be32(a), Be32(n), rest);
    Header(a, n, rest);
    DecodeDownloadHeader(t, a, n, rest);
  }

  /** A download command whose two words are `a` and `n`, followed by
      `rest`. */
  lemma DecodeDownloadHeader(t: seq<uint8>, a: uint32, n: uint32, rest: seq<uint8>)
    requires |t| >= 8 && Be32Value(t[..4]) == a && Be32Value(t[4..8]) == n && t[8..] == rest
    ensures Decode(DOWNLOAD, t) == Some((Download(a, n), 8)) && t[8..] == rest
  {
    DecodeDownloadOf(t, a, n);
  }

  /** A download whose range lies below 2^32 sends exactly those bytes of
      memory and changes nothing. */
  lemma DownloadThenListen(m: seq<uint8>, a: uint32, n: nat, rest: seq<uint8>)
    requires |m| == WORD && a + n < WORD
    ensures Listen(m, DownloadRequest(a, n) + rest) == After(m[a..a + n], Listen(m, rest))
  {
    var t := (DownloadRequest(a, n) + rest)[1..];
    DecodeDownloadRequest(a, n, rest);
    SpanMeaning(a, n);
    assert [DOWNLOAD] + t == DownloadRequest(a, n) + rest;
    ListenStep(m, DOWNLOAD, t, Download(a, n), 8);
  }

  /** A jump request hands control to the low 32 bits of the address. */
  lemma JumpThenStop(m: seq<uint8>, a: int, rest: seq<uint8>)
    requires |m| == WORD
    ensures Listen(m, JumpRequest(a) + rest) == DeviceRun(m, [], Jumped(a % 0x1_0000_0000))
  {
    var t := (JumpRequest(a) + rest)[1..];
    CommandTail(CMD_JUMP, Be32(a), rest);
    WordRoundTrip(a, rest);
    assert Be32Value(t[..4]) == a % 0x1_0000_0000;
    assert Decode(GO, t) == Some((Go(a % 0x1_0000_0000), 4));
    RunUnfold(m, GO, t);
  }

  /** The host's probe, a carriage return, is not a command: the device
      answers it with its prompt. */
  lemma ProbeGetsPrompt(m: seq<uint8>, rest: seq<uint8>)
    requires |m| == WORD
    ensures Listen(m, [CR] + rest) == After(Ascii(PROMPT), Listen(m, rest))
  {
    var t := ([CR] + rest)[1..];
    assert t == rest;
    RunUnfold(m, CR, t);
    assert t[0..] == rest;
  }

  /** From reset the device prints its prompt once, then listens. */
  lemma BootPrintsPrompt(m: seq<uint8>, s: seq<uint8>)
    requires |m| == WORD
    ensures Boot(m, s) == After(Ascii(PROMPT), Listen(m, s))
  {
    RunUnfold(m, FIRST, s);
    assert s[0..] == s;
  }

  /** The prompt is one line that holds the host's boot signature, so the
      first reply line to a probe is recognised. */
  lemma PromptCarriesSignature(more: seq<uint8>)
    ensures SigLine(Ascii(PROMPT) + more) == Some(1)
    ensures NextLine(Ascii(PROMPT) + more) == (Ascii(PROMPT), more)
  {
    var body := Ascii("**soc-lm32/bootloader** > \r");
    assert Ascii(PROMPT) == body + [LF];
    assert LF !in body;
    NextLineTakesLine(body, more);
    assert body + [LF] + more == Ascii(PROMPT) + more;
    assert OccursAt(Ascii(PROMPT), BOOT_SIG, 0);
  }

  /** A bootloader that has just printed its prompt is found by the first
      probe whenever `maxTries` allows one. */
  lemma FoundAtFirstProbe(more: seq<uint8>, maxTries: int)
    requires maxTries >= 2
    ensures ProbeRun(Ascii(PROMPT) + more, 0, maxTries).0 == Found(1)
  {
    PromptCarriesSignature(more);
    ProbeRunOutcome(Ascii(PROMPT) + more, 0, maxTries);
  }

  lemma UploadHandled(m: seq<uint8>, a: uint32, d: seq<uint8>)
    requires |m| == WORD && a + |d| < WORD
    ensures Handles(m, UploadFrame(a, d), Store(m, a, d), [])
  {
    forall rest
      ensures Listen(m, UploadFrame(a, d) + rest) == After([], Listen(Store(m, a, d), rest))
    {
      UploadAt(m, a, d, rest);
    }
  }

  lemma UploadAt(m: seq<uint8>, a: uint32, d: seq<uint8>, rest: seq<uint8>)
    requires |m| == WORD && a + |d| < WORD
    ensures Listen(m, UploadFrame(a, d) + rest) == After([], Listen(Store(m, a, d), rest))
  {
    UploadThenListen(m, a, d, rest);
    assert [] + Listen(Store(m, a, d), rest).out == Listen(Store(m, a, d), rest).out;
  }

  lemma DownloadHandled(m: seq<uint8>, a: uint32, n: nat)
    requires |m| == WORD && a + n < WORD
    ensures Handles(m, DownloadRequest(a, n), m, m[a..a + n])
  {
    forall rest
      ensures Listen(m, DownloadRequest(a, n) + rest) == After(m[a..a + n], Listen(m, rest))
    {
      DownloadThenListen(m, a, n, rest);
    }
  }

  /** Storing the data up to `off`, then from `off` to `len`, is storing
      it up to `len`. */
  lemma ChunkStore(m: seq<uint8>, data: seq<uint8>, addr: nat, off: nat, len: nat)
    requires off <= len <= |data| && addr + len <= |m|
    ensures Store(Store(m, addr, data[..off]), addr + off, data[off..len]) == Store(m, addr, data[..len])
  {
    StoreStore(m, addr, data[..off], data[off..len]);
    SliceConcat(data, 0, off, len);
    assert data[..off] == data[0..off] && data[..len] == data[0..len];
  }

  /** Block `i` of a chunked upload stores that block on top of the ones
      before it, and gets no reply; `j` is the next block's index. */
  lemma {:induction false} UploadBlockHandled(m: seq<uint8>, data: seq<uint8>, addr: uint32, blockSize: nat, i: nat, j: nat)
    requires |m| == WORD && j == i + 1 && Offset(j, blockSize) <= |data| && addr + Offset(j, blockSize) < WORD
    ensures Handles(Store(m, addr, data[..Offset(i, blockSize)]), BlockFrame(data, addr, blockSize, i),
                    Store(m, addr, data[..Offset(j, blockSize)]), [])
  {
    var off, len := Offset(i, blockSize), Offset(j, blockSize);
    var before := Store(m, addr, data[..off]);
    assert Slice(data, off, off + blockSize) == data[off..len];
    ChunkStore(m, data, addr, off, len);
    UploadHandled(before, addr + off, data[off..len]);
    HandlesAs(before, UploadFrame(addr + off, data[off..len]), Store(before, addr + off, data[off..len]), [],
              BlockFrame(data, addr, blockSize, i), Store(m, addr, data[..len]), []);
  }

  /** No chunked upload frames store nothing. */
  lemma {:induction false} UploadNoBlocks(m: seq<uint8>, data: seq<uint8>, addr: uint32, blockSize: nat, n: nat)
    requires |m| == WORD && n == 0
    ensures Handles(m, ChunkedUploadFrames(data, addr, blockSize, n), Store(m, addr, data[..Offset(n, blockSize)]), [])
  {
    assert data[..Offset(n, blockSize)] == [];
    StoreNothing(m, addr);
    NothingHandled(m);
    HandlesAs(m, [], m, [], ChunkedUploadFrames(data, addr, blockSize, n), Store(m, addr, data[..Offset(n, blockSize)]), []);
  }

  /** The frames of the first `n` chunked uploads store the first
      `n` blocks of the data from `addr` on, and get no reply. */
  lemma {:induction false} ChunkedUploadStores(m: seq<uint8>, data: seq<uint8>, addr: uint32, blockSize: nat, n: nat)
    requires |m| == WORD && Offset(n, blockSize) <= |data| && addr + Offset(n, blockSize) < WORD
    ensures Handles(m, ChunkedUploadFrames(data, addr, blockSize, n), Store(m, addr, data[..Offset(n, blockSize)]), [])
  {
    if n == 0 {
      UploadNoBlocks(m, data, addr, blockSize, n);
    } else {
      var i := n - 1;
      OffsetMono(i, n, blockSize);
      ChunkedUploadStores(m, data, addr, blockSize, i);
      UploadNextBlock(m, data, addr, blockSize, i, n);
    }
  }

  /** One more block uploaded after the first `i` extends the stored
      prefix of the data by that block; `j` is `i + 1`. */
  lemma {:induction false} UploadNextBlock(m: seq<uint8>, data: seq<uint8>, addr: uint32, blockSize: nat, i: nat, j: nat)
    requires |m| == WORD && j == i + 1 && Offset(j, blockSize) <= |data| && addr + Offset(j, blockSize) < WORD
    requires Handles(m, ChunkedUploadFrames(data, addr, blockSize, i), Store(m, addr, data[..Offset(i, blockSize)]), [])
    ensures Handles(m, ChunkedUploadFrames(data, addr, blockSize, j), Store(m, addr, data[..Offset(j, blockSize)]), [])
  {
    var before, after := ChunkedUploadFrames(data, addr, blockSize, i), ChunkedUploadFrames(data, addr, blockSize, j);
    UploadFramesSnoc(data, addr, blockSize, i, j);
    UploadBlockHandled(m, data, addr, blockSize, i, j);
    HandlesThen(m, before, Store(m, addr, data[..Offset(i, blockSize)]), [],
                BlockFrame(data, addr, blockSize, i), Store(m, addr, data[..Offset(j, blockSize)]), [], after, []);
  }

  /** The frames of `j = i + 1` chunks are those of `i` chunks and then block `i`. */
  lemma {:induction false} UploadFramesSnoc(data: seq<uint8>, addr: uint32, blockSize: nat, i: nat, j: nat)
    requires j == i + 1
    ensures ChunkedUploadFrames(data, addr, blockSize, j)
      == ChunkedUploadFrames(data, addr, blockSize, i) + BlockFrame(data, addr, blockSize, i)
  {
  }

  /** Block `i` of a chunked download, covering `lo` to `hi`, gets back
      that block of memory and changes nothing; `j` is `i + 1`. */
  lemma {:induction false} DownloadBlockHandled(m: seq<uint8>, addr: uint32, blockSize: nat, i: nat, j: nat, lo: nat, hi: nat)
    requires |m| == WORD && j == i + 1 && lo == addr + Offset(i, blockSize) && hi == addr + Offset(j, blockSize) < WORD
    ensures Handles(m, BlockRequest(addr, blockSize, i), m, m[lo..hi])
  {
    DownloadHandled(m, lo, blockSize);
    HandlesAs(m, DownloadRequest(lo, blockSize), m, m[lo..lo + blockSize], BlockRequest(addr, blockSize, i), m, m[lo..hi]);
  }

  /** No chunked download requests get nothing back. */
  lemma {:induction false} DownloadNoBlocks(m: seq<uint8>, addr: uint32, blockSize: nat, n: nat)
    requires |m| == WORD && n == 0
    ensures Handles(m, ChunkedDownloadRequests(addr, blockSize, n), m, m[addr..addr + Offset(n, blockSize)])
  {
    assert m[addr..addr + Offset(n, blockSize)] == [];
    NothingHandled(m);
    HandlesAs(m, [], m, [], ChunkedDownloadRequests(addr, blockSize, n), m, m[addr..addr + Offset(n, blockSize)]);
  }

  /** The first `n` chunked download requests get back the first `n`
      blocks of memory from `addr` on, in order, and change nothing. */
  lemma {:induction false} ChunkedDownloadReads(m: seq<uint8>, addr: uint32, blockSize: nat, n: nat)
    requires |m| == WORD && addr + Offset(n, blockSize) < WORD
    ensures Handles(m, ChunkedDownloadRequests(addr, blockSize, n), m, m[addr..addr + Offset(n, blockSize)])
  {
    if n == 0 {
      DownloadNoBlocks(m, addr, blockSize, n);
    } else {
      var i := n - 1;
      OffsetMono(i, n, blockSize);
      ChunkedDownloadReads(m, addr, blockSize, i);
      DownloadNextBlock(m, addr, blockSize, i, n);
    }
  }

  /** One more block requested after the first `i` extends the reply by
      the next block of memory; `j` is `i + 1`. */
  lemma {:induction false} DownloadNextBlock(m: seq<uint8>, addr: uint32, blockSize: nat, i: nat, j: nat)
    requires |m| == WORD && j == i + 1 && addr + Offset(j, blockSize) < WORD
    requires Handles(m, ChunkedDownloadRequests(addr, blockSize, i), m, m[addr..addr + Offset(i, blockSize)])
    ensures Handles(m, ChunkedDownloadRequests(addr, blockSize, j), m, m[addr..addr + Offset(j, blockSize)])
  {
    var lo, hi := addr + Offset(i, blockSize), addr + Offset(j, blockSize);
    DownloadBlockHandled(m, addr, blockSize, i, j, lo, hi);
    SliceConcat(m, addr, lo, hi);
    DownloadRequestsSnoc(addr, blockSize, i, j);
    HandlesThen(m, ChunkedDownloadRequests(addr, blockSize, i), m, m[addr..lo],
                BlockRequest(addr, blockSize, i), m, m[lo..hi],
                ChunkedDownloadRequests(addr, blockSize, j), m[addr..hi]);
  }

  /** The requests of `j = i + 1` chunks are those of `i` chunks and then block `i`. */
  lemma {:induction false} DownloadRequestsSnoc(addr: uint32, blockSize: nat, i: nat, j: nat)
    requires j == i + 1
    ensures ChunkedDownloadRequests(addr, blockSize, j)
      == ChunkedDownloadRequests(addr, blockSize, i) + BlockRequest(addr, blockSize, i)
  {
  }

  /** Downloading in chunks what was just uploaded in chunks returns the
      data, less the trailing partial block, and leaves it in memory. */
  lemma ChunkedRoundTrip(m: seq<uint8>, data: seq<uint8>, addr: uint32, size: nat, blockSize: nat, rest: seq<uint8>)
    requires |m| == WORD && blockSize > 0 && size <= |data| && addr + size < WORD
    ensures var n := size / blockSize;
      var stored := Store(m, addr, data[..n * blockSize]);
      Listen(m, ChunkedUploadFrames(data, addr, blockSize, n) + ChunkedDownloadRequests(addr, blockSize, n) + rest)
        == After(data[..n * blockSize], Listen(stored, rest))
  {
    var n := size / blockSize;
    ChunkedCoverage(size, blockSize);
    OffsetIsProduct(n, blockSize);
    BlocksRoundTrip(m, data, addr, blockSize, n, rest);
  }

  /** The round trip over `n` whole blocks. */
  lemma BlocksRoundTrip(m: seq<uint8>, data: seq<uint8>, addr: uint32, blockSize: nat, n: nat, rest: seq<uint8>)
    requires |m| == WORD && Offset(n, blockSize) <= |data| && addr + Offset(n, blockSize) < WORD
    ensures var stored := Store(m, addr, data[..Offset(n, blockSize)]);
      Listen(m, ChunkedUploadFrames(data, addr, blockSize, n) + ChunkedDownloadRequests(addr, blockSize, n) + rest)
        == After(data[..Offset(n, blockSize)], Listen(stored, rest))
  {
    var len := Offset(n, blockSize);
    var stored := Store(m, addr, data[..len]);
    var frames := ChunkedUploadFrames(data, addr, blockSize, n) + ChunkedDownloadRequests(addr, blockSize, n);
    ChunkedUploadStores(m, data, addr, blockSize, n);
    ChunkedDownloadReads(stored, addr, blockSize, n);
    StoreRegion(m, addr, data[..len]);
    HandlesThen(m, ChunkedUploadFrames(data, addr, blockSize, n), stored, [],
                ChunkedDownloadRequests(addr, blockSize, n), stored, stored[addr..addr + len], frames, data[..len]);
    HandlesAt(m, frames, stored, data[..len], rest);
  }
}
