/** The pattern test of the memory test program (firmware/memtest) and of
    the bootloader's '3' command: fill 0x1000 bytes from 0x40000000 with a
    32-bit pattern, then send those bytes back over the UART. */
module Pattern {
  import opened Bytes
  import opened Soc

  const TEST_PATTERN: uint32 := 0x4142_4142
  const TEST_BASE: uint32 := 0x4000_0000
  const TEST_SIZE: nat := 0x1000
  /** `0x1000 / sizeof(uint32_t)` words. */
  const TEST_WORDS: nat := TEST_SIZE / 4

  const WRITING: string := "Writing testpattern...\r\n"
  const DUMPING: string := "Dumping testpattern...\r\n"
  const DONE: string := "\r\ndone!\r\n"

  /** The bytes the pattern occupies in memory: the pattern's four bytes,
      most significant first, once per word. */
  function Image(): (r: seq<uint8>)
    ensures |r| == TEST_SIZE
  {
    RepeatLength(Be32(TEST_PATTERN), TEST_WORDS);
    Repeat(Be32(TEST_PATTERN), TEST_WORDS)
  }

  /** On this big-endian processor the image reads as the text "ABAB"
      repeated once per word. */
  lemma ImageIsText()
    ensures Image() == Repeat(Ascii("ABAB"), TEST_WORDS)
  {
    assert Be32(TEST_PATTERN) == Ascii("ABAB");
  }

  /** The image covers exactly the test region, and byte `k` of it is byte
      `k % 4` of the pattern as the processor stores it. */
  lemma ImageAt(k: int)
    requires 0 <= k < TEST_SIZE
    ensures Image()[k] == Be32(TEST_PATTERN)[k % 4]
  {
    RepeatAt(Be32(TEST_PATTERN), TEST_WORDS, k);
  }

  /** The first `i + 1` words of the image are its first `i` and the
      pattern once more. */
  lemma ImagePrefix(i: nat)
    requires i < TEST_WORDS
    ensures Image()[..4 * i] + Be32(TEST_PATTERN) == Image()[..4 * (i + 1)]
  {
    forall k | 0 <= k < 4
      ensures Image()[4 * i + k] == Be32(TEST_PATTERN)[k]
    {
      ImageAt(4 * i + k);
    }
  }

  /** The first loop: `TEST_PATTERN` stored into `TEST_WORDS` consecutive
      words from `TEST_BASE`, and nothing else written. */
  method WritePattern(soc: Soc)
    requires soc.Valid()
    modifies soc.mem
    ensures soc.mem[..] == Store(old(soc.mem[..]), TEST_BASE, Image())
  {
    ghost var m0 := soc.mem[..];
    var i := 0;
    assert Image()[..0] == [];
    StoreNothing(m0, TEST_BASE);
    while i < TEST_WORDS
      invariant 0 <= i <= TEST_WORDS
      invariant soc.mem[..] == Store(m0, TEST_BASE, Image()[..4 * i])
    {
      soc.StoreWord(TEST_BASE + 4 * i, TEST_PATTERN);
      ImagePrefix(i);
      StoreStore(m0, TEST_BASE, Image()[..4 * i], Be32(TEST_PATTERN));
      i := i + 1;
    }
    assert Image()[..TEST_SIZE] == Image();
  }

  /** The second loop: `len` bytes sent from `base` on, in address order;
      memory is only read. */
  method Dump(soc: Soc, base: uint32, len: nat)
    requires soc.Valid() && base + len <= WORD
    modifies soc`tx
    ensures soc.tx == old(soc.tx) + soc.mem[base..base + len]
  {
    var i := 0;
    while i < len
      invariant 0 <= i <= len
      invariant soc.tx == old(soc.tx) + soc.mem[base..base + i]
    {
      soc.PutChar(soc.mem[base + i]);
      assert soc.mem[base..base + i + 1] == soc.mem[base..base + i] + [soc.mem[base + i]];
      i := i + 1;
    }
  }

  /** What the test sends: the two banners, the image and the closing line. */
  function Transcript(): seq<uint8>
  {
    Ascii(WRITING) + Ascii(DUMPING) + Image() + Ascii(DONE)
  }

  /** The whole test: the region holds the image afterwards, and since the
      dump reads back exactly the region just written, the test sends the
      image itself between its banners, whatever memory held before. */
  method Run(soc: Soc)
    requires soc.Valid()
    modifies soc`tx, soc.mem
    ensures soc.mem[..] == Store(old(soc.mem[..]), TEST_BASE, Image())
    ensures soc.tx == old(soc.tx) + Transcript()
  {
    ghost var t0 := soc.tx;
    soc.PutText(WRITING);
    WritePattern(soc);
    soc.PutText(DUMPING);
    StoreRegion(old(soc.mem[..]), TEST_BASE, Image());
    Dump(soc, TEST_BASE, TEST_SIZE);
    soc.PutText(DONE);
    TranscriptParts(t0);
  }

  lemma TranscriptParts(t0: seq<uint8>)
    ensures t0 + Ascii(WRITING) + Ascii(DUMPING) + Image() + Ascii(DONE) == t0 + Transcript()
  {
  }

  /** What the test shows between its banners: dumped byte `k` is
      character `k % 4` of "ABAB", so the 0x1000 characters read
      "ABABABAB...", whatever memory held before. */
  lemma TranscriptShowsText(k: int)
    requires 0 <= k < TEST_SIZE
    ensures var off := |Ascii(WRITING)| + |Ascii(DUMPING)|;
      Transcript()[off + k] == Ascii("ABAB")[k % 4]
  {
    var pre := Ascii(WRITING) + Ascii(DUMPING);
    MiddleAt(pre, Image(), Ascii(DONE), k);
    ImageAt(k);
    assert Be32(TEST_PATTERN) == Ascii("ABAB");
  }

  lemma MiddleAt(a: seq<uint8>, b: seq<uint8>, c: seq<uint8>, k: int)
    requires 0 <= k < |b|
    ensures (a + b + c)[|a| + k] == b[k]
  {
  }
}
