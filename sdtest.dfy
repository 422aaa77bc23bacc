/** The SD test program's memory test and its serial command loop
    (firmware/sd-test/main.c): `memtest`, which writes every RAM word's own
    address into it and reads them all back, and the `uartmode` loop of
    one-letter commands, among them an upload of hexadecimal records with
    an 8-bit checksum. */
module SdTest {
  import opened Bytes
  import opened Soc
  import opened SpikeHw

  /** The RAM `memtest` covers: `1024 * (512 - 16)` bytes from `RAM_START`
      on, a whole number of words. `RAM_START` itself is a board constant
      and is a parameter here. */
  const RAM_BYTES: nat := 0x7_C000  // 1024 * (512 - 16)
  const RAM_WORDS: nat := 0x1_F000  // RAM_BYTES / 4

  const MEMTEST_BANNER: string := "\r\nMEMTEST..."
  const MEMTEST_FILLED: string := "..."
  const MEMTEST_ERROR: string := "\r\nMEMTEST ERROR: "
  const MEMTEST_OK: string := "OK\n\r"

  /** What the first loop of `memtest` writes from `ram` on: each of `n`
      words holds its own address, stored most significant byte first. */
  function AddressImage(ram: nat, n: nat): (r: seq<uint8>)
    ensures |r| == 4 * n
  {
    if n == 0 then [] else AddressImage(ram, n - 1) + Be32(ram + 4 * (n - 1))
  }

  /** Word `k` of the image is its address. */
  lemma {:induction false} AddressImageAt(ram: nat, n: nat, k: nat)
    requires k < n
    ensures AddressImage(ram, n)[4 * k..4 * k + 4] == Be32(ram + 4 * k)
  {
    if k < n - 1 {
      AddressImageAt(ram, n - 1, k);
      assert AddressImage(ram, n)[4 * k..4 * k + 4] == AddressImage(ram, n - 1)[4 * k..4 * k + 4];
    } else {
      assert AddressImage(ram, n)[4 * k..4 * k + 4] == Be32(ram + 4 * k);
    }
  }

  /** The word at address `a` of memory `m`, as the processor loads it. */
  function LoadWord(m: seq<uint8>, a: nat): uint32
    requires a + 4 <= |m|
  {
    Be32Value([m[a], m[a + 1], m[a + 2], m[a + 3]])
  }

  /** Every one of the `n` words from `ram` on holds its own address. */
  ghost predicate HoldAddresses(m: seq<uint8>, ram: nat, n: nat)
    requires ram + 4 * n <= |m|
  {
    forall k :: 0 <= k < n ==> LoadWord(m, ram + 4 * k) == ram + 4 * k
  }

  /** The addresses the second loop of `memtest` complains about in
      memory `m`: those of the first `n` words that do not hold their own
      address, in address order. */
  function Failures(m: seq<uint8>, ram: nat, n: nat): seq<nat>
    requires ram + 4 * n <= |m|
  {
    if n == 0 then []
    else
      var a := ram + 4 * (n - 1);
      Failures(m, ram, n - 1) + if LoadWord(m, a) != a then [a] else []
  }

  /** The address of word `k` is complained about exactly when `k` is
      among the first `n` words and does not hold its own address. */
  lemma {:induction false} FailuresFound(m: seq<uint8>, ram: nat, n: nat, k: nat)
    requires ram + 4 * n <= |m|
    ensures ram + 4 * k in Failures(m, ram, n) <==> k < n && LoadWord(m, ram + 4 * k) != ram + 4 * k
  {
    if n > 0 {
      var a := ram + 4 * (n - 1);
      FailuresFound(m, ram, n - 1, k);
      ScanStep(m, ram, n - 1, a);
      var f := Failures(m, ram, n - 1);
      var last := if LoadWord(m, a) != a then [a] else [];
      assert ram + 4 * k in f + last <==> ram + 4 * k in f || ram + 4 * k in last;
    }
  }

  /** The line `memtest` sends for a word at address `a` that does not
      hold `a`: the error text `err` and the address in eight hexadecimal
      digits. */
  function ErrorLine(err: seq<uint8>, a: nat): seq<uint8>
  {
    err + HexDigits(a, 8)
  }

  /** What the second loop of `memtest` sends for the first `n` words of
      memory `m`: an error line for each word that does not hold its own
      address, in address order. */
  function Report(err: seq<uint8>, m: seq<uint8>, ram: nat, n: nat): seq<uint8>
    requires ram + 4 * n <= |m|
  {
    if n == 0 then []
    else
      var a := ram + 4 * (n - 1);
      Report(err, m, ram, n - 1) + if LoadWord(m, a) != a then ErrorLine(err, a) else []
  }

  /** The report holds one line for each failing address. */
  lemma {:induction false} ReportLines(err: seq<uint8>, m: seq<uint8>, ram: nat, n: nat)
    requires ram + 4 * n <= |m|
    ensures |Report(err, m, ram, n)| == |Failures(m, ram, n)| * (|err| + 8)
  {
    if n > 0 {
      var i := n - 1;
      var a := ram + 4 * i;
      ReportLines(err, m, ram, i);
      ScanStep(m, ram, i, a);
      ReportStep(err, m, ram, i, a);
      LineCount(|Report(err, m, ram, i)|, |Report(err, m, ram, i + 1)|, |Failures(m, ram, i)|,
                |Failures(m, ram, i + 1)|, |err| + 8, LoadWord(m, a) != a);
      assert i + 1 == n;
    }
  }

  /** One more word adds a line of `l` characters exactly when it adds a
      failure. */
  lemma LineCount(r: int, r': int, f: int, f': int, l: int, failed: bool)
    requires r == f * l
    requires r' == r + (if failed then l else 0) && f' == f + (if failed then 1 else 0)
    ensures r' == f' * l
  {
    if failed {
      MulSucc(f, l);
    }
  }

  lemma MulSucc(f: int, l: int)
    ensures (f + 1) * l == f * l + l
  {
  }

  /** Nothing fails exactly when every word holds its own address. */
  lemma {:induction false} FailuresEmpty(m: seq<uint8>, ram: nat, n: nat)
    requires ram + 4 * n <= |m|
    ensures Failures(m, ram, n) == [] <==> HoldAddresses(m, ram, n)
  {
    if n > 0 {
      FailuresEmpty(m, ram, n - 1);
      var a := ram + 4 * (n - 1);
      if HoldAddresses(m, ram, n - 1) && LoadWord(m, a) == a {
        assert HoldAddresses(m, ram, n);
      }
    }
  }

  /** Memory just filled by the first loop holds every address. */
  lemma FilledHolds(m: seq<uint8>, ram: nat, n: nat)
    requires ram + 4 * n <= |m| <= WORD
    ensures HoldAddresses(Store(m, ram, AddressImage(ram, n)), ram, n)
  {
    var m' := Store(m, ram, AddressImage(ram, n));
    forall k | 0 <= k < n
      ensures LoadWord(m', ram + 4 * k) == ram + 4 * k
    {
      var a := ram + 4 * k;
      StoreSlice(m, ram, AddressImage(ram, n), 4 * k, 4);
      AddressImageAt(ram, n, k);
      assert [m'[a], m'[a + 1], m'[a + 2], m'[a + 3]] == m'[a..a + 4];
      Be32Word(ram + 4 * k);
    }
  }

  /** The scan of memory the fill has just written reports nothing. */
  lemma FilledReportsNothing(err: seq<uint8>, m: seq<uint8>, ram: nat)
    requires ram + RAM_BYTES <= |m| <= WORD
    ensures Failures(Store(m, ram, AddressImage(ram, RAM_WORDS)), ram, RAM_WORDS) == []
    ensures Report(err, Store(m, ram, AddressImage(ram, RAM_WORDS)), ram, RAM_WORDS) == []
  {
    var m' := Store(m, ram, AddressImage(ram, RAM_WORDS));
    FilledHolds(m, ram, RAM_WORDS);
    FailuresEmpty(m', ram, RAM_WORDS);
    ReportLines(err, m', ram, RAM_WORDS);
  }

  /** Reading back part of a stored range. */
  lemma StoreSlice(m: seq<uint8>, a: nat, d: seq<uint8>, j: nat, len: nat)
    requires a + |d| <= |m| && j + len <= |d|
    ensures Store(m, a, d)[a + j..a + j + len] == d[j..j + len]
  {
    StoreRegion(m, a, d);
    assert Store(m, a, d)[a + j..a + j + len] == Store(m, a, d)[a..a + |d|][j..j + len];
  }

  /** The first loop of `memtest`: each word from `ram` on gets its own
      address, and nothing else is written. */
  method FillAddresses(soc: Soc, ram: uint32)
    requires soc.Valid() && ram + RAM_BYTES <= WORD
    modifies soc.mem
    ensures soc.mem[..] == Store(old(soc.mem[..]), ram, AddressImage(ram, RAM_WORDS))
  {
    ghost var m0 := soc.mem[..];
    ghost var i := 0;
    var p := ram;
    StoreNothing(m0, ram);
    while p < ram + RAM_BYTES
      invariant 0 <= i <= RAM_WORDS && p == ram + 4 * i
      invariant soc.mem[..] == Store(m0, ram, AddressImage(ram, i))
    {
      ghost var m := soc.mem[..];
      soc.StoreWord(p, p);
      FillStep(m0, ram, i, p, m, soc.mem[..]);
      p, i := p + 4, i + 1;
    }
    assert i == RAM_WORDS;
  }

  /** One pass of the first loop: the next word stored after those already
      written. */
  lemma FillStep(m0: seq<uint8>, ram: nat, i: nat, p: nat, m: seq<uint8>, m': seq<uint8>)
    requires p == ram + 4 * i && p + 4 <= |m0| && m == Store(m0, ram, AddressImage(ram, i))
    requires m' == Store(m, p, Be32(p))
    ensures m' == Store(m0, ram, AddressImage(ram, i + 1))
  {
    StoreStore(m0, ram, AddressImage(ram, i), Be32(ram + 4 * i));
  }

  /** The second loop of `memtest`: memory is only read. */
  method Scan(soc: Soc, ram: uint32)
    requires soc.Valid() && ram + RAM_BYTES <= WORD
    modifies soc`tx
    ensures soc.tx == old(soc.tx) + Report(Ascii(MEMTEST_ERROR), soc.mem[..], ram, RAM_WORDS)
  {
    ghost var i := 0;
    ghost var err := Ascii(MEMTEST_ERROR);
    var p := ram;
    while p < ram + RAM_BYTES
      invariant 0 <= i <= RAM_WORDS && p == ram + 4 * i
      invariant soc.tx == old(soc.tx) + Report(err, soc.mem[..], ram, i)
    {
      ghost var t := soc.tx;
      var failed := ScanWord(soc, p);
      ScanAdvance(err, soc.mem[..], ram, i, p, old(soc.tx), t, soc.tx);
      p, i := p + 4, i + 1;
    }
    assert i == RAM_WORDS;
  }

  /** One pass of the second loop: the word at `p` loaded, and reported
      when it differs from `p`. */
  method ScanWord(soc: Soc, p: uint32) returns (failed: bool)
    requires soc.Valid() && p + 4 <= WORD
    modifies soc`tx
    ensures failed <==> LoadWord(soc.mem[..], p) != p
    ensures soc.tx == old(soc.tx) + if failed then ErrorLine(Ascii(MEMTEST_ERROR), p) else []
  {
    var w := Be32Value([soc.mem[p], soc.mem[p + 1], soc.mem[p + 2], soc.mem[p + 3]]);
    assert w == LoadWord(soc.mem[..], p);
    failed := w != p;
    if failed {
      ghost var t := soc.tx;
      assert IsText(MEMTEST_ERROR);
      soc.PutText(MEMTEST_ERROR);
      WriteInt(soc, 8, p);
      AppendAssoc(t, Ascii(MEMTEST_ERROR), HexDigits(p, 8));
    }
  }

  /** The failures among one word more. */
  lemma ScanStep(m: seq<uint8>, ram: nat, i: nat, a: nat)
    requires a == ram + 4 * i && a + 4 <= |m|
    ensures Failures(m, ram, i + 1) == Failures(m, ram, i) + if LoadWord(m, a) != a then [a] else []
  {
    var n := i + 1;
    assert n - 1 == i;
    assert Failures(m, ram, n) == Failures(m, ram, n - 1) + if LoadWord(m, a) != a then [a] else [];
  }

  /** The output of the second loop after one word more. */
  lemma ScanAdvance(err: seq<uint8>, m: seq<uint8>, ram: nat, i: nat, p: nat, t0: seq<uint8>, t: seq<uint8>, t': seq<uint8>)
    requires p == ram + 4 * i && p + 4 <= |m|
    requires t == t0 + Report(err, m, ram, i)
    requires t' == t + if LoadWord(m, p) != p then ErrorLine(err, p) else []
    ensures t' == t0 + Report(err, m, ram, i + 1)
  {
    var line := if LoadWord(m, p) != p then ErrorLine(err, p) else [];
    ReportStep(err, m, ram, i, p);
    AppendAssoc(t0, Report(err, m, ram, i), line);
  }

  /** The report on one word more. */
  lemma ReportStep(err: seq<uint8>, m: seq<uint8>, ram: nat, i: nat, a: nat)
    requires a == ram + 4 * i && a + 4 <= |m|
    ensures Report(err, m, ram, i + 1) == Report(err, m, ram, i) + if LoadWord(m, a) != a then ErrorLine(err, a) else []
  {
    var n := i + 1;
    assert n - 1 == i;
    assert Report(err, m, ram, n) == Report(err, m, ram, n - 1) + if LoadWord(m, a) != a then ErrorLine(err, a) else [];
  }

  /** What `memtest` sends when every word reads back as written. */
  function MemTestPassed(): seq<uint8>
  {
    Ascii(MEMTEST_BANNER) + Ascii(MEMTEST_FILLED) + Ascii(MEMTEST_OK)
  }

  /** `memtest`: the fill, then the scan of what the fill left, so that the
      scan reports nothing; "OK" is sent whatever the scan found. */
  method MemTest(soc: Soc, ram: uint32)
    requires soc.Valid() && ram + RAM_BYTES <= WORD
    modifies soc`tx, soc.mem
    ensures soc.mem[..] == Store(old(soc.mem[..]), ram, AddressImage(ram, RAM_WORDS))
    ensures soc.tx == old(soc.tx) + MemTestPassed()
  {
    ghost var t0 := soc.tx;
    ghost var m0 := soc.mem[..];
    assert IsText(MEMTEST_BANNER) && IsText(MEMTEST_FILLED) && IsText(MEMTEST_OK);
    soc.PutText(MEMTEST_BANNER);
    FillAddresses(soc, ram);
    soc.PutText(MEMTEST_FILLED);
    Scan(soc, ram);
    FilledReportsNothing(Ascii(MEMTEST_ERROR), m0, ram);
    soc.PutText(MEMTEST_OK);
    JoinOutput(t0, Ascii(MEMTEST_BANNER), Ascii(MEMTEST_FILLED), Report(Ascii(MEMTEST_ERROR), soc.mem[..], ram, RAM_WORDS), Ascii(MEMTEST_OK));
  }

  lemma JoinOutput(t0: seq<uint8>, b: seq<uint8>, f: seq<uint8>, r: seq<uint8>, ok: seq<uint8>)
    requires r == []
    ensures t0 + b + f + r + ok == t0 + (b + f + ok)
  {
  }
}
