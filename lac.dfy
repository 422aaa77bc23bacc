/** The uploader's `lac` command: it arms the logic analyser core on the
    board, waits for the trigger, reads the captured samples and writes
    them as value changes of a value change dump (clause 18 of IEEE
    1364-2005), one timestamp and one 8-bit vector per sample. */
module Lac {
  import opened Bytes
  import opened SpikeHw
  import opened HostProtocol

  /** The bytes the session writes before it waits: six disarm commands
      (0x00), the arm command (0x01), the select, trigger and trigger mask
      values, each cut to a byte, and a closing 0x00. */
  function ArmSequence(select: int, trigger: int, mask: int): (r: seq<uint8>)
    ensures |r| == 11
  {
    Repeat<uint8>([0], 6) + [1, select % 0x100, trigger % 0x100, mask % 0x100, 0]
  }

  /** The analyser reads the arm command after the disarm run, then the
      three settings, which come through unchanged when they fit a byte. */
  lemma ArmSequenceFields(select: int, trigger: int, mask: int)
    ensures var r := ArmSequence(select, trigger, mask);
      (forall k :: 0 <= k < 6 ==> r[k] == 0) && r[6] == 1 && r[10] == 0
      && r[7] as int % 0x100 == select % 0x100 && r[8] as int % 0x100 == trigger % 0x100
      && r[9] as int % 0x100 == mask % 0x100
    ensures 0 <= select < 0x100 && 0 <= trigger < 0x100 && 0 <= mask < 0x100 ==>
      ArmSequence(select, trigger, mask)[7..10] == [select, trigger, mask]
  {
    var r := ArmSequence(select, trigger, mask);
    assert r[6..] == [1, select % 0x100, trigger % 0x100, mask % 0x100, 0];
  }

  /** Bit `i` of `v` in two's complement, as `v & (1 << i)` tests it. */
  function BitChar(v: int, i: nat): (c: char)
    ensures c == '1' <==> (v / Pow2(i)) % 2 == 1
    ensures c == '0' || c == '1'
  {
    if (v / Pow2(i)) % 2 == 1 then '1' else '0'
  }

  /** Bits `hi - 1` down to `lo` of `v`, most significant first. */
  function Bits(v: int, hi: nat, lo: nat): (r: string)
    ensures |r| == if lo < hi then hi - lo else 0
    decreases hi - lo
  {
    if lo >= hi then [] else Bits(v, hi, lo + 1) + [BitChar(v, lo)]
  }

  /** `binary(v, bits)`: `b` and then the `bits` low bits of `v`, most
      significant first. */
  function Binary(v: int, bits: nat): (r: string)
    ensures |r| == bits + 1 && r[0] == 'b'
  {
    "b" + Bits(v, bits, 0)
  }

  /** The value of a string of binary digits, most significant first. */
  function BitsValue(s: string): nat
  {
    if s == [] then 0 else 2 * BitsValue(s[..|s| - 1]) + if s[|s| - 1] == '1' then 1 else 0
  }

  lemma LowBits(w: int, p: nat)
    requires p > 0
    ensures ((w / 2) % p) * 2 + w % 2 == w % (2 * p)
  {
    var q, r := (w / 2) / p, (w / 2) % p;
    assert w == (q * p + r) * 2 + w % 2;
    Distrib(q, p, r, 2);
    DivUnique(w, p * 2, q, r * 2 + w % 2);
  }

  /** The digits read back as the bits they were taken from. */
  lemma {:induction false} BitsRoundTrip(v: int, hi: nat, lo: nat)
    requires lo <= hi
    ensures BitsValue(Bits(v, hi, lo)) == (v / Pow2(lo)) % Pow2(hi - lo)
    decreases hi - lo
  {
    if lo < hi {
      var n := lo + 1;
      var s := Bits(v, hi, lo);
      assert s[..|s| - 1] == Bits(v, hi, n) && s[|s| - 1] == BitChar(v, lo);
      BitsRoundTrip(v, hi, n);
      var w := v / Pow2(lo);
      DivDiv(v, Pow2(lo), 2);
      assert Pow2(n) == Pow2(lo) * 2 && Pow2(hi - lo) == 2 * Pow2(hi - n);
      LowBits(w, Pow2(hi - n));
    }
  }

  /** `binary(v, bits)` holds `v` modulo `2^bits`. */
  lemma BinaryRoundTrip(v: int, bits: nat)
    ensures BitsValue(Binary(v, bits)[1..]) == v % Pow2(bits)
  {
    assert Binary(v, bits)[1..] == Bits(v, bits, 0);
    BitsRoundTrip(v, bits, 0);
  }

  /** The bit loop of `binary`: the mask walks from bit `bits - 1` down to
      bit 0, appending one digit each turn. */
  method BinaryOf(v: int, bits: nat) returns (r: string)
    ensures r == Binary(v, bits)
  {
    r := "b";
    var j := bits;
    while j > 0
      invariant 0 <= j <= bits && r == "b" + Bits(v, bits, j)
    {
      var i := j - 1;
      assert i + 1 == j;
      r := r + [BitChar(v, i)];
      j := i;
    }
  }

  function DigitOf(d: nat): (c: char)
    requires d < 10
  {
    ('0' as int + d) as char
  }

  /** `str(n)`. */
  function Decimal(n: nat): (r: string)
    ensures 1 <= |r| && forall k :: 0 <= k < |r| ==> '0' <= r[k] <= '9'
  {
    if n < 10 then [DigitOf(n)] else Decimal(n / 10) + [DigitOf(n % 10)]
  }

  /** The value of a string of decimal digits. */
  function DecimalValue(s: string): int
  {
    if s == [] then 0 else 10 * DecimalValue(s[..|s| - 1]) + (s[|s| - 1] as int - '0' as int)
  }

  lemma {:induction false} DecimalRoundTrip(n: nat)
    ensures DecimalValue(Decimal(n)) == n
  {
    if n >= 10 {
      DecimalRoundTrip(n / 10);
      var s := Decimal(n);
      assert s[..|s| - 1] == Decimal(n / 10);
    }
  }

  /** The width of the probe the dump declares (`$var wire 8 P`). */
  const PROBE_WIDTH: nat := 8

  /** The probe's vector holds every sample byte exactly. */
  lemma ProbeValue(c: uint8)
    ensures BitsValue(Binary(c, PROBE_WIDTH)[1..]) == c
  {
    BinaryRoundTrip(c, PROBE_WIDTH);
    ProbeRange();
  }

  lemma ProbeRange()
    ensures Pow2(PROBE_WIDTH) == 0x100
  {
  }

  /** The lines for sample `i` (counted from 0) of value `c`, as the value
      change dump format spells them: a timestamp line `#<i + 1>` and a
      vector change of the probe `P`. */
  function SampleLine(i: nat, c: uint8): (r: string)
  {
    "#" + Decimal(i + 1) + "\n" + Binary(c, PROBE_WIDTH) + " P\n"
  }

  /** The same lines as written: the escape `\#` is not one Python knows,
      so the backslash stays, and no line break follows the timestamp. */
  function SampleLineAsWritten(i: nat, c: uint8): (r: string)
  {
    "\\#" + Decimal(i + 1) + Binary(c, PROBE_WIDTH) + " P\n"
  }

  /** Where the fields of a sample's lines sit. */
  lemma SampleLayout(l: string, d: string, b: string)
    requires l == "#" + d + "\n" + b + " P\n" && |b| == 9
    ensures var k := |d|;
      |l| == k + 14 && l[0] == '#' && l[1..1 + k] == d && l[1 + k] == '\n'
      && l[2 + k] == b[0] && l[3 + k..11 + k] == b[1..] && l[11 + k..] == " P\n"
  {
    var k := |d|;
    assert l[1..1 + k] == d;
    assert l[3 + k..11 + k] == b[1..];
    assert l[11 + k..] == " P\n";
  }

  /** A reader of the dump gets the sample's number and value back from
      the corrected lines. */
  lemma SampleLineParses(i: nat, c: uint8)
    ensures var l, k := SampleLine(i, c), |Decimal(i + 1)|;
      |l| == k + 14 && l[0] == '#' && DecimalValue(l[1..1 + k]) == i + 1 && l[1 + k] == '\n'
      && l[2 + k] == 'b' && BitsValue(l[3 + k..11 + k]) == c && l[11 + k..] == " P\n"
  {
    var b := Binary(c, PROBE_WIDTH);
    assert |b| == 9;
    SampleLayout(SampleLine(i, c), Decimal(i + 1), b);
    DecimalRoundTrip(i + 1);
    ProbeValue(c);
  }

  /** As written no line of the dump starts with `#`, and the timestamp
      runs into the value: the first sample of value 5 gives
      `\#1b00000101 P` on one line. */
  lemma SampleLineAsWrittenGarbles()
    ensures SampleLineAsWritten(0, 5) == "\\#1b00000101 P\n"
    ensures SampleLine(0, 5) == "#1\nb00000101 P\n"
  {
    assert Decimal(1) == "1";
    FiveBits();
  }

  lemma FiveBits()
    ensures Binary(5, PROBE_WIDTH) == "b00000101"
  {
    assert Bits(5, 8, 3) == "00000";
    assert Bits(5, 8, 0) == "00000101";
  }

  /** Where the fields of a sample's line as written sit. */
  lemma SampleLayoutAsWritten(l: string, d: string, b: string)
    requires l == "\\#" + d + b + " P\n" && |b| == 9 && '\n' !in d && '\n' !in b
    ensures var k := |d|;
      |l| == k + 14 && l[..2] == "\\#" && l[2..2 + k] == d
      && l[2 + k] == b[0] && l[3 + k..11 + k] == b[1..] && l[11 + k..] == " P\n"
      && '\n' !in l[..|l| - 1]
  {
    var k := |d|;
    assert l[..2] == "\\#";
    assert l[2..2 + k] == d;
    assert l[3 + k..11 + k] == b[1..];
    assert l[11 + k..] == " P\n";
    assert l[..|l| - 1] == "\\#" + d + b + " P";
  }

  lemma {:induction false} BitsNoFeed(v: int, hi: nat, lo: nat)
    ensures '\n' !in Bits(v, hi, lo)
    decreases hi - lo
  {
    if lo < hi {
      BitsNoFeed(v, hi, lo + 1);
    }
  }

  lemma DecimalNoFeed(n: nat)
    ensures '\n' !in Decimal(n)
  {
  }

  /** What a reader gets from a sample's text as written: one line of
      `\#`, the sample's number, `b`, its eight bits and ` P`, with the
      line's only line feed at its end. */
  lemma SampleLineAsWrittenParses(i: nat, c: uint8)
    ensures var l, k := SampleLineAsWritten(i, c), |Decimal(i + 1)|;
      |l| == k + 14 && l[..2] == "\\#" && DecimalValue(l[2..2 + k]) == i + 1
      && l[2 + k] == 'b' && BitsValue(l[3 + k..11 + k]) == c && l[11 + k..] == " P\n"
      && '\n' !in l[..|l| - 1]
  {
    var b := Binary(c, PROBE_WIDTH);
    BitsNoFeed(c, PROBE_WIDTH, 0);
    assert b == "b" + Bits(c, PROBE_WIDTH, 0);
    DecimalNoFeed(i + 1);
    SampleLayoutAsWritten(SampleLineAsWritten(i, c), Decimal(i + 1), b);
    DecimalRoundTrip(i + 1);
    ProbeValue(c);
  }

  /** The number of line feeds in `s`. */
  function LineFeeds(s: string): nat
  {
    if s == [] then 0 else LineFeeds(s[..|s| - 1]) + if s[|s| - 1] == '\n' then 1 else 0
  }

  lemma {:induction false} LineFeedsAppend(a: string, b: string)
    ensures LineFeeds(a + b) == LineFeeds(a) + LineFeeds(b)
    decreases |b|
  {
    if b != [] {
      assert (a + b)[..|a + b| - 1] == a + b[..|b| - 1];
      LineFeedsAppend(a, b[..|b| - 1]);
    } else {
      assert a + b == a;
    }
  }

  lemma {:induction false} LineFeedsFree(s: string)
    requires '\n' !in s
    ensures LineFeeds(s) == 0
    decreases |s|
  {
    if s != [] {
      LineFeedsFree(s[..|s| - 1]);
    }
  }

  lemma SampleLineAsWrittenFeeds(i: nat, c: uint8)
    ensures LineFeeds(SampleLineAsWritten(i, c)) == 1
  {
    var l := SampleLineAsWritten(i, c);
    SampleLineAsWrittenParses(i, c);
    LineFeedsFree(l[..|l| - 1]);
    LineFeedsAppend(l[..|l| - 1], [l[|l| - 1]]);
    assert l[..|l| - 1] + [l[|l| - 1]] == l;
  }

  /** The dump text the read loop writes for the samples `cs`, in order,
      each sample as its line as written. */
  function Samples(cs: seq<uint8>): (r: string)
  {
    if cs == [] then [] else Samples(cs[..|cs| - 1]) + SampleLineAsWritten(|cs| - 1, cs[|cs| - 1])
  }

  /** The text holds one line per sample, where the dump format wants two:
      as written, the timestamps and the values share their lines. */
  lemma {:induction false} SamplesLines(cs: seq<uint8>)
    ensures LineFeeds(Samples(cs)) == |cs|
    decreases |cs|
  {
    if cs != [] {
      var init := cs[..|cs| - 1];
      SamplesLines(init);
      SampleLineAsWrittenFeeds(|cs| - 1, cs[|cs| - 1]);
      LineFeedsAppend(Samples(init), SampleLineAsWritten(|cs| - 1, cs[|cs| - 1]));
    }
  }

  /** The disarm and arm commands of the session. */
  method Arm(lm32: LM32Serial, select: int, trigger: int, mask: int)
    modifies lm32
    ensures lm32.tx == old(lm32.tx) + ArmSequence(select, trigger, mask)
    ensures lm32.rx == old(lm32.rx) && lm32.ticks == old(lm32.ticks)
  {
    var k := 0;
    while k < 6
      invariant 0 <= k <= 6 && lm32.tx == old(lm32.tx) + Repeat<uint8>([0], k)
      invariant lm32.rx == old(lm32.rx) && lm32.ticks == old(lm32.ticks)
    {
      lm32.PutUint8(0x00);
      k := k + 1;
    }
    lm32.PutUint8(0x01);
    lm32.PutUint8(select);
    lm32.PutUint8(trigger);
    lm32.PutUint8(mask);
    lm32.PutUint8(0x00);
  }

  /** The read loop: `size` samples, each turned into its dump lines. */
  method ReadSamples(lm32: LM32Serial, size: nat) returns (vcd: string)
    requires size <= |lm32.rx|
    modifies lm32
    ensures vcd == Samples(old(lm32.rx)[..size])
    ensures lm32.rx == old(lm32.rx)[size..] && lm32.tx == old(lm32.tx) && lm32.ticks == old(lm32.ticks)
  {
    ghost var samples := old(lm32.rx)[..size];
    vcd := [];
    var i := 0;
    while i < size
      invariant 0 <= i <= size && lm32.rx == old(lm32.rx)[i..]
      invariant vcd == Samples(samples[..i])
      invariant lm32.tx == old(lm32.tx) && lm32.ticks == old(lm32.ticks)
    {
      var c := lm32.GetUint8();
      assert c == samples[i];
      assert samples[..i + 1][..i] == samples[..i];
      vcd := vcd + SampleLineAsWritten(i, c);
      i := i + 1;
    }
    assert samples[..i] == samples;
  }

  /** The session after the port is open: arm, wait for the exponent `e`
      of the sample count, read `1 << e` samples and turn each into its
      dump lines. */
  method Capture(lm32: LM32Serial, select: int, trigger: int, mask: int) returns (vcd: string)
    requires |lm32.rx| >= 1 && |lm32.rx| >= 1 + Pow2(lm32.rx[0])
    modifies lm32
    ensures var size := Pow2(old(lm32.rx)[0]);
      lm32.tx == old(lm32.tx) + ArmSequence(select, trigger, mask)
      && lm32.rx == old(lm32.rx)[1 + size..] && lm32.ticks == old(lm32.ticks)
      && vcd == Samples(old(lm32.rx)[1..1 + size])
  {
    Arm(lm32, select, trigger, mask);
    var e := lm32.GetUint8();
    var size := Pow2(e);
    vcd := ReadSamples(lm32, size);
    assert old(lm32.rx)[1..][..size] == old(lm32.rx)[1..1 + size];
    assert old(lm32.rx)[1..][size..] == old(lm32.rx)[1 + size..];
  }
}
