/** The command loop the SD test program falls into (`uartmode` in
    firmware/sd-test/main.c): it prints '>', takes one command character
    and resets, starts the loaded program, runs the memory test, uploads a
    record of hexadecimal digits or jumps to an address read in
    hexadecimal. */
module SdMonitor {
  import opened Bytes
  import opened Soc
  import opened SpikeHw
  import SdTest

  const RESET: uint8 := 'r' as int
  const START: uint8 := 's' as int
  const MEMTEST: uint8 := 'm' as int
  const UPLOAD: uint8 := 'u' as int
  const GO: uint8 := 'g' as int
  /** Printed before each command is read. */
  const PROMPT: uint8 := '>' as int
  /** Where 's' jumps: the entry point of the program in RAM. */
  const START_ADDR: uint32 := 0x4000_06a8
  /** The count of an upload record covers the four address bytes and the
      checksum byte besides the data. */
  const RECORD_OVERHEAD: nat := 5

  /** A command as the loop reads it. */
  datatype Command =
    | Reset
    | Start
    | MemoryTest
    | Upload(start: uint32, size: uint32, data: seq<uint8>, sum: uint8)
    | Go(addr: uint32)
    | Ignored(c: uint8)

  /** Where the loop stands once the bytes received run out or it leaves. */
  datatype Outcome =
    | Idle                  // waiting in `uart_getchar` for a command character
    | Blocked               // waiting inside a command for digits not received yet
    | Jumped(addr: uint32)  // control passed to `addr`

  predicate WellFormed(cmd: Command)
  {
    cmd.Upload? ==> |cmd.data| == Span(cmd.start, cmd.size)
  }

  /** The command that character `c` makes of the bytes `s[p..]` received
      after it, with how many of them it reads; None when it needs more
      digits than were received. An upload reads two digits of count,
      eight of address, then two digits for each byte its loop stores; its
      checksum is what `readint` sums over those three fields, which is
      the 8-bit sum of the bytes the digits stand for (`DecodeRecord`). */
  function Decode(c: uint8, s: seq<uint8>, p: nat): (r: Option<(Command, nat)>)
    requires p <= |s|
    ensures r.Some? ==> p + r.value.1 <= |s| && WellFormed(r.value.0)
  {
    if c == RESET then Some((Reset, 0))
    else if c == START then Some((Start, 0))
    else if c == MEMTEST then Some((MemoryTest, 0))
    else if c == UPLOAD then
      if |s| < p + 10 then None
      else
        var size := (HexValue(s[p..p + 2]) % WORD - RECORD_OVERHEAD) % WORD;
        var start := HexValue(s[p + 2..p + 10]) % WORD;
        var n := Span(start, size);
        if |s| < p + 10 + 2 * n then None
        else
          var sum := (Checksum(s[p..p + 2]) + Checksum(s[p + 2..p + 10]) + Checksum(s[p + 10..p + 10 + 2 * n])) % 0x100;
          Some((Upload(start, size, HexBytes(s[p + 10..p + 10 + 2 * n]), sum), 10 + 2 * n))
    else if c == GO then
      if |s| < p + 8 then None else Some((Go(HexValue(s[p..p + 8]) % WORD), 8))
    else Some((Ignored(c), 0))
  }

  /** What an upload sends back: `writeint(2, ~checksum)`, where
      `readint` has summed into the byte `(uint8_t *) &checksum` points to.
      On this big-endian processor that is the most significant byte of
      the 32-bit `checksum`, while `writeint(2, ...)` sends the two least
      significant digits. */
  function ReplyAsWritten(sum: uint8): (r: seq<uint8>)
    ensures |r| == 2
  {
    HexDigits(0xFFFF_FFFF - sum * 0x100_0000, 2)
  }

  /** The reply as written never depends on the checksum: it is "FF". */
  lemma ReplyIgnoresChecksum(sum: uint8)
    ensures ReplyAsWritten(sum) == ['F' as int, 'F' as int]
  {
    var v := 0xFFFF_FFFF - sum * 0x100_0000;
    var q := 0xFFF_FFFF - sum * 0x10_0000;
    DivUnique(v, 16, q, 15);
    DivUnique(q, 16, 0xFF_FFFF - sum * 0x1_0000, 15);
    assert HexDigits(q, 1) == HexDigits(q / 16, 0) + [DigitChar(15)];
    assert HexDigits(v, 2) == HexDigits(q, 1) + [DigitChar(15)];
  }

  /** Two different checksums, one reply. */
  lemma ReplyAsWrittenCollides()
    ensures ReplyAsWritten(0) == ReplyAsWritten(0x5A)
  {
    ReplyIgnoresChecksum(0);
    ReplyIgnoresChecksum(0x5A);
  }

  /** The reply the loop evidently means to send: the complement of the
      8-bit checksum, in two digits. */
  function Reply(sum: uint8): (r: seq<uint8>)
    ensures |r| == 2
  {
    HexDigits(0xFFFF_FFFF - sum, 2)
  }

  /** The corrected reply read back and added to the checksum gives 0xFF,
      so the host can check the record with one addition. */
  lemma ReplyCompletesChecksum(sum: uint8)
    ensures (sum + HexValue(Reply(sum))) % 0x100 == 0xFF
    ensures Reply(sum) != Reply((sum + 1) % 0x100)
  {
    ReplyValue(sum);
    ReplyValue((sum + 1) % 0x100);
  }

  lemma ReplyValue(sum: uint8)
    ensures HexValue(Reply(sum)) == 0xFF - sum
  {
    HexDigitsRoundTrip(0xFFFF_FFFF - sum, 2);
    assert Pow16(2) == 0x100;
    DivUnique(0xFFFF_FFFF - sum, 0x100, 0xFF_FFFF, 0xFF - sum);
  }

  /** The memory after a command and the bytes it sends; `ram` is where
      the memory test starts. */
  function Execute(m: seq<uint8>, ram: nat, cmd: Command): (e: (seq<uint8>, seq<uint8>))
    requires |m| == WORD && ram + SdTest.RAM_BYTES <= WORD && WellFormed(cmd)
    ensures |e.0| == WORD
  {
    match cmd
    case Upload(start, size, data, sum) =>
      SpanMeaning(start, size);
      (Store(m, start, data), ReplyAsWritten(sum))
    case MemoryTest => (Store(m, ram, SdTest.AddressImage(ram, SdTest.RAM_WORDS)), SdTest.MemTestPassed())
    case _ => (m, [])
  }

  function OutcomeOf(cmd: Command): Outcome
  {
    match cmd
    case Reset => Jumped(0)
    case Start => Jumped(START_ADDR)
    case Go(a) => Jumped(a)
    case _ => Idle
  }

  /** The device's run: the memory, the bytes sent and where the loop
      stops. */
  datatype DeviceRun = DeviceRun(mem: seq<uint8>, out: seq<uint8>, outcome: Outcome)

  function After(out: seq<uint8>, r: DeviceRun): DeviceRun
  {
    DeviceRun(r.mem, out + r.out, r.outcome)
  }

  /** The loop at the top of an iteration, with memory `m`, when `s[p..]`
      is what the UART receives from then on: '>' is sent, a command read
      and carried out, and the loop goes round again unless the command
      jumps or waits for digits. */
  function Loop(m: seq<uint8>, ram: nat, s: seq<uint8>, p: nat): (r: DeviceRun)
    requires |m| == WORD && ram + SdTest.RAM_BYTES <= WORD && p <= |s|
    ensures |r.mem| == WORD && |r.out| > 0 && r.out[0] == PROMPT
    decreases |s| - p
  {
    if p == |s| then DeviceRun(m, [PROMPT], Idle)
    else
      match Decode(s[p], s, p + 1)
      case None => DeviceRun(m, [PROMPT], Blocked)
      case Some(d) =>
        var e := Execute(m, ram, d.0);
        if OutcomeOf(d.0) != Idle then DeviceRun(e.0, [PROMPT] + e.1, OutcomeOf(d.0))
        else After([PROMPT] + e.1, Loop(e.0, ram, s, p + 1 + d.1))
  }

  /** A command that keeps the loop going: its effect, then the loop on
      what follows it. */
  lemma {:induction false} LoopStep(m: seq<uint8>, ram: nat, s: seq<uint8>, p: nat, cmd: Command, n: nat, q: nat)
    requires |m| == WORD && ram + SdTest.RAM_BYTES <= WORD && p < |s|
    requires Decode(s[p], s, p + 1) == Some((cmd, n)) && OutcomeOf(cmd) == Idle && q == p + 1 + n
    ensures var e := Execute(m, ram, cmd);
      Loop(m, ram, s, p) == After([PROMPT] + e.1, Loop(e.0, ram, s, q))
  {
  }

  /** A command that leaves the loop: its effect, and the loop is over. */
  lemma {:induction false} LoopLeaves(m: seq<uint8>, ram: nat, s: seq<uint8>, p: nat, cmd: Command, n: nat)
    requires |m| == WORD && ram + SdTest.RAM_BYTES <= WORD && p < |s|
    requires Decode(s[p], s, p + 1) == Some((cmd, n)) && OutcomeOf(cmd) != Idle
    ensures var e := Execute(m, ram, cmd);
      Loop(m, ram, s, p) == DeviceRun(e.0, [PROMPT] + e.1, OutcomeOf(cmd))
  {
  }

  /** A character that is no command is answered by the next prompt and
      changes nothing. */
  lemma {:induction false} IgnoredCharacter(m: seq<uint8>, ram: nat, s: seq<uint8>, p: nat)
    requires |m| == WORD && ram + SdTest.RAM_BYTES <= WORD && p < |s|
    requires s[p] !in {RESET, START, MEMTEST, UPLOAD, GO}
    ensures Loop(m, ram, s, p) == After([PROMPT], Loop(m, ram, s, p + 1))
  {
    LoopStep(m, ram, s, p, Ignored(s[p]), 0, p + 1);
    assert [PROMPT] + [] == [PROMPT];
  }

  /** 'r', 's' and 'g' leave the loop whatever follows them, 'r' for
      address 0, 's' for the program in RAM and 'g' for the address its
      eight digits spell. */
  lemma {:induction false} JumpsLeave(m: seq<uint8>, ram: nat, s: seq<uint8>, p: nat)
    requires |m| == WORD && ram + SdTest.RAM_BYTES <= WORD && p < |s|
    ensures s[p] == RESET ==> Loop(m, ram, s, p) == DeviceRun(m, [PROMPT], Jumped(0))
    ensures s[p] == START ==> Loop(m, ram, s, p) == DeviceRun(m, [PROMPT], Jumped(START_ADDR))
    ensures s[p] == GO && p + 9 <= |s| ==> Loop(m, ram, s, p) == DeviceRun(m, [PROMPT], Jumped(HexValue(s[p + 1..p + 9]) % WORD))
  {
    assert [PROMPT] + [] == [PROMPT];
  }

  /** 'm' sends the memory test's messages with no error line, leaves the
      test pattern in RAM and goes on. */
  lemma {:induction false} MemoryTestStep(m: seq<uint8>, ram: nat, s: seq<uint8>, p: nat)
    requires |m| == WORD && ram + SdTest.RAM_BYTES <= WORD && p < |s| && s[p] == MEMTEST
    ensures Loop(m, ram, s, p)
         == After([PROMPT] + SdTest.MemTestPassed(),
                  Loop(Store(m, ram, SdTest.AddressImage(ram, SdTest.RAM_WORDS)), ram, s, p + 1))
  {
    LoopStep(m, ram, s, p, MemoryTest, 0, p + 1);
  }

  /** Each byte of `data` as two hexadecimal digits, high digit first. */
  function HexPairs(data: seq<uint8>): (r: seq<uint8>)
    ensures |r| == 2 * |data|
  {
    if data == [] then [] else HexPairs(data[..|data| - 1]) + HexDigits(data[|data| - 1], 2)
  }

  /** The two digits `writeint` would send for byte `b` stand for `b`. */
  lemma BytePair(b: uint8)
    ensures var h := HexDigits(b, 2); h == [h[0]] + [h[1]] && 16 * Nibble(h[0]) + Nibble(h[1]) == b
  {
    var h := HexDigits(b, 2);
    assert h == HexDigits(b / 16, 1) + [DigitChar(b % 16)];
    assert HexDigits(b / 16, 1) == HexDigits(b / 256, 0) + [DigitChar((b / 16) % 16)];
  }

  /** Digits written two to a byte read back as the bytes. */
  lemma {:induction false} HexPairsRoundTrip(data: seq<uint8>)
    ensures HexBytes(HexPairs(data)) == data
  {
    if data != [] {
      var p, b := data[..|data| - 1], data[|data| - 1];
      assert data == p + [b];
      HexPairsRoundTrip(p);
      PairsSnoc(p, b);
      PairBytes(HexPairs(p), p, b);
    }
  }

  lemma PairsSnoc(p: seq<uint8>, b: uint8)
    ensures HexPairs(p + [b]) == HexPairs(p) + HexDigits(b, 2)
  {
    assert (p + [b])[..|p|] == p;
  }

  /** The digit pair of one byte more reads back as that byte more. */
  lemma PairBytes(x: seq<uint8>, p: seq<uint8>, b: uint8)
    requires HexBytes(x) == p
    ensures HexBytes(x + HexDigits(b, 2)) == p + [b]
  {
    var h := HexDigits(b, 2);
    BytePair(b);
    HexBytesPair(x, h[0], h[1]);
    assert x + h == x + [h[0]] + [h[1]];
  }

  /** An upload record for `data` to go to `start`: the count (the data
      bytes and five more), the address, then the data, all in
      hexadecimal. */
  function Record(start: uint32, data: seq<uint8>): (r: seq<uint8>)
    ensures |r| == 10 + 2 * |data|
  {
    HexDigits(|data| + RECORD_OVERHEAD, 2) + HexDigits(start, 8) + HexPairs(data)
  }

  /** What the loop reads from the three fields of an upload record: `a`
      counts the data bytes and the five more, `b` is the address `start`,
      `c` is `data`; what `readint` sums over each field is the sum of the
      bytes its digits stand for. */
  predicate Spells(a: seq<uint8>, b: seq<uint8>, c: seq<uint8>, start: uint32, data: seq<uint8>)
  {
    && |a| == 2 && |b| == 8 && |c| == 2 * |data|
    && HexValue(a) % WORD == |data| + RECORD_OVERHEAD && Checksum(a) == |data| + RECORD_OVERHEAD
    && HexValue(b) % WORD == start && Checksum(b) == ByteSum(HexBytes(b))
    && HexBytes(c) == data && Checksum(c) == ByteSum(data)
  }

  /** The loop reads an upload whose fields spell `start` and `data`,
      whatever follows them, as that upload when the data fits below the
      top of the address space. The checksum is the 8-bit sum of the
      count, of the four address bytes and of the data. */
  lemma {:induction false} DecodeRecord(s: seq<uint8>, p: nat, a: seq<uint8>, b: seq<uint8>, c: seq<uint8>,
                                        start: uint32, data: seq<uint8>)
    requires Spells(a, b, c, start, data) && start + |data| < WORD
    requires |s| >= p + 10 + |c| && s[p..p + 2] == a && s[p + 2..p + 10] == b && s[p + 10..p + 10 + |c|] == c
    ensures Decode(UPLOAD, s, p)
      == Some((Upload(start, |data|, data, (|data| + RECORD_OVERHEAD + ByteSum(HexBytes(b)) + ByteSum(data)) % 0x100), 10 + 2 * |data|))
  {
    SpanMeaning(start, |data|);
    SmallWord(|data|);
  }

  /** The fields of a record sent after anything and followed by anything
      spell its address and data when the count fits in two digits. */
  lemma {:induction false} RecordSpells(before: seq<uint8>, start: uint32, data: seq<uint8>, rest: seq<uint8>)
    requires |data| + RECORD_OVERHEAD < 0x100
    ensures var s, p := before + Record(start, data) + rest, |before|;
      |s| >= p + 10 + 2 * |data|
      && Spells(s[p..p + 2], s[p + 2..p + 10], s[p + 10..p + 10 + 2 * |data|], start, data)
  {
    var count := |data| + RECORD_OVERHEAD;
    var a, b, c := HexDigits(count, 2), HexDigits(start, 8), HexPairs(data);
    Fields(before, a, b, c, rest);
    CountField(count);
    AddressField(start);
    HexPairsRoundTrip(data);
    CountByte(count);
    AddressBytes(start);
    DataBytes(data);
  }

  lemma CountField(n: nat)
    requires n < 0x100
    ensures HexValue(HexDigits(n, 2)) % WORD == n
  {
    WriteReadRoundTrip(n, 2);
    assert Pow16(2) == 0x100;
  }

  /** What `readint` sums over the count's two digits is the count. */
  lemma CountByte(n: nat)
    requires n < 0x100
    ensures Checksum(HexDigits(n, 2)) == n
  {
    BytePair(n);
    var h := HexDigits(n, 2);
    PairValue(h, h[0], h[1]);
  }

  /** What `readint` sums over the address's digits is the sum of the bytes
      they stand for. */
  lemma AddressBytes(v: uint32)
    ensures Checksum(HexDigits(v, 8)) == ByteSum(HexBytes(HexDigits(v, 8)))
  {
    ChecksumIsByteSum(HexDigits(v, 8));
  }

  /** What `readint` sums over the data's digits is the sum of the data. */
  lemma DataBytes(data: seq<uint8>)
    ensures Checksum(HexPairs(data)) == ByteSum(data)
  {
    ChecksumIsByteSum(HexPairs(data));
    HexPairsRoundTrip(data);
  }

  lemma AddressField(v: uint32)
    ensures HexValue(HexDigits(v, 8)) % WORD == v
  {
    WriteReadRoundTrip(v, 8);
    Pow16Top();
    SmallWord(v);
  }

  lemma {:induction false} Fields(before: seq<uint8>, a: seq<uint8>, b: seq<uint8>, c: seq<uint8>, rest: seq<uint8>)
    requires |a| == 2 && |b| == 8
    ensures var s, p := before + (a + b + c) + rest, |before|;
      s[p..p + 2] == a && s[p + 2..p + 10] == b && s[p + 10..p + 10 + |c|] == c
  {
  }

  /** A run with nothing sent before it. */
  lemma {:induction false} AfterNothing(r: DeviceRun)
    ensures After([], r) == r
  {
    assert [] + r.out == r.out;
  }

  /** Joining two runs' replies. */
  lemma {:induction false} AfterAfter(a: seq<uint8>, b: seq<uint8>, r: DeviceRun)
    ensures After(a, After(b, r)) == After(a + b, r)
  {
    assert a + (b + r.out) == (a + b) + r.out;
  }

  /** Two digits as `readint(2, ...)` reads them: the byte they stand for,
      which is also all they add to the checksum. */
  lemma {:induction false} PairValue(cs: seq<uint8>, a: uint8, b: uint8)
    requires cs == [a] + [b]
    ensures HexValue(cs) == 16 * Nibble(a) + Nibble(b) && Checksum(cs) == 16 * Nibble(a) + Nibble(b)
  {
    assert [] + [a] + [b] == cs;
    LastPair([], a, b);
    ChecksumPair([], a, b);
  }

  /** A byte's value is left as it is by both reductions. */
  lemma SmallValue(x: int)
    requires 0 <= x < 0x100
    ensures x % 0x1_0000_0000 == x && x % 0x100 == x
  {
  }

  /** A value below 2^32 is left as it is by the 32-bit reduction. */
  lemma SmallWord(x: int)
    requires 0 <= x < WORD
    ensures x % WORD == x
  {
  }

  /** A slice of `x` grown by the next two elements. */
  lemma {:induction false} SlicePair(x: seq<uint8>, a: nat, b: nat)
    requires a <= b && b + 2 <= |x|
    ensures x[a..b + 2] == x[a..b] + [x[b]] + [x[b + 1]]
  {
  }

  /** One more byte added to an 8-bit running sum. */
  lemma AddByte(checksum: int, total: int, sum: int, b: int, sum': int)
    requires sum == (checksum + total) % 0x100 && sum' == (sum + b) % 0x100
    ensures sum' == (checksum + (total + b)) % 0x100
  {
    ModAdd(checksum + total, b);
  }

  /** `readint(2, ...)` stored through the `int8_t` pointer: the low byte of
      the value the two digits spell, added to the checksum. */
  method ReadByte(soc: Soc, checksum: uint8) returns (b: uint8, sum: uint8)
    requires soc.Valid() && soc.pos + 2 <= |soc.rx|
    modifies soc`pos
    ensures soc.Valid() && soc.rx == old(soc.rx) && soc.pos == old(soc.pos) + 2
    ensures b == 16 * Nibble(soc.rx[old(soc.pos)]) + Nibble(soc.rx[old(soc.pos) + 1])
    ensures sum == (checksum + b) % 0x100
  {
    ghost var p0 := soc.pos;
    ghost var x := 16 * Nibble(soc.rx[p0]) + Nibble(soc.rx[p0 + 1]);
    var v;
    v, sum := ReadInt(soc, 2, checksum);
    PairValue(soc.rx[p0..p0 + 2], soc.rx[p0], soc.rx[p0 + 1]);
    SmallValue(x);
    b := v % 0x100;
  }

  /** The `for` loop of the 'u' branch: two digits read for every byte
      from `start` up to the (32-bit) end `start + size`, the byte stored
      and summed into the checksum. */
  method ReceiveData(soc: Soc, start: uint32, size: uint32, checksum: uint8) returns (sum: uint8)
    requires soc.Valid() && soc.pos + 2 * Span(start, size) <= |soc.rx|
    modifies soc`pos, soc.mem
    ensures soc.Valid() && soc.rx == old(soc.rx) && soc.pos == old(soc.pos) + 2 * Span(start, size)
    ensures var body := soc.rx[old(soc.pos)..soc.pos];
      soc.mem[..] == Store(old(soc.mem[..]), start, HexBytes(body))
      && sum == (checksum + Checksum(body)) % 0x100
  {
    ghost var m0 := soc.mem[..];
    ghost var p0 := soc.pos;
    SpanMeaning(start, size);
    ghost var n := Span(start, size);
    ghost var data: seq<uint8> := [];
    StoreNothing(m0, start);
    sum := checksum;
    var end := (start as int + size) % WORD;
    var p := start;
    while p < end
      invariant soc.Valid() && soc.rx == old(soc.rx)
      invariant start <= p <= start + n && soc.pos == p0 + 2 * (p - start)
      invariant data == HexBytes(soc.rx[p0..soc.pos])
      invariant sum == (checksum + Checksum(soc.rx[p0..soc.pos])) % 0x100
      invariant soc.mem[..] == Store(m0, start, data)
      decreases end - p
    {
      sum, data := ReceiveByte(soc, m0, start, p, p0, checksum, sum, data);
      p := p + 1;
    }
  }

  /** One pass of that loop: the byte at `p` read, stored and summed. */
  method ReceiveByte(soc: Soc, ghost m0: seq<uint8>, start: uint32, p: uint32, ghost p0: nat,
                     ghost checksum: uint8, sum: uint8, ghost data: seq<uint8>)
    returns (sum': uint8, ghost data': seq<uint8>)
    requires soc.Valid() && soc.pos + 2 <= |soc.rx| && p0 <= soc.pos && p < |m0| && start + |data| == p
    requires (soc.pos - p0) % 2 == 0 && data == HexBytes(soc.rx[p0..soc.pos])
    requires sum == (checksum + Checksum(soc.rx[p0..soc.pos])) % 0x100
    requires soc.mem[..] == Store(m0, start, data)
    modifies soc`pos, soc.mem
    ensures soc.Valid() && soc.rx == old(soc.rx) && soc.pos == old(soc.pos) + 2
    ensures data' == HexBytes(soc.rx[p0..soc.pos]) && sum' == (checksum + Checksum(soc.rx[p0..soc.pos])) % 0x100
    ensures soc.mem[..] == Store(m0, start, data')
  {
    ghost var q := soc.pos;
    var b;
    b, sum' := ReadByte(soc, sum);
    SlicePair(soc.rx, p0, q);
    HexBytesPair(soc.rx[p0..q], soc.rx[q], soc.rx[q + 1]);
    ChecksumPair(soc.rx[p0..q], soc.rx[q], soc.rx[q + 1]);
    AddByte(checksum, Checksum(soc.rx[p0..q]), sum, b, sum');
    ghost var mem := soc.mem[..];
    soc.mem[p] := b;
    assert soc.mem[..] == mem[p := b];
    StoreNext(m0, start, data, b);
    data' := data + [b];
  }

  /** The size an upload record's count digits at `p` give. */
  function CountSize(s: seq<uint8>, p: nat): uint32
    requires p + 2 <= |s|
  {
    (HexValue(s[p..p + 2]) % WORD - RECORD_OVERHEAD) % WORD
  }

  /** All the digits of the upload record at `p` have been received. */
  predicate UploadFits(s: seq<uint8>, p: nat)
  {
    p + 10 <= |s| && p + 10 + 2 * Span(HexValue(s[p + 2..p + 10]) % WORD, CountSize(s, p)) <= |s|
  }

  /** The 'u' branch: the count less five is the size, then the address,
      then the data; then the reply. */
  method DoUpload(soc: Soc) returns (start: uint32, size: uint32, sum: uint8)
    requires soc.Valid() && UploadFits(soc.rx, soc.pos)
    modifies soc`pos, soc`tx, soc.mem
    ensures soc.Valid() && soc.rx == old(soc.rx)
    ensures var p := old(soc.pos);
      start == HexValue(soc.rx[p + 2..p + 10]) % WORD && size == CountSize(soc.rx, p)
    ensures soc.pos == old(soc.pos) + 10 + 2 * Span(start, size)
    ensures var p := old(soc.pos);
      var c := soc.rx[p + 10..soc.pos];
      soc.mem[..] == Store(old(soc.mem[..]), start, HexBytes(c))
      && sum == (Checksum(soc.rx[p..p + 2]) + (Checksum(soc.rx[p + 2..p + 10]) + Checksum(c))) % 0x100
      && soc.tx == old(soc.tx) + ReplyAsWritten(sum)
  {
    ghost var p0 := soc.pos;
    var checksum;
    start, size, checksum := ReadHeader(soc);
    ghost var header := checksum;
    checksum := ReceiveData(soc, start, size, checksum);
    AddByte(Checksum(soc.rx[p0..p0 + 2]), Checksum(soc.rx[p0 + 2..p0 + 10]), header,
            Checksum(soc.rx[p0 + 10..soc.pos]), checksum);
    SendReply(soc, checksum);
    sum := checksum;
  }

  /** `writeint(2, ~checksum)`: the summed byte is the most significant of
      the 32-bit `checksum`. */
  method SendReply(soc: Soc, sum: uint8)
    modifies soc`tx
    ensures soc.tx == old(soc.tx) + ReplyAsWritten(sum)
    ensures soc.rx == old(soc.rx) && soc.pos == old(soc.pos) && soc.mem[..] == old(soc.mem[..])
  {
    WriteInt(soc, 2, 0xFFFF_FFFF - sum as int * 0x100_0000);
  }

  /** The count and the address of an upload, summed into the byte of the
      32-bit `checksum` that `readint` updates, which starts at 0. */
  method ReadHeader(soc: Soc) returns (start: uint32, size: uint32, checksum: uint8)
    requires soc.Valid() && soc.pos + 10 <= |soc.rx|
    modifies soc`pos
    ensures soc.Valid() && soc.rx == old(soc.rx) && soc.pos == old(soc.pos) + 10 && soc.mem[..] == old(soc.mem[..])
    ensures var p := old(soc.pos);
      start == HexValue(soc.rx[p + 2..p + 10]) % WORD && size == CountSize(soc.rx, p)
      && checksum == (Checksum(soc.rx[p..p + 2]) + Checksum(soc.rx[p + 2..p + 10])) % 0x100
  {
    ghost var p0 := soc.pos;
    var count, first;
    count, first := ReadInt(soc, 2, 0);
    size := (count as int - RECORD_OVERHEAD) % WORD;
    start, checksum := ReadInt(soc, 8, first);
    AddByte(0, Checksum(soc.rx[p0..p0 + 2]), first, Checksum(soc.rx[p0 + 2..p0 + 10]), checksum);
  }

  /** The upload `Decode` makes of fields read as `start`, `size`, `data`
      and `sum`. */
  lemma UploadDecoded(s: seq<uint8>, p: nat, q: nat, start: uint32, size: uint32, data: seq<uint8>, sum: uint8)
    requires p + 10 <= |s| && size == CountSize(s, p)
    requires start == HexValue(s[p + 2..p + 10]) % WORD && q == p + 10 + 2 * Span(start, size) <= |s|
    requires var c := s[p + 10..q];
      data == HexBytes(c) && sum == (Checksum(s[p..p + 2]) + (Checksum(s[p + 2..p + 10]) + Checksum(c))) % 0x100
    ensures Decode(UPLOAD, s, p) == Some((Upload(start, size, data, sum), q - p))
  {

  }

  /** An upload record `Decode` accepts has all its digits received. */
  lemma UploadFitsOf(s: seq<uint8>, p: nat)
    requires p <= |s| && Decode(UPLOAD, s, p).Some?
    ensures UploadFits(s, p)
  {
  }

  /** The 'u' branch as the upload `Decode` reads. */
  method UploadCommand(soc: Soc)
    requires soc.Valid() && Decode(UPLOAD, soc.rx, soc.pos).Some?
    modifies soc`pos, soc`tx, soc.mem
    ensures soc.Valid() && soc.rx == old(soc.rx)
    ensures var d := Decode(UPLOAD, soc.rx, old(soc.pos)).value;
      soc.pos == old(soc.pos) + d.1 && soc.mem[..] == Store(old(soc.mem[..]), d.0.start, d.0.data)
      && soc.tx == old(soc.tx) + ReplyAsWritten(d.0.sum)
  {
    ghost var p := soc.pos;
    UploadFitsOf(soc.rx, p);
    var start, size, sum := DoUpload(soc);
    UploadDecoded(soc.rx, p, soc.pos, start, size, HexBytes(soc.rx[p + 10..soc.pos]), sum);
  }

  /** The 'g' branch: eight digits of address. */
  method GoCommand(soc: Soc) returns (a: uint32)
    requires soc.Valid() && Decode(GO, soc.rx, soc.pos).Some?
    modifies soc`pos
    ensures soc.Valid() && soc.rx == old(soc.rx)
    ensures Decode(GO, soc.rx, old(soc.pos)) == Some((Go(a), soc.pos - old(soc.pos)))
  {
    // the checksum this `readint` advances is never used
    var unused;
    a, unused := ReadInt(soc, 8, 0);
  }

  /** One pass of the loop's `switch`, once the command character is read. */
  method Dispatch(soc: Soc, c: uint8, ram: uint32) returns (o: Outcome)
    requires soc.Valid() && ram + SdTest.RAM_BYTES <= WORD && Decode(c, soc.rx, soc.pos).Some?
    modifies soc`pos, soc`tx, soc.mem
    ensures soc.Valid() && soc.rx == old(soc.rx)
    ensures var d := Decode(c, soc.rx, old(soc.pos)).value;
      var e := Execute(old(soc.mem[..]), ram, d.0);
      soc.pos == old(soc.pos) + d.1 && soc.mem[..] == e.0 && soc.tx == old(soc.tx) + e.1 && o == OutcomeOf(d.0)
  {
    if c == RESET {
      o := Jumped(0);
    } else if c == START {
      o := Jumped(START_ADDR);
    } else if c == MEMTEST {
      SdTest.MemTest(soc, ram);
      o := Idle;
    } else if c == UPLOAD {
      UploadCommand(soc);
      o := Idle;
    } else if c == GO {
      var a := GoCommand(soc);
      o := Jumped(a);
    } else {
      o := Idle;
    }
  }

  /** `uartmode`'s `for(;;)` loop, up to the first command that leaves it or
      that waits for digits not yet received. */
  method UartMode(soc: Soc, ram: uint32) returns (o: Outcome)
    requires soc.Valid() && ram + SdTest.RAM_BYTES <= WORD
    modifies soc`pos, soc`tx, soc.mem
    ensures soc.Valid() && soc.rx == old(soc.rx)
    ensures var r := Loop(old(soc.mem[..]), ram, soc.rx, old(soc.pos));
      soc.mem[..] == r.mem && soc.tx == old(soc.tx) + r.out && o == r.outcome
  {
    ghost var r0 := Loop(soc.mem[..], ram, soc.rx, soc.pos);
    ghost var sent: seq<uint8> := [];
    AfterNothing(r0);
    while true
      invariant soc.Valid() && soc.rx == old(soc.rx)
      invariant soc.tx == old(soc.tx) + sent
      invariant r0 == After(sent, Loop(soc.mem[..], ram, soc.rx, soc.pos))
      decreases |soc.rx| - soc.pos
    {
      ghost var r := Loop(soc.mem[..], ram, soc.rx, soc.pos);
      var more;
      ghost var out;
      o, more, out := Iteration(soc, ram);
      AppendAssoc(old(soc.tx), sent, out);
      if !more {
        return;
      }
      AfterAfter(sent, out, Loop(soc.mem[..], ram, soc.rx, soc.pos));
      sent := sent + out;
    }
  }

  /** One round of the loop: the prompt, the command character and the
      command; `more` when the loop goes round again. */
  method Iteration(soc: Soc, ram: uint32) returns (o: Outcome, more: bool, ghost out: seq<uint8>)
    requires soc.Valid() && ram + SdTest.RAM_BYTES <= WORD
    modifies soc`pos, soc`tx, soc.mem
    ensures soc.Valid() && soc.rx == old(soc.rx) && soc.tx == old(soc.tx) + out
    ensures more ==> old(soc.pos) < soc.pos
    ensures var r := Loop(old(soc.mem[..]), ram, soc.rx, old(soc.pos));
      if more then r == After(out, Loop(soc.mem[..], ram, soc.rx, soc.pos))
      else r == DeviceRun(soc.mem[..], out, o)
  {
    ghost var m := soc.mem[..];
    ghost var p := soc.pos;
    soc.PutChar(PROMPT);
    if soc.pos == |soc.rx| {
      return Idle, false, [PROMPT];
    }
    var c := soc.GetChar();
    if Decode(c, soc.rx, soc.pos).None? {
      return Blocked, false, [PROMPT];
    }
    ghost var d := Decode(c, soc.rx, soc.pos).value;
    ghost var e := Execute(m, ram, d.0);
    o := Dispatch(soc, c, ram);
    out := [PROMPT] + e.1;
    AppendAssoc(old(soc.tx), [PROMPT], e.1);
    more := o == Idle;
    if more {
      LoopStep(m, ram, soc.rx, p, d.0, d.1, soc.pos);
    } else {
      LoopLeaves(m, ram, soc.rx, p, d.0, d.1);
    }
  }
}
