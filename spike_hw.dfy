/** The board support code of the SD test program (firmware/sd-test/spike_hw.c):
    the table of interrupt service routines and its dispatcher, and the
    UART's hexadecimal number input and output. Its `uart_putstr`,
    `uart_putint8`, `uart_puthex8` and `uart_puthex32` are the bootloader's
    and are modelled in `Soc`. */
module SpikeHw {
  import opened Bytes
  import opened Soc

  /** What an entry of the table points to: nothing yet (the table is a
      static array, so it starts out as null pointers), `isr_null`, which
      does nothing, or some other routine. */
  datatype Isr = Unset | IsrNull | Routine(id: nat)

  const IRQS: nat := 32

  function Pow2(n: nat): (p: nat)
    ensures p >= 1
  {
    if n == 0 then 1 else 2 * Pow2(n - 1)
  }

  /** Bit `i` of `p` is set: `(p >> i) & 1`. */
  predicate Bit(p: nat, i: nat)
  {
    (p / Pow2(i)) % 2 == 1
  }

  /** The interrupt lines below `n` raised in `pending`, lowest first. */
  function Raised(pending: nat, n: nat): (r: seq<nat>)
    ensures forall k :: 0 <= k < |r| ==> r[k] < n && Bit(pending, r[k])
    ensures forall i :: 0 <= i < n && Bit(pending, i) ==> i in r
    ensures forall j, k :: 0 <= j < k < |r| ==> r[j] < r[k]
  {
    if n == 0 then [] else Raised(pending, n - 1) + (if Bit(pending, n - 1) then [n - 1] else [])
  }

  /** Nothing pending, nothing raised. */
  lemma {:induction false} NoneRaised(n: nat)
    ensures Raised(0, n) == []
  {
    if n > 0 {
      NoneRaised(n - 1);
      assert !Bit(0, n - 1);
    }
  }

  /** Only line `i` pending, only line `i` raised. */
  lemma {:induction false} OnlyRaised(i: nat, n: nat)
    requires i < n
    ensures Raised(Pow2(i), n) == [i]
  {
    if n == i + 1 {
      NoneBelow(i, i);
      DivUnique(Pow2(i), Pow2(i), 1, 0);
    } else {
      OnlyRaised(i, n - 1);
      PowerBits(i, n - 1);
    }
  }

  /** No line below `i` is raised when only line `i` is pending. */
  lemma {:induction false} NoneBelow(i: nat, n: nat)
    requires n <= i
    ensures Raised(Pow2(i), n) == []
  {
    if n > 0 {
      NoneBelow(i, n - 1);
      PowerBits(i, n - 1);
    }
  }

  /** A power of two has exactly one bit set. */
  lemma {:induction false} PowerBits(i: nat, j: nat)
    requires j != i
    ensures !Bit(Pow2(i), j)
  {
    if j < i {
      if j == 0 {
        assert Pow2(i) == 2 * Pow2(i - 1);
      } else {
        PowerBits(i - 1, j - 1);
        HalfPow(i, j);
      }
    } else {
      PowBelow(i, j);
      DivUnique(Pow2(i), Pow2(j), 0, Pow2(i));
    }
  }

  /** Shifting both a power of two and the position down by one. */
  lemma HalfPow(i: nat, j: nat)
    requires 0 < j < i
    ensures Pow2(i) / Pow2(j) == Pow2(i - 1) / Pow2(j - 1)
  {
    DivDiv(Pow2(i), 2, Pow2(j - 1));
    assert Pow2(i) / 2 == Pow2(i - 1);
  }

  lemma {:induction false} PowBelow(i: nat, j: nat)
    requires i < j
    ensures Pow2(i) < Pow2(j)
  {
    if j > i + 1 {
      PowBelow(i, j - 1);
    }
  }

  /** `isr_table`: one routine per interrupt line. */
  class IsrTable {
    const table: array<Isr>

    ghost predicate Valid()
      reads this
    {
      table.Length == IRQS
    }

    /** The table as the program starts: every entry null. */
    constructor ()
      ensures Valid() && fresh(table)
      ensures forall i :: 0 <= i < IRQS ==> table[i] == Unset
    {
      table := new Isr[IRQS](_ => Unset);
    }

    /** `isr_init`: every entry becomes `isr_null`. */
    method Init()
      requires Valid()
      modifies table
      ensures forall i :: 0 <= i < IRQS ==> table[i] == IsrNull
    {
      var i := 0;
      while i < IRQS
        invariant 0 <= i <= IRQS
        invariant forall k :: 0 <= k < i ==> table[k] == IsrNull
      {
        table[i] := IsrNull;
        i := i + 1;
      }
    }

    /** `isr_register`: entry `irq` becomes `isr`, and no other entry
        changes. */
    method Register(irq: int, isr: Isr)
      requires Valid() && 0 <= irq < IRQS
      modifies table
      ensures table[..] == old(table[..])[irq := isr]
    {
      table[irq] := isr;
    }

    /** `isr_unregister`: entry `irq` goes back to `isr_null`, and no
        other entry changes. */
    method Unregister(irq: int)
      requires Valid() && 0 <= irq < IRQS
      modifies table
      ensures table[..] == old(table[..])[irq := IsrNull]
    {
      table[irq] := IsrNull;
    }

    /** `irq_handler`: the routines it calls, in order. It calls the
        routine of each raised line once, lowest line first, and no other. */
    method IrqHandler(pending: uint32) returns (calls: seq<Isr>)
      requires Valid()
      ensures var r := Raised(pending, IRQS);
        |calls| == |r| && forall k :: 0 <= k < |r| ==> calls[k] == table[r[k]]
    {
      var p: nat := pending;
      var i := 0;
      calls := [];
      while i < IRQS
        invariant 0 <= i <= IRQS
        invariant p == pending / Pow2(i)
        invariant var r := Raised(pending, i);
          |calls| == |r| && forall k :: 0 <= k < |r| ==> calls[k] == table[r[k]]
      {
        RaisedStep(pending, i);
        if p % 2 == 1 {
          calls := calls + [table[i]];
        }
        p := p / 2;
        i := i + 1;
      }
    }
  }

  /** One line more: line `i` joins the raised ones when bit `i` is set,
      and `pending >> (i + 1)` is `(pending >> i) >> 1`. */
  lemma RaisedStep(pending: nat, i: nat)
    ensures Raised(pending, i + 1) == Raised(pending, i) + if (pending / Pow2(i)) % 2 == 1 then [i] else []
    ensures pending / Pow2(i + 1) == (pending / Pow2(i)) / 2
  {
    DivDiv(pending, Pow2(i), 2);
    assert Pow2(i + 1) == Pow2(i) * 2;
  }

  /** `16^n`. */
  function Pow16(n: nat): (p: nat)
    ensures p >= 1
  {
    if n == 0 then 1 else 16 * Pow16(n - 1)
  }

  /** The four bits `readint` takes from character `c`: `(c - '0') & 0xf`
      up to '9' and `(c - 'A' + 0xa) & 0xf` above it. The mask keeps the
      low four bits of a negative difference too, which is the remainder
      modulo 16 as computed here. Both cases of hexadecimal letters come
      out right. */
  function Nibble(c: uint8): (d: int)
    ensures 0 <= d < 16
    ensures '0' as int <= c <= '9' as int ==> d == c - '0' as int
    ensures 'A' as int <= c <= 'F' as int ==> d == c - 'A' as int + 10
    ensures 'a' as int <= c <= 'f' as int ==> d == c - 'a' as int + 10
  {
    if c <= '9' as int then (c - '0' as int) % 16 else (c - 'A' as int + 10) % 16
  }

  /** The value of the digits `cs`, most significant first, without
      wrapping. */
  function HexValue(cs: seq<uint8>): (v: nat)
    ensures v < Pow16(|cs|)
  {
    if cs == [] then 0 else HexValue(cs[..|cs| - 1]) * 16 + Nibble(cs[|cs| - 1])
  }

  lemma HexValueSnoc(cs: seq<uint8>, c: uint8)
    ensures HexValue(cs + [c]) == HexValue(cs) * 16 + Nibble(c)
  {
    assert (cs + [c])[..|cs|] == cs;
  }

  /** The bytes a run of digit pairs stands for, each pair high digit
      first. */
  function HexBytes(cs: seq<uint8>): (b: seq<uint8>)
    ensures |b| == |cs| / 2
  {
    if |cs| < 2 then []
    else HexBytes(cs[..|cs| - 2]) + [16 * Nibble(cs[|cs| - 2]) + Nibble(cs[|cs| - 1])]
  }

  /** The sum of some bytes, not reduced. */
  function ByteSum(b: seq<uint8>): nat
  {
    if b == [] then 0 else ByteSum(b[..|b| - 1]) + b[|b| - 1]
  }

  /** `i & 1`. */
  predicate Odd(i: int)
  {
    i % 2 == 1
  }

  /** What `readint` adds to `*checksum` while reading `cs`, before the
      8-bit reduction: after every second digit, the low byte of the value
      read so far. */
  function Checksum(cs: seq<uint8>): nat
  {
    if cs == [] then 0
    else Checksum(cs[..|cs| - 1]) + (if Odd(|cs| - 1) then HexValue(cs) % 0x100 else 0)
  }

  /** The low byte of the value after an even number of digits is the
      last pair's byte. */
  lemma LastPair(p: seq<uint8>, a: uint8, b: uint8)
    ensures HexValue(p + [a] + [b]) % 0x100 == 16 * Nibble(a) + Nibble(b)
  {
    HexValueSnoc(p, a);
    HexValueSnoc(p + [a], b);
    DivUnique(HexValue(p + [a] + [b]), 0x100, HexValue(p), 16 * Nibble(a) + Nibble(b));
  }

  /** Two more digits after an even count add the byte they stand for. */
  lemma ChecksumPair(p: seq<uint8>, a: uint8, b: uint8)
    requires |p| % 2 == 0
    ensures Checksum(p + [a] + [b]) == Checksum(p) + 16 * Nibble(a) + Nibble(b)
  {
    var q := p + [a];
    ChecksumSnoc(p, a, |p|);
    ChecksumSnoc(q, b, |p| + 1);
    LastPair(p, a, b);
  }

  lemma HexBytesPair(p: seq<uint8>, a: uint8, b: uint8)
    ensures HexBytes(p + [a] + [b]) == HexBytes(p) + [16 * Nibble(a) + Nibble(b)]
  {
    assert (p + [a] + [b])[..|p|] == p;
  }

  lemma ByteSumSnoc(bs: seq<uint8>, x: uint8)
    ensures ByteSum(bs + [x]) == ByteSum(bs) + x
  {
    assert (bs + [x])[..|bs|] == bs;
  }

  /** Over whole pairs of digits, `readint` adds up exactly the bytes the
      pairs stand for. */
  lemma {:induction false} ChecksumIsByteSum(cs: seq<uint8>)
    requires |cs| % 2 == 0
    ensures Checksum(cs) == ByteSum(HexBytes(cs))
  {
    if cs != [] {
      var n := |cs|;
      var p, a, b := cs[..n - 2], cs[n - 2], cs[n - 1];
      assert cs == p + [a] + [b];
      ChecksumIsByteSum(p);
      ChecksumPair(p, a, b);
      HexBytesPair(p, a, b);
      ByteSumSnoc(HexBytes(p), 16 * Nibble(a) + Nibble(b));
    }
  }

  /** `readint(nibbles, checksum)`: `nibbles` characters read, the value
      they spell kept to 32 bits, and the 8-bit checksum advanced. */
  method ReadInt(soc: Soc, nibbles: uint8, checksum: uint8) returns (val: uint32, sum: uint8)
    requires soc.Valid() && soc.pos + nibbles <= |soc.rx|
    modifies soc`pos
    ensures soc.Valid() && soc.rx == old(soc.rx) && soc.pos == old(soc.pos) + nibbles
    ensures val == HexValue(soc.rx[old(soc.pos)..soc.pos]) % 0x1_0000_0000
    ensures sum == (checksum + Checksum(soc.rx[old(soc.pos)..soc.pos])) % 0x100
  {
    ghost var read: seq<uint8> := [];
    val, sum := 0, checksum;
    var i := 0;
    while i < nibbles
      invariant 0 <= i <= nibbles && soc.Valid() && soc.rx == old(soc.rx) && soc.pos == old(soc.pos) + i
      invariant |read| == i && forall k :: 0 <= k < i ==> read[k] == soc.rx[old(soc.pos) + k]
      invariant val == HexValue(read) % 0x1_0000_0000
      invariant sum == (checksum + Checksum(read)) % 0x100
    {
      val, sum, read := ReadDigit(soc, read, i, checksum, val, sum);
      i := i + 1;
    }
    assert read == soc.rx[old(soc.pos)..soc.pos];
  }

  /** One pass of the loop in `readint`: a digit read, shifted into the
      value, and after every second digit the value's low byte added to the
      checksum. */
  method ReadDigit(soc: Soc, ghost read: seq<uint8>, i: nat, checksum: uint8, val: uint32, sum: uint8)
      returns (val': uint32, sum': uint8, ghost read': seq<uint8>)
    requires soc.Valid() && soc.pos < |soc.rx| && |read| == i
    requires val == HexValue(read) % 0x1_0000_0000 && sum == (checksum + Checksum(read)) % 0x100
    modifies soc`pos
    ensures soc.Valid() && soc.rx == old(soc.rx) && soc.pos == old(soc.pos) + 1
    ensures read' == read + [soc.rx[old(soc.pos)]]
    ensures val' == HexValue(read') % 0x1_0000_0000 && sum' == (checksum + Checksum(read')) % 0x100
  {
    var c := soc.GetChar();
    read' := read + [c];
    // `|=` into the four low bits the shift has just cleared
    var v := (val * 16) % 0x1_0000_0000
      + if c <= '9' as int then (c - '0' as int) % 16 else (c - 'A' as int + 10) % 16;
    var s := if i % 2 == 1 then (sum + v) % 0x100 else sum as int;
    HexValueSnoc(read, c);
    ChecksumSnoc(read, c, i);
    DigitStep(HexValue(read), Nibble(c), HexValue(read'), val, v,
              checksum, Checksum(read), Checksum(read'), sum, s, i % 2 == 1);
    val', sum' := v, s;
  }

  /** One digit more for `readint`, on the numbers alone: `prev` and `h`
      are the values before and after the digit `d`, `c0` and `c1` the
      checksum additions, `val` and `val'`, `sum` and `sum'` the variables
      before and after. */
  lemma DigitStep(prev: nat, d: int, h: nat, val: int, val': int,
                  checksum: int, c0: int, c1: int, sum: int, sum': int, odd: bool)
    requires 0 <= d < 16 && h == prev * 16 + d && val == prev % 0x1_0000_0000
    requires c1 == c0 + (if odd then h % 0x100 else 0) && sum == (checksum + c0) % 0x100
    requires val' == (val * 16) % 0x1_0000_0000 + d
    requires sum' == if odd then (sum + val') % 0x100 else sum
    ensures val' == h % 0x1_0000_0000 && sum' == (checksum + c1) % 0x100
  {
    ShiftIn(prev, d);
    if odd {
      LowByte(val', h);
      SumStep(checksum, c0, c1, val', h, sum);
    }
  }

  /** Adding a byte to an 8-bit sum: only the low byte of the addend
      counts. */
  lemma SumStep(checksum: int, c0: int, c1: int, v: int, h: int, sum: int)
    requires sum == (checksum + c0) % 0x100 && c1 == c0 + h % 0x100 && v % 0x100 == h % 0x100
    ensures (sum + v) % 0x100 == (checksum + c1) % 0x100
  {
    ModAdd(checksum + c0, v);
    ModAdd(v, checksum + c0);
  }

  lemma ModAdd(a: int, b: int)
    ensures (a % 0x100 + b) % 0x100 == (a + b) % 0x100
  {
    DivUnique(a + b, 0x100, a / 0x100 + (a % 0x100 + b) / 0x100, (a % 0x100 + b) % 0x100);
  }

  lemma ChecksumSnoc(cs: seq<uint8>, c: uint8, n: nat)
    requires n == |cs|
    ensures Checksum(cs + [c]) == Checksum(cs) + if n % 2 == 1 then HexValue(cs + [c]) % 0x100 else 0
  {
    assert (cs + [c])[..|cs|] == cs;
  }

  /** Shifting a 32-bit value left by four bits leaves the low four bits
      free, so or-ing a digit in is adding it. */
  lemma ShiftIn(v: nat, d: int)
    requires 0 <= d < 16
    ensures ((v % 0x1_0000_0000) * 16) % 0x1_0000_0000 + d == (v * 16 + d) % 0x1_0000_0000
  {
    var q, a := v / 0x1_0000_0000, v % 0x1_0000_0000;
    var q', r := (a * 16) / 0x1_0000_0000, (a * 16) % 0x1_0000_0000;
    assert r == 16 * (a - q' * 0x1000_0000);
    assert v * 16 + d == (16 * q + q') * 0x1_0000_0000 + (r + d);
    DivUnique(v * 16 + d, 0x1_0000_0000, 16 * q + q', r + d);
  }

  /** The low byte of a value survives its reduction to 32 bits. */
  lemma LowByte(v: int, h: nat)
    requires v == h % 0x1_0000_0000
    ensures v % 0x100 == h % 0x100
  {
    DivDiv(h, 0x100, 0x100_0000);
  }

  /** The character `writeint` sends for the digit `d`: `'A' + d - 10`
      from ten on and `'0' + d` below. `readint` reads it back as `d`. */
  function DigitChar(d: int): (c: uint8)
    requires 0 <= d < 16
    ensures Nibble(c) == d
    ensures '0' as int <= c <= '9' as int || 'A' as int <= c <= 'F' as int
  {
    if d >= 0xA then 'A' as int + d - 10 else '0' as int + d
  }

  /** The low `n` hexadecimal digits of `v`, most significant first. */
  function HexDigits(v: nat, n: nat): (r: seq<uint8>)
    ensures |r| == n
  {
    if n == 0 then [] else HexDigits(v / 16, n - 1) + [DigitChar(v % 16)]
  }

  /** Reading back the digits of `v` gives `v` modulo `16^n`. */
  lemma {:induction false} HexDigitsRoundTrip(v: nat, n: nat)
    ensures HexValue(HexDigits(v, n)) == v % Pow16(n)
  {
    if n > 0 {
      HexDigitsRoundTrip(v / 16, n - 1);
      HexValueSnoc(HexDigits(v / 16, n - 1), DigitChar(v % 16));
      LowDigits(v, Pow16(n - 1));
    }
  }

  /** `v` modulo `16 p` from `v / 16` modulo `p` and the last digit. */
  lemma LowDigits(v: nat, p: nat)
    requires p > 0
    ensures ((v / 16) % p) * 16 + v % 16 == v % (16 * p)
  {
    var q, r := (v / 16) / p, (v / 16) % p;
    Distrib(q, p, r, 16);
    DivUnique(v, p * 16, q, r * 16 + v % 16);
  }

  /** What `readint(n)` returns for the characters `writeint(n, v)` sends,
      for `n` up to eight: the low `n` digits of `v`. */
  lemma WriteReadRoundTrip(v: uint32, n: nat)
    requires n <= 8
    ensures HexValue(HexDigits(v, n)) % 0x1_0000_0000 == v % Pow16(n)
  {
    HexDigitsRoundTrip(v, n);
    Pow16Below(n, 8);
    Pow16Top();
    DivUnique(v % Pow16(n), 0x1_0000_0000, 0, v % Pow16(n));
  }

  /** `writeint(nibbles, val)`: of the eight digits of `val`, the low
      `nibbles` ones in upper-case hexadecimal, most significant first. The
      guard `i >= 8 - nibbles` compares with an unsigned `i`, so for
      `nibbles` above eight the bound wraps to a huge number and nothing is
      sent. */
  method WriteInt(soc: Soc, nibbles: uint8, val: uint32)
    modifies soc`tx
    ensures soc.tx == old(soc.tx) + if nibbles <= 8 then HexDigits(val, nibbles) else []
  {
    var from := (8 - nibbles) % 0x1_0000_0000;
    var v: int := val;  // the shifted `val`, kept to 32 bits by hand
    var i := 0;
    while i < 8
      invariant 0 <= i <= 8 && v == Shifted(val, i)
      invariant soc.tx == old(soc.tx) + Sent(val, nibbles, i)
    {
      if i >= from {
        soc.PutChar(DigitChar(v / 0x1000_0000));
      }
      v := (v * 16) % 0x1_0000_0000;
      i := i + 1;
    }
    SentAll(val, nibbles);
  }

  /** `val` after `i` of `writeint`'s shifts by four bits. */
  function Shifted(val: uint32, i: nat): (r: int)
    ensures 0 <= r < 0x1_0000_0000
  {
    if i == 0 then val else (Shifted(val, i - 1) * 16) % 0x1_0000_0000
  }

  /** The characters `writeint(nibbles, val)` sends in its first `i`
      passes, pass by pass. */
  ghost function Sent(val: uint32, nibbles: uint8, i: nat): seq<uint8>
  {
    if i == 0 then []
    else if i - 1 >= (8 - nibbles) % 0x1_0000_0000 then Sent(val, nibbles, i - 1) + [DigitChar(Shifted(val, i - 1) / 0x1000_0000)]
    else Sent(val, nibbles, i - 1)
  }

  /** Pass by pass, `writeint` sends the digits `Written` describes. */
  lemma {:induction false} SentWritten(val: uint32, nibbles: uint8, i: nat)
    requires i <= 8
    ensures Sent(val, nibbles, i) == Written(val, nibbles, i)
    ensures Shifted(val, i) == (val * Pow16(i)) % 0x1_0000_0000
  {
    if i > 0 {
      SentWritten(val, nibbles, i - 1);
      WritePass(val, nibbles, i - 1, (8 - nibbles) % 0x1_0000_0000, Shifted(val, i - 1));
    }
  }

  /** All eight passes send the low `nibbles` digits, or nothing when
      `nibbles` exceeds eight. */
  lemma SentAll(val: uint32, nibbles: uint8)
    ensures Sent(val, nibbles, 8) == if nibbles <= 8 then HexDigits(val, nibbles) else []
  {
    SentWritten(val, nibbles, 8);
  }

  /** One pass of `writeint`'s loop: the digit it may send, and the shift. */
  lemma WritePass(val: uint32, nibbles: uint8, i: nat, from: int, v: int)
    requires i < 8 && from == (8 - nibbles) % 0x1_0000_0000 && v == (val * Pow16(i)) % 0x1_0000_0000
    ensures i >= from ==> Written(val, nibbles, i + 1) == Written(val, nibbles, i) + [DigitChar(v / 0x1000_0000)]
    ensures i < from ==> Written(val, nibbles, i + 1) == Written(val, nibbles, i)
    ensures (v * 16) % 0x1_0000_0000 == (val * Pow16(i + 1)) % 0x1_0000_0000
  {
    WriteStep(val, nibbles, i, from);
    TopNibble(val, i);
    ShiftStep(val, i, v);
  }

  /** The characters `writeint(nibbles, val)` has sent after `i` passes. */
  ghost function Written(val: nat, nibbles: nat, i: nat): seq<uint8>
    requires i <= 8
  {
    if nibbles <= 8 && i + nibbles > 8 then
      DivNat(val, Pow16(8 - i));
      HexDigits(val / Pow16(8 - i), i + nibbles - 8)
    else []
  }

  /** The quotient of a natural number stays natural. Stated on its own,
      it keeps the division's axioms out of `Written`'s own proof, which
      runs out of resource when it has to find this fact by itself. */
  lemma DivNat(x: nat, d: int)
    requires d > 0
    ensures x / d >= 0
  {
  }

  /** Pass `i` of `writeint` sends the digit at `7 - i` exactly when it is
      one of the low `nibbles`. */
  lemma WriteStep(val: nat, nibbles: uint8, i: nat, from: int)
    requires i < 8 && from == (8 - nibbles) % 0x1_0000_0000
    ensures i >= from ==> Written(val, nibbles, i + 1) == Written(val, nibbles, i) + [DigitChar((val / Pow16(7 - i)) % 16)]
    ensures i < from ==> Written(val, nibbles, i + 1) == Written(val, nibbles, i)
  {
    if nibbles > 8 {
      DivUnique(8 - nibbles, 0x1_0000_0000, -1, 0x1_0000_0008 - nibbles);
    } else {
      DivUnique(8 - nibbles, 0x1_0000_0000, 0, 8 - nibbles);
      if i >= from {
        DivDiv(val, Pow16(7 - i), 16);
        assert Pow16(8 - i) == Pow16(7 - i) * 16;
      }
    }
  }

  /** `val <<= 4` keeps the invariant `v == val * 16^i` modulo `2^32`. */
  lemma ShiftStep(val: nat, i: nat, v: int)
    requires v == (val * Pow16(i)) % 0x1_0000_0000
    ensures (v * 16) % 0x1_0000_0000 == (val * Pow16(i + 1)) % 0x1_0000_0000
  {
    var x := val * Pow16(i);
    assert val * Pow16(i + 1) == x * 16;
    ModMul(x);
  }

  /** Multiplying by 16 after or before reducing modulo `2^32`. */
  lemma ModMul(x: nat)
    ensures ((x % 0x1_0000_0000) * 16) % 0x1_0000_0000 == (x * 16) % 0x1_0000_0000
  {
    var q, r := x / 0x1_0000_0000, x % 0x1_0000_0000;
    DivUnique(x * 16, 0x1_0000_0000, q * 16 + (r * 16) / 0x1_0000_0000, (r * 16) % 0x1_0000_0000);
  }

  lemma Distrib(a: int, k: int, b: int, p: int)
    ensures (a * k + b) * p == a * (k * p) + b * p
  {
  }

  lemma MulLess(x: int, y: int, z: int)
    requires 0 <= x < y && z > 0
    ensures x * z < y * z
  {
  }

  lemma {:induction false} Pow16Add(a: nat, b: nat)
    ensures Pow16(a) * Pow16(b) == Pow16(a + b)
  {
    if a > 0 {
      Pow16Add(a - 1, b);
      assert Pow16(a) * Pow16(b) == 16 * (Pow16(a - 1) * Pow16(b));
    }
  }

  lemma {:induction false} Pow16Below(m: nat, n: nat)
    requires m <= n
    ensures Pow16(m) <= Pow16(n)
  {
    if m < n {
      Pow16Below(m, n - 1);
    }
  }

  lemma Pow16Top()
    ensures Pow16(8) == 0x1_0000_0000 && Pow16(7) == 0x1000_0000
  {
  }

  /** Shifting left by `p` modulo `n = p k` keeps what lies below `k`. */
  lemma ShiftMod(x: nat, p: nat, k: nat, n: nat)
    requires p > 0 && k > 0 && p * k == n
    ensures (x * p) % n == (x % k) * p
  {
    var a, b := x / k, x % k;
    Distrib(a, k, b, p);
    MulLess(b, k, p);
    DivUnique(x * p, p * k, a, b * p);
  }

  /** Scaling both sides of a division by `p` does not change it. */
  lemma ScaledDiv(b: nat, p: nat, k: nat, n: nat)
    requires p > 0 && k > 0 && k * p == n
    ensures (b * p) / n == b / k
  {
    var c, e := b / k, b % k;
    Distrib(c, k, e, p);
    MulLess(e, k, p);
    DivUnique(b * p, k * p, c, e * p);
  }

  /** The digit at `k` of the part of `x` below `n = 16 k`. */
  lemma DigitAt(x: nat, k: nat, n: nat)
    requires k > 0 && n == 16 * k
    ensures (x % n) / k == (x / k) % 16
  {
    var a, b := x / n, x % n;
    var c, e := b / k, b % k;
    if c >= 16 {
      MulLess(15, c, k);
    }
    Distrib(16 * a, k, c * k, 1);
    assert x == (16 * a + c) * k + e;
    DivUnique(x, k, 16 * a + c, e);
    DivUnique(16 * a + c, 16, a, c);
  }

  /** After `i` shifts by four, bits 31..28 hold digit `7 - i` of `val`. */
  lemma TopNibble(val: int, i: nat)
    requires 0 <= val < 0x1_0000_0000 && i < 8
    ensures ((val * Pow16(i)) % 0x1_0000_0000) / 0x1000_0000 == (val / Pow16(7 - i)) % 16
  {
    var p, k, k1 := Pow16(i), Pow16(8 - i), Pow16(7 - i);
    Pow16Add(i, 8 - i);
    Pow16Add(i, 7 - i);
    Pow16Top();
    assert k == 16 * k1;
    ShiftMod(val, p, k, 0x1_0000_0000);
    ScaledDiv(val % k, p, k1, 0x1000_0000);
    DigitAt(val, k1, k);
  }
}
