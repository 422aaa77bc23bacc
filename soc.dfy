/** The firmware's view of the system on chip: a byte-addressed 32-bit
    memory space and a UART. `uart_getchar` takes the next received byte
    (its busy-wait on the status register is not modelled), `uart_putchar`
    appends to the sent bytes. The UART helpers of the two board support
    files (soc-hw.c of the first-stage bootloader and spike_hw.c of the SD
    test) are identical and are modelled once here. */
module Soc {
  import opened Bytes

  class Soc {
    /** The memory space; address `a` is `mem[a]`. */
    const mem: array<uint8>
    /** Bytes the UART receives, and how many of them have been read. */
    var rx: seq<uint8>
    var pos: nat
    /** Bytes the UART has sent. */
    var tx: seq<uint8>

    ghost predicate Valid()
      reads this
    {
      mem.Length == WORD && pos <= |rx|
    }

    /** A board whose memory holds `memory` and whose UART will receive
        `incoming`. */
    constructor (memory: array<uint8>, incoming: seq<uint8>)
      requires memory.Length == WORD
      ensures Valid() && mem == memory && rx == incoming && pos == 0 && tx == []
    {
      mem, rx, pos, tx := memory, incoming, 0, [];
    }

    /** The bytes received and not read yet. */
    function Pending(): (s: seq<uint8>)
      reads this
      requires Valid()
      ensures |s| == |rx| - pos
    {
      rx[pos..]
    }

    /** `uart_getchar`. */
    method GetChar() returns (c: uint8)
      requires Valid() && pos < |rx|
      modifies this`pos
      ensures Valid() && c == rx[old(pos)] && pos == old(pos) + 1
    {
      c := rx[pos];
      pos := pos + 1;
    }

    /** `uart_putchar`. */
    method PutChar(c: uint8)
      modifies this`tx
      ensures tx == old(tx) + [c]
    {
      tx := tx + [c];
    }

    /** `uart_putstr`: sends the characters of the C string `s` up to, and
        not including, its terminating NUL. */
    method PutStr(s: seq<uint8>)
      requires 0 in s
      modifies this`tx
      ensures tx == old(tx) + BeforeNul(s)
    {
      var i := 0;
      while s[i] != 0
        invariant 0 <= i < |s|
        invariant 0 !in s[..i] && 0 in s[i..]
        invariant tx == old(tx) + s[..i]
        decreases |s| - i
      {
        PutChar(s[i]);
        assert s[..i + 1] == s[..i] + [s[i]];
        i := i + 1;
        assert s[i - 1..] == [s[i - 1]] + s[i..];
      }
      BeforeNulIsPrefix(s, i);
    }

    /** `read_uint32` of the bootloader and of the memory test: four
        received bytes, most significant first, shifted into a 32-bit
        accumulator. */
    method ReadUint32() returns (v: uint32)
      requires Valid() && pos + 4 <= |rx|
      modifies this`pos
      ensures Valid() && pos == old(pos) + 4
      ensures v == Be32Value(rx[old(pos)..pos])
    {
      v := 0;
      var i := 0;
      while i < 4
        invariant 0 <= i <= 4 && pos == old(pos) + i && Valid()
        invariant v == BeValue(rx[old(pos)..pos])
      {
        ghost var read := rx[old(pos)..pos];
        var c := GetChar();
        ShiftInByte(read, v, c);
        v := (v * 0x100) % 0x1_0000_0000;
        v := (v + c) % 0x1_0000_0000;
        assert rx[old(pos)..pos] == read + [c];
        i := i + 1;
      }
      Be32ValueIsBeValue(rx[old(pos)..pos]);
    }

    /** A 32-bit store: the processor is big-endian, so the most
        significant byte goes to the lowest address. */
    method StoreWord(a: uint32, w: uint32)
      requires Valid() && a + 4 <= WORD
      modifies mem
      ensures mem[..] == Store(old(mem[..]), a, Be32(w))
    {
      var b := Be32(w);
      mem[a] := b[0];
      mem[a + 1] := b[1];
      mem[a + 2] := b[2];
      mem[a + 3] := b[3];
      forall k | 0 <= k < WORD
        ensures mem[..][k] == Store(old(mem[..]), a, b)[k]
      {
        StoreAt(old(mem[..]), a, b, k);
      }
    }

    /** `uart_putstr` on a string literal. */
    method PutText(t: string)
      requires IsText(t)
      modifies this`tx
      ensures tx == old(tx) + Ascii(t)
    {
      CStrText(t);
      PutStr(Ascii(t) + [0]);
    }
  }

  /** How many bytes a firmware copy loop moves: its pointer runs from
      `start` while it is below `start + size` computed in 32 bits. */
  function Span(start: uint32, size: uint32): nat
  {
    var end := (start as int + size) % 0x1_0000_0000;
    if start < end then end - start else 0
  }

  /** A range that fits below 2^32 is moved whole; one that reaches or
      passes the top of the address space wraps, and nothing is moved. */
  lemma SpanMeaning(start: uint32, size: uint32)
    ensures Span(start, size) == if start + size < WORD then size else 0
    ensures start + Span(start, size) < WORD || Span(start, size) == 0
  {
    if start + size >= WORD {
      assert (start as int + size) % 0x1_0000_0000 == start + size - WORD;
    }
  }

  /** Memory `m` with `d` written from address `a` on. */
  function Store(m: seq<uint8>, a: int, d: seq<uint8>): (r: seq<uint8>)
    requires 0 <= a && a + |d| <= |m|
    ensures |r| == |m|
  {
    m[..a] + d + m[a + |d|..]
  }

  /** Address `k` holds byte `k - a` of `d` when it lies in the written
      range, and what it held before otherwise. */
  lemma StoreAt(m: seq<uint8>, a: int, d: seq<uint8>, k: int)
    requires 0 <= a && a + |d| <= |m| && 0 <= k < |m|
    ensures Store(m, a, d)[k] == if a <= k < a + |d| then d[k - a] else m[k]
  {
    if k < a {
      assert Store(m, a, d)[k] == m[..a][k];
    } else if k < a + |d| {
      assert Store(m, a, d)[k] == (m[..a] + d)[k];
    }
  }

  /** Conversely, memory that agrees with `Store(m, a, d)` at every
      address is that store. */
  lemma StoreEach(m: seq<uint8>, mem: seq<uint8>, a: int, d: seq<uint8>)
    requires 0 <= a && a + |d| <= |m| && |mem| == |m|
    requires forall k | 0 <= k < |m| :: mem[k] == if a <= k < a + |d| then d[k - a] else m[k]
    ensures mem == Store(m, a, d)
  {
    forall k | 0 <= k < |m|
      ensures mem[k] == Store(m, a, d)[k]
    {
      StoreAt(m, a, d, k);
    }
  }

  /** Writing nothing changes nothing. */
  lemma StoreNothing(m: seq<uint8>, a: int)
    requires 0 <= a <= |m|
    ensures Store(m, a, []) == m
  {
    assert m[..a] + [] + m[a..] == m;
  }

  /** Reading back the written range gives the data written. */
  lemma StoreRegion(m: seq<uint8>, a: int, d: seq<uint8>)
    requires 0 <= a && a + |d| <= |m|
    ensures Store(m, a, d)[a..a + |d|] == d
  {
    assert (m[..a] + d + m[a + |d|..])[a..a + |d|] == d;
  }

  /** Writing `d1` then, right after it, `d2` is writing `d1 + d2`. */
  lemma StoreStore(m: seq<uint8>, a: nat, d1: seq<uint8>, d2: seq<uint8>)
    requires a + |d1| + |d2| <= |m|
    ensures Store(Store(m, a, d1), a + |d1|, d2) == Store(m, a, d1 + d2)
  {
    var m1 := Store(m, a, d1);
    var l := Store(m1, a + |d1|, d2);
    var r := Store(m, a, d1 + d2);
    forall k | 0 <= k < |m|
      ensures l[k] == r[k]
    {
      StoreAt(m, a, d1, k);
      StoreAt(m1, a + |d1|, d2, k);
      StoreAt(m, a, d1 + d2, k);
    }
  }

  /** Writing one more byte right after the written range extends it. */
  lemma StoreNext(m: seq<uint8>, a: nat, d: seq<uint8>, b: uint8)
    requires a + |d| < |m|
    ensures Store(m, a, d)[a + |d| := b] == Store(m, a, d + [b])
  {
    var m1 := Store(m, a, d);
    StoreStore(m, a, d, [b]);
    assert m1[a + |d| := b] == Store(m1, a + |d|, [b]);
  }

  /** Shifting a byte into an accumulator of fewer than four bytes loses
      nothing to the 32-bit wrap-around. */
  lemma ShiftInByte(read: seq<uint8>, v: int, c: uint8)
    requires |read| < 4 && v == BeValue(read)
    ensures ((v * 0x100) % 0x1_0000_0000 + c) % 0x1_0000_0000 == BeValue(read + [c])
  {
    BeValueBound(read);
    Pow256Small(|read|);
    BeValueSnoc(read, c);
  }

  lemma Pow256Small(i: nat)
    requires i < 4
    ensures Pow256(i) <= 0x100_0000
  {
    assert Pow256(1) == 0x100 && Pow256(2) == 0x1_0000 && Pow256(3) == 0x100_0000;
  }

  /** The characters of a C string before its first NUL. */
  function BeforeNul(s: seq<uint8>): (r: seq<uint8>)
    ensures |r| <= |s| && r == s[..|r|]
    ensures 0 !in r
    ensures |r| < |s| ==> s[|r|] == 0
  {
    if s == [] then []
    else if s[0] == 0 then []
    else [s[0]] + BeforeNul(s[1..])
  }

  lemma BeforeNulIsPrefix(s: seq<uint8>, i: nat)
    requires i < |s| && s[i] == 0 && 0 !in s[..i]
    ensures BeforeNul(s) == s[..i]
  {
  }

  /** A string literal of 8-bit characters with no NUL among them. */
  predicate IsText(t: string)
  {
    forall i :: 0 <= i < |t| ==> 0 < t[i] as int < 0x100
  }

  /** A literal without NUL bytes, terminated by one, is sent whole. */
  lemma CStrText(t: string)
    requires IsText(t)
    ensures 0 in Ascii(t) + [0]
    ensures BeforeNul(Ascii(t) + [0]) == Ascii(t)
  {
    var s := Ascii(t) + [0];
    assert s[|t|] == 0;
    assert s[..|t|] == Ascii(t);
    BeforeNulIsPrefix(s, |t|);
  }

  /** `uart_putint8`: the character `c + '0'` below ten and `c + 'A' - 10`
      from ten on, truncated to a byte as the UART register takes it. */
  function PutInt8(c: uint8): uint8
  {
    (c + (if c < 10 then '0' as int else 'A' as int - 10)) % 0x100
  }

  /** The value of an upper-case hexadecimal digit character. */
  function HexDigitValue(d: uint8): int
  {
    if '0' as int <= d <= '9' as int then d - '0' as int
    else if 'A' as int <= d <= 'F' as int then d - 'A' as int + 10
    else -1
  }

  /** A value below sixteen is sent as its upper-case hexadecimal digit. */
  lemma PutInt8IsHexDigit(c: uint8)
    requires c < 16
    ensures HexDigitValue(PutInt8(c)) == c
    ensures c < 10 ==> PutInt8(c) == '0' as int + c
    ensures c >= 10 ==> PutInt8(c) == 'A' as int + c - 10
  {
  }

  /** The value a byte has once the firmware holds it in a `char`: with a
      signed `char`, bytes from 0x80 on are negative. */
  function CharValue(b: uint8, signedChar: bool): int
  {
    if signedChar && b >= 0x80 then b - 0x100 else b
  }

  /** `uart_puthex8(c)`: `uart_putint8(c >> 4)` then `uart_putint8(c & 15)`.
      The shift of a negative `char` is arithmetic, and the result is
      truncated to `unsigned char` on the way into `uart_putint8`. */
  function PutHex8(b: uint8, signedChar: bool): (r: seq<uint8>)
    ensures |r| == 2
  {
    var v := CharValue(b, signedChar);
    [PutInt8((v / 16) % 0x100), PutInt8(v % 16)]
  }

  /** `uart_puthex32(i)`: `uart_puthex8` of bits 31..24, 23..16, 15..8 and
      7..0, in that order. */
  function PutHex32(i: int, signedChar: bool): (r: seq<uint8>)
    ensures |r| == 8
  {
    var b := Be32(i);
    PutHex8(b[0], signedChar) + PutHex8(b[1], signedChar) + PutHex8(b[2], signedChar) + PutHex8(b[3], signedChar)
  }

  /** With an unsigned `char`, or a byte below 0x80, `uart_puthex8` sends
      the byte as two upper-case hexadecimal digits, high nibble first. */
  lemma PutHex8RoundTrip(b: uint8, signedChar: bool)
    requires !signedChar || b < 0x80
    ensures HexDigitValue(PutHex8(b, signedChar)[0]) == b / 16
    ensures HexDigitValue(PutHex8(b, signedChar)[1]) == b % 16
    ensures 16 * HexDigitValue(PutHex8(b, signedChar)[0]) + HexDigitValue(PutHex8(b, signedChar)[1]) == b
  {
    assert CharValue(b, signedChar) == b;
    assert 0 <= b / 16 < 16;
    assert PutHex8(b, signedChar) == [PutInt8(b / 16), PutInt8(b % 16)];
    PutInt8IsHexDigit(b / 16);
    PutInt8IsHexDigit(b % 16);
  }

  /** With a signed `char`, 0x80 comes out as "/0" instead of "80". */
  lemma PutHex8SignedCharGarbles()
    ensures PutHex8(0x80, true) == ['/' as int, '0' as int]
    ensures PutHex8(0x80, false) == ['8' as int, '0' as int]
  {
  }

  /** With an unsigned `char`, `uart_puthex32` sends eight upper-case digits
      whose value, read most significant first, is the low 32 bits of `i`. */
  lemma PutHex32RoundTrip(i: int)
    ensures var r := PutHex32(i, false);
      forall k :: 0 <= k < 8 ==> 0 <= HexDigitValue(r[k]) < 16
    ensures var r := PutHex32(i, false);
      Be32Value([16 * HexDigitValue(r[0]) + HexDigitValue(r[1]),
                 16 * HexDigitValue(r[2]) + HexDigitValue(r[3]),
                 16 * HexDigitValue(r[4]) + HexDigitValue(r[5]),
                 16 * HexDigitValue(r[6]) + HexDigitValue(r[7])]) == i % 0x1_0000_0000
  {
    var b := Be32(i);
    var r := PutHex32(i, false);
    forall k | 0 <= k < 8
      ensures 0 <= HexDigitValue(r[k]) < 16
    {
      PutHex32Digit(i, k);
      PutHex8RoundTrip(b[k / 2], false);
    }
    PutHex8RoundTrip(b[0], false);
    PutHex8RoundTrip(b[1], false);
    PutHex8RoundTrip(b[2], false);
    PutHex8RoundTrip(b[3], false);
    PutHex32Digits(i);
    assert Be32Value([16 * HexDigitValue(r[0]) + HexDigitValue(r[1]),
                      16 * HexDigitValue(r[2]) + HexDigitValue(r[3]),
                      16 * HexDigitValue(r[4]) + HexDigitValue(r[5]),
                      16 * HexDigitValue(r[6]) + HexDigitValue(r[7])]) == Be32Value(b);
    Be32RoundTrip(i);
  }

  /** Digit `k` of `uart_puthex32` is digit `k % 2` of byte `k / 2`. */
  lemma PutHex32Digit(i: int, k: int)
    requires 0 <= k < 8
    ensures PutHex32(i, false)[k] == PutHex8(Be32(i)[k / 2], false)[k % 2]
  {
    PutHex32Digits(i);
  }

  lemma PutHex32Digits(i: int)
    ensures var r, b := PutHex32(i, false), Be32(i);
      && r[0] == PutHex8(b[0], false)[0] && r[1] == PutHex8(b[0], false)[1]
      && r[2] == PutHex8(b[1], false)[0] && r[3] == PutHex8(b[1], false)[1]
      && r[4] == PutHex8(b[2], false)[0] && r[5] == PutHex8(b[2], false)[1]
      && r[6] == PutHex8(b[3], false)[0] && r[7] == PutHex8(b[3], false)[1]
  {
  }
}
