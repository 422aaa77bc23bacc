/** The S-record reading of the uploader's `upload` command: every line of
    the file, stripped of surrounding whitespace, is an `s3` data record
    (uploaded where it says), an `s7` termination record (the address to
    jump to at the end) or ignored. Lines are the bytes of the file, as
    Python 2 strings are. */
module SRecord {
  import opened Bytes
  import opened SpikeHw
  import opened HostProtocol
  import SdMonitor

  /** The bytes `str.strip()` removes: space, tab, line feed, vertical
      tab, form feed and carriage return. */
  predicate IsSpace(c: uint8)
  {
    c == 0x20 || 0x09 <= c <= 0x0D
  }

  function StripStart(s: seq<uint8>): (r: seq<uint8>)
    ensures |r| <= |s| && (r == [] || !IsSpace(r[0]))
  {
    if |s| > 0 && IsSpace(s[0]) then StripStart(s[1..]) else s
  }

  function StripEnd(s: seq<uint8>): (r: seq<uint8>)
    ensures |r| <= |s| && (r == [] || !IsSpace(r[|r| - 1]))
    ensures s != [] && !IsSpace(s[0]) ==> r != [] && r[0] == s[0]
  {
    if |s| > 0 && IsSpace(s[|s| - 1]) then StripEnd(s[..|s| - 1]) else s
  }

  /** `line.strip()`. */
  function Strip(s: seq<uint8>): (r: seq<uint8>)
    ensures |r| <= |s| && (r == [] || (!IsSpace(r[0]) && !IsSpace(r[|r| - 1])))
  {
    StripEnd(StripStart(s))
  }

  /** A line that neither starts nor ends with whitespace is its own
      stripped form. */
  lemma StripKeeps(s: seq<uint8>)
    requires s != [] && !IsSpace(s[0]) && !IsSpace(s[|s| - 1])
    ensures Strip(s) == s
  {
  }

  predicate AllSpace(w: seq<uint8>)
  {
    forall i :: 0 <= i < |w| ==> IsSpace(w[i])
  }

  lemma {:induction false} StripStartSpaces(w: seq<uint8>, x: seq<uint8>)
    requires AllSpace(w) && x != [] && !IsSpace(x[0])
    ensures StripStart(w + x) == x
    decreases |w|
  {
    if w != [] {
      assert (w + x)[1..] == w[1..] + x;
      StripStartSpaces(w[1..], x);
    } else {
      assert w + x == x;
    }
  }

  lemma {:induction false} StripEndSpaces(x: seq<uint8>, w: seq<uint8>)
    requires AllSpace(w) && x != [] && !IsSpace(x[|x| - 1])
    ensures StripEnd(x + w) == x
    decreases |w|
  {
    if w != [] {
      assert (x + w)[..|x + w| - 1] == x + w[..|w| - 1];
      StripEndSpaces(x, w[..|w| - 1]);
    } else {
      assert x + w == x;
    }
  }

  /** Whitespace around a word is what `strip()` takes away. */
  lemma StripSurrounding(w: seq<uint8>, x: seq<uint8>, w': seq<uint8>)
    requires AllSpace(w) && AllSpace(w') && x != [] && !IsSpace(x[0]) && !IsSpace(x[|x| - 1])
    ensures Strip(w + x + w') == x
  {
    assert w + x + w' == w + (x + w');
    StripStartSpaces(w, x + w');
    StripEndSpaces(x, w');
  }

  predicate StartsWith(s: seq<uint8>, p: seq<uint8>)
  {
    |p| <= |s| && s[..|p|] == p
  }

  predicate IsHexDigit(c: uint8)
  {
    '0' as int <= c <= '9' as int || 'a' as int <= c <= 'f' as int || 'A' as int <= c <= 'F' as int
  }

  predicate AllHex(s: seq<uint8>)
  {
    forall i :: 0 <= i < |s| ==> IsHexDigit(s[i])
  }

  const MINUS: uint8 := 0x2D  // '-'
  const PLUS: uint8 := 0x2B   // '+'

  /** The sign Python 2's `int()` reads before the digits, once the
      surrounding whitespace is gone: whether it is `-`, and what follows
      it, which may start with more whitespace. */
  function Unsigned(t: seq<uint8>): (r: (bool, seq<uint8>))
    ensures |r.1| <= |t|
  {
    if t != [] && (t[0] == MINUS || t[0] == PLUS) then (t[0] == MINUS, StripStart(t[1..]))
    else (false, t)
  }

  /** The digits after the optional `0x` or `0X` that `int(..., 16)` allows. */
  function HexBody(u: seq<uint8>): (d: seq<uint8>)
    ensures |d| <= |u|
  {
    if |u| >= 2 && u[0] == '0' as int && (u[1] == 'x' as int || u[1] == 'X' as int) then u[2..] else u
  }

  /** `int(s, 16)` as Python 2 reads a string: whitespace around it, a sign
      that whitespace may follow, an optional `0x` or `0X` and at least one
      hexadecimal digit of either case; None where Python raises
      `ValueError`. No value has more digits than the field has
      characters. */
  function ParseHex(s: seq<uint8>): (r: Option<int>)
    ensures r.Some? ==> -(Pow16(|s|) as int) < r.value < Pow16(|s|)
  {
    var t := Strip(s);
    Pow16Below(|t|, |s|);
    SignedHex(t)
  }

  /** The reading of a field without surrounding whitespace. */
  function SignedHex(t: seq<uint8>): (r: Option<int>)
    ensures r.Some? ==> -(Pow16(|t|) as int) < r.value < Pow16(|t|)
  {
    var (neg, u) := Unsigned(t);
    var d := HexBody(u);
    if d != [] && AllHex(d) then
      Pow16Below(|d|, |t|);
      var v: int := HexValue(d);
      Some(if neg then -v else v)
    else None
  }

  /** A field of digits alone reads as its value. */
  lemma ParseHexPlain(s: seq<uint8>)
    requires s != [] && AllHex(s)
    ensures ParseHex(s) == Some(HexValue(s))
  {
    assert IsHexDigit(s[0]) && IsHexDigit(s[|s| - 1]);
    StripKeeps(s);
    if |s| >= 2 {
      assert IsHexDigit(s[1]);
    }
  }

  lemma UnsignedOf(sign: seq<uint8>, w: seq<uint8>, body: seq<uint8>)
    requires AllSpace(w) && body != [] && !IsSpace(body[0]) && body[0] != MINUS && body[0] != PLUS
    requires sign == [] || sign == [MINUS] || sign == [PLUS]
    requires sign == [] ==> w == []
    ensures Unsigned(sign + w + body) == (sign == [MINUS], body)
  {
    if sign != [] {
      assert (sign + w + body)[1..] == w + body;
      StripStartSpaces(w, body);
    } else {
      assert sign + w + body == body;
    }
  }

  lemma HexBodyOf(prefix: seq<uint8>, d: seq<uint8>)
    requires d != [] && AllHex(d)
    requires prefix == [] || prefix == ['0' as uint8, 'x' as uint8] || prefix == ['0' as uint8, 'X' as uint8]
    ensures HexBody(prefix + d) == d
  {
    if prefix != [] {
      assert (prefix + d)[2..] == d;
    } else {
      assert prefix + d == d;
      if |d| >= 2 {
        assert IsHexDigit(d[1]);
      }
    }
  }

  /** Every spelling Python 2 accepts reads as its signed digits: leading
      and trailing whitespace, a sign followed by whitespace, `0x` or `0X`
      before the digits. */
  lemma ParseHexLenient(w: seq<uint8>, sign: seq<uint8>, w': seq<uint8>, prefix: seq<uint8>, d: seq<uint8>, w'': seq<uint8>)
    requires AllSpace(w) && AllSpace(w') && AllSpace(w'') && d != [] && AllHex(d)
    requires sign == [] || sign == [MINUS] || sign == [PLUS]
    requires sign == [] ==> w' == []
    requires prefix == [] || prefix == ['0' as uint8, 'x' as uint8] || prefix == ['0' as uint8, 'X' as uint8]
    ensures ParseHex(w + sign + w' + prefix + d + w'')
      == Some(if sign == [MINUS] then -(HexValue(d) as int) else HexValue(d))
  {
    var body := prefix + d;
    var core := sign + w' + body;
    LenientEnds(sign, w', prefix, d);
    UnsignedOf(sign, w', body);
    HexBodyOf(prefix, d);
    Regroup(w, sign, w', prefix, d, w'');
    StrippedHex(w, core, w'', sign == [MINUS], body, d);
  }

  lemma Regroup<T>(a: seq<T>, b: seq<T>, c: seq<T>, e: seq<T>, f: seq<T>, g: seq<T>)
    ensures a + b + c + e + f + g == a + (b + c + (e + f)) + g
  {
  }

  lemma StrippedHex(w: seq<uint8>, core: seq<uint8>, w'': seq<uint8>, neg: bool, body: seq<uint8>, d: seq<uint8>)
    requires AllSpace(w) && AllSpace(w'') && core != [] && !IsSpace(core[0]) && !IsSpace(core[|core| - 1])
    requires Unsigned(core) == (neg, body) && HexBody(body) == d && d != [] && AllHex(d)
    ensures ParseHex(w + core + w'') == Some(if neg then -(HexValue(d) as int) else HexValue(d))
  {
    StripSurrounding(w, core, w'');
    SignedHexOf(w + core + w'', core, neg, body, d);
  }

  /** The ends of a spelling `int()` accepts are no whitespace, and its
      digits do not start with a sign. */
  lemma LenientEnds(sign: seq<uint8>, w': seq<uint8>, prefix: seq<uint8>, d: seq<uint8>)
    requires d != [] && AllHex(d)
    requires sign == [] || sign == [MINUS] || sign == [PLUS]
    requires sign == [] ==> w' == []
    requires prefix == [] || prefix == ['0' as uint8, 'x' as uint8] || prefix == ['0' as uint8, 'X' as uint8]
    ensures var body := prefix + d; var core := sign + w' + body;
      && body != [] && !IsSpace(body[0]) && body[0] != MINUS && body[0] != PLUS
      && core != [] && !IsSpace(core[0]) && !IsSpace(core[|core| - 1])
  {
    var body := prefix + d;
    var core := sign + w' + body;
    assert IsHexDigit(d[0]) && IsHexDigit(d[|d| - 1]);
    assert body[0] == if prefix == [] then d[0] else '0' as uint8;
    assert core[0] == if sign == [] then body[0] else sign[0];
    assert core[|core| - 1] == d[|d| - 1];
  }

  lemma SignedHexOf(s: seq<uint8>, core: seq<uint8>, neg: bool, body: seq<uint8>, d: seq<uint8>)
    requires Strip(s) == core && Unsigned(core) == (neg, body) && HexBody(body) == d && d != [] && AllHex(d)
    ensures ParseHex(s) == Some(if neg then -(HexValue(d) as int) else HexValue(d))
  {
  }

  /** More digits allow larger values. */
  lemma {:induction false} Pow16Below(i: nat, j: nat)
    requires i <= j
    ensures Pow16(i) <= Pow16(j)
  {
    if i < j {
      Pow16Below(i, j - 1);
    }
  }

  lemma Pow16Top()
    ensures Pow16(8) == WORD && Pow16(2) == 0x100
  {
  }

  /** `dat[i:i+2]`: at most two digits. */
  function Pair(dat: seq<uint8>, i: nat): (r: seq<uint8>)
    ensures |r| <= 2
  {
    Slice(dat, i, i + 2)
  }

  /** The bytes of the first `n` digit pairs of `dat`, each from
      `chr(int(dat[i:i+2], 16))`; None when a pair does not parse (it is
      empty because the line is too short, or not hexadecimal) or reads
      as a negative number, which `chr` refuses. */
  function DataBytes(dat: seq<uint8>, n: nat): (r: Option<seq<uint8>>)
    ensures r.Some? ==> |r.value| == n
  {
    if n == 0 then Some([])
    else
      match DataBytes(dat, n - 1)
      case None => None
      case Some(prefix) =>
        var pair := Pair(dat, 2 * (n - 1));
        match ParseHex(pair)
        case None => None
        case Some(v) =>
          if v < 0 then None
          else
            assert v < 0x100 by { Pow16Below(|pair|, 2); }
            Some(prefix + [v])
  }

  /** What a line of the file is to the loop in `upload`. */
  datatype Line =
    | Data(addr: int, data: seq<uint8>)  // `s3`: upload `data` to `addr`
    | Entry(addr: int)                   // `s7`: jump to `addr` at the end
    | Other                              // any other line: ignored

  /** The lower-case type fields `s3` and `s7`. */
  const S3: seq<uint8> := [0x73, 0x33]
  const S7: seq<uint8> := [0x73, 0x37]

  /** One line as the loop reads it, after `strip()`; None where
      `int(..., 16)` raises. Only the lower-case type letters are
      recognised. */
  function DecodeLine(raw: seq<uint8>): (r: Option<Line>)
    ensures r.Some? && r.value.Data? ==> -WORD < r.value.addr < WORD
    ensures r.Some? && r.value.Entry? ==> -WORD < r.value.addr < WORD
  {
    var line := Strip(raw);
    if StartsWith(line, S7) then DecodeEntry(line)
    else if StartsWith(line, S3) then DecodeData(line)
    else Some(Other)
  }

  /** An `s7` line: the entry point in the eight digits after the count. */
  function DecodeEntry(line: seq<uint8>): (r: Option<Line>)
    ensures r.Some? ==> r.value.Entry? && -WORD < r.value.addr < WORD
  {
    var field := Slice(line, 4, 12);
    match ParseHex(field)
    case None => None
    case Some(a) => Pow16Below(|field|, 8); Pow16Top(); Some(Entry(a))
  }

  /** An `s3` line. Its count covers the address and the checksum byte,
      so it carries `count - 5` bytes (none when the count is below 5);
      its checksum must parse but is never compared. */
  function DecodeData(line: seq<uint8>): (r: Option<Line>)
    ensures r.Some? ==> r.value.Data? && -WORD < r.value.addr < WORD
  {
    var field := Slice(line, 4, 12);
    match ParseHex(Slice(line, 2, 4))
    case None => None
    case Some(count) =>
      match ParseHex(field)
      case None => None
      case Some(a) =>
        if ParseHex(Slice(line, -2, |line|)).None? then None
        else
          match DataBytes(Slice(line, 12, -2), if count >= 5 then count - 5 else 0)
          case None => None
          case Some(d) => Pow16Below(|field|, 8); Pow16Top(); Some(Data(a, d))
  }

  /** An `s3` record line, in the lower-case form the uploader recognises,
      for `data` at `addr` with checksum byte `cksum`: the count, the
      address and the data in upper-case hexadecimal. The part after `s3` is the record the SD
      card monitor's `u` command reads. */
  function DataLine(addr: uint32, data: seq<uint8>, cksum: uint8): (r: seq<uint8>)
    ensures |r| == 14 + 2 * |data|
  {
    S3 + SdMonitor.Record(addr, data) + HexDigits(cksum, 2)
  }

  /** An `s7` record line for the entry point `addr`. */
  function EntryLine(addr: uint32, cksum: uint8): (r: seq<uint8>)
    ensures |r| == 14
  {
    S7 + HexDigits(5, 2) + HexDigits(addr, 8) + HexDigits(cksum, 2)
  }

  /** The digits `writeint` sends are hexadecimal digits. */
  lemma {:induction false} HexDigitsAllHex(v: nat, n: nat)
    ensures AllHex(HexDigits(v, n))
  {
    if n > 0 {
      HexDigitsAllHex(v / 16, n - 1);
      var d := HexDigits(v, n);
      assert d == HexDigits(v / 16, n - 1) + [DigitChar(v % 16)];
    }
  }

  /** `int(..., 16)` reads back the `n` digits of `v` as `v` modulo `16^n`. */
  lemma ParseWord(v: nat, n: nat)
    requires n == 8 && v < WORD
    ensures ParseHex(HexDigits(v, n)) == Some(v)
  {
    Pow16Top();
    assert v % Pow16(n) == v;
    ParseHexDigits(v, n);
  }

  /** Two digits read back as the byte they were written for. */
  lemma ParseByte(v: nat, n: nat)
    requires n == 2 && v < 0x100
    ensures ParseHex(HexDigits(v, n)) == Some(v)
  {
    ParseHexDigits(v, n);
    Pow16Top();
    assert Pow16(n) == 0x100;
  }

  lemma ParseHexDigits(v: nat, n: nat)
    requires n > 0
    ensures ParseHex(HexDigits(v, n)) == Some(v % Pow16(n))
  {
    HexDigitsAllHex(v, n);
    HexDigitsRoundTrip(v, n);
    ParseHexPlain(HexDigits(v, n));
  }

  lemma {:induction false} HexPairsAllHex(data: seq<uint8>)
    ensures AllHex(SdMonitor.HexPairs(data))
  {
    if data != [] {
      var p, b := data[..|data| - 1], data[|data| - 1];
      assert data == p + [b];
      HexPairsAllHex(p);
      SdMonitor.PairsSnoc(p, b);
      HexDigitsAllHex(b, 2);
    }
  }

  /** The pairs parsed depend only on the digits they cover. */
  lemma {:induction false} DataBytesPrefix(dat: seq<uint8>, dat': seq<uint8>, n: nat)
    requires 2 * n <= |dat| && 2 * n <= |dat'| && dat[..2 * n] == dat'[..2 * n]
    ensures DataBytes(dat, n) == DataBytes(dat', n)
  {
    if n > 0 {
      var k := 2 * (n - 1);
      assert dat[..k] == dat[..2 * n][..k] && dat'[..k] == dat'[..2 * n][..k];
      DataBytesPrefix(dat, dat', n - 1);
      assert Pair(dat, k) == dat[..2 * n][k..] == Pair(dat', k);
    }
  }

  /** The digit pairs of `data` read back, pair by pair, as `data`. */
  lemma {:induction false} DataBytesOfPairs(data: seq<uint8>)
    ensures DataBytes(SdMonitor.HexPairs(data), |data|) == Some(data)
  {
    if data != [] {
      var p, b := data[..|data| - 1], data[|data| - 1];
      var n := |data|;
      assert data == p + [b];
      var x, h := SdMonitor.HexPairs(p), HexDigits(b, 2);
      SdMonitor.PairsSnoc(p, b);
      assert SdMonitor.HexPairs(data) == x + h;
      DataBytesOfPairs(p);
      assert (x + h)[..2 * (n - 1)] == x == x[..2 * (n - 1)];
      DataBytesPrefix(x + h, x, n - 1);
      assert Pair(x + h, 2 * (n - 1)) == h;
      ParseByte(b, 2);
      DataBytesStep(x + h, n, p, b);
    }
  }

  /** One pair more that reads as a byte extends the bytes by it. */
  lemma DataBytesStep(dat: seq<uint8>, n: nat, prefix: seq<uint8>, v: uint8)
    requires n > 0 && DataBytes(dat, n - 1) == Some(prefix) && ParseHex(Pair(dat, 2 * (n - 1))) == Some(v)
    ensures DataBytes(dat, n) == Some(prefix + [v])
  {
  }

  /** The fields of a line made of `head`, a two-digit count, eight digits
      of address, the data digits and two digits of checksum, as the
      loop's slices see them. */
  lemma LineFields(head: seq<uint8>, a: seq<uint8>, b: seq<uint8>, c: seq<uint8>, d: seq<uint8>)
    requires |head| == 2 && |a| == 2 && |b| == 8 && |d| == 2
    ensures var line := head + a + b + c + d;
      line[..2] == head && Slice(line, 2, 4) == a && Slice(line, 4, 12) == b
      && Slice(line, 12, -2) == c && Slice(line, -2, |line|) == d
  {
    var line := head + a + b + c + d;
    assert line[..2] == head;
    assert line[2..4] == a;
    assert line[4..12] == b;
    assert line[12..|line| - 2] == c;
    assert line[|line| - 2..] == d;
  }

  /** A line with the `s7` type field, nothing to strip and a parsable
      address field decodes as an entry record at that address. */
  lemma EntryFields(line: seq<uint8>, a: seq<uint8>, b: seq<uint8>, d: seq<uint8>)
    requires |a| == 2 && |b| == 8 && |d| == 2 && AllHex(d) && ParseHex(b).Some?
    requires line == S7 + a + b + [] + d
    ensures DecodeLine(line) == Some(Entry(ParseHex(b).value))
  {
    LineFields(S7, a, b, [], d);
    assert IsHexDigit(line[|line| - 1]);
    StripKeeps(line);
  }

  /** A line with the `s3` type field, nothing to strip and parsable
      fields decodes as a data record with the bytes its count covers. */
  lemma DataFields(line: seq<uint8>, a: seq<uint8>, b: seq<uint8>, c: seq<uint8>, d: seq<uint8>, count: nat)
    requires |a| == 2 && |b| == 8 && |d| == 2 && AllHex(d) && ParseHex(b).Some?
    requires ParseHex(a) == Some(count) && DataBytes(c, if count >= 5 then count - 5 else 0).Some?
    requires line == S3 + a + b + c + d
    ensures DecodeLine(line)
      == Some(Data(ParseHex(b).value, DataBytes(c, if count >= 5 then count - 5 else 0).value))
  {
    LineFields(S3, a, b, c, d);
    ParseHexPlain(d);
    assert IsHexDigit(line[|line| - 1]);
    StripKeeps(line);
    assert !StartsWith(line, S7) by { assert line[1] == S3[1] != S7[1]; }
    assert DecodeLine(line) == DecodeData(line);
    var count' := if count >= 5 then count - 5 else 0;
    DataFieldsParsed(line, count, ParseHex(b).value, DataBytes(c, count').value);
  }

  /** `DecodeData` once each field of the line has parsed. */
  lemma DataFieldsParsed(line: seq<uint8>, count: int, addr: int, data: seq<uint8>)
    requires ParseHex(Slice(line, 2, 4)) == Some(count) && ParseHex(Slice(line, 4, 12)) == Some(addr)
    requires ParseHex(Slice(line, -2, |line|)).Some?
    requires DataBytes(Slice(line, 12, -2), if count >= 5 then count - 5 else 0) == Some(data)
    ensures DecodeData(line) == Some(Data(addr, data))
  {
  }

  /** Decoding an `s3` line written for `data` at `addr` gives back the
      address and the data, whatever its checksum. */
  lemma DataLineRoundTrip(addr: uint32, data: seq<uint8>, cksum: uint8)
    requires |data| + 5 < 0x100
    ensures DecodeLine(DataLine(addr, data, cksum)) == Some(Data(addr, data))
  {
    var a, b, c, d := HexDigits(|data| + 5, 2), HexDigits(addr, 8), SdMonitor.HexPairs(data), HexDigits(cksum, 2);
    assert DataLine(addr, data, cksum) == S3 + a + b + c + d;
    HexDigitsAllHex(cksum, 2);
    ParseByte(|data| + 5, 2);
    ParseWord(addr, 8);
    DataBytesOfPairs(data);
    DataFields(DataLine(addr, data, cksum), a, b, c, d, |data| + 5);
  }

  /** Decoding an `s7` line gives back its entry point. */
  lemma EntryLineRoundTrip(addr: uint32, cksum: uint8)
    ensures DecodeLine(EntryLine(addr, cksum)) == Some(Entry(addr))
  {
    var a, b, d := HexDigits(5, 2), HexDigits(addr, 8), HexDigits(cksum, 2);
    assert EntryLine(addr, cksum) == S7 + a + b + [] + d;
    HexDigitsAllHex(cksum, 2);
    ParseWord(addr, 8);
    EntryFields(EntryLine(addr, cksum), a, b, d);
  }

  /** Records written with an upper-case `S`, as the S-record format
      itself spells them, are ignored. */
  lemma UpperCaseIgnored(raw: seq<uint8>)
    requires Strip(raw) != [] && Strip(raw)[0] == 'S' as int
    ensures DecodeLine(raw) == Some(Other)
  {
    var line := Strip(raw);
    assert !StartsWith(line, S7) by {
      assert |S7| <= |line| ==> line[..|S7|][0] != S7[0];
    }
    assert !StartsWith(line, S3) by {
      assert |S3| <= |line| ==> line[..|S3|][0] != S3[0];
    }
  }

  /** A count below 5 leaves an `s3` line without data. */
  lemma ShortCountNoData(raw: seq<uint8>)
    requires DecodeLine(raw).Some? && DecodeLine(raw).value.Data?
    requires ParseHex(Slice(Strip(raw), 2, 4)).value < 5
    ensures DecodeLine(raw).value.data == []
  {
  }

  /** Where the loop over the lines stands: the bytes written so far,
      the entry point last seen and whether a line has raised. */
  datatype Progress = Progress(written: seq<uint8>, jump: Option<int>, failed: bool)

  /** One turn of the loop: a data record uploaded, an entry point
      remembered, any other line skipped; a line that raises ends it. */
  function Next(r: Progress, line: Option<Line>): (r': Progress)
    requires !r.failed
    ensures r'.failed <==> line.None?
    ensures r'.jump == if line.Some? && line.value.Entry? then Some(line.value.addr) else r.jump
  {
    match line
    case None => Progress(r.written, r.jump, true)
    case Some(Data(a, d)) => Progress(r.written + UploadFrame(a, d), r.jump, false)
    case Some(Entry(a)) => Progress(r.written, Some(a), false)
    case Some(Other) => r
  }

  /** The loop over the decoded lines, abandoned at the first that raised. */
  function Run(decoded: seq<Option<Line>>): (r: Progress)
  {
    if decoded == [] then Progress([], None, false)
    else
      var r := Run(decoded[..|decoded| - 1]);
      if r.failed then r else Next(r, decoded[|decoded| - 1])
  }

  /** Every line of the file, decoded. */
  function Decoded(lines: seq<seq<uint8>>): (r: seq<Option<Line>>)
    ensures |r| == |lines| && forall i :: 0 <= i < |lines| ==> r[i] == DecodeLine(lines[i])
  {
    seq(|lines|, i requires 0 <= i < |lines| => DecodeLine(lines[i]))
  }

  lemma RunNext(decoded: seq<Option<Line>>, i: nat)
    requires i < |decoded| && !Run(decoded[..i]).failed
    ensures Run(decoded[..i + 1]) == Next(Run(decoded[..i]), decoded[i])
  {
    assert decoded[..i + 1][..i] == decoded[..i];
  }

  /** What the end of `upload` makes of the loop: a jump to the entry
      point, which raises when no `s7` line gave one. */
  function Finish(r: Progress): (seq<uint8>, bool)
  {
    if r.failed || r.jump.None? then (r.written, false)
    else (r.written + JumpRequest(r.jump.value), true)
  }

  /** Everything `upload` writes after the probe, and whether it gets to
      the end. */
  function UploadBytes(lines: seq<seq<uint8>>): (seq<uint8>, bool)
  {
    Finish(Run(Decoded(lines)))
  }

  /** `upload` as written: its statement `addr_jump = none` names no
      variable, so it raises before the file is read. */
  function UploadAsWritten(lines: seq<seq<uint8>>): (seq<uint8>, bool)
  {
    ([], false)
  }

  /** A record for the uploader: data for `addr` and its checksum byte. */
  datatype Rec = Rec(addr: uint32, data: seq<uint8>, cksum: uint8)

  predicate Fits(recs: seq<Rec>)
  {
    forall i :: 0 <= i < |recs| ==> |recs[i].data| + 5 < 0x100
  }

  /** The `s3` lines of the records. */
  function DataLines(recs: seq<Rec>): (r: seq<seq<uint8>>)
    ensures |r| == |recs| && forall i :: 0 <= i < |recs| ==> r[i] == DataLine(recs[i].addr, recs[i].data, recs[i].cksum)
  {
    seq(|recs|, i requires 0 <= i < |recs| => DataLine(recs[i].addr, recs[i].data, recs[i].cksum))
  }

  /** The records as the loop sees them. */
  function DataRecords(recs: seq<Rec>): (r: seq<Option<Line>>)
    ensures |r| == |recs| && forall i :: 0 <= i < |recs| ==> r[i] == Some(Data(recs[i].addr, recs[i].data))
  {
    seq(|recs|, i requires 0 <= i < |recs| => Some(Data(recs[i].addr, recs[i].data)))
  }

  /** The upload frames of the records, in order. */
  function Frames(recs: seq<Rec>): seq<uint8>
  {
    if recs == [] then [] else Frames(recs[..|recs| - 1]) + UploadFrame(recs[|recs| - 1].addr, recs[|recs| - 1].data)
  }

  lemma DecodedDataLines(recs: seq<Rec>)
    requires Fits(recs)
    ensures Decoded(DataLines(recs)) == DataRecords(recs)
  {
    forall i | 0 <= i < |recs|
      ensures DecodeLine(DataLine(recs[i].addr, recs[i].data, recs[i].cksum)) == Some(Data(recs[i].addr, recs[i].data))
    {
      DataLineRoundTrip(recs[i].addr, recs[i].data, recs[i].cksum);
    }
  }

  lemma {:induction false} RunDataRecords(recs: seq<Rec>)
    ensures Run(DataRecords(recs)) == Progress(Frames(recs), None, false)
  {
    if recs != [] {
      var d := DataRecords(recs);
      RunDataRecords(recs[..|recs| - 1]);
      assert d[..|d| - 1] == DataRecords(recs[..|recs| - 1]);
    }
  }

  /** A file of data records and then an entry record uploads every
      record, in order, and then jumps to the entry point. */
  lemma FileUploads(recs: seq<Rec>, entry: uint32, cksum: uint8)
    requires Fits(recs)
    ensures UploadBytes(DataLines(recs) + [EntryLine(entry, cksum)]) == (Frames(recs) + JumpRequest(entry), true)
  {
    var lines := DataLines(recs) + [EntryLine(entry, cksum)];
    var d := Decoded(lines);
    EntryLineRoundTrip(entry, cksum);
    DecodedDataLines(recs);
    assert d == DataRecords(recs) + [Some(Entry(entry))];
    assert d[..|d| - 1] == DataRecords(recs);
    RunDataRecords(recs);
  }

  /** Without an entry record the final jump fails, after every data
      record has been uploaded. */
  lemma NoEntryFails(recs: seq<Rec>)
    requires Fits(recs)
    ensures UploadBytes(DataLines(recs)) == (Frames(recs), false)
  {
    DecodedDataLines(recs);
    RunDataRecords(recs);
  }

  /** Once a line has raised, later lines change nothing. */
  lemma {:induction false} FailureStops(decoded: seq<Option<Line>>, more: seq<Option<Line>>)
    requires Run(decoded).failed
    ensures Run(decoded + more) == Run(decoded)
  {
    if more != [] {
      var init := more[..|more| - 1];
      FailureStops(decoded, init);
      var all := decoded + more;
      assert all[..|all| - 1] == decoded + init;
    } else {
      assert decoded + more == decoded;
    }
  }

  /** A line that does not parse ends the upload: nothing after it is
      sent, and the final jump is not made. */
  lemma BadLineStops(lines: seq<seq<uint8>>, bad: seq<uint8>, more: seq<seq<uint8>>)
    requires DecodeLine(bad).None?
    ensures UploadBytes(lines + [bad] + more) == (Run(Decoded(lines)).written, false)
  {
    var d, e := Decoded(lines), Decoded(lines + [bad] + more);
    var k := |lines|;
    assert e[..k] == d;
    assert e[..k + 1] + e[k + 1..] == e;
    if Run(d).failed {
      assert e[..k + 1] == d + [e[k]];
      FailureStops(d, [e[k]]);
    } else {
      RunNext(e, k);
    }
    FailureStops(e[..k + 1], e[k + 1..]);
  }

  /** As written, `upload` sends nothing even for a file the corrected
      loop uploads and jumps from. */
  lemma UploadAsWrittenSendsNothing()
    ensures UploadAsWritten([EntryLine(0, 0)]) == ([], false)
    ensures UploadBytes([EntryLine(0, 0)]) == (JumpRequest(0), true)
  {
    EntryLineRoundTrip(0, 0);
    var d := Decoded([EntryLine(0, 0)]);
    assert d == [Some(Entry(0))];
    assert d[..0] == [];
    assert Run(d) == Progress([], Some(0), false);
    assert [] + JumpRequest(0) == JumpRequest(0);
  }

  /** One line of the loop that parsed: a data record is uploaded at
      once, an entry point is kept for the end. */
  method SendLine(lm32: LM32Serial, line: Line, jump: Option<int>, ghost t0: seq<uint8>, ghost r: Progress)
    returns (jump': Option<int>)
    requires !r.failed && r.jump == jump && lm32.tx == t0 + r.written
    modifies lm32
    ensures lm32.tx == t0 + Next(r, Some(line)).written && jump' == Next(r, Some(line)).jump
    ensures lm32.rx == old(lm32.rx) && lm32.ticks == old(lm32.ticks)
  {
    jump' := jump;
    match line
    case Data(a, d) =>
      lm32.Upload(a, d);
      AppendAssoc(t0, r.written, UploadFrame(a, d));
    case Entry(a) =>
      jump' := Some(a);
    case Other =>
  }

  /** The loop of `upload` on a link: each data record uploaded as it is
      read, then the jump; false where Python raises. */
  method SendLines(lm32: LM32Serial, lines: seq<seq<uint8>>) returns (ok: bool)
    modifies lm32
    ensures (lm32.tx, ok) == (old(lm32.tx) + UploadBytes(lines).0, UploadBytes(lines).1)
    ensures lm32.rx == old(lm32.rx) && lm32.ticks == old(lm32.ticks)
  {
    ghost var decoded := Decoded(lines);
    var jump: Option<int> := None;
    var i := 0;
    while i < |lines|
      invariant 0 <= i <= |lines| && !Run(decoded[..i]).failed
      invariant lm32.tx == old(lm32.tx) + Run(decoded[..i]).written && jump == Run(decoded[..i]).jump
      invariant lm32.rx == old(lm32.rx) && lm32.ticks == old(lm32.ticks)
    {
      var line := DecodeLine(lines[i]);
      RunNext(decoded, i);
      if line.None? {
        FailureStops(decoded[..i + 1], decoded[i + 1..]);
        assert decoded[..i + 1] + decoded[i + 1..] == decoded;
        return false;
      }
      jump := SendLine(lm32, line.value, jump, old(lm32.tx), Run(decoded[..i]));
      i := i + 1;
    }
    assert decoded[..i] == decoded;
    if jump.None? {
      return false;
    }
    lm32.Jump(jump.value);
    AppendAssoc(old(lm32.tx), Run(decoded).written, JumpRequest(jump.value));
    ok := true;
  }
}
