/** The uploader's serial terminal (`Miniterm`): the writer turns
    keystrokes into bytes for the link or, after the menu character, into
    changes of the terminal's settings; the reader shows every received
    byte on the console in one of four display modes. Each keystroke and
    each received byte is one transition of the terminal's state. */
module Terminal {
  import opened Bytes
  import opened HostProtocol
  import SRecord
  import Lac

  const EXIT_CHARACTER: uint8 := 0x1D  // Ctrl+]
  const MENU_CHARACTER: uint8 := 0x14  // Ctrl+T
  const CTRL_A: uint8 := 0x01
  const CTRL_B: uint8 := 0x02
  const CTRL_D: uint8 := 0x04
  const CTRL_E: uint8 := 0x05
  const CTRL_H: uint8 := 0x08
  const CTRL_I: uint8 := 0x09
  const CTRL_L: uint8 := 0x0C
  const CTRL_R: uint8 := 0x12
  const CTRL_U: uint8 := 0x15
  const TAB: uint8 := 0x09
  const BACKSLASH: uint8 := 0x5C

  const CONVERT_LF: int := 0
  const CONVERT_CR: int := 1
  const CONVERT_CRLF: int := 2

  /** `NEWLINE_CONVERISON_MAP`: what a typed line feed becomes on the link. */
  function NewlineFor(convert: int): (r: seq<uint8>)
    requires 0 <= convert <= 2
    ensures LF in r || CR in r
  {
    [[LF], [CR], [CR, LF]][convert]
  }

  function Ord(c: char): uint8
    requires c as int < 0x100
  {
    c as int
  }

  /** How the terminal shows and sends lines: local echo, the display
      mode (`repr_mode`), the line feed mode (`convert_outgoing`) and the
      bytes a typed line feed becomes (`newline`). */
  datatype Modes = Modes(echo: bool, reprMode: int, convert: int, newline: seq<uint8>)

  /** The modem control lines the terminal drives. */
  datatype Lines = Lines(dtr: bool, rts: bool, brk: bool)

  datatype Parity = ParityNone | ParityEven | ParityOdd | ParityMark | ParitySpace
  datatype StopBits = StopOne | StopOnePointFive | StopTwo

  /** The settings of the serial port. */
  datatype Port = Port(baud: int, bytesize: int, parity: Parity, stopbits: StopBits, xonxoff: bool, rtscts: bool)

  /** The terminal's state: whether it is alive, whether the writer's next
      key is for the menu (`menu_active`), and what it has written to the
      link (`tx`) and to the console (`out`). */
  datatype Term = Term(modes: Modes, lines: Lines, port: Port, alive: bool, menu: bool, tx: seq<uint8>, out: seq<uint8>)

  /** The display mode and the line feed mode stay in range, and the
      newline sent for a typed line feed is always the one of the mode. */
  predicate Settled(m: Modes)
  {
    0 <= m.reprMode <= 3 && 0 <= m.convert <= 2 && m.newline == NewlineFor(m.convert)
  }

  /** `Ctrl+A`: the next display mode, 3 wrapping to 0. */
  function NextRepr(m: int): (r: int)
  {
    if m + 1 > 3 then 0 else m + 1
  }

  /** `Ctrl+L`: the next line feed mode, 2 wrapping to 0. */
  function NextConvert(k: int): (r: int)
  {
    if k + 1 > 2 then 0 else k + 1
  }

  predicate IsModeKey(c: uint8)
  {
    c == CTRL_E || c == CTRL_A || c == CTRL_L
  }

  /** The menu keys for the modes: `Ctrl+E` toggles local echo, `Ctrl+A`
      and `Ctrl+L` step the display and line feed modes. */
  function ModeKey(m: Modes, c: uint8): (r: Modes)
    requires Settled(m)
    ensures Settled(r)
  {
    if c == CTRL_E then m.(echo := !m.echo)
    else if c == CTRL_A then m.(reprMode := NextRepr(m.reprMode))
    else if c == CTRL_L then
      var k := NextConvert(m.convert);
      m.(convert := k, newline := NewlineFor(k))
    else m
  }

  predicate IsLineKey(c: uint8)
  {
    c == CTRL_R || c == CTRL_D || c == CTRL_B
  }

  /** `Ctrl+R`, `Ctrl+D`, `Ctrl+B` toggle RTS, DTR and the break condition. */
  function LineKey(l: Lines, c: uint8): Lines
  {
    if c == CTRL_R then l.(rts := !l.rts)
    else if c == CTRL_D then l.(dtr := !l.dtr)
    else if c == CTRL_B then l.(brk := !l.brk)
    else l
  }

  predicate IsPortKey(c: uint8)
  {
    c == '8' as int || c == '7' as int || c == 'e' as int || c == 'E' as int || c == 'o' as int || c == 'O' as int
    || c == 'm' as int || c == 'M' as int || c == 's' as int || c == 'S' as int || c == 'n' as int || c == 'N' as int
    || c == '1' as int || c == '2' as int || c == '3' as int
    || c == 'x' as int || c == 'X' as int || c == 'r' as int || c == 'R' as int
  }

  /** The menu keys for the port: data bits, parity, stop bits, and
      software and hardware flow control (on for the upper-case letter). */
  function PortKey(p: Port, c: uint8): Port
  {
    if c == '8' as int then p.(bytesize := 8)
    else if c == '7' as int then p.(bytesize := 7)
    else if c == 'e' as int || c == 'E' as int then p.(parity := ParityEven)
    else if c == 'o' as int || c == 'O' as int then p.(parity := ParityOdd)
    else if c == 'm' as int || c == 'M' as int then p.(parity := ParityMark)
    else if c == 's' as int || c == 'S' as int then p.(parity := ParitySpace)
    else if c == 'n' as int || c == 'N' as int then p.(parity := ParityNone)
    else if c == '1' as int then p.(stopbits := StopOne)
    else if c == '2' as int then p.(stopbits := StopTwo)
    else if c == '3' as int then p.(stopbits := StopOnePointFive)
    else if c == 'x' as int || c == 'X' as int then p.(xonxoff := c == 'X' as int)
    else if c == 'r' as int || c == 'R' as int then p.(rtscts := c == 'R' as int)
    else p
  }

  /** What the console shows of a key written with local echo on. */
  function Echoed(t: Term, c: seq<uint8>): seq<uint8>
  {
    if t.modes.echo then t.out + c else t.out
  }

  predicate IsDigit(c: uint8)
  {
    '0' as int <= c <= '9' as int
  }

  predicate AllDigits(s: seq<uint8>)
  {
    forall k :: 0 <= k < |s| ==> IsDigit(s[k])
  }

  function DigitsValue(s: seq<uint8>): nat
    requires AllDigits(s)
  {
    if s == [] then 0
    else
      assert IsDigit(s[|s| - 1]);
      10 * DigitsValue(s[..|s| - 1]) + (s[|s| - 1] - '0' as int)
  }

  /** `int(s)` as Python 2 reads a string: whitespace around it, a sign
      that whitespace may follow, and at least one decimal digit; None
      where Python raises `ValueError`. */
  function ParseInt(s: seq<uint8>): (r: Option<int>)
  {
    var (neg, d) := SRecord.Unsigned(SRecord.Strip(s));
    if d != [] && AllDigits(d) then
      var v: int := DigitsValue(d);
      Some(if neg then -v else v)
    else None
  }

  /** Digits alone read as their value. */
  lemma ParseIntPlain(s: seq<uint8>)
    requires s != [] && AllDigits(s)
    ensures ParseInt(s) == Some(DigitsValue(s))
  {
    assert IsDigit(s[0]) && IsDigit(s[|s| - 1]);
    SRecord.StripKeeps(s);
  }

  /** Every spelling Python 2 accepts reads as its signed digits: leading
      and trailing whitespace, and a sign that whitespace may follow. */
  lemma ParseIntLenient(w: seq<uint8>, sign: seq<uint8>, w': seq<uint8>, d: seq<uint8>, w'': seq<uint8>)
    requires SRecord.AllSpace(w) && SRecord.AllSpace(w') && SRecord.AllSpace(w'') && d != [] && AllDigits(d)
    requires sign == [] || sign == [SRecord.MINUS] || sign == [SRecord.PLUS]
    requires sign == [] ==> w' == []
    ensures ParseInt(w + sign + w' + d + w'')
      == Some(if sign == [SRecord.MINUS] then -(DigitsValue(d) as int) else DigitsValue(d))
  {
    var core := sign + w' + d;
    assert IsDigit(d[0]) && IsDigit(d[|d| - 1]);
    assert core[0] == if sign == [] then d[0] else sign[0];
    assert core[|core| - 1] == d[|d| - 1];
    SRecord.StripSurrounding(w, core, w'');
    assert w + sign + w' + d + w'' == w + core + w'';
    SRecord.UnsignedOf(sign, w', d);
    ParseIntOf(w + core + w'', core, sign == [SRecord.MINUS], d);
  }

  lemma ParseIntOf(s: seq<uint8>, core: seq<uint8>, neg: bool, d: seq<uint8>)
    requires SRecord.Strip(s) == core && SRecord.Unsigned(core) == (neg, d) && d != [] && AllDigits(d)
    ensures ParseInt(s) == Some(if neg then -(DigitsValue(d) as int) else DigitsValue(d))
  {
  }

  /** `b`/`B` in the menu: the next line is read and taken as the new baud
      rate when `int()` accepts it; otherwise the rate saved before is
      put back. */
  function BaudKey(t: Term, rest: seq<uint8>): (r: (Term, seq<uint8>))
  {
    var (line, rest') := NextLine(rest);
    match ParseInt(SRecord.Strip(line))
    case None => (t, rest')
    case Some(b) => (t.(port := t.port.(baud := b)), rest')
  }

  /** A key after the menu character; the menu closes afterwards. The
      menu and exit characters go to the link; `Ctrl+U` reads a file
      name line (sending the file is not part of this model). Help
      (`Ctrl+H`, `h`, `H`, `?`), `Ctrl+I` and unknown keys only print. The
      keys are tested in groups here; no key is in two groups, so the
      order of the tests does not matter. */
  function MenuKey(t: Term, c: uint8, rest: seq<uint8>): (r: (Term, seq<uint8>))
    requires Settled(t.modes)
    ensures Settled(r.0.modes) && !r.0.menu && r.0.alive == t.alive && |r.1| <= |rest|
  {
    var t := t.(menu := false);
    if c == MENU_CHARACTER || c == EXIT_CHARACTER then (t.(tx := t.tx + [c], out := Echoed(t, [c])), rest)
    else if c == CTRL_U then (t, NextLine(rest).1)
    else if IsLineKey(c) then (t.(lines := LineKey(t.lines, c)), rest)
    else if IsModeKey(c) then (t.(modes := ModeKey(t.modes, c)), rest)
    else if c == 'b' as int || c == 'B' as int then BaudKey(t, rest)
    else if IsPortKey(c) then (t.(port := PortKey(t.port, c)), rest)
    else (t, rest)
  }

  /** A key outside the menu: the menu character opens the menu, the
      exit character stops the terminal, a line feed sends the newline of
      the line feed mode and any other key is sent as it is. */
  function PlainKey(t: Term, c: uint8): (r: Term)
  {
    if c == MENU_CHARACTER then t.(menu := true)
    else if c == EXIT_CHARACTER then t.(alive := false)
    else if c == LF then t.(tx := t.tx + t.modes.newline, out := Echoed(t, [c]))
    else t.(tx := t.tx + [c], out := Echoed(t, [c]))
  }

  /** One turn of the writer's loop on key `c`, with `rest` the keyboard
      input after it; gives the new state and the input left. */
  function KeyStep(t: Term, c: uint8, rest: seq<uint8>): (r: (Term, seq<uint8>))
    requires Settled(t.modes)
    ensures Settled(r.0.modes) && |r.1| <= |rest|
  {
    if t.menu then MenuKey(t, c, rest) else (PlainKey(t, c), rest)
  }

  /** The writer on the keyboard input `keys`: one key at a time while the
      terminal is alive and input is left. */
  function WriterRun(t: Term, keys: seq<uint8>): (r: Term)
    requires Settled(t.modes)
    ensures Settled(r.modes)
    decreases |keys|
  {
    if !t.alive || keys == [] then t
    else
      var (t', rest) := KeyStep(t, keys[0], keys[1..]);
      WriterRun(t', rest)
  }

  /** The menu is closed after every key typed in it, and no key typed in
      it stops the terminal. */
  lemma MenuCloses(t: Term, c: uint8, rest: seq<uint8>)
    requires Settled(t.modes) && t.menu
    ensures !KeyStep(t, c, rest).0.menu && KeyStep(t, c, rest).0.alive == t.alive
  {
  }

  /** Outside the menu the menu character only opens the menu, and the
      exit character only stops the terminal: neither is sent. */
  lemma MenuAndExitKeys(t: Term, rest: seq<uint8>)
    requires Settled(t.modes) && !t.menu
    ensures KeyStep(t, MENU_CHARACTER, rest) == (t.(menu := true), rest)
    ensures KeyStep(t, EXIT_CHARACTER, rest) == (t.(alive := false), rest)
    ensures WriterRun(t, [EXIT_CHARACTER] + rest) == t.(alive := false)
  {
    assert ([EXIT_CHARACTER] + rest)[1..] == rest;
  }

  /** Inside the menu the two characters are sent to the link themselves. */
  lemma MenuSendsItsCharacters(t: Term, c: uint8, rest: seq<uint8>)
    requires Settled(t.modes) && t.menu && (c == MENU_CHARACTER || c == EXIT_CHARACTER)
    ensures KeyStep(t, c, rest) == (t.(menu := false, tx := t.tx + [c], out := if t.modes.echo then t.out + [c] else t.out), rest)
  {
  }

  /** `Ctrl+A` goes through the display modes 0, 1, 2, 3 and back to 0. */
  lemma ReprCycles(t: Term, rest: seq<uint8>)
    requires Settled(t.modes) && t.menu
    ensures KeyStep(t, CTRL_A, rest) == (t.(menu := false, modes := t.modes.(reprMode := (t.modes.reprMode + 1) % 4)), rest)
  {
  }

  /** `Ctrl+L` goes through the line feed modes 0, 1, 2 and back to 0, and
      the newline follows the mode. */
  lemma ConvertCycles(t: Term, rest: seq<uint8>)
    requires Settled(t.modes) && t.menu
    ensures var k := (t.modes.convert + 1) % 3;
      KeyStep(t, CTRL_L, rest) == (t.(menu := false, modes := t.modes.(convert := k, newline := NewlineFor(k))), rest)
  {
  }

  /** The keys that toggle one flag: `Ctrl+R`, `Ctrl+D`, `Ctrl+B`, `Ctrl+E`. */
  predicate IsToggle(c: uint8)
  {
    IsLineKey(c) || c == CTRL_E
  }

  lemma ToggleBack(t: Term, c: uint8, rest: seq<uint8>, rest': seq<uint8>)
    requires Settled(t.modes) && IsToggle(c)
    ensures MenuKey(t.(menu := true), c, rest) == (MenuKey(t.(menu := true), c, rest).0, rest)
    ensures MenuKey(MenuKey(t.(menu := true), c, rest).0.(menu := true), c, rest').0 == t.(menu := false)
  {
  }

  /** A toggle typed twice through the menu changes nothing. */
  lemma ToggleTwice(t: Term, c: uint8)
    requires Settled(t.modes) && t.alive && !t.menu && IsToggle(c)
    ensures WriterRun(t, [MENU_CHARACTER, c, MENU_CHARACTER, c]) == t
  {
    var k := [MENU_CHARACTER, c, MENU_CHARACTER, c];
    var t1 := t.(menu := true);
    var t2 := MenuKey(t1, c, k[2..]).0;
    var t3 := t2.(menu := true);
    ToggleBack(t, c, k[2..], k[4..]);
    assert k[1..][0] == c && k[1..][1..] == k[2..];
    assert k[2..][0] == MENU_CHARACTER && k[2..][1..] == k[3..];
    assert k[3..][0] == c && k[3..][1..] == k[4..] && k[4..] == [];
    assert WriterRun(t, k) == WriterRun(t1, k[1..]);
    assert WriterRun(t1, k[1..]) == WriterRun(t2, k[2..]);
    assert WriterRun(t2, k[2..]) == WriterRun(t3, k[3..]);
    assert WriterRun(t3, k[3..]) == WriterRun(t, k[4..]);
  }

  /** What typing `keys` sends when none of them is the menu or exit
      character: each key itself, a line feed as the newline of the mode. */
  function Typed(keys: seq<uint8>, newline: seq<uint8>): seq<uint8>
  {
    if keys == [] then [] else (if keys[0] == LF then newline else [keys[0]]) + Typed(keys[1..], newline)
  }

  predicate Plain(keys: seq<uint8>)
  {
    forall k :: 0 <= k < |keys| ==> keys[k] != MENU_CHARACTER && keys[k] != EXIT_CHARACTER
  }

  /** Outside the menu, keys that are neither the menu nor the exit
      character reach the link in order, line feeds translated, and
      change nothing but what is written. */
  lemma {:induction false} TypingSends(t: Term, keys: seq<uint8>)
    requires Settled(t.modes) && t.alive && !t.menu && Plain(keys)
    ensures WriterRun(t, keys).tx == t.tx + Typed(keys, t.modes.newline)
    ensures WriterRun(t, keys) == t.(tx := WriterRun(t, keys).tx, out := WriterRun(t, keys).out)
    decreases |keys|
  {
    if keys != [] {
      var c, rest := keys[0], keys[1..];
      var t' := PlainKey(t, c);
      assert KeyStep(t, c, rest) == (t', rest);
      assert Plain(rest) by {
        assert forall k :: 0 <= k < |rest| ==> rest[k] == keys[k + 1];
      }
      TypingSends(t', rest);
      AppendAssoc(t.tx, if c == LF then t.modes.newline else [c], Typed(rest, t.modes.newline));
    }
  }

  /** A baud rate entry `int()` rejects keeps the old rate; one it
      accepts becomes the new rate. Either way the entered line is used up. */
  lemma BaudEntry(t: Term, c: uint8, rest: seq<uint8>)
    requires Settled(t.modes) && t.menu && (c == 'b' as int || c == 'B' as int)
    ensures var (line, after) := NextLine(rest);
      var entered := ParseInt(SRecord.Strip(line));
      KeyStep(t, c, rest) == (t.(menu := false, port := t.port.(baud := if entered.Some? then entered.value else t.port.baud)), after)
  {
  }

  /** The digits of `str(n)` as bytes. */
  function DecimalBytes(n: nat): (r: seq<uint8>)
    ensures r != [] && AllDigits(r)
  {
    var s := Lac.Decimal(n);
    seq(|s|, k requires 0 <= k < |s| => s[k] as int as uint8)
  }

  lemma {:induction false} DigitsValueOf(n: nat)
    ensures DigitsValue(DecimalBytes(n)) == n
  {
    if n >= 10 {
      DigitsValueOf(n / 10);
      var b := DecimalBytes(n);
      assert b[..|b| - 1] == DecimalBytes(n / 10);
    }
  }

  lemma {:induction false} NextLineOfDigits(d: seq<uint8>, rest: seq<uint8>)
    requires AllDigits(d)
    ensures NextLine(d + [LF] + rest) == (d + [LF], rest)
  {
    if d != [] {
      var s := d + [LF] + rest;
      assert s[1..] == d[1..] + [LF] + rest;
      NextLineOfDigits(d[1..], rest);
      assert [d[0]] + (d[1..] + [LF]) == d + [LF];
    }
  }

  lemma StripDigitsLine(d: seq<uint8>)
    requires d != [] && AllDigits(d)
    ensures SRecord.Strip(d + [LF]) == d
  {
    var s := d + [LF];
    assert !SRecord.IsSpace(s[0]);
    assert SRecord.StripStart(s) == s;
    assert s[..|s| - 1] == d;
    assert SRecord.StripEnd(d) == d;
  }

  /** Typing a rate and Return at the baud prompt sets that rate. */
  lemma BaudTyped(t: Term, c: uint8, n: nat, rest: seq<uint8>)
    requires Settled(t.modes) && t.menu && (c == 'b' as int || c == 'B' as int)
    ensures KeyStep(t, c, DecimalBytes(n) + [LF] + rest) == (t.(menu := false, port := t.port.(baud := n)), rest)
  {
    var d := DecimalBytes(n);
    NextLineOfDigits(d, rest);
    StripDigitsLine(d);
    DigitsValueOf(n);
    ParseIntPlain(d);
    BaudEntry(t, c, d + [LF] + rest);
  }

  // ---------------------------------------------------------------------
  // The reader

  /** Python 2's escape of one byte inside a string literal: a doubled
      backslash, `\t`, `\n`, `\r`, `\x` and two lower-case hexadecimal
      digits for any other byte outside printable ASCII, and the byte
      itself otherwise. */
  function EscapeByte(c: uint8): (r: seq<uint8>)
    ensures 1 <= |r| <= 4 && (|r| == 1 <==> 32 <= c < 127 && c != BACKSLASH)
  {
    if c == BACKSLASH then [BACKSLASH, BACKSLASH]
    else if c == TAB then [BACKSLASH, 't' as int]
    else if c == LF then [BACKSLASH, 'n' as int]
    else if c == CR then [BACKSLASH, 'r' as int]
    else if c < 32 || c >= 127 then [BACKSLASH, 'x' as int, LowerDigit(c / 16), LowerDigit(c % 16)]
    else [c]
  }

  /** Python 2's `repr` of a one-byte string: the escape between single
      quotes, or between double quotes for the single quote itself. */
  function Repr(c: uint8): (r: seq<uint8>)
  {
    var q: uint8 := if c == '\'' as int then '"' as int else '\'' as int;
    [q] + EscapeByte(c) + [q]
  }

  /** `repr(data)[1:-1]` for a read of at most one byte. */
  function Escaped(data: seq<uint8>): (r: seq<uint8>)
    requires |data| <= 1
    ensures data == [] ==> r == []
    ensures data != [] ==> r == Slice(Repr(data[0]), 1, -1)
  {
    if data == [] then [] else EscapeByte(data[0])
  }

  /** Reading an escape back. */
  function Unescape(r: seq<uint8>): int
  {
    if |r| == 1 then r[0]
    else if |r| == 2 then
      if r[1] == 't' as int then TAB else if r[1] == 'n' as int then LF else if r[1] == 'r' as int then CR else BACKSLASH
    else if |r| == 4 then DigitOfLower(r[2]) * 16 + DigitOfLower(r[3])
    else 0
  }

  /** The escape of a byte reads back as that byte, so no two bytes are
      shown alike. */
  lemma UnescapeEscape(c: uint8)
    ensures Unescape(EscapeByte(c)) == c
  {
    if c != BACKSLASH && c != TAB && c != LF && c != CR && (c < 32 || c >= 127) {
      var r := EscapeByte(c);
      assert DigitOfLower(r[2]) == c / 16 && DigitOfLower(r[3]) == c % 16;
    }
  }

  function LowerDigit(d: int): (c: uint8)
    requires 0 <= d < 16
  {
    if d < 10 then '0' as int + d else 'a' as int + d - 10
  }

  /** `"%s " % character.encode('hex')` for each byte. */
  function HexDump(data: seq<uint8>): (r: seq<uint8>)
    ensures |r| == 3 * |data|
  {
    if data == [] then [] else HexDump(data[..|data| - 1]) + HexOf(data[|data| - 1])
  }

  /** What the reader shows for one read of at most one byte (none after
      a timeout), by display mode: 0 raw, a carriage return shown as a
      line feed in CR mode; 1 escaped except for the line ends of the line
      feed mode; 2 escaped; 3 hexadecimal. Other modes show nothing. */
  function Display(data: seq<uint8>, mode: int, convert: int): (r: seq<uint8>)
    requires |data| <= 1
  {
    if mode == 0 then
      if data == [CR] && convert == CONVERT_CR then [LF] else data
    else if mode == 1 then
      // `data in '\r\n'` holds for the empty read too.
      if convert == CONVERT_CRLF && (data == [] || data == [CR] || data == [LF]) then
        if data == [LF] then [LF] else []
      else if data == [LF] && convert == CONVERT_LF then [LF]
      else if data == [CR] && convert == CONVERT_CR then [LF]
      else Escaped(data)
    else if mode == 2 then Escaped(data)
    else if mode == 3 then HexDump(data)
    else []
  }

  predicate AllSingle(chunks: seq<seq<uint8>>)
  {
    forall i :: 0 <= i < |chunks| ==> |chunks[i]| <= 1
  }

  /** What the reader shows for a series of reads. */
  function Shown(chunks: seq<seq<uint8>>, mode: int, convert: int): seq<uint8>
    requires AllSingle(chunks)
  {
    if chunks == [] then []
    else Shown(chunks[..|chunks| - 1], mode, convert) + Display(chunks[|chunks| - 1], mode, convert)
  }

  lemma ShownSnoc(chunks: seq<seq<uint8>>, i: int, mode: int, convert: int)
    requires AllSingle(chunks) && 0 <= i < |chunks|
    ensures AllSingle(chunks[..i]) && AllSingle(chunks[..i + 1]) && |chunks[i]| <= 1
    ensures Shown(chunks[..i + 1], mode, convert) == Shown(chunks[..i], mode, convert) + Display(chunks[i], mode, convert)
  {
    assert chunks[..i + 1][..i] == chunks[..i];
  }

  /** The bytes of a series of reads. */
  function Received(chunks: seq<seq<uint8>>): seq<uint8>
  {
    if chunks == [] then [] else Received(chunks[..|chunks| - 1]) + chunks[|chunks| - 1]
  }

  /** `data` with every carriage return shown as a line feed when `cr`. */
  function CrAsLf(data: seq<uint8>, cr: bool): (r: seq<uint8>)
    ensures |r| == |data|
  {
    if data == [] then [] else CrAsLf(data[..|data| - 1], cr) + [if cr && data[|data| - 1] == CR then LF else data[|data| - 1]]
  }

  lemma CrAsLfAppend(a: seq<uint8>, b: seq<uint8>, cr: bool)
    requires |b| <= 1
    ensures CrAsLf(a + b, cr) == CrAsLf(a, cr) + CrAsLf(b, cr)
  {
    if b != [] {
      assert (a + b)[..|a + b| - 1] == a;
      assert b[..0] == [];
    } else {
      assert a + b == a;
    }
  }

  /** In raw mode the console shows every received byte in order; only a
      carriage return becomes a line feed, and only in CR mode. */
  lemma {:induction false} RawShowsReceived(chunks: seq<seq<uint8>>, convert: int)
    requires AllSingle(chunks)
    ensures Shown(chunks, 0, convert) == CrAsLf(Received(chunks), convert == CONVERT_CR)
  {
    if chunks != [] {
      var init, last := chunks[..|chunks| - 1], chunks[|chunks| - 1];
      RawShowsReceived(init, convert);
      CrAsLfAppend(Received(init), last, convert == CONVERT_CR);
      if last != [] {
        assert last == [last[0]] && last[..0] == [];
      }
    }
  }

  function DigitOfLower(c: uint8): int
  {
    if c <= '9' as int then c - '0' as int else c - 'a' as int + 10
  }

  /** Reading a hexadecimal dump back: three characters per byte. */
  function Undump(s: seq<uint8>): seq<uint8>
    decreases |s|
  {
    if |s| < 3 then []
    else
      var v := DigitOfLower(s[0]) * 16 + DigitOfLower(s[1]);
      (if 0 <= v < 0x100 then [v as uint8] else []) + Undump(s[3..])
  }

  lemma {:induction false} UndumpAppend(a: seq<uint8>, b: seq<uint8>)
    requires |a| % 3 == 0
    ensures Undump(a + b) == Undump(a) + Undump(b)
    decreases |a|
  {
    if a != [] {
      assert (a + b)[3..] == a[3..] + b;
      assert (a + b)[0] == a[0] && (a + b)[1] == a[1];
      UndumpAppend(a[3..], b);
    } else {
      assert a + b == b;
    }
  }

  /** The three characters the dump shows for one byte. */
  function HexOf(b: uint8): (r: seq<uint8>)
    ensures |r| == 3
  {
    [LowerDigit(b / 16), LowerDigit(b % 16), ' ' as int]
  }

  lemma UndumpByte(b: uint8)
    ensures Undump(HexOf(b)) == [b]
  {
    var h := HexOf(b);
    assert DigitOfLower(h[0]) == b / 16 && DigitOfLower(h[1]) == b % 16;
    assert h[3..] == [];
  }

  lemma {:induction false} HexDumpUndumps(data: seq<uint8>)
    ensures Undump(HexDump(data)) == data
  {
    if data != [] {
      var init, b := data[..|data| - 1], data[|data| - 1];
      HexDumpUndumps(init);
      assert HexDump(data) == HexDump(init) + HexOf(b);
      UndumpAppend(HexDump(init), HexOf(b));
      UndumpByte(b);
      assert data == init + [b];
    }
  }

  /** In hexadecimal mode the console shows three characters per
      received byte, and reading the dump back gives the bytes received. */
  lemma {:induction false} HexShowsReceived(chunks: seq<seq<uint8>>, convert: int)
    requires AllSingle(chunks)
    ensures Shown(chunks, 3, convert) == HexDump(Received(chunks))
    ensures Undump(Shown(chunks, 3, convert)) == Received(chunks)
  {
    HexDumpOfReceived(chunks, convert);
    HexDumpUndumps(Received(chunks));
  }

  lemma {:induction false} HexDumpOfReceived(chunks: seq<seq<uint8>>, convert: int)
    requires AllSingle(chunks)
    ensures Shown(chunks, 3, convert) == HexDump(Received(chunks))
  {
    if chunks != [] {
      var init, last := chunks[..|chunks| - 1], chunks[|chunks| - 1];
      assert AllSingle(init) by {
        assert forall i :: 0 <= i < |init| ==> init[i] == chunks[i];
      }
      HexDumpOfReceived(init, convert);
      assert Shown(chunks, 3, convert) == Shown(init, 3, convert) + HexDump(last);
      HexDumpAppend(Received(init), last);
    }
  }

  lemma HexDumpAppend(a: seq<uint8>, b: seq<uint8>)
    requires |b| <= 1
    ensures HexDump(a + b) == HexDump(a) + HexDump(b)
  {
    if b != [] {
      assert (a + b)[..|a + b| - 1] == a && b[..0] == [];
    } else {
      assert a + b == a;
    }
  }

  /** With escaping and CR/LF line ends, a carriage return shows nothing
      and a line feed shows as itself. */
  lemma EscapedCrLf()
    ensures Display([CR], 1, CONVERT_CRLF) == []
    ensures Display([LF], 1, CONVERT_CRLF) == [LF]
    ensures Display([], 1, CONVERT_CRLF) == []
  {
  }

  /** `key_description`: control characters as `Ctrl+` and their letter,
      everything else as Python's `repr`. */
  function KeyDescription(c: uint8): (r: seq<uint8>)
  {
    if c < 32 then [Ord('C'), Ord('t'), Ord('r'), Ord('l'), Ord('+'), ('@' as int + c) as uint8] else Repr(c)
  }

  /** No two keys get the same description, and the exit and menu
      characters are described as `Ctrl+]` and `Ctrl+T`. */
  lemma KeyDescriptionDistinct(c: uint8, d: uint8)
    requires c != d
    ensures KeyDescription(c) != KeyDescription(d)
    ensures KeyDescription(EXIT_CHARACTER) == [Ord('C'), Ord('t'), Ord('r'), Ord('l'), Ord('+'), Ord(']')]
    ensures KeyDescription(MENU_CHARACTER) == [Ord('C'), Ord('t'), Ord('r'), Ord('l'), Ord('+'), Ord('T')]
  {
    if c < 32 && d < 32 {
      assert KeyDescription(c)[5] != KeyDescription(d)[5];
    } else if c >= 32 && d >= 32 {
      var rc, rd := Repr(c), Repr(d);
      assert rc[1..|rc| - 1] == EscapeByte(c) && rd[1..|rd| - 1] == EscapeByte(d);
      UnescapeEscape(c);
      UnescapeEscape(d);
    } else {
      assert KeyDescription(c)[0] != KeyDescription(d)[0];
    }
  }

  /** The terminal: the fields of `Miniterm` and of its serial port. */
  class Miniterm {
    var echo: bool
    var reprMode: int
    var convertOutgoing: int
    var newline: seq<uint8>
    var dtrState: bool
    var rtsState: bool
    var breakState: bool
    var alive: bool
    var baudrate: int
    var bytesize: int
    var parity: Parity
    var stopbits: StopBits
    var xonxoff: bool
    var rtscts: bool
    var tx: seq<uint8>   // written to the serial port
    var out: seq<uint8>  // written to the console

    function ModesOf(): Modes
      reads this
    {
      Modes(echo, reprMode, convertOutgoing, newline)
    }

    function PortOf(): Port
      reads this
    {
      Port(baudrate, bytesize, parity, stopbits, xonxoff, rtscts)
    }

    /** The terminal's state, with the writer's `menu_active`. */
    function State(menu: bool): (t: Term)
      reads this
      ensures t.menu == menu && t.alive == alive && t.modes == ModesOf() && t.port == PortOf()
    {
      Term(ModesOf(), Lines(dtrState, rtsState, breakState), PortOf(), alive, menu, tx, out)
    }

    /** `__init__`: the port opened with 8 data bits and one stop bit,
        DTR and RTS on, no break; the terminal is alive only once started. */
    constructor(baud: int, parity: Parity, rtscts: bool, xonxoff: bool, echo: bool, convertOutgoing: int, reprMode: int)
      requires 0 <= convertOutgoing <= 2 && 0 <= reprMode <= 3
      ensures State(false) == Term(Modes(echo, reprMode, convertOutgoing, NewlineFor(convertOutgoing)), Lines(true, true, false),
                                   Port(baud, 8, parity, StopOne, xonxoff, rtscts), false, false, [], [])
      ensures Settled(ModesOf())
    {
      this.baudrate := baud;
      this.bytesize := 8;
      this.parity := parity;
      this.stopbits := StopOne;
      this.rtscts := rtscts;
      this.xonxoff := xonxoff;
      this.echo := echo;
      this.reprMode := reprMode;
      this.convertOutgoing := convertOutgoing;
      this.newline := NewlineFor(convertOutgoing);
      this.dtrState := true;
      this.rtsState := true;
      this.breakState := false;
      this.alive := false;
      this.tx := [];
      this.out := [];
    }

    /** `start` without its threads: the terminal comes alive. */
    method Start()
      modifies this
      ensures State(false) == old(State(false)).(alive := true)
    {
      alive := true;
    }

    /** `stop`. */
    method Stop()
      modifies this
      ensures State(false) == old(State(false)).(alive := false)
    {
      alive := false;
    }

    /** The mode keys of the menu. */
    method Mode(c: uint8)
      requires Settled(ModesOf()) && IsModeKey(c)
      modifies this
      ensures State(false) == old(State(false)).(modes := ModeKey(old(ModesOf()), c))
    {
      if c == CTRL_E {
        echo := !echo;
      } else if c == CTRL_A {
        reprMode := reprMode + 1;
        if reprMode > 3 {
          reprMode := 0;
        }
      } else {
        convertOutgoing := convertOutgoing + 1;
        if convertOutgoing > 2 {
          convertOutgoing := 0;
        }
        newline := NewlineFor(convertOutgoing);
      }
    }

    /** The port keys of the menu. */
    method PortSetting(c: uint8)
      requires IsPortKey(c)
      modifies this
      ensures State(false) == old(State(false)).(port := PortKey(old(PortOf()), c))
    {
      if c == '8' as int {
        bytesize := 8;
      } else if c == '7' as int {
        bytesize := 7;
      } else if c == 'e' as int || c == 'E' as int {
        parity := ParityEven;
      } else if c == 'o' as int || c == 'O' as int {
        parity := ParityOdd;
      } else if c == 'm' as int || c == 'M' as int {
        parity := ParityMark;
      } else if c == 's' as int || c == 'S' as int {
        parity := ParitySpace;
      } else if c == 'n' as int || c == 'N' as int {
        parity := ParityNone;
      } else if c == '1' as int {
        stopbits := StopOne;
      } else if c == '2' as int {
        stopbits := StopTwo;
      } else if c == '3' as int {
        stopbits := StopOnePointFive;
      } else if c == 'x' as int || c == 'X' as int {
        xonxoff := c == 'X' as int;
      } else {
        rtscts := c == 'R' as int;
      }
    }

    /** The baud rate prompt: the line is read from the keyboard input. */
    method Baud(input: seq<uint8>) returns (rest: seq<uint8>)
      modifies this
      ensures (State(false), rest) == BaudKey(old(State(false)), input)
    {
      var line;
      line, rest := NextLine(input).0, NextLine(input).1;
      var backup := baudrate;
      var entered := ParseInt(SRecord.Strip(line));
      if entered.Some? {
        baudrate := entered.value;
      } else {
        baudrate := backup;
      }
    }

    /** A key typed in the menu. */
    method Menu(c: uint8, input: seq<uint8>) returns (rest: seq<uint8>)
      requires Settled(ModesOf())
      modifies this
      ensures (State(false), rest) == MenuKey(old(State(true)), c, input)
    {
      rest := input;
      if c == MENU_CHARACTER || c == EXIT_CHARACTER {
        tx := tx + [c];
        if echo {
          out := out + [c];
        }
      } else if c == CTRL_U {
        rest := NextLine(input).1;
      } else if c == CTRL_R {
        rtsState := !rtsState;
      } else if c == CTRL_D {
        dtrState := !dtrState;
      } else if c == CTRL_B {
        breakState := !breakState;
      } else if IsModeKey(c) {
        Mode(c);
      } else if c == 'b' as int || c == 'B' as int {
        rest := Baud(input);
      } else if IsPortKey(c) {
        PortSetting(c);
      }
    }

    /** A key typed outside the menu; true when it opens the menu. */
    method Plain(c: uint8) returns (menu: bool)
      modifies this
      ensures State(menu) == PlainKey(old(State(false)), c)
    {
      menu := false;
      if c == MENU_CHARACTER {
        menu := true;
      } else if c == EXIT_CHARACTER {
        Stop();
      } else if c == LF {
        tx := tx + newline;
        if echo {
          out := out + [c];
        }
      } else {
        tx := tx + [c];
        if echo {
          out := out + [c];
        }
      }
    }

    /** `writer`: keys from `keys` while the terminal is alive; gives the
        menu flag at the end of the input. */
    method Writer(keys: seq<uint8>) returns (menuActive: bool)
      requires Settled(ModesOf())
      modifies this
      ensures State(menuActive) == WriterRun(old(State(false)), keys)
    {
      menuActive := false;
      var input := keys;
      while alive && input != []
        invariant Settled(ModesOf())
        invariant WriterRun(State(menuActive), input) == WriterRun(old(State(false)), keys)
        decreases |input|
      {
        var c := input[0];
        input := input[1..];
        if menuActive {
          input := Menu(c, input);
          menuActive := false;
        } else {
          menuActive := Plain(c);
        }
      }
    }

    /** One turn of `reader`: the console shows the read. */
    method Receive(data: seq<uint8>)
      requires |data| <= 1
      modifies this
      ensures State(false) == old(State(false)).(out := old(out) + Display(data, reprMode, convertOutgoing))
    {
      if reprMode == 0 {
        if data == [CR] && convertOutgoing == CONVERT_CR {
          out := out + [LF];
        } else {
          out := out + data;
        }
      } else if reprMode == 1 {
        if convertOutgoing == CONVERT_CRLF && (data == [] || data == [CR] || data == [LF]) {
          if data == [LF] {
            out := out + [LF];
          }
        } else if data == [LF] && convertOutgoing == CONVERT_LF {
          out := out + [LF];
        } else if data == [CR] && convertOutgoing == CONVERT_CR {
          out := out + [LF];
        } else {
          out := out + Escaped(data);
        }
      } else if reprMode == 2 {
        out := out + Escaped(data);
      } else if reprMode == 3 {
        var i := 0;
        ghost var o := out;
        while i < |data|
          invariant 0 <= i <= |data| && out == o + HexDump(data[..i])
          invariant State(false) == old(State(false)).(out := out)
        {
          assert data[..i + 1][..i] == data[..i];
          out := out + HexOf(data[i]);
          i := i + 1;
        }
        assert data[..i] == data;
      }
    }

    /** One read of `reader`, the `i`-th of `chunks`. */
    method ReadNext(chunks: seq<seq<uint8>>, i: nat, ghost o: seq<uint8>)
      requires AllSingle(chunks) && i < |chunks|
      requires AllSingle(chunks[..i]) && out == o + Shown(chunks[..i], reprMode, convertOutgoing)
      modifies this
      ensures AllSingle(chunks[..i + 1]) && out == o + Shown(chunks[..i + 1], reprMode, convertOutgoing)
      ensures State(false) == old(State(false)).(out := out)
    {
      ShownSnoc(chunks, i, reprMode, convertOutgoing);
      AppendAssoc(o, Shown(chunks[..i], reprMode, convertOutgoing), Display(chunks[i], reprMode, convertOutgoing));
      Receive(chunks[i]);
    }

    /** `reader`: every read shown while the terminal is alive; the
        reader never changes `alive`, so it is tested once. */
    method Reader(chunks: seq<seq<uint8>>)
      requires AllSingle(chunks)
      modifies this
      ensures State(false) == old(State(false)).(out := old(out) + if old(alive) then Shown(chunks, reprMode, convertOutgoing) else [])
    {
      if !alive {
        assert old(out) + [] == out;
        return;
      }
      ghost var o := out;
      for i := 0 to |chunks|
        invariant AllSingle(chunks[..i])
        invariant out == o + Shown(chunks[..i], reprMode, convertOutgoing)
        invariant State(false) == old(State(false)).(out := out)
      {
        ReadNext(chunks, i, o);
      }
      assert chunks[..|chunks|] == chunks;
    }
  }
}
