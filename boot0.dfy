/** The first-stage serial bootloader (firmware/boot0-serial/main.c): a
    loop that takes one command byte at a time from the UART and uploads
    to memory, downloads from memory, jumps, runs the pattern test or
    prints its prompt. */
module Boot0 {
  import opened Bytes
  import opened Soc
  import Pattern

  const UPLOAD: uint8 := 'u' as int
  const DOWNLOAD: uint8 := 'd' as int
  const GO: uint8 := 'g' as int
  const TEST: uint8 := '3' as int
  /** The command byte the loop starts with, so that the prompt is printed
      once before anything is received. */
  const FIRST: uint8 := '*' as int
  const PROMPT: string := "**soc-lm32/bootloader** > \r\n"

  /** The commands whose hardware diagnostics are outside this model. */
  predicate IsDiagnostic(c: uint8)
  {
    c == '1' as int || c == '2' as int || c == '4' as int || c == '5' as int || c == '6' as int
  }

  /** A command as the loop reads it. */
  datatype Request =
    | Upload(start: uint32, size: uint32, payload: seq<uint8>)
    | Download(start: uint32, size: uint32)
    | Go(addr: uint32)
    | PatternTest
    | Diagnostic(cmd: uint8)
    | Prompt

  /** What the loop does once the command is finished. */
  datatype Outcome =
    | Idle                  // waiting in `uart_getchar` for the next command byte
    | Blocked               // waiting inside a command for bytes not received yet
    | Jumped(addr: uint32)  // control passed to `addr`
    | Unmodelled(cmd: uint8)

  predicate WellFormed(r: Request)
  {
    r.Upload? ==> |r.payload| == Span(r.start, r.size)
  }

  /** The request that command byte `c` makes of the bytes `s` received
      after it, with how many of them it consumes; None when the command
      needs more bytes than `s` holds. */
  function Decode(c: uint8, s: seq<uint8>): (r: Option<(Request, nat)>)
    ensures r.Some? ==> r.value.1 <= |s| && WellFormed(r.value.0)
  {
    if c == UPLOAD then
      if |s| < 8 then None
      else
        var start, size := Be32Value(s[..4]), Be32Value(s[4..8]);
        var n := Span(start, size);
        if |s| < 8 + n then None else Some((Upload(start, size, s[8..8 + n]), 8 + n))
    else if c == DOWNLOAD then
      if |s| < 8 then None else Some((Download(Be32Value(s[..4]), Be32Value(s[4..8])), 8))
    else if c == GO then
      if |s| < 4 then None else Some((Go(Be32Value(s[..4])), 4))
    else if c == TEST then Some((PatternTest, 0))
    else if IsDiagnostic(c) then Some((Diagnostic(c), 0))
    else Some((Prompt, 0))
  }

  /** How an upload is read: two words, then as many bytes as the loop
      stores. */
  lemma DecodeUploadOf(t: seq<uint8>, start: uint32, size: uint32)
    requires |t| >= 8 && Be32Value(t[..4]) == start && Be32Value(t[4..8]) == size
    requires |t| >= 8 + Span(start, size)
    ensures Decode(UPLOAD, t) == Some((Upload(start, size, t[8..8 + Span(start, size)]), 8 + Span(start, size)))
  {
  }

  /** How a download is read: two words. */
  lemma DecodeDownloadOf(t: seq<uint8>, start: uint32, size: uint32)
    requires |t| >= 8 && Be32Value(t[..4]) == start && Be32Value(t[4..8]) == size
    ensures Decode(DOWNLOAD, t) == Some((Download(start, size), 8))
  {
  }

  /** How a jump is read: one word. */
  lemma DecodeGoOf(t: seq<uint8>, addr: uint32)
    requires |t| >= 4 && Be32Value(t[..4]) == addr
    ensures Decode(GO, t) == Some((Go(addr), 4))
  {
  }

  /** The memory after a request and the bytes it sends. */
  function Execute(m: seq<uint8>, r: Request): (e: (seq<uint8>, seq<uint8>))
    requires |m| == WORD && WellFormed(r)
    ensures |e.0| == WORD
  {
    match r
    case Upload(start, size, payload) =>
      SpanMeaning(start, size);
      (Store(m, start, payload), [])
    case Download(start, size) =>
      SpanMeaning(start, size);
      (m, m[start..start + Span(start, size)])
    case Go(_) => (m, [])
    case PatternTest => (Store(m, Pattern.TEST_BASE, Pattern.Image()), Pattern.Transcript())
    case Diagnostic(_) => (m, [])
    case Prompt => (m, Ascii(PROMPT))
  }

  function OutcomeOf(r: Request): Outcome
  {
    match r
    case Go(a) => Jumped(a)
    case Diagnostic(c) => Unmodelled(c)
    case _ => Idle
  }

  /** The device's run: the memory, the bytes sent and where the loop
      stops, when it is about to act on command byte `c` and `s` is what
      the UART receives from then on. */
  datatype DeviceRun = DeviceRun(mem: seq<uint8>, out: seq<uint8>, outcome: Outcome)

  function Run(m: seq<uint8>, c: uint8, s: seq<uint8>): (r: DeviceRun)
    requires |m| == WORD
    ensures |r.mem| == WORD
    decreases |s|, 1
  {
    match Decode(c, s)
    case None => DeviceRun(m, [], Blocked)
    case Some(d) =>
      var e := Execute(m, d.0);
      if OutcomeOf(d.0) != Idle then DeviceRun(e.0, e.1, OutcomeOf(d.0))
      else After(e.1, Listen(e.0, s[d.1..]))
  }

  /** The device waiting in `uart_getchar` for a command byte. */
  function Listen(m: seq<uint8>, s: seq<uint8>): (r: DeviceRun)
    requires |m| == WORD
    ensures |r.mem| == WORD
    decreases |s|, 0
  {
    if s == [] then DeviceRun(m, [], Idle) else Run(m, s[0], s[1..])
  }

  /** One pass of the loop followed by the rest of the run. */
  lemma RunUnfold(m: seq<uint8>, c: uint8, s: seq<uint8>)
    requires |m| == WORD && Decode(c, s).Some?
    ensures var d := Decode(c, s).value;
      var e := Execute(m, d.0);
      Run(m, c, s) == if OutcomeOf(d.0) != Idle then DeviceRun(e.0, e.1, OutcomeOf(d.0))
                      else After(e.1, Listen(e.0, s[d.1..]))
  {
  }

  /** A command that keeps the loop going, taken by a listening device:
      its effect, then the device listening to the bytes after it. */
  lemma ListenStep(m: seq<uint8>, c: uint8, t: seq<uint8>, r: Request, n: nat)
    requires |m| == WORD && Decode(c, t) == Some((r, n)) && OutcomeOf(r) == Idle
    ensures var e := Execute(m, r);
      Listen(m, [c] + t) == After(e.1, Listen(e.0, t[n..]))
  {
    var s := [c] + t;
    assert s[0] == c && s[1..] == t;
    RunUnfold(m, c, t);
  }

  /** The device from reset: the loop starts on `FIRST`. */
  function Boot(m: seq<uint8>, s: seq<uint8>): DeviceRun
    requires |m| == WORD
  {
    Run(m, FIRST, s)
  }


  /** The 'u' branch: two words, then `Span(start, size)` received bytes
      stored from `start` on. */
  method DoUpload(soc: Soc)
    requires soc.Valid() && Decode(UPLOAD, soc.Pending()).Some?
    modifies soc`pos, soc.mem
    ensures soc.Valid() && soc.rx == old(soc.rx)
    ensures var d := Decode(UPLOAD, old(soc.Pending())).value;
      soc.pos == old(soc.pos) + d.1 && soc.mem[..] == Execute(old(soc.mem[..]), d.0).0
  {
    ghost var m0 := soc.mem[..];
    ghost var p0 := soc.pos;
    ghost var s := soc.Pending();
    assert s[..4] == soc.rx[p0..p0 + 4] && s[4..8] == soc.rx[p0 + 4..p0 + 8];
    var start := soc.ReadUint32();
    var size := soc.ReadUint32();
    SpanMeaning(start, size);
    ghost var payload := s[8..8 + Span(start, size)];
    var end := (start as int + size) % 0x1_0000_0000;
    var p := start;
    while p < end
      invariant soc.Valid() && soc.rx == old(soc.rx)
      invariant start <= p <= start + |payload|
      invariant soc.pos == p0 + 8 + (p - start)
      invariant forall k | 0 <= k < WORD ::
        soc.mem[k] == if start <= k < p then payload[k - start] else m0[k]
      decreases end - p
    {
      var b := soc.GetChar();
      assert b == payload[p - start];
      soc.mem[p] := b;
      p := p + 1;
    }
    StoreEach(m0, soc.mem[..], start, payload);
  }

  /** The 'd' branch: two words, then `Span(start, size)` bytes of memory
      sent from `start` on. */
  method DoDownload(soc: Soc)
    requires soc.Valid() && Decode(DOWNLOAD, soc.Pending()).Some?
    modifies soc`pos, soc`tx
    ensures soc.Valid() && soc.rx == old(soc.rx)
    ensures var d := Decode(DOWNLOAD, old(soc.Pending())).value;
      soc.pos == old(soc.pos) + d.1 && soc.tx == old(soc.tx) + Execute(soc.mem[..], d.0).1
  {
    ghost var p0 := soc.pos;
    ghost var s := soc.Pending();
    assert s[..4] == soc.rx[p0..p0 + 4] && s[4..8] == soc.rx[p0 + 4..p0 + 8];
    var start := soc.ReadUint32();
    var size := soc.ReadUint32();
    SpanMeaning(start, size);
    var end := (start as int + size) % 0x1_0000_0000;
    var p := start;
    while p < end
      invariant soc.Valid() && soc.rx == old(soc.rx) && soc.pos == p0 + 8
      invariant start <= p && (p <= end || p == start)
      invariant soc.tx == old(soc.tx) + soc.mem[start..p]
      decreases end - p
    {
      soc.PutChar(soc.mem[p]);
      assert soc.mem[start..p + 1] == soc.mem[start..p] + [soc.mem[p]];
      p := p + 1;
    }
  }

  /** One pass of the loop's `switch`. */
  method Dispatch(soc: Soc, c: uint8) returns (o: Outcome)
    requires soc.Valid() && Decode(c, soc.Pending()).Some?
    modifies soc`pos, soc`tx, soc.mem
    ensures soc.Valid() && soc.rx == old(soc.rx)
    ensures var d := Decode(c, old(soc.Pending())).value;
      var e := Execute(old(soc.mem[..]), d.0);
      soc.pos == old(soc.pos) + d.1 && soc.mem[..] == e.0 && soc.tx == old(soc.tx) + e.1 && o == OutcomeOf(d.0)
  {
    if c == UPLOAD {
      DoUpload(soc);
      o := Idle;
    } else if c == DOWNLOAD {
      DoDownload(soc);
      o := Idle;
    } else if c == GO {
      ghost var s := soc.Pending();
      assert s[..4] == soc.rx[soc.pos..soc.pos + 4];
      var a := soc.ReadUint32();
      o := Jumped(a);
    } else if c == TEST {
      Pattern.Run(soc);
      o := Idle;
    } else if IsDiagnostic(c) {
      o := Unmodelled(c);
    } else {
      soc.PutText(PROMPT);
      o := Idle;
    }
  }

  /** `main`'s `for(;;)` loop from reset, up to the first command that
      leaves it or that waits for bytes not yet received. */
  method Serve(soc: Soc) returns (o: Outcome)
    requires soc.Valid()
    modifies soc`pos, soc`tx, soc.mem
    ensures soc.Valid() && soc.rx == old(soc.rx)
    ensures var r := Boot(old(soc.mem[..]), old(soc.Pending()));
      soc.mem[..] == r.mem && soc.tx == old(soc.tx) + r.out && o == r.outcome
  {
    ghost var r0 := Boot(soc.mem[..], soc.Pending());
    var c := FIRST;
    ghost var sent: seq<uint8> := [];
    ghost var r := r0;
    while true
      invariant soc.Valid() && soc.rx == old(soc.rx)
      invariant soc.tx == old(soc.tx) + sent
      invariant r == Run(soc.mem[..], c, soc.Pending())
      invariant r0 == After(sent, r)
      decreases |soc.rx| - soc.pos
    {
      ghost var m := soc.mem[..];
      ghost var s := soc.Pending();
      if Decode(c, soc.Pending()).None? {
        assert r == DeviceRun(m, [], Blocked);
        assert sent + [] == sent;
        return Blocked;
      }
      RunUnfold(m, c, s);
      ghost var t := soc.tx;
      o := Dispatch(soc, c);
      ghost var d := Decode(c, s).value;
      ghost var e := Execute(m, d.0);
      ghost var sent0 := sent;
      sent := sent + e.1;
      assert soc.tx == t + e.1;
      AppendAssoc(old(soc.tx), sent0, e.1);
      if o != Idle {
        assert r == DeviceRun(e.0, e.1, o);
        assert r0 == DeviceRun(e.0, sent, o);
        return;
      }
      assert soc.Pending() == s[d.1..];
      ghost var after := Listen(e.0, s[d.1..]);
      assert r == After(e.1, after);
      AfterAfter(sent0, e.1, after);
      if soc.pos == |soc.rx| {
        assert after == DeviceRun(e.0, [], Idle);
        assert sent + [] == sent;
        return;
      }
      c := soc.GetChar();
      assert soc.Pending() == s[d.1 + 1..];
      assert s[d.1..][0] == c && s[d.1..][1..] == s[d.1 + 1..];
      r := after;
    }
  }

  /** A run preceded by `out` having been sent. */
  function After(out: seq<uint8>, r: DeviceRun): DeviceRun
  {
    DeviceRun(r.mem, out + r.out, r.outcome)
  }

  lemma AfterAfter(a: seq<uint8>, b: seq<uint8>, r: DeviceRun)
    ensures After(a, After(b, r)) == After(a + b, r)
  {
    assert a + (b + r.out) == (a + b) + r.out;
  }

  /** An empty reply in front of a run leaves it as it is. */
  lemma AfterNothing(r: DeviceRun)
    ensures After([], r) == r
  {
    assert [] + r.out == r.out;
  }

  /** A listening device with memory `m` that receives `frames`, whatever
      follows them, ends up with memory `m'` having sent `out`, and then
      listens to what follows as it would from `m'`. */
  ghost predicate Handles(m: seq<uint8>, frames: seq<uint8>, m': seq<uint8>, out: seq<uint8>)
  {
    |m| == WORD && |m'| == WORD && ListensAs(m, frames, m', out)
  }

  /** The body of `Handles`: for every continuation, receiving `frames`
      first is answering `out` and then listening from `m'`. */
  ghost predicate ListensAs(m: seq<uint8>, frames: seq<uint8>, m': seq<uint8>, out: seq<uint8>)
    requires |m| == WORD && |m'| == WORD
  {
    forall rest {:trigger Listen(m, frames + rest)} :: Listen(m, frames + rest) == After(out, Listen(m', rest))
  }

  /** Frames handled one after the other are handled together. */
  lemma HandlesConcat(m: seq<uint8>, f1: seq<uint8>, m1: seq<uint8>, o1: seq<uint8>,
                      f2: seq<uint8>, m2: seq<uint8>, o2: seq<uint8>)
    requires Handles(m, f1, m1, o1) && Handles(m1, f2, m2, o2)
    ensures Handles(m, f1 + f2, m2, o1 + o2)
  {
    forall rest
      ensures Listen(m, f1 + f2 + rest) == After(o1 + o2, Listen(m2, rest))
    {
      ConcatAt(m, f1, m1, o1, f2, m2, o2, rest);
    }
  }

  /** `HandlesConcat` with the joined frames and replies named. */
  lemma HandlesThen(m: seq<uint8>, f1: seq<uint8>, m1: seq<uint8>, o1: seq<uint8>,
                    f2: seq<uint8>, m2: seq<uint8>, o2: seq<uint8>, f: seq<uint8>, o: seq<uint8>)
    requires Handles(m, f1, m1, o1)
    requires Handles(m1, f2, m2, o2)
    requires f == f1 + f2
    requires o == o1 + o2
    ensures Handles(m, f, m2, o)
  {
    HandlesConcat(m, f1, m1, o1, f2, m2, o2);
  }

  /** `Handles` with its frames, final memory and reply written as other
      terms equal to them. */
  lemma HandlesAs(m: seq<uint8>, f: seq<uint8>, m1: seq<uint8>, o: seq<uint8>,
                  f': seq<uint8>, m1': seq<uint8>, o': seq<uint8>)
    requires Handles(m, f, m1, o)
    requires f' == f && m1' == m1 && o' == o
    ensures Handles(m, f', m1', o')
  {
  }

  /** What `Handles` says about one particular continuation `rest`. */
  lemma HandlesAt(m: seq<uint8>, f: seq<uint8>, m1: seq<uint8>, o: seq<uint8>, rest: seq<uint8>)
    requires Handles(m, f, m1, o)
    ensures Listen(m, f + rest) == After(o, Listen(m1, rest))
  {
  }

  lemma ConcatAt(m: seq<uint8>, f1: seq<uint8>, m1: seq<uint8>, o1: seq<uint8>,
                 f2: seq<uint8>, m2: seq<uint8>, o2: seq<uint8>, rest: seq<uint8>)
    requires Handles(m, f1, m1, o1) && Handles(m1, f2, m2, o2)
    ensures Listen(m, f1 + f2 + rest) == After(o1 + o2, Listen(m2, rest))
  {
    AppendAssoc(f1, f2, rest);
    assert Listen(m, f1 + (f2 + rest)) == After(o1, Listen(m1, f2 + rest));
    AfterAfter(o1, o2, Listen(m2, rest));
  }

  lemma NothingHandled(m: seq<uint8>)
    requires |m| == WORD
    ensures Handles(m, [], m, [])
  {
    forall rest
      ensures Listen(m, [] + rest) == After([], Listen(m, rest))
    {
      NothingAt(m, rest);
    }
  }

  lemma NothingAt(m: seq<uint8>, rest: seq<uint8>)
    requires |m| == WORD
    ensures Listen(m, [] + rest) == After([], Listen(m, rest))
  {
    assert [] + rest == rest;
    assert [] + Listen(m, rest).out == Listen(m, rest).out;
  }
}
