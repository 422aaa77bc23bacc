/** Byte-level vocabulary shared by the host tool and the firmware:
    8- and 32-bit unsigned values, big-endian words, ASCII text as bytes,
    hexadecimal digits and C strings. */
module Bytes {

  type uint8 = x: int | 0 <= x < 0x100
  type uint32 = x: int | 0 <= x < 0x1_0000_0000

  /** 2^32: the size of the address space and the modulus of 32-bit
      arithmetic. Reductions modulo 2^32 are written with the literal, so
      that the divisor is a constant the solver sees directly. */
  const WORD: int := 0x1_0000_0000

  datatype Option<T> = None | Some(value: T)

  /** The value of four bytes read most significant first. */
  function Be32Value(b: seq<uint8>): (v: uint32)
    requires |b| == 4
  {
    b[0] as int * 0x100_0000 + b[1] as int * 0x1_0000 + b[2] as int * 0x100 + b[3] as int
  }

  /** The big-endian value of a byte string of any length (the value a
      shift-and-add accumulator computes without wrapping). */
  function BeValue(b: seq<uint8>): (v: nat)
  {
    if b == [] then 0 else BeValue(b[..|b| - 1]) * 0x100 + b[|b| - 1] as int
  }

  /** One more byte shifts the value up by eight bits. */
  lemma BeValueSnoc(b: seq<uint8>, c: uint8)
    ensures BeValue(b + [c]) == BeValue(b) * 0x100 + c
  {
    assert (b + [c])[..|b|] == b;
  }

  lemma {:induction false} BeValueBound(b: seq<uint8>)
    ensures BeValue(b) < Pow256(|b|)
  {
    if b != [] {
      BeValueBound(b[..|b| - 1]);
    }
  }

  function Pow256(n: nat): (p: nat)
    ensures p >= 1
  {
    if n == 0 then 1 else 0x100 * Pow256(n - 1)
  }

  lemma Be32ValueIsBeValue(b: seq<uint8>)
    requires |b| == 4
    ensures Be32Value(b) == BeValue(b)
  {
    assert b[..3][..2] == b[..2];
    assert b[..2][..1] == b[..1];
    assert b[..1][..0] == [];
    calc {
      BeValue(b);
      BeValue(b[..3]) * 0x100 + b[3] as int;
      (BeValue(b[..2]) * 0x100 + b[2] as int) * 0x100 + b[3] as int;
      ((BeValue(b[..1]) * 0x100 + b[1] as int) * 0x100 + b[2] as int) * 0x100 + b[3] as int;
      (((BeValue([]) * 0x100 + b[0] as int) * 0x100 + b[1] as int) * 0x100 + b[2] as int) * 0x100 + b[3] as int;
    }
  }

  /** Four bytes holding the low 32 bits of `x`, most significant first.
      Division by a positive constant rounds down here, as the host's
      arithmetic shift does, so any integer is accepted. */
  function Be32(x: int): (r: seq<uint8>)
    ensures |r| == 4
  {
    [(x / 0x100_0000) % 0x100, (x / 0x1_0000) % 0x100, (x / 0x100) % 0x100, x % 0x100]
  }

  lemma DivDiv(x: int, a: int, b: int)
    requires a > 0 && b > 0
    ensures x / a / b == x / (a * b)
  {
    var q := x / a / b;
    var r1 := x % a;
    var r2 := (x / a) % b;
    assert x == (q * b + r2) * a + r1;
    assert x == q * (a * b) + (r2 * a + r1);
    assert 0 <= r2 * a + r1 < a * b by {
      assert r2 * a <= (b - 1) * a;
    }
    DivUnique(x, a * b, q, r2 * a + r1);
  }

  lemma DivUnique(x: int, m: int, q: int, r: int)
    requires m > 0 && 0 <= r < m && x == q * m + r
    ensures x / m == q && x % m == r
  {
    var q', r' := x / m, x % m;
    assert (q' - q) * m == r - r';
    if q' > q {
      MulAtLeast(q' - q, m);
      assert false;
    } else if q' < q {
      MulAtLeast(q - q', m);
      assert false;
    }
  }

  lemma MulAtLeast(a: int, m: int)
    requires a >= 1 && m > 0
    ensures a * m >= m
  {
  }

  /** Encoding a word and decoding it again gives its low 32 bits. */
  lemma {:induction false} Be32RoundTrip(x: int)
    ensures Be32Value(Be32(x)) == x % 0x1_0000_0000
  {
    var q1 := x / 0x100;
    var q2 := q1 / 0x100;
    var q3 := q2 / 0x100;
    var q4 := q3 / 0x100;
    DivDiv(x, 0x100, 0x100);
    DivDiv(x, 0x1_0000, 0x100);
    DivDiv(x, 0x100_0000, 0x100);
    assert q2 == x / 0x1_0000;
    assert q3 == x / 0x100_0000;
    var s := (q3 % 0x100) * 0x100_0000 + (q2 % 0x100) * 0x1_0000 + (q1 % 0x100) * 0x100 + x % 0x100;
    assert x == q4 * WORD + s;
    DivUnique(x, WORD, q4, s);
  }

  /** A 32-bit value survives the round trip unchanged. */
  lemma Be32Word(x: uint32)
    ensures Be32Value(Be32(x)) == x
  {
    Be32RoundTrip(x);
    DivUnique(x, WORD, 0, x);
  }

  /** Decoding four bytes and encoding the value again gives the bytes back. */
  lemma Be32Inverse(b: seq<uint8>)
    requires |b| == 4
    ensures Be32(Be32Value(b)) == b
  {
    var v := Be32Value(b);
    var b0, b1, b2, b3: int := b[0], b[1], b[2], b[3];
    DivUnique(v, 0x100, b0 * 0x1_0000 + b1 * 0x100 + b2, b3);
    DivUnique(v, 0x1_0000, b0 * 0x100 + b1, b2 * 0x100 + b3);
    DivUnique(v, 0x100_0000, b0, b1 * 0x1_0000 + b2 * 0x100 + b3);
    DivUnique(b0 * 0x1_0000 + b1 * 0x100 + b2, 0x100, b0 * 0x100 + b1, b2);
    DivUnique(b0 * 0x100 + b1, 0x100, b0, b1);
    DivUnique(b0, 0x100, 0, b0);
  }

  /** ASCII text as the bytes that go over the wire. */
  function Ascii(s: string): (b: seq<uint8>)
    requires forall i :: 0 <= i < |s| ==> s[i] as int < 0x100
    ensures |b| == |s|
    ensures forall i :: 0 <= i < |s| ==> b[i] == s[i] as int
  {
    seq(|s|, i requires 0 <= i < |s| => s[i] as int)
  }

  /** `t` starts at offset `i` of `s`. */
  predicate OccursAt<T(==)>(s: seq<T>, t: seq<T>, i: int)
  {
    0 <= i && i + |t| <= |s| && s[i..i + |t|] == t
  }

  /** `t` is a substring of `s` (the host's `in` operator on strings). */
  predicate Contains<T(==)>(s: seq<T>, t: seq<T>)
  {
    exists i | 0 <= i <= |s| - |t| :: OccursAt(s, t, i)
  }

  /** `n` copies of `w` one after another. */
  function Repeat<T>(w: seq<T>, n: nat): (r: seq<T>)
  {
    if n == 0 then [] else Repeat(w, n - 1) + w
  }

  lemma {:induction false} RepeatAt<T>(w: seq<T>, n: nat, k: int)
    requires |w| > 0 && 0 <= k < n * |w|
    ensures |Repeat(w, n)| == n * |w|
    ensures Repeat(w, n)[k] == w[k % |w|]
  {
    RepeatLength(w, n);
    if k < (n - 1) * |w| {
      RepeatAt(w, n - 1, k);
    } else {
      RepeatLength(w, n - 1);
      DivUnique(k, |w|, n - 1, k - (n - 1) * |w|);
    }
  }

  lemma {:induction false} RepeatLength<T>(w: seq<T>, n: nat)
    ensures |Repeat(w, n)| == n * |w|
  {
    if n > 0 {
      RepeatLength(w, n - 1);
    }
  }

  /** Python's `s[lo:hi]`: negative bounds count from the end and both
      bounds are clamped to the string, so the slice is never an error. */
  function Slice<T>(s: seq<T>, lo: int, hi: int): (r: seq<T>)
    ensures |r| <= |s|
  {
    var a := Clamp(if lo < 0 then |s| + lo else lo, |s|);
    var b := Clamp(if hi < 0 then |s| + hi else hi, |s|);
    if a < b then s[a..b] else []
  }

  function Clamp(i: int, n: nat): (r: nat)
    ensures r <= n
  {
    if i < 0 then 0 else if i > n then n else i
  }

  /** Two adjacent slices make up the slice that spans both. */
  lemma SliceConcat<T>(s: seq<T>, i: int, j: int, k: int)
    requires 0 <= i <= j <= k <= |s|
    ensures s[i..j] + s[j..k] == s[i..k]
  {
  }

  lemma TakeDrop<T>(s: seq<T>, n: int)
    requires 0 <= n <= |s|
    ensures s[..n] + s[n..] == s
  {
  }

  /** The two parts of a split are the prefix and suffix at the split. */
  lemma SplitAt<T>(a: seq<T>, b: seq<T>, s: seq<T>)
    requires a + b == s
    ensures a == s[..|a|] && b == s[|a|..]
  {
  }

  lemma AppendAssoc<T>(a: seq<T>, b: seq<T>, c: seq<T>)
    ensures a + b + c == a + (b + c)
  {
  }

  /** A frame of a command byte and one field, followed by whatever comes
      next, with its command byte taken off. */
  lemma CommandTail<T>(c: T, x: seq<T>, rest: seq<T>)
    ensures ([c] + x + rest)[1..] == x + rest
  {
    assert [c] + x + rest == [c] + (x + rest);
  }

  /** A frame of a command byte and two fields, followed by whatever comes
      next, with its command byte taken off. */
  lemma FrameTail<T>(c: T, x: seq<T>, y: seq<T>, rest: seq<T>)
    ensures ([c] + x + y + rest)[0] == c
    ensures ([c] + x + y + rest)[1..] == x + y + rest
  {
    assert [c] + x + y + rest == [c] + (x + y + rest);
  }
}
