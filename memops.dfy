/** The C library routines the SD test program carries itself
    (firmware/sd-test/main.c): `memset`, `memcpy` and `memcmp` over the
    processor's byte-addressed memory, given as an array indexed by
    address. */
module MemOps {
  import opened Bytes
  import opened Soc

  /** `memset(str, c, len)`: the `len` bytes from `str` on set to
      `(char)c`, the low byte of `c`, and nothing else changed; it returns
      `str`. */
  method Memset(mem: array<uint8>, str: nat, c: int, len: nat) returns (r: nat)
    requires str + len <= mem.Length
    modifies mem
    ensures r == str
    ensures forall k | 0 <= k < mem.Length :: mem[k] == if str <= k < str + len then c % 0x100 else old(mem[k])
  {
    var st := str;
    var n := len;
    while n > 0
      invariant 0 <= n <= len && st == str + (len - n)
      invariant forall k | 0 <= k < mem.Length :: mem[k] == if str <= k < st then c % 0x100 else old(mem[k])
    {
      mem[st] := c % 0x100;
      st := st + 1;
      n := n - 1;
    }
    return str;
  }

  /** The memory `memcpy` leaves: the bytes copied one at a time, lowest
      address first, so that when the destination starts inside the source
      a byte may be read after the copy has overwritten it. */
  function CopyForward(m: seq<uint8>, dest: nat, src: nat, n: nat): (r: seq<uint8>)
    requires dest + n <= |m| && src + n <= |m|
    ensures |r| == |m|
  {
    if n == 0 then m
    else
      var p := CopyForward(m, dest, src, n - 1);
      p[dest + n - 1 := p[src + n - 1]]
  }

  /** `memcpy(destaddr, srcaddr, len)`: returns `destaddr`. */
  method Memcpy(mem: array<uint8>, dest: nat, src: nat, len: nat) returns (r: nat)
    requires dest + len <= mem.Length && src + len <= mem.Length
    modifies mem
    ensures r == dest && mem[..] == CopyForward(old(mem[..]), dest, src, len)
  {
    var d, s := dest, src;
    var n := len;
    while n > 0
      invariant 0 <= n <= len && d == dest + (len - n) && s == src + (len - n)
      invariant mem[..] == CopyForward(old(mem[..]), dest, src, len - n)
    {
      mem[d] := mem[s];
      d, s, n := d + 1, s + 1, n - 1;
    }
    return dest;
  }

  /** Only the destination range changes. */
  lemma {:induction false} CopyForwardFrame(m: seq<uint8>, dest: nat, src: nat, n: nat, k: int)
    requires dest + n <= |m| && src + n <= |m| && 0 <= k < |m|
    requires k < dest || dest + n <= k
    ensures CopyForward(m, dest, src, n)[k] == m[k]
  {
    if n > 0 {
      CopyForwardFrame(m, dest, src, n - 1, k);
    }
  }

  /** When the destination does not start inside the source (it lies
      below it, or the two do not meet), every byte is read before the
      copy writes over it: the destination ends up holding the source as
      it was. */
  lemma {:induction false} CopyForwardMoves(m: seq<uint8>, dest: nat, src: nat, n: nat)
    requires dest + n <= |m| && src + n <= |m|
    requires dest <= src || src + n <= dest
    ensures CopyForward(m, dest, src, n) == Store(m, dest, m[src..src + n])
  {
    if n > 0 {
      var p := CopyForward(m, dest, src, n - 1);
      CopyForwardMoves(m, dest, src, n - 1);
      var s := Store(m, dest, m[src..src + n - 1]);
      StoreAt(m, dest, m[src..src + n - 1], src + n - 1);
      assert p[src + n - 1] == m[src + n - 1];
      var q := p[dest + n - 1 := p[src + n - 1]];
      forall k | 0 <= k < |m|
        ensures q[k] == Store(m, dest, m[src..src + n])[k]
      {
        StoreAt(m, dest, m[src..src + n], k);
        StoreAt(m, dest, m[src..src + n - 1], k);
      }
    }
  }

  /** Copying a range one byte up, onto itself, spreads its first byte
      over it. */
  lemma {:induction false} CopyForwardSmear(m: seq<uint8>, src: nat, n: nat, k: int)
    requires src + 1 + n <= |m| && src < k <= src + n
    ensures CopyForward(m, src + 1, src, n)[k] == m[src]
  {
    var p := CopyForward(m, src + 1, src, n - 1);
    if k < src + n {
      CopyForwardSmear(m, src, n - 1, k);
    } else if n == 1 {
      CopyForwardFrame(m, src + 1, src, 0, src);
    } else {
      CopyForwardSmear(m, src, n - 1, src + n - 1);
    }
  }

  /** What `memcmp` returns for byte strings `a` and `b` of one length:
      zero when they are equal, otherwise the difference of the bytes at
      the first place they differ, both taken as unsigned. */
  function Compare(a: seq<uint8>, b: seq<uint8>): (r: int)
    requires |a| == |b|
  {
    CompareFrom(a, b, 0)
  }

  /** `Compare` of what follows the first `i` bytes. */
  function CompareFrom(a: seq<uint8>, b: seq<uint8>, i: nat): (r: int)
    requires |a| == |b| && i <= |a|
    ensures -0xff <= r <= 0xff
    decreases |a| - i
  {
    if i == |a| then 0
    else if a[i] != b[i] then a[i] as int - b[i] as int
    else CompareFrom(a, b, i + 1)
  }

  /** `memcmp(ab1, ab2, n)`; memory is only read. */
  method Memcmp(mem: array<uint8>, b1: nat, b2: nat, n: nat) returns (r: int)
    requires b1 + n <= mem.Length && b2 + n <= mem.Length
    ensures r == Compare(mem[b1..b1 + n], mem[b2..b2 + n])
  {
    ghost var a, b := mem[b1..b1 + n], mem[b2..b2 + n];
    ghost var i := 0;
    var p, q := b1, b2;
    var e := b1 + n;
    while p < e
      invariant 0 <= i <= n && p == b1 + i && q == b2 + i && e == b1 + n
      invariant Compare(a, b) == CompareFrom(a, b, i)
    {
      assert a[i] == mem[p] && b[i] == mem[q];
      if mem[p] != mem[q] {
        return mem[p] as int - mem[q] as int;
      }
      p, q, i := p + 1, q + 1, i + 1;
    }
    return 0;
  }

  /** `a` and `b` agree at every place from `i` up to `j`. */
  ghost predicate AgreeBetween(a: seq<uint8>, b: seq<uint8>, i: int, j: int)
    requires |a| == |b|
  {
    forall k :: i <= k < j && 0 <= k < |a| ==> a[k] == b[k]
  }

  lemma {:induction false} CompareFromZero(a: seq<uint8>, b: seq<uint8>, i: nat)
    requires |a| == |b| && i <= |a|
    ensures CompareFrom(a, b, i) == 0 <==> AgreeBetween(a, b, i, |a|)
    decreases |a| - i
  {
    if i < |a| && a[i] == b[i] {
      CompareFromZero(a, b, i + 1);
    }
  }

  /** `memcmp` answers zero exactly for equal strings. */
  lemma CompareZero(a: seq<uint8>, b: seq<uint8>)
    requires |a| == |b|
    ensures Compare(a, b) == 0 <==> a == b
  {
    CompareFromZero(a, b, 0);
  }

  lemma {:induction false} CompareFromSwap(a: seq<uint8>, b: seq<uint8>, i: nat)
    requires |a| == |b| && i <= |a|
    ensures CompareFrom(b, a, i) == -CompareFrom(a, b, i)
    decreases |a| - i
  {
    if i < |a| && a[i] == b[i] {
      CompareFromSwap(a, b, i + 1);
    }
  }

  /** Swapping the arguments negates the answer. */
  lemma CompareSwap(a: seq<uint8>, b: seq<uint8>)
    requires |a| == |b|
    ensures Compare(b, a) == -Compare(a, b)
  {
    CompareFromSwap(a, b, 0);
  }

  /** `a` comes first in lexicographic order of unsigned bytes, looking
      from place `i` on: they agree up to some place, where `a`'s byte is
      the smaller. */
  ghost predicate PrecedesFrom(a: seq<uint8>, b: seq<uint8>, i: nat)
    requires |a| == |b|
  {
    exists j :: i <= j < |a| && AgreeBetween(a, b, i, j) && a[j] < b[j]
  }

  ghost predicate Precedes(a: seq<uint8>, b: seq<uint8>)
    requires |a| == |b|
  {
    PrecedesFrom(a, b, 0)
  }

  lemma {:induction false} CompareFromOrder(a: seq<uint8>, b: seq<uint8>, i: nat)
    requires |a| == |b| && i <= |a|
    ensures CompareFrom(a, b, i) < 0 <==> PrecedesFrom(a, b, i)
    decreases |a| - i
  {
    if i == |a| {
    } else if a[i] != b[i] {
      if a[i] < b[i] {
        assert AgreeBetween(a, b, i, i);
      }
    } else {
      CompareFromOrder(a, b, i + 1);
      if PrecedesFrom(a, b, i + 1) {
        var j :| i + 1 <= j < |a| && AgreeBetween(a, b, i + 1, j) && a[j] < b[j];
        assert AgreeBetween(a, b, i, j);
      }
      if PrecedesFrom(a, b, i) {
        var j :| i <= j < |a| && AgreeBetween(a, b, i, j) && a[j] < b[j];
        assert AgreeBetween(a, b, i + 1, j);
      }
    }
  }

  /** A negative answer means exactly that the first string comes first. */
  lemma CompareOrder(a: seq<uint8>, b: seq<uint8>)
    requires |a| == |b|
    ensures Compare(a, b) < 0 <==> Precedes(a, b)
  {
    CompareFromOrder(a, b, 0);
  }
}
