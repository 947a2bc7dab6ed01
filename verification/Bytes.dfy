/** Octets, byte order and exclusive or: the vocabulary every other module speaks.

A C pointer into a buffer is an array with an offset; a stretch of memory is a
`seq<byte>`. The host is little-endian.
*/
module Bytes {

  type byte = x: int | 0 <= x < 0x100

  type word = x: int | 0 <= x < 0x1_0000

  /** memset(_, 0, n) */
  function Zeros(n: nat): (s: seq<byte>)
    ensures |s| == n && forall k :: 0 <= k < n ==> s[k] == 0
  {
    seq(n, _ => 0)
  }

  /** The 16-bit number with the given low and high octets. */
  function Word(lo: int, hi: int): int
  {
    lo + 0x100 * hi
  }

  /** The low 16 bits of v as htons stores them: most significant byte first. */
  function Be16(v: nat): (s: seq<byte>)
    ensures |s| == 2
    ensures v < 0x1_0000 ==> Word(s[1], s[0]) == v
  {
    [v / 0x100 % 0x100, v % 0x100]
  }

  /** The low 16 bits of v as this host stores a u_int16_t. */
  function Le16(v: nat): (s: seq<byte>)
    ensures |s| == 2
    ensures v < 0x1_0000 ==> Word(s[0], s[1]) == v
  {
    [v % 0x100, v / 0x100 % 0x100]
  }

  /** The low 32 bits of v as this host stores a u_int32_t. */
  function Le32(v: nat): (s: seq<byte>)
    ensures |s| == 4
  {
    Le16(v) + Le16(v / 0x1_0000)
  }

  /** The low 32 bits of v as htonl stores them. */
  function Be32(v: nat): (s: seq<byte>)
    ensures |s| == 4
  {
    Be16(v / 0x1_0000) + Be16(v)
  }

  /** Four bytes hold v modulo 2 to the 32nd, from the high one down and from the low one up. */
  lemma Reads32(v: nat)
    ensures var b, l := Be32(v), Le32(v);
      && Word(b[3], b[2]) + 0x1_0000 * Word(b[1], b[0]) == v % 0x1_0000_0000
      && Word(l[0], l[1]) + 0x1_0000 * Word(l[2], l[3]) == v % 0x1_0000_0000
  {
    var q := v / 0x1_0000;
    Reads16(v);
    Reads16(q);
    hide Be16, Le16;
    assert v % 0x1_0000_0000 == q % 0x1_0000 * 0x1_0000 + v % 0x1_0000;
  }

  lemma Reads16(v: nat)
    ensures Word(Be16(v)[1], Be16(v)[0]) == v % 0x1_0000
    ensures Word(Le16(v)[0], Le16(v)[1]) == v % 0x1_0000
  {
  }

  /** Two four-bit fields sharing a byte. */
  function Nibbles(high: nat, low: nat): byte
  {
    high % 16 * 16 + low % 16
  }

  /** s with the bytes from `at` on overwritten by t. */
  function Poke(s: seq<byte>, at: nat, t: seq<byte>): (r: seq<byte>)
    requires at + |t| <= |s|
    ensures |r| == |s|
  {
    s[..at] + t + s[at + |t|..]
  }

  /** Overwriting inside a part that was itself just written. */
  lemma PokeInside(s: seq<byte>, start: nat, h: seq<byte>, at: nat, v: seq<byte>)
    requires start + |h| <= |s| && at + |v| <= |h|
    ensures Poke(Poke(s, start, h), start + at, v) == Poke(s, start, Poke(h, at, v))
  {
  }

  /** Writes v into buf from `at` on: a field assignment or a memcpy from elsewhere. */
  method Put(buf: array<byte>, at: nat, v: seq<byte>)
    requires at + |v| <= buf.Length
    modifies buf
    ensures buf[..] == Poke(old(buf[..]), at, v)
  {
    for i := 0 to |v|
      invariant forall k :: 0 <= k < buf.Length ==>
        buf[k] == if at <= k < at + i then v[k - at] else old(buf[k])
    {
      buf[at + i] := v[i];
    }
  }

  /** memmove towards the front. */
  method MoveDown(buf: array<byte>, to: nat, from: nat, n: nat)
    requires to <= from && from + n <= buf.Length
    modifies buf
    ensures buf[..] == Poke(old(buf[..]), to, old(buf[from..from + n]))
  {
    hide Poke;
    ghost var was := buf[..];
    PokeNothing(was, to);
    assert was[from..from + 0] == [];
    for i := 0 to n
      invariant buf[..] == Poke(was, to, was[from..from + i])
    {
      PokedElement(was, to, was[from..from + i], from + i);
      ghost var before := buf[..];
      buf[to + i] := buf[from + i];
      PokeOne(buf[..], before, to + i);
      PokeAppends(was, to, was[from..from + i], [was[from + i]]);
      assert was[from..from + i] + [was[from + i]] == was[from..from + (i + 1)];
    }
  }

  /** memmove towards the end. */
  method MoveUp(buf: array<byte>, to: nat, from: nat, n: nat)
    requires from <= to && to + n <= buf.Length
    modifies buf
    ensures buf[..] == Poke(old(buf[..]), to, old(buf[from..from + n]))
  {
    hide Poke;
    ghost var was := buf[..];
    PokeNothing(was, to + n);
    assert was[from + n..from + n] == [];
    for i := n downto 0
      invariant buf[..] == Poke(was, to + i, was[from + i..from + n])
    {
      PokedElement(was, to + (i + 1), was[from + (i + 1)..from + n], from + i);
      ghost var before := buf[..];
      buf[to + i] := buf[from + i];
      PokeOne(buf[..], before, to + i);
      PokePrepends(was, to + i, was[from + i], was[from + (i + 1)..from + n]);
      assert [was[from + i]] + was[from + (i + 1)..from + n] == was[from + i..from + n];
    }
  }

  /** memmove: the two stretches may overlap. */
  method Move(buf: array<byte>, to: nat, from: nat, n: nat)
    requires to + n <= buf.Length && from + n <= buf.Length
    modifies buf
    ensures buf[..] == Poke(old(buf[..]), to, old(buf[from..from + n]))
  {
    if to <= from {
      MoveDown(buf, to, from, n);
    } else {
      MoveUp(buf, to, from, n);
    }
  }

  lemma PokeNothing(s: seq<byte>, at: nat)
    requires at <= |s|
    ensures Poke(s, at, []) == s
  {
  }

  lemma PokedElement(s: seq<byte>, at: nat, t: seq<byte>, k: nat)
    requires at + |t| <= |s| && k < |s| && !(at <= k < at + |t|)
    ensures Poke(s, at, t)[k] == s[k]
  {
  }

  lemma PokeOne(r: seq<byte>, s: seq<byte>, at: nat)
    requires at < |s| && |r| == |s| && r == s[at := r[at]]
    ensures r == Poke(s, at, [r[at]])
  {
  }

  lemma PokePrepends(s: seq<byte>, at: nat, b: byte, t: seq<byte>)
    requires at + 1 + |t| <= |s|
    ensures Poke(Poke(s, at + 1, t), at, [b]) == Poke(s, at, [b] + t)
  {
  }

  /** Two adjacent writes are one. */
  lemma PokeAppends(s: seq<byte>, at: nat, t: seq<byte>, u: seq<byte>)
    requires at + |t| + |u| <= |s|
    ensures Poke(Poke(s, at, t), at + |t|, u) == Poke(s, at, t + u)
  {
  }

  // ----- slices

  lemma SliceOfSlice(s: seq<byte>, k: nat, n: nat, a: nat, b: nat)
    requires k <= n <= |s| && a <= b <= n - k
    ensures s[k..n][a..b] == s[k + a..k + b]
  {
    forall j | 0 <= j < b - a ensures s[k..n][a..b][j] == s[k + a..k + b][j] {
    }
  }

  lemma SliceOfSuffix(s: seq<byte>, k: nat, a: nat, b: nat)
    requires k <= |s| && a <= b <= |s| - k
    ensures s[k..][a..b] == s[k + a..k + b] && s[k..][a..] == s[k + a..]
  {
    forall j | 0 <= j < b - a ensures s[k..][a..b][j] == s[k + a..k + b][j] {
    }
    forall j | 0 <= j < |s| - k - a ensures s[k..][a..][j] == s[k + a..][j] {
    }
  }

  lemma SuffixOfPrefix(s: seq<byte>, n: nat, a: nat)
    requires a <= n <= |s|
    ensures s[..n][a..] == s[a..n]
  {
    forall j | 0 <= j < n - a ensures s[..n][a..][j] == s[a..n][j] {
    }
  }

  lemma SliceOfPrefix(s: seq<byte>, t: seq<byte>, n: nat, from: nat, to: nat)
    requires from <= to <= n <= |s| && n <= |t| && s[..n] == t[..n]
    ensures s[from..to] == t[from..to]
  {
    assert forall k :: from <= k < to ==> s[k] == s[..n][k] == t[..n][k] == t[k];
  }

  lemma PrefixOfPrefix(s: seq<byte>, t: seq<byte>, n: nat, k: nat)
    requires k <= n <= |s| && n <= |t| && s[..n] == t[..n]
    ensures s[..k] == t[..k]
  {
    forall j | 0 <= j < k ensures s[..k][j] == t[..k][j] {
      assert s[..n][j] == t[..n][j];
    }
  }

  lemma SliceSplits(s: seq<byte>, a: nat, b: nat, c: nat)
    requires a <= b <= c <= |s|
    ensures s[a..c] == s[a..b] + s[b..c]
  {
    forall j | 0 <= j < c - a ensures s[a..c][j] == (s[a..b] + s[b..c])[j] {
    }
  }

  lemma PartsOfSum(s: seq<byte>, t: seq<byte>)
    ensures (s + t)[..|s|] == s && (s + t)[|s|..] == t
  {
    forall j | 0 <= j < |t| ensures (s + t)[|s|..][j] == t[j] {
    }
  }

  // ----- running indices

  /** The running index of a loop that steps through a buffer of length n cyclically. */
  lemma NextIndex(d: nat, n: nat)
    requires n > 0
    ensures (d + 1) % n == (d % n + 1) % n
  {
    var q, r := d / n, d % n;
    assert d == n * q + r;
    if r + 1 == n {
      assert d + 1 == n * (q + 1);
      RemainderIs(d + 1, n, q + 1, 0);
      RemainderIs(r + 1, n, 1, 0);
    } else {
      RemainderIs(d + 1, n, q, r + 1);
      RemainderIs(r + 1, n, 0, r + 1);
    }
  }

  lemma RemainderIs(x: nat, n: nat, q: nat, r: nat)
    requires r < n && x == n * q + r
    ensures x % n == r
  {
    var p := x / n;
    assert x == n * p + x % n;
    if p < q {
      TimesGrows(n, p, q);
    } else if p > q {
      TimesGrows(n, q, p);
    }
  }

  lemma {:induction false} TimesGrows(n: nat, p: nat, q: nat)
    requires p < q
    ensures n * p + n <= n * q
    decreases q
  {
    assert n * q == n * (q - 1) + n;
    if p < q - 1 {
      TimesGrows(n, p, q - 1);
    }
  }

  // ----- exclusive or, bit by bit

  function Pow2(n: nat): nat
  {
    if n == 0 then 1 else 2 * Pow2(n - 1)
  }

  /** Exclusive or of the low n bits. */
  function XorBits(a: nat, b: nat, n: nat): (r: nat)
    ensures r < Pow2(n)
    decreases n
  {
    if n == 0 then 0 else (a + b) % 2 + 2 * XorBits(a / 2, b / 2, n - 1)
  }

  function Xor(a: byte, b: byte): byte
  {
    assert Pow2(8) == 0x100;
    XorBits(a, b, 8)
  }

  lemma Halves(low: nat, high: nat)
    requires low < 2
    ensures (low + 2 * high) % 2 == low && (low + 2 * high) / 2 == high
  {
  }

  lemma ParityAssociates(a: nat, b: nat, c: nat, ab: nat, bc: nat)
    requires ab % 2 == (a + b) % 2 && bc % 2 == (b + c) % 2
    ensures (ab + c) % 2 == (a + bc) % 2
  {
  }

  lemma XorBitsStep(a: nat, b: nat, n: nat)
    requires n > 0
    ensures XorBits(a, b, n) == (a + b) % 2 + 2 * XorBits(a / 2, b / 2, n - 1)
    ensures XorBits(a, b, n) % 2 == (a + b) % 2
    ensures XorBits(a, b, n) / 2 == XorBits(a / 2, b / 2, n - 1)
  {
    Halves((a + b) % 2, XorBits(a / 2, b / 2, n - 1));
  }

  lemma {:induction false} XorBitsAssociates(a: nat, b: nat, c: nat, n: nat)
    ensures XorBits(XorBits(a, b, n), c, n) == XorBits(a, XorBits(b, c, n), n)
    decreases n
  {
    if n > 0 {
      XorBitsAssociates(a / 2, b / 2, c / 2, n - 1);
      AssociatesStep(a, b, c, n);
    }
  }

  lemma AssociatesStep(a: nat, b: nat, c: nat, n: nat)
    requires n > 0
    requires XorBits(XorBits(a / 2, b / 2, n - 1), c / 2, n - 1) == XorBits(a / 2, XorBits(b / 2, c / 2, n - 1), n - 1)
    ensures XorBits(XorBits(a, b, n), c, n) == XorBits(a, XorBits(b, c, n), n)
  {
    hide *;
    var ab, bc := XorBits(a, b, n), XorBits(b, c, n);
    XorBitsStep(a, b, n);
    XorBitsStep(b, c, n);
    XorBitsStep(ab, c, n);
    XorBitsStep(a, bc, n);
    ParityAssociates(a, b, c, ab, bc);
  }

  lemma {:induction false} XorBitsCommutes(a: nat, b: nat, n: nat)
    ensures XorBits(a, b, n) == XorBits(b, a, n)
    decreases n
  {
    if n > 0 {
      XorBitsCommutes(a / 2, b / 2, n - 1);
    }
  }

  lemma {:induction false} XorBitsCancels(a: nat, n: nat)
    ensures XorBits(a, a, n) == 0
    decreases n
  {
    if n > 0 {
      XorBitsCancels(a / 2, n - 1);
    }
  }

  lemma {:induction false} XorBitsZero(a: nat, n: nat)
    requires a < Pow2(n)
    ensures XorBits(a, 0, n) == a
    decreases n
  {
    if n > 0 {
      XorBitsZero(a / 2, n - 1);
    }
  }

  lemma XorAssociates(a: byte, b: byte, c: byte)
    ensures Xor(Xor(a, b), c) == Xor(a, Xor(b, c))
  {
    XorBitsAssociates(a, b, c, 8);
  }

  lemma XorCommutes(a: byte, b: byte)
    ensures Xor(a, b) == Xor(b, a)
  {
    XorBitsCommutes(a, b, 8);
  }

  lemma XorZero(a: byte)
    ensures Xor(a, 0) == a
  {
    assert Pow2(8) == 0x100;
    XorBitsZero(a, 8);
  }

  /** Bytes under Xor are a group in which every element is its own inverse. */
  lemma XorUndoes(a: byte, b: byte)
    ensures Xor(Xor(a, b), b) == a
  {
    XorAssociates(a, b, b);
    XorBitsCancels(b, 8);
    XorZero(a);
  }

  /** Different bytes added to the same byte give different bytes. */
  lemma XorTellsApart(a: byte, b: byte, c: byte)
    ensures Xor(a, b) == Xor(a, c) <==> b == c
  {
    hide Xor;
    XorCommutes(a, b);
    XorCommutes(a, c);
    XorUndoes(b, a);
    XorUndoes(c, a);
  }

  /** Bit k of a number. */
  function BitAt(a: nat, k: nat): nat
  {
    if k == 0 then a % 2 else BitAt(a / 2, k - 1)
  }

  lemma {:induction false} XorBitAt(a: nat, b: nat, n: nat, k: nat)
    requires k < n
    ensures BitAt(XorBits(a, b, n), k) == (BitAt(a, k) + BitAt(b, k)) % 2
    decreases n
  {
    hide XorBits;
    XorBitsStep(a, b, n);
    if k > 0 {
      XorBitAt(a / 2, b / 2, n - 1, k - 1);
    }
  }

  /** A bit of the exclusive or is set exactly when it is set in one of the bytes and not in both. */
  lemma XorIsBitwise(a: byte, b: byte, k: nat)
    requires k < 8
    ensures BitAt(Xor(a, b), k) == 1 <==> BitAt(a, k) != BitAt(b, k)
  {
    hide XorBits, BitAt;
    XorBitAt(a, b, 8, k);
    BitIsBit(a, k);
    BitIsBit(b, k);
  }

  lemma BitIsBit(a: nat, k: nat)
    ensures BitAt(a, k) < 2
  {
  }
}
