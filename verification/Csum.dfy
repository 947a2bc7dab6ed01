/** The Internet checksum of csum.c (RFC 1071). */
module Csum {
  import opened Bytes

  const WORDS: nat := 0x1_0000

  /** The largest value of a C int. */
  const INT_MAX: nat := 0x7FFF_FFFF

  /** The sum of the 16-bit words of s read in host order, an odd last byte counting as itself. */
  function LeSum(s: seq<byte>): nat
  {
    if |s| == 0 then 0 else if |s| == 1 then s[0] else Word(s[0], s[1]) + LeSum(s[2..])
  }

  /** The sum of the 16-bit words of s in network order, an odd last byte padded with a zero
  byte on the right (RFC 1071, section 1). */
  function BeSum(s: seq<byte>): nat
  {
    if |s| == 0 then 0 else if |s| == 1 then Word(0, s[0]) else Word(s[1], s[0]) + BeSum(s[2..])
  }

  /** Adds the carries back in until none is left. */
  function Fold(n: nat): (r: nat)
    ensures r < WORDS
  {
    if n < WORDS then n else Fold(n % WORDS + n / WORDS)
  }

  /** What csum returns for the bytes s. */
  function Checksum(s: seq<byte>): word
  {
    0xFFFF - Fold(LeSum(s))
  }

  /** The checksum as RFC 1071 defines it, on a machine of the network's own byte order. */
  function BeChecksum(s: seq<byte>): word
  {
    0xFFFF - Fold(BeSum(s))
  }

  // ----- folding is taking the residue modulo 65535, represented in 1..65535

  lemma ModShift(n: int, k: int)
    ensures (n + 0xFFFF * k) % 0xFFFF == n % 0xFFFF
  {
  }

  /** Folding keeps the value modulo 65535, and only zero folds to zero. */
  lemma {:induction false} FoldIsResidue(n: nat)
    ensures Fold(n) % 0xFFFF == n % 0xFFFF
    ensures Fold(n) == 0 <==> n == 0
    decreases n
  {
    if n >= WORDS {
      var m := n % WORDS + n / WORDS;
      FoldIsResidue(m);
      ModShift(m, n / WORDS);
      assert n == m + 0xFFFF * (n / WORDS);
    }
  }

  /** Which number a sum folds to depends only on its residue and on whether it is zero. */
  lemma FoldUnique(n: nat, m: nat)
    requires n % 0xFFFF == m % 0xFFFF
    requires n == 0 <==> m == 0
    ensures Fold(n) == Fold(m)
  {
    FoldIsResidue(n);
    FoldIsResidue(m);
  }

  // ----- sums of concatenations

  lemma {:induction false} LeSumAppends(s: seq<byte>, t: seq<byte>)
    requires |s| % 2 == 0
    ensures LeSum(s + t) == LeSum(s) + LeSum(t)
  {
    if |s| == 0 {
      assert s + t == t;
    } else {
      LeSumAppends(s[2..], t);
      assert (s + t)[2..] == s[2..] + t;
    }
  }

  /** Writing a word over two zero bytes at an even position adds that word to the sum. */
  lemma LeSumPokesWord(s: seq<byte>, at: nat, w: word)
    requires at % 2 == 0 && at + 2 <= |s|
    requires s[at] == 0 && s[at + 1] == 0
    ensures LeSum(Poke(s, at, Le16(w))) == LeSum(s) + w
  {
    LeSumSplits(s, at);
    LeSumSplits(Poke(s, at, Le16(w)), at);
    assert Poke(s, at, Le16(w))[..at] == s[..at];
    assert Poke(s, at, Le16(w))[at + 2..] == s[at + 2..];
  }

  /** The word at an even position contributes itself. */
  lemma {:induction false} LeSumSplits(s: seq<byte>, at: nat)
    requires at % 2 == 0 && at + 2 <= |s|
    ensures LeSum(s) == LeSum(s[..at]) + Word(s[at], s[at + 1]) + LeSum(s[at + 2..])
  {
    if at > 0 {
      LeSumSplits(s[2..], at - 2);
      assert s[2..][..at - 2] == s[..at][2..];
      assert s[2..][at - 2 + 2..] == s[at + 2..];
    }
  }

  // ----- byte order independence

  lemma {:induction false} BeSumIsSwapped(s: seq<byte>)
    ensures LeSum(s) % 0xFFFF == (0x100 * BeSum(s)) % 0xFFFF
    ensures LeSum(s) == 0 <==> BeSum(s) == 0
  {
    if |s| == 1 {
      var a: int := s[0];
      ModShift(a, a);
      assert 0x100 * BeSum(s) == a + 0xFFFF * a;
    } else if |s| > 1 {
      BeSumIsSwapped(s[2..]);
      var l, b := LeSum(s[2..]), 0x100 * BeSum(s[2..]);
      var a: int, w := s[0], Word(s[0], s[1]);
      assert 0x100 * BeSum(s) == w + b + 0xFFFF * a;
      ModShift(w + b, a);
      ModAdds(w, l, b);
    }
  }

  lemma ModAdds(w: int, l: int, b: int)
    requires l % 0xFFFF == b % 0xFFFF
    ensures (w + l) % 0xFFFF == (w + b) % 0xFFFF
  {
    ModShift(w + b, l / 0xFFFF - b / 0xFFFF);
    assert l == 0xFFFF * (l / 0xFFFF) + l % 0xFFFF;
    assert b == 0xFFFF * (b / 0xFFFF) + b % 0xFFFF;
    assert w + l == w + b + 0xFFFF * (l / 0xFFFF - b / 0xFFFF);
  }

  lemma ModTimes(k: int, l: int, b: int)
    requires l % 0xFFFF == b % 0xFFFF
    ensures (k * l) % 0xFFFF == (k * b) % 0xFFFF
  {
    var q := l / 0xFFFF - b / 0xFFFF;
    assert l == b + 0xFFFF * q;
    assert k * l == k * b + 0xFFFF * (k * q);
    ModShift(k * b, k * q);
  }

  lemma SameResidue(l: word, s: word)
    requires l % 0xFFFF == s % 0xFFFF && (l == 0 <==> s == 0)
    ensures l == s
  {
  }

  lemma SwappedResidue(l: word, b: word)
    requires l % 0xFFFF == (0x100 * b) % 0xFFFF
    requires l == 0 <==> b == 0
    ensures l == Word(b / 0x100, b % 0x100)
  {
    var high, low := b / 0x100, b % 0x100;
    ModShift(Word(high, low), high);
    assert 0x100 * b == Word(high, low) + 0xFFFF * high;
    SameResidue(l, Word(high, low));
  }

  lemma ComplementBytes(l: word, b: word)
    requires l == Word(b / 0x100, b % 0x100)
    ensures Le16(0xFFFF - l) == Be16(0xFFFF - b)
  {
    var high, low := b / 0x100, b % 0x100;
    assert 0xFFFF - l == Word(0xFF - high, 0xFF - low);
    assert 0xFFFF - b == Word(0xFF - low, 0xFF - high);
  }

  /** RFC 1071, section 2(B): the checksum computed in host order and stored in memory is, byte
  for byte, the checksum defined on network order. Every length, odd ones included. */
  lemma ByteOrderIndependent(s: seq<byte>)
    ensures Le16(Checksum(s)) == Be16(BeChecksum(s))
  {
    var n, m := LeSum(s), BeSum(s);
    FoldIsResidue(n);
    FoldIsResidue(m);
    BeSumIsSwapped(s);
    ModTimes(0x100, Fold(m), m);
    SwappedResidue(Fold(n), Fold(m));
    ComplementBytes(Fold(n), Fold(m));
  }

  /** The example of RFC 1071, section 3: the words 0001, f203, f4f5 and f6f7 sum to ddf2. */
  lemma ExampleOfRfc1071()
    ensures Le16(Checksum([0x00, 0x01, 0xF2, 0x03, 0xF4, 0xF5, 0xF6, 0xF7])) == [0x22, 0x0D]
  {
    var s: seq<byte> := [0x00, 0x01, 0xF2, 0x03, 0xF4, 0xF5, 0xF6, 0xF7];
    assert s[2..] == [0xF2, 0x03, 0xF4, 0xF5, 0xF6, 0xF7] && s[2..][2..] == [0xF4, 0xF5, 0xF6, 0xF7];
    assert s[2..][2..][2..] == [0xF6, 0xF7] && s[2..][2..][2..][2..] == [];
    assert LeSum(s) == 0x100 + 0x03F2 + 0xF5F4 + 0xF7F6;
    assert Fold(LeSum(s)) == 0xF2DD;
  }

  lemma ComplementCancels(n: nat, f: word)
    requires f % 0xFFFF == n % 0xFFFF && (f == 0 <==> n == 0)
    ensures (n + (0xFFFF - f)) % 0xFFFF == 0 && n + (0xFFFF - f) > 0
  {
    ModAdds(0xFFFF - f, n, f);
  }

  /** Exactly the sums that are a positive multiple of 65535 verify. */
  lemma VerifiesIff(s: seq<byte>)
    ensures Checksum(s) == 0 <==> LeSum(s) > 0 && LeSum(s) % 0xFFFF == 0
  {
    FoldIsResidue(LeSum(s));
  }

  /** A receiver who sums the bytes with the computed checksum in place gets the all-ones word,
  that is, its own checksum is zero. */
  lemma InsertedChecksumVerifies(s: seq<byte>, at: nat)
    requires at % 2 == 0 && at + 2 <= |s|
    requires s[at] == 0 && s[at + 1] == 0
    ensures Checksum(Poke(s, at, Le16(Checksum(s)))) == 0
  {
    FoldIsResidue(LeSum(s));
    ComplementCancels(LeSum(s), Fold(LeSum(s)));
    LeSumPokesWord(s, at, Checksum(s));
    VerifiesIff(Poke(s, at, Le16(Checksum(s))));
  }

  lemma Overwritten(s: seq<byte>, at: nat)
    requires at % 2 == 0 && at + 2 <= |s|
    ensures var c := Checksum(s);
      LeSum(Poke(s, at, Le16(c))) == LeSum(s) - Word(s[at], s[at + 1]) + c
  {
    hide LeSum, Checksum, Poke;
    var z, w := Poke(s, at, [0, 0]), Word(s[at], s[at + 1]);
    PokedTwice(s, at, Checksum(s));
    LeSumPokesWord(z, at, w);
    LeSumPokesWord(z, at, Checksum(s));
  }

  lemma PokedTwice(s: seq<byte>, at: nat, c: word)
    requires at + 2 <= |s|
    ensures var z := Poke(s, at, [0, 0]);
      && z[at] == 0 && z[at + 1] == 0
      && Poke(z, at, Le16(Word(s[at], s[at + 1]))) == s && Poke(z, at, Le16(c)) == Poke(s, at, Le16(c))
      && 0 <= Word(s[at], s[at + 1]) < 0x1_0000
  {
    WordBytes(s[at], s[at + 1]);
    hide Le16;
    assert s == s[..at] + [s[at], s[at + 1]] + s[at + 2..];
  }

  lemma WordBytes(a: byte, b: byte)
    ensures Le16(Word(a, b)) == [a, b] && 0 <= Word(a, b) < 0x1_0000
  {
  }

  lemma WordIsMultiple(a: byte, b: byte)
    ensures Word(a, b) % 0xFFFF == 0 <==> (a == 0 && b == 0) || (a == 0xFF && b == 0xFF)
  {
  }

  lemma SumOfFirst(s: seq<byte>)
    requires |s| >= 2 && s[0] > 0
    ensures LeSum(s) > 0
  {
  }

  lemma NegatedResidue(x: int, w: int)
    requires (x + w) % 0xFFFF == 0
    ensures x % 0xFFFF == 0 <==> w % 0xFFFF == 0
  {
    var q := (x + w) / 0xFFFF;
    assert x + w == 0xFFFF * q;
    if w % 0xFFFF == 0 {
      var p := w / 0xFFFF;
      assert x == 0xFFFF * (q - p);
    }
    if x % 0xFFFF == 0 {
      var p := x / 0xFFFF;
      assert w == 0xFFFF * (q - p);
    }
  }

  /** A checksum taken with something in its field and stored over it verifies exactly when what was
  there counts as nothing. */
  lemma OverwrittenVerifiesIff(s: seq<byte>, at: nat)
    requires at % 2 == 0 && 2 <= at <= |s| - 2 && s[0] > 0
    ensures Checksum(Poke(s, at, Le16(Checksum(s)))) == 0
      <==> (s[at] == 0 && s[at + 1] == 0) || (s[at] == 0xFF && s[at + 1] == 0xFF)
  {
    var t := Poke(s, at, Le16(Checksum(s)));
    assert t[0] == s[0];
    FoldIsResidue(LeSum(s));
    ComplementCancels(LeSum(s), Fold(LeSum(s)));
    hide Poke, LeSum, Fold, Le16;
    Overwritten(s, at);
    SumOfFirst(t);
    VerifiesIff(t);
    NegatedResidue(LeSum(t), Word(s[at], s[at + 1]));
    WordIsMultiple(s[at], s[at + 1]);
  }

  lemma SmallMultiple(x: int)
    requires x % 0xFFFF == 0 && -0xFFFF < x < 0xFFFF
    ensures x == 0
  {
  }

  /** Changing one byte of a verified message always breaks the check. */
  lemma ChangedByteFails(s: seq<byte>, at: nat, b: byte)
    requires at < |s| && Checksum(s) == 0
    ensures Checksum(s[at := b]) == 0 <==> b == s[at]
  {
    var t := s[at := b];
    VerifiesIff(s);
    VerifiesIff(t);
    if b == s[at] {
      assert t == s;
    } else if Checksum(t) == 0 {
      LeSumAtByte(s, at, b);
      var before: int, after: int := LeSum(s), LeSum(t);
      ModAdds(0 - before, after, before);
      SmallMultiple(after - before);
    }
  }

  lemma {:induction false} LeSumAtByte(s: seq<byte>, at: nat, b: byte)
    requires at < |s|
    ensures LeSum(s[at := b]) - LeSum(s) == (if at % 2 == 0 then 1 else 0x100) * (b - s[at])
  {
    var t := s[at := b];
    if at < 2 {
      if |s| > 1 {
        assert t[2..] == s[2..];
      }
    } else {
      LeSumAtByte(s[2..], at - 2, b);
      assert t[2..] == s[2..][at - 2 := b];
    }
  }

  // ----- the loops of csum.c

  /** The fold loop; it ends because every round makes the sum smaller. */
  method FoldLoop(start: nat) returns (sum: nat)
    ensures sum == Fold(start) && sum < WORDS
  {
    sum := start;
    while sum / WORDS != 0
      invariant Fold(sum) == Fold(start)
      decreases sum
    {
      sum := sum % WORDS + sum / WORDS;
    }
    FoldIsResidue(start);
  }

  lemma {:induction false} LeSumBound(s: seq<byte>)
    ensures LeSum(s) <= 0xFFFF * ((|s| + 1) / 2)
  {
    if |s| > 1 {
      LeSumBound(s[2..]);
    }
  }

  /** The u_int16_t loop over one block. The accumulator is an unsigned 64-bit integer: adding
  wraps, and the proof shows that it never does for a length that fits an int. */
  method AddBlock(mem: array<byte>, start: nat, packlen: nat, sum0: nat) returns (sum: nat)
    requires start + packlen <= mem.Length
    requires sum0 + LeSum(mem[start..start + packlen]) < 0x1_0000_0000_0000_0000
    ensures sum == sum0 + LeSum(mem[start..start + packlen])
  {
    sum := sum0;
    var packet, left := start, packlen;
    while left > 1
      invariant packet + left == start + packlen && start <= packet
      invariant sum + LeSum(mem[packet..packet + left]) == sum0 + LeSum(mem[start..start + packlen])
      decreases left
    {
      assert mem[packet..packet + left][2..] == mem[packet + 2..packet + left];
      sum := (sum + Word(mem[packet], mem[packet + 1])) % 0x1_0000_0000_0000_0000;
      packet, left := packet + 2, left - 2;
    }
    if left > 0 {
      sum := (sum + mem[packet]) % 0x1_0000_0000_0000_0000;
    }
  }

  /** csum: the checksum of one block. A length that is not positive reads nothing. */
  method ChecksumBlock(mem: array<byte>, start: nat, packlen: int) returns (c: word)
    requires packlen <= INT_MAX
    requires start + packlen <= mem.Length
    ensures c == if packlen <= 0 then 0xFFFF else Checksum(mem[start..start + packlen])
  {
    if packlen <= 0 {
      return 0xFFFF;
    }
    LeSumBound(mem[start..start + packlen]);
    var sum := AddBlock(mem, start, packlen, 0);
    sum := FoldLoop(sum);
    c := 0xFFFF - sum;
  }

  // ----- a vector of blocks

  /** One entry of the vectors handed to csumv: where the block starts and how long it is. */
  datatype Span = Span(start: nat, len: nat)

  /** The bytes of a block. */
  function BytesOf(mem: seq<byte>, b: Span): seq<byte>
  {
    if b.start + b.len <= |mem| then mem[b.start..b.start + b.len] else []
  }

  /** The blocks before the entry of length zero that ends the vector. */
  function Blocks(v: seq<Span>): seq<Span>
  {
    if |v| == 0 || v[0].len == 0 then [] else [v[0]] + Blocks(v[1..])
  }

  function VectorSum(mem: seq<byte>, v: seq<Span>): nat
  {
    if |v| == 0 || v[0].len == 0 then 0 else LeSum(BytesOf(mem, v[0])) + VectorSum(mem, v[1..])
  }

  function Concat(mem: seq<byte>, blocks: seq<Span>): seq<byte>
  {
    if |blocks| == 0 then [] else BytesOf(mem, blocks[0]) + Concat(mem, blocks[1..])
  }

  function VectorChecksum(mem: seq<byte>, v: seq<Span>): word
  {
    0xFFFF - Fold(VectorSum(mem, v))
  }

  /** csumv over a vector is csum over the concatenation when every block but the last is of
  even length. */
  lemma {:induction false} VectorIsConcatenation(mem: seq<byte>, v: seq<Span>)
    requires forall k :: 0 <= k < |v| ==> v[k].start + v[k].len <= |mem|
    requires forall k :: 0 <= k < |Blocks(v)| - 1 ==> Blocks(v)[k].len % 2 == 0
    ensures VectorSum(mem, v) == LeSum(Concat(mem, Blocks(v)))
    ensures VectorChecksum(mem, v) == Checksum(Concat(mem, Blocks(v)))
  {
    if |v| > 0 && v[0].len != 0 {
      var rest := Blocks(v[1..]);
      assert Blocks(v) == [v[0]] + rest;
      forall k | 0 <= k < |rest| - 1 ensures rest[k].len % 2 == 0 {
        assert Blocks(v)[k + 1] == rest[k];
      }
      VectorIsConcatenation(mem, v[1..]);
      assert Blocks(v)[1..] == rest;
      if |rest| > 0 {
        assert Blocks(v)[0].len % 2 == 0;
        LeSumAppends(BytesOf(mem, v[0]), Concat(mem, rest));
      } else {
        assert BytesOf(mem, v[0]) + Concat(mem, rest) == BytesOf(mem, v[0]);
      }
    }
  }

  // ----- blocks at odd offsets

  /** Behind an odd number of bytes the words of a sum are split the other way round. */
  lemma {:induction false} LeSumAppendsOdd(a: seq<byte>, b: seq<byte>)
    requires |a| % 2 == 1
    ensures LeSum(a + b) == LeSum(a) + BeSum(b)
    decreases |a| + |b|
  {
    if |a| > 2 {
      LeSumAppendsOdd(a[2..], b);
      assert (a + b)[2..] == a[2..] + b;
    } else if |b| == 0 {
      assert a + b == a;
    } else if |b| == 1 {
      assert (a + b)[2..] == [];
    } else {
      assert (a + b)[2..] == [b[1]] + b[2..];
      LeSumAppendsOdd([b[1]], b[2..]);
    }
  }

  /** The other order on the right as well. */
  lemma {:induction false} BeSumAppends(a: seq<byte>, b: seq<byte>)
    ensures BeSum(a + b) == BeSum(a) + if |a| % 2 == 0 then BeSum(b) else LeSum(b)
    decreases |a|
  {
    if |a| == 0 {
      assert a + b == b;
    } else if |a| == 1 {
      if |b| == 0 {
        assert a + b == a;
      } else {
        assert (a + b)[2..] == b[1..];
        LeSumFromByte(b);
      }
    } else {
      BeSumAppends(a[2..], b);
      assert (a + b)[2..] == a[2..] + b;
    }
  }

  lemma {:induction false} LeSumFromByte(b: seq<byte>)
    requires |b| > 0
    ensures LeSum(b) == b[0] + BeSum(b[1..])
    decreases |b|
  {
    if |b| > 2 {
      LeSumFromByte(b[2..]);
      assert b[1..][2..] == b[2..][1..];
    } else if |b| == 2 {
      assert b[1..] == [b[1]] && b[2..] == [];
    }
  }

  /** The part of a sum that bytes from an even or an odd offset on contribute. */
  function SumAt(s: seq<byte>, odd: bool): nat
  {
    if odd then BeSum(s) else LeSum(s)
  }

  lemma SumAtAppends(a: seq<byte>, b: seq<byte>, odd: bool)
    ensures SumAt(a + b, odd) == SumAt(a, odd) + SumAt(b, odd != (|a| % 2 == 1))
  {
    hide LeSum, BeSum;
    BeSumAppends(a, b);
    if |a| % 2 == 0 {
      LeSumAppends(a, b);
    } else {
      LeSumAppendsOdd(a, b);
    }
  }

  /** The network-order sum of the blocks that start at an odd offset of the concatenation; `odd`
  says whether the first one does. */
  function OddSum(mem: seq<byte>, blocks: seq<Span>, odd: bool): nat
  {
    if |blocks| == 0 then 0
    else
      var b := BytesOf(mem, blocks[0]);
      (if odd then BeSum(b) else 0) + OddSum(mem, blocks[1..], odd != (|b| % 2 == 1))
  }

  /** A block that csumv sums from an even address although it belongs at an odd offset. */
  lemma BlockDiffers(b: seq<byte>, odd: bool)
    ensures (LeSum(b) - SumAt(b, odd)) % 0xFFFF == (0xFF * (if odd then BeSum(b) else 0)) % 0xFFFF
    ensures LeSum(b) == 0 <==> SumAt(b, odd) == 0
  {
    hide LeSum, BeSum;
    BeSumIsSwapped(b);
    ModAdds(0 - BeSum(b), LeSum(b), 0x100 * BeSum(b));
  }

  /** The difference between the sum of the blocks and the sum of the concatenation. */
  lemma {:induction false} VectorDiffers(mem: seq<byte>, v: seq<Span>, odd: bool)
    ensures var sum := SumAt(Concat(mem, Blocks(v)), odd);
      && (VectorSum(mem, v) == 0 <==> sum == 0)
      && (VectorSum(mem, v) - sum) % 0xFFFF == (0xFF * OddSum(mem, Blocks(v), odd)) % 0xFFFF
    decreases |v|
  {
    if |v| == 0 || v[0].len == 0 {
      assert Concat(mem, Blocks(v)) == [];
    } else {
      hide LeSum, BeSum, SumAt, BytesOf;
      var b, rest := BytesOf(mem, v[0]), Concat(mem, Blocks(v[1..]));
      assert Blocks(v)[0] == v[0] && Blocks(v)[1..] == Blocks(v[1..]);
      var flip := odd != (|b| % 2 == 1);
      VectorDiffers(mem, v[1..], flip);
      SumAtAppends(b, rest, odd);
      BlockDiffers(b, odd);
      ModAddsTwo(LeSum(b) - SumAt(b, odd), 0xFF * (if odd then BeSum(b) else 0),
                 VectorSum(mem, v[1..]) - SumAt(rest, flip), 0xFF * OddSum(mem, Blocks(v[1..]), flip));
    }
  }

  lemma ModAddsTwo(a: int, b: int, c: int, d: int)
    requires a % 0xFFFF == b % 0xFFFF && c % 0xFFFF == d % 0xFFFF
    ensures (a + c) % 0xFFFF == (b + d) % 0xFFFF
  {
    ModAdds(a, c, d);
    ModAdds(d, a, b);
  }

  lemma Times255(n: nat)
    ensures (0xFF * n) % 0xFFFF == 0 <==> n % 257 == 0
  {
    var q, r := n / 257, n % 257;
    assert n == 257 * q + r;
    assert 0xFF * n == 0xFFFF * q + 0xFF * r;
    ModShift(0xFF * r, q);
  }

  lemma DifferenceIs(n: int, m: int)
    ensures (n - m) % 0xFFFF == 0 <==> n % 0xFFFF == m % 0xFFFF
  {
    if n % 0xFFFF == m % 0xFFFF {
      ModAdds(0 - m, n, m);
    }
    var d: int := n - m;
    if d % 0xFFFF == 0 {
      ModAdds(m, d, 0);
    }
  }

  lemma FoldEqualIff(n: nat, m: nat)
    requires n == 0 <==> m == 0
    ensures Fold(n) == Fold(m) <==> n % 0xFFFF == m % 0xFFFF
  {
    hide Fold;
    FoldIsResidue(n);
    FoldIsResidue(m);
    if n % 0xFFFF == m % 0xFFFF {
      FoldUnique(n, m);
    }
  }

  /** csumv over a vector is csum over the concatenation exactly when the blocks at odd offsets
  have a network-order sum that is a multiple of 257. */
  lemma VectorIsConcatenationIff(mem: seq<byte>, v: seq<Span>)
    ensures VectorChecksum(mem, v) == Checksum(Concat(mem, Blocks(v)))
      <==> OddSum(mem, Blocks(v), false) % 257 == 0
  {
    hide LeSum, BeSum, Fold, VectorSum, Concat, OddSum;
    var n, m := VectorSum(mem, v), LeSum(Concat(mem, Blocks(v)));
    VectorDiffers(mem, v, false);
    Times255(OddSum(mem, Blocks(v), false));
    DifferenceIs(n, m);
    FoldEqualIff(n, m);
  }

  lemma BlocksOfTwo(n: nat, m: nat)
    requires n > 0 && m > 0
    ensures Blocks([Span(0, n), Span(n, m), Span(0, 0)]) == [Span(0, n), Span(n, m)]
  {
    var v := [Span(0, n), Span(n, m), Span(0, 0)];
    assert v[1..] == [v[1], v[2]] && v[1..][1..] == [v[2]];
    assert Blocks([v[2]]) == [];
    assert Blocks(v[1..]) == [v[1]] + [];
  }

  /** Two blocks, one behind the other: an odd first block changes the checksum unless the
  network-order sum of the second one is a multiple of 257. */
  lemma TwoBlocksIff(a: seq<byte>, b: seq<byte>)
    requires |a| % 2 == 1 && |b| > 0
    ensures VectorChecksum(a + b, [Span(0, |a|), Span(|a|, |b|), Span(0, 0)]) == Checksum(a + b) <==> BeSum(b) % 257 == 0
  {
    hide Checksum, VectorChecksum, BeSum, LeSum;
    var mem, v := a + b, [Span(0, |a|), Span(|a|, |b|), Span(0, 0)];
    var blocks := [Span(0, |a|), Span(|a|, |b|)];
    BlocksOfTwo(|a|, |b|);
    VectorIsConcatenationIff(mem, v);
    PartsOfSum(a, b);
    assert BytesOf(mem, blocks[0]) == a && BytesOf(mem, blocks[1]) == b;
    assert blocks[1..] == [blocks[1]] && [blocks[1]][1..] == [];
    assert Concat(mem, []) == [] && Concat(mem, [blocks[1]]) == b;
    assert OddSum(mem, [blocks[1]], true) == BeSum(b) + OddSum(mem, [], true != (|b| % 2 == 1));
  }

  /** [1],[1] sums to 2, not to 257; but [1],[0, 0] sums to 1, like its concatenation. */
  lemma OddBlockShifts()
    ensures VectorChecksum([1] + [1], [Span(0, 1), Span(1, 1), Span(0, 0)]) != Checksum([1] + [1])
    ensures VectorChecksum([1] + [0, 0], [Span(0, 1), Span(1, 2), Span(0, 0)]) == Checksum([1] + [0, 0])
  {
    hide Checksum, VectorChecksum;
    var zeros: seq<byte> := [0, 0];
    TwoBlocksIff([1], [1]);
    TwoBlocksIff([1], zeros);
    assert zeros[2..] == [];
  }

  function {:induction false} TotalLength(v: seq<Span>): nat
  {
    if |v| == 0 then 0 else v[0].len + TotalLength(v[1..])
  }

  lemma {:induction false} VectorSumBound(mem: seq<byte>, v: seq<Span>)
    ensures VectorSum(mem, v) <= 0xFFFF * TotalLength(v)
  {
    if |v| > 0 {
      VectorSumBound(mem, v[1..]);
      LeSumBound(BytesOf(mem, v[0]));
    }
  }

  /** csumv: consumes the vectors, advancing every pointer and counting every length down. */
  method ChecksumVector(mem: array<byte>, packet: array<nat>, packlen: array<nat>, ghost v: seq<Span>) returns (c: word)
    requires packet != packlen && packet.Length == packlen.Length == |v|
    requires forall k :: 0 <= k < |v| ==> v[k] == Span(packet[k], packlen[k])
    requires forall k :: 0 <= k < |v| ==> v[k].start + v[k].len <= mem.Length
    requires exists k :: 0 <= k < |v| && v[k].len == 0
    requires TotalLength(v) <= INT_MAX
    modifies packet, packlen
    ensures c == VectorChecksum(mem[..], v)
  {
    ghost var bytes := mem[..];
    VectorSumBound(bytes, v);
    ghost var total := VectorSum(bytes, v);
    var sum: nat, i: nat := 0, 0;
    while packlen[i] != 0
      invariant 0 <= i < |v| && exists k :: i <= k < |v| && v[k].len == 0
      invariant forall k :: i <= k < |v| ==> v[k] == Span(packet[k], packlen[k])
      invariant sum + VectorSum(bytes, v[i..]) == total
      decreases |v| - i
    {
      assert v[i..][1..] == v[i + 1..] && v[i..][0] == v[i];
      assert mem[v[i].start..v[i].start + v[i].len] == BytesOf(bytes, v[i]);
      sum := AddBlock(mem, packet[i], packlen[i], sum);
      var odd := packlen[i] % 2;
      packet[i], packlen[i] := packet[i] + packlen[i] - odd, odd;
      i := i + 1;
    }
    sum := FoldLoop(sum);
    c := 0xFFFF - sum;
  }
}
