/** xorauth.c: the demonstration authentication module, for ESP. */
module XorAuth {
  import opened Bytes

  /** Folds data[d..] with the repeated key into the ICV. */
  function Absorb(icv: seq<byte>, key: seq<byte>, data: seq<byte>, d: nat): (r: seq<byte>)
    requires |icv| > 0 && |key| > 0 && d <= |data|
    ensures |r| == |icv|
    decreases |data| - d
  {
    if d == |data| then icv
    else
      var i := d % |icv|;
      Absorb(icv[i := Xor(icv[i], Xor(key[d % |key|], data[d]))], key, data, d + 1)
  }

  /** The ICV of two stretches of data. */
  function Icv(key: seq<byte>, icvlen: nat, data1: seq<byte>, data2: seq<byte>): (r: seq<byte>)
    requires icvlen > 0 && |key| > 0
    ensures |r| == icvlen
  {
    Absorb(Absorb(Zeros(icvlen), key, data1, 0), key, data2, 0)
  }

  /** What column i of the ICV takes up from data[d..]. */
  function Column(i: nat, n: nat, key: seq<byte>, data: seq<byte>, d: nat): byte
    requires n > 0 && |key| > 0 && d <= |data|
    decreases |data| - d
  {
    if d == |data| then 0
    else if d % n == i then Xor(Xor(key[d % |key|], data[d]), Column(i, n, key, data, d + 1))
    else Column(i, n, key, data, d + 1)
  }

  /** Byte i of the ICV is the exclusive or of every keyed data byte whose position is i modulo
  the ICV length. */
  lemma {:induction false} AbsorbColumn(icv: seq<byte>, key: seq<byte>, data: seq<byte>, d: nat, i: nat)
    requires |icv| > 0 && |key| > 0 && d <= |data| && i < |icv|
    ensures Absorb(icv, key, data, d)[i] == Xor(icv[i], Column(i, |icv|, key, data, d))
    decreases |data| - d
  {
    hide Xor;
    if d == |data| {
      XorZero(icv[i]);
    } else {
      var j := d % |icv|;
      var x := Xor(key[d % |key|], data[d]);
      AbsorbColumn(icv[j := Xor(icv[j], x)], key, data, d + 1, i);
      XorAssociates(icv[i], x, Column(i, |icv|, key, data, d + 1));
    }
  }

  /** Changing one byte changes the column it falls into: no single-byte change of the
  authenticated data goes unnoticed. */
  lemma {:induction false} ColumnDetects(n: nat, key: seq<byte>, data: seq<byte>, at: nat, b: byte, d: nat)
    requires n > 0 && |key| > 0 && d <= at < |data|
    ensures Column(at % n, n, key, data[at := b], d) == Column(at % n, n, key, data, d) <==> b == data[at]
    decreases |data| - d
  {
    hide Xor;
    var t, i := data[at := b], at % n;
    if d == at {
      ColumnAfter(i, n, key, data, t, at + 1);
      var k, c := key[d % |key|], Column(i, n, key, data, d + 1);
      XorUndoes(Xor(k, b), c);
      XorUndoes(Xor(k, data[at]), c);
      XorCommutes(k, b);
      XorCommutes(k, data[at]);
      XorUndoes(b, k);
      XorUndoes(data[at], k);
    } else {
      ColumnDetects(n, key, data, at, b, d + 1);
      if d % n == i {
        var x := Xor(key[d % |key|], data[d]);
        var c, c' := Column(i, n, key, data, d + 1), Column(i, n, key, t, d + 1);
        XorCommutes(x, c);
        XorCommutes(x, c');
        XorUndoes(c, x);
        XorUndoes(c', x);
      }
    }
  }

  lemma {:induction false} ColumnAfter(i: nat, n: nat, key: seq<byte>, s: seq<byte>, t: seq<byte>, d: nat)
    requires n > 0 && |key| > 0 && d <= |s| == |t| && s[d..] == t[d..]
    ensures Column(i, n, key, s, d) == Column(i, n, key, t, d)
    decreases |s| - d
  {
    if d < |s| {
      assert s[d] == s[d..][0] == t[d..][0] == t[d];
      assert s[d + 1..] == s[d..][1..] == t[d..][1..] == t[d + 1..];
      ColumnAfter(i, n, key, s, t, d + 1);
    }
  }

  /** The bytes of the ICV, column by column over both stretches. */
  lemma IcvColumn(key: seq<byte>, icvlen: nat, data1: seq<byte>, data2: seq<byte>, i: nat)
    requires i < icvlen && |key| > 0
    ensures Icv(key, icvlen, data1, data2)[i]
      == Xor(Xor(0, Column(i, icvlen, key, data1, 0)), Column(i, icvlen, key, data2, 0))
  {
    hide Xor;
    AbsorbColumn(Zeros(icvlen), key, data1, 0, i);
    AbsorbColumn(Absorb(Zeros(icvlen), key, data1, 0), key, data2, 0, i);
  }

  /** Exclusive or with the same byte tells different bytes apart. */
  lemma XorIsInjective(a: byte, b: byte, c: byte)
    ensures Xor(a, c) == Xor(b, c) <==> a == b
    ensures Xor(c, a) == Xor(c, b) <==> a == b
  {
    hide Xor;
    XorUndoes(a, c);
    XorUndoes(b, c);
    XorCommutes(a, c);
    XorCommutes(b, c);
  }

  /** After one byte of either stretch is replaced the ICV is the same exactly when the byte is. */
  lemma IcvDetects(key: seq<byte>, icvlen: nat, data1: seq<byte>, data2: seq<byte>, at: nat, b: byte)
    requires icvlen > 0 && |key| > 0
    ensures at < |data1| ==>
      (Icv(key, icvlen, data1[at := b], data2) == Icv(key, icvlen, data1, data2) <==> b == data1[at])
    ensures at < |data2| ==>
      (Icv(key, icvlen, data1, data2[at := b]) == Icv(key, icvlen, data1, data2) <==> b == data2[at])
  {
    if at < |data1| {
      FirstDetects(key, icvlen, data1, data2, at, b);
    }
    if at < |data2| {
      SecondDetects(key, icvlen, data1, data2, at, b);
    }
  }

  lemma FirstDetects(key: seq<byte>, icvlen: nat, data1: seq<byte>, data2: seq<byte>, at: nat, b: byte)
    requires icvlen > 0 && |key| > 0 && at < |data1|
    ensures Icv(key, icvlen, data1[at := b], data2) == Icv(key, icvlen, data1, data2) <==> b == data1[at]
  {
    hide Xor, Icv, Column;
    var t, i := data1[at := b], at % icvlen;
    if b == data1[at] {
      assert t == data1;
    } else {
      IcvColumn(key, icvlen, data1, data2, i);
      IcvColumn(key, icvlen, t, data2, i);
      ColumnDetects(icvlen, key, data1, at, b, 0);
      var c, c' := Column(i, icvlen, key, data1, 0), Column(i, icvlen, key, t, 0);
      XorIsInjective(c, c', 0);
      XorIsInjective(Xor(0, c), Xor(0, c'), Column(i, icvlen, key, data2, 0));
    }
  }

  lemma SecondDetects(key: seq<byte>, icvlen: nat, data1: seq<byte>, data2: seq<byte>, at: nat, b: byte)
    requires icvlen > 0 && |key| > 0 && at < |data2|
    ensures Icv(key, icvlen, data1, data2[at := b]) == Icv(key, icvlen, data1, data2) <==> b == data2[at]
  {
    hide Xor, Icv, Column;
    var t, i := data2[at := b], at % icvlen;
    if b == data2[at] {
      assert t == data2;
    } else {
      IcvColumn(key, icvlen, data1, data2, i);
      IcvColumn(key, icvlen, data1, t, i);
      ColumnDetects(icvlen, key, data2, at, b, 0);
      XorIsInjective(Column(i, icvlen, key, data2, 0), Column(i, icvlen, key, t, 0), Xor(0, Column(i, icvlen, key, data1, 0)));
    }
  }

  // ----- bit by bit

  /** How often bit k is set in the data that meets column i of the ICV, and in the key bytes that
  meet that data. */
  function SetBits(i: nat, n: nat, key: seq<byte>, data: seq<byte>, d: nat, k: nat): nat
    requires n > 0 && |key| > 0 && d <= |data|
    decreases |data| - d
  {
    if d == |data| then 0
    else (if d % n == i then BitAt(key[d % |key|], k) + BitAt(data[d], k) else 0) + SetBits(i, n, key, data, d + 1, k)
  }

  lemma ParityOfXor(a: byte, b: byte, k: nat)
    requires k < 8
    ensures BitAt(Xor(a, b), k) == (BitAt(a, k) + BitAt(b, k)) % 2
  {
    XorBitAt(a, b, 8, k);
  }

  lemma ParityAdds(x: nat, y: nat, z: nat, w: nat)
    requires z == (x + y) % 2
    ensures (z + w % 2) % 2 == (x + y + w) % 2
  {
  }

  lemma {:induction false} ColumnParity(i: nat, n: nat, key: seq<byte>, data: seq<byte>, d: nat, k: nat)
    requires n > 0 && |key| > 0 && d <= |data| && k < 8
    ensures BitAt(Column(i, n, key, data, d), k) == SetBits(i, n, key, data, d, k) % 2
    decreases |data| - d
  {
    hide Xor, BitAt;
    if d == |data| {
      NoBits(k);
    } else {
      ColumnParity(i, n, key, data, d + 1, k);
      if d % n == i {
        var x, y, c := key[d % |key|], data[d], Column(i, n, key, data, d + 1);
        ParityOfXor(x, y, k);
        ParityOfXor(Xor(x, y), c, k);
        ParityAdds(BitAt(x, k), BitAt(y, k), BitAt(Xor(x, y), k), SetBits(i, n, key, data, d + 1, k));
      }
    }
  }

  lemma {:induction false} NoBits(k: nat)
    ensures BitAt(0, k) == 0
  {
    if k > 0 {
      NoBits(k - 1);
    }
  }

  /** Each bit of the ICV is the parity of the bits it takes up: those of the data whose position has
  the same remainder, and of the key as it is repeated along each stretch. */
  lemma IcvIsParity(key: seq<byte>, icvlen: nat, data1: seq<byte>, data2: seq<byte>, i: nat, k: nat)
    requires i < icvlen && |key| > 0 && k < 8
    ensures BitAt(Icv(key, icvlen, data1, data2)[i], k)
      == (SetBits(i, icvlen, key, data1, 0, k) + SetBits(i, icvlen, key, data2, 0, k)) % 2
  {
    hide Xor, BitAt, Icv, Column, SetBits;
    IcvColumn(key, icvlen, data1, data2, i);
    var a, b := Column(i, icvlen, key, data1, 0), Column(i, icvlen, key, data2, 0);
    ColumnParity(i, icvlen, key, data1, 0, k);
    ColumnParity(i, icvlen, key, data2, 0, k);
    NoBits(k);
    ParityOfXor(0, a, k);
    ParityOfXor(Xor(0, a), b, k);
  }

  /** One of the two loops of xoricv. */
  method AbsorbInPlace(key: seq<byte>, buf: array<byte>, icv: nat, icvlen: nat, data: nat, datalen: nat)
    requires |key| > 0 && icvlen > 0 && icv + icvlen <= buf.Length && data + datalen <= icv
    modifies buf
    ensures buf[..] == Poke(old(buf[..]), icv,
      Absorb(old(buf[icv..icv + icvlen]), key, old(buf[data..data + datalen]), 0))
  {
    hide Xor;
    ghost var was, bytes := buf[..], buf[data..data + datalen];
    ghost var result := Absorb(buf[icv..icv + icvlen], key, bytes, 0);
    var d, k, i := 0, 0, 0;
    while d < datalen
      invariant 0 <= d <= datalen && k == d % |key| && i == d % icvlen
      invariant buf[..icv] == was[..icv] && buf[icv + icvlen..] == was[icv + icvlen..]
      invariant Absorb(buf[icv..icv + icvlen], key, bytes, d) == result
    {
      ghost var before := buf[icv..icv + icvlen];
      assert buf[data + d] == buf[..icv][data + d] == bytes[d];
      buf[icv + i] := Xor(buf[icv + i], Xor(key[k], buf[data + d]));
      assert buf[icv..icv + icvlen] == before[i := Xor(before[i], Xor(key[k], bytes[d]))];
      NextIndex(d, |key|);
      NextIndex(d, icvlen);
      d, k, i := d + 1, (k + 1) % |key|, (i + 1) % icvlen;
    }
    assert buf[..] == buf[..icv] + buf[icv..icv + icvlen] + buf[icv + icvlen..];
  }

  /** xoricv: the ICV lies behind the data it covers. */
  method ComputeIcv(key: seq<byte>, buf: array<byte>, icv: nat, icvlen: nat,
                    data1: nat, data1len: nat, data2: nat, data2len: nat)
    requires |key| > 0 && icvlen > 0 && icv + icvlen <= buf.Length
    requires data1 + data1len <= icv && data2 + data2len <= icv
    modifies buf
    ensures buf[..] == Poke(old(buf[..]), icv,
      Icv(key, icvlen, old(buf[data1..data1 + data1len]), old(buf[data2..data2 + data2len])))
  {
    ghost var was := buf[..];
    ghost var one, two := buf[data1..data1 + data1len], buf[data2..data2 + data2len];
    Put(buf, icv, Zeros(icvlen));
    KeepsFront(buf[..], was, icv, Zeros(icvlen), data1, data1len);
    PokedPart(buf[..], was, icv, Zeros(icvlen));
    AbsorbInPlace(key, buf, icv, icvlen, data1, data1len);
    ghost var middle := Absorb(Zeros(icvlen), key, one, 0);
    PokeTwice(was, icv, Zeros(icvlen), middle);
    KeepsFront(buf[..], was, icv, middle, data2, data2len);
    PokedPart(buf[..], was, icv, middle);
    AbsorbInPlace(key, buf, icv, icvlen, data2, data2len);
    PokeTwice(was, icv, middle, Absorb(middle, key, two, 0));
  }

  lemma KeepsFront(s: seq<byte>, was: seq<byte>, at: nat, t: seq<byte>, from: nat, n: nat)
    requires at + |t| <= |was| && s == Poke(was, at, t) && from + n <= at
    ensures s[from..from + n] == was[from..from + n]
  {
  }

  lemma PokedPart(s: seq<byte>, was: seq<byte>, at: nat, t: seq<byte>)
    requires at + |t| <= |was| && s == Poke(was, at, t)
    ensures s[at..at + |t|] == t
  {
  }

  lemma PokeTwice(s: seq<byte>, at: nat, t: seq<byte>, u: seq<byte>)
    requires at + |t| <= |s| && |t| == |u|
    ensures Poke(Poke(s, at, t), at, u) == Poke(s, at, u)
  {
  }
}
