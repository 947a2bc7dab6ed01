/** gre.c: the GRE header. */
module Gre {
  import opened Bytes
  import opened Csum
  import opened Headers
  import opened SendipModule

  const GRE_MOD_CHECKSUM: bv32 := 1
  const GRE_MOD_PROTOCOL: bv32 := 128

  /** The flags of the first byte that announce optional fields. */
  const GRE_CSUM: nat := 0x80
  const GRE_ROUTING: nat := 0x40
  const GRE_KEY: nat := 0x20
  const GRE_SEQ: nat := 0x10

  predicate Flag(b: byte, flag: nat)
    requires flag > 0
  {
    b / flag % 2 == 1
  }

  // ----- finalize

  /** The Ethernet protocol of the first IP header inside, if there is one. */
  function WithProtocol(h: seq<byte>, given: bool, innerIp: char): (r: seq<byte>)
    requires |h| >= 8
    ensures |r| == |h|
  {
    Unless(given || innerIp !in "i6", h, 2, if innerIp == 'i' then Be16(0x0800) else Be16(0x86DD))
  }

  /** The header finalize leaves: an automatic checksum covers the header as it stands and the data. */
  function Finalized(h: seq<byte>, modified: bv32, innerIp: char, inside: seq<byte>): (r: seq<byte>)
    requires |h| >= 8
    ensures |r| == |h|
  {
    var f := WithProtocol(h, Has(modified, GRE_MOD_PROTOCOL), innerIp);
    Unless(!Flag(f[0], GRE_CSUM) || Has(modified, GRE_MOD_CHECKSUM), f, 4, Le16(CoveredChecksum(f, inside)))
  }

  /** csumv of the header and the data. */
  function CoveredChecksum(f: seq<byte>, inside: seq<byte>): word
  {
    VectorChecksum(f + inside, [Span(0, |f|), Span(|f|, |inside|), Span(0, 0)])
  }

  /** csumv looks at the blocks only, wherever they lie. */
  lemma {:induction false} SameBlocks(mem: seq<byte>, v: seq<Span>, mem': seq<byte>, v': seq<Span>)
    requires |v| == |v'|
    requires forall k :: 0 <= k < |v| ==> v[k].len == v'[k].len && BytesOf(mem, v[k]) == BytesOf(mem', v'[k])
    ensures VectorSum(mem, v) == VectorSum(mem', v')
  {
    if |v| > 0 {
      SameBlocks(mem, v[1..], mem', v'[1..]);
    }
  }

  lemma TwoBlocks(mem: seq<byte>, start: nat, len: nat, inside: nat)
    requires start + len + inside <= |mem|
    ensures VectorChecksum(mem, [Span(start, len), Span(start + len, inside), Span(0, 0)])
      == CoveredChecksum(mem[start..start + len], mem[start + len..start + len + inside])
  {
    var v := [Span(start, len), Span(start + len, inside), Span(0, 0)];
    var f, w := mem[start..start + len], mem[start + len..start + len + inside];
    var v' := [Span(0, |f|), Span(|f|, |w|), Span(0, 0)];
    assert BytesOf(f + w, v'[0]) == f && BytesOf(f + w, v'[1]) == w;
    SameBlocks(mem, v, f + w, v');
  }

  method ChecksumOver(mem: array<byte>, start: nat, len: nat, inside: nat) returns (c: word)
    requires start + len + inside <= mem.Length && len + inside <= INT_MAX
    ensures c == CoveredChecksum(mem[start..start + len], mem[start + len..start + len + inside])
  {
    hide CoveredChecksum, VectorChecksum;
    var vec, lens := new nat[3], new nat[3];
    vec[0], vec[1], vec[2] := start, start + len, 0;
    lens[0], lens[1], lens[2] := len, inside, 0;
    ghost var v := [Span(start, len), Span(start + len, inside), Span(0, 0)];
    assert v[2].len == 0;
    TotalOfThree(v);
    TwoBlocks(mem[..], start, len, inside);
    c := ChecksumVector(mem, vec, lens, v);
  }

  lemma TotalOfThree(v: seq<Span>)
    requires |v| == 3
    ensures TotalLength(v) == v[0].len + v[1].len + v[2].len
  {
    assert v[1..] == [v[1], v[2]] && [v[1], v[2]][1..] == [v[2]] && [v[2]][1..] == [];
    assert TotalLength([v[2]]) == v[2].len;
    assert TotalLength([v[1], v[2]]) == v[1].len + v[2].len;
  }

  method FillProtocol(given: bool, innerIp: char, gre: array<byte>, at: nat, ghost before: seq<byte>, ghost h: seq<byte>)
    returns (ghost after: seq<byte>)
    requires |before| == gre.Length && at + |h| <= gre.Length && |h| >= 8 && gre[..] == Poke(before, at, h)
    modifies gre
    ensures after == WithProtocol(h, given, innerIp) && gre[..] == Poke(before, at, after)
  {
    hide Poke, Be16;
    after := AssignUnless(given || innerIp !in "i6", gre, at, 2, if innerIp == 'i' then Be16(0x0800) else Be16(0x86DD), before, h);
  }

  method FillChecksum(given: bool, gre: array<byte>, at: nat, len: nat, inside: nat, ghost before: seq<byte>, ghost f: seq<byte>)
    requires |before| == gre.Length && |f| == len >= 8 && at + len + inside <= gre.Length && gre[..] == Poke(before, at, f)
    requires len + inside <= INT_MAX
    modifies gre
    ensures gre[..] == Poke(before, at,
      Unless(!Flag(f[0], GRE_CSUM) || given, f, 4, Le16(CoveredChecksum(f, before[at + len..at + len + inside]))))
  {
    hide Poke, Flag, CoveredChecksum, Le16;
    FieldAt(gre[..], before, at, f, 0);
    if Flag(gre[at], GRE_CSUM) && !given {
      PokedAround(gre[..], before, at, f, inside);
      var c := ChecksumOver(gre, at, len, inside);
      Assign(gre, at, 4, Le16(c), before, f);
    }
  }

  method Finalize(hdrs: string, index: nat, data: SendipData, pack: SendipData) returns (ok: bool)
    requires '\0' !in hdrs && pack.data == data.data && data.Within()
    requires pack.start + pack.allocLen == data.start && pack.allocLen >= 8
    requires pack.allocLen + data.allocLen <= INT_MAX
    modifies pack.data
    ensures ok
    ensures pack.data[..] == Poke(old(pack.data[..]), pack.start,
      Finalized(old(pack.Contents()), pack.modified, CharAt(hdrs, Inner(hdrs, index, "i6")), old(data.Contents())))
  {
    hide Poke, Has, CharAt, Inner, Flag, CoveredChecksum, Le16, WithProtocol, Unless;
    var gre, at, len, modified := pack.data, pack.start, pack.allocLen, pack.modified;
    ghost var before, h := gre[..], pack.Contents();
    PokeSame(before, at, len);
    var i := InnerHeader(hdrs, index, "i6");
    h := FillProtocol(Has(modified, GRE_MOD_PROTOCOL), CharAt(hdrs, i), gre, at, before, h);
    FillChecksum(Has(modified, GRE_MOD_CHECKSUM), gre, at, len, data.allocLen, before, h);
    ok := true;
  }

  lemma PokedAround(s: seq<byte>, before: seq<byte>, at: nat, h: seq<byte>, n: nat)
    requires at + |h| + n <= |before| && s == Poke(before, at, h)
    ensures s[at..at + |h|] == h
    ensures s[at + |h|..at + |h| + n] == before[at + |h|..at + |h| + n]
  {
  }

  lemma CoveredIsChecksum(f: seq<byte>, inside: seq<byte>)
    requires |f| > 0 && |f| % 2 == 0
    ensures CoveredChecksum(f, inside) == Checksum(f + inside)
  {
    hide Checksum;
    var mem := f + inside;
    var v := [Span(0, |f|), Span(|f|, |inside|), Span(0, 0)];
    assert v[1..] == [Span(|f|, |inside|), Span(0, 0)] && v[1..][1..] == [Span(0, 0)];
    assert BytesOf(mem, v[0]) == f && BytesOf(mem, v[1]) == inside;
    assert Blocks(v[1..][1..]) == [];
    assert Blocks(v[1..]) == if |inside| == 0 then [] else [v[1]];
    assert Blocks(v) == if |inside| == 0 then [v[0]] else [v[0], v[1]];
    VectorIsConcatenation(mem, v);
    if |inside| == 0 {
      assert Concat(mem, [v[0]]) == f + Concat(mem, []);
    } else {
      assert [v[0], v[1]][1..] == [v[1]] && [v[1]][1..] == [];
      assert Concat(mem, [v[1]]) == inside + Concat(mem, []);
      assert Concat(mem, [v[0], v[1]]) == f + Concat(mem, [v[1]]);
    }
    assert Concat(mem, Blocks(v)) == mem;
  }

  /** An automatic checksum verifies over header and data exactly if its field was zero before, or
  all ones: csumv covers the field too. */
  lemma AutoChecksumVerifiesIff(h: seq<byte>, modified: bv32, innerIp: char, inside: seq<byte>)
    requires |h| >= 8 && |h| % 2 == 0
    requires Flag(h[0], GRE_CSUM) && !Has(modified, GRE_MOD_CHECKSUM)
    ensures Checksum(Finalized(h, modified, innerIp, inside) + inside) == 0
      <==> (h[4] == 0 && h[5] == 0) || (h[4] == 0xFF && h[5] == 0xFF)
  {
    FlagIsThere(h[0]);
    ProtocolApart(h, Has(modified, GRE_MOD_PROTOCOL), innerIp);
    hide Checksum, CoveredChecksum, Has, Flag, Be16, Le16, WithProtocol, Poke;
    var f := WithProtocol(h, Has(modified, GRE_MOD_PROTOCOL), innerIp);
    CoveredIsChecksum(f, inside);
    OverwrittenVerifiesIff(f + inside, 4);
    PokedInFront(f, 4, Le16(Checksum(f + inside)), inside);
  }

  lemma ProtocolApart(h: seq<byte>, given: bool, innerIp: char)
    requires |h| >= 8
    ensures var f := WithProtocol(h, given, innerIp); f[0] == h[0] && f[4] == h[4] && f[5] == h[5]
  {
    hide Be16;
  }

  lemma PokedInFront(f: seq<byte>, at: nat, v: seq<byte>, inside: seq<byte>)
    requires at + |v| <= |f|
    ensures Poke(f + inside, at, v) == Poke(f, at, v) + inside
  {
  }

  lemma FlagIsThere(b: byte)
    ensures Flag(b, GRE_CSUM) ==> b > 0
  {
  }

  /** An automatic checksum verifies over header and data, if its field was zero before: csumv
  covers the field too. */
  lemma AutoChecksumVerifies(h: seq<byte>, modified: bv32, innerIp: char, inside: seq<byte>)
    requires |h| >= 8 && |h| % 2 == 0 && h[4] == 0 && h[5] == 0
    requires Flag(h[0], GRE_CSUM) && !Has(modified, GRE_MOD_CHECKSUM)
    ensures Checksum(Finalized(h, modified, innerIp, inside) + inside) == 0
  {
    hide Checksum, Finalized, Has, Flag;
    AutoChecksumVerifiesIff(h, modified, innerIp, inside);
  }
}
