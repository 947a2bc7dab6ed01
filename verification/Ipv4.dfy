/** ipv4.c: the IPv4 header. */
module Ipv4 {
  import opened Bytes
  import opened Csum
  import opened Headers
  import opened SendipModule

  const IP_MOD_HEADERLEN: bv32 := 1
  const IP_MOD_VERSION: bv32 := 2
  const IP_MOD_TOTLEN: bv32 := 8
  const IP_MOD_ID: bv32 := 16
  const IP_MOD_TTL: bv32 := 512
  const IP_MOD_PROTOCOL: bv32 := 1024
  const IP_MOD_CHECK: bv32 := 2048

  /** Every field but the checksum and the protocol filled in. */
  function Filled(h: seq<byte>, modified: bv32, inside: nat, rand: nat): (r: seq<byte>)
    requires |h| >= 20
    ensures |r| == |h|
  {
    var h1 := Unless(Has(modified, IP_MOD_VERSION), h, 0, [Nibbles(4, h[0])]);
    var h2 := Unless(Has(modified, IP_MOD_HEADERLEN), h1, 0, [Nibbles(h1[0] / 16, (|h| + 3) / 4)]);
    var h3 := Unless(Has(modified, IP_MOD_TOTLEN), h2, 2, Be16(|h| + inside));
    var h4 := Unless(Has(modified, IP_MOD_ID), h3, 4, Le16(rand));
    Unless(Has(modified, IP_MOD_TTL), h4, 8, [255])
  }

  /** ipcsum */
  function WithChecksum(h: seq<byte>): (r: seq<byte>)
    requires |h| >= 20
    ensures |r| == |h|
  {
    var z := Poke(h, 10, [0, 0]);
    Poke(z, 10, Le16(Checksum(z)))
  }

  /** The header finalize leaves. The checksum is taken before a missing protocol is filled in. */
  function Finalized(h: seq<byte>, modified: bv32, next: char, inside: nat, rand: nat): (r: seq<byte>)
    requires |h| >= 20
    ensures |r| == |h|
  {
    var f := Filled(h, modified, inside, rand);
    var c := if Has(modified, IP_MOD_CHECK) then f else WithChecksum(f);
    Unless(Has(modified, IP_MOD_PROTOCOL), c, 9, [ProtocolOf(next)])
  }

  method Ipcsum(pack: SendipData, ghost before: seq<byte>, ghost h: seq<byte>)
    requires pack.Within() && pack.allocLen == |h| <= INT_MAX && |h| >= 20 && |before| == pack.data.Length
    requires pack.data[..] == Poke(before, pack.start, h)
    modifies pack.data
    ensures pack.data[..] == Poke(before, pack.start, WithChecksum(h))
  {
    Assign(pack.data, pack.start, 10, [0, 0], before, h);
    ghost var z := Poke(h, 10, [0, 0]);
    PokedSlice(before, pack.start, z);
    assert pack.data[pack.start..pack.start + pack.allocLen] == pack.data[..][pack.start..pack.start + pack.allocLen];
    var c := ChecksumBlock(pack.data, pack.start, pack.allocLen);
    Assign(pack.data, pack.start, 10, Le16(c), before, z);
  }

  method Finalize(hdrs: string, index: nat, data: SendipData, pack: SendipData, rand: nat) returns (ok: bool)
    requires pack.Within() && 20 <= pack.allocLen <= INT_MAX
    modifies pack.data
    ensures ok
    ensures pack.data[..] == Poke(old(pack.data[..]), pack.start,
      Finalized(old(pack.Contents()), pack.modified, CharAt(hdrs, index + 1), data.allocLen, rand))
  {
    hide Poke, Unless, WithChecksum, Has, Be16, Le16, Nibbles;
    var iph, at, len, modified := pack.data, pack.start, pack.allocLen, pack.modified;
    ghost var before, h := iph[..], pack.Contents();
    PokeSame(before, at, len);
    FieldAt(iph[..], before, at, h, 0);
    h := AssignUnless(Has(modified, IP_MOD_VERSION), iph, at, 0, [Nibbles(4, iph[at])], before, h);
    FieldAt(iph[..], before, at, h, 0);
    h := AssignUnless(Has(modified, IP_MOD_HEADERLEN), iph, at, 0, [Nibbles(iph[at] / 16, (len + 3) / 4)], before, h);
    h := AssignUnless(Has(modified, IP_MOD_TOTLEN), iph, at, 2, Be16(len + data.allocLen), before, h);
    h := AssignUnless(Has(modified, IP_MOD_ID), iph, at, 4, Le16(rand), before, h);
    h := AssignUnless(Has(modified, IP_MOD_TTL), iph, at, 8, [255], before, h);
    if !Has(modified, IP_MOD_CHECK) {
      Ipcsum(pack, before, h);
      h := WithChecksum(h);
    }
    var p := HeaderType(CharAt(hdrs, index + 1));
    h := AssignUnless(Has(modified, IP_MOD_PROTOCOL), iph, at, 9, [p], before, h);
    ok := true;
  }
}
