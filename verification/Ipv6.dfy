/** ipv6.c: the IPv6 header. */
module Ipv6 {
  import opened Bytes
  import opened Headers
  import opened SendipModule

  const IPV6_MOD_VERSION: bv32 := 2
  const IPV6_MOD_PLEN: bv32 := 8
  const IPV6_MOD_HLIM: bv32 := 16
  const IPV6_MOD_NXT: bv32 := 32

  /** The header finalize leaves. */
  function Finalized(h: seq<byte>, modified: bv32, next: char, inside: nat): (r: seq<byte>)
    requires |h| >= 40
    ensures |r| == |h|
  {
    var h1 := Unless(Has(modified, IPV6_MOD_VERSION), h, 0, [Nibbles(6, h[0])]);
    var h2 := Unless(Has(modified, IPV6_MOD_PLEN), h1, 4, Be16(inside));
    var h3 := Unless(Has(modified, IPV6_MOD_NXT), h2, 6, [ProtocolOf(next)]);
    Unless(Has(modified, IPV6_MOD_HLIM), h3, 7, [32])
  }

  method Finalize(hdrs: string, index: nat, data: SendipData, pack: SendipData) returns (ok: bool)
    requires pack.Within() && pack.allocLen >= 40
    modifies pack.data
    ensures ok
    ensures pack.data[..] == Poke(old(pack.data[..]), pack.start,
      Finalized(old(pack.Contents()), pack.modified, CharAt(hdrs, index + 1), data.allocLen))
  {
    hide Poke, Unless, Has, Be16, Nibbles;
    var ipv6, at, modified := pack.data, pack.start, pack.modified;
    ghost var before, h := ipv6[..], pack.Contents();
    PokeSame(before, at, pack.allocLen);
    FieldAt(ipv6[..], before, at, h, 0);
    h := AssignUnless(Has(modified, IPV6_MOD_VERSION), ipv6, at, 0, [Nibbles(6, ipv6[at])], before, h);
    h := AssignUnless(Has(modified, IPV6_MOD_PLEN), ipv6, at, 4, Be16(data.allocLen), before, h);
    var p := HeaderType(CharAt(hdrs, index + 1));
    h := AssignUnless(Has(modified, IPV6_MOD_NXT), ipv6, at, 6, [p], before, h);
    h := AssignUnless(Has(modified, IPV6_MOD_HLIM), ipv6, at, 7, [32], before, h);
    ok := true;
  }
}
