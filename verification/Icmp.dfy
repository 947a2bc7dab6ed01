/** icmp.c: the ICMP and ICMPv6 header. */
module Icmp {
  import opened Bytes
  import opened Csum
  import opened Headers
  import opened SendipModule
  import opened Transport

  const ICMP_MOD_TYPE: bv32 := 1
  const ICMP_MOD_CHECK: bv32 := 4

  const IPPROTO_ICMP: byte := 1
  const IPPROTO_ICMPV6: byte := 58
  const ICMP_ECHO: byte := 8
  const ICMP6_ECHO_REQUEST: byte := 128

  /** ICMP has no pseudo header; ICMPv6 has that of icmp6csum. */
  function Pseudo(kind: char, ip: seq<byte>, length: nat): (p: seq<byte>)
    requires |ip| >= (if kind == 'i' then 20 else 40)
    ensures |p| == if kind == '6' then 40 else 0
  {
    if kind == '6' then ip[8..40] + Be32(length) + [0, 0, 0, IPPROTO_ICMPV6] else []
  }

  function DefaultType(kind: char): byte
  {
    if kind == '6' then ICMP6_ECHO_REQUEST else ICMP_ECHO
  }

  /** The header finalize leaves. */
  function Finalized(h: seq<byte>, modified: bv32, kind: char, ip: seq<byte>, inside: seq<byte>): (r: seq<byte>)
    requires |ip| >= (if kind == 'i' then 20 else 40) && |h| >= 4
    ensures |r| == |h|
  {
    var f := Unless(Has(modified, ICMP_MOD_TYPE), h, 0, [DefaultType(kind)]);
    if Has(modified, ICMP_MOD_CHECK) then f
    else Checked(f, 2, Pseudo(kind, ip, |h| + |inside|), inside)
  }

  /** The default type and the checksum, for a header h that stands in the buffer `before`. */
  method Fill(kind: char, pseudo: seq<byte>, data: SendipData, pack: SendipData, ghost before: seq<byte>, ghost h: seq<byte>, ghost inside: seq<byte>)
    requires pack.data == data.data && data.Within() && pack.start + pack.allocLen == data.start
    requires |pseudo| <= 40 && pack.allocLen + data.allocLen + 40 <= INT_MAX
    requires |h| == pack.allocLen >= 4 && |before| == pack.data.Length && pack.data[..] == Poke(before, pack.start, h)
    requires inside == before[data.start..data.start + data.allocLen]
    modifies pack.data
    ensures var f := Unless(Has(pack.modified, ICMP_MOD_TYPE), h, 0, [DefaultType(kind)]);
      pack.data[..] == Poke(before, pack.start, if Has(pack.modified, ICMP_MOD_CHECK) then f else Checked(f, 2, pseudo, inside))
  {
    hide Poke, Unless, Has, Checked, DefaultType;
    ghost var f := AssignUnless(Has(pack.modified, ICMP_MOD_TYPE), pack.data, pack.start, 0, [DefaultType(kind)], before, h);
    if !Has(pack.modified, ICMP_MOD_CHECK) {
      StoreChecksum(pseudo, pack, data, 2, before, f, inside);
    }
  }

  method Finalize(hdrs: string, headers: seq<SendipData>, index: nat, data: SendipData, pack: SendipData)
    returns (ok: bool)
    requires Enclosed(hdrs, headers, index, data, pack) && pack.allocLen >= 4
    modifies pack.data, Enclosing(hdrs, headers, index)`modified
    ensures ok
    ensures var ip, kind := Enclosing(hdrs, headers, index), hdrs[Outer(hdrs, index, "i6")];
      var flags := old(Enclosing(hdrs, headers, index).modified);
      var before := ClaimedBuffer(kind, flags, old(pack.data[..]), ip.start, IPPROTO_ICMP);
      && ip.modified == ClaimedFlags(kind, flags)
      && pack.data[..] == Poke(before, pack.start, Finalized(old(pack.Contents()), pack.modified, kind,
           before[ip.start..ip.start + ip.allocLen], old(data.Contents())))
  {
    hide Poke, Unless, Has, Checked, ClaimedBuffer, ClaimedFlags, DefaultType, Pseudo, Outer;
    var icmp, at, len := pack.data, pack.start, pack.allocLen;
    ghost var was, h, inside := icmp[..], pack.Contents(), data.Contents();
    PokeSame(was, at, len);
    ghost var before;
    var i;
    i, before := ClaimEnclosing(hdrs, headers, index, data, pack, IPPROTO_ICMP, was, h);
    var ip, kind := headers[i], hdrs[i];
    var pseudo := Pseudo(kind, icmp[ip.start..ip.start + ip.allocLen], len + data.allocLen);
    Fill(kind, pseudo, data, pack, before, h, inside);
    ok := true;
  }
}
