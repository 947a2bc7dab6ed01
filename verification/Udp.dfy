/** udp.c: the UDP header. */
module Udp {
  import opened Bytes
  import opened Headers
  import opened SendipModule
  import opened Transport

  const UDP_MOD_LEN: bv32 := 4
  const UDP_MOD_CHECK: bv32 := 8

  const IPPROTO_UDP: byte := 17

  /** The pseudo header udpcsum and udp6csum build from the enclosing header `ip` and the UDP
  header h. Over IPv6 the 16-bit UDP length lands in the upper half of the 32-bit length. */
  function Pseudo(kind: char, ip: seq<byte>, h: seq<byte>, length: nat): (p: seq<byte>)
    requires |ip| >= (if kind == 'i' then 20 else 40) && |h| >= 8
    ensures |p| == if kind == 'i' then 12 else 40
  {
    if kind == 'i' then ip[12..20] + [0, ip[9]] + Be16(length)
    else ip[8..40] + h[4..6] + [0, 0] + [0, 0, 0, IPPROTO_UDP]
  }

  /** The header finalize leaves, `ip` being the enclosing header after the claim. */
  function Finalized(h: seq<byte>, modified: bv32, kind: char, ip: seq<byte>, inside: seq<byte>): (r: seq<byte>)
    requires |ip| >= (if kind == 'i' then 20 else 40) && |h| >= 8
    ensures |r| == |h|
  {
    var f := Unless(Has(modified, UDP_MOD_LEN), h, 4, Be16(|h| + |inside|));
    if Has(modified, UDP_MOD_CHECK) then f
    else Checked(f, 6, Pseudo(kind, ip, f, |h| + |inside|), inside)
  }

  /** The length of header and data, for a header of `len` bytes at `at`. */
  method FillLength(udp: array<byte>, at: nat, len: nat, modified: bv32, inside: nat) returns (ghost f: seq<byte>)
    requires len >= 8 && at + len <= udp.Length
    modifies udp
    ensures f == Unless(Has(modified, UDP_MOD_LEN), old(udp[at..at + len]), 4, Be16(len + inside))
    ensures udp[..] == Poke(old(udp[..]), at, f)
  {
    hide Poke, Unless, Has, Be16;
    ghost var was, h := udp[..], udp[at..at + len];
    PokeSame(was, at, len);
    f := AssignUnless(Has(modified, UDP_MOD_LEN), udp, at, 4, Be16(len + inside), was, h);
  }

  method Finalize(hdrs: string, headers: seq<SendipData>, index: nat, data: SendipData, pack: SendipData)
    returns (ok: bool)
    requires Enclosed(hdrs, headers, index, data, pack) && pack.allocLen >= 8
    modifies pack.data, Enclosing(hdrs, headers, index)`modified
    ensures ok
    ensures var ip, kind := Enclosing(hdrs, headers, index), hdrs[Outer(hdrs, index, "i6")];
      var flags := old(Enclosing(hdrs, headers, index).modified);
      var before := ClaimedBuffer(kind, flags, old(pack.data[..]), ip.start, IPPROTO_UDP);
      && ip.modified == ClaimedFlags(kind, flags)
      && pack.data[..] == Poke(before, pack.start, Finalized(old(pack.Contents()), pack.modified, kind,
           before[ip.start..ip.start + ip.allocLen], old(data.Contents())))
  {
    hide Poke, Unless, Has, Be16, Checked, ClaimedBuffer, ClaimedFlags, Pseudo, Outer;
    var udp, at, len, modified := pack.data, pack.start, pack.allocLen, pack.modified;
    ghost var was, inside := udp[..], data.Contents();
    ghost var h := FillLength(udp, at, len, modified, data.allocLen);
    ghost var before;
    var i;
    i, before := ClaimEnclosing(hdrs, headers, index, data, pack, IPPROTO_UDP, was, h);
    if !Has(modified, UDP_MOD_CHECK) {
      var ip := headers[i];
      var pseudo := Pseudo(hdrs[i], udp[ip.start..ip.start + ip.allocLen], udp[at..at + len], len + data.allocLen);
      StoreChecksum(pseudo, pack, data, 6, before, h, inside);
    }
    ok := true;
  }
}
