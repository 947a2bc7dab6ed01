/** tcp.c: the TCP header. */
module Tcp {
  import opened Bytes
  import opened Headers
  import opened SendipModule
  import opened Transport

  const TCP_MOD_SEQ: bv32 := 4
  const TCP_MOD_OFF: bv32 := 32
  const TCP_MOD_SYN: bv32 := 128
  const TCP_MOD_WINDOW: bv32 := 0x4000
  const TCP_MOD_CHECK: bv32 := 0x8000

  const IPPROTO_TCP: byte := 6

  /** The pseudo header of tcpcsum and tcp6csum. Over IPv6 the source puts the protocol number
  into the length field, in host order, and no next header. */
  function Pseudo(kind: char, ip: seq<byte>, length: nat): (p: seq<byte>)
    requires |ip| >= (if kind == 'i' then 20 else 40)
    ensures |p| == if kind == 'i' then 12 else 40
  {
    if kind == 'i' then ip[12..20] + [0, ip[9]] + Be16(length)
    else ip[8..40] + Le32(IPPROTO_TCP) + Zeros(4)
  }

  /** b with bit 1, the SYN flag, set. */
  function WithSyn(b: byte): byte
  {
    if b / 2 % 2 == 1 then b else b + 2
  }

  /** Every field but the checksum filled in. */
  function Filled(h: seq<byte>, modified: bv32, rand: nat): (r: seq<byte>)
    requires |h| >= 20
    ensures |r| == |h|
  {
    var h1 := Unless(Has(modified, TCP_MOD_SEQ), h, 4, Le32(rand));
    var h2 := Unless(Has(modified, TCP_MOD_OFF), h1, 12, [Nibbles((|h| + 3) / 4, h1[12])]);
    var h3 := Unless(Has(modified, TCP_MOD_SYN), h2, 13, [WithSyn(h2[13])]);
    Unless(Has(modified, TCP_MOD_WINDOW), h3, 14, Be16(0xFFFF))
  }

  /** The header finalize leaves, `ip` being the enclosing header after the claim. */
  function Finalized(h: seq<byte>, modified: bv32, kind: char, ip: seq<byte>, inside: seq<byte>, rand: nat): (r: seq<byte>)
    requires |ip| >= (if kind == 'i' then 20 else 40) && |h| >= 20
    ensures |r| == |h|
  {
    var f := Filled(h, modified, rand);
    if Has(modified, TCP_MOD_CHECK) then f
    else Checked(f, 16, Pseudo(kind, ip, |h| + |inside|), inside)
  }

  method Fill(tcp: array<byte>, at: nat, len: nat, modified: bv32, rand: nat) returns (ghost h: seq<byte>)
    requires len >= 20 && at + len <= tcp.Length
    modifies tcp
    ensures h == Filled(old(tcp[at..at + len]), modified, rand)
    ensures tcp[..] == Poke(old(tcp[..]), at, h)
  {
    hide Poke, Unless, Has, Be16, Le32, Nibbles, WithSyn;
    ghost var was := tcp[..];
    h := tcp[at..at + len];
    PokeSame(was, at, len);
    h := AssignUnless(Has(modified, TCP_MOD_SEQ), tcp, at, 4, Le32(rand), was, h);
    FieldAt(tcp[..], was, at, h, 12);
    h := AssignUnless(Has(modified, TCP_MOD_OFF), tcp, at, 12, [Nibbles((len + 3) / 4, tcp[at + 12])], was, h);
    FieldAt(tcp[..], was, at, h, 13);
    h := AssignUnless(Has(modified, TCP_MOD_SYN), tcp, at, 13, [WithSyn(tcp[at + 13])], was, h);
    h := AssignUnless(Has(modified, TCP_MOD_WINDOW), tcp, at, 14, Be16(0xFFFF), was, h);
  }

  method Finalize(hdrs: string, headers: seq<SendipData>, index: nat, data: SendipData, pack: SendipData, rand: nat)
    returns (ok: bool)
    requires Enclosed(hdrs, headers, index, data, pack) && pack.allocLen >= 20
    modifies pack.data, Enclosing(hdrs, headers, index)`modified
    ensures ok
    ensures var ip, kind := Enclosing(hdrs, headers, index), hdrs[Outer(hdrs, index, "i6")];
      var flags := old(Enclosing(hdrs, headers, index).modified);
      var before := ClaimedBuffer(kind, flags, old(pack.data[..]), ip.start, IPPROTO_TCP);
      && ip.modified == ClaimedFlags(kind, flags)
      && pack.data[..] == Poke(before, pack.start, Finalized(old(pack.Contents()), pack.modified, kind,
           before[ip.start..ip.start + ip.allocLen], old(data.Contents()), rand))
  {
    hide Poke, Filled, Has, Checked, ClaimedBuffer, ClaimedFlags, Pseudo, Outer;
    var tcp, at, len, modified := pack.data, pack.start, pack.allocLen, pack.modified;
    ghost var was, inside := tcp[..], data.Contents();
    ghost var h := Fill(tcp, at, len, modified, rand);

    ghost var before;
    var i;
    i, before := ClaimEnclosing(hdrs, headers, index, data, pack, IPPROTO_TCP, was, h);
    if !Has(modified, TCP_MOD_CHECK) {
      var ip := headers[i];
      var pseudo := Pseudo(hdrs[i], tcp[ip.start..ip.start + ip.allocLen], len + data.allocLen);
      StoreChecksum(pseudo, pack, data, 16, before, h, inside);
    }
    ok := true;
  }
}
