/** The address list option of route.c, which sizes the routing header. */
module Route {
  import opened Bytes
  import opened SendipModule
  import opened Wrappers

  /** A type 0 routing header without addresses. */
  const ROUTE_HEADER: nat := 8

  /** More addresses are not split off. */
  const ADDRMAX: nat := 127

  const ROUTE_MOD_ADDRLIST: bv32 := 16

  type Address = s: seq<byte> | |s| == 16 witness Zeros(16)

  /** The length byte counts units of eight bytes, without the first. */
  function ClaimedLength(h: seq<byte>): nat
    requires |h| >= 2
  {
    (h[1] as nat + 1) * 8
  }

  function Flat(addrs: seq<Address>): (r: seq<byte>)
    ensures |r| == 16 * |addrs|
  {
    if |addrs| == 0 then [] else Flat(addrs[..|addrs| - 1]) + addrs[|addrs| - 1]
  }

  function WithAddresses(h: seq<byte>, addrs: seq<Address>): (r: seq<byte>)
    requires |h| >= ROUTE_HEADER
    ensures |r| == ROUTE_HEADER + 16 * |addrs|
  {
    h[..ROUTE_HEADER][1 := 4 * |addrs| % 0x100] + Flat(addrs)
  }

  /** An address has two units of eight bytes and is counted as four: the length byte is right
  exactly without addresses. */
  lemma LengthIsRightIff(h: seq<byte>, addrs: seq<Address>)
    requires |h| >= ROUTE_HEADER && |addrs| <= ADDRMAX
    ensures ClaimedLength(WithAddresses(h, addrs)) == ROUTE_HEADER + 16 * |addrs| <==> addrs == []
  {
    assert WithAddresses(h, addrs)[1] == 4 * |addrs| % 0x100;
  }

  /** One address makes 24 bytes that claim to be 40. */
  lemma OneAddressClaimsTwo(h: seq<byte>, a: Address)
    requires |h| >= ROUTE_HEADER
    ensures |WithAddresses(h, [a])| == 24 && ClaimedLength(WithAddresses(h, [a])) == 40
  {
    assert WithAddresses(h, [a])[1] == 4;
  }

  lemma {:induction false} AddressAt(addrs: seq<Address>, k: nat)
    requires k < |addrs|
    ensures Flat(addrs)[16 * k..16 * k + 16] == addrs[k]
    decreases |addrs|
  {
    var n := |addrs| - 1;
    var front := Flat(addrs[..n]);
    if k < n {
      AddressAt(addrs[..n], k);
      SliceOfPrefix(Flat(addrs), front, 16 * n, 16 * k, 16 * k + 16);
    } else {
      PartsOfSum(front, addrs[n]);
    }
  }

  /** Address k stands in the sixteen bytes from 8 + 16k on, and of the fixed part only the length
  byte changes. */
  lemma AddressStands(h: seq<byte>, addrs: seq<Address>, k: nat)
    requires |h| >= ROUTE_HEADER && k < |addrs|
    ensures var r := WithAddresses(h, addrs);
      r[0] == h[0] && r[2..8] == h[2..8] && r[8 + 16 * k..8 + 16 * k + 16] == addrs[k]
  {
    hide Flat;
    var r := WithAddresses(h, addrs);
    AddressAt(addrs, k);
    PartsOfSum(h[..8][1 := 4 * |addrs| % 0x100], Flat(addrs));
    SliceOfSuffix(r, 8, 16 * k, 16 * k + 16);
    assert r[2..8] == h[2..8];
  }

  /** The addresses before the first that could not be parsed. */
  function Parsed(texts: seq<Maybe<Address>>): (r: seq<Address>)
    ensures |r| <= |texts|
    ensures forall k :: 0 <= k < |r| ==> texts[k] == Some(r[k])
    ensures |r| < |texts| ==> texts[|r|] == None
  {
    if |texts| == 0 || texts[0] == None then [] else [texts[0].value] + Parsed(texts[1..])
  }

  lemma ParsedNext(texts: seq<Maybe<Address>>, i: nat)
    requires i < |Parsed(texts)|
    ensures i < |texts| && texts[i].Some?
    ensures Flat(Parsed(texts)[..i + 1]) == Flat(Parsed(texts)[..i]) + texts[i].value
  {
    var r := Parsed(texts);
    assert r[..i + 1][..i] == r[..i];
  }

  /** The loop over the addresses. */
  method FillAddresses(buf: array<byte>, texts: seq<Maybe<Address>>) returns (ok: bool)
    requires buf.Length == ROUTE_HEADER + 16 * |texts|
    modifies buf
    ensures ok <==> |Parsed(texts)| == |texts|
    ensures var n := ROUTE_HEADER + 16 * |Parsed(texts)|;
      n <= buf.Length && buf[..n] == old(buf[..ROUTE_HEADER]) + Flat(Parsed(texts))
  {
    hide Flat, Parsed;
    ghost var front, addrs := buf[..ROUTE_HEADER], Parsed(texts);
    NoAddresses(addrs);
    for i := 0 to |texts|
      invariant i <= |addrs|
      invariant buf[..ROUTE_HEADER + 16 * i] == front + Flat(addrs[..i])
    {
      if texts[i].None? {
        assert addrs[..i] == addrs;
        return false;
      }
      ParsedNext(texts, i);
      PutBehind(buf, ROUTE_HEADER + 16 * i, texts[i].value);
    }
    ok := true;
    assert addrs[..|addrs|] == addrs;
  }

  /** Option -oa: the header is reallocated to its fixed part and the addresses. At a text that is no
  address it stops, and leaves the length byte as it was. */
  method ReadAddresses(pack: SendipData, texts: seq<Maybe<Address>>) returns (ok: bool)
    requires pack.Within() && pack.start == 0 && pack.allocLen >= ROUTE_HEADER && |texts| <= ADDRMAX
    modifies pack`data, pack`allocLen, pack`modified
    ensures pack.Within() && fresh(pack.data) && pack.allocLen == ROUTE_HEADER + 16 * |texts|
    ensures ok <==> |Parsed(texts)| == |texts|
    ensures pack.modified == old(pack.modified) | (if ok then ROUTE_MOD_ADDRLIST else 0)
    ensures if ok then pack.Contents() == WithAddresses(old(pack.Contents()), Parsed(texts))
            else var n := ROUTE_HEADER + 16 * |Parsed(texts)|;
                 pack.Contents()[..n] == old(pack.Contents())[..ROUTE_HEADER] + Flat(Parsed(texts))
  {
    hide Flat, Parsed;
    ghost var h := pack.Contents();
    var buf := new byte[ROUTE_HEADER + 16 * |texts|](_ => 0);
    Put(buf, 0, pack.data[..ROUTE_HEADER]);
    assert buf[..ROUTE_HEADER] == h[..ROUTE_HEADER];
    ok := FillAddresses(buf, texts);
    if ok {
      ghost var filled: seq<byte> := buf[..];
      assert filled == h[..ROUTE_HEADER] + Flat(Parsed(texts));
      buf[1] := 4 * |texts| % 0x100;
      assert buf[..] == filled[1 := buf[1]];
      LengthByteSet(h[..ROUTE_HEADER], Flat(Parsed(texts)), 4 * |texts| % 0x100);
      pack.modified := pack.modified | ROUTE_MOD_ADDRLIST;
    }
    pack.data, pack.allocLen := buf, buf.Length;
    assert pack.Contents() == buf[..];
  }

  lemma LengthByteSet(front: seq<byte>, flat: seq<byte>, n: byte)
    requires |front| >= 2
    ensures (front + flat)[1 := n] == front[1 := n] + flat
  {
  }

  lemma NoAddresses(addrs: seq<Address>)
    ensures Flat(addrs[..0]) == []
  {
  }

  method PutBehind(buf: array<byte>, at: nat, v: seq<byte>)
    requires at + |v| <= buf.Length
    modifies buf
    ensures buf[..at + |v|] == old(buf[..at]) + v
  {
    Put(buf, at, v);
  }
}
