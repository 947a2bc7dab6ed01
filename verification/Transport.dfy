/** What udp.c, tcp.c and icmp.c have in common: they claim the protocol field of the enclosing
IPv4 header, and they checksum a copy of pseudo header, header and data. */
module Transport {
  import opened Bytes
  import opened Csum
  import opened Headers
  import opened Ipv4
  import opened SendipModule

  // ----- the protocol field of the enclosing header

  /** The protocol of an enclosing header of this kind is still free. */
  predicate Free(kind: char, modified: bv32)
  {
    kind == 'i' && !Has(modified, IP_MOD_PROTOCOL)
  }

  /** An enclosing header after a transport module has looked at it. */
  function ClaimedBytes(kind: char, modified: bv32, ip: seq<byte>, proto: byte): (r: seq<byte>)
    requires kind == 'i' ==> |ip| >= 20
    ensures |r| == |ip|
  {
    if Free(kind, modified) then Poke(ip, 9, [proto]) else ip
  }

  function ClaimedFlags(kind: char, modified: bv32): bv32
  {
    if Free(kind, modified) then modified | IP_MOD_PROTOCOL else modified
  }

  /** The whole buffer after the claim. */
  function ClaimedBuffer(kind: char, modified: bv32, buf: seq<byte>, start: nat, proto: byte): (r: seq<byte>)
    requires start + 10 <= |buf|
    ensures |r| == |buf|
  {
    if Free(kind, modified) then Poke(buf, start + 9, [proto]) else buf
  }

  method Claim(kind: char, ip: SendipData, proto: byte)
    requires ip.Within() && ip.allocLen >= 10
    modifies ip.data, ip`modified
    ensures ip.modified == ClaimedFlags(kind, old(ip.modified))
    ensures ip.data[..] == ClaimedBuffer(kind, old(ip.modified), old(ip.data[..]), ip.start, proto)
  {
    if Free(kind, ip.modified) {
      Put(ip.data, ip.start + 9, [proto]);
      ip.modified := ip.modified | IP_MOD_PROTOCOL;
    }
  }

  // ----- the layout a transport finalizer is called in

  /** The nearest IP header around `index`. */
  function Enclosing(hdrs: string, headers: seq<SendipData>, index: nat): SendipData
    requires index < |hdrs| == |headers| && Outer(hdrs, index, "i6") >= 0
  {
    headers[Outer(hdrs, index, "i6")]
  }

  /** Everything a finalizer at `index` relies on: the enclosing IP header and its own header lie
  apart in one buffer, and the window starts where its own header ends. */
  ghost predicate Enclosed(hdrs: string, headers: seq<SendipData>, index: nat, data: SendipData, pack: SendipData)
    reads headers, data, pack
  {
    && index < |hdrs| == |headers| && pack == headers[index] && pack != data
    && Outer(hdrs, index, "i6") >= 0
    && (var ip := Enclosing(hdrs, headers, index);
        && ip != pack && ip != data
        && ip.data == pack.data == data.data
        && ip.allocLen >= (if hdrs[Outer(hdrs, index, "i6")] == 'i' then 20 else 40)
        && ip.start + ip.allocLen <= pack.start)
    && pack.start + pack.allocLen == data.start
    && data.Within()
    && pack.allocLen + data.allocLen + 40 <= INT_MAX
  }

  // ----- the checksum

  /** A copy of the pseudo header, the header and the data, as the checksum functions make it. */
  method Gather(pseudo: seq<byte>, hdr: SendipData, data: SendipData) returns (temp: array<byte>)
    requires hdr.Within() && data.Within()
    ensures fresh(temp)
    ensures temp[..] == pseudo + hdr.Contents() + data.Contents()
  {
    var n, m := |pseudo|, |pseudo| + hdr.allocLen;
    temp := new byte[m + data.allocLen];
    Put(temp, 0, pseudo);
    assert temp[..n] == pseudo;
    Put(temp, n, hdr.data[hdr.start..hdr.start + hdr.allocLen]);
    assert temp[..n] == pseudo && temp[n..m] == hdr.Contents();
    Put(temp, m, data.data[data.start..data.start + data.allocLen]);
    assert temp[..n] == pseudo && temp[n..m] == hdr.Contents() && temp[m..] == data.Contents();
    assert temp[..] == temp[..n] + temp[n..m] + temp[m..];
  }

  /** The header with the checksum of everything in its field at `at`. */
  function Checked(h: seq<byte>, at: nat, pseudo: seq<byte>, inside: seq<byte>): (r: seq<byte>)
    requires at + 2 <= |h|
    ensures |r| == |h|
  {
    var z := Poke(h, at, [0, 0]);
    Poke(z, at, Le16(Checksum(pseudo + z + inside)))
  }

  lemma PokedParts(s: seq<byte>, before: seq<byte>, start: nat, h: seq<byte>, end: nat)
    requires start + |h| <= end <= |before|
    requires s == Poke(before, start, h)
    ensures s[start..start + |h|] == h
    ensures s[start + |h|..end] == before[start + |h|..end]
  {
  }

  lemma PokedElsewhere(s: seq<byte>, before: seq<byte>, start: nat, h: seq<byte>, from: nat, to: nat)
    requires from <= to <= start && start + |h| <= |before|
    requires s == Poke(before, start, h)
    ensures s[from..to] == before[from..to]
  {
  }

  method StoreChecksum(pseudo: seq<byte>, pack: SendipData, data: SendipData, at: nat,
                       ghost before: seq<byte>, ghost h: seq<byte>, ghost inside: seq<byte>)
    requires pack.data == data.data && data.Within() && pack.start + pack.allocLen == data.start
    requires |pseudo| <= 40 && pack.allocLen + data.allocLen + 40 <= INT_MAX
    requires |h| == pack.allocLen && at + 2 <= |h| && |before| == pack.data.Length
    requires inside == before[data.start..data.start + data.allocLen]
    requires pack.data[..] == Poke(before, pack.start, h)
    modifies pack.data
    ensures pack.data[..] == Poke(before, pack.start, Checked(h, at, pseudo, inside))
  {
    hide Poke, Checksum, Le16;
    Assign(pack.data, pack.start, at, [0, 0], before, h);
    ghost var z := Poke(h, at, [0, 0]);
    PokedParts(pack.data[..], before, pack.start, z, data.start + data.allocLen);
    var temp := Gather(pseudo, pack, data);
    assert temp[..] == pseudo + z + inside;
    assert temp[0..temp.Length] == temp[..];
    var c := ChecksumBlock(temp, 0, temp.Length);
    Assign(pack.data, pack.start, at, Le16(c), before, z);
  }

  lemma ClaimBeforeFill(kind: char, modified: bv32, s: seq<byte>, ip: nat, proto: byte, start: nat, h: seq<byte>)
    requires ip + 10 <= start && start + |h| <= |s|
    ensures ClaimedBuffer(kind, modified, Poke(s, start, h), ip, proto)
      == Poke(ClaimedBuffer(kind, modified, s, ip, proto), start, h)
  {
  }

  lemma ClaimElsewhere(kind: char, modified: bv32, s: seq<byte>, ip: nat, proto: byte, from: nat, to: nat)
    requires ip + 10 <= from <= to <= |s|
    ensures ClaimedBuffer(kind, modified, s, ip, proto)[from..to] == s[from..to]
  {
  }

  lemma ClaimInPlace(kind: char, modified: bv32, s: seq<byte>, ip: nat, proto: byte, len: nat)
    requires 20 <= len && ip + len <= |s|
    ensures ClaimedBuffer(kind, modified, s, ip, proto)[ip..ip + len]
      == ClaimedBytes(kind, modified, s[ip..ip + len], proto)
  {
  }

  /** The search for the enclosing header, and the claim; h is what the transport header holds so
  far. Afterwards the header read through the buffer is still h, and the window is untouched. */
  method ClaimEnclosing(hdrs: string, headers: seq<SendipData>, index: nat, data: SendipData, pack: SendipData,
                        proto: byte, ghost was: seq<byte>, ghost h: seq<byte>)
    returns (i: nat, ghost before: seq<byte>)
    requires Enclosed(hdrs, headers, index, data, pack)
    requires |was| == pack.data.Length && |h| == pack.allocLen
    requires pack.data[..] == Poke(was, pack.start, h)
    modifies pack.data, Enclosing(hdrs, headers, index)`modified
    ensures i == Outer(hdrs, index, "i6")
    ensures var ip, kind, flags := headers[i], hdrs[i], old(Enclosing(hdrs, headers, index).modified);
      && ip.modified == ClaimedFlags(kind, flags)
      && before == ClaimedBuffer(kind, flags, was, ip.start, proto)
      && pack.data[..] == Poke(before, pack.start, h)
      && pack.data[pack.start..data.start] == h
      && pack.data[ip.start..ip.start + ip.allocLen] == before[ip.start..ip.start + ip.allocLen]
      && before[data.start..data.start + data.allocLen] == was[data.start..data.start + data.allocLen]
  {
    hide Poke, ClaimedBuffer, ClaimedFlags;
    var o := OuterHeader(hdrs, index, "i6");
    var ip, kind := headers[o], hdrs[o];
    ghost var flags := ip.modified;
    Claim(kind, ip, proto);
    before := ClaimedBuffer(kind, flags, was, ip.start, proto);
    ClaimBeforeFill(kind, flags, was, ip.start, proto, pack.start, h);
    ClaimElsewhere(kind, flags, was, ip.start, proto, data.start, data.start + data.allocLen);
    PokedElsewhere(pack.data[..], before, pack.start, h, ip.start, ip.start + ip.allocLen);
    PokedParts(pack.data[..], before, pack.start, h, data.start);
    i := o;
  }
}
