/** xorcrypto.c: the demonstration encryption module. */
module XorCrypto {
  import opened Bytes

  /** An absent key stands for a single zero byte. */
  function KeyOf(key: seq<byte>): (k: seq<byte>)
    ensures |k| > 0
  {
    if |key| == 0 then [0] else key
  }

  /** The data with the key, repeated as often as needed, added to it. */
  function Crypted(key: seq<byte>, data: seq<byte>): (r: seq<byte>)
    requires |key| > 0
    ensures |r| == |data|
  {
    seq(|data|, d requires 0 <= d < |data| => Xor(data[d], key[d % |key|]))
  }

  /** Encrypting twice with the same key gives the data back. */
  lemma CryptedTwice(key: seq<byte>, data: seq<byte>)
    requires |key| > 0
    ensures Crypted(key, Crypted(key, data)) == data
  {
    forall d | 0 <= d < |data| ensures Crypted(key, Crypted(key, data))[d] == data[d] {
      XorUndoes(data[d], key[d % |key|]);
    }
  }

  /** Without a key the data is left alone. */
  lemma CryptedWithoutKey(data: seq<byte>)
    ensures Crypted(KeyOf([]), data) == data
  {
    forall d | 0 <= d < |data| ensures Crypted([0], data)[d] == data[d] {
      XorZero(data[d]);
    }
  }

  /** A byte comes through unchanged exactly where the key byte it meets is zero. */
  lemma CryptedKeepsIff(key: seq<byte>, data: seq<byte>, d: nat)
    requires |key| > 0 && d < |data|
    ensures Crypted(key, data)[d] == data[d] <==> key[d % |key|] == 0
  {
    hide Xor;
    XorZero(data[d]);
    XorTellsApart(data[d], key[d % |key|], 0);
  }

  /** Encrypting zeros shows the key, repeated. */
  lemma CryptedZeros(key: seq<byte>, n: nat)
    requires |key| > 0
    ensures Crypted(key, Zeros(n)) == seq(n, d requires 0 <= d < n => key[d % |key|])
  {
    hide Xor;
    forall d | 0 <= d < n ensures Crypted(key, Zeros(n))[d] == key[d % |key|] {
      XorCommutes(0, key[d % |key|]);
      XorZero(key[d % |key|]);
    }
  }

  /** What a receiver who uses another key gets is the data exactly when both keys, repeated, agree
  as far as the data goes. */
  lemma OpensWithIff(k1: seq<byte>, k2: seq<byte>, data: seq<byte>)
    requires |k1| > 0 && |k2| > 0
    ensures Crypted(k2, Crypted(k1, data)) == data <==> forall d :: 0 <= d < |data| ==> k1[d % |k1|] == k2[d % |k2|]
  {
    hide Xor;
    var r := Crypted(k2, Crypted(k1, data));
    forall d | 0 <= d < |data| ensures r[d] == data[d] <==> k1[d % |k1|] == k2[d % |k2|] {
      var x, a, b := data[d], k1[d % |k1|], k2[d % |k2|];
      XorUndoes(x, a);
      XorTellsApart(Xor(x, a), b, a);
    }
  }

  lemma CryptedAt(key: seq<byte>, data: seq<byte>, d: nat)
    requires |key| > 0 && d < |data|
    ensures |Crypted(key, data)| == |data| && Crypted(key, data)[d] == Xor(data[d], key[d % |key|])
  {
    hide Xor;
  }

  method Encrypt(key: seq<byte>, data: array<byte>, at: nat, datalen: nat)
    requires |key| > 0 && at + datalen <= data.Length
    modifies data
    ensures data[..] == Poke(old(data[..]), at, Crypted(key, old(data[at..at + datalen])))
  {
    hide Xor, Crypted;
    ghost var was := data[..];
    ghost var crypted := Crypted(key, was[at..at + datalen]);
    var d, k := 0, 0;
    while d < datalen
      invariant 0 <= d <= datalen && k == d % |key|
      invariant forall j :: 0 <= j < |was| ==> data[j] == if at <= j < at + d then crypted[j - at] else was[j]
    {
      data[at + d] := Xor(data[at + d], key[k]);
      CryptedAt(key, was[at..at + datalen], d);
      assert data[at + d] == crypted[d];
      NextIndex(d, |key|);
      d, k := d + 1, (k + 1) % |key|;
    }
  }
}
