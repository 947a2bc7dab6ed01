/** The packet data a module keeps (sendip_data of sendip_module.h) and how finalizers write it. */
module SendipModule {
  import opened Bytes

  /** The private part. Only esp has one that others look at. */
  datatype Private = NoPrivate | EspPrivate(ivlen: nat, icvlen: nat, key: seq<byte>)

  /** One header, or the window over everything inside it: a stretch of a buffer. All headers
  of a packet share one buffer once the packet has been put together. */
  class SendipData {
    var data: array<byte>
    var start: nat
    var allocLen: nat
    var modified: bv32
    var priv: Private

    constructor (data: array<byte>, start: nat, allocLen: nat)
      ensures this.data == data && this.start == start && this.allocLen == allocLen
      ensures modified == 0 && priv == NoPrivate
    {
      this.data, this.start, this.allocLen := data, start, allocLen;
      modified, priv := 0, NoPrivate;
    }

    ghost predicate Within()
      reads this
    {
      start + allocLen <= data.Length
    }

    /** The bytes of the stretch. */
    ghost function Contents(): seq<byte>
      reads this, data
      requires Within()
    {
      data[start..start + allocLen]
    }
  }

  /** modified & flag */
  predicate Has(modified: bv32, flag: bv32)
  {
    modified & flag != 0
  }

  /** A bit is in either of two sets of flags exactly when it is in both together. */
  lemma HasEither(m: bv32, n: bv32, r: bv32, bit: bv32)
    requires r == m | n
    ensures Has(r, bit) <==> Has(m, bit) || Has(n, bit)
  {
    Distributes(m, n, bit);
    NoneOfBoth(m & bit, n & bit);
  }

  lemma Distributes(m: bv32, n: bv32, bit: bv32)
    ensures (m | n) & bit == (m & bit) | (n & bit)
  {
  }

  lemma NoneOfBoth(a: bv32, b: bv32)
    ensures a | b == 0 <==> a == 0 && b == 0
  {
  }

  lemma HasNothing(bit: bv32)
    ensures !Has(0, bit)
  {
  }

  /** A field the user has not set gets its default. */
  function Unless(given: bool, h: seq<byte>, at: nat, v: seq<byte>): (r: seq<byte>)
    requires at + |v| <= |h|
    ensures |r| == |h|
  {
    if given then h else Poke(h, at, v)
  }

  lemma PokedSlice(s: seq<byte>, start: nat, h: seq<byte>)
    requires start + |h| <= |s|
    ensures Poke(s, start, h)[start..start + |h|] == h
  {
  }

  lemma PokeSame(s: seq<byte>, start: nat, n: nat)
    requires start + n <= |s|
    ensures Poke(s, start, s[start..start + n]) == s
  {
  }

  /** Assigns a field of a header: `before` is the buffer as it was, h what the header holds now. */
  method Assign(buf: array<byte>, start: nat, at: nat, v: seq<byte>, ghost before: seq<byte>, ghost h: seq<byte>)
    requires |before| == buf.Length && start + |h| <= buf.Length && at + |v| <= |h|
    requires buf[..] == Poke(before, start, h)
    modifies buf
    ensures buf[..] == Poke(before, start, Poke(h, at, v))
  {
    Put(buf, start + at, v);
    PokeInside(before, start, h, at, v);
  }

  /** Assigns a field of a header unless the user has given it. */
  method AssignUnless(given: bool, buf: array<byte>, start: nat, at: nat, v: seq<byte>,
                      ghost before: seq<byte>, ghost h: seq<byte>)
    returns (ghost after: seq<byte>)
    requires |before| == buf.Length && start + |h| <= buf.Length && at + |v| <= |h|
    requires buf[..] == Poke(before, start, h)
    modifies buf
    ensures after == Unless(given, h, at, v) && |after| == |h|
    ensures buf[..] == Poke(before, start, after)
  {
    if given {
      after := h;
    } else {
      Assign(buf, start, at, v, before, h);
      after := Poke(h, at, v);
    }
  }

  /** Reading a field of a header through the buffer. */
  lemma FieldAt(s: seq<byte>, before: seq<byte>, start: nat, h: seq<byte>, at: nat)
    requires start + |h| <= |before| && s == Poke(before, start, h)
    requires at < |h|
    ensures s[start + at] == h[at]
  {
  }

  /** Assigning a field leaves the others alone. */
  lemma UnlessKeeps(given: bool, h: seq<byte>, at: nat, v: seq<byte>, from: nat, to: nat)
    requires at + |v| <= |h| && from <= to <= |h| && (to <= at || at + |v| <= from)
    ensures Unless(given, h, at, v)[from..to] == h[from..to]
  {
  }
}
