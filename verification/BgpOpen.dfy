/** bgp.c: the OPEN message, and the receiver of RFC 4271, section 4.2, who takes its optional
parameters apart by their lengths. */
module BgpOpen {
  import opened Bgp
  import opened Bytes
  import opened Wrappers

  // ----- the receiver

  datatype Parameter = Parameter(kind: byte, value: seq<byte>)

  /** Each parameter has its type, the length of its value and its value. */
  function DecodeParameters(b: seq<byte>): Maybe<seq<Parameter>>
  {
    if |b| == 0 then Some([])
    else if |b| < 2 || |b| < 2 + b[1] as nat then None
    else InFront(Parameter(b[0], b[2..2 + b[1] as nat]), DecodeParameters(b[2 + b[1] as nat..]))
  }

  function InFront(p: Parameter, rest: Maybe<seq<Parameter>>): Maybe<seq<Parameter>>
  {
    if rest.None? then None else Some([p] + rest.value)
  }

  /** The parameters of an OPEN message whose part behind the header is `body`. */
  function DecodeOpen(body: seq<byte>): Maybe<seq<Parameter>>
  {
    if |body| < 10 || |body| != 10 + body[9] as nat then None else DecodeParameters(body[10..])
  }

  // ----- what the options have put behind each other

  /** An option as it was sent, with the length that is stated for it. */
  datatype SentOption = SentOption(kind: byte, length: byte, value: seq<byte>)

  function OnWire(os: seq<SentOption>): seq<byte>
  {
    if |os| == 0 then [] else [os[0].kind, os[0].length] + os[0].value + OnWire(os[1..])
  }

  function Intended(os: seq<SentOption>): (ps: seq<Parameter>)
    ensures |ps| == |os|
  {
    seq(|os|, i requires 0 <= i < |os| => Parameter(os[i].kind, os[i].value))
  }

  lemma {:induction false} OnWireAppends(os: seq<SentOption>, o: SentOption)
    ensures OnWire(os + [o]) == OnWire(os) + ([o.kind, o.length] + o.value)
  {
    if |os| == 0 {
      assert os + [o] == [o] && [o][1..] == [];
      assert OnWire([o]) == [o.kind, o.length] + o.value + [];
    } else {
      OnWireAppends(os[1..], o);
      assert (os + [o])[1..] == os[1..] + [o];
      assert (os + [o])[0] == os[0];
    }
  }

  /** The option bytes are decoded to the options meant exactly when every stated length is that of
  the value. */
  lemma {:induction false} DecodesParametersIff(os: seq<SentOption>)
    ensures DecodeParameters(OnWire(os)) == Some(Intended(os)) <==> LengthsRight(os)
  {
    hide DecodeParameters, OnWire, Intended;
    NoParameters();
    if |os| > 0 {
      var o, rest := os[0], os[1..];
      IntendedFirst(os);
      if o.length as nat == |o.value| {
        FirstTaken(os);
        DecodesParametersIff(rest);
        InFrontIs(Parameter(o.kind, o.value), DecodeParameters(OnWire(rest)), Intended(rest));
        LengthsBehind(os);
      } else {
        FirstMisread(os);
      }
    } else {
      assert os == [];
    }
  }

  /** Every stated length is that of the value. */
  predicate LengthsRight(os: seq<SentOption>)
  {
    forall k :: 0 <= k < |os| ==> os[k].length as nat == |os[k].value|
  }

  lemma NoParameters()
    ensures DecodeParameters(OnWire([])) == Some(Intended([])) && LengthsRight([])
  {
  }

  lemma IntendedFirst(os: seq<SentOption>)
    requires |os| > 0
    ensures Intended(os) == [Parameter(os[0].kind, os[0].value)] + Intended(os[1..])
  {
  }

  lemma InFrontIs(p: Parameter, d: Maybe<seq<Parameter>>, ps: seq<Parameter>)
    ensures InFront(p, d) == Some([p] + ps) <==> d == Some(ps)
  {
    if d.Some? {
      assert ([p] + d.value)[1..] == d.value && ([p] + ps)[1..] == ps;
    }
  }

  lemma LengthsBehind(os: seq<SentOption>)
    requires |os| > 0 && os[0].length as nat == |os[0].value|
    ensures LengthsRight(os) <==> LengthsRight(os[1..])
  {
    assert forall k :: 1 <= k < |os| ==> os[k] == os[1..][k - 1];
    assert forall k :: 0 <= k < |os[1..]| ==> os[1..][k] == os[k + 1];
  }

  lemma FirstTaken(os: seq<SentOption>)
    requires |os| > 0 && os[0].length as nat == |os[0].value|
    ensures DecodeParameters(OnWire(os)) == InFront(Parameter(os[0].kind, os[0].value), DecodeParameters(OnWire(os[1..])))
  {
    var b, o := OnWire(os), os[0];
    assert b[2..2 + |o.value|] == o.value && b[2 + |o.value|..] == OnWire(os[1..]);
  }

  /** With another length the first value taken has that length. */
  lemma FirstMisread(os: seq<SentOption>)
    requires |os| > 0 && os[0].length as nat != |os[0].value|
    ensures DecodeParameters(OnWire(os)) != Some(Intended(os))
  {
    FirstValue(OnWire(os));
    IntendedFirst(os);
  }

  lemma FirstValue(b: seq<byte>)
    requires |b| >= 2
    ensures DecodeParameters(b).Some? ==> |DecodeParameters(b).value| > 0 && |DecodeParameters(b).value[0].value| == b[1] as nat
  {
  }

  // ----- what the options keep

  /** Behind ten bytes come the options; unless it was given, the length of all of them is counted,
  modulo 256. */
  predicate OpenHolds(body: seq<byte>, os: seq<SentOption>, given: bool)
  {
    && |body| >= 10 && body[10..] == OnWire(os)
    && (!given ==> body[9] as nat == |OnWire(os)| % 0x100)
  }

  lemma OpenStarts(version: byte, asn: word, hold: word, id: seq<byte>, olen: Maybe<byte>, body: seq<byte>)
    requires SendsOpen(version, asn, hold, id, olen, body)
    ensures OpenHolds(body, [], olen.Some?)
  {
    assert body[10..] == [];
  }

  /** What option -boo says of itself. */
  function SentBy(kind: byte, length: Maybe<byte>, value: seq<byte>): SentOption
  {
    SentOption(kind, if length.Some? then length.value else (2 + |value|) % 0x100, value)
  }

  /** Every option keeps it. */
  lemma OptionKeeps(kind: byte, length: Maybe<byte>, value: seq<byte>, given: bool, before: seq<byte>, after: seq<byte>,
                    os: seq<SentOption>)
    requires OpenHolds(before, os, given) && SendsOpenOption(kind, length, value, given, before, after)
    ensures OpenHolds(after, os + [SentBy(kind, length, value)], given)
  {
    hide OnWire;
    var o := SentBy(kind, length, value);
    var sent := [o.kind, o.length] + o.value;
    OnWireAppends(os, o);
    var front := before[9 := after[9]];
    assert after == front + sent && front[10..] == before[10..];
    assert after[10..] == before[10..] + sent;
    if !given {
      SumsUp(|OnWire(os)|, |sent|);
    }
  }

  lemma SumsUp(a: nat, b: nat)
    ensures (a % 0x100 + b) % 0x100 == (a + b) % 0x100
  {
  }

  // ----- what the receiver makes of it

  /** He gets the options meant exactly when the length of all of them is right and that of each one
  is that of its value. */
  lemma OpenDecodesIff(body: seq<byte>, os: seq<SentOption>, given: bool)
    requires OpenHolds(body, os, given)
    ensures DecodeOpen(body) == Some(Intended(os))
      <==> body[9] as nat == |OnWire(os)| && LengthsRight(os)
    ensures !given ==> (body[9] as nat == |OnWire(os)| <==> |OnWire(os)| < 0x100)
  {
    hide OnWire, DecodeParameters, Intended;
    DecodesParametersIff(os);
    assert |body| == 10 + |OnWire(os)|;
  }

  /** A length that is left to bgp.c counts type and length along with the value, so it is never
  right, and the receiver never gets the options meant. */
  lemma CountedLengthMisleads(body: seq<byte>, os: seq<SentOption>, given: bool, k: nat, kind: byte, value: seq<byte>)
    requires OpenHolds(body, os, given) && k < |os| && |value| <= 0xFF && os[k] == SentBy(kind, None, value)
    ensures os[k].length as nat == (|value| + 2) % 0x100 != |value|
    ensures DecodeOpen(body) != Some(Intended(os))
  {
    hide OnWire, DecodeOpen, Intended, OpenHolds;
    OpenDecodesIff(body, os, given);
  }

  /** One option of type 2 with the value 1: the receiver finds it malformed. */
  lemma OneOptionIsMalformed(version: byte, asn: word, hold: word, id: seq<byte>, open: seq<byte>, body: seq<byte>)
    requires SendsOpen(version, asn, hold, id, None, open) && SendsOpenOption(2, None, [1], false, open, body)
    ensures body[10..] == [2, 3, 1] && DecodeOpen(body) == None
  {
    assert body[10..] == [2, 3, 1];
  }

  /** The fixed fields: the two words stand low byte first, so a receiver who reads them high byte
  first, as the RFC has it, gets them right exactly if both bytes are the same. */
  lemma OpenFields(version: byte, asn: word, hold: word, id: seq<byte>, olen: Maybe<byte>, body: seq<byte>)
    requires SendsOpen(version, asn, hold, id, olen, body)
    ensures body[0] == version && Word(body[1], body[2]) == asn && Word(body[3], body[4]) == hold
    ensures (Word(body[2], body[1]) == asn <==> asn % 257 == 0) && (Word(body[4], body[3]) == hold <==> hold % 257 == 0)
    ensures (forall k :: 0 <= k < |id| ==> body[5 + k] == id[k]) && (olen.Some? ==> body[9] == olen.value)
  {
    hide Le16;
    var front := [version] + Le16(asn) + Le16(hold);
    assert body[0] == front[0] && body[1] == front[1] && body[2] == front[2] && body[3] == front[3] && body[4] == front[4];
    SwappedWord(asn, body[1], body[2]);
    SwappedWord(hold, body[3], body[4]);
    forall k | 0 <= k < |id| ensures body[5 + k] == id[k] {
      assert body[5..5 + |id|][k] == id[k];
    }
  }

  lemma SwappedWord(v: word, low: byte, high: byte)
    requires [low, high] == Le16(v)
    ensures Word(low, high) == v && (Word(high, low) == v <==> v % 257 == 0)
  {
    var l: int, h: int := low, high;
    LeWordOf(v);
    assert v == 257 * h + (l - h);
    Multiple(h, l - h);
  }
}
