/** The hexadecimal branch of str2val in parseargs.c. */
module HexStream {
  import opened Bytes

  type nibble = x: int | 0 <= x < 16

  predicate IsDigit(c: char)
  {
    '0' <= c <= '9' || 'A' <= c <= 'F' || 'a' <= c <= 'f'
  }

  function DigitValue(c: char): nibble
  {
    if '0' <= c <= '9' then c as int - '0' as int
    else if 'A' <= c <= 'F' then c as int - 'A' as int + 10
    else if 'a' <= c <= 'f' then c as int - 'a' as int + 10
    else 0
  }

  /** Two digits a byte; a missing last digit counts as zero. */
  function Decoded(digits: string): seq<byte>
  {
    if |digits| == 0 then []
    else if |digits| == 1 then [16 * DigitValue(digits[0])]
    else [16 * DigitValue(digits[0]) + DigitValue(digits[1])] + Decoded(digits[2..])
  }

  lemma {:induction false} DecodedLength(digits: string)
    ensures |Decoded(digits)| == (|digits| + 1) / 2
  {
    if |digits| >= 2 {
      DecodedLength(digits[2..]);
    }
  }

  /** Element by element. */
  lemma {:induction false} DecodedAt(digits: string, k: nat)
    requires 2 * k < |digits|
    ensures k < |Decoded(digits)|
    ensures Decoded(digits)[k] ==
      16 * DigitValue(digits[2 * k]) + if 2 * k + 1 < |digits| then DigitValue(digits[2 * k + 1]) else 0
  {
    hide DigitValue;
    DecodedLength(digits);
    if k > 0 {
      DecodedAt(digits[2..], k - 1);
    }
  }

  function Min(a: nat, b: nat): nat
  {
    if a < b then a else b
  }

  predicate AllDigits(s: string)
  {
    forall k :: 0 <= k < |s| ==> IsDigit(s[k])
  }

  /** How many digits there are before the first character that is none. */
  function Leading(s: string): (n: nat)
    ensures n <= |s|
    ensures forall k :: 0 <= k < n ==> IsDigit(s[k])
    ensures n < |s| ==> !IsDigit(s[n])
  {
    if |s| == 0 || !IsDigit(s[0]) then 0 else 1 + Leading(s[1..])
  }

  /** The first character that is no digit comes before the output is full. */
  lemma StopsAt(digits: string, i: nat, outlen: nat)
    requires i < |digits| && i < 2 * outlen && AllDigits(digits[..i]) && !IsDigit(digits[i])
    ensures Leading(digits) == i && !AllDigits(digits[..Min(|digits|, 2 * outlen)])
  {
    hide IsDigit;
    assert digits[..Min(|digits|, 2 * outlen)][i] == digits[i];
    assert forall k :: 0 <= k < i ==> digits[k] == digits[..i][k];
  }

  /** The first s bytes of d, and behind them what there was. */
  ghost predicate Written(out: seq<byte>, was: seq<byte>, d: seq<byte>, s: nat)
  {
    s <= |d| && s <= |was| && out == d[..s] + was[s..]
  }

  lemma Nothing(was: seq<byte>, d: seq<byte>, digits: string)
    ensures Written(was, was, d, 0) && AllDigits(digits[..0])
  {
  }

  lemma WrittenNext(out: seq<byte>, was: seq<byte>, d: seq<byte>, s: nat)
    requires Written(out, was, d, s) && s < |d| && s < |was|
    ensures |out| == |was| && Written(out[s := d[s]], was, d, s + 1)
  {
  }

  lemma WrittenParts(out: seq<byte>, was: seq<byte>, d: seq<byte>, s: nat, outlen: nat)
    requires Written(out, was, d, s) && s <= outlen <= |was|
    ensures |out| == |was| && s <= |d|
    ensures out[..s] == d[..s] && out[s..] == was[s..] && out[outlen..] == was[outlen..]
  {
  }

  lemma OneMoreDigit(digits: string, i: nat)
    requires i < |digits| && AllDigits(digits[..i]) && IsDigit(digits[i])
    ensures AllDigits(digits[..i + 1])
  {
    hide IsDigit;
    assert forall k :: 0 <= k < i ==> digits[..i + 1][k] == digits[..i][k];
  }

  method Output(output: array<byte>, s: nat, c: byte, ghost was: seq<byte>, ghost d: seq<byte>)
    requires s < output.Length && s < |d| && c == d[s] && Written(output[..], was, d, s)
    modifies output
    ensures Written(output[..], was, d, s + 1)
  {
    WrittenNext(output[..], was, d, s);
    output[s] := c;
  }

  lemma IsOdd(i: nat, s: nat)
    ensures i == 2 * s + 1 ==> i % 2 == 1
    ensures i == 2 * s ==> i % 2 == 0
  {
  }

  lemma SecondDigit(digits: string, s: nat)
    requires 2 * s + 1 < |digits|
    ensures s < |Decoded(digits)|
    ensures Decoded(digits)[s] == 16 * DigitValue(digits[2 * s]) + DigitValue(digits[2 * s + 1])
  {
    hide DigitValue, Decoded;
    DecodedAt(digits, s);
  }

  /** The loop of str2val: s whole bytes are written, and c holds the digit of the next one if there
  is one already. At a character that is no digit it stops. */
  method ReadDigits(output: array<byte>, digits: string, outlen: nat) returns (ok: bool, s: nat, i: nat, c: byte)
    requires outlen <= output.Length
    modifies output
    ensures s <= outlen && i <= |digits| && AllDigits(digits[..i])
    ensures i == 2 * s || (i == 2 * s + 1 && s < outlen)
    ensures i == 2 * s + 1 ==> c == 16 * DigitValue(digits[2 * s])
    ensures Written(output[..], old(output[..]), Decoded(digits), s)
    ensures ok ==> i == |digits| || s == outlen
    ensures !ok ==> i < |digits| && s < outlen && !IsDigit(digits[i])
  {
    hide IsDigit, DigitValue, Decoded, AllDigits, Written;
    ghost var was, d := output[..], Decoded(digits);
    Nothing(was, d, digits);
    s, i, c := 0, 0, 0;
    while i < |digits| && s != outlen
      invariant 0 <= s <= outlen && i <= |digits|
      invariant i == 2 * s || (i == 2 * s + 1 && s < outlen)
      invariant AllDigits(digits[..i])
      invariant c == if i == 2 * s then 0 else 16 * DigitValue(digits[2 * s])
      invariant Written(output[..], was, d, s)
    {
      var p := digits[i];
      if !IsDigit(p) {
        return false, s, i, c;
      }
      OneMoreDigit(digits, i);
      IsOdd(i, s);
      if i % 2 == 1 {
        SecondDigit(digits, s);
      }
      c := c + DigitValue(p);
      if i % 2 == 1 {
        Output(output, s, c, was, d);
        s, c := s + 1, 0;
      } else {
        c := c * 16;
      }
      i := i + 1;
    }
    ok := true;
  }

  /** str2val on an input that starts with 0x or 0X, given without these. Every digit up to the one
  that fills the output is looked at; one that is invalid makes the result 0, and the whole
  bytes before it have been written. */
  method Str2Val(output: array<byte>, digits: string, outlen: nat) returns (n: nat)
    requires outlen <= output.Length
    modifies output
    ensures AllDigits(digits[..Min(|digits|, 2 * outlen)]) ==>
      n == Min(outlen, (|digits| + 1) / 2) == Min(outlen, |Decoded(digits)|)
      && output[..n] == Decoded(digits)[..n]
      && output[n..] == old(output[n..])
    ensures !AllDigits(digits[..Min(|digits|, 2 * outlen)]) ==>
      var whole := Leading(digits) / 2;
      && n == 0 && whole < outlen && whole <= |Decoded(digits)|
      && output[..whole] == Decoded(digits)[..whole]
      && output[whole..] == old(output[whole..])
    ensures output[outlen..] == old(output[outlen..])
  {
    hide IsDigit, DigitValue, Decoded, AllDigits, Leading, Written;
    ghost var was, d := output[..], Decoded(digits);
    DecodedLength(digits);
    var ok, s, i, c := ReadDigits(output, digits, outlen);
    if !ok {
      StopsAt(digits, i, outlen);
      WrittenParts(output[..], was, d, s, outlen);
      return 0;
    }
    assert digits[..i] == digits[..Min(|digits|, 2 * outlen)];
    n := s;
    if i % 2 == 1 && s != outlen {
      DecodedAt(digits, s);
      Output(output, s, c, was, d);
      n := s + 1;
    }
    WrittenParts(output[..], was, d, n, outlen);
  }

  // ----- printing and reading back

  function Digit(n: nibble, upper: bool): (c: char)
  {
    if n < 10 then '0' + n as char else if upper then 'A' + (n - 10) as char else 'a' + (n - 10) as char
  }

  function Printed(b: seq<byte>, upper: bool): string
  {
    if |b| == 0 then [] else [Digit(b[0] / 16, upper), Digit(b[0] % 16, upper)] + Printed(b[1..], upper)
  }

  lemma DigitReads(n: nibble, upper: bool)
    ensures IsDigit(Digit(n, upper)) && DigitValue(Digit(n, upper)) == n
  {
  }

  /** The digits are those of the notation, in either case. */
  lemma DigitsAre(n: nibble)
    ensures Digit(n, true) == "0123456789ABCDEF"[n] && Digit(n, false) == "0123456789abcdef"[n]
    ensures DigitValue("0123456789ABCDEF"[n]) == n && DigitValue("0123456789abcdef"[n]) == n
  {
  }

  /** Round trip: the printing of any bytes, in either case, is read back as these bytes. */
  lemma {:induction false} ReadsPrinted(b: seq<byte>, upper: bool)
    ensures AllDigits(Printed(b, upper)) && Decoded(Printed(b, upper)) == b && |Printed(b, upper)| == 2 * |b|
  {
    hide Digit, DigitValue, IsDigit;
    if |b| > 0 {
      ReadsPrinted(b[1..], upper);
      DigitReads(b[0] / 16, upper);
      DigitReads(b[0] % 16, upper);
      var p := Printed(b, upper);
      assert p[2..] == Printed(b[1..], upper);
      assert b == [b[0]] + b[1..];
      assert forall k :: 2 <= k < |p| ==> p[k] == p[2..][k - 2];
    }
  }
}
