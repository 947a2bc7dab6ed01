/** dump.c: the hex dump, written with two cursors running through one buffer. */
module Dump {
  import opened Bytes
  import HexStream

  /** The length of a row: offset, sixteen cells, sixteen characters, newline. */
  const BPL: nat := 77

  /** The heading with its two newlines. */
  const HEADING: nat := 60

  const LARGEST: nat := 0xFFFFFF

  const LEFT := "00 01 02 03 04 05 06 07 "

  function Right(hex: int): (s: string)
    ensures |s| == 24
  {
    if hex != 0 then " 08 09 0A 0B 0C 0D 0E 0F" else " 08 09 19 11 12 13 14 15"
  }

  function Heading(hex: int): (s: string)
    ensures |s| == HEADING
  {
    "          " + LEFT + Right(hex) + "\n\n"
  }

  /** The cells left blank in front. */
  function Blanks(hex: int): nat
  {
    if hex == 0 || hex == 2 then 14 else 0
  }

  // ----- the text of a dump

  /** The digits of a number, at least one. */
  function Digits(n: nat, base: nat): string
    requires 2 <= base <= 16
    decreases n
  {
    (if n < base then [] else Digits(n / base, base)) + [HexStream.Digit(n % base, true)]
  }

  function Spaces(n: nat): string
  {
    seq(n, _ => ' ')
  }

  /** sprintf of "%8X: " or "%8ld: " */
  function Offset(d: nat, hex: int): string
  {
    var s := Digits(d, if hex != 0 then 16 else 10);
    (if |s| < 8 then Spaces(8 - |s|) else []) + s + ": "
  }

  lemma {:induction false} DigitsFit(n: nat, base: nat, width: nat)
    requires 2 <= base <= 16 && width > 0 && n < Power(base, width)
    ensures |Digits(n, base)| <= width
    decreases width
  {
    if n >= base {
      assert width > 1;
      DividesBelow(n, base, Power(base, width - 1));
      DigitsFit(n / base, base, width - 1);
    }
  }

  function Power(base: nat, n: nat): nat
  {
    if n == 0 then 1 else base * Power(base, n - 1)
  }

  lemma DividesBelow(n: nat, base: nat, m: nat)
    requires base > 0 && n < base * m
    ensures n / base < m
  {
  }

  /** Up to 16 MiB every offset takes ten characters. */
  lemma OffsetLength(d: nat, hex: int)
    requires d <= LARGEST
    ensures |Offset(d, hex)| == 10
  {
    var base := if hex != 0 then 16 else 10;
    assert Power(base, 8) > LARGEST by {
      assert Power(10, 4) == 10000 && Power(16, 4) == 65536;
      assert Power(10, 8) == 100000000 && Power(16, 8) == 4294967296;
    }
    DigitsFit(d, base, 8);
  }

  /** A character of cell n: two digits and a space, or blanks where there is no byte. */
  function CellChar(data: seq<byte>, blanks: nat, n: nat, x: nat): char
  {
    if x >= 2 || n < blanks || n - blanks >= |data| then ' '
    else HexStream.Digit(if x == 0 then data[n - blanks] / 16 else data[n - blanks] % 16, false)
  }

  function Printable(data: seq<byte>, blanks: nat, n: nat): char
  {
    if n < blanks || n - blanks >= |data| then ' '
    else if data[n - blanks] < 32 || data[n - blanks] > 126 then '.'
    else data[n - blanks] as char
  }

  /** Where cell i starts in its row. */
  function CellAt(i: nat): nat
  {
    10 + 3 * i + if i >= 8 then 1 else 0
  }

  /** Character x of row r. */
  function RowChar(data: seq<byte>, hex: int, r: nat, x: nat): char
    requires x < BPL
  {
    var blanks := Blanks(hex);
    if x < 10 then (if x < |Offset(16 * r, hex)| then Offset(16 * r, hex)[x] else ' ')
    else if x < 34 then CellChar(data, blanks, 16 * r + (x - 10) / 3, (x - 10) % 3)
    else if x == 34 || x == 59 then ' '
    else if x < 59 then CellChar(data, blanks, 16 * r + 8 + (x - 35) / 3, (x - 35) % 3)
    else if x < 76 then Printable(data, blanks, 16 * r + (x - 60))
    else '\n'
  }

  /** The rows that n bytes take. */
  function RowCount(n: nat, hex: int): nat
  {
    (n + Blanks(hex) + 15) / 16
  }

  function Rows(data: seq<byte>, hex: int): nat
  {
    RowCount(|data|, hex)
  }

  function TextLength(start: nat, data: seq<byte>, hex: int): nat
  {
    start + BPL * Rows(data, hex)
  }

  /** The rows of a dump, character by character, behind `start` other characters. */
  ghost predicate IsDump(s: seq<char>, start: nat, data: seq<byte>, hex: int)
  {
    && |s| == TextLength(start, data, hex)
    && forall r, x :: 0 <= r < Rows(data, hex) && 0 <= x < BPL ==> s[start + BPL * r + x] == RowChar(data, hex, r, x)
  }

  lemma CellStands(data: seq<byte>, hex: int, r: nat, i: nat, x: nat)
    requires i < 16 && x < 3
    ensures CellAt(i) + x < 60 && RowChar(data, hex, r, CellAt(i) + x) == CellChar(data, Blanks(hex), 16 * r + i, x)
  {
    hide Offset, CellChar, Blanks;
    if i < 8 {
      assert (CellAt(i) + x - 10) / 3 == i && (CellAt(i) + x - 10) % 3 == x;
    } else {
      assert (CellAt(i) + x - 35) / 3 == i - 8 && (CellAt(i) + x - 35) % 3 == x;
    }
  }

  lemma InRow(start: nat, data: seq<byte>, hex: int, n: nat)
    requires n < |data| + Blanks(hex)
    ensures n / 16 < Rows(data, hex) && start + BPL * (n / 16) + BPL <= TextLength(start, data, hex)
  {
    hide Blanks;
  }

  lemma CharOfDump(s: seq<char>, start: nat, data: seq<byte>, hex: int, n: nat, x: nat)
    requires IsDump(s, start, data, hex) && n < |data| + Blanks(hex) && x < 3
    ensures var at := start + BPL * (n / 16) + CellAt(n % 16) + x;
      at < |s| && s[at] == CellChar(data, Blanks(hex), n, x)
  {
    hide Blanks, RowChar, CellChar, CellAt;
    InRow(start, data, hex, n);
    CellStands(data, hex, n / 16, n % 16, x);
    assert s[start + BPL * (n / 16) + (CellAt(n % 16) + x)] == RowChar(data, hex, n / 16, CellAt(n % 16) + x);
  }

  /** Two characters of hex columns that stand for a byte. */
  predicate ReadsAs(s: seq<char>, at: nat, b: byte)
  {
    && at + 1 < |s| && HexStream.IsDigit(s[at]) && HexStream.IsDigit(s[at + 1])
    && b == 16 * HexStream.DigitValue(s[at]) + HexStream.DigitValue(s[at + 1])
  }

  /** Reading the hex columns gives back the bytes. */
  lemma ColumnsDecode(s: seq<char>, start: nat, data: seq<byte>, hex: int, k: nat)
    requires IsDump(s, start, data, hex) && k < |data|
    ensures var n := k + Blanks(hex);
      ReadsAs(s, start + BPL * (n / 16) + CellAt(n % 16), data[k])
  {
    hide IsDump, HexStream.Digit, HexStream.DigitValue, HexStream.IsDigit, CellAt, Blanks;
    var n := k + Blanks(hex);
    CharOfDump(s, start, data, hex, n, 0);
    CharOfDump(s, start, data, hex, n, 1);
    HexStream.DigitReads(data[k] / 16, false);
    HexStream.DigitReads(data[k] % 16, false);
  }

  // ----- reading a dump

  /** The number that digits stand for. */
  function ValueIn(s: string, base: nat): nat
  {
    if |s| == 0 then 0 else base * ValueIn(s[..|s| - 1], base) + HexStream.DigitValue(s[|s| - 1])
  }

  function LeadingSpaces(s: string): (n: nat)
    ensures n <= |s|
    ensures forall k :: 0 <= k < n ==> s[k] == ' '
    ensures n < |s| ==> s[n] != ' '
  {
    if |s| == 0 || s[0] != ' ' then 0 else 1 + LeadingSpaces(s[1..])
  }

  /** A number with blanks in front. */
  function ReadNumber(s: string, base: nat): nat
  {
    ValueIn(s[LeadingSpaces(s)..], base)
  }

  lemma ValueStep(s: string, c: char, base: nat)
    ensures ValueIn(s + [c], base) == base * ValueIn(s, base) + HexStream.DigitValue(c)
  {
    hide HexStream.DigitValue;
    assert (s + [c])[..|s|] == s;
  }

  lemma NoDigits(base: nat)
    ensures ValueIn([], base) == 0
  {
  }

  lemma Quotient(n: nat, base: nat)
    requires base >= 2
    ensures n == base * (n / base) + n % base && (n >= base ==> n / base < n) && (n < base ==> n % base == n)
  {
  }

  lemma {:induction false} DigitsValue(n: nat, base: nat)
    requires 2 <= base <= 16
    ensures ValueIn(Digits(n, base), base) == n
    ensures |Digits(n, base)| > 0 && Digits(n, base)[0] != ' '
    decreases n
  {
    hide HexStream.Digit, HexStream.DigitValue, ValueIn;
    Quotient(n, base);
    HexStream.DigitReads(n % base, true);
    NoSpace(n % base);
    var d := HexStream.Digit(n % base, true);
    if n >= base {
      DigitsValue(n / base, base);
      ValueStep(Digits(n / base, base), d, base);
    } else {
      NoDigits(base);
      ValueStep([], d, base);
    }
  }

  lemma NoSpace(n: HexStream.nibble)
    ensures HexStream.Digit(n, true) != ' '
  {
  }

  lemma BlanksInFront(k: nat, s: string)
    requires |s| > 0 && s[0] != ' '
    ensures LeadingSpaces(Spaces(k) + s) == k && (Spaces(k) + s)[k..] == s
  {
    var t := Spaces(k) + s;
    var n := LeadingSpaces(t);
    assert t[k] == s[0];
    assert forall j :: 0 <= j < k ==> t[j] == ' ';
  }

  /** The offset in front of a row: eight columns that read as the number, a colon and a space. */
  lemma OffsetReads(d: nat, hex: int)
    requires d <= LARGEST
    ensures |Offset(d, hex)| == 10 && Offset(d, hex)[8..] == ": "
    ensures ReadNumber(Offset(d, hex)[..8], if hex != 0 then 16 else 10) == d
  {
    hide LeadingSpaces, ValueIn, Digits;
    var s := Digits(d, if hex != 0 then 16 else 10);
    OffsetLength(d, hex);
    DigitsValue(d, if hex != 0 then 16 else 10);
    BlanksInFront(8 - |s|, s);
    assert Offset(d, hex)[..8] == Spaces(8 - |s|) + s;
  }

  /** The rows of a dump count the bytes, in the base that was asked for. */
  lemma RowsAreNumbered(s: seq<char>, start: nat, data: seq<byte>, hex: int, r: nat)
    requires IsDump(s, start, data, hex) && r < Rows(data, hex) && 16 * r <= LARGEST
    ensures var at := start + BPL * r;
      && at + 10 <= |s| && s[at + 8] == ':' && s[at + 9] == ' '
      && ReadNumber(s[at..at + 8], if hex != 0 then 16 else 10) == 16 * r
  {
    hide Offset, ReadNumber, Rows;
    OffsetReads(16 * r, hex);
    var at, o := start + BPL * r, Offset(16 * r, hex);
    assert BPL * r + BPL <= BPL * Rows(data, hex);
    forall x | 0 <= x < 10 ensures s[at + x] == o[x] {
      assert s[start + BPL * r + x] == RowChar(data, hex, r, x);
    }
    assert s[at..at + 8] == o[..8];
    assert o[8] == o[8..][0] && o[9] == o[8..][1];
  }

  /** The character column shows a byte itself exactly when it is a printable one, and else a dot. */
  lemma CharactersShow(s: seq<char>, start: nat, data: seq<byte>, hex: int, k: nat)
    requires IsDump(s, start, data, hex) && k < |data|
    ensures var n := k + if hex == 0 || hex == 2 then 14 else 0;
      var at := start + 77 * (n / 16) + 60 + n % 16;
      && at < |s| && (s[at] as int == data[k] <==> 32 <= data[k] <= 126)
      && (s[at] as int == data[k] || s[at] == '.')
  {
    hide Offset, CellChar, Rows;
    var n := k + Blanks(hex);
    InRow(start, data, hex, n);
    assert s[start + BPL * (n / 16) + (60 + n % 16)] == RowChar(data, hex, n / 16, 60 + n % 16);
  }

  /** What the heading says above the columns of cell i. */
  lemma HeadingNames(i: nat, hex: int)
    requires i < 16
    ensures CellAt(i) + 2 <= HEADING
    ensures ReadNumber(Heading(hex)[CellAt(i)..CellAt(i) + 2], if hex != 0 then 16 else 10) == i <==> i != 10 || hex != 0
  {
    hide HexStream.DigitValue, LeadingSpaces, Right, LEFT, Heading;
    HeadingLength(hex);
    var h := Heading(hex)[CellAt(i)..CellAt(i) + 2];
    if i < 8 {
      LeftHeading(i, hex);
      LeftNames(i);
    } else {
      RightHeading(i, hex);
      RightNames(i - 8, hex);
    }
    NoSpaces(h);
    assert h[0..] == h;
    TwoDigits(h, if hex != 0 then 16 else 10);
  }

  lemma HeadingLength(hex: int)
    ensures |Heading(hex)| == HEADING
  {
  }

  lemma LeftHeading(i: nat, hex: int)
    requires i < 8
    ensures |LEFT| == 24 && CellAt(i) + 2 <= |Heading(hex)|
    ensures Heading(hex)[CellAt(i)] == LEFT[3 * i] && Heading(hex)[CellAt(i) + 1] == LEFT[3 * i + 1]
  {
    hide Right;
    RightLength(hex);
    assert Heading(hex) == "          " + (LEFT + (Right(hex) + "\n\n"));
  }

  lemma RightHeading(i: nat, hex: int)
    requires 8 <= i < 16
    ensures |Right(hex)| >= 3 * (i - 8) + 3 && CellAt(i) + 2 <= |Heading(hex)|
    ensures Heading(hex)[CellAt(i)] == Right(hex)[3 * (i - 8) + 1]
    ensures Heading(hex)[CellAt(i) + 1] == Right(hex)[3 * (i - 8) + 2]
  {
    hide Right;
    RightLength(hex);
    var front := "          " + LEFT;
    assert |front| == 34 && CellAt(i) == 34 + (3 * (i - 8) + 1);
    assert Heading(hex) == front + (Right(hex) + "\n\n");
  }

  lemma RightLength(hex: int)
    ensures |Right(hex)| == 24
  {
  }

  lemma NoSpaces(h: string)
    requires |h| > 0 && h[0] != ' '
    ensures LeadingSpaces(h) == 0
  {
  }

  lemma LeftNames(i: nat)
    requires i < 8
    ensures |LEFT| == 24 && LEFT[3 * i] != ' ' && HexStream.DigitValue(LEFT[3 * i]) == 0 && HexStream.DigitValue(LEFT[3 * i + 1]) == i
  {
    match i {
      case 0 => case 1 => case 2 => case 3 => case 4 => case 5 => case 6 => case _ => assert i == 7;
    }
  }

  lemma RightNames(i: nat, hex: int)
    requires i < 8
    ensures var s := Right(hex);
      && s[3 * i + 1] != ' '
      && HexStream.DigitValue(s[3 * i + 1]) == (if hex == 0 && i >= 2 then 1 else 0)
      && HexStream.DigitValue(s[3 * i + 2]) == if hex != 0 then 8 + i else if i <= 1 then 8 + i else if i == 2 then 9 else i - 2
  {
    match i {
      case 0 => case 1 => case 2 => case 3 => case 4 => case 5 => case 6 => case _ => assert i == 7;
    }
  }

  lemma TwoDigits(h: string, base: nat)
    requires |h| == 2
    ensures ValueIn(h, base) == base * HexStream.DigitValue(h[0]) + HexStream.DigitValue(h[1])
  {
    hide HexStream.DigitValue;
    assert h[..1] == [h[0]] && h[..1][..0] == [];
    assert ValueIn(h[..1], base) == base * ValueIn([], base) + HexStream.DigitValue(h[0]);
  }

  // ----- writing a row

  /** Of row r, which starts at L, the first `hi` characters and those from 60 up to `lo` are written. */
  ghost predicate Written(s: seq<char>, L: nat, data: seq<byte>, hex: int, r: nat, hi: nat, lo: nat)
  {
    && L + BPL <= |s| && hi <= 60 <= lo <= BPL
    && forall x :: 0 <= x < BPL && (x < hi || 60 <= x < lo) ==> s[L + x] == RowChar(data, hex, r, x)
  }

  /** Cell i and its character go into row r; everything else is as before. */
  ghost predicate CellPut(s: seq<char>, t: seq<char>, L: nat, data: seq<byte>, hex: int, r: nat, i: nat)
    requires i < 16 && L + BPL <= |s| == |t|
  {
    && t[L + CellAt(i)] == CellChar(data, Blanks(hex), 16 * r + i, 0)
    && t[L + CellAt(i) + 1] == CellChar(data, Blanks(hex), 16 * r + i, 1)
    && t[L + CellAt(i) + 2] == CellChar(data, Blanks(hex), 16 * r + i, 2)
    && (i == 7 ==> t[L + 34] == ' ')
    && t[L + 60 + i] == Printable(data, Blanks(hex), 16 * r + i)
    && (forall k :: 0 <= k < |s| && !(L + CellAt(i) <= k < L + CellAt(i + 1)) && k != L + 60 + i ==> t[k] == s[k])
  }

  lemma WrittenExtends(s: seq<char>, t: seq<char>, L: nat, data: seq<byte>, hex: int, r: nat, i: nat)
    requires i < 16 && |s| == |t| && Written(s, L, data, hex, r, CellAt(i), 60 + i) && CellPut(s, t, L, data, hex, r, i)
    ensures Written(t, L, data, hex, r, CellAt(i + 1), 60 + (i + 1))
  {
    hide RowChar, CellChar, Printable, Blanks;
    CellStands(data, hex, r, i, 0);
    CellStands(data, hex, r, i, 1);
    CellStands(data, hex, r, i, 2);
    OtherChars(data, hex, r, i);
    forall x | 0 <= x < BPL && (x < CellAt(i + 1) || 60 <= x < 60 + (i + 1)) ensures t[L + x] == RowChar(data, hex, r, x) {
      if x < CellAt(i) || 60 <= x < 60 + i {
        assert t[L + x] == s[L + x];
      }
    }
  }

  lemma OtherChars(data: seq<byte>, hex: int, r: nat, i: nat)
    requires i < 16
    ensures RowChar(data, hex, r, 34) == RowChar(data, hex, r, 59) == ' ' && RowChar(data, hex, r, 76) == '\n'
    ensures RowChar(data, hex, r, 60 + i) == Printable(data, Blanks(hex), 16 * r + i)
  {
    hide Offset, Printable, CellChar;
  }

  /** Writes a cell at p and its character at e; both cursors move on. */
  method PutCell(buf: array<char>, p0: nat, e0: nat, high: char, low: char, shown: char, wide: bool) returns (p: nat, e: nat)
    requires p0 + 4 <= e0 < buf.Length
    modifies buf
    ensures p == p0 + (if wide then 4 else 3) && e == e0 + 1
    ensures buf[p0] == high && buf[p0 + 1] == low && buf[p0 + 2] == ' ' && (wide ==> buf[p0 + 3] == ' ')
    ensures buf[e0] == shown
    ensures forall k :: 0 <= k < buf.Length && !(p0 <= k < p) && k != e0 ==> buf[k] == old(buf[k])
  {
    p, e := p0, e0;
    buf[p] := high;
    p := p + 1;
    buf[p] := low;
    p := p + 1;
    buf[e] := shown;
    e := e + 1;
    buf[p] := ' ';
    p := p + 1;
    if wide {
      buf[p] := ' ';
      p := p + 1;
    }
  }

  /** The inner loop: the cells of row r up to the end of the row or of the data. `max` counts the
  blanks still to come, q the bytes done. */
  method PrintCells(buf: array<char>, L: nat, data: seq<byte>, hex: int, r: nat, q0: nat, max0: nat)
    returns (i: nat, q: nat, max: nat, p: nat, e: nat)
    requires L + BPL <= buf.Length && Written(buf[..], L, data, hex, r, 10, 60)
    requires q0 <= |data| && q0 + Blanks(hex) == 16 * r + max0 && (max0 == 0 || q0 == 0)
    requires |data| > 0 && q0 == |data| ==> max0 == 0
    modifies buf
    ensures i <= 16 && q <= |data| && (i < 16 ==> q == |data|) && (|data| == 0 ==> i == 0)
    ensures |data| > 0 && q == |data| ==> max == 0
    ensures q + Blanks(hex) == 16 * r + i + max && (max == 0 || q == 0)
    ensures p == L + CellAt(i) && e == L + 60 + i
    ensures Written(buf[..], L, data, hex, r, CellAt(i), 60 + i)
    ensures forall k :: 0 <= k < buf.Length && (!(L <= k < L + BPL) || |data| == 0) ==> buf[k] == old(buf[k])
  {
    hide RowChar, Blanks, Written, HexStream.Digit;
    p, e := L + 10, L + 60;
    i, q, max := 0, q0, max0;
    while i < 16 && q < |data|
      invariant i <= 16 && q <= |data| && p == L + CellAt(i) && e == L + 60 + i
      invariant q + Blanks(hex) == 16 * r + i + max && (max == 0 || q == 0)
      invariant (|data| > 0 && q == |data| ==> max == 0) && (|data| == 0 ==> i == 0)
      invariant Written(buf[..], L, data, hex, r, CellAt(i), 60 + i)
      invariant forall k :: 0 <= k < buf.Length && (!(L <= k < L + BPL) || |data| == 0) ==> buf[k] == old(buf[k])
    {
      ghost var was := buf[..];
      if max != 0 {
        p, e := PutCell(buf, p, e, ' ', ' ', ' ', i == 7);
        max := max - 1;
      } else {
        var c := data[q];
        q := q + 1;
        if c < 15 {
          p, e := PutCell(buf, p, e, '0', HexStream.Digit(c, false), '.', i == 7);
          SmallByte(c);
        } else {
          p, e := PutCell(buf, p, e, HexStream.Digit(c / 16 % 16, false), HexStream.Digit(c % 16, false),
                          if c < 32 || c > 126 then '.' else c as char, i == 7);
        }
      }
      WrittenExtends(was, buf[..], L, data, hex, r, i);
      i := i + 1;
    }
  }

  lemma SmallByte(c: byte)
    requires c < 15
    ensures HexStream.Digit(c / 16, false) == '0' && c % 16 == c
  {
  }

  /** sprintf of the offset, with its terminator. */
  method PrintOffset(buf: array<char>, L: nat, data: seq<byte>, hex: int, r: nat)
    requires L + BPL <= buf.Length && 16 * r <= LARGEST
    modifies buf
    ensures Written(buf[..], L, data, hex, r, 10, 60)
    ensures forall k :: 0 <= k < buf.Length && !(L <= k < L + 11) ==> buf[k] == old(buf[k])
  {
    hide Offset, Blanks, CellChar, Printable;
    OffsetLength(16 * r, hex);
    var text := Offset(16 * r, hex) + "\0";
    for i := 0 to |text|
      invariant forall x :: 0 <= x < i ==> buf[L + x] == text[x]
      invariant forall k :: 0 <= k < buf.Length && !(L <= k < L + 11) ==> buf[k] == old(buf[k])
    {
      buf[L + i] := text[i];
    }
    forall x | 0 <= x < 10 ensures buf[L + x] == RowChar(data, hex, r, x) {
      assert buf[L + x] == text[x];
    }
  }

  /** The end of a full row. */
  method EndRow(buf: array<char>, L: nat, data: seq<byte>, hex: int, r: nat)
    requires L + BPL <= buf.Length && Written(buf[..], L, data, hex, r, CellAt(16), 76)
    modifies buf
    ensures Written(buf[..], L, data, hex, r, 60, BPL)
    ensures forall k :: 0 <= k < buf.Length && !(L <= k < L + BPL) ==> buf[k] == old(buf[k])
  {
    hide RowChar;
    OtherChars(data, hex, r, 0);
    ghost var was := buf[..];
    buf[L + 59] := ' ';
    buf[L + 76] := '\n';
    forall x | 0 <= x < BPL ensures buf[L + x] == RowChar(data, hex, r, x) {
      assert x != 59 && x != 76 ==> buf[L + x] == was[L + x];
    }
  }

  /** The end of the last row, m cells of which are there. */
  method FinishRow(buf: array<char>, p0: nat, e0: nat, m: nat) returns (e: nat)
    requires m < 16 && p0 + (if m < 8 then 1 else 0) + 3 * (16 - m) + 1 <= e0 && e0 + 17 - m <= buf.Length
    modifies buf
    ensures e == e0 + 17 - m && buf[e - 1] == '\n'
    ensures forall k :: p0 <= k < p0 + (if m < 8 then 1 else 0) + 3 * (16 - m) + 1 ==> buf[k] == ' '
    ensures forall k :: e0 <= k < e0 + 16 - m ==> buf[k] == ' '
    ensures forall k :: 0 <= k < buf.Length ==>
      (p0 <= k < p0 + (if m < 8 then 1 else 0) + 3 * (16 - m) + 1) || e0 <= k < e || buf[k] == old(buf[k])
  {
    var p: nat := p0;
    e := e0;
    if m < 8 {
      buf[p] := ' ';
      p := p + 1;
    }
    for i := m to 16
      invariant p == p0 + (if m < 8 then 1 else 0) + 3 * (i - m) && e == e0 + i - m
      invariant forall k :: p0 <= k < p ==> buf[k] == ' '
      invariant forall k :: e0 <= k < e ==> buf[k] == ' '
      invariant forall k :: 0 <= k < buf.Length && !(p0 <= k < p) && !(e0 <= k < e) ==> buf[k] == old(buf[k])
    {
      buf[p], buf[p + 1], buf[p + 2], buf[e] := ' ', ' ', ' ', ' ';
      p, e := p + 3, e + 1;
    }
    buf[p] := ' ';
    p := p + 1;
    buf[e] := '\n';
    e := e + 1;
  }

  /** Behind the last byte a row is blank. */
  lemma BlankTail(data: seq<byte>, hex: int, r: nat, m: nat, x: nat)
    requires m < 16 && 16 * r + m == |data| + Blanks(hex)
    requires CellAt(m) <= x < 60 || 60 + m <= x < 76
    ensures RowChar(data, hex, r, x) == ' '
  {
    hide Blanks, HexStream.Digit, Offset;
  }

  lemma RowFinished(s: seq<char>, t: seq<char>, L: nat, data: seq<byte>, hex: int, r: nat, m: nat)
    requires m < 16 && 16 * r + m == |data| + Blanks(hex) && |s| == |t|
    requires Written(s, L, data, hex, r, CellAt(m), 60 + m)
    requires forall k :: L + CellAt(m) <= k < L + 60 || L + 60 + m <= k < L + 76 ==> t[k] == ' '
    requires t[L + 76] == '\n'
    requires forall k :: 0 <= k < |s| && !(L + CellAt(m) <= k < L + 60) && !(L + 60 + m <= k < L + BPL) ==> t[k] == s[k]
    ensures Written(t, L, data, hex, r, 60, BPL)
  {
    hide RowChar, Blanks;
    OtherChars(data, hex, r, 0);
    forall x | 0 <= x < BPL ensures t[L + x] == RowChar(data, hex, r, x) {
      if CellAt(m) <= x < 60 || 60 + m <= x < 76 {
        BlankTail(data, hex, r, m, x);
      }
    }
  }

  // ----- the whole dump

  ghost predicate RowDone(s: seq<char>, start: nat, data: seq<byte>, hex: int, r: nat)
  {
    Written(s, start + BPL * r, data, hex, r, 60, BPL)
  }

  /** The heading and the first r rows are written. */
  ghost predicate RowsDone(s: seq<char>, start: nat, data: seq<byte>, hex: int, r: nat)
  {
    && start + BPL * r <= |s|
    && forall q :: 0 <= q < r ==> RowDone(s, start, data, hex, q)
  }

  lemma RowsKept(s: seq<char>, t: seq<char>, start: nat, data: seq<byte>, hex: int, r: nat)
    requires RowsDone(s, start, data, hex, r) && |s| == |t|
    requires forall k :: 0 <= k < start + BPL * r ==> t[k] == s[k]
    ensures RowsDone(t, start, data, hex, r)
  {
    hide Heading, RowChar;
    forall q | 0 <= q < r ensures RowDone(t, start, data, hex, q) {
      assert RowDone(s, start, data, hex, q);
      assert BPL * q + BPL <= BPL * r;
    }
  }

  lemma OneMoreRow(s: seq<char>, start: nat, data: seq<byte>, hex: int, r: nat)
    requires RowsDone(s, start, data, hex, r) && Written(s, start + BPL * r, data, hex, r, 60, BPL)
    ensures RowsDone(s, start, data, hex, r + 1)
  {
    hide Written;
    assert start + BPL * r + BPL <= |s| by {
      WrittenFits(s, start + BPL * r, data, hex, r);
    }
  }

  lemma WrittenFits(s: seq<char>, L: nat, data: seq<byte>, hex: int, r: nat)
    requires Written(s, L, data, hex, r, 60, BPL)
    ensures L + BPL <= |s|
  {
  }

  lemma AllRowsDone(s: seq<char>, start: nat, data: seq<byte>, hex: int)
    requires RowsDone(s, start, data, hex, Rows(data, hex))
    ensures IsDump(s[..TextLength(start, data, hex)], start, data, hex)
  {
    hide Heading, RowChar, Rows;
    var t := s[..TextLength(start, data, hex)];
    forall r: nat, x: nat | r < Rows(data, hex) && x < BPL ensures t[start + BPL * r + x] == RowChar(data, hex, r, x) {
      assert RowDone(s, start, data, hex, r);
      assert BPL * r + BPL <= BPL * Rows(data, hex);
    }
  }

  // ----- how much is dumped, and where it ends

  /** Beyond the largest value of a size_t. */
  const SIZES: nat := 0x1_0000_0000_0000_0000

  /** The heading is cut off at the end of the buffer. */
  function Start(buflen: nat): (n: nat)
    requires buflen >= 1
    ensures n <= HEADING
  {
    if buflen - 1 < HEADING then buflen - 1 else HEADING
  }

  /** The characters before the terminator. */
  function TextIn(mem: seq<char>): (n: nat)
    requires '\0' in mem
    ensures n < |mem| && mem[n] == '\0' && '\0' !in mem[..n]
  {
    if mem[0] == '\0' then 0
    else
      assert mem == [mem[0]] + mem[1..];
      var n := TextIn(mem[1..]);
      assert mem[..n + 1] == [mem[0]] + mem[1..][..n];
      n + 1
  }

  /** Where the rows start: behind the heading, or, if nothing can be written into a buffer of no
  characters, behind whatever text is there. */
  function StartIn(mem: seq<char>, buflen: nat): nat
    requires buflen == 0 ==> '\0' in mem
  {
    if buflen == 0 then TextIn(mem) else Start(buflen)
  }

  /** The room for bytes, in the arithmetic of size_t: it wraps around for a buffer that does not
  hold the heading, and for one that holds it but no row if there are blanks in front. */
  function Room(buflen: nat, hex: int): nat
  {
    ((buflen - HEADING - 1) % SIZES / BPL * 16 - Blanks(hex)) % SIZES
  }

  function Min(a: nat, b: nat): nat
  {
    if a < b then a else b
  }

  /** How many bytes are dumped: as many as there is room for, and no more than 16 MiB. */
  function Shown(dlen: nat, buflen: nat, hex: int): (n: nat)
    ensures n <= dlen
  {
    Min(Min(dlen, Room(buflen, hex)), LARGEST - Blanks(hex))
  }

  /** Where n bytes dumped behind `start` characters end. Without bytes, the blanks in front are not
  written as cells, but a last row is finished. */
  function EndOf(start: nat, n: nat, hex: int): nat
  {
    if n == 0 && Blanks(hex) > 0 then start + 63 else start + BPL * RowCount(n, hex)
  }

  /** Everything bdump writes is in the buffer it was given. */
  predicate StaysInside(start: nat, dlen: nat, buflen: nat, hex: int)
  {
    Room(buflen, hex) == 0 || EndOf(start, Shown(dlen, buflen, hex), hex) < buflen
  }

  lemma RoomIs(buflen: nat, hex: int)
    requires buflen < SIZES
    ensures buflen >= HEADING + 1 ==> Room(buflen, hex) == ((buflen - HEADING - 1) / BPL * 16 - Blanks(hex)) % SIZES
    ensures buflen < HEADING + 1 ==> Room(buflen, hex) >= LARGEST
    ensures HEADING + 1 <= buflen < HEADING + 1 + BPL ==> Room(buflen, hex) == if Blanks(hex) > 0 then SIZES - 14 else 0
    ensures buflen >= HEADING + 1 + BPL ==>
      0 < Room(buflen, hex) == (buflen - HEADING - 1) / BPL * 16 - Blanks(hex)
  {
    var n: int := buflen - HEADING - 1;
    Wrapped(n);
    var m := n % SIZES;
    var q := m / BPL;
    RowsIn(m);
    Wrapped(q * 16 - Blanks(hex));
    if n < 0 {
      assert m == SIZES + n && q * BPL + BPL > m;
    }
  }

  lemma Wrapped(n: int)
    requires 0 - SIZES <= n < SIZES
    ensures n % SIZES == if n >= 0 then n else n + SIZES
  {
  }

  lemma RowsIn(m: nat)
    requires m < SIZES
    ensures var q := m / BPL; q * BPL <= m < q * BPL + BPL && q * 16 < SIZES && (q == 0 <==> m < BPL)
  {
  }

  /** With room for a row, the dump ends inside the buffer. */
  lemma LargeEnough(dlen: nat, buflen: nat, hex: int)
    requires HEADING + 1 + BPL <= buflen < SIZES
    ensures HEADING + BPL * RowCount(Shown(dlen, buflen, hex), hex) < buflen
  {
    hide Room;
    RoomIs(buflen, hex);
    var k, n := (buflen - HEADING - 1) / BPL, Shown(dlen, buflen, hex);
    assert n + Blanks(hex) <= 16 * k;
    assert RowCount(n, hex) <= k;
    assert BPL * RowCount(n, hex) <= BPL * k <= buflen - HEADING - 1;
  }

  /** Exactly when that is so: with room for the heading and a row; or with room for the heading and
  no blanks in front, when nothing at all is written to a buffer too small; or without data, if
  there are no blanks in front or they fit. In a buffer of no characters nothing is. */
  lemma StaysInsideIff(start: nat, dlen: nat, buflen: nat, hex: int)
    requires buflen < SIZES && (buflen > 0 ==> start == Start(buflen))
    ensures StaysInside(start, dlen, buflen, hex)
      <==> buflen > 0
           && (buflen >= HEADING + 1 + BPL || (buflen >= HEADING + 1 && Blanks(hex) == 0)
               || (dlen == 0 && (Blanks(hex) == 0 || buflen >= HEADING + 64)))
  {
    hide Room;
    RoomIs(buflen, hex);
    if buflen >= HEADING + 1 + BPL {
      LargeEnough(dlen, buflen, hex);
    } else if Room(buflen, hex) != 0 {
      assert Shown(dlen, buflen, hex) == Min(dlen, LARGEST - Blanks(hex));
      assert dlen > 0 ==> RowCount(Shown(dlen, buflen, hex), hex) >= 1;
    }
  }

  /** One byte, decimal, a buffer of 100 characters: the dump ends at 137. */
  lemma OneByteRunsOut()
    ensures EndOf(Start(100), Shown(1, 100, 0), 0) == 137 && !StaysInside(Start(100), 1, 100, 0)
  {
    hide Room;
    RoomIs(100, 0);
    StaysInsideIff(Start(100), 1, 100, 0);
    assert Shown(1, 100, 0) == 1;
  }

  /** With room for a row, everything is dumped exactly when the rows it takes and the terminator fit
  and it is not beyond 16 MiB. */
  lemma ShowsAllIff(dlen: nat, buflen: nat, hex: int)
    requires HEADING + 1 + BPL <= buflen < SIZES
    ensures Shown(dlen, buflen, hex) == dlen
      <==> dlen == 0 || (HEADING + BPL * RowCount(dlen, hex) < buflen && dlen + Blanks(hex) <= LARGEST)
  {
    hide Room;
    RoomIs(buflen, hex);
    LargeEnough(dlen, buflen, hex);
    var k := (buflen - HEADING - 1) / BPL;
    if dlen > 0 && HEADING + BPL * RowCount(dlen, hex) < buflen {
      assert RowCount(dlen, hex) <= k;
    }
  }

  // ----- bdump

  /** Between two rows of the main loop: d / 16 rows are complete. */
  ghost predicate Complete(s: seq<char>, start: nat, data: seq<byte>, hex: int, d: nat, p: nat, e: nat, q: nat, max: nat)
  {
    && d % 16 == 0 && p == start + BPL * (d / 16) && e == p + 60
    && q <= |data| && q + Blanks(hex) == d + max && (max == 0 || q == 0) && (|data| > 0 && q == |data| ==> max == 0)
    && RowsDone(s, start, data, hex, d / 16)
  }

  /** After the main loop, if the last row, which starts at L, is not full. */
  ghost predicate Partial(s: seq<char>, start: nat, data: seq<byte>, hex: int, r: nat, m: nat, p: nat, e: nat)
  {
    var L := start + BPL * r;
    && 0 < m < 16 && 16 * r + m == |data| + Blanks(hex) && RowsDone(s, start, data, hex, r)
    && if |data| > 0 then p == L + CellAt(m) && e == L + 60 + m && Written(s, L, data, hex, r, CellAt(m), 60 + m)
       else p == L + 10 && e == L + 60
  }

  /** Before and behind the rows nothing has changed. */
  ghost predicate SameOutside(s: seq<char>, t: seq<char>, start: nat, data: seq<byte>, hex: int)
  {
    && |s| == |t|
    && (forall k :: 0 <= k < start && k < |s| ==> t[k] == s[k])
    && (forall k :: EndOf(start, |data|, hex) < k < |s| ==> t[k] == s[k])
  }

  lemma SameOutsideAgain(s: seq<char>, t: seq<char>, u: seq<char>, start: nat, data: seq<byte>, hex: int)
    requires SameOutside(s, t, start, data, hex) && SameOutside(t, u, start, data, hex)
    ensures SameOutside(s, u, start, data, hex)
  {
    hide EndOf;
  }

  /** A row lies before the end, and so does what is written of one without data. */
  lemma RowIsBefore(s: seq<char>, t: seq<char>, start: nat, data: seq<byte>, hex: int, d: nat)
    requires |s| == |t| && d < |data| + Blanks(hex)
    requires forall k :: 0 <= k < |s| && !(start + BPL * (d / 16) <= k < start + BPL * (d / 16) + BPL) ==> t[k] == s[k]
    requires |data| == 0 ==> forall k :: start + 63 < k < |s| ==> t[k] == s[k]
    ensures SameOutside(s, t, start, data, hex)
  {
    hide Blanks;
    InRow(start, data, hex, d);
  }

  /** One round of the main loop. */
  method PrintRow(buf: array<char>, ghost start: nat, data: seq<byte>, hex: int, d: nat, p0: nat, q0: nat, max0: nat)
    returns (p: nat, e: nat, q: nat, max: nat)
    requires Complete(buf[..], start, data, hex, d, p0, p0 + 60, q0, max0)
    requires d < |data| + Blanks(hex) <= LARGEST && TextLength(start, data, hex) < buf.Length
    modifies buf
    ensures if d + 16 <= |data| + Blanks(hex) then Complete(buf[..], start, data, hex, d + 16, p, e, q, max)
            else Partial(buf[..], start, data, hex, d / 16, |data| + Blanks(hex) - d, p, e)
    ensures SameOutside(old(buf[..]), buf[..], start, data, hex)
  {
    hide RowsDone, Written, SameOutside;
    ghost var was, r := buf[..], d / 16;
    InRow(start, data, hex, d);
    PrintOffset(buf, p0, data, hex, d / 16);
    var i;
    i, q, max, p, e := PrintCells(buf, p0, data, hex, d / 16, q0, max0);
    RowsKept(was, buf[..], start, data, hex, r);
    ghost var printed := buf[..];
    if i == 16 {
      EndRow(buf, p0, data, hex, d / 16);
      p, e := p + 1 + 16 + 1, e + 1 + (BPL - 16 - 1);
      RowsKept(printed, buf[..], start, data, hex, r);
      OneMoreRow(buf[..], start, data, hex, r);
    }
    RowIsBefore(was, buf[..], start, data, hex, d);
  }

  /** Finishes the last row. */
  method CompleteRow(buf: array<char>, ghost start: nat, data: seq<byte>, hex: int, p: nat, e0: nat, ghost r: nat, m: nat)
    returns (e: nat)
    requires Partial(buf[..], start, data, hex, r, m, p, e0) && TextLength(start, data, hex) < buf.Length
    modifies buf
    ensures e < buf.Length
    ensures |data| > 0 ==> RowsDone(buf[..], start, data, hex, r + 1) && e == start + BPL * (r + 1)
    ensures |data| == 0 ==> e == start + BPL * r + 60 + 17 - m
    ensures SameOutside(old(buf[..]), buf[..], start, data, hex)
  {
    hide RowsDone, Written, RowChar, SameOutside;
    ghost var was := buf[..];
    InRow(start, data, hex, 16 * r);
    e := FinishRow(buf, p, e0, m);
    RowIsBefore(was, buf[..], start, data, hex, 16 * r);
    if |data| > 0 {
      RowFinished(was, buf[..], start + BPL * r, data, hex, r, m);
      RowsKept(was, buf[..], start, data, hex, r);
      OneMoreRow(buf[..], start, data, hex, r);
    }
  }

  lemma RowsAre(start: nat, data: seq<byte>, hex: int)
    ensures var total := |data| + Blanks(hex);
      && Rows(data, hex) == total / 16 + (if total % 16 == 0 then 0 else 1)
      && TextLength(start, data, hex) == start + BPL * Rows(data, hex)
      && (|data| == 0 && Blanks(hex) > 0 ==>
          total / 16 == 0 && total % 16 == 14 && EndOf(start, |data|, hex) == start + 63)
      && (|data| == 0 && Blanks(hex) == 0 ==> total / 16 == 0 && total % 16 == 0)
      && (|data| > 0 || Blanks(hex) == 0 ==> EndOf(start, |data|, hex) == TextLength(start, data, hex))
  {
  }

  /** Blanks in front of nothing are counted as a row, but none is written. */
  lemma NoRowIsNoDump(s: seq<char>, start: nat, data: seq<byte>, hex: int)
    requires |s| == EndOf(start, |data|, hex) && |data| == 0 && Blanks(hex) > 0
    ensures !IsDump(s, start, data, hex)
  {
  }

  /** No data, decimal, a buffer of 200 characters: the result is 123, where a row ends at 137. */
  lemma NothingIsNoDump(s: seq<char>)
    requires |s| == 123
    ensures EndOf(Start(200), Shown(0, 200, 0), 0) == 123 && !IsDump(s, Start(200), [], 0)
  {
    NoRowIsNoDump(s, HEADING, [], 0);
  }

  /** What follows the main loop: the last row is finished, and the text terminated. */
  method Terminate(buf: array<char>, ghost start: nat, data: seq<byte>, hex: int, ghost d: nat, p: nat, e0: nat,
                   ghost q: nat, ghost max: nat)
    returns (e: nat)
    requires TextLength(start, data, hex) < buf.Length
    requires var total := |data| + Blanks(hex);
      if total % 16 == 0 then d == total && Complete(buf[..], start, data, hex, d, p, e0, q, max)
      else Partial(buf[..], start, data, hex, total / 16, total % 16, p, e0)
    modifies buf
    ensures e == EndOf(start, |data|, hex) && e < buf.Length && buf[e] == '\0'
    ensures IsDump(buf[..e], start, data, hex) <==> |data| > 0 || Blanks(hex) == 0
    ensures SameOutside(old(buf[..]), buf[..], start, data, hex)
  {
    hide RowsDone, Written, IsDump, RowChar, Heading, Rows, Blanks, TextLength, CellAt, EndOf;
    var m := (|data| + Blanks(hex)) % 16;
    RowsAre(start, data, hex);
    if m != 0 {
      e := CompleteRow(buf, start, data, hex, p, e0, (|data| + Blanks(hex)) / 16, m);
    } else {
      e := e0 - (BPL - 16 - 1);
    }
    ghost var full := buf[..];
    buf[e] := '\0';
    if |data| > 0 || Blanks(hex) == 0 {
      RowsKept(full, buf[..], start, data, hex, Rows(data, hex));
      AllRowsDone(buf[..], start, data, hex);
    } else {
      NoRowIsNoDump(buf[..e], start, data, hex);
    }
  }

  /** The rows, and the end, for the bytes that are dumped; the heading is there. */
  method PrintRows(buf: array<char>, start: nat, data: seq<byte>, hex: int) returns (n: nat)
    requires start <= buf.Length
    requires |data| + Blanks(hex) <= LARGEST && TextLength(start, data, hex) < buf.Length
    modifies buf
    ensures n == EndOf(start, |data|, hex) && n < buf.Length && buf[n] == '\0'
    ensures IsDump(buf[..n], start, data, hex) <==> |data| > 0 || Blanks(hex) == 0
    ensures SameOutside(old(buf[..]), buf[..], start, data, hex)
  {
    hide IsDump, Complete, Partial, RowsDone, TextLength, Rows, SameOutside, EndOf;
    ghost var was := buf[..];
    var p: nat, e: nat, q: nat, d: nat := start, start + 60, 0, 0;
    var max, total := Blanks(hex), |data| + Blanks(hex);
    StartsComplete(buf[..], start, data, hex);
    SameAtFirst(was, start, data, hex);
    while d < total
      invariant d % 16 == 0 && d < total + 16
      invariant d <= total ==> Complete(buf[..], start, data, hex, d, p, e, q, max)
      invariant d > total ==> Partial(buf[..], start, data, hex, total / 16, total % 16, p, e)
      invariant SameOutside(was, buf[..], start, data, hex)
    {
      RowPositions(buf[..], start, data, hex, d, p, e, q, max);
      ghost var before := buf[..];
      p, e, q, max := PrintRow(buf, start, data, hex, d, p, q, max);
      SameOutsideAgain(was, before, buf[..], start, data, hex);
      d := d + 16;
    }
    ghost var before := buf[..];
    n := Terminate(buf, start, data, hex, d, p, e, q, max);
    SameOutsideAgain(was, before, buf[..], start, data, hex);
  }

  lemma SameAtFirst(s: seq<char>, start: nat, data: seq<byte>, hex: int)
    ensures SameOutside(s, s, start, data, hex)
  {
  }

  /** bdump, for a buffer of buflen characters at the start of the memory buf, which goes on behind
  the buffer as far as bdump goes. Whatever the length, the text is the dump of the bytes shown
  behind as much of the heading as fits, and its end is where EndOf says. */
  method BDump(data: seq<byte>, buf: array<char>, buflen: nat, hex: int) returns (n: nat)
    requires buflen < SIZES && (buflen == 0 ==> '\0' in buf[..])
    requires Room(buflen, hex) != 0 ==>
      StartIn(buf[..], buflen) + BPL * RowCount(Shown(|data|, buflen, hex), hex) < buf.Length
    modifies buf
    ensures Room(buflen, hex) == 0 ==> n == 0 && buf[..] == old(buf[..])
    ensures Room(buflen, hex) != 0 ==>
      var start, shown := StartIn(old(buf[..]), buflen), data[..Shown(|data|, buflen, hex)];
      && n == EndOf(start, |shown|, hex) && n < buf.Length && buf[n] == '\0'
      && (buflen > 0 ==> buf[..start] == Heading(hex)[..start])
      && (buflen == 0 ==> start <= buf.Length && buf[..start] == old(buf[..])[..start])
      && (IsDump(buf[..n], start, shown, hex) <==> |shown| > 0 || Blanks(hex) == 0)
      && (forall k :: n < k < buf.Length ==> buf[k] == old(buf[k]))
  {
    hide IsDump, Heading, Room, EndOf;
    var max := Room(buflen, hex);
    if max == 0 {
      return 0;
    }
    var dlen := |data|;
    if dlen > max {
      dlen := max;
    }
    if dlen > LARGEST - Blanks(hex) {
      dlen := LARGEST - Blanks(hex);
    }
    assert dlen == Shown(|data|, buflen, hex);
    ghost var was := buf[..];
    var start := PrintHeading(buf, buflen, hex);
    ghost var headed := buf[..];
    EndIsBehind(start, dlen, hex);
    n := PrintRows(buf, start, data[..dlen], hex);
    assert buf[..start] == headed[..start];
  }

  lemma EndIsBehind(start: nat, n: nat, hex: int)
    ensures start <= EndOf(start, n, hex)
  {
  }

  /** snprintf of the heading, with its terminator, and the length of what is then there. */
  method PrintHeading(buf: array<char>, buflen: nat, hex: int) returns (start: nat)
    requires buflen == 0 ==> '\0' in buf[..]
    requires buflen > 0 ==> buf.Length > Start(buflen)
    modifies buf
    ensures start == StartIn(old(buf[..]), buflen) && start < buf.Length
    ensures if buflen == 0 then buf[..] == old(buf[..]) else buf[..start] == Heading(hex)[..start]
    ensures forall k :: start < k < buf.Length ==> buf[k] == old(buf[k])
  {
    hide Heading;
    if buflen == 0 {
      start := TextLengthIn(buf);
      return;
    }
    start := Start(buflen);
    var text := Heading(hex)[..start] + "\0";
    for i := 0 to |text|
      invariant forall x :: 0 <= x < i ==> buf[x] == text[x]
      invariant forall k :: i <= k < buf.Length ==> buf[k] == old(buf[k])
    {
      buf[i] := text[i];
    }
    assert forall x :: 0 <= x < start ==> buf[x] == text[x] == Heading(hex)[..start][x];
    assert buf[..start] == Heading(hex)[..start];
  }

  /** strlen */
  method TextLengthIn(buf: array<char>) returns (n: nat)
    requires '\0' in buf[..]
    ensures n == TextIn(buf[..])
  {
    ghost var end := TextIn(buf[..]);
    forall k | 0 <= k < end ensures buf[k] != '\0' {
      assert buf[..][..end][k] == buf[k];
    }
    n := 0;
    while buf[n] != '\0'
      invariant n <= end
      decreases end - n
    {
      n := n + 1;
    }
  }

  lemma StartsComplete(s: seq<char>, start: nat, data: seq<byte>, hex: int)
    requires start <= |s|
    ensures Complete(s, start, data, hex, 0, start, start + 60, 0, Blanks(hex))
  {
  }

  lemma RowPositions(s: seq<char>, start: nat, data: seq<byte>, hex: int, d: nat, p: nat, e: nat, q: nat, max: nat)
    requires Complete(s, start, data, hex, d, p, e, q, max)
    ensures e == p + 60
  {
  }
}
