/** Which protocol follows which header: the table and the searches of headers.c.

A header list `hdrs` is the string of option characters of the `-p` modules, outermost first.
Reading it outside its bounds gives the NUL character.
*/
module Headers {
  import opened Bytes

  datatype Entry = Entry(optChar: char, ipproto: byte)

  const SENDIP_HEADERS: seq<Entry> := [
    Entry('H', 0), Entry('F', 44), Entry('g', 47), Entry('e', 50), Entry('a', 51),
    Entry('c', 58), Entry('t', 6), Entry('u', 17), Entry('i', 4), Entry('6', 41),
    Entry('d', 60), Entry('o', 43), Entry('s', 132), Entry('w', 141), Entry('\0', 59),
    Entry('n', 59), Entry('r', 59), Entry('R', 59)]

  const IPPROTO_NONE: byte := 59

  /** The assigned protocol number of a module's header. */
  function ProtocolOf(hdr: char): byte
  {
    match hdr
    case 'H' => 0
    case 'i' => 4
    case 't' => 6
    case 'u' => 17
    case '6' => 41
    case 'o' => 43
    case 'F' => 44
    case 'g' => 47
    case 'e' => 50
    case 'a' => 51
    case 'c' => 58
    case 'd' => 60
    case 's' => 132
    case 'w' => 141
    case _ => IPPROTO_NONE
  }

  function CharAt(hdrs: string, i: int): char
  {
    if 0 <= i < |hdrs| then hdrs[i] else '\0'
  }

  /** Where the table holds the entry of a header. */
  function Position(hdr: char): nat
  {
    match hdr
    case 'H' => 0
    case 'F' => 1
    case 'g' => 2
    case 'e' => 3
    case 'a' => 4
    case 'c' => 5
    case 't' => 6
    case 'u' => 7
    case 'i' => 8
    case '6' => 9
    case 'd' => 10
    case 'o' => 11
    case 's' => 12
    case _ => 13
  }

  method HeaderType(hdr: char) returns (ipproto: byte)
    ensures ipproto == ProtocolOf(hdr)
  {
    var i := 0;
    while SENDIP_HEADERS[i].optChar != '\0'
      invariant 0 <= i < 15
      invariant ProtocolOf(hdr) != IPPROTO_NONE ==> i <= Position(hdr)
      decreases 15 - i
    {
      if hdr == SENDIP_HEADERS[i].optChar {
        return SENDIP_HEADERS[i].ipproto;
      }
      i := i + 1;
    }
    assert i == 14;
    return IPPROTO_NONE;
  }

  /** The nearest header outside `index` whose character is one of the choices, -1 if none. */
  function Outer(hdrs: string, index: nat, choices: string): (r: int)
    requires index <= |hdrs|
    ensures -1 <= r < index
    ensures r >= 0 ==> hdrs[r] in choices
    ensures forall k :: r < k < index ==> hdrs[k] !in choices
  {
    if index == 0 then -1
    else if hdrs[index - 1] in choices then index - 1
    else Outer(hdrs, index - 1, choices)
  }

  method OuterHeader(hdrs: string, index: nat, choices: string) returns (r: int)
    requires index <= |hdrs|
    ensures r == Outer(hdrs, index, choices)
  {
    r := index - 1;
    while r >= 0
      invariant -1 <= r < index
      invariant Outer(hdrs, index, choices) == Outer(hdrs, r + 1, choices)
    {
      if hdrs[r] in choices {
        return r;
      }
      r := r - 1;
    }
  }

  /** The nearest header inside `index` whose character is one of the choices, -1 if none. */
  function Inner(hdrs: string, index: nat, choices: string): (r: int)
    requires '\0' !in hdrs
    ensures r == -1 || index < r < |hdrs|
    ensures r >= 0 ==> hdrs[r] in choices
    ensures forall k :: index < k < |hdrs| && (r == -1 || k < r) ==> hdrs[k] !in choices
    decreases |hdrs| - index
  {
    if index + 1 >= |hdrs| then -1
    else if hdrs[index + 1] in choices then index + 1
    else Inner(hdrs, index + 1, choices)
  }

  method InnerHeader(hdrs: string, index: nat, choices: string) returns (r: int)
    requires '\0' !in hdrs
    ensures r == Inner(hdrs, index, choices)
  {
    r := index + 1;
    while CharAt(hdrs, r) != '\0'
      invariant index < r
      invariant Inner(hdrs, index, choices) == Inner(hdrs, r - 1, choices)
      decreases |hdrs| - r
    {
      if hdrs[r] in choices {
        return r;
      }
      r := r + 1;
    }
    return -1;
  }
}
