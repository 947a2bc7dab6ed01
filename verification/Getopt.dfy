/** gnugetopt.c: the resumable scanner of the command line, and the one-pass parse it amounts to.

A C string is a `string` without its terminator: reading the terminating NUL is reading at the
length. The branch for an option string with "W;" is left out.
*/
module Getopt {
  import opened Wrappers

  /** struct option; flag 0 is NULL, any other number stands for the address of an int. */
  datatype LongOption = LongOption(name: string, hasArg: int, flag: int, val: int)

  /** longopts, which may be NULL. */
  datatype Longs = NoTable | Table(options: seq<LongOption>)

  datatype Config = Config(optstring: string, longs: Longs, longOnly: bool)

  datatype Ordering = RequireOrder | ReturnInOrder

  predicate Starts(s: string, c: char)
  {
    |s| > 0 && s[0] == c
  }

  function OrderingOf(optstring: string): Ordering
  {
    if Starts(optstring, '-') then ReturnInOrder else RequireOrder
  }

  /** What _getopt_initialize makes of the option string, on the first call only. */
  function Stripped(optstring: string): string
  {
    if Starts(optstring, '-') || Starts(optstring, '+') then optstring[1..] else optstring
  }

  predicate HasW(s: string)
  {
    exists k :: 0 <= k < |s| - 1 && s[k] == 'W' && s[k + 1] == ';'
  }

  // ----- the specification: one recursive pass over the arguments

  /** What one call tells its caller: the result, gnuoptarg, and what it stores into gnuoptopt,
  the long index and a flag, if anything. */
  datatype Event = Event(ret: int, arg: Maybe<string>, optopt: Maybe<int>, longind: Maybe<int>, store: Maybe<(int, int)>)

  function Plain(ret: int, arg: Maybe<string>): Event
  {
    Event(ret, arg, None, None, None)
  }

  function Complaint(ret: char, optopt: int): Event
  {
    Event(ret as int, None, Some(optopt), None, None)
  }

  /** All events of a scan, and the operands it leaves. */
  datatype Outcome = Outcome(events: seq<Event>, operands: seq<string>)

  function Before(e: Event, o: Outcome): Outcome
  {
    Outcome([e] + o.events, o.operands)
  }

  /** The result of decoding one option: what is left of its argument element (empty if it is
  used up) and the elements behind. */
  datatype Decoded = Decoded(event: Event, rest: string, args: seq<string>)

  predicate IsOption(e: string)
  {
    |e| >= 2 && e[0] == '-'
  }

  /** The element without its initial punctuation. */
  function Body(c: Config, e: string): (r: string)
    requires IsOption(e)
    ensures e != "--" ==> r != ""
  {
    if c.longs.Table? && e[1] == '-' then e[2..] else e[1..]
  }

  function Parse(c: Config, opts: string, args: seq<string>): Outcome
    decreases |args|, 0
  {
    if |args| == 0 then Outcome([], [])
    else if args[0] == "--" then Outcome([], args[1..])
    else if !IsOption(args[0]) then
      if OrderingOf(c.optstring) == RequireOrder then Outcome([], args)
      else Before(Plain(1, Some(args[0])), Parse(c, c.optstring, args[1..]))
    else ParseElement(c, opts, args[0], Body(c, args[0]), args[1..])
  }

  /** The scan inside an element of which `rest` is left. */
  function ParseElement(c: Config, opts: string, elem: string, rest: string, args: seq<string>): Outcome
    requires IsOption(elem) && rest != ""
    decreases |args|, |rest|
  {
    var d := Decode(c, opts, elem, rest, args);
    Before(d.event, if d.rest == "" then Parse(c, c.optstring, d.args)
                    else ParseElement(c, c.optstring, elem, d.rest, d.args))
  }

  /** One option at the front of `rest`. */
  function Decode(c: Config, opts: string, elem: string, rest: string, args: seq<string>): (d: Decoded)
    requires IsOption(elem) && rest != ""
    ensures d.rest == "" || (d.rest == rest[1..] && d.args == args)
    ensures d.args == args || (|args| > 0 && d.args == args[1..])
  {
    if !TriesLong(c, opts, elem) then DecodeShort(opts, rest, args)
    else
      match Lookup(c.longs.options, Name(rest), c.longOnly)
      case Ambiguous => Decoded(Complaint('?', 0), "", args)
      case Match(k) => DecodeLong(opts, c.longs.options[k], k, Value(rest), args)
      case Unknown =>
        if !c.longOnly || elem[1] == '-' || rest[0] !in opts then Decoded(Complaint('?', 0), "", args)
        else DecodeShort(opts, rest, args)
  }

  /** With longOnly a single letter that is an option is never taken for a long name. */
  predicate TriesLong(c: Config, opts: string, elem: string)
    requires IsOption(elem)
  {
    c.longs.Table? && (elem[1] == '-' || (c.longOnly && (|elem| > 2 || elem[1] !in opts)))
  }

  // short options

  /** The first position of a character. */
  function Index(s: string, c: char): (k: int)
    ensures if c in s then 0 <= k < |s| && s[k] == c && c !in s[..k] else k == -1
  {
    if |s| == 0 then -1
    else if s[0] == c then 0
    else
      var k := Index(s[1..], c);
      assert s == [s[0]] + s[1..];
      if k == -1 then -1 else
        assert s[..k + 1] == [s[0]] + s[1..][..k];
        k + 1
  }

  datatype Arity = NoArgument | RequiredArgument | OptionalArgument

  predicate CharIs(s: string, k: int, c: char)
  {
    0 <= k < |s| && s[k] == c
  }

  function ArityOf(opts: string, c: char): Arity
  {
    var k := Index(opts, c);
    if !CharIs(opts, k + 1, ':') then NoArgument
    else if CharIs(opts, k + 2, ':') then OptionalArgument
    else RequiredArgument
  }

  /** How a missing argument is reported. */
  function Missing(opts: string): char
  {
    if Starts(opts, ':') then ':' else '?'
  }

  /** An option with an argument: the rest of the element, or if that is empty the next element. */
  function WithArgument(opts: string, c: char, optional: bool, tail: string, args: seq<string>): (d: Decoded)
    ensures d.rest == "" && |d.args| <= |args|
  {
    if tail != "" then Decoded(Plain(c as int, Some(tail)), "", args)
    else if optional then Decoded(Plain(c as int, None), "", args)
    else if |args| == 0 then Decoded(Complaint(Missing(opts), c as int), "", args)
    else Decoded(Plain(c as int, Some(args[0])), "", args[1..])
  }

  function DecodeShort(opts: string, rest: string, args: seq<string>): (d: Decoded)
    requires rest != ""
  {
    var c, tail := rest[0], rest[1..];
    if c !in opts || c == ':' then Decoded(Complaint('?', c as int), tail, args)
    else
      match ArityOf(opts, c)
      case NoArgument => Decoded(Plain(c as int, None), tail, args)
      case OptionalArgument => WithArgument(opts, c, true, tail, args)
      case RequiredArgument => WithArgument(opts, c, false, tail, args)
  }

  // long options

  /** The part before the first '='. */
  function Name(rest: string): (n: string)
    ensures n <= rest && '=' !in n && (|n| < |rest| ==> rest[|n|] == '=')
  {
    if |rest| == 0 || rest[0] == '=' then "" else [rest[0]] + Name(rest[1..])
  }

  /** The part behind the first '=', if there is one. */
  function Value(rest: string): Maybe<string>
  {
    if |Name(rest)| == |rest| then None else Some(rest[|Name(rest)| + 1..])
  }

  datatype Found = Unknown | Ambiguous | Match(index: nat)

  predicate IsExact(t: seq<LongOption>, key: string, k: int)
  {
    0 <= k < |t| && t[k].name == key
  }

  /** The key is the name or an abbreviation of it. */
  predicate Abbreviates(t: seq<LongOption>, key: string, k: int)
  {
    0 <= k < |t| && key <= t[k].name
  }

  /** Two abbreviated options are told apart, with longOnly always. */
  predicate Differ(a: LongOption, b: LongOption, longOnly: bool)
  {
    longOnly || a.hasArg != b.hasArg || a.flag != b.flag || a.val != b.val
  }

  /** The first position from k on with this name (or with a name so abbreviated). */
  function First(t: seq<LongOption>, key: string, exact: bool, k: nat): (r: nat)
    requires k <= |t|
    ensures k <= r <= |t|
    ensures r < |t| ==> if exact then IsExact(t, key, r) else Abbreviates(t, key, r)
    ensures forall j :: k <= j < r ==> !(if exact then IsExact(t, key, j) else Abbreviates(t, key, j))
    decreases |t| - k
  {
    if k == |t| then k
    else if exact && t[k].name == key then k
    else if !exact && key <= t[k].name then k
    else First(t, key, exact, k + 1)
  }

  /** An exact name wins; else a unique abbreviation; abbreviations of different options are
  ambiguous. */
  function Lookup(t: seq<LongOption>, key: string, longOnly: bool): (r: Found)
    ensures r.Match? ==> Abbreviates(t, key, r.index)
  {
    var e, a := First(t, key, true, 0), First(t, key, false, 0);
    if e < |t| then Match(e)
    else if a == |t| then Unknown
    else if exists j :: a < j < |t| && Abbreviates(t, key, j) && Differ(t[a], t[j], longOnly) then Ambiguous
    else Match(a)
  }

  function Success(o: LongOption, k: int, arg: Maybe<string>): Event
  {
    if o.flag == 0 then Event(o.val, arg, None, Some(k), None)
    else Event(0, arg, None, Some(k), Some((o.flag, o.val)))
  }

  function DecodeLong(opts: string, o: LongOption, k: int, value: Maybe<string>, args: seq<string>): (d: Decoded)
  {
    if value.Some? then
      Decoded(if o.hasArg != 0 then Success(o, k, value) else Complaint('?', o.val), "", args)
    else if o.hasArg != 1 then Decoded(Success(o, k, None), "", args)
    else if |args| == 0 then Decoded(Complaint(Missing(opts), o.val), "", args)
    else Decoded(Success(o, k, Some(args[0])), "", args[1..])
  }

  // ----- properties of the parse

  /** The characters still to be scanned. */
  function Size(args: seq<string>): nat
  {
    if |args| == 0 then 0 else |args[0]| + 1 + Size(args[1..])
  }

  lemma DecodeShrinks(c: Config, opts: string, elem: string, rest: string, args: seq<string>)
    requires IsOption(elem) && rest != ""
    ensures var d := Decode(c, opts, elem, rest, args); |d.rest| + Size(d.args) < |rest| + Size(args)
  {
    hide *;
    SizeOfTail(args);
  }

  lemma SizeOfTail(args: seq<string>)
    ensures |args| > 0 ==> Size(args) == |args[0]| + 1 + Size(args[1..])
  {
  }

  /** The operands are what follows the first element that ends the scan: a "--", or, unless
  operands are returned in order, an element that is no option. */
  ghost predicate EndsScan(c: Config, args: seq<string>, operands: seq<string>)
  {
    exists n: nat :: n <= |args| && operands == args[n..]
      && (n == |args| || (n > 0 && args[n - 1] == "--")
          || (!IsOption(args[n]) && !(|c.optstring| > 0 && c.optstring[0] == '-')))
  }

  lemma EndsScanLater(c: Config, args: seq<string>, operands: seq<string>)
    requires |args| > 0 && EndsScan(c, args[1..], operands)
    ensures EndsScan(c, args, operands)
  {
    var n: nat :| n <= |args[1..]| && operands == args[1..][n..]
      && (n == |args[1..]| || (n > 0 && args[1..][n - 1] == "--")
          || (!IsOption(args[1..][n]) && !(|c.optstring| > 0 && c.optstring[0] == '-')));
    assert args[1..][n..] == args[n + 1..];
    var m := n + 1;
    assert m == |args| || (m > 0 && args[m - 1] == "--") || (!IsOption(args[m]) && !(|c.optstring| > 0 && c.optstring[0] == '-'));
  }

  lemma {:induction false} ParseEndsScan(c: Config, opts: string, args: seq<string>)
    ensures EndsScan(c, args, Parse(c, opts, args).operands)
    decreases |args|, 0
  {
    hide EndsScan;
    if |args| == 0 {
      EndsHere(c, args, 0);
    } else if args[0] == "--" {
      EndsHere(c, args, 1);
    } else if !IsOption(args[0]) {
      if OrderingOf(c.optstring) == RequireOrder {
        EndsHere(c, args, 0);
      } else {
        ParseEndsScan(c, c.optstring, args[1..]);
        EndsScanLater(c, args, Parse(c, opts, args).operands);
      }
    } else {
      ParseElementEndsScan(c, opts, args[0], Body(c, args[0]), args[1..]);
      EndsScanLater(c, args, Parse(c, opts, args).operands);
    }
  }

  lemma EndsHere(c: Config, args: seq<string>, n: nat)
    requires n <= |args|
    requires n == |args| || (n > 0 && args[n - 1] == "--")
      || (!IsOption(args[n]) && !(|c.optstring| > 0 && c.optstring[0] == '-'))
    ensures EndsScan(c, args, args[n..])
  {
  }

  lemma {:induction false} ParseElementEndsScan(c: Config, opts: string, elem: string, rest: string, args: seq<string>)
    requires IsOption(elem) && rest != ""
    ensures EndsScan(c, args, ParseElement(c, opts, elem, rest, args).operands)
    decreases |args|, |rest|
  {
    hide EndsScan, Decode;
    var d := Decode(c, opts, elem, rest, args);
    if d.rest == "" {
      ParseEndsScan(c, c.optstring, d.args);
      if d.args != args {
        EndsScanLater(c, args, ParseElement(c, opts, elem, rest, args).operands);
      }
    } else {
      ParseElementEndsScan(c, c.optstring, elem, d.rest, d.args);
    }
  }

  // ----- looking up long names

  predicate DistinctNames(t: seq<LongOption>)
  {
    forall i, j :: 0 <= i < j < |t| ==> t[i].name != t[j].name
  }

  /** An exact name is found whatever else it abbreviates. */
  lemma ExactBeatsAbbreviation(t: seq<LongOption>, key: string, longOnly: bool, k: nat)
    requires DistinctNames(t) && k < |t| && t[k].name == key
    ensures Lookup(t, key, longOnly) == Match(k)
  {
    var e := First(t, key, true, 0);
    assert IsExact(t, key, k);
  }

  /** With longOnly, a key that is no exact name is ambiguous exactly when it abbreviates two
  options, and unknown exactly when it abbreviates none. */
  lemma AbbreviationCounts(t: seq<LongOption>, key: string)
    requires forall k :: 0 <= k < |t| ==> t[k].name != key
    ensures Lookup(t, key, true).Ambiguous? <==>
      exists i, j :: 0 <= i < j < |t| && Abbreviates(t, key, i) && Abbreviates(t, key, j)
    ensures Lookup(t, key, true).Unknown? <==> forall k :: 0 <= k < |t| ==> !Abbreviates(t, key, k)
  {
    var e, a := First(t, key, true, 0), First(t, key, false, 0);
    if i, j :| 0 <= i < j < |t| && Abbreviates(t, key, i) && Abbreviates(t, key, j) {
      assert a <= i;
      assert Differ(t[a], t[j], true);
    }
  }

  /** What an option does when it is chosen. */
  function Meaning(o: LongOption): (int, int, int)
  {
    (o.hasArg, o.flag, o.val)
  }

  /** The verdict in terms that do not mention the order. */
  lemma LookupSays(t: seq<LongOption>, key: string, longOnly: bool)
    ensures match Lookup(t, key, longOnly)
      case Unknown => forall j :: !Abbreviates(t, key, j)
      case Ambiguous =>
        (forall j :: !IsExact(t, key, j))
        && exists i, j :: i != j && Abbreviates(t, key, i) && Abbreviates(t, key, j) && Differ(t[i], t[j], longOnly)
      case Match(k) =>
        Abbreviates(t, key, k)
        && (IsExact(t, key, k)
            || ((forall j :: !IsExact(t, key, j))
                && (forall j :: j != k && Abbreviates(t, key, j) ==> !Differ(t[k], t[j], longOnly))))
  {
    var e, a := First(t, key, true, 0), First(t, key, false, 0);
    forall j | IsExact(t, key, j) ensures Abbreviates(t, key, j) && e < |t| {
    }
  }

  /** Every option of t is one of u. */
  ghost predicate Among(t: seq<LongOption>, u: seq<LongOption>)
  {
    forall k :: 0 <= k < |t| ==> t[k] in u
  }

  lemma PermutedAmong(t: seq<LongOption>, u: seq<LongOption>)
    requires multiset(t) == multiset(u)
    ensures Among(t, u)
  {
    forall k | 0 <= k < |t| ensures t[k] in u {
      assert t[k] in multiset(u);
    }
  }

  lemma PlaceOf(t: seq<LongOption>, u: seq<LongOption>, k: nat) returns (j: nat)
    requires Among(t, u) && k < |t|
    ensures j < |u| && u[j] == t[k]
  {
    assert t[k] in u;
    j :| 0 <= j < |u| && u[j] == t[k];
  }

  lemma UnknownElsewhere(t: seq<LongOption>, u: seq<LongOption>, key: string, longOnly: bool)
    requires Among(t, u) && Lookup(u, key, longOnly).Unknown?
    ensures Lookup(t, key, longOnly).Unknown?
  {
    hide Lookup, Among;
    LookupSays(t, key, longOnly);
    LookupSays(u, key, longOnly);
    forall k | 0 <= k < |t| ensures !Abbreviates(t, key, k) {
      var j := PlaceOf(t, u, k);
      assert !Abbreviates(u, key, j);
    }
  }

  lemma AmbiguousElsewhere(t: seq<LongOption>, u: seq<LongOption>, key: string, longOnly: bool)
    requires Among(t, u) && Among(u, t) && DistinctNames(t) && Lookup(t, key, longOnly).Ambiguous?
    ensures Lookup(u, key, longOnly).Ambiguous?
  {
    hide Lookup, Among;
    LookupSays(t, key, longOnly);
    LookupSays(u, key, longOnly);
    var i, j :| i != j && Abbreviates(t, key, i) && Abbreviates(t, key, j) && Differ(t[i], t[j], longOnly);
    var i' := PlaceOf(t, u, i);
    var j' := PlaceOf(t, u, j);
    assert i' != j';
    assert Abbreviates(u, key, i') && Abbreviates(u, key, j');
    forall k | 0 <= k < |u| ensures !IsExact(u, key, k) {
      var e := PlaceOf(u, t, k);
      assert !IsExact(t, key, e);
    }
  }

  lemma MatchElsewhere(t: seq<LongOption>, u: seq<LongOption>, key: string, longOnly: bool)
    requires Among(t, u) && Among(u, t) && DistinctNames(u)
    requires Lookup(t, key, longOnly).Match? && Lookup(u, key, longOnly).Match?
    ensures var o, p := t[Lookup(t, key, longOnly).index], u[Lookup(u, key, longOnly).index];
      Meaning(o) == Meaning(p) && (longOnly ==> o == p)
  {
    hide Lookup, Among;
    LookupSays(t, key, longOnly);
    LookupSays(u, key, longOnly);
    var a, b := Lookup(t, key, longOnly).index, Lookup(u, key, longOnly).index;
    var a' := PlaceOf(t, u, a);
    var b' := PlaceOf(u, t, b);
    assert Abbreviates(u, key, a');
    assert IsExact(t, key, a) ==> IsExact(u, key, a');
    assert IsExact(u, key, b) ==> IsExact(t, key, b');
  }

  /** For distinct names the order of the table does not matter: one order knows a key, or finds it
  ambiguous, exactly when the other does, and both choose options that do the same; with longOnly,
  the same option. */
  lemma TableOrderIrrelevant(t: seq<LongOption>, u: seq<LongOption>, key: string, longOnly: bool)
    requires multiset(t) == multiset(u) && DistinctNames(t) && DistinctNames(u)
    ensures var a, b := Lookup(t, key, longOnly), Lookup(u, key, longOnly);
      && (a.Unknown? <==> b.Unknown?) && (a.Ambiguous? <==> b.Ambiguous?)
      && (a.Match? && b.Match? ==> Meaning(t[a.index]) == Meaning(u[b.index]))
      && (a.Match? && b.Match? && longOnly ==> t[a.index] == u[b.index])
  {
    hide Lookup, Among, DistinctNames;
    PermutedAmong(t, u);
    PermutedAmong(u, t);
    if Lookup(t, key, longOnly).Unknown? { UnknownElsewhere(u, t, key, longOnly); }
    if Lookup(u, key, longOnly).Unknown? { UnknownElsewhere(t, u, key, longOnly); }
    if Lookup(t, key, longOnly).Ambiguous? { AmbiguousElsewhere(t, u, key, longOnly); }
    if Lookup(u, key, longOnly).Ambiguous? { AmbiguousElsewhere(u, t, key, longOnly); }
    if Lookup(t, key, longOnly).Match? && Lookup(u, key, longOnly).Match? { MatchElsewhere(t, u, key, longOnly); }
  }

  // ----- from requests to arguments and back

  /** What a user writes as one element, or as two: a cluster of flags, the last of which may be an
  option with its argument, joined or as the next element; or a long option. */
  datatype Request =
    | Shorts(flags: string, last: Last)
    | LongFlag(k: nat)
    | LongValue(k: nat, value: string, inElement: bool)

  datatype Last = NoLast | Joined(c: char, arg: string) | Separate(c: char, arg: string)

  /** The option exists, takes the argument given, and cannot be mistaken. */
  predicate Suits(c: Config, r: Request)
  {
    match r
    case Shorts(flags, last) =>
      && LettersSuit(c.optstring, flags, last)
      && |Letters(flags, last)| >= 1 && Letters(flags, last)[0] != '-'
      && (MayBeLong(c, Letters(flags, last)) ==> NoLongNames(c, Letters(flags, last), Decodings(flags, last)))
    case LongFlag(k) => SuitsLong(c, k) && c.longs.options[k].hasArg != 1
    case LongValue(k, value, inElement) =>
      SuitsLong(c, k) && if inElement then c.longs.options[k].hasArg != 0 else c.longs.options[k].hasArg == 1
  }

  predicate IsLetter(opts: string, ch: char)
  {
    ch in opts && ch != ':'
  }

  predicate LettersSuit(opts: string, flags: string, last: Last)
  {
    && (forall i :: 0 <= i < |flags| ==> IsLetter(opts, flags[i]) && ArityOf(opts, flags[i]) == NoArgument)
    && match last
       case NoLast => true
       case Joined(ch, arg) => IsLetter(opts, ch) && ArityOf(opts, ch) != NoArgument && arg != ""
       case Separate(ch, arg) => IsLetter(opts, ch) && ArityOf(opts, ch) == RequiredArgument
  }

  /** What stands behind the dash. */
  function Letters(flags: string, last: Last): string
  {
    match last
    case NoLast => flags
    case Joined(ch, arg) => flags + [ch] + arg
    case Separate(ch, arg) => flags + [ch]
  }

  /** How many calls an element of short options takes. */
  function Decodings(flags: string, last: Last): (n: nat)
    ensures n <= |Letters(flags, last)|
  {
    |flags| + if last.NoLast? then 0 else 1
  }

  /** With long_only more than one letter is tried as a long name first. */
  predicate MayBeLong(c: Config, letters: string)
  {
    c.longs.Table? && c.longOnly && |letters| > 1
  }

  /** None of the calls finds, or half finds, a long name. */
  predicate NoLongNames(c: Config, letters: string, n: nat)
    requires c.longs.Table? && n <= |letters|
  {
    forall i :: 0 <= i < n ==> Lookup(c.longs.options, Name(letters[i..]), c.longOnly).Unknown?
  }

  predicate SuitsLong(c: Config, k: nat)
  {
    && c.longs.Table? && k < |c.longs.options| && DistinctNames(c.longs.options)
    && c.longs.options[k].name != "" && '=' !in c.longs.options[k].name
  }

  function Written(c: Config, r: Request): seq<string>
    requires Suits(c, r)
  {
    match r
    case Shorts(flags, last) => ["-" + Letters(flags, last)] + if last.Separate? then [last.arg] else []
    case LongFlag(k) => ["--" + c.longs.options[k].name]
    case LongValue(k, value, inElement) =>
      var name := c.longs.options[k].name;
      if inElement then ["--" + name + "=" + value] else ["--" + name, value]
  }

  function Flags(flags: string): (es: seq<Event>)
    ensures |es| == |flags|
  {
    seq(|flags|, i requires 0 <= i < |flags| => Plain(flags[i] as int, None))
  }

  function Meant(c: Config, r: Request): seq<Event>
    requires Suits(c, r)
  {
    match r
    case Shorts(flags, last) => Flags(flags) + if last.NoLast? then [] else [Plain(last.c as int, Some(last.arg))]
    case LongFlag(k) => [Success(c.longs.options[k], k, None)]
    case LongValue(k, value, _) => [Success(c.longs.options[k], k, Some(value))]
  }

  function MeantAll(c: Config, rs: seq<Request>): seq<Event>
    requires forall i :: 0 <= i < |rs| ==> Suits(c, rs[i])
  {
    if |rs| == 0 then [] else Meant(c, rs[0]) + MeantAll(c, rs[1..])
  }

  /** Several events in front of what is still to come. */
  function Behind(es: seq<Event>, o: Outcome): Outcome
  {
    Outcome(es + o.events, o.operands)
  }

  function WrittenAll(c: Config, rs: seq<Request>): seq<string>
    requires forall i :: 0 <= i < |rs| ==> Suits(c, rs[i])
  {
    if |rs| == 0 then [] else Written(c, rs[0]) + WrittenAll(c, rs[1..])
  }

  lemma NameOf(name: string, more: string)
    requires '=' !in name && (more == "" || more[0] == '=')
    ensures Name(name + more) == name
    ensures Value(name + more) == if more == "" then None else Some(more[1..])
  {
    if |name| > 0 {
      NameOf(name[1..], more);
      assert (name + more)[1..] == name[1..] + more;
    } else {
      assert name + more == more;
    }
  }

  lemma ParsesLong(c: Config, k: nat, more: string, args: seq<string>)
    requires SuitsLong(c, k) && (more == "" || more[0] == '=')
    ensures var o := c.longs.options[k];
      var d := DecodeLong(c.optstring, o, k, if more == "" then None else Some(more[1..]), args);
      Parse(c, c.optstring, ["--" + o.name + more] + args) == Before(d.event, Parse(c, c.optstring, d.args))
  {
    hide Lookup, DecodeLong, DistinctNames, Name, Value;
    var o := c.longs.options[k];
    var elem, rest := "--" + o.name + more, o.name + more;
    var all := [elem] + args;
    assert elem[2..] == rest && all[1..] == args && elem != "--";
    NameOf(o.name, more);
    ExactBeatsAbbreviation(c.longs.options, o.name, c.longOnly, k);
    DecodeLongEnds(c.optstring, o, k, if more == "" then None else Some(more[1..]), args);
    assert Parse(c, c.optstring, all) == ParseElement(c, c.optstring, elem, rest, args);
  }

  lemma DecodeLongEnds(opts: string, o: LongOption, k: nat, value: Maybe<string>, args: seq<string>)
    ensures DecodeLong(opts, o, k, value, args).rest == ""
  {
  }

  /** Under these conditions the letters left of an element are decoded as a short option. */
  lemma DecodesAsShort(c: Config, letters: string, n: nat, i: nat, args: seq<string>)
    requires n <= |letters| && i < n && letters[0] != '-' && letters[0] in c.optstring && letters[i] in c.optstring
    requires MayBeLong(c, letters) ==> NoLongNames(c, letters, n)
    ensures var elem := "-" + letters;
      && IsOption(elem)
      && Decode(c, c.optstring, elem, letters[i..], args) == DecodeShort(c.optstring, letters[i..], args)
  {
    hide Lookup, Name, DecodeShort, DecodeLong;
  }

  lemma OneFlag(opts: string, rest: string, args: seq<string>)
    requires rest != "" && IsLetter(opts, rest[0]) && ArityOf(opts, rest[0]) == NoArgument
    ensures DecodeShort(opts, rest, args) == Decoded(Plain(rest[0] as int, None), rest[1..], args)
  {
    hide ArityOf;
  }

  lemma LastLetter(opts: string, last: Last, args: seq<string>)
    requires !last.NoLast? && LettersSuit(opts, "", last)
    ensures var all := if last.Separate? then [last.arg] + args else args;
      DecodeShort(opts, Letters("", last), all) == Decoded(Plain(last.c as int, Some(last.arg)), "", args)
  {
    hide ArityOf;
    var rest := Letters("", last);
    assert rest[0] == last.c && rest[1..] == if last.Joined? then last.arg else "";
    assert ([last.arg] + args)[1..] == args;
  }

  /** The events of a cluster from its letter i on. */
  lemma {:induction false} ParsesLetters(c: Config, flags: string, last: Last, i: nat, args: seq<string>)
    requires Suits(c, Shorts(flags, last)) && i < Decodings(flags, last)
    ensures var letters := Letters(flags, last);
      var all := if last.Separate? then [last.arg] + args else args;
      && IsOption("-" + letters)
      && ParseElement(c, c.optstring, "-" + letters, letters[i..], all)
         == Behind(Meant(c, Shorts(flags, last))[i..], Parse(c, c.optstring, args))
    decreases |flags| - i
  {
    hide ArityOf, Parse, Decode, DecodeShort, NoLongNames, MayBeLong, IsLetter;
    var letters, all := Letters(flags, last), if last.Separate? then [last.arg] + args else args;
    var es := Meant(c, Shorts(flags, last));
    LetterIs(c, flags, last, 0);
    LetterIs(c, flags, last, i);
    DecodesAsShort(c, letters, Decodings(flags, last), i, all);
    if i < |flags| {
      OneFlag(c.optstring, letters[i..], all);
      assert letters[i..][1..] == letters[i + 1..];
      assert es[i..] == [es[i]] + es[i + 1..];
      if i + 1 < Decodings(flags, last) {
        ParsesLetters(c, flags, last, i + 1, args);
      }
    } else {
      LastLetter(c.optstring, last, args);
      assert letters[i..] == Letters("", last);
      assert es[i..] == [es[i]];
    }
  }

  lemma LetterIs(c: Config, flags: string, last: Last, i: nat)
    requires Suits(c, Shorts(flags, last)) && i < Decodings(flags, last)
    ensures var letters := Letters(flags, last);
      && IsLetter(c.optstring, letters[i]) && letters[i] in c.optstring
      && (i < |flags| ==> letters[i] == flags[i] && ArityOf(c.optstring, letters[i]) == NoArgument)
      && (i == |flags| ==> letters[i] == last.c && LettersSuit(c.optstring, "", last))
  {
    hide ArityOf;
  }

  lemma ParsesShorts(c: Config, flags: string, last: Last, args: seq<string>)
    requires Suits(c, Shorts(flags, last))
    ensures Parse(c, c.optstring, Written(c, Shorts(flags, last)) + args)
      == Behind(Meant(c, Shorts(flags, last)), Parse(c, c.optstring, args))
  {
    hide ArityOf, ParseElement, NoLongNames, MayBeLong, IsLetter, LettersSuit;
    var r := Shorts(flags, last);
    var elem, letters := "-" + Letters(flags, last), Letters(flags, last);
    var all := if last.Separate? then [last.arg] + args else args;
    ParsesLetters(c, flags, last, 0, args);
    assert Written(c, r) + args == [elem] + all && ([elem] + all)[1..] == all;
    assert elem[1] == letters[0] && elem[1..] == letters && letters[0..] == letters && Meant(c, r)[0..] == Meant(c, r);
  }

  lemma ParsesWritten(c: Config, r: Request, args: seq<string>)
    requires Suits(c, r)
    ensures Parse(c, c.optstring, Written(c, r) + args) == Behind(Meant(c, r), Parse(c, c.optstring, args))
  {
    hide Parse, ArityOf, DistinctNames, LettersSuit, NoLongNames;
    match r {
      case Shorts(flags, last) =>
        ParsesShorts(c, flags, last, args);
      case LongFlag(k) =>
        ParsesLong(c, k, "", args);
        assert "--" + c.longs.options[k].name + "" == "--" + c.longs.options[k].name;
      case LongValue(k, value, inElement) =>
        var name := c.longs.options[k].name;
        if inElement {
          ParsesLong(c, k, "=" + value, args);
          assert "--" + name + ("=" + value) == "--" + name + "=" + value;
        } else {
          ParsesLong(c, k, "", [value] + args);
          assert "--" + name + "" == "--" + name;
          assert ["--" + name, value] + args == ["--" + name] + ([value] + args);
        }
    }
  }

  /** Round trip: whatever options are written, with whatever arguments, and whatever operands
  follow the "--", the parse gives back exactly those options and leaves those operands. */
  lemma {:induction false} ParsesWrittenAll(c: Config, rs: seq<Request>, operands: seq<string>)
    requires forall i :: 0 <= i < |rs| ==> Suits(c, rs[i])
    ensures Parse(c, c.optstring, WrittenAll(c, rs) + ["--"] + operands) == Outcome(MeantAll(c, rs), operands)
  {
    hide Suits, Written, Meant;
    var end := ["--"] + operands;
    if |rs| == 0 {
      assert WrittenAll(c, rs) + ["--"] + operands == end && end[1..] == operands;
    } else {
      var args := WrittenAll(c, rs[1..]) + ["--"] + operands;
      ParsesWritten(c, rs[0], args);
      ParsesWrittenAll(c, rs[1..], operands);
      assert WrittenAll(c, rs) + ["--"] + operands == Written(c, rs[0]) + args;
    }
  }

  /** With long_only and a table an option joined with its argument is taken for that exactly when
  its letters, up to an '=', neither are nor abbreviate a long name. */
  lemma JoinedIsShortIff(c: Config, ch: char, arg: string, args: seq<string>)
    requires c.longs.Table? && c.longOnly && ch != '-' && LettersSuit(c.optstring, "", Joined(ch, arg))
    ensures var elem := ['-', ch] + arg;
      && IsOption(elem)
      && (Decode(c, c.optstring, elem, [ch] + arg, args) == Decoded(Plain(ch as int, Some(arg)), "", args)
          <==> Lookup(c.longs.options, Name([ch] + arg), true).Unknown?)
  {
    hide Lookup, Name, Value, ArityOf;
    LastLetter(c.optstring, Joined(ch, arg), args);
    assert Letters("", Joined(ch, arg)) == [ch] + arg;
  }
}
