/** gnugetopt.c: what a call reports of one element, right or wrong. */
module GetoptReports {
  import opened Getopt
  import opened GetoptPrefix
  import opened Wrappers

  /** An element that starts with two dashes: a name and, behind a '=', a value. */
  predicate IsLong(c: Config, key: string, more: string)
  {
    && c.longs.Table? && '=' !in key && key + more != ""
    && (more == "" || more[0] == '=')
  }

  lemma LooksUp(c: Config, key: string, more: string, args: seq<string>)
    requires IsLong(c, key, more)
    ensures var elem, rest := "--" + key + more, key + more;
      && IsOption(elem) && elem[1] == '-' && Name(rest) == key && Value(rest) == (if more == "" then None else Some(more[1..]))
      && var d := Decode(c, c.optstring, elem, rest, args);
         d.rest == "" ==> Parse(c, c.optstring, [elem] + args) == Before(d.event, Parse(c, c.optstring, d.args))
  {
    hide Lookup, DecodeLong, DecodeShort, Name, Value, Decode;
    var elem, rest := "--" + key + more, key + more;
    NameOf(key, more);
    assert elem[2..] == rest && ([elem] + args)[1..] == args && elem != "--";
    assert Parse(c, c.optstring, [elem] + args) == ParseElement(c, c.optstring, elem, rest, args);
  }

  /** A name that no option's name starts with. */
  lemma UnknownName(c: Config, key: string, more: string, args: seq<string>)
    requires IsLong(c, key, more) && forall k :: 0 <= k < |c.longs.options| ==> !(key <= c.longs.options[k].name)
    ensures Parse(c, c.optstring, ["--" + key + more] + args)
      == Before(Event('?' as int, None, Some(0), None, None), Parse(c, c.optstring, args))
  {
    hide Parse, Name, Value;
    LooksUp(c, key, more, args);
  }

  /** A name that is no option's and that the names of two options start with, which differ or are
  always told apart. */
  lemma AmbiguousName(c: Config, key: string, more: string, args: seq<string>, i: nat, j: nat)
    requires IsLong(c, key, more) && i < j < |c.longs.options|
    requires forall k :: 0 <= k < |c.longs.options| ==> c.longs.options[k].name != key
    requires key <= c.longs.options[i].name && key <= c.longs.options[j].name
    requires c.longOnly || Meaning(c.longs.options[i]) != Meaning(c.longs.options[j])
    ensures Parse(c, c.optstring, ["--" + key + more] + args)
      == Before(Event('?' as int, None, Some(0), None, None), Parse(c, c.optstring, args))
  {
    hide Parse, Name, Value;
    LooksUp(c, key, more, args);
    TwoAreAmbiguous(c.longs.options, key, c.longOnly, i, j);
  }

  lemma TwoAreAmbiguous(t: seq<LongOption>, key: string, longOnly: bool, i: nat, j: nat)
    requires i < j < |t| && forall k :: 0 <= k < |t| ==> t[k].name != key
    requires key <= t[i].name && key <= t[j].name && (longOnly || Meaning(t[i]) != Meaning(t[j]))
    ensures Lookup(t, key, longOnly).Ambiguous?
  {
    var a := First(t, key, false, 0);
    assert Abbreviates(t, key, i) && Abbreviates(t, key, j);
    assert a <= i;
    assert Differ(t[a], t[i], longOnly) || Differ(t[a], t[j], longOnly);
    assert longOnly ==> Differ(t[a], t[j], longOnly);
    assert !longOnly && a == i ==> Differ(t[a], t[j], longOnly);
  }

  /** What a name stands for: the option called so, or else the only one whose name starts so. */
  predicate StandsFor(t: seq<LongOption>, key: string, k: nat)
  {
    k < |t| && if t[k].name == key then DistinctNames(t)
               else key <= t[k].name && forall j :: 0 <= j < |t| && j != k ==> !(key <= t[j].name)
  }

  lemma Found(t: seq<LongOption>, key: string, longOnly: bool, k: nat)
    requires StandsFor(t, key, k)
    ensures Lookup(t, key, longOnly) == Match(k)
  {
    if t[k].name == key {
      ExactBeatsAbbreviation(t, key, longOnly, k);
    } else {
      var e, a := First(t, key, true, 0), First(t, key, false, 0);
      assert Abbreviates(t, key, k);
      assert e == |t|;
    }
  }

  /** The report of an option found: its value, or 0 if it has a flag, which gets the value then. */
  predicate Tells(e: Event, o: LongOption, k: nat, arg: Maybe<string>)
  {
    && e.arg == arg && e.longind == Some(k) && e.optopt == None
    && if o.flag == 0 then e.ret == o.val && e.store == None else e.ret == 0 && e.store == Some((o.flag, o.val))
  }

  /** The first event of an outcome and what the rest of the command line is parsed to. */
  predicate Leads(o: Outcome, e: Event, next: Outcome)
  {
    o == Outcome([e] + next.events, next.operands)
  }

  /** A name with a value: an option without argument complains with its value. */
  lemma NameWithValue(c: Config, key: string, value: string, args: seq<string>, k: nat) returns (e: Event)
    requires IsLong(c, key, "=" + value) && StandsFor(c.longs.options, key, k)
    ensures Leads(Parse(c, c.optstring, ["--" + key + "=" + value] + args), e, Parse(c, c.optstring, args))
    ensures var o := c.longs.options[k];
      if o.hasArg == 0 then e == Event('?' as int, None, Some(o.val), None, None) else Tells(e, o, k, Some(value))
  {
    hide Parse, Name, Value, StandsFor, Lookup;
    var more := "=" + value;
    LooksUp(c, key, more, args);
    Found(c.longs.options, key, c.longOnly, k);
    assert "--" + key + more == "--" + key + "=" + value && more[1..] == value;
    e := Decode(c, c.optstring, "--" + key + more, key + more, args).event;
  }

  /** A name without a value: if the option wants one, it is the next element, and if there is none
  that is reported with a colon or a question mark, as the option string says. */
  lemma NameAlone(c: Config, key: string, args: seq<string>, k: nat) returns (e: Event)
    requires IsLong(c, key, "") && StandsFor(c.longs.options, key, k)
    ensures var o := c.longs.options[k];
      var wanted := o.hasArg == 1;
      && Leads(Parse(c, c.optstring, ["--" + key] + args), e, Parse(c, c.optstring, if wanted && args != [] then args[1..] else args))
      && if wanted && args == [] then
           e == Event((if |c.optstring| > 0 && c.optstring[0] == ':' then ':' else '?') as int, None, Some(o.val), None, None)
         else Tells(e, o, k, if wanted then Some(args[0]) else None)
  {
    hide Parse, Name, Value, StandsFor, Lookup;
    LooksUp(c, key, "", args);
    Found(c.longs.options, key, c.longOnly, k);
    assert "--" + key + "" == "--" + key && key + "" == key;
    e := Decode(c, c.optstring, "--" + key, key, args).event;
  }

  // ----- a single letter

  /** A dash and a letter that is not tried as a name. */
  predicate IsShort(c: Config, ch: char)
  {
    ch != '-' && (c.longs.Table? && c.longOnly ==> ch in c.optstring)
  }

  lemma DecodesLetter(c: Config, ch: char, args: seq<string>)
    requires IsShort(c, ch)
    ensures var d := DecodeShort(c.optstring, [ch], args);
      d.rest == "" ==> Parse(c, c.optstring, ["-" + [ch]] + args) == Before(d.event, Parse(c, c.optstring, d.args))
  {
    hide DecodeShort;
    var elem := "-" + [ch];
    assert elem[1..] == [ch] && elem[1] == ch && ([elem] + args)[1..] == args && elem != "--";
    assert Parse(c, c.optstring, [elem] + args) == ParseElement(c, c.optstring, elem, [ch], args);
  }

  /** A letter that is no option, or a colon. */
  lemma UnknownLetter(c: Config, ch: char, args: seq<string>)
    requires IsShort(c, ch) && (ch == ':' || ch !in c.optstring)
    ensures Parse(c, c.optstring, ["-" + [ch]] + args)
      == Before(Event('?' as int, None, Some(ch as int), None, None), Parse(c, c.optstring, args))
  {
    hide Parse;
    DecodesLetter(c, ch, args);
  }

  /** With long_only a letter that is no option is tried as a name. */
  lemma LetterAsName(c: Config, ch: char, args: seq<string>)
    requires c.longs.Table? && c.longOnly && ch !in "-=" && ch !in c.optstring
    requires forall k :: 0 <= k < |c.longs.options| ==> !([ch] <= c.longs.options[k].name)
    ensures Parse(c, c.optstring, ["-" + [ch]] + args)
      == Before(Event('?' as int, None, Some(0), None, None), Parse(c, c.optstring, args))
  {
    hide Name, Value, DecodeShort;
    var elem := "-" + [ch];
    assert elem[1..] == [ch] && elem[1] == ch && ([elem] + args)[1..] == args && elem != "--";
    assert Parse(c, c.optstring, [elem] + args) == ParseElement(c, c.optstring, elem, [ch], args);
    NameOf([ch], "");
    assert [ch] + "" == [ch];
  }

  /** A letter whose first place in the option string is k: the colons behind it say whether it takes
  no argument, one, or none when it stands alone. */
  lemma KnownLetter(c: Config, ch: char, args: seq<string>, k: nat) returns (e: Event)
    requires IsShort(c, ch) && ch != ':' && k < |c.optstring| && c.optstring[k] == ch
    requires forall j :: 0 <= j < k ==> c.optstring[j] != ch
    ensures var o := c.optstring;
      var wanted := k + 1 < |o| && o[k + 1] == ':' && !(k + 2 < |o| && o[k + 2] == ':');
      && Leads(Parse(c, o, ["-" + [ch]] + args), e, Parse(c, o, if wanted && args != [] then args[1..] else args))
      && e == if wanted && args == [] then Event((if o[0] == ':' then ':' else '?') as int, None, Some(ch as int), None, None)
              else Event(ch as int, if wanted then Some(args[0]) else None, None, None, None)
  {
    hide Parse;
    DecodesLetter(c, ch, args);
    var i := Index(c.optstring, ch);
    assert forall j :: 0 <= j < i ==> c.optstring[..i][j] == c.optstring[j];
    e := DecodeShort(c.optstring, [ch], args).event;
  }
}
