/** How one command-line option is read: the short and long option tables and the part of `getopt_internal`
    that looks at the current option character, together with `parse_long_options`
    (deps/argtable3/argtable3.c:1628-1787 and 1911-2010).

    The functions describe what one option means as a function of the unread arguments; nothing here moves
    arguments around.  A C string is a `string` without its terminator, and a NULL pointer is `None`. */
module OptionTable {
  import opened Wrappers

  datatype HasArg = NoArgument | RequiredArgument | OptionalArgument

  /** flag is the variable that receives val; without one, val is the return value of the scanner. */
  datatype LongOption = LongOption(name: string, hasArg: HasArg, flag: Option<nat>, val: int) {
    function OptOpt(): int {
      if flag.None? then val else 0
    }

    predicate SameAction(other: LongOption) {
      hasArg == other.hasArg && flag == other.flag && val == other.val
    }

    predicate PartialMatch(word: string, shortToo: bool) {
      word < name && !(shortToo && |word| == 1)
    }
  }

  /** short is the option letter string; as argtable3 builds it, it starts with ':'. */
  datatype Table = Table(short: string, long: seq<LongOption>, longOnly: bool) {
    predicate Valid() {
      && short != "" && short[0] == ':'
      && forall o | o in long :: o.flag.None? ==> o.val != -1
    }

    /** The character n places after the entry of a letter, as in oli[n]. */
    predicate Follows(letter: char, n: nat, c: char)
      requires letter in short
    {
      Find(short, letter) + n < |short| && short[Find(short, letter) + n] == c
    }
  }

  /** What one call of the scanner reports.  BadOption is the return value '?', BadArgument the value ':';
      their optopt is the value stored in the variable of that name, if the call stores one. */
  datatype Event =
    | ShortOption(letter: char, optarg: Option<string>)
    | LongMatch(index: nat, optarg: Option<string>)
    | BadOption(optopt: Option<int>)
    | BadArgument(optopt: Option<int>)

  /** strchr: the first position of c, or |s|. */
  function Find(s: string, c: char): (i: nat)
    ensures i <= |s|
    ensures i < |s| ==> s[i] == c
    ensures forall j | 0 <= j < i :: s[j] != c
    ensures i < |s| <==> c in s
  {
    if s == "" then 0 else if s[0] == c then 0 else 1 + Find(s[1..], c)
  }

  datatype Match = NoMatch | Ambiguous | Found(index: nat)

  function FirstExact(long: seq<LongOption>, word: string): (i: nat)
    ensures i <= |long|
    ensures i < |long| ==> long[i].name == word
    ensures forall j | 0 <= j < i :: long[j].name != word
  {
    if long == [] then 0 else if long[0].name == word then 0 else 1 + FirstExact(long[1..], word)
  }

  function FirstPartial(long: seq<LongOption>, word: string, shortToo: bool): (i: nat)
    ensures i <= |long|
    ensures i < |long| ==> long[i].PartialMatch(word, shortToo)
    ensures forall j | 0 <= j < i :: !long[j].PartialMatch(word, shortToo)
  {
    if long == [] then 0
    else if long[0].PartialMatch(word, shortToo) then 0
    else 1 + FirstPartial(long[1..], word, shortToo)
  }

  /** An exact name wins; otherwise the first abbreviation, unless a later one would act differently. */
  predicate Competes(t: Table, word: string, shortToo: bool, i: nat, j: nat)
    requires i < |t.long| && j < |t.long|
  {
    i < j && t.long[j].PartialMatch(word, shortToo) && (t.longOnly || !t.long[j].SameAction(t.long[i]))
  }

  function Lookup(t: Table, word: string, shortToo: bool): (m: Match)
    ensures m.Found? ==> m.index < |t.long| && word <= t.long[m.index].name
  {
    var e := FirstExact(t.long, word);
    var p := FirstPartial(t.long, word, shortToo);
    if e < |t.long| then Found(e)
    else if p == |t.long| then NoMatch
    else if exists j | 0 <= j < |t.long| :: Competes(t, word, shortToo, p, j) then Ambiguous
    else Found(p)
  }

  datatype LongResult = NotLong | Long(event: Event, consumed: nat)

  function NameOf(place: string): string {
    place[..Find(place, '=')]
  }

  function ValueOf(place: string): Option<string> {
    if '=' in place then Some(place[Find(place, '=') + 1..]) else None
  }

  /** Reading place as a long option at the head of the unread arguments. */
  function ReadLong(t: Table, args: seq<string>, place: string, shortToo: bool): (r: LongResult)
    requires args != []
    ensures r.NotLong? ==> shortToo
    ensures r.Long? ==> 1 <= r.consumed <= |args|
  {
    match Lookup(t, NameOf(place), shortToo)
    case Ambiguous => Long(BadOption(Some(0)), 1)
    case NoMatch => if shortToo then NotLong else Long(BadOption(Some(0)), 1)
    case Found(i) =>
      var o := t.long[i];
      match o.hasArg
      case NoArgument =>
        if ValueOf(place).Some? then Long(BadOption(Some(o.OptOpt())), 1) else Long(LongMatch(i, None), 1)
      case OptionalArgument => Long(LongMatch(i, ValueOf(place)), 1)
      case RequiredArgument =>
        if ValueOf(place).Some? then Long(LongMatch(i, ValueOf(place)), 1)
        else if |args| == 1 then Long(BadArgument(Some(o.OptOpt())), 1)
        else Long(LongMatch(i, Some(args[1])), 2)
  }

  /** One option read: what is reported, how many arguments are finished, and the rest of the cluster. */
  datatype Step = Step(event: Event, consumed: nat, place: string)

  /** Reading one option at place, a nonempty tail of args[0]. */
  function ReadOption(t: Table, args: seq<string>, place: string): (s: Step)
    requires args != [] && place != ""
    ensures s.consumed <= |args|
    ensures s.place == "" || (s.place == place[1..] && s.consumed == 0)
  {
    var shortToo := place[0] != '-' && place[0] != ':' && place[0] in t.short;
    if place == "-" then
      Step(BadArgument(None), 0, "")
    else if place[0] == '-' then
      var r := ReadLong(t, args, place[1..], false);
      Step(r.event, r.consumed, "")
    else if t.longOnly && ReadLong(t, args, place, shortToo).Long? then
      var r := ReadLong(t, args, place, shortToo);
      Step(r.event, r.consumed, "")
    else
      ReadShort(t, args, place[0], place[1..])
  }

  function ReadShort(t: Table, args: seq<string>, letter: char, rest: string): (s: Step)
    requires args != []
    ensures s.consumed <= |args|
    ensures s.place == "" || (s.place == rest && s.consumed == 0)
    ensures s.consumed == 0 ==> s.place != ""
  {
    var done := if rest == "" then 1 else 0;
    if letter == ':' || letter !in t.short then
      Step(BadOption(Some(letter as int)), done, rest)
    else if letter == 'W' && t.Follows(letter, 1, ';') then
      if rest != "" then
        var r := ReadLong(t, args, rest, false);
        Step(r.event, r.consumed, "")
      else if |args| == 1 then
        Step(BadArgument(Some(letter as int)), 1, "")
      else
        var r := ReadLong(t, args[1..], args[1], false);
        Step(r.event, 1 + r.consumed, "")
    else if !t.Follows(letter, 1, ':') then
      Step(ShortOption(letter, None), done, rest)
    else if rest != "" then
      Step(ShortOption(letter, Some(rest)), 1, "")
    else if t.Follows(letter, 2, ':') then
      Step(ShortOption(letter, None), 1, "")
    else if |args| == 1 then
      Step(BadArgument(Some(letter as int)), 1, "")
    else
      Step(ShortOption(letter, Some(args[1])), 2, "")
  }

  /** The only option that finishes no argument and leaves nothing of its cluster is a final '-'. */
  lemma StuckOnlyOnDash(t: Table, args: seq<string>, place: string)
    requires args != [] && place != ""
    ensures ReadOption(t, args, place).consumed == 0 && ReadOption(t, args, place).place == "" <==> place == "-"
  {
  }

  /** A name in full finds its option, whatever else it abbreviates; an abbreviation of one name only finds that. */
  lemma LookupUnique(t: Table, word: string, i: nat, shortToo: bool)
    requires i < |t.long|
    requires if word == t.long[i].name then forall j | 0 <= j < |t.long| && j != i :: t.long[j].name != word
             else forall j | 0 <= j < |t.long| :: t.long[j].PartialMatch(word, shortToo) <==> j == i
    requires word != t.long[i].name ==> forall j | 0 <= j < |t.long| :: t.long[j].name != word
    ensures Lookup(t, word, shortToo) == Found(i)
  {
  }

  lemma FindFirst(a: string, c: char, b: string)
    requires c !in a
    ensures Find(a + [c] + b, c) == |a|
  {
    var s := a + [c] + b;
    assert s[|a|] == c && forall j | 0 <= j < |a| :: s[j] == a[j];
  }

  /** The value of a long option may be attached or be the next argument. */
  lemma LongForms(t: Table, name: string, v: string, i: nat, arg: string, rest: seq<string>)
    requires '=' !in name && Lookup(t, name, false) == Found(i) && t.long[i].hasArg == RequiredArgument
    ensures ReadLong(t, [arg] + rest, name + "=" + v, false) == Long(LongMatch(i, Some(v)), 1)
    ensures ReadLong(t, [arg, v] + rest, name, false) == Long(LongMatch(i, Some(v)), 2)
  {
    FindFirst(name, '=', v);
    var place := name + "=" + v;
    assert place[..|name|] == name && place[|name| + 1..] == v;
    assert name[..|name|] == name;
  }

  /** So may the value of an option letter. */
  lemma ShortForms(t: Table, letter: char, v: string, arg: string, rest: seq<string>)
    requires letter in t.short && letter != ':' && v != ""
    requires t.Follows(letter, 1, ':') && !t.Follows(letter, 2, ':')
    ensures ReadShort(t, [arg] + rest, letter, v) == Step(ShortOption(letter, Some(v)), 1, "")
    ensures ReadShort(t, [arg, v] + rest, letter, "") == Step(ShortOption(letter, Some(v)), 2, "")
  {
  }

  /** The search loop of `parse_long_options`. */
  method FindLong(t: Table, word: string, shortToo: bool) returns (m: Match)
    ensures m == Lookup(t, word, shortToo)
  {
    var i := 0;
    var match_ := -1;
    var exact_match, second_partial_match := false, false;
    while i < |t.long|
      invariant 0 <= i <= |t.long|
      invariant forall j | 0 <= j < i :: t.long[j].name != word
      invariant match_ == -1 ==> forall j | 0 <= j < i :: !t.long[j].PartialMatch(word, shortToo)
      invariant match_ == -1 ==> !second_partial_match
      invariant match_ != -1 ==> 0 <= match_ < i && match_ == FirstPartial(t.long, word, shortToo)
      invariant match_ != -1 ==>
        (second_partial_match <==> exists j | 0 <= j < i :: Competes(t, word, shortToo, match_, j))
      invariant !exact_match
    {
      if word <= t.long[i].name {                              // strncmp over the length of word
        if |t.long[i].name| == |word| {
          match_ := i;
          exact_match := true;
          assert FirstExact(t.long, word) == i;
          break;
        }
        if shortToo && |word| == 1 {
          i := i + 1;
          continue;
        }
        if match_ == -1 {
          match_ := i;
          assert FirstPartial(t.long, word, shortToo) == i;
        } else if t.longOnly || t.long[i].hasArg != t.long[match_].hasArg
                  || t.long[i].flag != t.long[match_].flag || t.long[i].val != t.long[match_].val {
          second_partial_match := true;
          assert Competes(t, word, shortToo, match_, i);
        }
      }
      i := i + 1;
    }
    if !exact_match && second_partial_match {
      return Ambiguous;
    }
    if match_ != -1 {
      return Found(match_);
    }
    return NoMatch;
  }
}
