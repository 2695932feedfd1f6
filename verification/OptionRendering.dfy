/** What the option scanner makes of arguments that somebody has written down on purpose: operands, long options by
    name or abbreviation, and letters in clusters, with values in every form
    (deps/argtable3/argtable3.c:1628-1787 and 1911-2010).

    Requests are written as arguments here without looking at how an option is read, and the scan of what was
    written gives the requests back, mistakes included. */
module OptionRendering {
  import opened Wrappers
  import opened OptionTable
  import opened OptionScanner
  import opened Seqs

  // ---------------------------------------------------------------------------------------------------
  // Requests and how they are written
  // ---------------------------------------------------------------------------------------------------

  /** How the value of an option is given: not at all, in the same argument, or in the next one. */
  datatype Spelling = Alone | Attached(value: string) | Behind(value: string)

  /** What ends an option argument: nothing but the letters in front of it, a long option behind a dash or (with
      getopt_long_only) without one, a letter with or without its value, or the letter W and a long option.  meant is
      the number of the long option that word stands for, if it stands for one. */
  datatype Tail =
    | Nothing
    | Dashed(word: string, meant: Option<nat>, spelling: Spelling)
    | Bare(word: string, meant: Option<nat>, spelling: Spelling)
    | Letter(letter: char, spelling: Spelling)
    | ByW(word: string, meant: Option<nat>, spelling: Spelling)
    | ByWNext(word: string, meant: Option<nat>, spelling: Spelling)

  /** An argument that is no option, or an option argument: a dash, letters without values, and a tail. */
  datatype Request = Operand(arg: string) | Options(flags: string, tail: Tail)

  function Body(word: string, s: Spelling): string {
    if s.Attached? then word + "=" + s.value else word
  }

  function More(s: Spelling): seq<string> {
    if s.Behind? then [s.value] else []
  }

  function LetterBody(letter: char, s: Spelling): string {
    if s.Attached? then [letter] + s.value else [letter]
  }

  /** The part of the tail in the argument itself, and the arguments behind it that belong to it. */
  function Text(tail: Tail): (text: string)
    ensures tail.Nothing? ==> text == ""
  {
    match tail
    case Nothing => ""
    case Dashed(word, _, s) => "-" + Body(word, s)
    case Bare(word, _, s) => Body(word, s)
    case Letter(letter, s) => LetterBody(letter, s)
    case ByW(word, _, s) => "W" + Body(word, s)
    case ByWNext(_, _, _) => "W"
  }

  function Values(tail: Tail): (values: seq<string>)
    ensures tail.Nothing? ==> values == []
  {
    match tail
    case Nothing => []
    case Dashed(_, _, s) => More(s)
    case Bare(_, _, s) => More(s)
    case Letter(_, s) => More(s)
    case ByW(_, _, s) => More(s)
    case ByWNext(word, _, s) => [Body(word, s)] + More(s)
  }

  function Render(r: Request): (args: seq<string>)
    ensures args != []
  {
    match r
    case Operand(arg) => [arg]
    case Options(flags, tail) => ["-" + flags + Text(tail)] + Values(tail)
  }

  function RenderAll(rs: seq<Request>): seq<string> {
    if rs == [] then [] else Render(rs[0]) + RenderAll(rs[1..])
  }

  // ---------------------------------------------------------------------------------------------------
  // Which option a word or a letter stands for
  // ---------------------------------------------------------------------------------------------------

  /** word is a proper abbreviation of the name of option j.  One letter that is also an option letter is none. */
  predicate Abbreviates(t: Table, word: string, shortToo: bool, j: nat)
    requires j < |t.long|
  {
    word <= t.long[j].name && word != t.long[j].name && (shortToo ==> |word| != 1)
  }

  predicate ActAlike(a: LongOption, b: LongOption) {
    a.hasArg == b.hasArg && a.flag == b.flag && a.val == b.val
  }

  predicate IsName(t: Table, word: string) {
    exists j | 0 <= j < |t.long| :: t.long[j].name == word
  }

  /** word stands for option i: its name, or an abbreviation of nothing that acts differently. */
  predicate Means(t: Table, word: string, shortToo: bool, i: nat): (m: bool)
    ensures m ==> i < |t.long|
  {
    && i < |t.long|
    && if IsName(t, word) then t.long[i].name == word && forall j | 0 <= j < i :: t.long[j].name != word
       else
         && Abbreviates(t, word, shortToo, i)
         && forall j | 0 <= j < |t.long| && j != i ::
              Abbreviates(t, word, shortToo, j) ==> i < j && !t.longOnly && ActAlike(t.long[i], t.long[j])
  }

  predicate Unknown(t: Table, word: string, shortToo: bool) {
    !IsName(t, word) && forall j | 0 <= j < |t.long| :: !Abbreviates(t, word, shortToo, j)
  }

  /** word abbreviates two options that are not the same to the caller. */
  predicate Torn(t: Table, word: string, shortToo: bool) {
    && !IsName(t, word)
    && exists i, j | 0 <= i < j < |t.long| ::
         Abbreviates(t, word, shortToo, i) && Abbreviates(t, word, shortToo, j)
         && (t.longOnly || !ActAlike(t.long[i], t.long[j]))
  }

  /** What follows the first c in s. */
  function After(s: string, c: char): string {
    if s == "" then "" else if s[0] == c then s[1..] else After(s[1..], c)
  }

  /** What is in front of the first '='. */
  function Word(s: string): string {
    if s == "" || s[0] == '=' then "" else [s[0]] + Word(s[1..])
  }

  predicate IsLetter(t: Table, c: char) {
    c in t.short && c != ':' && c != '-'
  }

  predicate TakesWord(t: Table, c: char) {
    c == 'W' && ";" <= After(t.short, c)
  }

  /** c may stand in front of other letters: it takes no value, or it is no option letter at all. */
  predicate Single(t: Table, c: char) {
    c != '-' && (IsLetter(t, c) ==> !(":" <= After(t.short, c)) && !TakesWord(t, c))
  }

  /** What begins with place is read as a letter, not as a long option with one dash. */
  predicate ReadAsLetter(t: Table, place: string)
    requires place != ""
  {
    t.longOnly ==> IsLetter(t, place[0]) && Unknown(t, Word(place), true)
  }

  predicate AllSingle(t: Table, flags: string, tail: string) {
    flags == "" || (Single(t, flags[0]) && ReadAsLetter(t, flags + tail) && AllSingle(t, flags[1..], tail))
  }

  // ---------------------------------------------------------------------------------------------------
  // Which requests make sense, and what has to be reported for them
  // ---------------------------------------------------------------------------------------------------

  predicate LongMakesSense(t: Table, word: string, shortToo: bool, meant: Option<nat>, s: Spelling, more: seq<string>) {
    && '=' !in word
    && match meant
       case None => !s.Behind? && (Torn(t, word, shortToo) || (Unknown(t, word, shortToo) && !shortToo))
       case Some(i) =>
         && Means(t, word, shortToo, i)
         && match t.long[i].hasArg
            case NoArgument => !s.Behind?
            case OptionalArgument => !s.Behind?
            case RequiredArgument => s.Alone? ==> more == []
  }

  predicate LetterMakesSense(t: Table, c: char, s: Spelling, more: seq<string>) {
    && IsLetter(t, c) && ReadAsLetter(t, LetterBody(c, s))
    && (s.Attached? ==> s.value != "")
    && if TakesWord(t, c) then s.Alone? && more == []
       else if "::" <= After(t.short, c) then !s.Behind?
       else ":" <= After(t.short, c) && (s.Alone? ==> more == [])
  }

  predicate TailMakesSense(t: Table, tail: Tail, more: seq<string>) {
    match tail
    case Nothing => true
    case Dashed(word, meant, s) => (word != "" || s.Attached?) && LongMakesSense(t, word, false, meant, s, more)
    case Bare(word, meant, s) =>
      && t.longOnly && (word != "" || s.Attached?) && Body(word, s)[0] != '-'
      && LongMakesSense(t, word, IsLetter(t, Body(word, s)[0]), meant, s, more)
    case Letter(letter, s) => LetterMakesSense(t, letter, s, more)
    case ByW(word, meant, s) =>
      && IsLetter(t, 'W') && TakesWord(t, 'W') && ReadAsLetter(t, "W" + Body(word, s))
      && (word != "" || s.Attached?) && LongMakesSense(t, word, false, meant, s, more)
    case ByWNext(word, meant, s) =>
      && IsLetter(t, 'W') && TakesWord(t, 'W') && ReadAsLetter(t, "W")
      && LongMakesSense(t, word, false, meant, s, more)
  }

  /** more is what stands behind the request.  An option whose value is missing makes sense at the end only:
      in front of something else, that is its value. */
  predicate MakesSense(t: Table, r: Request, more: seq<string>) {
    match r
    case Operand(arg) => arg == "" || arg == "-" || arg[0] != '-'
    case Options(flags, tail) =>
      && (flags != "" || !tail.Nothing?)
      && AllSingle(t, flags, Text(tail)) && TailMakesSense(t, tail, more)
  }

  predicate AllMakeSense(t: Table, rs: seq<Request>, rest: seq<string>) {
    rs == [] || (MakesSense(t, rs[0], RenderAll(rs[1..]) + rest) && AllMakeSense(t, rs[1..], rest))
  }

  function LongEvent(t: Table, meant: Option<nat>, s: Spelling): Event
    requires meant.Some? ==> meant.value < |t.long|
  {
    match meant
    case None => BadOption(Some(0))
    case Some(i) =>
      var o := t.long[i];
      var reported := if o.flag == None then o.val else 0;
      match s
      case Alone => if o.hasArg == RequiredArgument then BadArgument(Some(reported)) else LongMatch(i, None)
      case Attached(v) => if o.hasArg == NoArgument then BadOption(Some(reported)) else LongMatch(i, Some(v))
      case Behind(v) => LongMatch(i, Some(v))
  }

  function FlagEvents(t: Table, flags: string): (es: seq<Event>)
    ensures |es| == |flags|
  {
    seq(|flags|, i requires 0 <= i < |flags| =>
      if IsLetter(t, flags[i]) then ShortOption(flags[i], None) else BadOption(Some(flags[i] as int)))
  }

  function LetterEvent(t: Table, c: char, s: Spelling): Event {
    match s
    case Alone => if "::" <= After(t.short, c) then ShortOption(c, None) else BadArgument(Some(c as int))
    case Attached(v) => ShortOption(c, Some(v))
    case Behind(v) => ShortOption(c, Some(v))
  }

  function TailEvents(t: Table, tail: Tail, more: seq<string>): (es: seq<Event>)
    requires TailMakesSense(t, tail, more)
    ensures |es| == if tail.Nothing? then 0 else 1
  {
    match tail
    case Nothing => []
    case Dashed(_, meant, s) => [LongEvent(t, meant, s)]
    case Bare(_, meant, s) => [LongEvent(t, meant, s)]
    case Letter(letter, s) => [LetterEvent(t, letter, s)]
    case ByW(_, meant, s) => [LongEvent(t, meant, s)]
    case ByWNext(_, meant, s) => [LongEvent(t, meant, s)]
  }

  function Events(t: Table, r: Request, more: seq<string>): seq<Event>
    requires MakesSense(t, r, more)
  {
    match r
    case Operand(_) => []
    case Options(flags, tail) => FlagEvents(t, flags) + TailEvents(t, tail, more)
  }

  function AllEvents(t: Table, rs: seq<Request>, rest: seq<string>): seq<Event>
    requires AllMakeSense(t, rs, rest)
  {
    if rs == [] then [] else Events(t, rs[0], RenderAll(rs[1..]) + rest) + AllEvents(t, rs[1..], rest)
  }

  // ---------------------------------------------------------------------------------------------------
  // Words and letters
  // ---------------------------------------------------------------------------------------------------

  lemma SameMatch(t: Table, word: string, shortToo: bool)
    ensures forall j | 0 <= j < |t.long| ::
              t.long[j].PartialMatch(word, shortToo) <==> Abbreviates(t, word, shortToo, j)
  {
  }

  lemma MeansFound(t: Table, word: string, shortToo: bool, i: nat)
    requires Means(t, word, shortToo, i)
    ensures Lookup(t, word, shortToo) == Found(i)
  {
    SameMatch(t, word, shortToo);
    hide Abbreviates, LongOption.PartialMatch;
  }

  lemma TornAmbiguous(t: Table, word: string, shortToo: bool)
    requires Torn(t, word, shortToo)
    ensures Lookup(t, word, shortToo) == Ambiguous
  {
    SameMatch(t, word, shortToo);
    hide Abbreviates, LongOption.PartialMatch;
    var i, j :| 0 <= i < j < |t.long| && Abbreviates(t, word, shortToo, i) && Abbreviates(t, word, shortToo, j)
                && (t.longOnly || !ActAlike(t.long[i], t.long[j]));
    var p := FirstPartial(t.long, word, shortToo);
    assert Competes(t, word, shortToo, p, i) || Competes(t, word, shortToo, p, j);
  }

  lemma UnknownNoMatch(t: Table, word: string, shortToo: bool)
    requires Unknown(t, word, shortToo)
    ensures Lookup(t, word, shortToo) == NoMatch
  {
    SameMatch(t, word, shortToo);
    hide Abbreviates, LongOption.PartialMatch;
  }

  /** Every word stands for one option, or for none, or is torn between some. */
  lemma WordStands(t: Table, word: string, shortToo: bool)
    ensures (exists i :: Means(t, word, shortToo, i)) || Unknown(t, word, shortToo) || Torn(t, word, shortToo)
    ensures forall i | Means(t, word, shortToo, i) :: !Unknown(t, word, shortToo) && !Torn(t, word, shortToo)
    ensures forall i, j | Means(t, word, shortToo, i) && Means(t, word, shortToo, j) :: i == j
    ensures !(Unknown(t, word, shortToo) && Torn(t, word, shortToo))
  {
    forall i | Means(t, word, shortToo, i)
      ensures Lookup(t, word, shortToo) == Found(i)
    {
      MeansFound(t, word, shortToo, i);
    }
    if Unknown(t, word, shortToo) {
      UnknownNoMatch(t, word, shortToo);
    }
    if Torn(t, word, shortToo) {
      TornAmbiguous(t, word, shortToo);
    }
    var e := FirstExact(t.long, word);
    var p := FirstPartial(t.long, word, shortToo);
    SameMatch(t, word, shortToo);
    hide Abbreviates, LongOption.PartialMatch, Lookup;
    if e < |t.long| {
      assert Means(t, word, shortToo, e);
    } else if p < |t.long| && !Torn(t, word, shortToo) {
      assert Means(t, word, shortToo, p);
    }
  }

  lemma {:induction false} WordIsName(s: string)
    ensures NameOf(s) == Word(s)
  {
    if s != "" && s[0] != '=' {
      WordIsName(s[1..]);
      var n := Find(s[1..], '=');
      assert s[..1 + n] == [s[0]] + s[1..][..n];
    }
  }

  /** A word with or without a value behind a '='. */
  lemma BodyParts(word: string, s: Spelling)
    requires '=' !in word
    ensures NameOf(Body(word, s)) == word
    ensures ValueOf(Body(word, s)) == if s.Attached? then Some(s.value) else None
  {
    if s.Attached? {
      FindFirst(word, '=', s.value);
      assert word + "=" + s.value == word + ['='] + s.value;
      assert (word + "=" + s.value)[|word| + 1..] == s.value;
    }
  }

  lemma {:induction false} AfterIsFollows(s: string, c: char)
    requires c in s
    ensures After(s, c) == s[Find(s, c) + 1..]
  {
    if s[0] != c {
      AfterIsFollows(s[1..], c);
    }
  }

  /** The characters behind an option letter are the ones that the scanner looks at. */
  lemma LetterMarks(t: Table, c: char)
    requires c in t.short
    ensures t.Follows(c, 1, ':') <==> ":" <= After(t.short, c)
    ensures t.Follows(c, 1, ';') <==> ";" <= After(t.short, c)
    ensures t.Follows(c, 1, ':') && t.Follows(c, 2, ':') <==> "::" <= After(t.short, c)
  {
    AfterIsFollows(t.short, c);
    var a, n := After(t.short, c), Find(t.short, c);
    assert a != "" ==> a[0] == t.short[n + 1];
    assert |a| > 1 ==> a[1] == t.short[n + 2];
  }

  // ---------------------------------------------------------------------------------------------------
  // One option
  // ---------------------------------------------------------------------------------------------------

  /** How many arguments a long option finishes, the one with its word included. */
  function LongWidth(s: Spelling): nat {
    1 + |More(s)|
  }

  lemma LongReads(t: Table, arg: string, word: string, shortToo: bool, meant: Option<nat>, s: Spelling,
                  more: seq<string>)
    requires LongMakesSense(t, word, shortToo, meant, s, more)
    ensures ReadLong(t, [arg] + More(s) + more, Body(word, s), shortToo) == Long(LongEvent(t, meant, s), LongWidth(s))
  {
    hide Means, Torn, Unknown, Lookup, NameOf, ValueOf, LongOption.PartialMatch;
    BodyParts(word, s);
    if meant.Some? {
      MeansFound(t, word, shortToo, meant.value);
    } else if Torn(t, word, shortToo) {
      TornAmbiguous(t, word, shortToo);
    } else {
      UnknownNoMatch(t, word, shortToo);
    }
  }

  /** A place that is read as a letter is. */
  lemma LetterRead(t: Table, args: seq<string>, place: string)
    requires args != [] && place != "" && place[0] != '-' && ReadAsLetter(t, place)
    ensures ReadOption(t, args, place) == ReadShort(t, args, place[0], place[1..])
  {
    hide ReadShort, Lookup, NameOf;
    if t.longOnly {
      WordIsName(place);
      UnknownNoMatch(t, Word(place), true);
    }
  }

  lemma SingleReads(t: Table, args: seq<string>, place: string)
    requires args != [] && place != "" && Single(t, place[0]) && ReadAsLetter(t, place)
    ensures ReadOption(t, args, place) == Step(FlagEvents(t, [place[0]])[0], if |place| == 1 then 1 else 0, place[1..])
  {
    LetterRead(t, args, place);
    var c := place[0];
    if c in t.short {
      LetterMarks(t, c);
    }
    hide ReadAsLetter, Table.Follows, After, ReadOption;
  }

  lemma LetterReads(t: Table, arg: string, c: char, s: Spelling, more: seq<string>)
    requires LetterMakesSense(t, c, s, more)
    ensures ReadOption(t, [arg] + More(s) + more, LetterBody(c, s)) == Step(LetterEvent(t, c, s), LongWidth(s), "")
  {
    LetterRead(t, [arg] + More(s) + more, LetterBody(c, s));
    LetterMarks(t, c);
    assert s.Attached? ==> ([c] + s.value)[1..] == s.value;
    hide ReadAsLetter, Table.Follows, After, ReadOption, ReadLong;
  }

  /** The tail of an option argument is read as one option. */
  lemma TailReads(t: Table, arg: string, tail: Tail, more: seq<string>)
    requires !tail.Nothing? && TailMakesSense(t, tail, more)
    ensures Text(tail) != "" && Text(tail) != "-"
    ensures ReadOption(t, [arg] + Values(tail) + more, Text(tail))
            == Step(TailEvents(t, tail, more)[0], 1 + |Values(tail)|, "")
  {
    hide Means, Torn, Unknown, IsLetter, After, ReadLong, ReadShort, LongEvent, LetterEvent;
    match tail
    case Dashed(word, meant, s) =>
      LongReads(t, arg, word, false, meant, s, more);
      assert Text(tail)[1..] == Body(word, s);
    case Bare(word, meant, s) =>
      BareReads(t, arg, word, meant, s, more);
    case Letter(letter, s) =>
      LetterReads(t, arg, letter, s, more);
    case ByW(word, meant, s) =>
      LongReads(t, arg, word, false, meant, s, more);
      ByWReads(t, Body(word, s), [arg] + More(s) + more, LongEvent(t, meant, s), LongWidth(s));
    case ByWNext(word, meant, s) =>
      LongReads(t, Body(word, s), word, false, meant, s, more);
      assert [arg] + Values(tail) + more == [arg] + ([Body(word, s)] + More(s) + more);
      ByWNextReads(t, arg, Body(word, s), [Body(word, s)] + More(s) + more, LongEvent(t, meant, s), LongWidth(s));
  }

  lemma BareReads(t: Table, arg: string, word: string, meant: Option<nat>, s: Spelling, more: seq<string>)
    requires TailMakesSense(t, Bare(word, meant, s), more)
    ensures ReadOption(t, [arg] + More(s) + more, Body(word, s)) == Step(LongEvent(t, meant, s), LongWidth(s), "")
  {
    hide Means, Torn, Unknown, ReadLong, LongEvent;
    LongReads(t, arg, word, IsLetter(t, Body(word, s)[0]), meant, s, more);
  }

  lemma ByWReads(t: Table, body: string, args: seq<string>, e: Event, n: nat)
    requires IsLetter(t, 'W') && TakesWord(t, 'W') && body != "" && ReadAsLetter(t, "W" + body)
    requires args != [] && ReadLong(t, args, body, false) == Long(e, n)
    ensures ReadOption(t, args, "W" + body) == Step(e, n, "")
  {
    hide ReadAsLetter, Table.Follows, After, ReadOption, ReadLong;
    LetterRead(t, args, "W" + body);
    LetterMarks(t, 'W');
    assert ("W" + body)[1..] == body;
  }

  lemma ByWNextReads(t: Table, arg: string, body: string, args: seq<string>, e: Event, n: nat)
    requires IsLetter(t, 'W') && TakesWord(t, 'W') && ReadAsLetter(t, "W")
    requires args != [] && args[0] == body && ReadLong(t, args, body, false) == Long(e, n)
    ensures ReadOption(t, [arg] + args, "W") == Step(e, 1 + n, "")
  {
    hide ReadAsLetter, Table.Follows, After, ReadOption, ReadLong;
    LetterRead(t, [arg] + args, "W");
    LetterMarks(t, 'W');
    assert ([arg] + args)[1..] == args;
  }

  // ---------------------------------------------------------------------------------------------------
  // Clusters
  // ---------------------------------------------------------------------------------------------------

  lemma FlagEventsStep(t: Table, flags: string)
    requires flags != ""
    ensures FlagEvents(t, flags) == FlagEvents(t, [flags[0]]) + FlagEvents(t, flags[1..])
    ensures |FlagEvents(t, [flags[0]])| == 1
  {
  }

  /** Letters without values, and then an option that ends the cluster. */
  lemma {:induction false} ClusterReads(t: Table, args: seq<string>, flags: string, tail: string, e: Event, n: nat)
    requires args != [] && tail != "" && AllSingle(t, flags, tail)
    requires ReadOption(t, args, tail) == Step(e, n, "")
    ensures ReadCluster(t, args, flags + tail) == Cluster(FlagEvents(t, flags) + [e], n)
    decreases |flags|
  {
    hide ReadOption, Single, ReadAsLetter, FlagEvents;
    if flags == "" {
      assert flags + tail == tail;
    } else {
      var place := flags + tail;
      SingleReads(t, args, place);
      assert place[1..] == flags[1..] + tail && place[0] == flags[0];
      ClusterReads(t, args, flags[1..], tail, e, n);
      FlagEventsStep(t, flags);
      ConcatAssoc(FlagEvents(t, [flags[0]]), FlagEvents(t, flags[1..]), [e]);
    }
  }

  lemma {:induction false} FlagsRead(t: Table, args: seq<string>, flags: string)
    requires args != [] && flags != "" && AllSingle(t, flags, "")
    ensures ReadCluster(t, args, flags) == Cluster(FlagEvents(t, flags), 1)
    decreases |flags|
  {
    hide ReadOption, Single, ReadAsLetter, FlagEvents;
    assert flags + "" == flags && flags[1..] + "" == flags[1..];
    SingleReads(t, args, flags);
    FlagEventsStep(t, flags);
    if |flags| > 1 {
      FlagsRead(t, args, flags[1..]);
    }
  }

  // ---------------------------------------------------------------------------------------------------
  // One request
  // ---------------------------------------------------------------------------------------------------

  /** A scan with events and arguments in front. */
  function Front(events: seq<Event>, opts: seq<string>, nonopts: seq<string>, after: Scan): Scan {
    after.(events := events + after.events, opts := opts + after.opts, nonopts := nonopts + after.nonopts)
  }

  lemma FrontFront(es: seq<Event>, os: seq<string>, ns: seq<string>,
                   es': seq<Event>, os': seq<string>, ns': seq<string>, after: Scan)
    ensures Front(es, os, ns, Front(es', os', ns', after)) == Front(es + es', os + os', ns + ns', after)
  {
    ConcatAssoc(es, es', after.events);
    ConcatAssoc(os, os', after.opts);
    ConcatAssoc(ns, ns', after.nonopts);
  }

  lemma FrontEmpty(after: Scan)
    ensures Front([], [], [], after) == after
  {
    assert [] + after.events == after.events && [] + after.opts == after.opts && [] + after.nonopts == after.nonopts;
  }

  /** The scan of arguments that begin with an option argument and perhaps a value. */
  predicate ScansTo(t: Table, option: seq<string>, events: seq<Event>, more: seq<string>) {
    ScanArgs(t, option + more) == Front(events, option, [], ScanArgs(t, more))
  }

  lemma ClusterScans(t: Table, option: seq<string>, events: seq<Event>, more: seq<string>)
    requires option != [] && |option[0]| > 1 && option[0][0] == '-' && option[0] != "--"
    requires ReadCluster(t, option + more, option[0][1..]) == Cluster(events, |option|)
    ensures ScansTo(t, option, events, more)
  {
    hide ReadCluster;
    var args := option + more;
    assert args[0] == option[0] && args[|option|..] == more && args[..|option|] == option;
    var after := ScanArgs(t, more);
    assert [] + after.nonopts == after.nonopts;
  }

  lemma NoDashFirst(t: Table, flags: string, tail: string)
    requires AllSingle(t, flags, tail)
    ensures flags != "" ==> flags[0] != '-'
  {
  }

  lemma OptionsScan(t: Table, flags: string, tail: Tail, more: seq<string>)
    requires MakesSense(t, Options(flags, tail), more)
    ensures ScansTo(t, Render(Options(flags, tail)), FlagEvents(t, flags) + TailEvents(t, tail, more), more)
  {
    hide ScansTo, FlagEvents, ReadOption, ReadCluster, TailMakesSense, TailEvents, Text, Values, Single, ReadAsLetter;
    var cluster := flags + Text(tail);
    var arg := "-" + flags + Text(tail);
    var option := [arg] + Values(tail);
    assert arg == "-" + cluster && arg[1..] == cluster;
    if tail.Nothing? {
      assert cluster == flags;
      assert FlagEvents(t, flags) + [] == FlagEvents(t, flags);
      FlagsRead(t, option + more, flags);
    } else {
      TailReads(t, arg, tail, more);
      ClusterReads(t, option + more, flags, Text(tail), TailEvents(t, tail, more)[0], |option|);
    }
    NoDashFirst(t, flags, Text(tail));
    ClusterScans(t, option, FlagEvents(t, flags) + TailEvents(t, tail, more), more);
  }

  function OperandArgs(r: Request): seq<string> {
    if r.Operand? then Render(r) else []
  }

  function OptionArgs(r: Request): seq<string> {
    if r.Operand? then [] else Render(r)
  }

  /** A request in front of more arguments: its events, and then the scan of the others. */
  lemma RequestScans(t: Table, r: Request, more: seq<string>)
    requires MakesSense(t, r, more)
    ensures ScanArgs(t, Render(r) + more) == Front(Events(t, r, more), OptionArgs(r), OperandArgs(r), ScanArgs(t, more))
  {
    hide AllSingle, TailMakesSense, FlagEvents, TailEvents;
    match r
    case Operand(arg) =>
      var after := ScanArgs(t, more);
      assert ([arg] + more)[1..] == more;
      assert [] + after.events == after.events && [] + after.opts == after.opts;
    case Options(flags, tail) =>
      OptionsScan(t, flags, tail, more);
  }

  // ---------------------------------------------------------------------------------------------------
  // Scanning inverts writing
  // ---------------------------------------------------------------------------------------------------

  function AllOptionArgs(rs: seq<Request>): seq<string> {
    if rs == [] then [] else OptionArgs(rs[0]) + AllOptionArgs(rs[1..])
  }

  function AllOperands(rs: seq<Request>): seq<string> {
    if rs == [] then [] else OperandArgs(rs[0]) + AllOperands(rs[1..])
  }

  /** The scan of written requests, with any arguments behind them, has exactly their events in front, sorts their
      arguments into options and operands, and goes on with the scan of the others. */
  lemma {:induction false} ScanInvertsRendering(t: Table, rs: seq<Request>, rest: seq<string>)
    requires AllMakeSense(t, rs, rest)
    ensures ScanArgs(t, RenderAll(rs) + rest)
            == Front(AllEvents(t, rs, rest), AllOptionArgs(rs), AllOperands(rs), ScanArgs(t, rest))
  {
    hide MakesSense, Render, Events, ScanArgs, Front, OptionArgs, OperandArgs;
    if rs == [] {
      assert RenderAll(rs) + rest == rest;
      FrontEmpty(ScanArgs(t, rest));
    } else {
      var r, more := rs[0], RenderAll(rs[1..]) + rest;
      ScanInvertsRendering(t, rs[1..], rest);
      RequestScans(t, r, more);
      ConcatAssoc(Render(r), RenderAll(rs[1..]), rest);
      FrontFront(Events(t, r, more), OptionArgs(r), OperandArgs(r),
                 AllEvents(t, rs[1..], rest), AllOptionArgs(rs[1..]), AllOperands(rs[1..]), ScanArgs(t, rest));
    }
  }

  /** Written requests alone. */
  lemma ScanOfRequests(t: Table, rs: seq<Request>)
    requires AllMakeSense(t, rs, [])
    ensures ScanArgs(t, RenderAll(rs)) == Scan(AllEvents(t, rs, []), AllOptionArgs(rs), AllOperands(rs), [], false)
  {
    hide AllMakeSense, AllEvents, AllOptionArgs, AllOperands;
    ScanInvertsRendering(t, rs, []);
    assert RenderAll(rs) + [] == RenderAll(rs);
  }

  /** Written requests in front of an end mark: whatever is behind it is left alone. */
  lemma ScanToEndMark(t: Table, rs: seq<Request>, operands: seq<string>)
    requires AllMakeSense(t, rs, ["--"] + operands)
    ensures ScanArgs(t, RenderAll(rs) + (["--"] + operands))
            == Scan(AllEvents(t, rs, ["--"] + operands), AllOptionArgs(rs) + ["--"], AllOperands(rs), operands, false)
  {
    hide AllMakeSense, AllEvents, AllOptionArgs, AllOperands, RenderAll;
    ScanInvertsRendering(t, rs, ["--"] + operands);
    assert (["--"] + operands)[1..] == operands;
  }

  // ---------------------------------------------------------------------------------------------------
  // Every command line is one of written requests
  // ---------------------------------------------------------------------------------------------------

  lemma {:induction false} WordParts(place: string)
    ensures '=' !in Word(place) && Word(place) <= place
    ensures Word(place) == place || place[|Word(place)|] == '='
  {
    if place != "" && place[0] != '=' {
      WordParts(place[1..]);
    }
  }

  /** The arguments of a tail, from those that stand behind its own. */
  predicate TailOf(t: Table, tail: Tail, place: string, more: seq<string>) {
    && Text(tail) == place && Values(tail) <= more && TailMakesSense(t, tail, more[|Values(tail)|..])
  }

  lemma LongWritten(t: Table, place: string, shortToo: bool, more: seq<string>)
    returns (word: string, meant: Option<nat>, s: Spelling)
    requires shortToo ==> !Unknown(t, Word(place), true)
    ensures Body(word, s) == place && (word != "" || s.Attached? || place == "")
    ensures More(s) <= more && LongMakesSense(t, word, shortToo, meant, s, more[|More(s)|..])
  {
    hide Means, Torn, Unknown;
    word := Word(place);
    WordParts(place);
    WordStands(t, word, shortToo);
    if i :| Means(t, word, shortToo, i) {
      meant := Some(i);
    } else {
      meant := None;
    }
    if word != place {
      s := Attached(place[|word| + 1..]);
      assert place == word + "=" + s.value;
    } else if meant.Some? && t.long[meant.value].hasArg == RequiredArgument && more != [] {
      s := Behind(more[0]);
    } else {
      s := Alone;
    }
  }

  lemma LetterWritten(t: Table, place: string, more: seq<string>) returns (tail: Tail)
    requires place != "" && IsLetter(t, place[0]) && ReadAsLetter(t, place) && !Single(t, place[0])
    requires !TakesWord(t, place[0])
    ensures !tail.Nothing? && TailOf(t, tail, place, more)
  {
    hide ReadAsLetter, After;
    var letter := place[0];
    assert |place| == 1 ==> place == [letter];
    if |place| > 1 {
      tail := Letter(letter, Attached(place[1..]));
      assert place == [letter] + place[1..];
    } else if more == [] || "::" <= After(t.short, letter) {
      tail := Letter(letter, Alone);
    } else {
      tail := Letter(letter, Behind(more[0]));
    }
  }

  lemma ByWWritten(t: Table, place: string, more: seq<string>) returns (tail: Tail)
    requires place != "" && IsLetter(t, place[0]) && ReadAsLetter(t, place) && TakesWord(t, place[0])
    ensures !tail.Nothing? && TailOf(t, tail, place, more)
  {
    hide ReadAsLetter, Means, Torn, Unknown, After;
    assert |place| == 1 ==> place == "W";
    if |place| > 1 {
      var word, meant, s := LongWritten(t, place[1..], false, more);
      tail := ByW(word, meant, s);
      assert place == "W" + place[1..];
    } else if more == [] {
      tail := Letter('W', Alone);
    } else {
      var word, meant, s := LongWritten(t, more[0], false, more[1..]);
      tail := ByWNext(word, meant, s);
      assert Values(tail) == [more[0]] + More(s);
      assert more[|Values(tail)|..] == more[1..][|More(s)|..];
    }
  }

  lemma TailWritten(t: Table, place: string, more: seq<string>) returns (tail: Tail)
    requires place != "" && place != "-" && !(Single(t, place[0]) && ReadAsLetter(t, place))
    ensures !tail.Nothing? && TailOf(t, tail, place, more)
  {
    hide After, Means, Torn;
    if place[0] == '-' {
      var word, meant, s := LongWritten(t, place[1..], false, more);
      tail := Dashed(word, meant, s);
      assert place == "-" + place[1..];
    } else if !ReadAsLetter(t, place) {
      var word, meant, s := LongWritten(t, place, IsLetter(t, place[0]), more);
      tail := Bare(word, meant, s);
    } else if TakesWord(t, place[0]) && IsLetter(t, place[0]) {
      tail := ByWWritten(t, place, more);
    } else {
      tail := LetterWritten(t, place, more);
    }
  }

  /** A letter that takes no value leaves the rest of a cluster to be read. */
  lemma SingleIsPlain(t: Table, place: string)
    requires place != "" && Single(t, place[0]) && ReadAsLetter(t, place)
    ensures Plain(t, place)
  {
    hide Lookup, NameOf, After, Table.Follows;
    if place[0] in t.short {
      LetterMarks(t, place[0]);
    }
    if t.longOnly {
      WordIsName(place);
      UnknownNoMatch(t, Word(place), true);
    }
  }

  lemma {:induction false} ClusterWritten(t: Table, place: string, more: seq<string>)
    returns (flags: string, tail: Tail)
    requires place != "" && !Stuck(t, place)
    ensures place == flags + Text(tail) && (flags != "" || !tail.Nothing?) && AllSingle(t, flags, Text(tail))
    ensures Values(tail) <= more && TailMakesSense(t, tail, more[|Values(tail)|..])
    decreases |place|
  {
    hide Plain, Single, ReadAsLetter, TailMakesSense, Stuck, Text, Values;
    DashIsStuck(t);
    if Single(t, place[0]) && ReadAsLetter(t, place) {
      if |place| == 1 {
        flags, tail := place, Nothing;
        LastSingle(t, place, more);
      } else {
        SingleIsPlain(t, place);
        StuckStep(t, place);
        flags, tail := ClusterWritten(t, place[1..], more);
        flags := [place[0]] + flags;
        assert flags[1..] + Text(tail) == place[1..] && flags + Text(tail) == place;
      }
    } else {
      flags := "";
      tail := TailWritten(t, place, more);
    }
  }

  lemma DashIsStuck(t: Table)
    ensures Stuck(t, "-")
  {
  }

  lemma LastSingle(t: Table, flags: string, more: seq<string>)
    requires |flags| == 1 && Single(t, flags[0]) && ReadAsLetter(t, flags)
    ensures flags + "" == flags && AllSingle(t, flags, "") && TailMakesSense(t, Nothing, more)
  {
    assert flags + "" == flags;
  }

  /** Any arguments at all are written requests, as far as the scan reads them: up to an end mark or to an argument
      that it does not get past. */
  lemma {:induction false} EveryLineIsWritten(t: Table, args: seq<string>) returns (rs: seq<Request>, rest: seq<string>)
    ensures args == RenderAll(rs) + rest && AllMakeSense(t, rs, rest)
    ensures rest == [] || rest[0] == "--" || (!IsNonOption(rest[0]) && Stuck(t, rest[0][1..]))
    decreases |args|
  {
    hide MakesSense, Stuck;
    if args == [] || args[0] == "--" || (!IsNonOption(args[0]) && Stuck(t, args[0][1..])) {
      rs, rest := [], args;
    } else {
      var r := FirstRequest(t, args);
      var n := |Render(r)|;
      rs, rest := EveryLineIsWritten(t, args[n..]);
      assert args == Render(r) + (RenderAll(rs) + rest);
      ConcatAssoc(Render(r), RenderAll(rs), rest);
      rs := [r] + rs;
    }
  }

  lemma FirstRequest(t: Table, args: seq<string>) returns (r: Request)
    requires args != [] && args[0] != "--" && (IsNonOption(args[0]) || !Stuck(t, args[0][1..]))
    ensures Render(r) <= args && MakesSense(t, r, args[|Render(r)|..])
  {
    hide Stuck, AllSingle, TailMakesSense, Text, Values;
    if IsNonOption(args[0]) {
      r := Operand(args[0]);
    } else {
      var place := args[0][1..];
      var flags, tail := ClusterWritten(t, place, args[1..]);
      r := Options(flags, tail);
      assert args[0] == "-" + flags + Text(tail);
      assert args[1..][|Values(tail)|..] == args[|Render(r)|..];
    }
  }
}
