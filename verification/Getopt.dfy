/** The scanner as argtable3 runs it: the globals `optind`, `optarg`, `optopt`, `optreset` and the statics
    `place`, `nonopt_start`, `nonopt_end` as fields, and argv rearranged in place
    (deps/argtable3/argtable3.c:1501-1507, 1628-1787, 1793-2010 and 5295-5379).

    argv[argc] is NULL and is not stored: reading it is reading past the last element. */
module Getopt {
  import opened Wrappers
  import opened OptionTable
  import opened OptionScanner
  import opened BlockRotation

  class Scanner {
    const table: Table
    const argv: array<string>
    var optind: nat
    var optarg: Option<string>
    var optopt: int
    var optreset: bool
    var place: string
    var nonoptStart: int
    var nonoptEnd: int

    /** Before a first call, with optind 0, the other variables may hold anything. */
    ghost predicate Valid()
      reads this, argv
    {
      && table.Valid() && 0 < argv.Length
      && (optind != 0 ==> Scanning() && !optreset)
    }

    /** argv is [program] options [skipped non-options] options [unread]; the last two blocks before the unread
        arguments are present when nonoptStart, respectively nonoptEnd, is not -1. */
    ghost predicate Scanning()
      reads this, argv
    {
      && table.Valid()
      && 1 <= optind <= argv.Length
      && (nonoptStart == -1 ==> nonoptEnd == -1)
      && (nonoptStart != -1 ==> 1 <= nonoptStart < optind)
      && (nonoptEnd != -1 ==> nonoptStart < nonoptEnd <= optind)
      && (nonoptEnd == optind ==> optind < argv.Length && !IsNonOption(argv[optind]) && argv[optind] != "--")
      && (Place() != "" ==> optind < argv.Length && |place| < |argv[optind]| && (nonoptStart != -1 ==> nonoptEnd != -1)
                            && !IsNonOption(argv[optind]) && argv[optind] != "--")
    }

    ghost function Place(): string
      reads this
    {
      if optreset then "" else place
    }

    /** The scanner's state with the blocks of argv put back into reading order. */
    ghost function View(): State
      reads this, argv
      requires optind == 0 ==> 0 < argv.Length
      requires optind != 0 ==> Scanning()
    {
      if optind == 0 then Start(argv[1..])
      else if nonoptStart == -1 then State(argv[1..optind], [], argv[optind..], Place())
      else if nonoptEnd == -1 then State(argv[1..nonoptStart], argv[nonoptStart..optind], argv[optind..], Place())
      else State(argv[1..nonoptStart] + argv[nonoptEnd..optind], argv[nonoptStart..nonoptEnd], argv[optind..], Place())
    }

    lemma ViewHead()
      requires optind != 0 && Scanning()
      ensures 1 <= optind <= argv.Length && table.Valid()
      ensures View().Valid() && View().rest == argv[optind..] && View().place == Place()
      ensures nonoptEnd == optind ==> optind < argv.Length && !IsNonOption(argv[optind])
    {
    }

    /** argv in final order: options, non-options, unread arguments, with optind after the options. */
    ghost predicate LaidOut(program: string, st: State)
      reads this, argv
    {
      && argv[..] == [program] + st.opts + st.nonopts + st.rest
      && optind == 1 + |st.opts|
      && nonoptStart == -1 && nonoptEnd == -1 && place == "" && !optreset
    }

    constructor (table: Table, argv: array<string>)
      requires table.Valid() && 0 < argv.Length
      ensures Valid() && this.table == table && this.argv == argv && optind == 1
      ensures View() == Start(argv[1..])
    {
      this.table, this.argv := table, argv;
      optind, optarg, optopt, optreset := 1, None, '?' as int, false;
      place, nonoptStart, nonoptEnd := "", -1, -1;
    }

    /** Move the skipped non-options behind the options that follow them. */
    method Permute()
      requires Scanning() && nonoptEnd != -1 && nonoptEnd < optind
      modifies argv
      ensures argv[..] == [old(argv[0])] + old(View()).opts + old(View()).nonopts + old(View()).rest
      ensures |old(View()).nonopts| == nonoptEnd - nonoptStart
      ensures 1 + |old(View()).opts| == optind - (nonoptEnd - nonoptStart)
    {
      ExchangeBlocks(argv[..], nonoptStart, nonoptEnd, optind);
      PermuteArgs(argv, nonoptStart, nonoptEnd, optind);
    }

    /** Put argv in final order, with optind at the first argument that is not an option. */
    method Finish()
      requires optind != 0 && Scanning() && place == "" && !optreset && nonoptEnd != optind
      modifies `optind, `optreset, `place, `nonoptStart, `nonoptEnd, argv
      ensures LaidOut(old(argv[0]), old(View())) && table.Valid()
    {
      ghost var s := argv[..];
      if nonoptEnd != -1 {
        Permute();
        optind := optind - (nonoptEnd - nonoptStart);
      } else if nonoptStart != -1 {
        optind := nonoptStart;
        assert s == [s[0]] + s[1..nonoptStart] + s[nonoptStart..old(optind)] + s[old(optind)..];
      } else {
        assert s == [s[0]] + s[1..optind] + [] + s[optind..];
      }
      nonoptStart, nonoptEnd := -1, -1;
    }

    /** Bring the skipped non-options up to optind, so that one more can join them. */
    method MoveSkipped()
      requires optind != 0 && Scanning() && place == "" && !optreset && nonoptEnd != -1 && nonoptEnd != optind
      modifies `nonoptStart, `nonoptEnd, argv
      ensures Scanning() && nonoptStart != -1 && nonoptEnd == -1 && View() == old(View())
      ensures argv[0] == old(argv[0]) && argv[optind..] == old(argv[optind..])
    {
      ghost var st := View();
      Permute();
      nonoptStart := optind - (nonoptEnd - nonoptStart);
      nonoptEnd := -1;
      SplitLayout(argv[..], argv[0], st);
    }

    method SkipNonOption()
      requires optind != 0 && Scanning() && place == "" && !optreset
      requires optind < argv.Length && IsNonOption(argv[optind])
      modifies `optind, `optreset, `place, `nonoptStart, `nonoptEnd, argv
      ensures Scanning() && place == "" && !optreset && optind == old(optind) + 1 && argv[0] == old(argv[0])
      ensures var v := old(View()); View() == v.(nonopts := v.nonopts + [old(argv[optind])], rest := v.rest[1..])
    {
      if nonoptStart == -1 {
        nonoptStart := optind;
      } else if nonoptEnd != -1 {
        MoveSkipped();
        assert argv[optind..][0] == old(argv[optind..])[0];
      }
      assert argv[nonoptStart..optind + 1] == argv[nonoptStart..optind] + [argv[optind]];
      optind := optind + 1;
    }

    /** An argument with a '-' and more: the end mark "--" finishes the scan, any other starts a cluster. */
    method BeginOption() returns (option: bool)
      requires optind != 0 && Scanning() && place == "" && !optreset
      requires optind < argv.Length && !IsNonOption(argv[optind])
      modifies `optind, `optreset, `place, `nonoptStart, `nonoptEnd, argv
      ensures option <==> old(argv[optind]) != "--"
      ensures !optreset && table.Valid()
      ensures option ==> Scanning() && optind == old(optind) && argv[0] == old(argv[0])
                         && place != "" && View() == old(View()).(place := old(argv[optind])[1..])
      ensures !option ==> var st := old(View());
                          LaidOut(old(argv[0]), st.(opts := st.opts + [st.rest[0]], rest := st.rest[1..]))
    {
      hide LaidOut;
      ghost var st := View();
      if nonoptStart != -1 && nonoptEnd == -1 {
        nonoptEnd := optind;
        assert argv[nonoptEnd..optind] == [];
      }
      place := argv[optind][1..];
      if place == "-" {
        ExtendOptions(argv[..], nonoptStart, nonoptEnd, optind);
        EndMark();
        return false;
      }
      return true;
    }

    method EndMark()
      requires optind != 0 && table.Valid() && !optreset && optind < argv.Length
      requires nonoptStart == -1 ==> nonoptEnd == -1
      requires nonoptStart != -1 ==> 1 <= nonoptStart < nonoptEnd <= optind
      modifies `optind, `optreset, `place, `nonoptStart, `nonoptEnd, argv
      ensures !optreset && table.Valid()
      ensures LaidOut(old(argv[0]),
                if old(nonoptStart) == -1 then State(old(argv[1..optind + 1]), [], old(argv[optind + 1..]), "")
                else State(old(argv[1..nonoptStart]) + old(argv[nonoptEnd..optind + 1]),
                           old(argv[nonoptStart..nonoptEnd]), old(argv[optind + 1..]), ""))
    {
      optind := optind + 1;
      place := "";
      Finish();
    }

    /** The stale contents of place after a reset are not looked at. */
    method ClearReset()
      requires optind != 0 && Scanning() && Place() == ""
      modifies `optreset, `place
      ensures Scanning() && place == "" && !optreset && optind == old(optind) && nonoptEnd == old(nonoptEnd)
      ensures View() == old(View())
    {
      optreset, place := false, "";
    }

    /** The code under the label start: skip non-options up to the next option, or finish. */
    method Fetch() returns (found: bool)
      requires optind != 0 && Scanning()
      modifies `optind, `optreset, `place, `nonoptStart, `nonoptEnd, argv
      ensures !optreset && table.Valid()
      ensures found ==> optind != 0 && Scanning() && place != "" && Take(table, View()) == NextCall(table, old(View()))
      ensures !found ==> var c := NextCall(table, old(View()));
                         c.event.None? && LaidOut(old(argv[0]), c.after)
      ensures found ==> argv[0] == old(argv[0])
    {
      hide NextCall, Take, View, LaidOut, Scanning;
      ViewHead();
      while optreset || place == ""
        invariant optind != 0 && Scanning() && argv[0] == old(argv[0])
        invariant View().Valid() && NextCall(table, View()) == NextCall(table, old(View()))
        decreases argv.Length - optind, Place() == ""
      {
        ClearReset();
        ViewHead();
        FetchCases(table, View());
        if optind >= argv.Length {
          Finish();
          return false;
        }
        var arg := argv[optind];
        if arg == "" || arg[0] != '-' || |arg| == 1 {
          SkipNonOption();
          ViewHead();
          continue;
        }
        found := BeginOption();
        if !found {
          return false;
        }
        ViewHead();
        FetchCases(table, View());
      }
      ViewHead();
      FetchCases(table, View());
      return true;
    }

    /** The variables a caller reads after an event. */
    ghost predicate Stored(e: Event)
      reads this
    {
      match e
      case ShortOption(_, a) => optarg == a
      case LongMatch(_, a) => optarg == a
      case BadOption(v) => v.Some? ==> optopt == v.value
      case BadArgument(v) => v.Some? ==> optopt == v.value
    }

    /** `parse_long_options` at place; None stands for its return value -1. */
    method ParseLongOptions(shortToo: bool) returns (r: Option<Event>)
      requires optind < argv.Length && optarg.None?
      modifies `optind, `optarg, `optopt
      ensures match ReadLong(table, argv[old(optind)..], place, shortToo)
              case NotLong => r.None? && optind == old(optind) && optarg.None?
              case Long(e, c) => r == Some(e) && optind == old(optind) + c && Stored(e)
    {
      hide Lookup, Find;
      var word := place[..Find(place, '=')];
      var has_equal := if '=' in place then Some(place[Find(place, '=') + 1..]) else None;
      optind := optind + 1;
      var m := FindLong(table, word, shortToo);
      if m.Ambiguous? {
        optopt := 0;
        return Some(BadOption(Some(0)));
      }
      if m.NoMatch? {
        if shortToo {
          optind := optind - 1;
          return None;
        }
        optopt := 0;
        return Some(BadOption(Some(0)));
      }
      var o := table.long[m.index];
      if o.hasArg.NoArgument? && has_equal.Some? {
        optopt := if o.flag.None? then o.val else 0;
        return Some(BadOption(Some(optopt)));
      }
      if o.hasArg.RequiredArgument? || o.hasArg.OptionalArgument? {
        if has_equal.Some? {
          optarg := has_equal;
        } else if o.hasArg.RequiredArgument? {
          optarg := if optind < argv.Length then Some(argv[optind]) else None;
          optind := optind + 1;
        }
      }
      if o.hasArg.RequiredArgument? && optarg.None? {
        optopt := if o.flag.None? then o.val else 0;
        optind := optind - 1;
        return Some(BadArgument(Some(optopt)));
      }
      return Some(LongMatch(m.index, optarg));
    }

    /** The part of `getopt_internal` that reads the option at place. */
    method ReadCurrent() returns (event: Event)
      requires table.Valid() && optind < argv.Length && place != "" && |place| < |argv[optind]| && optarg.None?
      modifies `optind, `optarg, `optopt, `place
      ensures var s := ReadOption(table, argv[old(optind)..], old(place));
              event == s.event && optind == old(optind) + s.consumed && place == s.place
      ensures Stored(event)
    {
      // There is a table of long options, and place is behind the start of the argument.
      if place != argv[optind] && (place[0] == '-' || table.longOnly) {
        var shortToo := false;
        if place[0] == '-' {
          place := place[1..];
          if place == "" {
            return BadArgument(None);
          }
        } else if place[0] != ':' && place[0] in table.short {
          shortToo := true;
        }
        var long := ParseLongOptions(shortToo);
        if long.Some? {
          place := "";
          return long.value;
        }
      }
      event := ReadLetter();
    }

    method ReadLetter() returns (event: Event)
      requires table.Valid() && optind < argv.Length && place != "" && place[0] != '-' && optarg.None?
      modifies `optind, `optarg, `optopt, `place
      ensures var s := ReadShort(table, argv[old(optind)..], old(place)[0], old(place)[1..]);
              event == s.event && optind == old(optind) + s.consumed && place == s.place
      ensures Stored(event)
    {
      var optchar := place[0];
      place := place[1..];
      var oli := Find(table.short, optchar);
      if optchar == ':' || oli == |table.short| {
        if place == "" {
          optind := optind + 1;
        }
        optopt := optchar as int;
        return BadOption(Some(optopt));
      }
      if optchar == 'W' && oli + 1 < |table.short| && table.short[oli + 1] == ';' {
        if place == "" {
          optind := optind + 1;
          if optind >= argv.Length {
            optopt := optchar as int;
            return BadArgument(Some(optopt));
          }
          place := argv[optind];
          assert argv[old(optind)..][1..] == argv[optind..];
        }
        var long := ParseLongOptions(false);
        place := "";
        return long.value;
      }
      oli := oli + 1;
      if oli == |table.short| || table.short[oli] != ':' {
        if place == "" {
          optind := optind + 1;
        }
      } else {
        if place != "" {
          optarg := Some(place);
        } else if oli + 1 == |table.short| || table.short[oli + 1] != ':' {
          optind := optind + 1;
          if optind >= argv.Length {
            optopt := optchar as int;
            return BadArgument(Some(optopt));
          }
          optarg := Some(argv[optind]);
        }
        place := "";
        optind := optind + 1;
      }
      return ShortOption(optchar, optarg);
    }

    method TakeOption() returns (event: Event)
      requires optind != 0 && Scanning() && place != "" && !optreset && optarg.None?
      modifies `optind, `optarg, `optopt, `place
      ensures optind != 0 && Scanning() && Stored(event)
      ensures Take(table, old(View())) == Call(Some(event), View())
    {
      hide ReadOption;
      event := ReadCurrent();
      ExtendBlock(argv[..], nonoptStart, nonoptEnd, old(optind), optind);
    }

    lemma StartView()
      requires Valid() && optind == 0
      ensures View() == State(argv[1..1], [], argv[1..], "")
    {
    }

    /** `getopt_internal`; no event stands for its return value -1. */
    method Next() returns (event: Option<Event>)
      requires Valid()
      modifies this, argv
      ensures Valid() && optind != 0
      ensures event.Some? ==> argv[0] == old(argv[0]) && Stored(event.value)
                              && NextCall(table, old(View())) == Call(event, View())
      ensures event.None? ==> NextCall(table, old(View())).event.None?
                              && LaidOut(old(argv[0]), NextCall(table, old(View())).after)
    {
      hide NextCall, Take, Start;
      ghost var st := View();
      if optind == 0 {
        StartView();
        optind, optreset := 1, true;
      }
      optarg := None;
      if optreset {
        nonoptStart, nonoptEnd := -1, -1;
      }
      assert View() == st;
      var found := Fetch();
      if !found {
        return None;
      }
      var e := TakeOption();
      return Some(e);
    }

    /** The loop of `arg_parse_tagged`: call the scanner until it returns -1. */
    method ParseTagged() returns (events: seq<Event>)
      requires Valid() && !ScanArgs(table, argv[1..]).stalled
      modifies this, argv
      ensures var r := ScanArgs(table, old(argv[1..]));
              && events == r.events
              && argv[..] == [old(argv[0])] + r.opts + r.nonopts + r.rest
              && optind == 1 + |r.opts|
    {
      hide Complete, ScanArgs, NextCall;
      optind := 0;
      events := [];
      ghost var r := ScanArgs(table, argv[1..]);
      StartCompletes(table, argv[1..]);
      while true
        invariant Valid() && View().Valid() && argv[0] == old(argv[0])
        invariant Complete(table, View()) == r.(events := Complete(table, View()).events)
        invariant events + Complete(table, View()).events == r.events
        decreases |View().rest|, View().place == "", |View().place|
      {
        ghost var st := View();
        CallFollowsScan(table, st);
        var event := Next();
        if event.None? {
          return;
        }
        events := events + [event.value];
      }
    }
  }

  lemma ExchangeBlocks(s: seq<string>, start: nat, end: nat, optind: nat)
    requires 1 <= start < end <= optind <= |s|
    ensures Exchange(s, start, end, optind)
         == [s[0]] + (s[1..start] + s[end..optind]) + s[start..end] + s[optind..]
  {
    assert s[..start] == [s[0]] + s[1..start];
  }

  lemma ExtendBlock(s: seq<string>, start: int, end: int, o: int, n: int)
    requires 1 <= o <= n <= |s|
    ensures s[1..n] == s[1..o] + s[o..n] && s[o..][n - o..] == s[n..] && s[o..][..n - o] == s[o..n]
    ensures 1 <= start < end <= o ==> s[1..start] + s[end..n] == s[1..start] + s[end..o] + s[o..n]
  {
  }

  lemma SplitLayout(s: seq<string>, program: string, st: State)
    requires s == [program] + st.opts + st.nonopts + st.rest
    ensures var m, n := 1 + |st.opts|, 1 + |st.opts| + |st.nonopts|;
            s[1..m] == st.opts && s[m..n] == st.nonopts && s[n..] == st.rest
  {
  }

  lemma ExtendOptions(s: seq<string>, start: int, end: int, optind: int)
    requires 1 <= optind < |s|
    ensures s[1..optind + 1] == s[1..optind] + [s[optind]]
    ensures 1 <= start < end <= optind ==>
              s[1..start] + s[end..optind + 1] == s[1..start] + s[end..optind] + [s[optind]]
  {
  }

  lemma FetchCases(t: Table, st: State)
    requires st.Valid()
    ensures st.place != "" ==> NextCall(t, st) == Take(t, st)
    ensures st.place == "" && st.rest == [] ==> NextCall(t, st) == Call(None, st)
    ensures st.place == "" && st.rest != [] && IsNonOption(st.rest[0]) ==>
              NextCall(t, st) == NextCall(t, st.(nonopts := st.nonopts + [st.rest[0]], rest := st.rest[1..]))
    ensures st.place == "" && st.rest != [] && st.rest[0] == "--" ==>
              NextCall(t, st) == Call(None, st.(opts := st.opts + [st.rest[0]], rest := st.rest[1..]))
    ensures st.place == "" && st.rest != [] && !IsNonOption(st.rest[0]) && st.rest[0] != "--" ==>
              NextCall(t, st) == Take(t, st.(place := st.rest[0][1..]))
  {
  }
}
