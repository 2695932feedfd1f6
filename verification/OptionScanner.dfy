/** The permuting option scanner `getopt_internal` (deps/argtable3/argtable3.c:1793-2010), run in the mode in
    which `arg_parse_tagged` uses it: permutation on, a table of long options, option letters starting with ':'.

    The scanner rearranges argv while reading it.  Its reference is a left-to-right scan of the original
    arguments that moves nothing. */
module OptionScanner {
  import opened Wrappers
  import opened OptionTable
  import opened Seqs

  predicate IsNonOption(arg: string) {
    arg == "" || arg[0] != '-' || |arg| == 1
  }

  // ---------------------------------------------------------------------------------------------------
  // The reference: a pure scan of the original arguments
  // ---------------------------------------------------------------------------------------------------

  /** The reports of one option argument and the number of arguments it finishes; 0 means that the cluster
      ran into a final '-', which the scanner reports without ever moving on. */
  datatype Cluster = Cluster(events: seq<Event>, consumed: nat)

  function ReadCluster(t: Table, args: seq<string>, place: string): (c: Cluster)
    requires args != [] && place != ""
    ensures c.events != [] && c.consumed <= |args|
    decreases |place|
  {
    var s := ReadOption(t, args, place);
    if s.place == "" then Cluster([s.event], s.consumed)
    else var c := ReadCluster(t, args, s.place); Cluster([s.event] + c.events, c.consumed)
  }

  datatype Scan = Scan(events: seq<Event>, opts: seq<string>, nonopts: seq<string>, rest: seq<string>, stalled: bool)

  /** Options and their arguments go to opts, other arguments to nonopts, what follows "--" stays in rest. */
  function ScanArgs(t: Table, args: seq<string>): (r: Scan)
    decreases |args|
  {
    if args == [] then
      Scan([], [], [], [], false)
    else if IsNonOption(args[0]) then
      var r := ScanArgs(t, args[1..]);
      r.(nonopts := [args[0]] + r.nonopts)
    else if args[0] == "--" then
      Scan([], [args[0]], [], args[1..], false)
    else
      var c := ReadCluster(t, args, args[0][1..]);
      if c.consumed == 0 then Scan(c.events, [], [], args, true)
      else
        var r := ScanArgs(t, args[c.consumed..]);
        r.(events := c.events + r.events, opts := args[..c.consumed] + r.opts)
  }

  /** The elements of args at the positions where mask is b, in order. */
  function Pick(args: seq<string>, mask: seq<bool>, b: bool): seq<string>
    requires |mask| <= |args|
  {
    if mask == [] then []
    else (if mask[0] == b then [args[0]] else []) + Pick(args[1..], mask[1..], b)
  }

  lemma {:induction false} PickConcat(a: seq<string>, b: seq<string>, m: seq<bool>, m': seq<bool>, v: bool)
    requires |m| == |a| && |m'| <= |b|
    ensures Pick(a + b, m + m', v) == Pick(a, m, v) + Pick(b, m', v)
  {
    if m == [] {
      assert a + b == b && m + m' == m';
    } else {
      PickConcat(a[1..], b, m[1..], m', v);
      ConcatTail(a, b);
      ConcatTail(m, m');
      ConcatAssoc(if m[0] == v then [a[0]] else [], Pick(a[1..], m[1..], v), Pick(b, m', v));
    }
  }

  lemma {:induction false} PickAll(a: seq<string>, n: nat, b: bool, v: bool)
    requires n == |a|
    ensures Pick(a, seq(n, _ => b), v) == if b == v then a else []
  {
    if n > 0 {
      PickAll(a[1..], n - 1, b, v);
      assert seq(n, _ => b)[1..] == seq(n - 1, _ => b);
    }
  }

  /** The scan splits the arguments it has read into two subsequences and leaves the rest as it was:
      nothing is lost, repeated or reordered, and only non-options are set aside. */
  lemma {:induction false} ScanSplits(t: Table, args: seq<string>) returns (mask: seq<bool>)
    ensures var r := ScanArgs(t, args);
            && |mask| + |r.rest| == |args| && r.rest == args[|mask|..]
            && r.opts == Pick(args, mask, true) && r.nonopts == Pick(args, mask, false)
            && (forall x | x in r.nonopts :: IsNonOption(x))
    decreases |args|
  {
    hide ReadCluster;
    if args == [] {
      mask := [];
    } else if IsNonOption(args[0]) {
      var m := ScanSplits(t, args[1..]);
      mask := [false] + m;
    } else if args[0] == "--" {
      mask := [true];
    } else {
      var n := ReadCluster(t, args, args[0][1..]).consumed;
      if n == 0 {
        mask := [];
      } else {
        var m := ScanSplits(t, args[n..]);
        mask := seq(n, _ => true) + m;
        assert args == args[..n] + args[n..];
        PickConcat(args[..n], args[n..], seq(n, _ => true), m, true);
        PickConcat(args[..n], args[n..], seq(n, _ => true), m, false);
        PickAll(args[..n], n, true, true);
        PickAll(args[..n], n, true, false);
      }
    }
  }

  // ---------------------------------------------------------------------------------------------------
  // The scanner's state, read without its rearrangement of argv
  // ---------------------------------------------------------------------------------------------------

  /** Options and non-options met so far, the unread arguments and the unread part of a cluster. */
  datatype State = State(opts: seq<string>, nonopts: seq<string>, rest: seq<string>, place: string) {
    predicate Valid() {
      place != "" ==> rest != []
    }
  }

  /** One call of the scanner; without an event it is the return value -1. */
  datatype Call = Call(event: Option<Event>, after: State)

  function NextCall(t: Table, st: State): (c: Call)
    requires st.Valid()
    ensures c.after.Valid()
    decreases |st.rest|
  {
    if st.place != "" then Take(t, st)
    else if st.rest == [] then Call(None, st)
    else if IsNonOption(st.rest[0]) then
      NextCall(t, st.(nonopts := st.nonopts + [st.rest[0]], rest := st.rest[1..]))
    else if st.rest[0] == "--" then
      Call(None, st.(opts := st.opts + [st.rest[0]], rest := st.rest[1..]))
    else Take(t, st.(place := st.rest[0][1..]))
  }

  function Take(t: Table, st: State): (c: Call)
    requires st.place != "" && st.rest != []
    ensures c.after.Valid() && c.event.Some?
  {
    var s := ReadOption(t, st.rest, st.place);
    Call(Some(s.event), State(st.opts + st.rest[..s.consumed], st.nonopts, st.rest[s.consumed..], s.place))
  }

  /** What a scan that has come to st still has to do, added to what it has done. */
  function Complete(t: Table, st: State): (r: Scan)
    requires st.Valid()
  {
    if st.place == "" then
      var r := ScanArgs(t, st.rest);
      r.(opts := st.opts + r.opts, nonopts := st.nonopts + r.nonopts)
    else
      var c := ReadCluster(t, st.rest, st.place);
      if c.consumed == 0 then Scan(c.events, st.opts, st.nonopts, st.rest, true)
      else
        var r := ScanArgs(t, st.rest[c.consumed..]);
        Scan(c.events + r.events, st.opts + st.rest[..c.consumed] + r.opts, st.nonopts + r.nonopts, r.rest, r.stalled)
  }

  lemma TakeCompletes(t: Table, st: State)
    requires st.place != "" && st.rest != [] && !Complete(t, st).stalled
    ensures var c := Take(t, st);
            var r, r' := Complete(t, st), Complete(t, c.after);
            && r == r'.(events := [c.event.value] + r'.events)
            && (|c.after.rest| < |st.rest| || (|c.after.rest| == |st.rest| && 0 < |c.after.place| < |st.place|))
  {
    hide ReadOption, ScanArgs;
    var s := ReadOption(t, st.rest, st.place);
    StuckOnlyOnDash(t, st.rest, st.place);
    if s.place == "" {
      assert ReadCluster(t, st.rest, st.place) == Cluster([s.event], s.consumed);
    } else {
      assert st.rest[..0] == [] && st.rest[0..] == st.rest && st.opts + [] == st.opts;
      var c := ReadCluster(t, st.rest, s.place);
      assert ReadCluster(t, st.rest, st.place) == Cluster([s.event] + c.events, c.consumed);
    }
  }

  /** Each call reports the next event of the reference scan, or ends where the reference scan ends. */
  lemma {:induction false} CallFollowsScan(t: Table, st: State)
    requires st.Valid() && !Complete(t, st).stalled
    ensures var c := NextCall(t, st);
            var r := Complete(t, st);
            match c.event
            case None => r == Scan([], c.after.opts, c.after.nonopts, c.after.rest, false)
            case Some(e) =>
              && r == Complete(t, c.after).(events := [e] + Complete(t, c.after).events)
              && (|c.after.rest| < |st.rest| || (|c.after.rest| == |st.rest| &&
                    (if st.place == "" then c.after.place != "" else 0 < |c.after.place| < |st.place|)))
    decreases |st.rest|
  {
    if st.place != "" {
      TakeCompletes(t, st);
    } else if st.rest == [] {
      assert st.opts + [] == st.opts && st.nonopts + [] == st.nonopts;
    } else if IsNonOption(st.rest[0]) {
      var r := ScanArgs(t, st.rest[1..]);
      assert st.nonopts + ([st.rest[0]] + r.nonopts) == (st.nonopts + [st.rest[0]]) + r.nonopts;
      CallFollowsScan(t, st.(nonopts := st.nonopts + [st.rest[0]], rest := st.rest[1..]));
    } else if st.rest[0] == "--" {
      assert st.nonopts + [] == st.nonopts;
    } else {
      var st' := st.(place := st.rest[0][1..]);
      var c := ReadCluster(t, st.rest, st'.place);
      if c.consumed != 0 {
        var r := ScanArgs(t, st.rest[c.consumed..]);
        assert st.opts + (st.rest[..c.consumed] + r.opts) == st.opts + st.rest[..c.consumed] + r.opts;
      }
      assert Complete(t, st') == Complete(t, st);
      TakeCompletes(t, st');
    }
  }

  // ---------------------------------------------------------------------------------------------------
  // When the scan ends
  // ---------------------------------------------------------------------------------------------------

  /** The state after k calls, as long as none of them has returned -1. */
  function After(t: Table, st: State, k: nat): Option<State>
    requires st.Valid()
    decreases k
  {
    if k == 0 then Some(st)
    else
      var c := NextCall(t, st);
      if c.event.None? then None else After(t, c.after, k - 1)
  }

  function Start(args: seq<string>): (st: State)
    ensures st.Valid()
  {
    State([], [], args, "")
  }

  lemma StartCompletes(t: Table, args: seq<string>)
    ensures Complete(t, Start(args)) == ScanArgs(t, args)
  {
    var r := ScanArgs(t, args);
    assert [] + r.opts == r.opts && [] + r.nonopts == r.nonopts;
  }

  lemma {:induction false} Ends(t: Table, st: State) returns (k: nat)
    requires st.Valid() && !Complete(t, st).stalled
    ensures After(t, st, k).None?
    decreases |st.rest|, st.place == "", |st.place|
  {
    hide NextCall, Complete, ReadCluster, ScanArgs;
    CallFollowsScan(t, st);
    var c := NextCall(t, st);
    if c.event.None? {
      k := 1;
    } else {
      var n := Ends(t, c.after);
      k := n + 1;
    }
  }

  /** place is a tail of the first unread argument to which reading that argument from its start leads. */
  predicate MidCluster(t: Table, st: State) {
    st.place != "" ==>
      && st.rest != [] && !IsNonOption(st.rest[0]) && st.rest[0] != "--"
      && ReadCluster(t, st.rest, st.rest[0][1..]).consumed == ReadCluster(t, st.rest, st.place).consumed
  }

  lemma {:induction false} StallPersists(t: Table, st: State)
    requires st.Valid() && MidCluster(t, st) && Complete(t, st).stalled
    ensures var c := NextCall(t, st);
            c.event.Some? && MidCluster(t, c.after) && Complete(t, c.after).stalled
    decreases |st.rest|
  {
    if st.place == "" && IsNonOption(st.rest[0]) {
      StallPersists(t, st.(nonopts := st.nonopts + [st.rest[0]], rest := st.rest[1..]));
    } else {
      var place := if st.place == "" then st.rest[0][1..] else st.place;
      TakeStalls(t, st.(place := place));
    }
  }

  lemma TakeStalls(t: Table, st: State)
    requires st.place != "" && st.Valid() && MidCluster(t, st)
    requires Complete(t, st).stalled
    ensures MidCluster(t, Take(t, st).after) && Complete(t, Take(t, st).after).stalled
  {
    var s := ReadOption(t, st.rest, st.place);
    var c := ReadCluster(t, st.rest, st.place);
    if c.consumed == 0 {
      if s.place == "" {
        assert st.rest[0..] == st.rest;
        assert ScanArgs(t, st.rest).stalled;
      } else {
        assert st.rest[0..] == st.rest;
        assert ReadCluster(t, st.rest, s.place).consumed == 0;
      }
    } else if s.place == "" {
      assert c == Cluster([s.event], s.consumed);
    } else {
      assert st.rest[0..] == st.rest;
      assert ReadCluster(t, st.rest, s.place).consumed == c.consumed;
    }
  }

  lemma {:induction false} NeverEnds(t: Table, st: State, k: nat)
    requires st.Valid() && MidCluster(t, st) && Complete(t, st).stalled
    ensures After(t, st, k).Some?
    decreases k
  {
    hide NextCall, Complete, MidCluster, ReadCluster, ScanArgs;
    if k > 0 {
      StallPersists(t, st);
      NeverEnds(t, NextCall(t, st).after, k - 1);
    }
  }

  /** Calling the scanner until it returns -1 comes to an end exactly when no cluster it reaches has a final '-'. */
  lemma EndsIffNotStalled(t: Table, args: seq<string>)
    ensures (exists k: nat :: After(t, Start(args), k).None?) <==> !ScanArgs(t, args).stalled
  {
    StartCompletes(t, args);
    if ScanArgs(t, args).stalled {
      forall k: nat
        ensures After(t, Start(args), k).Some?
      {
        NeverEnds(t, Start(args), k);
      }
    } else {
      var k := Ends(t, Start(args));
    }
  }

  /** The option at the head of place leaves the rest of place to be read: its letter takes no value, and in a
      getopt_long_only table place is no long option. */
  predicate Plain(t: Table, place: string)
    requires place != ""
  {
    var letter := place[0];
    && letter != '-'
    && (letter == ':' || letter !in t.short
        || (!t.Follows(letter, 1, ':') && !(letter == 'W' && t.Follows(letter, 1, ';'))))
    && (t.longOnly ==> letter != ':' && letter in t.short && Lookup(t, NameOf(place), true) == NoMatch)
  }

  /** A cluster that gets stuck: plain letters and then a '-'. */
  predicate Stuck(t: Table, cluster: string) {
    && cluster != "" && cluster[|cluster| - 1] == '-'
    && forall i | 0 <= i < |cluster| - 1 :: Plain(t, cluster[i..])
  }

  /** One option more in front. */
  lemma StuckStep(t: Table, place: string)
    requires |place| > 1
    ensures Stuck(t, place) <==> Plain(t, place) && Stuck(t, place[1..])
  {
    hide Plain;
    var rest := place[1..];
    assert place[0..] == place;
    forall i | 0 <= i < |rest|
      ensures rest[i..] == place[i + 1..]
    {
    }
    if Stuck(t, rest) && Plain(t, place) {
      forall i | 0 <= i < |place| - 1
        ensures Plain(t, place[i..])
      {
        assert i > 0 ==> rest[i - 1..] == place[i..];
      }
    }
    if Stuck(t, place) {
      forall i | 0 <= i < |rest| - 1
        ensures Plain(t, rest[i..])
      {
        assert Plain(t, place[i + 1..]);
      }
    }
  }

  lemma PlainGoesOn(t: Table, args: seq<string>, place: string)
    requires args != [] && place != ""
    ensures ReadOption(t, args, place).place != "" <==> |place| > 1 && Plain(t, place)
    ensures place != "-" && |place| == 1 ==> !Stuck(t, place)
  {
    hide Lookup;
  }

  /** Reading a cluster finishes no argument if and only if it is such a cluster. */
  lemma {:induction false} StuckExactly(t: Table, args: seq<string>, place: string)
    requires args != [] && place != ""
    ensures ReadCluster(t, args, place).consumed == 0 <==> Stuck(t, place)
    decreases |place|
  {
    hide Plain;
    var s := ReadOption(t, args, place);
    StuckOnlyOnDash(t, args, place);
    PlainGoesOn(t, args, place);
    if |place| > 1 {
      StuckStep(t, place);
    }
    if s.place != "" {
      StuckExactly(t, args, s.place);
    }
  }

  /** How many arguments the scan takes at once from the front, without "--"; 0 if it gets stuck. */
  function Taken(t: Table, args: seq<string>): (n: nat)
    requires args != [] && args[0] != "--"
    ensures n <= |args|
  {
    if IsNonOption(args[0]) then 1 else ReadCluster(t, args, args[0][1..]).consumed
  }

  /** The scan comes to argument number k and reads it as an argument of its own. */
  predicate Arrives(t: Table, args: seq<string>, k: nat)
    decreases |args|
  {
    k == 0 ||
    (args != [] && args[0] != "--" && 0 < Taken(t, args) <= k && Arrives(t, args[Taken(t, args)..], k - Taken(t, args)))
  }

  predicate StuckAt(t: Table, args: seq<string>, k: nat)
    requires k < |args|
  {
    Arrives(t, args, k) && !IsNonOption(args[k]) && args[k] != "--" && Stuck(t, args[k][1..])
  }

  lemma StuckAtFront(t: Table, args: seq<string>)
    requires args != [] && args[0] != "--"
    ensures StuckAt(t, args, 0) <==> Taken(t, args) == 0
  {
    hide Stuck;
    if !IsNonOption(args[0]) {
      StuckExactly(t, args, args[0][1..]);
    }
  }

  /** The scan stalls exactly if it comes to an argument with such a cluster. */
  lemma {:induction false} StalledIff(t: Table, args: seq<string>)
    ensures ScanArgs(t, args).stalled <==> exists k | 0 <= k < |args| :: StuckAt(t, args, k)
    decreases |args|
  {
    hide Stuck, ReadCluster;
    if args != [] && args[0] != "--" {
      StuckAtFront(t, args);
      var n := Taken(t, args);
      if n > 0 {
        var rest := args[n..];
        StalledIff(t, rest);
        forall k | n <= k < |args|
          ensures rest[k - n] == args[k] && (StuckAt(t, args, k) <==> StuckAt(t, rest, k - n))
        {
        }
        if ScanArgs(t, rest).stalled {
          var j :| 0 <= j < |rest| && StuckAt(t, rest, j);
          assert StuckAt(t, args, j + n);
        }
        assert forall k | 0 < k < n :: !Arrives(t, args, k);
      }
    }
  }

  /** Calling the scanner until it returns -1 comes to an end exactly when the scan comes to no argument that consists
      of plain letters and a final '-'. */
  lemma EndsUnlessStuck(t: Table, args: seq<string>)
    ensures (exists k: nat :: After(t, Start(args), k).None?)
            <==> forall k | 0 <= k < |args| :: !StuckAt(t, args, k)
  {
    hide StuckAt, After, ScanArgs;
    EndsIffNotStalled(t, args);
    StalledIff(t, args);
  }

  /** A check on the arguments alone that rules the stall out. */
  lemma NoStuckArgumentEnds(t: Table, args: seq<string>)
    requires forall a | a in args && !IsNonOption(a) && a != "--" :: !Stuck(t, a[1..])
    ensures !ScanArgs(t, args).stalled
  {
    hide Stuck, ScanArgs, Arrives;
    StalledIff(t, args);
  }

  lemma FirstArrives(t: Table, args: seq<string>)
    ensures Arrives(t, args, 0)
  {
  }

  /** With a plain option letter a, scanning the single argument "-a-" never returns -1. */
  lemma StallExample()
    ensures var t := Table(":a", [], false);
            t.Valid() && StuckAt(t, ["-a-"], 0) && forall k: nat :: After(t, Start(["-a-"]), k).Some?
  {
    var t := Table(":a", [], false);
    var args := ["-a-"];
    assert Find(":a", 'a') == 1 by { assert ":a"[1..] == "a"; }
    hide Arrives, After, NextCall;
    var cluster := args[0][1..];
    assert cluster == "a-" && cluster[0..] == cluster;
    assert Plain(t, cluster);
    assert Stuck(t, cluster);
    assert StuckAt(t, args, 0) by { FirstArrives(t, args); }
    EndsUnlessStuck(t, args);
  }

  // ---------------------------------------------------------------------------------------------------
  // Two ways to give a value
  // ---------------------------------------------------------------------------------------------------

  /** The scan of arguments that begin with one option: its event, and then the scan of the rest. */
  predicate BeginsWith(t: Table, option: seq<string>, rest: seq<string>, e: Event) {
    var r := ScanArgs(t, rest);
    ScanArgs(t, option + rest) == r.(events := [e] + r.events, opts := option + r.opts)
  }

  lemma OneOption(t: Table, option: seq<string>, rest: seq<string>, e: Event)
    requires option != [] && !IsNonOption(option[0]) && option[0] != "--"
    requires ReadOption(t, option + rest, option[0][1..]) == Step(e, |option|, "")
    ensures BeginsWith(t, option, rest, e)
  {
    hide ReadOption;
    var args := option + rest;
    assert args[|option|..] == rest && args[..|option|] == option;
    assert ReadCluster(t, args, args[0][1..]) == Cluster([e], |option|);
  }

  /** The value of an option letter may be attached or be the next argument: the scan reports the same.  In a
      getopt_long_only table neither form may be a long option. */
  lemma LetterValue(t: Table, letter: char, v: string, rest: seq<string>)
    requires letter in t.short && letter !in {':', '-'} && v != ""
    requires t.Follows(letter, 1, ':') && !t.Follows(letter, 2, ':')
    requires t.longOnly ==> Lookup(t, NameOf([letter] + v), true) == Lookup(t, NameOf([letter]), true) == NoMatch
    ensures BeginsWith(t, ["-" + [letter] + v], rest, ShortOption(letter, Some(v)))
    ensures BeginsWith(t, ["-" + [letter], v], rest, ShortOption(letter, Some(v)))
  {
    hide ReadShort, BeginsWith, Lookup, NameOf;
    var a, b := "-" + [letter] + v, "-" + [letter];
    ShortForms(t, letter, v, a, rest);
    ShortForms(t, letter, v, b, rest);
    assert a[1..] == [letter] + v && ([letter] + v)[1..] == v && b[1..] == [letter] && [letter][1..] == "";
    OneOption(t, [a], rest, ShortOption(letter, Some(v)));
    OneOption(t, [b, v], rest, ShortOption(letter, Some(v)));
  }

  /** So may the value of a long option. */
  lemma NameValue(t: Table, name: string, v: string, i: nat, rest: seq<string>)
    requires name != "" && '=' !in name && Lookup(t, name, false) == Found(i) && t.long[i].hasArg == RequiredArgument
    ensures BeginsWith(t, ["--" + name + "=" + v], rest, LongMatch(i, Some(v)))
    ensures BeginsWith(t, ["--" + name, v], rest, LongMatch(i, Some(v)))
  {
    hide ReadLong, BeginsWith, Lookup;
    var a, b := "--" + name + "=" + v, "--" + name;
    LongForms(t, name, v, i, a, rest);
    LongForms(t, name, v, i, b, rest);
    assert a[1..] == "-" + name + "=" + v && a[1..][1..] == name + "=" + v;
    assert b[1..] == "-" + name && b[1..][1..] == name;
    OneOption(t, [a], rest, LongMatch(i, Some(v)));
    OneOption(t, [b, v], rest, LongMatch(i, Some(v)));
  }
}
