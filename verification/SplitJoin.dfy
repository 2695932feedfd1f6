/** Splitting into lists and joining lists (deps/bstrlib/bstrlib.c:2362-2426, 2661-2810). */
module SplitJoin {
  import opened Bstrings
  import opened Seqs
  import F = FindReplace
  import S = SubstringSearch

  // ---------------------------------------------------------------------------------------------------
  // Lists
  // ---------------------------------------------------------------------------------------------------

  /** `struct bstrList`; the entries are only ever made and read. */
  class StrList {
    var entry: array<seq<Byte>>
    var qty: nat

    ghost predicate Valid()
      reads this
    {
      qty <= entry.Length && 0 < entry.Length
    }

    ghost function Contents(): seq<seq<Byte>>
      reads this, entry
      requires Valid()
    {
      entry[..qty]
    }

    constructor ()
      ensures Valid() && Contents() == [] && fresh(entry)
    {
      entry, qty := new seq<Byte>[4], 0;
    }

    /** `bscb`: append an entry; the table doubles when it is full. */
    method Append(s: seq<Byte>)
      requires Valid()
      modifies this, entry
      ensures Valid() && Contents() == old(Contents()) + [s]
      ensures entry == old(entry) || fresh(entry)
    {
      if qty >= entry.Length {
        var mlen := entry.Length * 2;
        var tbl := new seq<Byte>[mlen];
        forall i | 0 <= i < qty {
          tbl[i] := entry[i];
        }
        entry := tbl;
      }
      entry[qty] := s;
      qty := qty + 1;
    }
  }

  // ---------------------------------------------------------------------------------------------------
  // Joining
  // ---------------------------------------------------------------------------------------------------

  function Join(xs: seq<seq<Byte>>, sep: seq<Byte>): seq<Byte> {
    if xs == [] then [] else if |xs| == 1 then xs[0] else xs[0] + sep + Join(xs[1..], sep)
  }

  lemma JoinStep(x: seq<Byte>, xs: seq<seq<Byte>>, sep: seq<Byte>)
    requires xs != []
    ensures Join([x] + xs, sep) == x + sep + Join(xs, sep)
  {
    assert ([x] + xs)[1..] == xs;
  }

  function Total(xs: seq<seq<Byte>>): nat {
    if xs == [] then 0 else |xs[0]| + Total(xs[1..])
  }

  lemma {:induction false} TotalAppend(xs: seq<seq<Byte>>, x: seq<Byte>)
    ensures Total(xs + [x]) == Total(xs) + |x|
  {
    if xs == [] {
      assert xs + [x] == [x] && [x][1..] == [];
    } else {
      ConcatTail(xs, [x]);
      TotalAppend(xs[1..], x);
    }
  }

  lemma {:induction false} JoinAppend(xs: seq<seq<Byte>>, x: seq<Byte>, sep: seq<Byte>)
    ensures Join(xs + [x], sep) == if xs == [] then x else Join(xs, sep) + sep + x
  {
    if xs == [] {
      assert xs + [x] == [x];
    } else {
      ConcatTail(xs, [x]);
      JoinAppend(xs[1..], x, sep);
      if |xs| > 1 {
        assert xs[0] + sep + (Join(xs[1..], sep) + sep + x) == xs[0] + sep + Join(xs[1..], sep) + sep + x;
      }
    }
  }

  /** The size that is worked out before copying. */
  lemma {:induction false} JoinLength(xs: seq<seq<Byte>>, sep: seq<Byte>)
    ensures |Join(xs, sep)| == Total(xs) + if xs == [] then 0 else (|xs| - 1) * |sep|
  {
    if |xs| > 1 {
      JoinLength(xs[1..], sep);
      assert (|xs| - 1) * |sep| == |sep| + (|xs| - 2) * |sep|;
    } else if |xs| == 1 {
      assert xs[1..] == [];
    }
  }

  lemma PrefixStep(xs: seq<seq<Byte>>, sep: seq<Byte>, i: nat)
    requires i < |xs|
    ensures Total(xs[..i + 1]) == Total(xs[..i]) + |xs[i]|
    ensures Join(xs[..i + 1], sep) == if i == 0 then xs[i] else Join(xs[..i], sep) + sep + xs[i]
  {
    assert xs[..i + 1] == xs[..i] + [xs[i]];
    TotalAppend(xs[..i], xs[i]);
    JoinAppend(xs[..i], xs[i], sep);
  }

  /** What the first i entries fill. */
  lemma {:induction false} PrefixFits(xs: seq<seq<Byte>>, sep: seq<Byte>, i: nat)
    requires i <= |xs|
    ensures |Join(xs[..i], sep)| <= |Join(xs, sep)|
    decreases |xs| - i
  {
    if i < |xs| {
      PrefixStep(xs, sep, i);
      PrefixFits(xs, sep, i + 1);
    } else {
      assert xs[..i] == xs;
    }
  }

  /** `bjoinblk`: the copy loops fill exactly the block that was allocated. */
  method JoinBlk(bl: StrList, blk: seq<Byte>) returns (b: Bstring)
    requires bl.Valid()
    ensures fresh(b) && b.Valid() && b.Contents() == Join(bl.Contents(), blk)
    ensures bl.qty > 0 ==> b.data.Length == b.slen + 1
  {
    hide Join, Total;
    ghost var xs := bl.Contents();
    b := new Bstring.Empty();
    NoEntries(xs, blk);
    if bl.qty < 1 {
      return;
    }
    var c := 1;
    for i := 0 to bl.qty
      invariant c == 1 + Total(xs[..i])
    {
      PrefixStep(xs, blk, i);
      c := c + |bl.entry[i]|;
    }
    assert xs[..bl.qty] == xs;
    JoinLength(xs, blk);
    if |blk| == 0 {
      b.data := new Byte[c];
      JoinEmpty(b.data, bl, blk);
    } else {
      c := c + (bl.qty - 1) * |blk|;
      b.data := new Byte[c];
      JoinSeparated(b.data, bl, blk);
    }
    b.slen := c - 1;
    b.data[c - 1] := 0;
  }

  lemma NoEntries(xs: seq<seq<Byte>>, sep: seq<Byte>)
    ensures Total(xs[..0]) == 0 && Join(xs[..0], sep) == [] && (xs == [] ==> Join(xs, sep) == [])
  {
  }

  method JoinEmpty(a: array<Byte>, bl: StrList, sep: seq<Byte>)
    requires bl.Valid() && sep == [] && a.Length == |Join(bl.Contents(), sep)| + 1
    modifies a
    ensures a[..a.Length - 1] == Join(bl.Contents(), sep)
  {
    hide Join, Total;
    ghost var xs := bl.Contents();
    NoEntries(xs, sep);
    var p := 0;
    for i := 0 to bl.qty
      invariant p == |Join(xs[..i], sep)| < a.Length && a[..p] == Join(xs[..i], sep)
    {
      PrefixStep(xs, sep, i);
      PrefixFits(xs, sep, i + 1);
      assert Join(xs[..i], sep) + sep == Join(xs[..i], sep);
      WriteAt(a, p, bl.entry[i]);
      p := p + |bl.entry[i]|;
    }
    assert xs[..bl.qty] == xs;
  }

  /** The separator and an entry; an empty entry is not copied. */
  method PutNext(a: array<Byte>, p0: nat, sep: seq<Byte>, x: seq<Byte>) returns (p: nat)
    requires p0 + |sep| + |x| <= a.Length
    modifies a
    ensures p == p0 + |sep| + |x| && a[..p] == old(a[..p0]) + sep + x
  {
    WriteAt(a, p0, sep);
    p := p0 + |sep|;
    if x != [] {
      WriteAt(a, p, x);
      p := p + |x|;
    }
  }

  method JoinSeparated(a: array<Byte>, bl: StrList, sep: seq<Byte>)
    requires bl.Valid() && bl.qty > 0 && sep != [] && a.Length == |Join(bl.Contents(), sep)| + 1
    modifies a
    ensures a[..a.Length - 1] == Join(bl.Contents(), sep)
  {
    hide Join, Total;
    ghost var xs := bl.Contents();
    NoEntries(xs, sep);
    PrefixStep(xs, sep, 0);
    PrefixFits(xs, sep, 1);
    WriteAt(a, 0, bl.entry[0]);
    var p := |bl.entry[0]|;
    for i := 1 to bl.qty
      invariant p == |Join(xs[..i], sep)| < a.Length && a[..p] == Join(xs[..i], sep)
    {
      PrefixStep(xs, sep, i);
      PrefixFits(xs, sep, i + 1);
      p := PutNext(a, p, sep, bl.entry[i]);
    }
    assert xs[..bl.qty] == xs;
  }

  // ---------------------------------------------------------------------------------------------------
  // Splitting at a character
  // ---------------------------------------------------------------------------------------------------

  /** The parts of s between the characters c. */
  function Split(s: seq<Byte>, c: Byte): (xs: seq<seq<Byte>>)
    ensures xs != []
  {
    if s == [] then [[]]
    else
      var rest := Split(s[1..], c);
      if s[0] == c then [[]] + rest else [[s[0]] + rest[0]] + rest[1..]
  }

  function Count(s: seq<Byte>, c: Byte): nat {
    if s == [] then 0 else (if s[0] == c then 1 else 0) + Count(s[1..], c)
  }

  /** Joining the parts restores the string, no part holds c, and there is one part more than there are c. */
  lemma {:induction false} SplitIsInverse(s: seq<Byte>, c: Byte)
    ensures Join(Split(s, c), [c]) == s
    ensures forall x | x in Split(s, c) :: c !in x
    ensures |Split(s, c)| == Count(s, c) + 1
  {
    if s != [] {
      SplitIsInverse(s[1..], c);
      var rest := Split(s[1..], c);
      if s[0] == c {
        JoinStep([], rest, [c]);
        assert s == [] + [c] + s[1..];
      } else {
        HeadJoin(s[0], rest, [c]);
        assert s == [s[0]] + s[1..];
      }
    }
  }

  lemma HeadJoin(b: Byte, xs: seq<seq<Byte>>, sep: seq<Byte>)
    requires xs != []
    ensures Join([[b] + xs[0]] + xs[1..], sep) == [b] + Join(xs, sep)
  {
    var ys := [[b] + xs[0]] + xs[1..];
    assert ys[1..] == xs[1..];
    if |xs| > 1 {
      assert [b] + xs[0] + sep + Join(xs[1..], sep) == [b] + (xs[0] + sep + Join(xs[1..], sep));
    }
  }

  /** Any list without c in its entries is what its join is split into. */
  lemma {:induction false} JoinIsInverse(xs: seq<seq<Byte>>, c: Byte)
    requires xs != [] && forall x | x in xs :: c !in x
    ensures Split(Join(xs, [c]), c) == xs
  {
    if |xs| == 1 {
      SplitWhole(xs[0], [], c);
      assert xs[0] + [] == xs[0] && xs == [xs[0]];
    } else {
      JoinIsInverse(xs[1..], c);
      SplitWhole(xs[0], [c] + Join(xs[1..], [c]), c);
      ConcatAssoc(xs[0], [c], Join(xs[1..], [c]));
      assert ([c] + Join(xs[1..], [c]))[1..] == Join(xs[1..], [c]);
      assert xs == [xs[0]] + xs[1..];
      assert xs[0] + [] == xs[0];
    }
  }

  /** A part without c goes in front of the first part of the rest. */
  lemma {:induction false} SplitWhole(x: seq<Byte>, s: seq<Byte>, c: Byte)
    requires c !in x
    ensures Split(x + s, c) == [x + Split(s, c)[0]] + Split(s, c)[1..]
  {
    if x == [] {
      assert x + s == s && Split(s, c) == [Split(s, c)[0]] + Split(s, c)[1..] && x + Split(s, c)[0] == Split(s, c)[0];
    } else {
      SplitWhole(x[1..], s, c);
      ConcatTail(x, s);
      ConcatAssoc([x[0]], x[1..], Split(s, c)[0]);
      assert x == [x[0]] + x[1..];
    }
  }

  /** `bsplitcb` with the callback `bscb`, from pos on. */
  method SplitCb(str: seq<Byte>, splitChar: Byte, pos: nat, sl: StrList) returns (ret: int)
    requires sl.Valid()
    modifies sl, sl.entry
    ensures sl.Valid() && (sl.entry == old(sl.entry) || fresh(sl.entry))
    ensures |str| < pos ==> ret == BSTR_ERR && sl.Contents() == old(sl.Contents())
    ensures pos <= |str| ==> ret == BSTR_OK && sl.Contents() == old(sl.Contents()) + Split(str[pos..], splitChar)
  {
    hide StrList.Contents, Split;
    if pos > |str| {
      return BSTR_ERR;
    }
    var p, more := pos, true;
    ghost var all := sl.Contents() + Split(str[pos..], splitChar);
    while more
      invariant sl.Valid() && (sl.entry == old(sl.entry) || fresh(sl.entry))
      invariant more ==> pos <= p <= |str| && sl.Contents() + Split(str[p..], splitChar) == all
      invariant !more ==> sl.Contents() == all
      decreases |str| + 1 - p
    {
      var i := p;
      while i < |str| && str[i] != splitChar
        invariant p <= i <= |str| && splitChar !in str[p..i]
      {
        assert str[p..i + 1] == str[p..i] + [str[i]];
        i := i + 1;
      }
      FirstPart(str, p, i, splitChar);
      ghost var xs, rest := sl.Contents(), if i < |str| then Split(str[i + 1..], splitChar) else [];
      ConcatAssoc(xs, [str[p..i]], rest);
      assert xs + [str[p..i]] + [] == xs + [str[p..i]];
      sl.Append(str[p..i]);
      p := i + 1;
      more := p <= |str|;
    }
    ret := BSTR_OK;
  }

  lemma FirstPart(str: seq<Byte>, p: nat, i: nat, c: Byte)
    requires p <= i <= |str| && c !in str[p..i] && (i < |str| ==> str[i] == c)
    ensures Split(str[p..], c) == [str[p..i]] + if i < |str| then Split(str[i + 1..], c) else []
  {
    SplitWhole(str[p..i], str[i..], c);
    assert str[p..] == str[p..i] + str[i..];
    assert str[p..i] + [] == str[p..i];
    if i < |str| {
      assert str[i..][1..] == str[i + 1..];
      ConcatTail([[]], Split(str[i + 1..], c));
      assert Split(str[i..], c) == [[]] + Split(str[i + 1..], c);
    } else {
      assert str[i..] == [];
    }
  }

  /** `bsplit`. */
  method BSplit(str: seq<Byte>, splitChar: Byte) returns (sl: StrList)
    ensures fresh(sl) && fresh(sl.entry) && sl.Valid() && sl.Contents() == Split(str, splitChar)
  {
    sl := new StrList();
    var ret := SplitCb(str, splitChar, 0, sl);
    assert str[0..] == str && [] + Split(str, splitChar) == Split(str, splitChar);
  }

  // ---------------------------------------------------------------------------------------------------
  // Splitting at a string
  // ---------------------------------------------------------------------------------------------------

  /** The first occurrence from i on, or BSTR_ERR. */
  function Next(s: seq<Byte>, sep: seq<Byte>, i: nat): (r: int)
    ensures r == BSTR_ERR || i <= r <= |s| - |sep|
  {
    if i <= |s| then S.IndexFrom(s, sep, i) else BSTR_ERR
  }

  /** The parts from p on, when the search for the next separator starts at i and, behind a separator, gap characters
      further on. */
  function Parts(s: seq<Byte>, sep: seq<Byte>, p: nat, i: nat, gap: nat): (xs: seq<seq<Byte>>)
    requires p <= |s| && p <= i && sep != []
    ensures xs != []
    decreases |s| - p
  {
    var r := Next(s, sep, i);
    if r == BSTR_ERR then [s[p..]]
    else [s[p..r]] + Parts(s, sep, r + |sep|, r + |sep| + gap, gap)
  }

  /** Splitting what is behind pos at every separator, leftmost first. */
  function SplitAll(s: seq<Byte>, sep: seq<Byte>, pos: nat): (xs: seq<seq<Byte>>)
    requires sep != [] && pos <= |s|
    ensures xs != []
  {
    Parts(s, sep, pos, pos, 0)
  }

  lemma {:induction false} JoinParts(s: seq<Byte>, sep: seq<Byte>, p: nat, i: nat, gap: nat)
    requires p <= |s| && p <= i && sep != []
    ensures Join(Parts(s, sep, p, i, gap), sep) == s[p..]
    decreases |s| - p
  {
    hide Next, Join;
    var r := Next(s, sep, i);
    if r == BSTR_ERR {
      JoinOne(s[p..], sep);
    } else {
      var q := r + |sep|;
      var rest := Parts(s, sep, q, q + gap, gap);
      JoinParts(s, sep, q, q + gap, gap);
      JoinStep(s[p..r], rest, sep);
      NextIs(s, sep, i);
      Reassemble(s, p, r, q);
    }
  }

  lemma JoinOne(x: seq<Byte>, sep: seq<Byte>)
    ensures Join([x], sep) == x
  {
  }

  lemma NextIs(s: seq<Byte>, sep: seq<Byte>, i: nat)
    ensures Next(s, sep, i) != BSTR_ERR ==> s[Next(s, sep, i)..Next(s, sep, i) + |sep|] == sep
  {
  }

  lemma Reassemble(s: seq<Byte>, p: nat, r: nat, q: nat)
    requires p <= r <= q <= |s|
    ensures s[p..r] + s[r..q] + s[q..] == s[p..]
  {
  }

  /** Between two separators there is something. */
  predicate NoEmptyButLast(xs: seq<seq<Byte>>) {
    forall k | 0 <= k < |xs| - 1 :: xs[k] != []
  }

  lemma NextLater(s: seq<Byte>, sep: seq<Byte>, i: nat)
    requires i <= |s| && sep != [] && Next(s, sep, i) != i
    ensures Next(s, sep, i + 1) == Next(s, sep, i)
  {
  }

  lemma PartsUnfold(s: seq<Byte>, sep: seq<Byte>, p: nat, i: nat, gap: nat)
    requires p <= |s| && p <= i && sep != []
    ensures var r := Next(s, sep, i);
      Parts(s, sep, p, i, gap) == if r == BSTR_ERR then [s[p..]]
                                  else [s[p..r]] + Parts(s, sep, r + |sep|, r + |sep| + gap, gap)
  {
  }

  lemma {:induction false} PartsAgree(s: seq<Byte>, sep: seq<Byte>, p: nat)
    requires p <= |s| && sep != []
    ensures Parts(s, sep, p, p + 1, 1) == Parts(s, sep, p, p, 0) <==> NoEmptyButLast(Parts(s, sep, p, p, 0))
    decreases |s| - p
  {
    hide Next, NoEmptyButLast, Parts;
    var r := Next(s, sep, p);
    PartsUnfold(s, sep, p, p, 0);
    PartsUnfold(s, sep, p, p + 1, 1);
    if r == p {
      var a := Parts(s, sep, p + |sep|, p + |sep|, 0);
      assert Parts(s, sep, p, p + 1, 1)[0] != [] && ([s[p..p]] + a)[0] == [];
      HeadEmpty([s[p..p]] + a);
    } else {
      NextLater(s, sep, p);
      if r == BSTR_ERR {
        OnlyLast(s[p..]);
      } else {
        var q := r + |sep|;
        var a, b := Parts(s, sep, q, q, 0), Parts(s, sep, q, q + 1, 1);
        PartsAgree(s, sep, q);
        HeadNotEmpty(s[p..r], a);
        ConcatTail([s[p..r]], a);
        ConcatTail([s[p..r]], b);
      }
    }
  }

  lemma HeadEmpty(xs: seq<seq<Byte>>)
    ensures |xs| > 1 && xs[0] == [] ==> !NoEmptyButLast(xs)
  {
  }

  lemma OnlyLast(x: seq<Byte>)
    ensures NoEmptyButLast([x])
  {
  }

  lemma HeadNotEmpty(x: seq<Byte>, xs: seq<seq<Byte>>)
    requires x != [] && xs != []
    ensures NoEmptyButLast([x] + xs) <==> NoEmptyButLast(xs)
  {
    var ys := [x] + xs;
    assert forall k | 0 < k < |ys| :: ys[k] == xs[k - 1];
    if NoEmptyButLast(ys) {
      forall k | 0 <= k < |xs| - 1
        ensures xs[k] != []
      {
        assert ys[k + 1] == xs[k];
      }
    }
  }

  /** Behind the first part, the parts agree as PartsAgree says. */
  lemma PartsAgreeFirst(s: seq<Byte>, sep: seq<Byte>, p: nat)
    requires p <= |s| && sep != []
    ensures Parts(s, sep, p, p, 1) == Parts(s, sep, p, p, 0) <==> NoEmptyButLast(Parts(s, sep, p, p, 0)[1..])
  {
    hide Next, NoEmptyButLast;
    var r := Next(s, sep, p);
    if r == BSTR_ERR {
      NoneEmpty([s[p..]][1..]);
    } else {
      var q := r + |sep|;
      PartsAgree(s, sep, q);
      ConcatTail([s[p..r]], Parts(s, sep, q, q, 0));
      ConcatTail([s[p..r]], Parts(s, sep, q, q + 1, 1));
    }
  }

  lemma NoneEmpty(xs: seq<seq<Byte>>)
    ensures xs == [] ==> NoEmptyButLast(xs)
  {
  }

  /** Splitting at a byte splits at every one of them. */
  lemma {:induction false} SplitIsSplitAll(s: seq<Byte>, c: Byte, p: nat)
    requires p <= |s|
    ensures Split(s[p..], c) == SplitAll(s, [c], p)
    decreases |s| - p
  {
    hide Split, Next;
    var r := Next(s, [c], p);
    NextByte(s, c, p);
    if r == BSTR_ERR {
      assert s[p..|s|] == s[p..];
      FirstPart(s, p, |s|, c);
      assert [s[p..]] + [] == [s[p..]];
    } else {
      FirstPart(s, p, r, c);
      SplitIsSplitAll(s, c, r + 1);
    }
  }

  lemma NextByte(s: seq<Byte>, c: Byte, p: nat)
    requires p <= |s|
    ensures var r := Next(s, [c], p);
      if r == BSTR_ERR then c !in s[p..] else p <= r < |s| && s[r] == c && c !in s[p..r]
  {
    forall k | p <= k < |s|
      ensures S.OccursAt(s, [c], k) <==> s[k] == c
    {
      assert s[k..k + 1] == [s[k]];
    }
  }

  /** `bsplitstr` splits at every separator exactly if the separator is a single byte or no two stand side by side. */
  lemma SplitsAllIff(s: seq<Byte>, sep: seq<Byte>, pos: nat)
    requires sep != [] && pos <= |s|
    ensures SplitFrom(s, sep, pos) == SplitAll(s, sep, pos)
            <==> |sep| == 1 || NoEmptyButLast(SplitAll(s, sep, pos)[1..])
  {
    hide Next, NoEmptyButLast, Parts, Split;
    if |sep| == 1 {
      SplitIsSplitAll(s, sep[0], pos);
      assert sep == [sep[0]];
    } else {
      PartsAgreeFirst(s, sep, pos);
    }
  }

  /** "abab" has two separators "ab" side by side, and the second one stays in the last part. */
  lemma SideBySide()
    ensures var s: seq<Byte>, sep: seq<Byte> := [97, 98, 97, 98], [97, 98];
      SplitAll(s, sep, 0) == [[], [], []] && SplitFrom(s, sep, 0) == [[], sep]
  {
    var s: seq<Byte>, sep: seq<Byte> := [97, 98, 97, 98], [97, 98];
    hide S.IndexFrom;
    NextHere(s, sep, 0);
    NextHere(s, sep, 2);
    assert s[2..4] == s[2..] == sep && s[0..2] == sep && s[0..0] == s[2..2] == s[4..] == [];
    assert Next(s, sep, 3) == BSTR_ERR && Next(s, sep, 4) == BSTR_ERR;
    assert Parts(s, sep, 4, 4, 0) == [[]];
    assert Parts(s, sep, 2, 2, 0) == [[]] + [[]];
    assert Parts(s, sep, 2, 3, 1) == [sep];
  }

  /** Replacing every match is splitting at every match and joining with the replacement. */
  lemma {:induction false} ReplacedIsRejoined(s: seq<Byte>, f: seq<Byte>, r: seq<Byte>, p: nat)
    requires f != [] && p <= |s|
    ensures Join(Parts(s, f, p, p, 0), r) == F.ReplaceIn(s[p..], f, r)
    decreases |s| - p
  {
    hide Join, Parts, S.OccursAt, F.ReplaceIn;
    PartsUnfold(s, f, p, p, 0);
    F.ReplaceStep(s, f, r, p);
    var i := Next(s, f, p);
    if i == BSTR_ERR {
      JoinOne(s[p..], r);
    } else {
      ReplacedIsRejoined(s, f, r, i + |f|);
      JoinStep(s[p..i], Parts(s, f, i + |f|, i + |f|, 0), r);
    }
  }

  lemma ReplaceAllIsRejoined(s: seq<Byte>, f: seq<Byte>, r: seq<Byte>, pos: nat)
    requires f != [] && pos <= |s|
    ensures F.ReplaceAll(s, f, r, pos) == s[..pos] + Join(SplitAll(s, f, pos), r)
  {
    ReplacedIsRejoined(s, f, r, pos);
  }

  ghost predicate Free(x: seq<Byte>, sep: seq<Byte>) {
    forall k :: !S.OccursAt(x, sep, k)
  }

  /** No part of the full splitting holds a separator. */
  lemma {:induction false} AllPartsFree(s: seq<Byte>, sep: seq<Byte>, p: nat)
    requires p <= |s| && sep != []
    ensures forall x | x in Parts(s, sep, p, p, 0) :: Free(x, sep)
    decreases |s| - p
  {
    hide Next, Free;
    var r := Next(s, sep, p);
    var e := if r == BSTR_ERR then |s| else r;
    PartFree(s, sep, p, e);
    assert s[p..|s|] == s[p..];
    if r != BSTR_ERR {
      var rest := Parts(s, sep, r + |sep|, r + |sep|, 0);
      AllPartsFree(s, sep, r + |sep|);
      assert forall x :: x in [s[p..e]] + rest <==> x == s[p..e] || x in rest;
    }
  }

  lemma PartFree(s: seq<Byte>, sep: seq<Byte>, p: nat, e: nat)
    requires p <= e <= |s| && sep != [] && (e == Next(s, sep, p) || (e == |s| && Next(s, sep, p) == BSTR_ERR))
    ensures Free(s[p..e], sep)
  {
    forall k
      ensures !S.OccursAt(s[p..e], sep, k)
    {
      if S.OccursAt(s[p..e], sep, k) {
        SliceSlice(s, p, e, k, k + |sep|);
        assert S.OccursAt(s, sep, p + k);
      }
    }
  }

  function SplitFrom(s: seq<Byte>, sep: seq<Byte>, pos: nat): seq<seq<Byte>>
    requires pos <= |s|
  {
    if sep == [] then Singles(s[pos..])
    else if |sep| == 1 then Split(s[pos..], sep[0])
    else Parts(s, sep, pos, pos, 1)
  }

  /** `bsplitstrcb` with the callback `bscb`, from pos on. */
  method SplitStrCb(str: seq<Byte>, splitStr: seq<Byte>, pos: nat, sl: StrList) returns (ret: int)
    requires sl.Valid()
    modifies sl, sl.entry
    ensures sl.Valid() && (sl.entry == old(sl.entry) || fresh(sl.entry))
    ensures |str| < pos ==> ret == BSTR_ERR && sl.Contents() == old(sl.Contents())
    ensures pos <= |str| ==>
      ret == BSTR_OK && sl.Contents() == old(sl.Contents()) + SplitFrom(str, splitStr, pos)
  {
    if pos > |str| {
      return BSTR_ERR;
    }
    if |splitStr| == 0 {
      ret := EachCharacter(str, pos, sl);
      return;
    }
    if |splitStr| == 1 {
      ret := SplitCb(str, splitStr[0], pos, sl);
      return;
    }
    ret := SplitStrLoop(str, splitStr, pos, sl);
  }

  method SplitStrLoop(str: seq<Byte>, splitStr: seq<Byte>, pos: nat, sl: StrList) returns (ret: int)
    requires sl.Valid() && pos <= |str| && |splitStr| > 1
    modifies sl, sl.entry
    ensures sl.Valid() && (sl.entry == old(sl.entry) || fresh(sl.entry))
    ensures ret == BSTR_OK && sl.Contents() == old(sl.Contents()) + Parts(str, splitStr, pos, pos, 1)
  {
    hide Parts, StrList.Contents;
    var p, i := pos, pos;
    ghost var all := sl.Contents() + Parts(str, splitStr, pos, pos, 1);
    while i <= |str| - |splitStr|
      invariant pos <= p <= i && p <= |str|
      invariant sl.Valid() && (sl.entry == old(sl.entry) || fresh(sl.entry))
      invariant sl.Contents() + Parts(str, splitStr, p, i, 1) == all
      decreases |str| - i
    {
      ghost var xs := sl.Contents();
      PartsStep(str, splitStr, p, i);
      if str[i..i + |splitStr|] == splitStr {
        ConcatAssoc(xs, [str[p..i]], Parts(str, splitStr, i + |splitStr|, i + |splitStr| + 1, 1));
        sl.Append(str[p..i]);
        i := i + |splitStr|;
        p := i;
      }
      i := i + 1;
    }
    LastPart(str, splitStr, p, i);
    sl.Append(str[p..]);
    ret := BSTR_OK;
  }

  lemma PartsStep(s: seq<Byte>, sep: seq<Byte>, p: nat, i: nat)
    requires p <= i <= |s| - |sep| && sep != []
    ensures if s[i..i + |sep|] == sep
            then Parts(s, sep, p, i, 1) == [s[p..i]] + Parts(s, sep, i + |sep|, i + |sep| + 1, 1)
            else Parts(s, sep, p, i, 1) == Parts(s, sep, p, i + 1, 1)
  {
    hide Next;
    NextHere(s, sep, i);
    if s[i..i + |sep|] != sep {
      NextLater(s, sep, i);
    }
  }

  lemma NextHere(s: seq<Byte>, sep: seq<Byte>, i: nat)
    requires i <= |s| - |sep|
    ensures Next(s, sep, i) == i <==> s[i..i + |sep|] == sep
  {
    assert S.OccursAt(s, sep, i) <==> s[i..i + |sep|] == sep;
  }

  lemma LastPart(s: seq<Byte>, sep: seq<Byte>, p: nat, i: nat)
    requires p <= |s| && p <= i && |s| - |sep| < i && sep != []
    ensures Parts(s, sep, p, i, 1) == [s[p..]]
  {
  }

  /** Every character on its own: what splitting at the empty string gives. */
  function Singles(s: seq<Byte>): seq<seq<Byte>> {
    if s == [] then [] else [[s[0]]] + Singles(s[1..])
  }

  lemma {:induction false} JoinSingles(s: seq<Byte>)
    ensures Join(Singles(s), []) == s
  {
    if s != [] {
      JoinSingles(s[1..]);
      if |s| > 1 {
        JoinStep([s[0]], Singles(s[1..]), []);
        assert [s[0]] + [] + s[1..] == s;
      } else {
        assert Singles(s) == [[s[0]]];
      }
    }
  }

  /** Joining what `bsplitstr` gives, with the same separator, restores the string; the empty one included. */
  lemma JoinInvertsSplit(s: seq<Byte>, sep: seq<Byte>, pos: nat)
    requires pos <= |s|
    ensures Join(SplitFrom(s, sep, pos), sep) == s[pos..]
  {
    if sep == [] {
      JoinSingles(s[pos..]);
    } else if |sep| == 1 {
      SplitIsInverse(s[pos..], sep[0]);
      assert sep == [sep[0]];
    } else {
      JoinParts(s, sep, pos, pos, 1);
    }
  }

  method EachCharacter(str: seq<Byte>, pos: nat, sl: StrList) returns (ret: int)
    requires sl.Valid() && pos <= |str|
    modifies sl, sl.entry
    ensures sl.Valid() && (sl.entry == old(sl.entry) || fresh(sl.entry))
    ensures ret == BSTR_OK && sl.Contents() == old(sl.Contents()) + Singles(str[pos..])
  {
    hide StrList.Contents;
    ghost var all := sl.Contents() + Singles(str[pos..]);
    for i := pos to |str|
      invariant sl.Valid() && (sl.entry == old(sl.entry) || fresh(sl.entry))
      invariant sl.Contents() + Singles(str[i..]) == all
    {
      assert str[i..][1..] == str[i + 1..] && str[i..i + 1] == [str[i]];
      ConcatAssoc(sl.Contents(), [[str[i]]], Singles(str[i + 1..]));
      sl.Append(str[i..i + 1]);
    }
    assert sl.Contents() + [] == sl.Contents();
    ret := BSTR_OK;
  }
}
