/** Justification of a line of words (deps/bstrlib/bstraux.c:93-134 and 161-203). */
module Justify {
  import opened Arith
  import opened Bstrings
  import opened Seqs
  import opened SplitJoin

  // ---------------------------------------------------------------------------------------------------
  // Words
  // ---------------------------------------------------------------------------------------------------

  function NonEmpty(xs: seq<seq<Byte>>): seq<seq<Byte>> {
    if xs == [] then [] else (if xs[0] == [] then [] else [xs[0]]) + NonEmpty(xs[1..])
  }

  /** The words of a line: what stands between the spaces c. */
  function Words(s: seq<Byte>, c: Byte): seq<seq<Byte>> {
    NonEmpty(Split(s, c))
  }

  lemma {:induction false} NonEmptyConcat(xs: seq<seq<Byte>>, ys: seq<seq<Byte>>)
    ensures NonEmpty(xs + ys) == NonEmpty(xs) + NonEmpty(ys)
  {
    if xs == [] {
      assert xs + ys == ys;
    } else {
      ConcatTail(xs, ys);
      NonEmptyConcat(xs[1..], ys);
      ConcatAssoc(if xs[0] == [] then [] else [xs[0]], NonEmpty(xs[1..]), NonEmpty(ys));
    }
  }

  /** Two lists of parts, the last part of the first continued by the first part of the second. */
  function Glue(xs: seq<seq<Byte>>, ys: seq<seq<Byte>>): (zs: seq<seq<Byte>>)
    requires xs != [] && ys != []
    ensures zs != []
  {
    if |xs| == 1 then [xs[0] + ys[0]] + ys[1..] else [xs[0]] + Glue(xs[1..], ys)
  }

  lemma {:induction false} SplitConcat(u: seq<Byte>, v: seq<Byte>, c: Byte)
    ensures Split(u + v, c) == Glue(Split(u, c), Split(v, c))
  {
    var ys := Split(v, c);
    if u == [] {
      assert u + v == v && [] + ys[0] == ys[0] && ys == [ys[0]] + ys[1..];
    } else {
      SplitConcat(u[1..], v, c);
      ConcatTail(u, v);
      var xs := Split(u[1..], c);
      if u[0] == c {
        assert ([[]] + xs)[1..] == xs;
      } else {
        GlueHead(u[0], xs, ys);
      }
    }
  }

  lemma GlueHead(b: Byte, xs: seq<seq<Byte>>, ys: seq<seq<Byte>>)
    requires xs != [] && ys != []
    ensures Glue([[b] + xs[0]] + xs[1..], ys) == [[b] + Glue(xs, ys)[0]] + Glue(xs, ys)[1..]
  {
    var zs := [[b] + xs[0]] + xs[1..];
    assert zs[1..] == xs[1..];
    ConcatAssoc([b], xs[0], ys[0]);
    var g := Glue(xs, ys);
    if |xs| == 1 {
      assert g[1..] == ys[1..];
    } else {
      assert g[1..] == Glue(xs[1..], ys);
    }
  }

  lemma {:induction false} GlueLast(init: seq<seq<Byte>>, last: seq<Byte>, ys: seq<seq<Byte>>)
    requires ys != []
    ensures Glue(init + [last], ys) == init + [last + ys[0]] + ys[1..]
  {
    if init == [] {
      assert init + [last] == [last] && init + [last + ys[0]] == [last + ys[0]];
    } else {
      GlueLast(init[1..], last, ys);
      ConcatTail(init, [last]);
      assert [init[0]] + (init[1..] + [last + ys[0]] + ys[1..]) == init + [last + ys[0]] + ys[1..];
    }
  }

  lemma GlueNewPart(init: seq<seq<Byte>>, last: seq<Byte>)
    ensures Glue(init + [last], [[], []]) == init + [last] + [[]]
  {
    var ys: seq<seq<Byte>> := [[], []];
    GlueLast(init, last, ys);
    assert ys[1..] == [[]] && last + ys[0] == last;
  }

  lemma GlueCharacter(init: seq<seq<Byte>>, last: seq<Byte>, x: Byte)
    ensures Glue(init + [last], [[x]]) == init + [last + [x]]
  {
    var ys := [[x]];
    GlueLast(init, last, ys);
    var zs := init + [last + [x]];
    assert ys[1..] == [] && zs + [] == zs;
  }

  /** One more character: a new part, or a longer last part. */
  lemma SplitMore(u: seq<Byte>, x: Byte, c: Byte) returns (init: seq<seq<Byte>>, last: seq<Byte>)
    ensures Split(u, c) == init + [last]
    ensures Split(u + [x], c) == if x == c then init + [last] + [[]] else init + [last + [x]]
  {
    hide Split, Glue;
    var xs := Split(u, c);
    init, last := xs[..|xs| - 1], xs[|xs| - 1];
    assert xs == init + [last];
    SplitConcat(u, [x], c);
    OneCharacter(x, c);
    if x == c {
      GlueNewPart(init, last);
    } else {
      GlueCharacter(init, last, x);
    }
  }

  lemma OneCharacter(x: Byte, c: Byte)
    ensures Split([x], c) == if x == c then [[], []] else [[x]]
  {
    assert [x][1..] == [] && [x] + [] == [x];
  }

  predicate AreWords(ws: seq<seq<Byte>>, c: Byte) {
    forall k | 0 <= k < |ws| :: ws[k] != [] && c !in ws[k]
  }

  lemma {:induction false} NonEmptyAreWords(xs: seq<seq<Byte>>, c: Byte)
    requires forall x | x in xs :: c !in x
    ensures AreWords(NonEmpty(xs), c)
  {
    if xs != [] {
      assert forall x | x in xs[1..] :: x in xs;
      NonEmptyAreWords(xs[1..], c);
    }
  }

  lemma {:induction false} WordsAreKept(ws: seq<seq<Byte>>, c: Byte)
    requires AreWords(ws, c)
    ensures NonEmpty(ws) == ws
  {
    if ws != [] {
      WordsAreKept(ws[1..], c);
      assert ws == [ws[0]] + ws[1..];
    }
  }

  lemma WordsAreWords(s: seq<Byte>, c: Byte)
    ensures AreWords(Words(s, c), c)
  {
    SplitIsInverse(s, c);
    NonEmptyAreWords(Split(s, c), c);
  }

  /** Words joined by single spaces are the words of the line. */
  lemma WordsOfJoin(ws: seq<seq<Byte>>, c: Byte)
    requires AreWords(ws, c)
    ensures Words(Join(ws, [c]), c) == ws
  {
    if ws == [] {
      assert NonEmpty([[]]) == [];
    } else {
      JoinIsInverse(ws, c);
      WordsAreKept(ws, c);
    }
  }

  // ---------------------------------------------------------------------------------------------------
  // Left justification
  // ---------------------------------------------------------------------------------------------------

  /** What the compaction has written when the parts so far are xs: complete words with a space behind each, and the
      beginning of the next. */
  function Written(xs: seq<seq<Byte>>, c: Byte): seq<Byte>
    requires xs != []
  {
    var ws, last := NonEmpty(xs[..|xs| - 1]), xs[|xs| - 1];
    (if ws == [] then [] else Join(ws, [c]) + [c]) + last
  }

  lemma WrittenMore(u: seq<Byte>, x: Byte, c: Byte)
    ensures Written(Split(u + [x], c), c)
         == Written(Split(u, c), c) + if x != c || (u != [] && u[|u| - 1] != c) then [x] else []
  {
    hide Split, Written;
    var init, last := SplitMore(u, x, c);
    LastPart(u, c);
    if x == c {
      WrittenWord(init, last, c);
    } else {
      WrittenParts(init, last, c);
      WrittenParts(init, last + [x], c);
      var before := if NonEmpty(init) == [] then [] else Join(NonEmpty(init), [c]) + [c];
      ConcatAssoc(before, last, [x]);
    }
  }

  lemma WrittenParts(init: seq<seq<Byte>>, last: seq<Byte>, c: Byte)
    ensures Written(init + [last], c) == (if NonEmpty(init) == [] then [] else Join(NonEmpty(init), [c]) + [c]) + last
  {
    assert (init + [last])[..|init|] == init;
  }

  /** A space completes the last word, if there is one. */
  lemma WrittenWord(init: seq<seq<Byte>>, last: seq<Byte>, c: Byte)
    ensures Written(init + [last] + [[]], c) == Written(init + [last], c) + if last == [] then [] else [c]
  {
    hide Join, Written;
    WrittenParts(init + [last], [], c);
    WrittenParts(init, last, c);
    NonEmptyConcat(init, [last]);
    var ws := NonEmpty(init);
    if last == [] {
      assert ws + NonEmpty([last]) == ws;
    } else {
      assert NonEmpty([last]) == [last];
      JoinAppend(ws, last, [c]);
    }
  }

  /** The last part is empty exactly at the start and behind a space. */
  lemma {:induction false} LastPart(u: seq<Byte>, c: Byte)
    ensures var xs := Split(u, c); xs[|xs| - 1] == [] <==> u == [] || u[|u| - 1] == c
  {
    if u != [] {
      LastPart(u[1..], c);
    }
  }

  /** With a space at the end taken away, the words are left with one space between them. */
  lemma Finished(s: seq<Byte>, c: Byte)
    ensures var w := Written(Split(s, c), c);
      Join(Words(s, c), [c]) == if w != [] && w[|w| - 1] == c then w[..|w| - 1] else w
  {
    hide Join;
    var xs := Split(s, c);
    var init, last := xs[..|xs| - 1], xs[|xs| - 1];
    assert xs == init + [last];
    SplitIsInverse(s, c);
    assert c !in last by { assert last in xs; }
    WrittenParts(init, last, c);
    NonEmptyConcat(init, [last]);
    var ws := NonEmpty(init);
    if last == [] {
      assert ws + NonEmpty([last]) == ws;
      JoinNothing([c]);
    } else {
      assert NonEmpty([last]) == [last];
      JoinAppend(ws, last, [c]);
    }
  }

  lemma JoinNothing(sep: seq<Byte>)
    ensures Join([], sep) == []
  {
  }

  /** `bJustifyLeft`: the words with one space between them, and still the same words. */
  method JustifyLeft(b: Bstring, space: Byte)
    requires b.Valid()
    modifies b`slen, b.data
    ensures b.Valid() && b.Contents() == Join(Words(old(b.Contents()), space), [space])
    ensures Words(b.Contents(), space) == Words(old(b.Contents()), space)
  {
    hide Words, Join, Bstring.Contents, AreWords;
    ghost var s := b.Contents();
    Compact(b, space);
    WordsAreWords(s, space);
    WordsOfJoin(Words(s, space), space);
  }

  /** The loop, in place. */
  method Compact(b: Bstring, space: Byte)
    requires b.Valid()
    modifies b`slen, b.data
    ensures b.Valid() && b.Contents() == Join(Words(old(b.Contents()), space), [space])
  {
    hide Written, Split, Join, Words;
    ghost var s := b.Contents();
    var c, i, j, wasWord := space, 0, 0, false;
    StartOfLine(s, c);
    while i < b.slen
      invariant 0 <= j <= i <= b.slen == |s| < b.data.Length
      invariant b.data[..j] == Written(Split(s[..i], c), c) && b.data[i..b.slen] == s[i..]
      invariant wasWord == (i > 0 && s[i - 1] != c)
    {
      var before := wasWord;
      ghost var was := b.data[..];
      Overwritten(was, j, i, b.slen);
      WrittenMore(s[..i], s[i], c);
      FirstOfRest(s, was[i..b.slen], i);
      b.data[j] := b.data[i];
      assert b.data[..] == was[j := was[i]];
      wasWord := b.data[j] != c;
      if before || wasWord {
        j := j + 1;
      }
      i := i + 1;
    }
    assert s[..i] == s;
    Finished(s, c);
    if j > 0 && b.data[j - 1] == c {
      j := j - 1;
    }
    b.data[j] := 0;
    b.slen := j;
  }

  /** Moving one character down leaves what is in front and what is to be read. */
  lemma Overwritten(was: seq<Byte>, j: nat, i: nat, n: nat)
    requires j <= i < n <= |was|
    ensures var now := was[j := was[i]];
      now[..j] == was[..j] && now[..j + 1] == was[..j] + [was[i]] && now[i + 1..n] == was[i..n][1..]
  {
  }

  lemma FirstOfRest(s: seq<Byte>, rest: seq<Byte>, i: nat)
    requires i < |s| && rest == s[i..]
    ensures rest[0] == s[i] && rest[1..] == s[i + 1..] && s[..i + 1] == s[..i] + [s[i]]
  {
  }

  lemma StartOfLine(s: seq<Byte>, c: Byte)
    ensures Written(Split(s[..0], c), c) == []
  {
  }

  // ---------------------------------------------------------------------------------------------------
  // Justification to a margin
  // ---------------------------------------------------------------------------------------------------

  /** The terminator behind len characters more still lies in the buffer: `bInsertChrs` asks for the characters only,
      and from 2^30 bytes on the capacity does not grow past what is asked for. */
  predicate TerminatorFits(mlen: nat, slen: nat, pos: nat, len: nat) {
    var n, m := if pos > slen then pos else slen, if pos > slen then Capacity(mlen, pos + 1) else mlen;
    Capacity(m, n + len) > n + len
  }

  lemma TerminatorFitsIff(mlen: nat, slen: nat, pos: nat, len: nat)
    requires slen + len < 0x8000_0000 && pos + len < 0x8000_0000
    ensures var n, m := if pos > slen then pos else slen, if pos > slen then Capacity(mlen, pos + 1) else mlen;
      TerminatorFits(mlen, slen, pos, len) <==> n + len < 0x4000_0000 || n + len < m
  {
    CapacityExceeds(if pos > slen then Capacity(mlen, pos + 1) else mlen, (if pos > slen then pos else slen) + len);
  }

  /** A full buffer of 2^30 bytes, to which one character is appended. */
  lemma TerminatorBehind()
    ensures !TerminatorFits(0x4000_0000, 0x3FFF_FFFF, 0x3FFF_FFFF, 1)
  {
    TerminatorFitsIff(0x4000_0000, 0x3FFF_FFFF, 0x3FFF_FFFF, 1);
  }

  /** A larger buffer only helps, and so does a shorter string. */
  lemma Roomy(mlen: nat, slen: nat, len: nat, width: nat)
    requires slen + len <= width && (width < 0x4000_0000 || width < mlen)
    ensures TerminatorFits(mlen, slen, slen, len)
  {
    if width < 0x4000_0000 {
      TerminatorFitsIff(mlen, slen, slen, len);
    }
  }

  /** `bInsertChrs`: positions behind the end are padded with fill first. */
  method InsertChrs(b: Bstring, pos: int, len: int, c: Byte, fill: Byte) returns (ret: int)
    requires b.Valid() && (0 <= pos && 0 < len ==> TerminatorFits(b.data.Length, b.slen, pos, len))
    modifies b, b.data
    ensures b.Valid() && (b.data == old(b.data) || fresh(b.data)) && b.data.Length >= old(b.data.Length)
    ensures ret == if pos < 0 || len <= 0 then BSTR_ERR else BSTR_OK
    ensures b.Contents() == if ret == BSTR_ERR then old(b.Contents())
                            else Inserted(old(b.Contents()), pos, Repeat(c, len), fill)
  {
    if pos < 0 || len <= 0 {
      return BSTR_ERR;
    }
    hide Repeat, Capacity, Inserted, TerminatorFits, Bstring.Contents, Bstring.Terminated;
    ghost var s := b.Contents();
    if pos > b.slen {
      b.Pad(pos, fill);
    }
    InsertedPadded(s, pos, Repeat(c, len), fill);
    FitsPadded(b.data.Length, old(b.data.Length), |s|, b.slen, pos, len);
    b.Balloc(b.slen + len);
    InsertInside(b, pos, len, c);
    ret := BSTR_OK;
  }

  lemma FitsPadded(m: nat, mlen: nat, slen: nat, n: nat, pos: nat, len: nat)
    requires TerminatorFits(mlen, slen, pos, len)
    requires n == if pos > slen then pos else slen
    requires m == if pos > slen then Capacity(mlen, pos + 1) else mlen
    ensures Capacity(m, n + len) > n + len
  {
  }

  method InsertInside(b: Bstring, pos: nat, len: nat, c: Byte)
    requires b.Valid() && pos <= b.slen && b.slen + len < b.data.Length
    modifies b`slen, b.data
    ensures b.Valid() && b.Contents() == old(b.Contents())[..pos] + Repeat(c, len) + old(b.Contents())[pos..]
  {
    hide Repeat;
    OpenGap(b.data, pos, b.slen, Repeat(c, len));
    b.slen := b.slen + len;
    b.data[b.slen] := 0;
  }

  /** Inserting behind the end is padding and then inserting at the end. */
  lemma InsertedPadded(s: seq<Byte>, pos: nat, blk: seq<Byte>, fill: Byte)
    ensures var n := if pos > |s| then pos else |s|;
      var t := Inserted(s, n, [], fill);
      && |t| == n && (pos <= |s| ==> t == s)
      && Inserted(s, pos, blk, fill) == t[..pos] + blk + t[pos..]
  {
    hide Repeat;
    if pos > |s| {
      var t := s + Repeat(fill, pos - |s|);
      assert t + [] == t && t[..pos] == t && t[pos..] == [] && t + blk + [] == t + blk;
    } else {
      assert s[..|s|] + [] + s[|s|..] == s;
    }
  }

  /** The words with gaps of the given widths between them. */
  function Lay(ws: seq<seq<Byte>>, gaps: seq<nat>, c: Byte): seq<Byte>
    requires |ws| == 0 || |gaps| == |ws| - 1
    decreases |ws|
  {
    var n := |ws|;
    if n == 0 then []
    else if n == 1 then ws[0]
    else Lay(ws[..n - 1], gaps[..n - 2], c) + Repeat(c, gaps[n - 2]) + ws[n - 1]
  }

  lemma LayMore(ws: seq<seq<Byte>>, gaps: seq<nat>, g: nat, w: seq<Byte>, c: Byte)
    requires ws != [] && |gaps| == |ws| - 1
    ensures Lay(ws + [w], gaps + [g], c) == Lay(ws, gaps, c) + Repeat(c, g) + w
  {
    assert (ws + [w])[..|ws|] == ws && (gaps + [g])[..|gaps|] == gaps;
  }

  /** Words laid out with gaps are the words of the line. */
  lemma {:induction false} WordsOfLay(ws: seq<seq<Byte>>, gaps: seq<nat>, c: Byte)
    requires |ws| == 0 || |gaps| == |ws| - 1
    requires AreWords(ws, c)
    requires forall k | 0 <= k < |gaps| :: gaps[k] > 0
    ensures Words(Lay(ws, gaps, c), c) == ws
    decreases |ws|
  {
    hide Split;
    var n := |ws|;
    if n == 0 {
      JustOne([], c);
    } else if n == 1 {
      JustOne(ws[0], c);
    } else {
      var u, v := Lay(ws[..n - 1], gaps[..n - 2], c), Repeat(c, gaps[n - 2]) + ws[n - 1];
      WordsOfLay(ws[..n - 1], gaps[..n - 2], c);
      GapAndWord(gaps[n - 2], ws[n - 1], c);
      ConcatAssoc(u, Repeat(c, gaps[n - 2]), ws[n - 1]);
      SplitConcat(u, v, c);
      GapGlues(Split(u, c), Split(v, c));
      assert ws == ws[..n - 1] + [ws[n - 1]];
    }
  }

  lemma JustOne(w: seq<Byte>, c: Byte)
    requires c !in w
    ensures Split(w, c) == [w] && Words(w, c) == if w == [] then [] else [w]
  {
    SplitWhole(w, [], c);
    assert w + [] == w && [[]][1..] == Split([], c)[1..] == [];
  }

  lemma {:induction false} GapAndWord(g: nat, w: seq<Byte>, c: Byte)
    requires w != [] && c !in w
    ensures Words(Repeat(c, g) + w, c) == [w]
    ensures g > 0 ==> Split(Repeat(c, g) + w, c)[0] == []
  {
    if g == 0 {
      assert Repeat(c, g) + w == w;
      JustOne(w, c);
    } else {
      GapAndWord(g - 1, w, c);
      ConcatTail(Repeat(c, g), w);
      assert Repeat(c, g)[1..] == Repeat(c, g - 1);
    }
  }

  lemma GapGlues(xs: seq<seq<Byte>>, ys: seq<seq<Byte>>)
    requires xs != [] && ys != [] && ys[0] == []
    ensures NonEmpty(Glue(xs, ys)) == NonEmpty(xs) + NonEmpty(ys)
  {
    var init, last := xs[..|xs| - 1], xs[|xs| - 1];
    assert xs == init + [last] && last + ys[0] == last;
    GlueLast(init, last, ys);
    NonEmptyConcat(xs, ys[1..]);
    assert ys == [ys[0]] + ys[1..];
    assert [] + NonEmpty(ys[1..]) == NonEmpty(ys[1..]);
  }

  /** R divided by g, rounded to the nearest, is q or q + 1 if R is between q and q + 1 times g. */
  lemma Rounded(q: nat, g: nat, R: nat, a: nat)
    requires 0 < g && a == g * q && a <= R <= a + g
    ensures (R + g / 2) / g == if R - a + g / 2 < g then q else q + 1
  {
    var r := R - a + g / 2;
    if r < g {
      DivModUnique(R + g / 2, g, q, r);
    } else {
      MulDist(g, q, 1);
      DivModUnique(R + g / 2, g, q + 1, r - g);
    }
  }

  /** The next gap: what is left of the width, divided evenly and rounded to the nearest. */
  function NextGap(width: int, l: int, c: nat): int
    requires 0 < c
  {
    (width - l + c / 2) / c
  }

  /** s is nearest to R divided by g, and the larger of two that are equally near. */
  predicate NearestTo(s: nat, R: int, g: int) {
    2 * (s * g) - g <= 2 * R < 2 * (s * g) + g
  }

  lemma NextGapNearest(R: nat, g: nat)
    requires 0 < g
    ensures NextGap(R, 0, g) >= 0 && NearestTo(NextGap(R, 0, g), R, g)
  {
    DivMod(R + g / 2, g);
    MulSign(g, (R + g / 2) / g);
  }

  function Spaces(gaps: seq<nat>): nat {
    if gaps == [] then 0 else Spaces(gaps[..|gaps| - 1]) + gaps[|gaps| - 1]
  }

  /** Each of the first of n gaps is nearest to an even share of the spaces that those in front of it have left. */
  predicate Shared(gaps: seq<nat>, n: int, spaces: int) {
    gaps == [] ||
    (var k := |gaps| - 1;
     Shared(gaps[..k], n, spaces) && NearestTo(gaps[k], spaces - Spaces(gaps[..k]), n - k))
  }

  lemma SharedMore(gaps: seq<nat>, s: nat, n: int, spaces: int)
    requires Shared(gaps, n, spaces) && NearestTo(s, spaces - Spaces(gaps), n - |gaps|)
    ensures Shared(gaps + [s], n, spaces) && Spaces(gaps + [s]) == Spaces(gaps) + s
  {
    hide NearestTo;
    assert (gaps + [s])[..|gaps|] == gaps;
  }

  /** One gap: R spaces are left for g gaps, between q and q + 1 each.  Rounding to the nearest keeps that so. */
  lemma GapStep(q: nat, g: nat, R: nat)
    requires 0 < g && q * g <= R <= (q + 1) * g
    ensures var s := NextGap(R, 0, g);
      && q <= s <= q + 1 && s <= R && (g == 1 ==> s == R)
      && q * (g - 1) <= R - s <= (q + 1) * (g - 1)
  {
    var a := g * q;
    assert q * g == a && (q + 1) * g == a + g by { MulDist(g, q, 1); }
    assert q * (g - 1) == a - q && (q + 1) * (g - 1) == a - q + g - 1 by { MulDist(q, g, -1); MulDist(g - 1, q, 1); }
    Rounded(q, g, R, a);
    MulNonNegative(q, g - 1);
  }

  /** At the start. */
  lemma GapStart(R: nat, g: nat)
    requires 0 < g
    ensures var q := R / g; q * g <= R <= (q + 1) * g && (g <= R ==> 1 <= q)
  {
    DivMod(R, g);
    MulDist(g, R / g, 1);
    MulSign(g, R / g);
  }

  /** Every gap is q or q + 1 wide. */
  predicate Even(gaps: seq<nat>, q: nat) {
    forall k | 0 <= k < |gaps| :: q <= gaps[k] <= q + 1
  }

  lemma EvenMore(gaps: seq<nat>, g: nat, q: nat)
    requires Even(gaps, q) && q <= g <= q + 1
    ensures Even(gaps + [g], q)
  {
  }

  lemma WordsOfEven(ws: seq<seq<Byte>>, gaps: seq<nat>, q: nat, c: Byte)
    requires |gaps| == |ws| - 1 && Even(gaps, q) && 0 < q && AreWords(ws, c)
    ensures Words(Lay(ws, gaps, c), c) == ws
  {
    WordsOfLay(ws, gaps, c);
  }

  /** The words among the first i entries. */
  lemma EntriesStep(xs: seq<seq<Byte>>, i: nat)
    requires i < |xs|
    ensures NonEmpty(xs[..i + 1]) == NonEmpty(xs[..i]) + if xs[i] == [] then [] else [xs[i]]
    ensures Total(NonEmpty(xs[..i + 1])) == Total(NonEmpty(xs[..i])) + |xs[i]|
  {
    assert xs[..i + 1] == xs[..i] + [xs[i]];
    NonEmptyConcat(xs[..i], [xs[i]]);
    var ws := NonEmpty(xs[..i]);
    if xs[i] == [] {
      assert ws + [] == ws;
    } else {
      assert NonEmpty([xs[i]]) == [xs[i]];
      TotalAppend(ws, xs[i]);
    }
  }

  method CountWords(sl: StrList) returns (l: nat, c: nat)
    requires sl.Valid()
    ensures l == Total(NonEmpty(sl.Contents())) && c == |NonEmpty(sl.Contents())|
  {
    l, c := 0, 0;
    ghost var xs := sl.Contents();
    for i := 0 to sl.qty
      invariant l == Total(NonEmpty(xs[..i])) && c == |NonEmpty(xs[..i])|
    {
      EntriesStep(xs, i);
      if |sl.entry[i]| > 0 {
        c := c + 1;
        l := l + |sl.entry[i]|;
      }
    }
    assert xs[..sl.qty] == xs;
  }

  /** There are at least two words, and room for wider gaps. */
  predicate Stretches(ws: seq<seq<Byte>>, width: int) {
    Total(ws) + |ws| < width && 2 <= |ws|
  }

  /** The line gets its width exactly if it is not too long with single spaces, unless it is one short: then there is
      one space to be put in, and the line stays left justified. */
  lemma ReachesWidth(ws: seq<seq<Byte>>, width: int, space: Byte)
    requires 2 <= |ws|
    ensures var l := |Join(ws, [space])|;
      (if Stretches(ws, width) then width else l) == width <==> l <= width && l + 1 != width
  {
    JoinLength(ws, [space]);
  }

  /** `bJustifyMargin`.  If at least two words fit, the line gets exactly the width, the words keep their order, and
      the gaps between them are as even as they can be; otherwise it is left justified. */
  method JustifyMargin(b: Bstring, width: int, space: Byte) returns (ghost gaps: seq<nat>)
    requires b.Valid()
    requires Stretches(Words(b.Contents(), space), width) ==> width < 0x4000_0000 || width < b.data.Length
    modifies b, b.data
    ensures b.Valid() && Words(b.Contents(), space) == Words(old(b.Contents()), space)
    ensures var ws := Words(old(b.Contents()), space); var l := Total(ws);
      if !Stretches(ws, width) then b.Contents() == Join(ws, [space])
      else
        && |gaps| == |ws| - 1 && b.Contents() == Lay(ws, gaps, space) && b.slen == width
        && (width - l) / (|ws| - 1) >= 1 && Even(gaps, (width - l) / (|ws| - 1))
        && Shared(gaps, |ws| - 1, width - l) && Spaces(gaps) == width - l
  {
    hide Split, NonEmpty, Total, Join, Lay, Bstring.Contents, StrList.Contents, Shared, Spaces;
    gaps := [];
    var line := b.Bytes();
    var sl := BSplit(line, space);
    var l, c := CountWords(sl);
    if l + c >= width || c < 2 {
      JustifyLeft(b, space);
      return;
    }
    GapStart(width - l, c - 1);
    gaps := LayOut(b, sl, width, space, l, c);
    WordsAreWords(line, space);
    WordsOfEven(Words(line, space), gaps, (width - l) / (c - 1), space);
  }

  /** i entries are done and c words are left, out is written and l counts all letters and the spaces so far. */
  predicate Placed(xs: seq<seq<Byte>>, i: nat, gaps: seq<nat>, q: nat, width: nat, l: int, c: nat, space: Byte,
                   out: seq<Byte>)
  {
    var ws := NonEmpty(xs);
    var k := |ws| - c;
    && i <= |xs| && 0 <= k && NonEmpty(xs[..i]) == ws[..k]
    && |out| + Total(ws[k..]) == l <= width && Even(gaps, q) && (out == [] <==> k == 0)
    && Shared(gaps, |ws| - 1, width - Total(ws)) && Spaces(gaps) == l - Total(ws)
    && if k == 0 then gaps == [] && q * (c - 1) <= width - l <= (q + 1) * (c - 1)
       else |gaps| == k - 1 && out == Lay(ws[..k], gaps, space) && q * c <= width - l <= (q + 1) * c
  }

  lemma NothingPlaced(xs: seq<seq<Byte>>, width: nat, space: Byte)
    requires var ws := NonEmpty(xs); 2 <= |ws| && Total(ws) + |ws| < width
    ensures var ws := NonEmpty(xs); var l := Total(ws);
      Placed(xs, 0, [], (width - l) / (|ws| - 1), width, l, |ws|, space, [])
  {
    hide Total, Lay;
    var ws := NonEmpty(xs);
    GapStart(width - Total(ws), |ws| - 1);
    assert ws[0..] == ws && NonEmpty(xs[..0]) == [];
  }

  lemma PlacedNone(xs: seq<seq<Byte>>, i: nat, gaps: seq<nat>, q: nat, width: nat, l: int, c: nat, space: Byte,
                   out: seq<Byte>)
    requires i < |xs| && xs[i] == [] && Placed(xs, i, gaps, q, width, l, c, space, out)
    ensures Placed(xs, i + 1, gaps, q, width, l, c, space, out)
  {
    hide NonEmpty, Total, Lay;
    EntriesStep(xs, i);
    assert NonEmpty(xs[..i]) + [] == NonEmpty(xs[..i]);
  }

  /** The next word is the next entry that is not empty. */
  lemma NextWord(xs: seq<seq<Byte>>, i: nat, k: nat)
    requires i < |xs| && xs[i] != [] && k <= |NonEmpty(xs)| && NonEmpty(xs[..i]) == NonEmpty(xs)[..k]
    ensures k < |NonEmpty(xs)| && NonEmpty(xs)[k] == xs[i] && NonEmpty(xs[..i + 1]) == NonEmpty(xs)[..k + 1]
  {
    hide NonEmpty;
    EntriesStep(xs, i);
    NonEmptyConcat(xs[..i + 1], xs[i + 1..]);
    assert xs[..i + 1] + xs[i + 1..] == xs;
  }

  lemma PlacedWord(xs: seq<seq<Byte>>, i: nat, gaps: seq<nat>, q: nat, width: nat, l: int, c: nat, space: Byte,
                   out: seq<Byte>)
    requires i < |xs| && xs[i] != [] && Placed(xs, i, gaps, q, width, l, c, space, out)
    ensures 0 < c && (out != [] ==> 0 <= l <= width)
    ensures out == [] ==> Placed(xs, i + 1, gaps, q, width, l, c - 1, space, out + xs[i])
    ensures out != [] ==>
      var s := NextGap(width, l, c);
      && 0 <= s && |out| + s <= width && (0 < q ==> 0 < s)
      && Placed(xs, i + 1, gaps + [s], q, width, l + s, c - 1, space, out + Repeat(space, s) + xs[i])
  {
    hide NonEmpty, Total, Lay, Even, Repeat, Shared, Spaces, NearestTo;
    var ws := NonEmpty(xs);
    var k := |ws| - c;
    NextWord(xs, i, k);
    TotalHead(ws, k);
    if k == 0 {
      assert [] + xs[i] == xs[i];
      OneWord(ws, space);
    } else {
      var s := NextGap(width, l, c);
      GapStep(q, c, width - l);
      EvenMore(gaps, s, q);
      NextGapNearest(width - l, c);
      SharedMore(gaps, s, |ws| - 1, width - Total(ws));
      LayMore(ws[..k], gaps, s, ws[k], space);
      assert ws[..k + 1] == ws[..k] + [ws[k]];
    }
  }

  lemma TotalHead(ws: seq<seq<Byte>>, k: nat)
    requires k < |ws|
    ensures Total(ws[k..]) == |ws[k]| + Total(ws[k + 1..])
  {
    assert ws[k..][1..] == ws[k + 1..];
  }

  lemma OneWord(ws: seq<seq<Byte>>, c: Byte)
    requires ws != []
    ensures Lay(ws[..1], [], c) == ws[0]
  {
  }

  lemma AllPlaced(xs: seq<seq<Byte>>, i: nat, gaps: seq<nat>, q: nat, width: nat, l: int, c: nat, space: Byte,
                  out: seq<Byte>)
    requires Placed(xs, i, gaps, q, width, l, c, space, out) && (i == |xs| || c == 0) && 2 <= |NonEmpty(xs)|
    ensures c == 0 && |out| == width && out == Lay(NonEmpty(xs), gaps, space) && |gaps| == |NonEmpty(xs)| - 1
    ensures Even(gaps, q)
    ensures var n := width - Total(NonEmpty(xs)); Shared(gaps, |NonEmpty(xs)| - 1, n) && Spaces(gaps) == n
  {
    hide NonEmpty, Lay, Even, Shared, Spaces;
    var ws := NonEmpty(xs);
    if i == |xs| {
      assert xs[..i] == xs;
      assert |ws[..|ws| - c]| == |ws|;
    }
    assert ws[..|ws|] == ws && ws[|ws|..] == [];
  }

  /** The loop that writes the words and the gaps. */
  method LayOut(b: Bstring, sl: StrList, width: nat, space: Byte, l0: nat, c0: nat) returns (ghost gaps: seq<nat>)
    requires b.Valid() && sl.Valid() && (width < 0x4000_0000 || width < b.data.Length)
    requires l0 == Total(NonEmpty(sl.Contents())) && c0 == |NonEmpty(sl.Contents())| && 2 <= c0 && l0 + c0 < width
    modifies b, b.data
    ensures b.Valid() && |gaps| == c0 - 1 && Even(gaps, (width - l0) / (c0 - 1)) && b.slen == width
    ensures b.Contents() == Lay(NonEmpty(sl.Contents()), gaps, space)
    ensures Shared(gaps, c0 - 1, width - l0) && Spaces(gaps) == width - l0
  {
    hide NonEmpty, Total, Lay, Even, Repeat, Bstring.Contents, Placed, NextGap, Shared, Spaces;
    ghost var xs, q := sl.Contents(), (width - l0) / (c0 - 1);
    var l, c, i := l0, c0, 0;
    gaps := [];
    b.Clear();
    NothingPlaced(xs, width, space);
    GapStart(width - l0, c0 - 1);
    while i < sl.qty && c > 0
      invariant 0 <= i <= sl.qty && b.Valid() && (b.data == old(b.data) || fresh(b.data))
      invariant Placed(xs, i, gaps, q, width, l, c, space, b.Contents())
      invariant width < 0x4000_0000 || width < b.data.Length
      decreases sl.qty - i
    {
      ghost var out := b.Contents();
      if |sl.entry[i]| > 0 {
        PlacedWord(xs, i, gaps, q, width, l, c, space, out);
        if b.slen > 0 {
          var s := NextGap(width, l, c);
          Roomy(b.data.Length, b.slen, s, width);
          var ret := InsertChrs(b, b.slen, s, space, space);
          AtTheEnd(out, Repeat(space, s), space);
          l, gaps := l + s, gaps + [s];
        }
        b.Cat(sl.entry[i]);
        c := c - 1;
      } else {
        PlacedNone(xs, i, gaps, q, width, l, c, space, out);
      }
      i := i + 1;
    }
    AllPlaced(xs, i, gaps, q, width, l, c, space, b.Contents());
  }

  lemma AtTheEnd(out: seq<Byte>, s: seq<Byte>, fill: Byte)
    ensures Inserted(out, |out|, s, fill) == out + s
  {
    assert out[..|out|] + s + out[|out|..] == out + s;
  }
}
