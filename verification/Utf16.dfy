/** UTF-16 into UTF-8 and back (deps/bstrlib/buniutil.c:37-96 and 199-280). */
module Utf16 {
  import opened Bstrings
  import opened Seqs
  import opened Utf
  import opened Wrappers

  predicate IsHigh(w: Word) {
    0xD800 <= w < 0xDC00
  }

  predicate IsLow(w: Word) {
    0xDC00 <= w < 0xE000
  }

  /** Surrogates come in pairs. */
  predicate WellFormed(ws: seq<Word>) {
    if ws == [] then true
    else if IsHigh(ws[0]) then |ws| > 1 && IsLow(ws[1]) && WellFormed(ws[2..])
    else !IsLow(ws[0]) && WellFormed(ws[1..])
  }

  const INVALID := -1

  /** What the decoder makes of a word and, for a high surrogate, the next one. */
  function Point(w: Word, next: Word): int {
    if IsLow(w) then INVALID
    else if !IsHigh(w) then w
    else if next - 0xDC00 > 0x3FF then INVALID
    else (w - 0xD800) * 0x400 + (next - 0xDC00) + 0x1_0000
  }

  /** How many words one turn of the decoder takes: a high surrogate takes the next word with it, whatever it is. */
  function Unit(ws: seq<Word>): (n: nat)
    requires ws != []
    ensures 1 <= n <= |ws|
  {
    if IsHigh(ws[0]) && |ws| > 1 then 2 else 1
  }

  /** The word that the decoder reads behind the first one; behind the last one it finds what memory holds there. */
  function Following(ws: seq<Word>, behind: Word): Word {
    if |ws| > 1 then ws[1] else behind
  }

  /** What the decoder makes of the words, with the word behind in memory after them. */
  function Points(ws: seq<Word>, behind: Word): seq<int> {
    if ws == [] then [] else [Point(ws[0], Following(ws, behind))] + Points(ws[Unit(ws)..], behind)
  }

  type Scalar = v: int | 0 <= v < 0x11_0000

  /** One code point in UTF-16. */
  function Utf16(v: Scalar): (ws: seq<Word>)
    ensures 1 <= |ws| <= 2
  {
    if v < 0x1_0000 then [v] else [0xD800 + (v - 0x1_0000) / 0x400, 0xDC00 + (v - 0x1_0000) % 0x400]
  }

  function Words(cps: seq<Scalar>): seq<Word> {
    if cps == [] then [] else Utf16(cps[0]) + Words(cps[1..])
  }

  /** Decoding well-formed words loses nothing. */
  lemma {:induction false} WordsOfPoints(ws: seq<Word>, behind: Word)
    requires WellFormed(ws)
    ensures forall k | 0 <= k < |Points(ws, behind)| :: 0 <= Points(ws, behind)[k] < 0x11_0000
    ensures Words(Points(ws, behind)) == ws
    decreases |ws|
  {
    if ws != [] {
      var n := Unit(ws);
      WordsOfPoints(ws[n..], behind);
      var v := Point(ws[0], Following(ws, behind));
      assert Utf16(v) == ws[..n];
      TakeDrop(ws, n);
    }
  }

  /** Encoded code points are well-formed and decode to themselves. */
  lemma {:induction false} PointsOfWords(cps: seq<CodePoint>, behind: Word)
    ensures WellFormed(Words(cps)) && Points(Words(cps), behind) == cps
  {
    if cps != [] {
      PointsOfWords(cps[1..], behind);
      var ws, n := Words(cps), |Utf16(cps[0])|;
      assert ws[n..] == Words(cps[1..]);
      assert cps == [cps[0]] + cps[1..];
    }
  }

  // ---------------------------------------------------------------------------------------------------
  // Broken surrogate pairs
  // ---------------------------------------------------------------------------------------------------

  /** The first unit is no code point: a low surrogate alone, or a high one without a low one behind it. */
  predicate Broken(ws: seq<Word>)
    requires ws != []
  {
    IsLow(ws[0]) || (IsHigh(ws[0]) && (|ws| == 1 || !IsLow(ws[1])))
  }

  /** The code points that the words stand for, INVALID for every broken unit. */
  function Meant(ws: seq<Word>): seq<int> {
    if ws == [] then []
    else [if Broken(ws) then INVALID else Point(ws[0], Following(ws, 0))] + Meant(ws[Unit(ws)..])
  }

  /** The first unit is a high surrogate without its partner, and the sum that is made of it and of the word that is
      read next is a legal code point other than errCh. */
  predicate SlipsHere(ws: seq<Word>, behind: Word, errCh: int)
    requires ws != []
  {
    var next: int := Following(ws, behind);
    var v := (ws[0] - 0xD800) * 0x400 + (next - 0xDC00) + 0x1_0000;
    && IsHigh(ws[0]) && (if |ws| > 1 then next < 0xDC00 else next < 0xE000)
    && Legal(v) && v != errCh
  }

  predicate Slips(ws: seq<Word>, behind: Word, errCh: int) {
    ws != [] && (SlipsHere(ws, behind, errCh) || Slips(ws[Unit(ws)..], behind, errCh))
  }

  predicate AllLegal(ps: seq<int>) {
    ps == [] || (Legal(ps[0]) && AllLegal(ps[1..]))
  }

  /** One unit: the decoder's value is taken for what is meant unless it slips. */
  lemma UnitAgrees(ws: seq<Word>, behind: Word, errCh: int)
    requires ws != []
    ensures var p, m := Points(ws, behind)[0], Meant(ws)[0];
      && (Legal(m) ==> p == m && !SlipsHere(ws, behind, errCh))
      && (!Legal(m) ==> (SlipsHere(ws, behind, errCh) <==> Legal(p) && p != errCh))
  {
    hide Legal;
    IllegalSurrogates(INVALID);
    IllegalSurrogates(Point(ws[0], Following(ws, behind)));
  }

  lemma IllegalSurrogates(v: int)
    ensures v < 0 || 0xD800 <= v < 0xE000 ==> !Legal(v)
  {
  }

  /** With a legal errCh, the output is the meant one if and only if nothing slips. */
  lemma {:induction false} LegalAgrees(ws: seq<Word>, behind: Word, errCh: int)
    requires Legal(errCh)
    ensures Replaced(Points(ws, behind), errCh).Some? && Replaced(Meant(ws), errCh).Some?
    ensures Replaced(Points(ws, behind), errCh) == Replaced(Meant(ws), errCh) <==> !Slips(ws, behind, errCh)
    decreases |ws|
  {
    hide Legal, SlipsHere, Point, Broken, IsHigh, IsLow;
    if ws != [] {
      LegalAgrees(ws[Unit(ws)..], behind, errCh);
      UnitAgrees(ws, behind, errCh);
      var p, m := Points(ws, behind), Meant(ws);
      assert p[1..] == Points(ws[Unit(ws)..], behind) && m[1..] == Meant(ws[Unit(ws)..]);
      LegalRange(p[0]);
      LegalRange(m[0]);
      LegalRange(errCh);
      var a: CodePoint := if Legal(p[0]) then p[0] else errCh;
      var b: CodePoint := if Legal(m[0]) then m[0] else errCh;
      SameHeadTail(a, b, Replaced(p[1..], errCh).value, Replaced(m[1..], errCh).value);
    }
  }

  lemma SameHeadTail<T>(a: T, b: T, x: seq<T>, y: seq<T>)
    ensures [a] + x == [b] + y <==> a == b && x == y
  {
    ConcatTail([a], x);
    ConcatTail([b], y);
  }

  lemma {:induction false} AllOrNothing(ps: seq<int>, errCh: int)
    requires !Legal(errCh)
    ensures Replaced(ps, errCh) == if AllLegal(ps) then Some(ps) else None
  {
    hide Legal;
    if ps != [] {
      AllOrNothing(ps[1..], errCh);
      assert ps == [ps[0]] + ps[1..];
    }
  }

  lemma {:induction false} IllegalAgrees(ws: seq<Word>, behind: Word, errCh: int)
    requires !Legal(errCh)
    ensures AllLegal(Meant(ws)) ==> AllLegal(Points(ws, behind)) && !Slips(ws, behind, errCh)
    ensures AllLegal(Points(ws, behind)) ==>
      (Points(ws, behind) == Meant(ws) <==> !Slips(ws, behind, errCh))
    decreases |ws|
  {
    hide Legal, SlipsHere, Point, Broken, IsHigh, IsLow;
    if ws != [] {
      IllegalAgrees(ws[Unit(ws)..], behind, errCh);
      UnitAgrees(ws, behind, errCh);
      IllegalSurrogates(INVALID);
      var p, m := Points(ws, behind), Meant(ws);
      assert p[1..] == Points(ws[Unit(ws)..], behind) && m[1..] == Meant(ws[Unit(ws)..]);
      assert !Legal(m[0]) && Legal(p[0]) ==> p[0] != errCh;
      SameHeadTail(p[0], m[0], p[1..], m[1..]);
    }
  }

  /** What is appended is the text in which every broken unit is errCh, if and only if nothing slips, or the call fails
      for another unit anyway. */
  lemma NoticedIff(ws: seq<Word>, behind: Word, errCh: int)
    ensures Replaced(Points(ws, behind), errCh) == Replaced(Meant(ws), errCh)
            <==> !Slips(ws, behind, errCh) || (!Legal(errCh) && !AllLegal(Points(ws, behind)))
  {
    hide Legal, Slips, Points, Meant, AllLegal;
    if Legal(errCh) {
      LegalAgrees(ws, behind, errCh);
    } else {
      AllOrNothing(Points(ws, behind), errCh);
      AllOrNothing(Meant(ws), errCh);
      IllegalAgrees(ws, behind, errCh);
    }
  }

  /** U+D801 U+0041 come out as U+2841 where U+FFFD is asked for.  U+D800 U+B400 add up to a surrogate, which is
      replaced after all.  A high surrogate at the end comes out as U+10000 when a low one happens to lie behind it. */
  lemma BrokenPairSlips()
    ensures Replaced(Points([0xD801, 0x41], 0), 0xFFFD) == Some([0x2841])
    ensures Replaced(Meant([0xD801, 0x41]), 0xFFFD) == Some([0xFFFD])
    ensures Replaced(Points([0xD800, 0xB400], 0), 0xFFFD) == Some([0xFFFD]) && !Slips([0xD800, 0xB400], 0, 0xFFFD)
    ensures Replaced(Points([0xD800], 0xDC00), 0xFFFD) == Some([0x1_0000])
  {
    assert [0xD801, 0x41][2..] == [0xD800, 0xB400][2..] == [0xD800][1..] == [];
    OnePair(0xD801, 0x41);
    OnePair(0xD800, 0xB400);
    assert Points([0xD800], 0xDC00) == [0x1_0000];
    ReplacedOne(0x1_0000, 0xFFFD);
    ReplacedOne(0x2841, 0xFFFD);
    ReplacedOne(INVALID, 0xFFFD);
    ReplacedOne(0xD800, 0xFFFD);
  }

  // The same with units that hold no more than a broken surrogate itself.

  /** The code points that the words stand for, INVALID for every surrogate without its partner. */
  function Standard(ws: seq<Word>): seq<int> {
    if ws == [] then []
    else if IsHigh(ws[0]) && |ws| > 1 && IsLow(ws[1]) then [Point(ws[0], ws[1])] + Standard(ws[2..])
    else [if IsHigh(ws[0]) || IsLow(ws[0]) then INVALID else ws[0]] + Standard(ws[1..])
  }

  /** No high surrogate without its partner is followed by anything but a pair, whose code point has to be replaced
      itself or to be errCh, because its second half is; and none slips. */
  predicate NothingLost(ws: seq<Word>, behind: Word, errCh: int) {
    if ws == [] then true
    else if !IsHigh(ws[0]) || !Broken(ws) then NothingLost(ws[Unit(ws)..], behind, errCh)
    else
      && !SlipsHere(ws, behind, errCh)
      && (|ws| > 1 ==>
            && |ws| > 2 && IsHigh(ws[1]) && IsLow(ws[2])
            && (!Legal(Point(ws[1], ws[2])) || Point(ws[1], ws[2]) == errCh)
            && NothingLost(ws[3..], behind, errCh))
  }

  /** What two units make, written out from the front. */
  lemma TwoUnits(ws: seq<Word>, behind: Word)
    requires |ws| > 1 && IsHigh(ws[0]) && Broken(ws)
    ensures Points(ws, behind) == [Point(ws[0], ws[1])] + Points(ws[2..], behind)
    ensures |ws| > 2 && IsHigh(ws[1]) && IsLow(ws[2]) ==>
      && Points(ws[2..], behind) == [INVALID] + Points(ws[3..], behind)
      && Standard(ws) == [INVALID] + ([Point(ws[1], ws[2])] + Standard(ws[3..]))
    ensures !(|ws| > 2 && IsHigh(ws[1]) && IsLow(ws[2])) ==> |Standard(ws)| == 2 + |Standard(ws[2..])|
  {
    assert ws[1..][1..] == ws[2..];
    if |ws| > 2 {
      assert ws[1..][2..] == ws[2..][1..] == ws[3..];
    }
  }

  lemma {:induction false} ReplacedLength(ps: seq<int>, errCh: int)
    requires Legal(errCh)
    ensures Replaced(ps, errCh).Some? && |Replaced(ps, errCh).value| == |ps|
  {
    hide Legal;
    if ps != [] {
      ReplacedLength(ps[1..], errCh);
    }
  }

  /** One point in front. */
  lemma ReplacedFirst(p: int, ps: seq<int>, errCh: CodePoint)
    ensures Replaced([p] + ps, errCh) == After([if Legal(p) then p else errCh], Replaced(ps, errCh))
  {
    assert ([p] + ps)[1..] == ps;
  }

  lemma FirstAgrees(p: int, q: int, ps: seq<int>, qs: seq<int>, errCh: CodePoint)
    ensures Replaced([p] + ps, errCh) == Replaced([q] + qs, errCh)
            <==> (if Legal(p) then p else errCh) == (if Legal(q) then q else errCh)
                 && Replaced(ps, errCh) == Replaced(qs, errCh)
  {
    hide Legal;
    LegalRange(p);
    LegalRange(q);
    ReplacedFirst(p, ps, errCh);
    ReplacedFirst(q, qs, errCh);
    ReplacedLength(ps, errCh);
    ReplacedLength(qs, errCh);
    var a: CodePoint := if Legal(p) then p else errCh;
    var b: CodePoint := if Legal(q) then q else errCh;
    SameHeadTail(a, b, Replaced(ps, errCh).value, Replaced(qs, errCh).value);
  }

  /** A swallowed word makes the output shorter. */
  lemma {:induction false} PointsShorter(ws: seq<Word>, behind: Word)
    ensures |Points(ws, behind)| <= |Standard(ws)|
    decreases |ws|
  {
    hide Point;
    if ws != [] {
      if |ws| > 1 && IsHigh(ws[0]) && Broken(ws) {
        TwoUnits(ws, behind);
        PointsShorter(ws[2..], behind);
        if |ws| > 2 {
          PointsShorter(ws[3..], behind);
        }
      } else {
        PointsShorter(ws[Unit(ws)..], behind);
      }
    }
  }

  lemma {:induction false} LegalStandard(ws: seq<Word>, behind: Word, errCh: CodePoint)
    ensures Replaced(Points(ws, behind), errCh) == Replaced(Standard(ws), errCh) <==> NothingLost(ws, behind, errCh)
    decreases |ws|
  {
    hide Legal, Replaced;
    if ws != [] {
      if |ws| > 1 && IsHigh(ws[0]) && Broken(ws) {
        SwallowingUnit(ws, behind, errCh);
        if |ws| > 2 {
          LegalStandard(ws[3..], behind, errCh);
        }
      } else {
        var rest := ws[Unit(ws)..];
        LegalStandard(rest, behind, errCh);
        UnitAgrees(ws, behind, errCh);
        FirstAgrees(Points(ws, behind)[0], Standard(ws)[0], Points(rest, behind), Standard(rest), errCh);
      }
    }
  }

  lemma SwallowingUnit(ws: seq<Word>, behind: Word, errCh: CodePoint)
    requires |ws| > 1 && IsHigh(ws[0]) && Broken(ws)
    ensures Replaced(Points(ws, behind), errCh) == Replaced(Standard(ws), errCh)
            <==> && |ws| > 2 && IsHigh(ws[1]) && IsLow(ws[2]) && !SlipsHere(ws, behind, errCh)
                 && (!Legal(Point(ws[1], ws[2])) || Point(ws[1], ws[2]) == errCh)
                 && Replaced(Points(ws[3..], behind), errCh) == Replaced(Standard(ws[3..]), errCh)
  {
    hide Legal, Replaced, Points, Standard, Point, SlipsHere;
    TwoUnits(ws, behind);
    if |ws| > 2 && IsHigh(ws[1]) && IsLow(ws[2]) {
      var p, q := Point(ws[0], ws[1]), Point(ws[1], ws[2]);
      IllegalSurrogates(INVALID);
      FirstAgrees(p, INVALID, [INVALID] + Points(ws[3..], behind), [q] + Standard(ws[3..]), errCh);
      FirstAgrees(INVALID, q, Points(ws[3..], behind), Standard(ws[3..]), errCh);
      SlipsPoint(ws, behind, errCh);
    } else {
      PointsShorter(ws[2..], behind);
      ReplacedLength(Points(ws, behind), errCh);
      ReplacedLength(Standard(ws), errCh);
    }
  }

  lemma SlipsPoint(ws: seq<Word>, behind: Word, errCh: int)
    requires |ws| > 1 && IsHigh(ws[0]) && Broken(ws)
    ensures SlipsHere(ws, behind, errCh) <==> Legal(Point(ws[0], ws[1])) && Point(ws[0], ws[1]) != errCh
  {
    hide Legal;
    IllegalSurrogates(INVALID);
  }

  lemma {:induction false} BrokenStandard(ws: seq<Word>, behind: Word)
    ensures if WellFormed(ws) then Standard(ws) == Points(ws, behind) else !AllLegal(Standard(ws))
    decreases |ws|
  {
    hide Legal;
    if ws != [] {
      IllegalSurrogates(INVALID);
      var n := if IsHigh(ws[0]) && |ws| > 1 && IsLow(ws[1]) then 2 else 1;
      BrokenStandard(ws[n..], behind);
      assert Standard(ws)[1..] == Standard(ws[n..]);
    }
  }

  /** What is appended is the text in which errCh stands for every surrogate without its partner, and for nothing else,
      if and only if nothing is lost; with an illegal errCh, if the words are well-formed or the call fails anyway. */
  lemma StandardIff(ws: seq<Word>, behind: Word, errCh: int)
    ensures Replaced(Points(ws, behind), errCh) == Replaced(Standard(ws), errCh)
            <==> if Legal(errCh) then NothingLost(ws, behind, errCh)
                 else WellFormed(ws) || !AllLegal(Points(ws, behind))
  {
    hide Legal, NothingLost, Points, Standard, WellFormed, AllLegal;
    if Legal(errCh) {
      LegalRange(errCh);
      LegalStandard(ws, behind, errCh);
    } else {
      AllOrNothing(Points(ws, behind), errCh);
      AllOrNothing(Standard(ws), errCh);
      BrokenStandard(ws, behind);
    }
  }

  /** U+E001 behind a high surrogate goes with it: U+FFFD comes out for both. */
  lemma SwallowedWord()
    ensures Replaced(Points([0xD800, 0xE001], 0), 0xFFFD) == Some([0xFFFD]) && !Slips([0xD800, 0xE001], 0, 0xFFFD)
    ensures Replaced(Standard([0xD800, 0xE001]), 0xFFFD) == Some([0xFFFD, 0xE001])
  {
    OnePair(0xD800, 0xE001);
    ReplacedOne(INVALID, 0xFFFD);
    assert [0xD800, 0xE001][1..] == [0xE001] && [0xE001][1..] == [];
    assert Standard([0xD800, 0xE001]) == [INVALID] + [0xE001];
    ReplacedFirst(INVALID, [0xE001], 0xFFFD);
    ReplacedOne(0xE001, 0xFFFD);
    assert !SlipsHere([0xD800, 0xE001], 0, 0xFFFD);
    assert Slips([0xD800, 0xE001], 0, 0xFFFD) <==> SlipsHere([0xD800, 0xE001], 0, 0xFFFD);
    assert [0xFFFD] + [0xE001] == [0xFFFD, 0xE001];
  }

  lemma OnePair(w: Word, next: Word)
    requires IsHigh(w) && !IsLow(next)
    ensures Points([w, next], 0) == [Point(w, next)] && Meant([w, next]) == [INVALID]
    ensures forall errCh :: Slips([w, next], 0, errCh) <==> SlipsHere([w, next], 0, errCh)
  {
    assert [w, next][2..] == [];
  }

  lemma ReplacedOne(p: int, errCh: CodePoint)
    ensures Replaced([p], errCh) == Some([if Legal(p) then p else errCh])
  {
    hide Legal;
    LegalRange(p);
    var v: CodePoint := if Legal(p) then p else errCh;
    assert [p][1..] == [] && Replaced([], errCh) == Some([]) && [v] + [] == [v];
  }

  // ---------------------------------------------------------------------------------------------------
  // UTF-16 to UTF-8
  // ---------------------------------------------------------------------------------------------------

  const BOM: Word := 0xFEFF
  const SWAPPED_BOM: Word := 0xFFFE

  /** endSwap. */
  function EndSwap(cs: Word, mode: bool): Word {
    if mode then cs % 0x100 * 0x100 + cs / 0x100 else cs
  }

  /** The byte order mark passed in decides, or the first word, which is then taken away. */
  function Swapped(utf16: seq<Word>, bom: Option<Word>): bool {
    bom == Some(SWAPPED_BOM) || (bom != Some(BOM) && utf16 != [] && utf16[0] == SWAPPED_BOM)
  }

  function HasMark(utf16: seq<Word>, bom: Option<Word>): bool {
    bom !in {Some(SWAPPED_BOM), Some(BOM)} && utf16 != [] && utf16[0] in {SWAPPED_BOM, BOM}
  }

  function SwapAll(ws: seq<Word>, mode: bool): (r: seq<Word>)
    ensures |r| == |ws| && forall k | 0 <= k < |ws| :: r[k] == EndSwap(ws[k], mode)
  {
    if ws == [] then [] else [EndSwap(ws[0], mode)] + SwapAll(ws[1..], mode)
  }

  /** The words to decode. */
  function Body(utf16: seq<Word>, bom: Option<Word>): (ws: seq<Word>)
    ensures |ws| == |utf16| - if HasMark(utf16, bom) then 1 else 0
  {
    SwapAll(if HasMark(utf16, bom) then utf16[1..] else utf16, Swapped(utf16, bom))
  }

  /** Swapping puts the low byte first. */
  lemma SwapsBytes(high: Byte, low: Byte)
    ensures EndSwap(high * 0x100 + low, true) == low * 0x100 + high
  {
  }

  lemma SwapTwice(w: Word)
    ensures EndSwap(EndSwap(w, true), true) == w
  {
    var high, low := w / 0x100, w % 0x100;
    SwapsBytes(high, low);
    SwapsBytes(low, high);
  }

  lemma SwapAllTwice(ws: seq<Word>)
    ensures SwapAll(SwapAll(ws, true), true) == ws
  {
    hide SwapAll, EndSwap;
    forall k | 0 <= k < |ws|
      ensures SwapAll(SwapAll(ws, true), true)[k] == ws[k]
    {
      SwapTwice(ws[k]);
    }
  }

  lemma MarkedText(mark: Word, ws: seq<Word>, bom: Option<Word>)
    requires bom !in {Some(0xFEFF), Some(0xFFFE)} && (mark == 0xFEFF || mark == 0xFFFE)
    ensures Body([mark] + ws, bom) == SwapAll(ws, mark == 0xFFFE) && Swapped([mark] + ws, bom) == (mark == 0xFFFE)
  {
    hide SwapAll;
    var text := [mark] + ws;
    assert text[0] == mark && text[1..] == ws;
  }

  lemma UnmarkedText(ws: seq<Word>, bom: Option<Word>)
    ensures bom == Some(0xFEFF) || bom == Some(0xFFFE) ==>
      Body(ws, bom) == SwapAll(ws, bom == Some(0xFFFE)) && Swapped(ws, bom) == (bom == Some(0xFFFE))
    ensures bom !in {Some(0xFEFF), Some(0xFFFE)} && (ws == [] || (ws[0] != 0xFEFF && ws[0] != 0xFFFE)) ==>
      Body(ws, bom) == SwapAll(ws, false)
  {
    hide SwapAll;
  }

  /** A text with its bytes in the other order, behind a swapped mark or with one passed in, is decoded like the text
      itself behind its mark or without one; so is the word behind it.  What is passed in and is no mark has no say. */
  lemma SwappedText(ws: seq<Word>, behind: Word, bom: Option<Word>)
    requires bom !in {Some(0xFEFF), Some(0xFFFE)}
    ensures var text, swapped, ahead := [0xFEFF] + ws, [0xFFFE] + SwapAll(ws, true), EndSwap(behind, true);
      && Body(text, bom) == Body(swapped, bom) == ws
      && (ws == [] || (ws[0] != 0xFEFF && ws[0] != 0xFFFE) ==> Body(ws, bom) == ws)
      && Body(ws, Some(0xFEFF)) == Body(SwapAll(ws, true), Some(0xFFFE)) == ws
      && EndSwap(behind, Swapped(text, bom)) == EndSwap(ahead, Swapped(swapped, bom)) == behind
      && EndSwap(ahead, Swapped(SwapAll(ws, true), Some(0xFFFE))) == behind
  {
    hide Body, Swapped, SwapAll, EndSwap;
    MarkedText(0xFEFF, ws, bom);
    MarkedText(0xFFFE, SwapAll(ws, true), bom);
    UnmarkedText(ws, bom);
    UnmarkedText(ws, Some(0xFEFF));
    UnmarkedText(SwapAll(ws, true), Some(0xFFFE));
    SwapAllTwice(ws);
    SwapNone(ws);
    SwapTwice(behind);
    SwapOff(behind);
  }

  lemma SwapOff(w: Word)
    ensures EndSwap(w, false) == w
  {
  }

  const TEMP_UCS4_BUFFER_SIZE := 64

  /** `buAppendBlkUTF16`; bom is None for a NULL pointer, and behind is what memory holds behind the array. */
  method AppendBlkUTF16(bu: Bstring, utf16: seq<Word>, bom: Option<Word>, errCh: int, behind: Word)
    returns (ret: int, bomOut: Option<Word>)
    requires bu.Valid()
    modifies bu, bu.data
    ensures bu.Valid() && (bu.data == old(bu.data) || fresh(bu.data))
    ensures bomOut == if HasMark(utf16, bom) && bom.Some? then Some(utf16[0]) else bom
    ensures match Replaced(Points(Body(utf16, bom), EndSwap(behind, Swapped(utf16, bom))), errCh)
      case Some(cps) => ret == BSTR_OK && bu.Contents() == old(bu.Contents()) + Encode(cps)
      case None => ret == BSTR_ERR && bu.Contents() == old(bu.Contents())
    ensures old(bu.Terminated()) && ret == BSTR_OK ==> bu.Terminated()
  {
    hide Bstring.Contents, Bstring.Terminated, Bstring.Valid, Replaced, Points, Body, Encode, EndSwap;
    bomOut := bom;
    if |utf16| == 0 {
      NoWords(bu.Contents(), bom, errCh, EndSwap(behind, Swapped(utf16, bom)));
      assert utf16 == [];
      return BSTR_OK, bom;
    }
    var i, sm := 0, false;
    if bom == Some(SWAPPED_BOM) {
      sm := true;
    } else if bom == Some(BOM) {
      sm := false;
    } else if utf16[i] == SWAPPED_BOM {
      if bom.Some? {
        bomOut := Some(utf16[i]);
      }
      sm := true;
      i := i + 1;
    } else if utf16[i] == BOM {
      if bom.Some? {
        bomOut := Some(utf16[i]);
      }
      i := i + 1;
    }
    BodyAt(utf16, bom);
    ret := AppendPoints(bu, utf16, i, sm, errCh, behind, Body(utf16, bom));
  }

  lemma NoWords(o: seq<Byte>, bom: Option<Word>, errCh: int, behind: Word)
    ensures match Replaced(Points(Body([], bom), behind), errCh)
      case Some(cps) => o + Encode(cps) == o
      case None => false
  {
    NoPoints(o);
  }

  lemma BodyAt(utf16: seq<Word>, bom: Option<Word>)
    ensures var i := if HasMark(utf16, bom) then 1 else 0;
      && |Body(utf16, bom)| == |utf16| - i
      && forall k | 0 <= k < |utf16| - i :: Body(utf16, bom)[k] == EndSwap(utf16[i + k], Swapped(utf16, bom))
  {
    hide EndSwap;
  }

  lemma {:induction false} ReplacedConcat(a: seq<int>, b: seq<int>, errCh: int)
    ensures Replaced(a + b, errCh) ==
      if Replaced(a, errCh).None? then None else After(Replaced(a, errCh).value, Replaced(b, errCh))
  {
    hide Legal;
    if a == [] {
      assert a + b == b;
      if Replaced(b, errCh).Some? {
        assert [] + Replaced(b, errCh).value == Replaced(b, errCh).value;
      }
    } else {
      ReplacedConcat(a[1..], b, errCh);
      ConcatTail(a, b);
      if (Legal(a[0]) || Legal(errCh)) && Replaced(a[1..], errCh).Some? && Replaced(b, errCh).Some? {
        ConcatAssoc([if Legal(a[0]) then a[0] else errCh], Replaced(a[1..], errCh).value, Replaced(b, errCh).value);
      }
    }
  }

  /** all is the result: cps are appended, pend is in the block, ps are still to come. */
  predicate Collected(all: Option<seq<CodePoint>>, cps: seq<CodePoint>, pend: seq<int>, ps: seq<int>, errCh: int) {
    all == After(cps, Replaced(pend + ps, errCh))
  }

  lemma CollectedFirst(ps: seq<int>, errCh: int)
    ensures Collected(Replaced(ps, errCh), [], [], ps, errCh)
  {
    assert [] + ps == ps;
    if Replaced(ps, errCh).Some? {
      assert [] + Replaced(ps, errCh).value == Replaced(ps, errCh).value;
    }
  }

  /** The point p goes into the block, errCh in its place if it is invalid; without an errCh the whole text fails. */
  lemma CollectedPoint(all: Option<seq<CodePoint>>, cps: seq<CodePoint>, pend: seq<int>, p: int, more: seq<int>,
                       errCh: int)
    requires Collected(all, cps, pend, [p] + more, errCh)
    ensures if p == INVALID && !Legal(errCh) then all == None
            else Collected(all, cps, pend + [if p == INVALID then errCh else p], more, errCh)
  {
    ConcatAssoc(pend, [p], more);
    ConcatAssoc(pend, [errCh], more);
    ReplacedConcat(pend, [p] + more, errCh);
    ReplacedConcat(pend, [errCh] + more, errCh);
    assert ([p] + more)[1..] == more && ([errCh] + more)[1..] == more;
  }

  /** The block is appended. */
  lemma CollectedBlock(all: Option<seq<CodePoint>>, cps: seq<CodePoint>, pend: seq<int>, more: seq<int>, errCh: int,
                       o: seq<Byte>)
    requires Collected(all, cps, pend, more, errCh)
    ensures Replaced(pend, errCh).None? ==> all == None
    ensures Replaced(pend, errCh).Some? ==>
      var q := Replaced(pend, errCh).value;
      Collected(all, cps + q, [], more, errCh) && o + Encode(cps + q) == o + Encode(cps) + Encode(q)
  {
    ReplacedConcat(pend, more, errCh);
    assert [] + more == more;
    if Replaced(pend, errCh).Some? {
      var q := Replaced(pend, errCh).value;
      EncodeConcat(cps, q);
      ConcatAssoc(o, Encode(cps), Encode(q));
      if Replaced(more, errCh).Some? {
        ConcatAssoc(cps, q, Replaced(more, errCh).value);
      }
    }
  }

  lemma CollectedAll(all: Option<seq<CodePoint>>, cps: seq<CodePoint>, pend: seq<int>, rest: seq<Word>, behind: Word,
                     errCh: int)
    requires Collected(all, cps, pend, Points(rest, behind), errCh) && rest == []
    ensures Collected(all, cps, pend, [], errCh)
  {
  }

  lemma CollectedEnd(all: Option<seq<CodePoint>>, cps: seq<CodePoint>, pend: seq<int>, errCh: int)
    ensures pend == [] && Collected(all, cps, pend, [], errCh) ==> all == Some(cps)
  {
    assert pend + [] == pend && cps + [] == cps;
  }

  /** The main loop: points are collected in blocks, which are appended when they are full. */
  method AppendPoints(bu: Bstring, utf16: seq<Word>, from: nat, sm: bool, errCh: int, behind: Word,
                      ghost body: seq<Word>)
    returns (ret: int)
    requires bu.Valid() && from <= |utf16| && |body| == |utf16| - from
    requires forall k | 0 <= k < |body| :: body[k] == EndSwap(utf16[from + k], sm)
    modifies bu, bu.data
    ensures bu.Valid() && (bu.data == old(bu.data) || fresh(bu.data))
    ensures match Replaced(Points(body, EndSwap(behind, sm)), errCh)
      case Some(cps) => ret == BSTR_OK && bu.Contents() == old(bu.Contents()) + Encode(cps)
      case None => ret == BSTR_ERR && bu.Contents() == old(bu.Contents())
    ensures old(bu.Terminated()) && ret == BSTR_OK ==> bu.Terminated()
  {
    hide Bstring.Contents, Bstring.Terminated, Legal, Replaced, Encode, EndSwap, Points, Collected;
    var oldSlen, cc, i := bu.slen, 0, from;
    var buff := new int[TEMP_UCS4_BUFFER_SIZE];
    ghost var next := EndSwap(behind, sm);
    ghost var all, cps: seq<CodePoint> := Replaced(Points(body, next), errCh), [];
    ghost var o := bu.Contents();
    assert body[0..] == body && buff[..cc] == [];
    CollectedFirst(Points(body, next), errCh);
    NoPoints(o);
    while i < |utf16|
      invariant from <= i <= |utf16| && 0 <= cc < TEMP_UCS4_BUFFER_SIZE
      invariant bu.Valid() && (bu.data == old(bu.data) || fresh(bu.data))
      invariant old(bu.Terminated()) ==> bu.Terminated()
      invariant bu.Contents() == o + Encode(cps)
      invariant Collected(all, cps, buff[..cc], Points(body[i - from..], next), errCh)
      decreases |utf16| - i
    {
      ghost var pend, rest := buff[..cc], body[i - from..];
      var p, n := NextPoint(utf16, i, sm, behind, rest);
      CollectedPoint(all, cps, pend, p, Points(rest[n..], next), errCh);
      i := i + n;
      assert rest[n..] == body[i - from..];
      if p == INVALID {
        if !Legal(errCh) {
          Restore(bu, oldSlen, o, Encode(cps));
          return BSTR_ERR;
        }
        p := errCh;
      }
      buff[cc] := p;
      cc := cc + 1;
      assert buff[..cc] == pend + [p];
      if cc >= TEMP_UCS4_BUFFER_SIZE {
        CollectedBlock(all, cps, buff[..cc], Points(body[i - from..], next), errCh, o);
        var err := AppendBlkUcs4(bu, buff[..cc], errCh);
        if err < 0 {
          Restore(bu, oldSlen, o, Encode(cps));
          return BSTR_ERR;
        }
        cps := cps + Replaced(buff[..cc], errCh).value;
        cc := 0;
        assert buff[..cc] == [];
      }
    }
    ret := BSTR_OK;
    CollectedAll(all, cps, buff[..cc], body[i - from..], next, errCh);
    if cc > 0 {
      CollectedBlock(all, cps, buff[..cc], [], errCh, o);
      ret := AppendBlkUcs4(bu, buff[..cc], errCh);
      if ret < 0 {
        Restore(bu, oldSlen, o, Encode(cps));
      } else {
        cps := cps + Replaced(buff[..cc], errCh).value;
        CollectedEnd(all, cps, [], errCh);
      }
    } else {
      CollectedEnd(all, cps, buff[..cc], errCh);
    }
  }

  lemma NoPoints(o: seq<Byte>)
    ensures o + Encode([]) == o
  {
  }

  /** Take back what was appended. */
  method Restore(bu: Bstring, oldSlen: nat, ghost o: seq<Byte>, ghost appended: seq<Byte>)
    requires bu.Valid() && bu.Contents() == o + appended && oldSlen == |o|
    modifies bu`slen
    ensures bu.Valid() && bu.Contents() == o
  {
    bu.Truncate(oldSlen);
    assert (o + appended)[..oldSlen] == o;
  }

  /** One turn of the loop: a word, or a surrogate pair. */
  method NextPoint(utf16: seq<Word>, i: nat, sm: bool, behind: Word, ghost rest: seq<Word>) returns (p: int, n: nat)
    requires i < |utf16| && |rest| == |utf16| - i
    requires forall k | 0 <= k < |rest| :: rest[k] == EndSwap(utf16[i + k], sm)
    ensures 1 <= n <= |rest|
    ensures Points(rest, EndSwap(behind, sm)) == [p] + Points(rest[n..], EndSwap(behind, sm))
  {
    hide EndSwap;
    var v := EndSwap(utf16[i], sm);
    assert rest[0] == v;
    if 0xD800 <= v <= 0xDFFF {
      if v >= 0xDC00 {
        return INVALID, 1;
      }
      assert |rest| > 1 ==> rest[1] == EndSwap(utf16[i + 1], sm);
      n := if i + 1 < |utf16| then 2 else 1;
      var c := EndSwap(if i + 1 < |utf16| then utf16[i + 1] else behind, sm) - 0xDC00;
      if c > 0x3FF {
        return INVALID, n;
      }
      return (v - 0xD800) * 0x400 + c + 0x1_0000, n;
    }
    return v, 1;
  }

  // ---------------------------------------------------------------------------------------------------
  // UTF-8 to UTF-16
  // ---------------------------------------------------------------------------------------------------

  const REPLACEMENT: Word := 0xFFFD

  /** As many words as fit into room; a pair of which only one word fits becomes the replacement character. */
  function Pack(vs: seq<Scalar>, room: nat): (ws: seq<Word>)
    ensures |ws| <= room
  {
    if vs == [] || room == 0 then []
    else if room < |Utf16(vs[0])| then [REPLACEMENT]
    else Utf16(vs[0]) + Pack(vs[1..], room - |Utf16(vs[0])|)
  }

  lemma {:induction false} PackAll(vs: seq<Scalar>, room: nat)
    requires |Words(vs)| <= room
    ensures Pack(vs, room) == Words(vs)
  {
    if vs != [] {
      PackAll(vs[1..], room - |Utf16(vs[0])|);
    }
  }

  /** Where the code point number pos starts; continuation bytes do not count. */
  function SkipTo(s: seq<Byte>, pos: nat): (j: nat)
    ensures j <= |s|
  {
    if s == [] then 0
    else if IsContinuation(s[0]) then 1 + SkipTo(s[1..], pos)
    else if pos == 0 then 0
    else 1 + SkipTo(s[1..], pos - 1)
  }

  lemma {:induction false} SkipsRun(c: seq<Byte>, rest: seq<Byte>, pos: nat)
    requires forall b | b in c :: IsContinuation(b)
    ensures SkipTo(c + rest, pos) == |c| + SkipTo(rest, pos)
  {
    if c == [] {
      assert c + rest == rest;
    } else {
      ConcatTail(c, rest);
      SkipsRun(c[1..], rest, pos);
    }
  }

  lemma LeadAndRun(v: CodePoint)
    ensures !IsContinuation(Utf8(v)[0]) && forall b | b in Utf8(v)[1..] :: IsContinuation(b)
  {
    hide Six0, Six1, Six2;
  }

  /** In an encoded text the rest of the code points starts there. */
  lemma {:induction false} SkipsCodePoints(cps: seq<CodePoint>, pos: nat)
    requires pos <= |cps|
    ensures Encode(cps)[SkipTo(Encode(cps), pos)..] == Encode(cps[pos..])
  {
    hide Utf8;
    if cps == [] || pos == 0 {
      assert cps[pos..] == cps;
      if cps != [] {
        LeadAndRun(cps[0]);
      }
    } else {
      var u, rest := Utf8(cps[0]), Encode(cps[1..]);
      LeadAndRun(cps[0]);
      ConcatTail(u, rest);
      SkipsRun(u[1..], rest, pos - 1);
      SkipsCodePoints(cps[1..], pos - 1);
      var j := SkipTo(rest, pos - 1);
      CutSecond(u, rest, j);
      assert cps[1..][pos - 1..] == cps[pos..];
    }
  }

  /** `buGetBlkUTF16` into an array of len words. */
  method GetBlkUTF16(ucs2: array<Word>, errCh0: int, bu: array<Byte>, slen: nat, pos: int) returns (ret: int)
    requires slen <= bu.Length
    modifies ucs2
    ensures ucs2.Length == 0 || pos < 0 ==> ret == BSTR_ERR && ucs2[..] == old(ucs2[..])
    ensures ucs2.Length > 0 && 0 <= pos && Readable(bu, SkipTo(bu[..slen], pos), slen) ==>
      var s := bu[SkipTo(bu[..slen], pos)..slen];
      var ws := Pack(ReadAs(s, if Legal(errCh0) then errCh0 else REPLACEMENT), ucs2.Length);
      && ret == (if s == [] then BSTR_ERR else |ws|)
      && ucs2[..|ws|] == ws && forall k | |ws| <= k < ucs2.Length :: ucs2[k] == 0
  {
    hide ReadAs, Steps, Pack;
    var errCh: CodePoint := if Legal(errCh0) then errCh0 else REPLACEMENT;
    if ucs2.Length == 0 || pos < 0 {
      return BSTR_ERR;
    }
    var j := CountBytes(bu, slen, pos);
    assert j + (slen - j) == slen;
    var iter := new Utf8Iterator(bu, j, slen - j);
    ret := Fill(ucs2, iter, errCh);
  }

  /** The loop that skips the first pos code points. */
  method CountBytes(bu: array<Byte>, slen: nat, pos: nat) returns (j: nat)
    requires slen <= bu.Length
    ensures j == SkipTo(bu[..slen], pos)
  {
    ghost var s := bu[..slen];
    j := 0;
    var i := 0;
    assert s[0..] == s;
    while j < slen
      invariant 0 <= j <= slen && 0 <= i <= pos && SkipTo(s, pos) == j + SkipTo(s[j..], pos - i)
    {
      assert s[j..][1..] == s[j + 1..];
      if !IsContinuation(bu[j]) {
        if i >= pos {
          break;
        }
        i := i + 1;
      }
      j := j + 1;
    }
  }

  /** The loop over the iterator. */
  method Fill(ucs2: array<Word>, iter: Utf8Iterator, errCh: CodePoint) returns (ret: int)
    requires iter.Valid() && iter.next == 0 && ucs2.Length > 0
    modifies ucs2, iter`start, iter`next, iter`error
    ensures old(iter.Closed()) ==>
      var s := old(iter.Ahead()); var ws := Pack(ReadAs(s, errCh), ucs2.Length);
      && ret == (if s == [] then BSTR_ERR else |ws|)
      && ucs2[..|ws|] == ws && forall k | |ws| <= k < ucs2.Length :: ucs2[k] == 0
  {
    hide ReadAs, Steps, Pack, Utf8Iterator.Ahead, Utf8Iterator.Closed, StepLength, StepValue, Chunk, Legal;
    ghost var s, closed := iter.Ahead(), iter.Closed();
    ghost var ws := Pack(ReadAs(s, errCh), ucs2.Length);
    var ucs4, i, p, len := BSTR_ERR, 0, 0, ucs2.Length;
    assert ucs2[..p] + ws == ws;
    while 0 < len && iter.next < iter.slen
      invariant iter.Valid() && 0 <= p <= ucs2.Length && len == ucs2.Length - p && i == p
      invariant closed ==> iter.Closed() && ucs2[..p] + Pack(ReadAs(iter.Ahead(), errCh), len) == ws
      invariant if ucs4 < 0 then iter.next == p == 0 && ucs4 == BSTR_ERR && iter.Ahead() == s else s != []
      decreases iter.slen - iter.next
    {
      ghost var rest, done, room := iter.Ahead(), ucs2[..p], len;
      AheadLength(iter);
      ReadStep(rest, errCh);
      ucs4 := iter.GetNextCodePoint(errCh);
      LegalRange(ucs4);
      ghost var more := ReadAs(iter.Ahead(), errCh);
      PackStep(ucs4, more, room);
      var n := Put(ucs2, p, ucs4);
      ConcatAssoc(done, Chunk(ucs4, room), Pack(more, room - n));
      p, len, i := p + n, len - n, i + n;
    }
    AheadLength(iter);
    PackEnd(iter.Ahead(), errCh, len);
    assert closed ==> ucs2[..p] == ws;
    ZeroFrom(ucs2, p);
    ret := if 0 > ucs4 then BSTR_ERR else i;
  }

  method ZeroFrom(ucs2: array<Word>, from: nat)
    requires from <= ucs2.Length
    modifies ucs2
    ensures ucs2[..from] == old(ucs2[..from]) && forall k | from <= k < ucs2.Length :: ucs2[k] == 0
  {
    var p, len := from, ucs2.Length - from;
    ghost var done := ucs2[..from];
    while 0 < len
      invariant from <= p <= ucs2.Length && len == ucs2.Length - p
      invariant ucs2[..from] == done && forall k | from <= k < p :: ucs2[k] == 0
    {
      ucs2[p] := 0;
      p, len := p + 1, len - 1;
    }
  }

  /** What one code point becomes where there is room. */
  function Chunk(v: Scalar, room: nat): (c: seq<Word>)
    requires 0 < room
    ensures 1 <= |c| <= room
  {
    if room < |Utf16(v)| then [REPLACEMENT] else Utf16(v)
  }

  method Put(ucs2: array<Word>, p: nat, v: Scalar) returns (n: nat)
    requires p < ucs2.Length
    modifies ucs2
    ensures n == |Chunk(v, ucs2.Length - p)| && ucs2[..p + n] == old(ucs2[..p]) + Chunk(v, ucs2.Length - p)
  {
    ghost var done := ucs2[..p];
    if v < 0x1_0000 {
      ucs2[p] := v;
      n := 1;
    } else if ucs2.Length - p < 2 {
      ucs2[p] := REPLACEMENT;
      n := 1;
    } else {
      var y := v - 0x1_0000;
      ucs2[p] := 0xD800 + y / 0x400;
      ucs2[p + 1] := 0xDC00 + y % 0x400;
      n := 2;
    }
    assert ucs2[..p] == done && ucs2[..p + n] == done + ucs2[p..p + n];
  }

  lemma PackStep(v: Scalar, rest: seq<Scalar>, room: nat)
    requires 0 < room
    ensures Pack([v] + rest, room) == Chunk(v, room) + Pack(rest, room - |Chunk(v, room)|)
  {
    hide Utf16;
    var vs := [v] + rest;
    assert vs[0] == v && vs[1..] == rest;
    if room < |Utf16(v)| {
      assert room == 1 && Pack(rest, 0) == [];
      assert [REPLACEMENT] + [] == [REPLACEMENT];
    }
  }

  lemma PackEnd(s: seq<Byte>, errCh: CodePoint, room: nat)
    ensures s == [] || room == 0 ==> Pack(ReadAs(s, errCh), room) == []
  {
  }

  lemma ReadStep(s: seq<Byte>, errCh: CodePoint)
    ensures s != [] ==>
      var v := if StepValue(s).None? then errCh else StepValue(s).value;
      0 <= v < 0x11_0000 && ReadAs(s, errCh) == [v] + ReadAs(s[StepLength(s)..], errCh)
  {
    if s != [] {
      StepSound(s);
    }
  }

  // ---------------------------------------------------------------------------------------------------
  // Round trip
  // ---------------------------------------------------------------------------------------------------

  /** Words that need no replacement: well-formed, of legal code points, without a byte order mark in front. */
  predicate Plain(ws: seq<Word>) {
    WellFormed(ws) && AllLegal(Points(ws, 0)) && (ws != [] ==> ws[0] != BOM)
  }

  /** Such words, appended and read back with room enough, are the same, whatever stands for errors. */
  lemma RoundTrip(ws: seq<Word>, behind: Word, errCh: int, errCh': CodePoint, room: nat)
    requires Plain(ws) && |ws| <= room
    ensures Body(ws, None) == ws && !Swapped(ws, None)
    ensures match Replaced(Points(ws, behind), errCh)
      case Some(cps) => Pack(ReadAs(Encode(cps), errCh'), room) == ws && (Encode(cps) == [] <==> ws == [])
      case None => false
  {
    hide Legal, Points, AllLegal, Replaced, ReadAs, Pack;
    NoSwappedMark(ws);
    WordsOfPoints(ws, behind);
    BehindIgnored(ws, behind);
    LegalPoints(Points(ws, behind));
    var cps: seq<CodePoint> := Points(ws, behind);
    LegalStays(cps, errCh);
    ReadsEncoding(cps, errCh');
    PackAll(cps, room);
  }

  /** Nothing behind well-formed words is looked at. */
  lemma {:induction false} BehindIgnored(ws: seq<Word>, behind: Word)
    requires WellFormed(ws)
    ensures Points(ws, behind) == Points(ws, 0)
    decreases |ws|
  {
    if ws != [] {
      BehindIgnored(ws[Unit(ws)..], behind);
    }
  }

  lemma {:induction false} LegalPoints(ps: seq<int>)
    requires AllLegal(ps)
    ensures forall k | 0 <= k < |ps| :: Legal(ps[k])
  {
    if ps != [] {
      LegalPoints(ps[1..]);
      assert forall k | 1 <= k < |ps| :: ps[k] == ps[1..][k - 1];
    }
  }

  /** The swapped byte order mark is no legal code point. */
  lemma NoSwappedMark(ws: seq<Word>)
    requires Plain(ws)
    ensures Body(ws, None) == ws && !Swapped(ws, None)
  {
    hide SwapAll;
    SwapNone(ws);
  }

  lemma SwapNone(ws: seq<Word>)
    ensures SwapAll(ws, false) == ws
  {
    hide SwapAll;
  }

  /** Plain words, appended to an empty bstring and read back from its buffer, come back, with their number and with
      zeros behind them. */
  method ThereAndBack(ws: seq<Word>, behind: Word, errCh: int, errCh': int, room: nat)
    returns (ucs2: array<Word>, n: int)
    requires Plain(ws) && |ws| <= room
    ensures fresh(ucs2) && ucs2.Length == room && ucs2[..|ws|] == ws
    ensures ws != [] ==> n == |ws| && forall k | |ws| <= k < room :: ucs2[k] == 0
    ensures ws == [] ==> n == BSTR_ERR
  {
    hide Plain, Points, Encode, ReadAs, Pack, Replaced, Body, Swapped, SkipTo;
    RoundTrip(ws, behind, errCh, if Legal(errCh') then errCh' else REPLACEMENT, room);
    var b := new Bstring.Empty();
    var ret, bom := AppendBlkUTF16(b, ws, None, errCh, behind);
    ucs2 := new Word[room];
    ghost var cps := Replaced(Points(ws, behind), errCh).value;
    SkipsCodePoints(cps, 0);
    assert cps[0..] == cps && [] + Encode(cps) == Encode(cps);
    assert EndSwap(behind, false) == behind;
    n := GetBlkUTF16(ucs2, errCh', b.data, b.slen, 0);
  }
}
