/** What the UTF-8 and UTF-16 code of Utf and Utf16 does to texts of every kind, broken ones included, measured by the
    tables of section 3 of RFC 3629 and section 2.1 of RFC 2781 (deps/bstrlib/utf8util.c, deps/bstrlib/buniutil.c). */
module UtfText {
  import opened Bstrings
  import opened Seqs
  import opened Wrappers
  import opened Utf
  import U16 = Utf16

  // ---------------------------------------------------------------------------------------------------
  // Code points and their encodings
  // ---------------------------------------------------------------------------------------------------

  /** Legal are the code points of Unicode without the surrogates and the last two of each of the 17 planes. */
  lemma LegalMeans(v: int)
    ensures Legal(v) <==>
      && 0 <= v < 17 * 0x1_0000 && !(0xD800 <= v <= 0xDFFF)
      && forall plane | 0 <= plane < 17 :: v - plane * 0x1_0000 != 0xFFFE && v - plane * 0x1_0000 != 0xFFFF
  {
    var q, r := v / 0x1_0000, v % 0x1_0000;
    assert v - q * 0x1_0000 == r;
  }

  /** The bytes of a code point by the table: a lead byte from the range for their number, continuation bytes, and the
      bits put together. */
  predicate ByTable(s: seq<Byte>, v: int) {
    || (|s| == 1 && s[0] < 0x80 && v == s[0])
    || (|s| == 2 && 0xC2 <= s[0] <= 0xDF && IsTail(s[1]) && v == Bits(s[0] - 0xC0, s[1]))
    || (|s| == 3 && 0xE0 <= s[0] <= 0xEF && IsTail(s[1]) && IsTail(s[2]) && v >= 0x800
        && v == Bits(Bits(s[0] - 0xE0, s[1]), s[2]))
    || (|s| == 4 && 0xF0 <= s[0] <= 0xF4 && IsTail(s[1]) && IsTail(s[2]) && IsTail(s[3]) && v >= 0x1_0000
        && v == Bits(Bits(Bits(s[0] - 0xF0, s[1]), s[2]), s[3]))
  }

  /** Six more bits. */
  function Bits(high: int, tail: Byte): int {
    high * 64 + (tail as int - 0x80)
  }

  predicate IsTail(b: Byte) {
    0x80 <= b <= 0xBF
  }

  lemma EncodedByTable(v: CodePoint)
    ensures ByTable(Utf8(v), v)
  {
    hide Six0, Six1, Six2, Legal;
    Together(v);
  }

  /** The surrogates of a code point, which has 20 bits above the first plane. */
  lemma PairByTable(v: U16.Scalar)
    ensures v < 0x1_0000 ==> U16.Utf16(v) == [v]
    ensures v >= 0x1_0000 ==>
      var ws := U16.Utf16(v);
      && |ws| == 2 && 0xD800 <= ws[0] <= 0xDBFF && 0xDC00 <= ws[1] <= 0xDFFF
      && v == 0x1_0000 + (ws[0] as int - 0xD800) * 1024 + (ws[1] as int - 0xDC00)
  {
  }

  // ---------------------------------------------------------------------------------------------------
  // Broken UTF-8
  // ---------------------------------------------------------------------------------------------------

  /** A step is an error exactly if no code point is encoded there, and it skips its byte and all continuation bytes
      behind it. */
  lemma ErrorStepIff(s: seq<Byte>)
    requires s != []
    ensures StepValue(s).None? <==> forall v: CodePoint :: !(Utf8(v) <= s)
    ensures StepValue(s).None? ==>
      var n := StepLength(s);
      (forall k | 1 <= k < n :: IsTail(s[k])) && (n < |s| ==> !IsTail(s[n]))
  {
    hide Utf8, ParseFirst;
    StepSound(s);
    forall v: CodePoint | Utf8(v) <= s
      ensures StepValue(s).Some?
    {
      ParseComplete(v, s);
    }
    if StepValue(s).Some? {
      var v: CodePoint := StepValue(s).value;
      assert Utf8(v) <= s;
    } else {
      RunOfTails(s[1..]);
    }
  }

  lemma {:induction false} RunOfTails(s: seq<Byte>)
    ensures forall k | 0 <= k < Continuations(s) :: IsTail(s[k])
    ensures Continuations(s) < |s| ==> !IsTail(s[Continuations(s)])
  {
    if s != [] && IsContinuation(s[0]) {
      RunOfTails(s[1..]);
    }
  }

  /** How many bytes the table wants behind a lead byte. */
  function TailCount(lead: Byte): nat {
    if lead < 0xC0 then 0 else if lead < 0xE0 then 1 else if lead < 0xF0 then 2 else 3
  }

  /** A place in front of pos, or pos itself, from which a code point reaches over pos. */
  predicate Covers(v: int, s: seq<Byte>, o: nat, pos: nat)
    requires o <= pos < |s|
  {
    Legal(v) && Utf8(v) <= s[o..] && pos - o < |Utf8(v)|
  }

  predicate TailsBehind(s: seq<Byte>, o: nat)
    requires o < |s|
  {
    o + TailCount(s[o]) < |s| && forall k | o < k <= o + TailCount(s[o]) :: IsTail(s[k])
  }

  lemma BitsApart(h: int, t: Byte, h': int, t': Byte)
    requires IsTail(t) && IsTail(t') && Bits(h, t) == Bits(h', t')
    ensures h == h' && t == t'
  {
  }

  lemma TableRange(s: seq<Byte>, v: int)
    requires ByTable(s, v)
    ensures if v < 0x80 then |s| == 1 else if v < 0x800 then |s| == 2 else if v < 0x1_0000 then |s| == 3 else |s| == 4
  {
  }

  lemma SameTable(s: seq<Byte>, s': seq<Byte>, v: int)
    requires ByTable(s, v) && ByTable(s', v)
    ensures s == s'
  {
    TableRange(s, v);
    TableRange(s', v);
    hide Bits;
    if |s| == 2 {
      BitsApart(s[0] - 0xC0, s[1], s'[0] - 0xC0, s'[1]);
    } else if |s| == 3 {
      BitsApart(Bits(s[0] - 0xE0, s[1]), s[2], Bits(s'[0] - 0xE0, s'[1]), s'[2]);
      BitsApart(s[0] - 0xE0, s[1], s'[0] - 0xE0, s'[1]);
    } else if |s| == 4 {
      BitsApart(Bits(Bits(s[0] - 0xF0, s[1]), s[2]), s[3], Bits(Bits(s'[0] - 0xF0, s'[1]), s'[2]), s'[3]);
      BitsApart(Bits(s[0] - 0xF0, s[1]), s[2], Bits(s'[0] - 0xF0, s'[1]), s'[2]);
      BitsApart(s[0] - 0xF0, s[1], s'[0] - 0xF0, s'[1]);
    }
  }

  /** The table has one row for each code point, and that is its encoding. */
  lemma TableIsUnique(s: seq<Byte>, v: CodePoint)
    ensures ByTable(s, v) <==> s == Utf8(v)
  {
    hide Legal, Utf8, ByTable;
    EncodedByTable(v);
    if ByTable(s, v) {
      SameTable(s, Utf8(v), v);
    }
  }

  lemma ValueByTable(s: seq<Byte>, v: int)
    requires s != [] && !IsTail(s[0]) && ValueAt(s) == Some(v) && TailsBehind(s, 0)
    ensures Legal(v) && ByTable(s[..1 + TailCount(s[0])], v)
  {
    hide Legal;
    var u := s[..1 + TailCount(s[0])];
    if s[0] >= 0xC0 {
      TailMasked(s[1]);
      if s[0] < 0xE0 {
        Mask2(s[0]);
        TwoLegal(v);
      } else {
        TailMasked(s[2]);
        if s[0] < 0xF0 {
          Mask3(s[0]);
        } else {
          TailMasked(s[3]);
          Mask4(s[0]);
          LegalRange(v);
        }
      }
    } else {
      TwoLegal(v);
    }
  }

  lemma TailMasked(b: Byte)
    requires IsTail(b)
    ensures Mask(b, 0x40) == b - 0x80
  {
  }

  lemma Mask2(b: Byte)
    requires 0xC0 <= b < 0xE0
    ensures Mask(b, 0x20) == b - 0xC0
  {
  }

  lemma Mask3(b: Byte)
    requires 0xE0 <= b < 0xF0
    ensures Mask(b, 0x10) == b - 0xE0
  {
  }

  lemma Mask4(b: Byte)
    requires 0xF0 <= b < 0xF8
    ensures Mask(b, 8) == b - 0xF0
  {
  }

  lemma TwoLegal(v: int)
    ensures 0 <= v < 0x800 ==> Legal(v)
  {
  }

  lemma TailsCover(s: seq<Byte>, o: nat, pos: nat, v: int)
    requires o <= pos < |s| && !IsTail(s[o]) && pos - o <= TailCount(s[o]) && ValueAt(s[o..]) == Some(v)
    requires TailsBehind(s, o)
    ensures Covers(v, s, o, pos)
  {
    hide Legal, ByTable, ValueAt, Utf8, IsTail;
    var t := s[o..];
    var n := TailCount(s[o]);
    assert t[0] == s[o] && forall k | 0 < k <= n :: t[k] == s[o + k];
    ValueByTable(t, v);
    LegalRange(v);
    TableIsUnique(t[..1 + n], v);
    assert Utf8(v) == t[..1 + n];
  }

  lemma EncodedHasTails(v: CodePoint)
    ensures var u := Utf8(v); |u| == 1 + TailCount(u[0]) && forall k | 0 < k < |u| :: IsTail(u[k])
  {
    hide Legal, Utf8;
    EncodedByTable(v);
  }

  lemma CoveredHasTails(s: seq<Byte>, o: nat, pos: nat, v: int)
    requires o <= pos < |s| && Covers(v, s, o, pos)
    ensures TailsBehind(s, o)
  {
    hide Legal, Utf8, TailCount, IsTail;
    LegalRange(v);
    EncodedHasTails(v);
    var u := Utf8(v);
    assert forall k | 0 <= k < |u| :: s[o + k] == s[o..][k] == u[k];
    forall k | o < k < o + |u|
      ensures IsTail(s[k])
    {
      assert s[o + (k - o)] == u[k - o];
    }
  }

  /** What the backward scan finds does reach over the place it started from, if and only if the bytes behind the lead
      byte that it has come to are continuation bytes, which it does not check. */
  lemma ScanTrueIff(s: seq<Byte>, pos: nat, d: nat, v: int)
    requires pos < |s| && BackDistance(s, pos) == Some(d) && d <= pos && ValueAt(s[pos - d..]) == Some(v)
    ensures Covers(v, s, pos - d, pos) <==> TailsBehind(s, pos - d)
  {
    hide Covers, TailsBehind, ValueAt, IsTail, TailCount;
    LeadFound(s, pos, d);
    if TailsBehind(s, pos - d) {
      TailsCover(s, pos - d, pos, v);
    }
    if Covers(v, s, pos - d, pos) {
      CoveredHasTails(s, pos - d, pos, v);
    }
  }

  /** The scan stops at a byte that is no continuation byte, near enough for its code point to reach to pos. */
  lemma LeadFound(s: seq<Byte>, pos: nat, d: nat)
    requires pos < |s| && BackDistance(s, pos) == Some(d)
    ensures d <= pos && !IsTail(s[pos - d]) && d <= TailCount(s[pos - d])
  {
  }

  /** The byte behind the lead byte C3 is a parenthesis, and the scan takes the two for U+00E8. */
  lemma ScanOfBrokenText()
    ensures var s: seq<Byte> := [0xC3, 0x28];
      BackDistance(s, 0) == Some(0) && ValueAt(s[0..]) == Some(0xE8) && !Covers(0xE8, s, 0, 0)
  {
    var s: seq<Byte> := [0xC3, 0x28];
    assert s[0..] == s;
    ScanTrueIff(s, 0, 0, 0xE8);
    assert !IsTail(s[1]);
  }

  // ---------------------------------------------------------------------------------------------------
  // Texts that are replaced, skipped or cut off
  // ---------------------------------------------------------------------------------------------------

  /** Appending fails exactly if something is not legal and errCh is neither; otherwise every legal code point stays
      and errCh takes the place of every other value. */
  lemma {:induction false} ReplacedMeans(bu: seq<int>, errCh: int)
    ensures Replaced(bu, errCh).None? <==> !Legal(errCh) && exists k | 0 <= k < |bu| :: !Legal(bu[k])
    ensures Replaced(bu, errCh).Some? ==>
      var r := Replaced(bu, errCh).value;
      |r| == |bu| && forall k | 0 <= k < |bu| :: r[k] == if Legal(bu[k]) then bu[k] else errCh
  {
    hide Legal;
    if bu != [] {
      ReplacedMeans(bu[1..], errCh);
      assert forall k | 1 <= k < |bu| :: bu[k] == bu[1..][k - 1];
      if k :| 0 <= k < |bu[1..]| && !Legal(bu[1..][k]) {
        assert !Legal(bu[k + 1]);
      }
    }
  }

  function Leads(s: seq<Byte>): nat {
    if s == [] then 0 else (if IsTail(s[0]) then 0 else 1) + Leads(s[1..])
  }

  /** Skipping goes to the first byte that is no continuation byte and has pos such bytes in front of it, in any text,
      or to the end. */
  lemma {:induction false} SkipMeans(s: seq<Byte>, pos: nat)
    ensures var j := U16.SkipTo(s, pos);
      if j < |s| then !IsTail(s[j]) && Leads(s[..j]) == pos else Leads(s) <= pos
  {
    if s != [] && (IsTail(s[0]) || pos > 0) {
      var pos' := if IsTail(s[0]) then pos else pos - 1;
      SkipMeans(s[1..], pos');
      var j := U16.SkipTo(s[1..], pos');
      assert s[..j + 1][1..] == s[1..][..j];
    }
  }

  /** When there is not room enough: the code points that fit, and if one word is left for a pair, a replacement. */
  lemma {:induction false} PackCuts(vs: seq<U16.Scalar>, room: nat) returns (k: nat)
    requires |U16.Words(vs)| > room
    ensures k < |vs| && |U16.Words(vs[..k])| <= room < |U16.Words(vs[..k + 1])|
    ensures U16.Pack(vs, room)
            == U16.Words(vs[..k]) + if |U16.Words(vs[..k])| < room then [0xFFFD] else []
  {
    hide U16.Utf16;
    var n := |U16.Utf16(vs[0])|;
    if room < n {
      k := 0;
      assert vs[..1] == [vs[0]] && vs[..1][1..] == [];
    } else {
      k := PackCuts(vs[1..], room - n);
      assert vs[..k + 1][1..] == vs[1..][..k] && vs[..k + 2][1..] == vs[1..][..k + 1];
      k := k + 1;
    }
  }
}
