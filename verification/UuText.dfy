/** What a line of UU encoded text means, from its characters alone, and that the decoder of UuCodec agrees with it
    (deps/bstrlib/bstraux.c:500-592): which lines are good, which bytes they hold, and which bytes a bad line still
    gives. */
module UuText {
  import opened Arith
  import opened Bstrings
  import opened Seqs
  import opened Wrappers
  import opened Sextets
  import opened UuCodec

  /** The first character stands for a number of at most 45 bytes; '`' stands for 0 like the space. */
  predicate LengthFits(s: seq<Byte>)
    requires s != []
  {
    ' ' as int <= s[0] <= 'M' as int || s[0] == '`' as int
  }

  function LengthOf(s: seq<Byte>): (n: nat)
    requires s != [] && LengthFits(s)
    ensures n <= 45
  {
    if s[0] == '`' as int then 0 else s[0] - ' ' as int
  }

  /** How many characters n bytes need: four for three bytes, two for one, three for two. */
  function Needed(n: nat): nat {
    n / 3 * 4 + if n % 3 == 0 then 0 else n % 3 + 1
  }

  /** The line has a character at k, and it stands for six bits. */
  predicate IsCode(s: seq<Byte>, k: nat) {
    k < |s| && ' ' as int <= s[k] <= '`' as int
  }

  predicate AllCodes(s: seq<Byte>, i: nat, n: nat) {
    forall k | i <= k < i + n :: IsCode(s, k)
  }

  /** A character behind the codes, or in front of them and neither white space nor the unit separator. */
  predicate IsFatal(s: seq<Byte>, k: nat) {
    k < |s| && (s[k] > '`' as int || (s[k] < 31 && !(9 <= s[k] <= 13)))
  }

  predicate GoodLine(s: seq<Byte>)
    requires s != []
  {
    LengthFits(s) && AllCodes(s, 1, Needed(LengthOf(s)))
  }

  /** For want bytes from i on, there is a fatal character, or the last group does not even begin in the line. */
  predicate GivenUp(s: seq<Byte>, i: nat, want: nat) {
    (exists k | i <= k < i + Needed(want) :: IsFatal(s, k)) || (want > 0 && |s| <= i + (want - 1) / 3 * 4)
  }

  /** The six bits at k.  What is no code counts as zeros, and takes its partner along in the first half of a group. */
  function Bits(s: seq<Byte>, k: nat): Code {
    if if k % 4 == 1 then IsCode(s, k) && IsCode(s, k + 1)
       else if k % 4 == 2 then IsCode(s, k - 1) && IsCode(s, k)
       else IsCode(s, k)
    then (s[k] - ' ' as int) % 64
    else 0
  }

  /** Byte number j of a line: eight of the twelve bits of two neighbours. */
  function OctetAt(s: seq<Byte>, j: nat): Byte {
    var k := 1 + j / 3 * 4 + j % 3;
    var twelve: nat := Bits(s, k) as int * 64 + Bits(s, k + 1);
    if j % 3 == 0 then twelve / 16 else if j % 3 == 1 then twelve / 4 % 256 else twelve % 256
  }

  function Octets(s: seq<Byte>, from: nat, n: nat): (bytes: seq<Byte>)
    ensures |bytes| == n
  {
    seq<Byte>(n, j requires 0 <= j < n => OctetAt(s, from + j))
  }

  // ---------------------------------------------------------------------------------------------------
  // One group
  // ---------------------------------------------------------------------------------------------------

  lemma CharacterMeans(s: seq<Byte>, k: nat)
    ensures Off(DecodeByte(CharOrPad(s, k))) <==> !IsCode(s, k)
    ensures Alien(CharOrPad(s, k)) <==> IsFatal(s, k)
    ensures IsCode(s, k) ==> DecodeByte(CharOrPad(s, k)) == (s[k] - ' ' as int) % 64
    ensures IsFatal(s, k) ==> !IsCode(s, k)
  {
  }

  lemma Twelve(a: Code, b: Code)
    ensures (a as int * 64 + b) / 16 == Octet0(a, b)
    ensures (a as int * 64 + b) / 4 % 256 == Octet1(a, b)
    ensures (a as int * 64 + b) % 256 == Octet2(a, b)
  {
    var twelve: nat := a as int * 64 + b;
    DivModUnique(twelve, 16, a * 4 + b / 16, b % 16);
    DivModUnique(twelve, 4, a as int * 16 + b / 4, b % 4);
    DivModUnique(a as int * 16 + b / 4, 256, a / 16, a % 16 * 16 + b / 4);
    DivModUnique(twelve, 256, a / 4, a % 4 * 64 + b);
  }

  lemma OctetsOfGroup(s: seq<Byte>, q: nat)
    ensures OctetAt(s, 3 * q) == Octet0(Bits(s, 1 + 4 * q), Bits(s, 2 + 4 * q))
    ensures OctetAt(s, 3 * q + 1) == Octet1(Bits(s, 2 + 4 * q), Bits(s, 3 + 4 * q))
    ensures OctetAt(s, 3 * q + 2) == Octet2(Bits(s, 3 + 4 * q), Bits(s, 4 + 4 * q))
  {
    hide Bits, Octet0, Octet1, Octet2;
    DivModUnique(3 * q, 3, q, 0);
    DivModUnique(3 * q + 1, 3, q, 1);
    DivModUnique(3 * q + 2, 3, q, 2);
    Twelve(Bits(s, 1 + 4 * q), Bits(s, 2 + 4 * q));
    Twelve(Bits(s, 2 + 4 * q), Bits(s, 3 + 4 * q));
    Twelve(Bits(s, 3 + 4 * q), Bits(s, 4 + 4 * q));
  }

  lemma BitsOfGroup(s: seq<Byte>, q: nat)
    ensures var i, off1 := 1 + 4 * q, !IsCode(s, 1 + 4 * q) || !IsCode(s, 2 + 4 * q);
      && Bits(s, i) == (if off1 then 0 else DecodeByte(CharOrPad(s, i)))
      && Bits(s, i + 1) == (if off1 then 0 else DecodeByte(CharOrPad(s, i + 1)))
      && Bits(s, i + 2) == (if IsCode(s, i + 2) then DecodeByte(CharOrPad(s, i + 2)) else 0)
      && Bits(s, i + 3) == (if IsCode(s, i + 3) then DecodeByte(CharOrPad(s, i + 3)) else 0)
  {
    hide DecodeByte, CharOrPad, IsCode, IsFatal, Alien;
    var i := 1 + 4 * q;
    CharacterMeans(s, i);
    CharacterMeans(s, i + 1);
    CharacterMeans(s, i + 2);
    CharacterMeans(s, i + 3);
    DivModUnique(i, 4, q, 1);
    DivModUnique(i + 1, 4, q, 2);
    DivModUnique(i + 2, 4, q, 3);
    DivModUnique(i + 3, 4, q + 1, 0);
  }

  /** One group: given up because of a fatal character among those that are needed, or its bytes. */
  lemma GroupMeans(s: seq<Byte>, q: nat, want: nat)
    requires want > 0
    ensures var i, w := 1 + 4 * q, if want < 3 then want else 3;
      DecodeGroup(CharOrPad(s, i), CharOrPad(s, i + 1), CharOrPad(s, i + 2), CharOrPad(s, i + 3), want)
      == if exists k | i <= k < i + w + 1 :: IsFatal(s, k) then None
         else Some(Decoded(Octets(s, 3 * q, w), !AllCodes(s, i, w + 1)))
  {
    hide DecodeByte, CharOrPad, IsCode, IsFatal, Alien, Octet0, Octet1, Octet2, OctetAt, Bits, Off;
    var i, w := 1 + 4 * q, if want < 3 then want else 3;
    CharacterMeans(s, i);
    CharacterMeans(s, i + 1);
    CharacterMeans(s, i + 2);
    CharacterMeans(s, i + 3);
    BitsOfGroup(s, q);
    OctetsOfGroup(s, q);
    assert Octets(s, 3 * q, 1) == [OctetAt(s, 3 * q)];
    assert Octets(s, 3 * q, 2) == [OctetAt(s, 3 * q), OctetAt(s, 3 * q + 1)];
    assert Octets(s, 3 * q, 3) == [OctetAt(s, 3 * q), OctetAt(s, 3 * q + 1), OctetAt(s, 3 * q + 2)];
  }

  // ---------------------------------------------------------------------------------------------------
  // Lines
  // ---------------------------------------------------------------------------------------------------

  /** The rest of the groups. */
  lemma {:induction false} GroupsMean(s: seq<Byte>, q: nat, want: nat)
    ensures var i := 1 + 4 * q;
      DecodeGroups(s, i, want)
      == if GivenUp(s, i, want) then None
         else Some(Decoded(Octets(s, 3 * q, want), !AllCodes(s, i, Needed(want))))
    decreases want
  {
    hide DecodeGroup, CharOrPad, IsCode, IsFatal, OctetAt;
    var i := 1 + 4 * q;
    if want > 0 && i < |s| {
      GroupMeans(s, q, want);
      if want > 3 {
        GroupsMean(s, q + 1, want - 3);
        OneGroupMore(s, q, want);
      } else {
        assert Needed(want) == want + 1;
        assert Octets(s, 3 * q, want) + [] == Octets(s, 3 * q, want);
      }
    }
  }

  lemma OneGroupMore(s: seq<Byte>, q: nat, want: nat)
    requires want > 3 && 1 + 4 * q < |s|
    ensures var i := 1 + 4 * q;
      && (GivenUp(s, i, want) <==> (exists k | i <= k < i + 4 :: IsFatal(s, k)) || GivenUp(s, i + 4, want - 3))
      && Octets(s, 3 * q, want) == Octets(s, 3 * q, 3) + Octets(s, 3 * (q + 1), want - 3)
      && (AllCodes(s, i, Needed(want)) <==> AllCodes(s, i, 4) && AllCodes(s, i + 4, Needed(want - 3)))
  {
    hide IsCode, IsFatal, OctetAt;
    assert Needed(want) == 4 + Needed(want - 3) by {
      DivModUnique(want, 3, (want - 3) / 3 + 1, (want - 3) % 3);
    }
    DivModUnique(want - 1, 3, (want - 4) / 3 + 1, (want - 4) % 3);
  }

  /** What any line decodes to: nothing if its length does not fit or it is given up; otherwise its bytes, and it is
      bad if a character that is needed is missing or stands for nothing. */
  lemma LineMeans(s: seq<Byte>)
    requires s != []
    ensures DecodeLine(s)
            == if !LengthFits(s) || GivenUp(s, 1, LengthOf(s)) then Decoded([], true)
               else Decoded(Octets(s, 0, LengthOf(s)), !GoodLine(s))
  {
    hide DecodeGroups, GivenUp, Octets, AllCodes;
    if LengthFits(s) {
      GroupsMean(s, 0, LengthOf(s));
    }
  }

  lemma GivenUpIsBad(s: seq<Byte>, want: nat)
    requires GivenUp(s, 1, want)
    ensures !AllCodes(s, 1, Needed(want))
  {
    if k :| 1 <= k < 1 + Needed(want) && IsFatal(s, k) {
      assert !IsCode(s, k);
    } else {
      assert !IsCode(s, 1 + (want - 1) / 3 * 4);
    }
  }

  /** A line is good exactly when its first character stands for at most 45 bytes and every character that these bytes
      need is in the line and is a code; then it holds these bytes. */
  lemma GoodLineIff(s: seq<Byte>)
    requires s != []
    ensures !DecodeLine(s).bad <==> GoodLine(s)
    ensures GoodLine(s) ==> DecodeLine(s).bytes == Octets(s, 0, LengthOf(s))
  {
    hide DecodeLine, GivenUp, Octets, AllCodes;
    LineMeans(s);
    if LengthFits(s) && GivenUp(s, 1, LengthOf(s)) {
      GivenUpIsBad(s, LengthOf(s));
    }
  }

  lemma ThreeFewer(n: nat, m: nat)
    requires n > 0 && m == if n < 3 then 0 else n - 3
    ensures (n + 2) / 3 == (m + 2) / 3 + 1
  {
    if n >= 3 {
      DivModUnique(n + 2, 3, (m + 2) / 3 + 1, (m + 2) % 3);
    }
  }

  lemma {:induction false} EncodedGroupsLength(x: seq<Byte>)
    ensures |EncodeGroups(x)| == (|x| + 2) / 3 * 4
    decreases |x|
  {
    hide EncodeByte, Sextet0, Sextet1, Sextet2, Sextet3;
    if x != [] {
      var rest := x[Min(3, |x|)..];
      EncodedGroupsLength(rest);
      ThreeFewer(|x|, |rest|);
    }
  }

  lemma NeededForByte(j: nat, n: nat)
    requires j < n
    ensures 1 + j / 3 * 4 + j % 3 + 1 < 1 + Needed(n)
  {
    if j / 3 < n / 3 {
      assert j / 3 * 4 + 4 <= n / 3 * 4;
    } else {
      assert j / 3 == n / 3 && j % 3 < n % 3;
    }
  }

  /** Lines with the same characters where they are needed hold the same bytes. */
  lemma SameOctets(s: seq<Byte>, s': seq<Byte>, n: nat)
    requires Needed(n) < |s| && Needed(n) < |s'| && forall k | 1 <= k < 1 + Needed(n) :: s[k] == s'[k]
    ensures AllCodes(s, 1, Needed(n)) == AllCodes(s', 1, Needed(n))
    ensures Octets(s, 0, n) == Octets(s', 0, n)
  {
    forall k | 1 <= k < 1 + Needed(n)
      ensures IsCode(s, k) == IsCode(s', k)
    {
    }
    forall j | 0 <= j < n
      ensures OctetAt(s, j) == OctetAt(s', j)
    {
      NeededForByte(j, n);
      SameBits(s, s', 1 + j / 3 * 4 + j % 3, n);
    }
  }

  lemma SameBits(s: seq<Byte>, s': seq<Byte>, k: nat, n: nat)
    requires Needed(n) < |s| && Needed(n) < |s'| && forall k | 1 <= k < 1 + Needed(n) :: s[k] == s'[k]
    requires 1 <= k && k + 1 < 1 + Needed(n) && k % 4 != 0
    ensures Bits(s, k) == Bits(s', k) && Bits(s, k + 1) == Bits(s', k + 1)
  {
    assert s[k] == s'[k] && s[k + 1] == s'[k + 1] && (k > 1 ==> s[k - 1] == s'[k - 1]);
    if k % 4 < 3 {
      DivModUnique(k + 1, 4, k / 4, k % 4 + 1);
    } else {
      DivModUnique(k + 1, 4, k / 4 + 1, 0);
    }
  }

  lemma EncodedIsGood(x: seq<Byte>)
    requires |x| <= 45
    ensures var e := EncodeLine(x);
      GoodLine(e) && LengthOf(e) == |x| && Octets(e, 0, |x|) == x && |e| >= 1 + Needed(|x|)
  {
    hide DecodeLine, EncodeGroups, AllCodes;
    LineRoundTrip(x);
    GoodLineIff(EncodeLine(x));
    EncodedGroupsLength(x);
  }

  /** An encoded line that is cut off in front of a character that is needed is bad; what is cut off or put on behind
      those characters does not matter. */
  lemma CutLine(x: seq<Byte>, m: nat, more: seq<Byte>)
    requires |x| <= 45 && 1 <= m <= |EncodeLine(x)|
    ensures m < 1 + Needed(|x|) ==> DecodeLine(EncodeLine(x)[..m]).bad
    ensures m >= 1 + Needed(|x|) ==> DecodeLine(EncodeLine(x)[..m] + more) == Decoded(x, false)
  {
    hide DecodeLine, EncodeLine, Octets, OctetAt, EncodeGroups, Needed;
    var e := EncodeLine(x);
    EncodedIsGood(x);
    if m < 1 + Needed(|x|) {
      var s := e[..m];
      assert LengthFits(s) && LengthOf(s) == |x|;
      assert !IsCode(s, m);
      GoodLineIff(s);
    } else {
      var s := e[..m] + more;
      assert LengthFits(s) && LengthOf(s) == |x|;
      SameOctets(e, s, |x|);
      GoodLineIff(s);
    }
  }

  /** The encoder's output: a length character, four printable characters for every three bytes, CR and LF, and then
      the lines of what is left. */
  lemma EncodedInLines(x: seq<Byte>)
    requires x != []
    ensures var n, e := if |x| < 45 then |x| else 45, Encode(x);
      var m := 1 + (n + 2) / 3 * 4;
      && |e| >= m + 2 && e[0] == ' ' as int + n && (forall k | 1 <= k < m :: '!' as int <= e[k] <= '`' as int)
      && e[m] == '\r' as int && e[m + 1] == '\n' as int && e[m + 2..] == Encode(x[n..])
  {
    hide EncodeGroups;
    var n := Min(45, |x|);
    var groups := EncodeGroups(x[..n]);
    EncodedGroupsLength(x[..n]);
    CodesOnly(x[..n]);
    var e, line := Encode(x), [EncodeByte(n)] + groups;
    assert e == line + EOL + Encode(x[n..]);
    forall k | 1 <= k < |line|
      ensures 33 <= e[k] <= 96
    {
      assert e[k] == groups[k - 1] && groups[k - 1] in groups;
    }
    assert e[|line|] == EOL[0] && e[|line| + 1] == EOL[1];
  }
}
