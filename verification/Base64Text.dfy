/** What a Base64 text means, from its characters alone (section 5.2 of RFC 1341), and that the codec of Base64 agrees
    with it (deps/bstrlib/bstraux.c:295-498): the alphabet, the bytes, and when a text counts as truncated. */
module Base64Text {
  import opened Arith
  import opened Bstrings
  import opened Seqs
  import opened Sextets
  import opened Base64

  // ---------------------------------------------------------------------------------------------------
  // The alphabet
  // ---------------------------------------------------------------------------------------------------

  const CAPITALS := "ABCDEFGHIJKLMNOPQRSTUVWXYZ"
  const SMALL := "abcdefghijklmnopqrstuvwxyz"
  const DIGITS := "0123456789"
  const ALPHABET := CAPITALS + SMALL + DIGITS + "+/"

  /** The place of a character in a list of them, or the length of the list. */
  function Place(b: Byte, list: string): (k: nat)
    ensures k <= |list|
  {
    if list == "" || list[0] as int == b then 0 else 1 + Place(b, list[1..])
  }

  lemma {:induction false} PlaceOf(b: Byte, list: string, k: nat)
    requires k <= |list| && (k < |list| ==> list[k] as int == b) && forall j | 0 <= j < k :: list[j] as int != b
    ensures Place(b, list) == k
  {
    if k > 0 {
      PlaceOf(b, list[1..], k - 1);
    }
  }

  lemma Runs()
    ensures |CAPITALS| == 26 && forall i | 0 <= i < 26 :: CAPITALS[i] as int == 65 + i
    ensures |SMALL| == 26 && forall i | 0 <= i < 26 :: SMALL[i] as int == 97 + i
    ensures |DIGITS| == 10 && forall i | 0 <= i < 10 :: DIGITS[i] as int == 48 + i
  {
  }

  /** The encoder's symbols are the characters of the alphabet, in order. */
  lemma SymbolIsInAlphabet(c: Code)
    ensures |ALPHABET| == 64 && ALPHABET[c] as int == Symbol(c)
  {
    Runs();
  }

  lemma PlaceBySymbols(b: Byte, list: string)
    requires |list| == 64 && forall c: Code :: list[c] as int == Symbol(c)
    ensures DecodeSymbol(b) == if Place(b, list) < 64 then Place(b, list) else if b == '=' as int then -2 else -1
  {
    hide Place;
    if 0 <= DecodeSymbol(b) {
      PlaceOf(b, list, DecodeSymbol(b));
    } else {
      PlaceOf(b, list, 64);
    }
  }

  /** The decoder takes each for its place, and tells the padding from what means nothing. */
  lemma DecodeSymbolIsPlace(b: Byte)
    ensures |ALPHABET| == 64
    ensures DecodeSymbol(b)
            == if Place(b, ALPHABET) < 64 then Place(b, ALPHABET) else if b == '=' as int then -2 else -1
  {
    hide Symbol, DecodeSymbol, Place;
    forall c: Code
      ensures |ALPHABET| == 64 && ALPHABET[c] as int == Symbol(c)
    {
      SymbolIsInAlphabet(c);
    }
    assert |ALPHABET| == 64 by { SymbolIsInAlphabet(0); }
    PlaceBySymbols(b, ALPHABET);
  }

  // ---------------------------------------------------------------------------------------------------
  // Texts
  // ---------------------------------------------------------------------------------------------------

  const EQUALS: Byte := 61

  /** The values of the characters of the alphabet in front of the first '='; other characters mean nothing. */
  function Values(text: seq<Byte>): seq<Code> {
    if text == [] || text[0] == EQUALS then []
    else (if Place(text[0], ALPHABET) < 64 then [Place(text[0], ALPHABET)] else []) + Values(text[1..])
  }

  /** The text from the first '=' on. */
  function Ending(text: seq<Byte>): seq<Byte> {
    if text == [] || text[0] == EQUALS then text else Ending(text[1..])
  }

  /** Whole groups of four, or two symbols and "==", or three and "=". */
  predicate Complete(text: seq<Byte>) {
    var n, end := |Values(text)|, Ending(text);
    || (n % 4 == 0 && end == [])
    || (n % 4 == 2 && |end| > 1 && end[1] == EQUALS)
    || (n % 4 == 3 && end != [])
  }

  /** Eight of the twelve bits of two neighbours. */
  function OctetAt(v: seq<Code>, j: nat): Byte
    requires j / 3 * 4 + j % 3 + 1 < |v|
  {
    var i := j / 3 * 4 + j % 3;
    var twelve: nat := v[i] as int * 64 + v[i + 1];
    if j % 3 == 0 then twelve / 16 else if j % 3 == 1 then twelve / 4 % 256 else twelve % 256
  }

  /** Three bytes for each group of four symbols; one or two for the rest if it is padded. */
  function ByteCount(text: seq<Byte>): (n: nat)
    ensures forall j | 0 <= j < n :: j / 3 * 4 + j % 3 + 1 < |Values(text)|
  {
    var n := |Values(text)|;
    n / 4 * 3 + if !Complete(text) || n % 4 < 2 then 0 else n % 4 - 1
  }

  function Octets(v: seq<Code>, n: nat): (bytes: seq<Byte>)
    requires forall j | 0 <= j < n :: j / 3 * 4 + j % 3 + 1 < |v|
    ensures |bytes| == n
  {
    seq(n, j requires 0 <= j < n => OctetAt(v, j))
  }

  // ---------------------------------------------------------------------------------------------------
  // The decoder
  // ---------------------------------------------------------------------------------------------------

  /** Skipping what means nothing. */
  lemma {:induction false} SkipKeeps(text: seq<Byte>)
    ensures var r := Skip(text);
      && Values(r) == Values(text) && Ending(r) == Ending(text)
      && (r != [] && r[0] != EQUALS ==> Place(r[0], ALPHABET) < 64 && Value(r[0]) == Place(r[0], ALPHABET))
  {
    if text != [] {
      hide Place, DecodeSymbol;
      DecodeSymbolIsPlace(text[0]);
      if Meaningless(text[0]) {
        SkipKeeps(text[1..]);
        assert [] + Values(text[1..]) == Values(text[1..]);
      }
    }
  }

  /** The next symbol that means something, or the end. */
  lemma NextValue(text: seq<Byte>)
    ensures var r := Skip(text);
      && (r == [] <==> Values(text) == [] && Ending(text) == [])
      && (Values(text) == [] ==> Ending(text) == r)
      && (Values(text) != [] ==>
            r != [] && r[0] != EQUALS && Values(text)[0] == Value(r[0])
            && Values(r[1..]) == Values(text)[1..] && Ending(r[1..]) == Ending(text))
      && (r != [] ==> (r[0] == EQUALS <==> Values(text) == []))
  {
    hide Place, Skip, Value;
    SkipKeeps(text);
  }

  lemma Twelve(a: Code, b: Code)
    ensures (a as int * 64 + b) / 16 == Octet0(a, b)
    ensures (a as int * 64 + b) / 4 % 256 == Octet1(a, b)
    ensures (a as int * 64 + b) % 256 == Octet2(a, b)
  {
    var twelve: nat := a as int * 64 + b;
    DivModUnique(twelve, 16, a * 4 + b / 16, b % 16);
    DivModUnique(twelve, 4, a as int * 16 + b / 4, b % 4);
    DivModUnique(a as int * 16 + b / 4, 256, a / 16, a % 16 * 16 + b / 4);
    DivModUnique(twelve, 256, a / 4, a % 4 * 64 + b);
  }

  lemma FirstOctets(v: seq<Code>)
    ensures |v| >= 2 ==> Octet0(v[0], v[1]) == OctetAt(v, 0)
    ensures |v| >= 3 ==> Octet1(v[1], v[2]) == OctetAt(v, 1)
    ensures |v| >= 4 ==> Octet2(v[2], v[3]) == OctetAt(v, 2)
  {
    hide Octet0, Octet1, Octet2;
    if |v| >= 2 {
      Twelve(v[0], v[1]);
    }
    if |v| >= 3 {
      Twelve(v[1], v[2]);
    }
    if |v| >= 4 {
      Twelve(v[2], v[3]);
    }
  }

  /** One turn of the decoder. */
  lemma QuadMeans(text: seq<Byte>) returns (rest: seq<Byte>)
    ensures var v := Values(text);
      if |v| >= 4 then
        && |rest| < |text| && Values(rest) == v[4..] && Ending(rest) == Ending(text)
        && DecodeQuad(text) == Full(Octets(v, 3), rest)
      else DecodeQuad(text) == End(Decoded(Octets(v, ByteCount(text)), !Complete(text)))
  {
    hide Skip, Value, Values, Ending, OctetAt, Octet0, Octet1, Octet2;
    var v := Values(text);
    FirstOctets(v);
    var s0 := Skip(text);
    NextValue(text);
    rest := text;
    if |v| >= 1 {
      var s1 := Skip(s0[1..]);
      NextValue(s0[1..]);
      if |v| >= 2 {
        var s2 := Skip(s1[1..]);
        NextValue(s1[1..]);
        if |v| >= 3 {
          var s3 := Skip(s2[1..]);
          NextValue(s2[1..]);
          if |v| >= 4 {
            rest := s3[1..];
          }
        }
      }
    }
    assert |v| == 2 ==> Octets(v, 1) == [OctetAt(v, 0)];
    assert |v| == 3 ==> Octets(v, 2) == [OctetAt(v, 0), OctetAt(v, 1)];
    assert |v| >= 4 ==> Octets(v, 3) == [OctetAt(v, 0), OctetAt(v, 1), OctetAt(v, 2)];
  }

  lemma OctetsConcat(v: seq<Code>, n: nat)
    requires |v| >= 4 && n >= 3 && forall j | 0 <= j < n :: j / 3 * 4 + j % 3 + 1 < |v|
    requires forall j | 0 <= j < n - 3 :: j / 3 * 4 + j % 3 + 1 < |v[4..]|
    ensures Octets(v, n) == Octets(v, 3) + Octets(v[4..], n - 3)
  {
    forall j | 3 <= j < n
      ensures OctetAt(v, j) == OctetAt(v[4..], j - 3)
    {
      assert (j - 3) / 3 == j / 3 - 1 && (j - 3) % 3 == j % 3;
    }
  }

  /** The decoder gives every text its bytes, and says that it is truncated if and only if it is not complete. */
  lemma {:induction false} DecodeMeans(text: seq<Byte>)
    ensures Decode(text).bytes == Octets(Values(text), ByteCount(text))
    ensures Decode(text).truncated <==> !Complete(text)
    decreases |text|
  {
    hide Values, Ending, DecodeQuad, Octets;
    var v := Values(text);
    var rest := QuadMeans(text);
    if |v| >= 4 {
      DecodeMeans(rest);
      assert |v| % 4 == (|v| - 4) % 4 && |v| / 4 == (|v| - 4) / 4 + 1;
      assert ByteCount(text) == 3 + ByteCount(rest);
      OctetsConcat(v, ByteCount(text));
    }
  }

  // ---------------------------------------------------------------------------------------------------
  // The encoder
  // ---------------------------------------------------------------------------------------------------

  /** A character of the alphabet, or padding. */
  predicate Drawn(b: Byte, padding: bool) {
    Place(b, ALPHABET) < 64 || (padding && b == EQUALS)
  }

  lemma SymbolDrawn(c: Code)
    ensures Drawn(Symbol(c), false)
  {
    hide Place;
    SymbolRoundTrip(c);
    DecodeSymbolIsPlace(Symbol(c));
  }

  /** Only the last two characters of a text may be padding, and only when its length is not a multiple of 3. */
  predicate AllDrawn(text: seq<Byte>, padded: bool) {
    forall k | 0 <= k < |text| :: Drawn(text[k], padded && k + 2 >= |text|)
  }

  lemma GroupDrawn(a: Byte, b: Byte, c: Byte)
    ensures AllDrawn(Group(a, b, c), false)
  {
    hide Drawn, Symbol, Sextet0, Sextet1, Sextet2, Sextet3;
    SymbolDrawn(Sextet0(a));
    SymbolDrawn(Sextet1(a, b));
    SymbolDrawn(Sextet2(b, c));
    SymbolDrawn(Sextet3(c));
  }

  lemma LastGroupDrawn(x: seq<Byte>)
    requires 1 <= |x| <= 2
    ensures AllDrawn(LastGroup(x), true)
  {
    hide Symbol, Sextet0, Sextet1, Sextet2, Place;
    SymbolDrawn(Sextet0(x[0]));
    SymbolDrawn(Sextet1(x[0], if |x| == 2 then x[1] else 0));
    SymbolDrawn(Sextet2(if |x| == 2 then x[1] else 0, 0));
  }

  lemma NothingDrawn(padded: bool)
    ensures AllDrawn([], padded)
  {
  }

  lemma {:induction false} GroupsDrawn(x: seq<Byte>)
    ensures AllDrawn(Groups(x), |x| % 3 != 0)
    decreases |x|
  {
    hide AllDrawn, Group, LastGroup;
    NothingDrawn(|x| % 3 != 0);
    if 1 <= |x| <= 2 {
      LastGroupDrawn(x);
    } else if |x| >= 3 {
      GroupDrawn(x[0], x[1], x[2]);
      GroupsDrawn(x[3..]);
      DrawnConcat(Group(x[0], x[1], x[2]), Groups(x[3..]), |x| % 3 != 0);
    }
  }

  lemma DrawnConcat(g: seq<Byte>, rest: seq<Byte>, padded: bool)
    requires AllDrawn(g, false) && AllDrawn(rest, padded)
    ensures AllDrawn(g + rest, padded)
  {
    hide Place;
    forall k | 0 <= k < |g + rest|
      ensures Drawn((g + rest)[k], padded && k + 2 >= |g + rest|)
    {
      assert if k < |g| then Drawn(g[k], false) else Drawn(rest[k - |g|], padded && k - |g| + 2 >= |rest|);
    }
  }

  /** Lines of 76 characters with CR and LF behind each. */
  predicate Lines(text: seq<Byte>, padded: bool) {
    forall k | 0 <= k < |text| :: Column(text[k], k % 78, padded && k + 2 >= |text|)
  }

  predicate Column(b: Byte, column: nat, padding: bool) {
    if column == 76 then b == '\r' as int else if column == 77 then b == '\n' as int else Drawn(b, padding)
  }

  lemma OneLine(text: seq<Byte>, padded: bool)
    requires AllDrawn(text, padded) && |text| <= 76
    ensures Lines(text, padded)
  {
    hide Drawn;
  }

  lemma LineAndLines(line: seq<Byte>, rest: seq<Byte>, padded: bool)
    requires AllDrawn(line, false) && |line| == 76 && Lines(rest, padded)
    ensures Lines(line + CRLF + rest, padded)
  {
    hide Drawn, Column;
    var text := line + CRLF + rest;
    forall k | 0 <= k < |text|
      ensures Column(text[k], k % 78, padded && k + 2 >= |text|)
    {
      if k < 78 {
        FirstColumns(line, k, padded && k + 2 >= |text|);
      } else {
        assert text[k] == rest[k - 78] && (k - 78) % 78 == k % 78;
      }
    }
  }

  lemma FirstColumns(line: seq<Byte>, k: nat, padding: bool)
    requires AllDrawn(line, false) && |line| == 76 && k < 78
    ensures Column((line + CRLF)[k], k, padding)
  {
    hide Place;
  }

  lemma {:induction false} EncodedLength(x: seq<Byte>)
    ensures |Encode(x)| == |x| / 57 * 78 + (|x| % 57 + 2) / 3 * 4
    decreases |x|
  {
    hide Groups;
    if |x| < LINE {
      GroupsLength(x);
    } else {
      GroupsLength(x[..LINE]);
      EncodedLength(x[LINE..]);
      DivModUnique(|x|, 57, (|x| - 57) / 57 + 1, (|x| - 57) % 57);
    }
  }

  /** The encoder's output in lines. */
  lemma {:induction false} EncodedInLines(x: seq<Byte>)
    ensures Lines(Encode(x), |x| % 3 != 0)
    decreases |x|
  {
    hide Groups, Lines, AllDrawn;
    if |x| < LINE {
      GroupsLength(x);
      GroupsDrawn(x);
      OneLine(Groups(x), |x| % 3 != 0);
    } else {
      var line := x[..LINE];
      GroupsLength(line);
      GroupsDrawn(line);
      EncodedInLines(x[LINE..]);
      assert |x[LINE..]| % 3 == |x| % 3 && |line| % 3 == 0;
      LineAndLines(Groups(line), Encode(x[LINE..]), |x| % 3 != 0);
    }
  }
}
