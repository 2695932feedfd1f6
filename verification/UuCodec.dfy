/** UU encoding and decoding through a pair of streams (deps/bstrlib/bstraux.c:500-758). */
module UuCodec {
  import opened Bstrings
  import opened ReadStream
  import opened Seqs
  import opened Wrappers
  import opened Sextets
  import opened BitSmear

  const MAX_LINELEN: nat := 45
  const EOL: seq<Byte> := [13, 10]

  // ---------------------------------------------------------------------------------------------------
  // Encoding
  // ---------------------------------------------------------------------------------------------------

  /** UU_ENCODE_BYTE. */
  function EncodeByte(b: Code): Byte {
    if b == 0 then 96 else b + 32
  }

  function EncodeGroup(c0: Byte, c1: Byte, c2: Byte): seq<Byte> {
    [EncodeByte(Sextet0(c0)), EncodeByte(Sextet1(c0, c1)), EncodeByte(Sextet2(c1, c2)), EncodeByte(Sextet3(c2))]
  }

  /** `bchar`: past the end of the string there are zeros. */
  function CharAt(s: seq<Byte>, i: nat): Byte {
    if i < |s| then s[i] else 0
  }

  function EncodeGroups(x: seq<Byte>): seq<Byte> {
    if x == [] then []
    else EncodeGroup(x[0], CharAt(x, 1), CharAt(x, 2)) + EncodeGroups(x[Min(3, |x|)..])
  }

  /** One line without its end. */
  function EncodeLine(x: seq<Byte>): seq<Byte>
    requires |x| <= MAX_LINELEN
  {
    [EncodeByte(|x|)] + EncodeGroups(x)
  }

  function Encode(x: seq<Byte>): seq<Byte> {
    if x == [] then []
    else
      var n := Min(MAX_LINELEN, |x|);
      EncodeLine(x[..n]) + EOL + Encode(x[n..])
  }

  /** The group at j, read from the whole source: a line that is not the last one holds full groups. */
  lemma GroupAt(src: seq<Byte>, j: nat, jm: nat)
    requires j < jm <= |src| && (jm == |src| || (jm - j) % 3 == 0)
    ensures EncodeGroups(src[j..jm])
         == EncodeGroup(src[j], CharAt(src, j + 1), CharAt(src, j + 2)) + EncodeGroups(src[Min(j + 3, jm)..jm])
  {
    var x := src[j..jm];
    assert x[Min(3, |x|)..] == src[Min(j + 3, jm)..jm];
    assert CharAt(x, 1) == CharAt(src, j + 1) && CharAt(x, 2) == CharAt(src, j + 2);
  }

  method AppendGroup(out: Bstring, c0: Byte, c1: Byte, c2: Byte)
    requires out.Valid()
    modifies out, out.data
    ensures out.Valid() && out.Contents() == old(out.Contents()) + EncodeGroup(c0, c1, c2)
    ensures out.data == old(out.data) || fresh(out.data)
  {
    hide Bstring.Contents, EncodeByte;
    out.Conchar(EncodeByte(Sextet0(c0)));
    out.Conchar(EncodeByte(Sextet1(c0, c1)));
    out.Conchar(EncodeByte(Sextet2(c1, c2)));
    out.Conchar(EncodeByte(Sextet3(c2)));
  }

  /** One turn of the outer loop: length, groups and line end. */
  method AppendLine(out: Bstring, src: seq<Byte>, i: nat, jm: nat)
    requires out.Valid() && i < jm <= |src| && jm == Min(i + MAX_LINELEN, |src|)
    modifies out, out.data
    ensures out.Valid() && out.Contents() == old(out.Contents()) + EncodeLine(src[i..jm]) + EOL
    ensures out.data == old(out.data) || fresh(out.data)
  {
    hide Bstring.Contents, EncodeGroup, EncodeGroups, EncodeByte;
    ghost var o0, goal := out.Contents(), [EncodeByte(jm - i)] + EncodeGroups(src[i..jm]);
    out.Conchar(EncodeByte(jm - i));
    ConcatAssoc(o0, [EncodeByte(jm - i)], EncodeGroups(src[i..jm]));
    var j := i;
    while j < jm
      invariant i <= j && (jm == |src| || (j <= jm && (jm - j) % 3 == 0))
      invariant out.Valid() && (out.data == old(out.data) || fresh(out.data))
      invariant out.Contents() + EncodeGroups(src[Min(j, jm)..jm]) == o0 + goal
      decreases jm - j
    {
      ghost var o1 := out.Contents();
      GroupAt(src, j, jm);
      ghost var group := EncodeGroup(src[j], CharAt(src, j + 1), CharAt(src, j + 2));
      ConcatAssoc(o1, group, EncodeGroups(src[Min(j + 3, jm)..jm]));
      AppendGroup(out, src[j], CharAt(src, j + 1), CharAt(src, j + 2));
      j := j + 3;
    }
    NoGroups(src, jm, out.Contents());
    out.Conchar(13);
    out.Conchar(10);
    assert [13] + [10] == EOL;
    ConcatAssoc(o0 + goal, [13], [10]);
  }

  lemma NoGroups(src: seq<Byte>, jm: nat, o: seq<Byte>)
    requires jm <= |src|
    ensures o + EncodeGroups(src[jm..jm]) == o
  {
  }

  /** `bUuEncode`. */
  method UuEncode(src: seq<Byte>) returns (out: Bstring)
    ensures fresh(out) && fresh(out.data) && out.Valid() && out.Contents() == Encode(src)
  {
    hide Bstring.Contents, EncodeLine;
    out := new Bstring.Empty();
    var i := 0;
    assert src[0..] == src && [] + Encode(src) == Encode(src);
    while i < |src|
      invariant fresh(out) && fresh(out.data) && out.Valid()
      invariant out.Contents() + Encode(src[Min(i, |src|)..]) == Encode(src)
      decreases |src| - i
    {
      var jm := Min(i + MAX_LINELEN, |src|);
      ghost var o, x := out.Contents(), src[i..];
      assert x[..jm - i] == src[i..jm] && x[jm - i..] == src[jm..];
      AppendLine(out, src, i, jm);
      ConcatAssoc3(o, EncodeLine(src[i..jm]), EOL, Encode(src[jm..]));
      i := i + MAX_LINELEN;
    }
    assert src[|src|..] == [];
  }

  lemma ConcatAssoc3(a: seq<Byte>, b: seq<Byte>, c: seq<Byte>, d: seq<Byte>)
    ensures a + b + c + d == a + (b + c + d)
  {
  }

  // ---------------------------------------------------------------------------------------------------
  // Decoding a line
  // ---------------------------------------------------------------------------------------------------

  /** UU_DECODE_BYTE. */
  function DecodeByte(d: int): int {
    if d == 96 then 0 else d - 32
  }

  /** `bchare`: past the end of the line there are characters in front of the space. */
  function CharOrPad(s: seq<Byte>, i: nat): int {
    if i < |s| then s[i] else 31
  }

  predicate Off(c: int) {
    c < 0 || 64 <= c
  }

  /** A character that is neither a code, white space nor padding: the whole line is given up. */
  predicate Alien(d: int) {
    d > 96 || (d < 31 && !(9 <= d <= 13))
  }

  /** The bytes of a line, and whether it counts as bad. */
  datatype Decoded = Decoded(bytes: seq<Byte>, bad: bool)

  function CodeOf(d: int, off: bool): Code
    requires Off(DecodeByte(d)) ==> off
  {
    if off then 0 else DecodeByte(d)
  }

  /** Up to three bytes from four characters: None if the line is given up. */
  function DecodeGroup(d0: int, d1: int, d2: int, d3: int, want: nat): Option<Decoded>
    requires 0 < want
  {
    var off1 := Off(DecodeByte(d0)) || Off(DecodeByte(d1));
    var off2, off3 := Off(DecodeByte(d2)), Off(DecodeByte(d3));
    if off1 && (Alien(d0) || Alien(d1)) then None
    else
      var c0, c1, c2, c3 := CodeOf(d0, off1), CodeOf(d1, off1), CodeOf(d2, off2), CodeOf(d3, off3);
      if want == 1 then Some(Decoded([Octet0(c0, c1)], off1))
      else if off2 && Alien(d2) then None
      else if want == 2 then Some(Decoded([Octet0(c0, c1), Octet1(c1, c2)], off1 || off2))
      else if off3 && Alien(d3) then None
      else Some(Decoded([Octet0(c0, c1), Octet1(c1, c2), Octet2(c2, c3)], off1 || off2 || off3))
  }

  /** The groups from i on, until there are want bytes: None if the line is given up or too short. */
  function DecodeGroups(s: seq<Byte>, i: nat, want: nat): Option<Decoded>
    decreases want
  {
    if want == 0 then Some(Decoded([], false))
    else if |s| <= i then None
    else
      var g := DecodeGroup(CharOrPad(s, i), CharOrPad(s, i + 1), CharOrPad(s, i + 2), CharOrPad(s, i + 3), want);
      if g.None? || want <= 2 then g else Prepend(g.value, DecodeGroups(s, i + 4, want - 3))
  }

  function Prepend(d: Decoded, rest: Option<Decoded>): Option<Decoded> {
    if rest.None? then None else Some(Decoded(d.bytes + rest.value.bytes, d.bad || rest.value.bad))
  }

  lemma PrependNothing(d: Option<Decoded>)
    ensures Prepend(Decoded([], false), d) == d
  {
    if d.Some? {
      assert [] + d.value.bytes == d.value.bytes;
    }
  }

  /** One group more behind what is decoded already. */
  lemma PrependGroup(d: Decoded, s: seq<Byte>, i: nat, want: nat)
    requires i < |s| && 0 < want
    ensures var g := DecodeGroup(CharOrPad(s, i), CharOrPad(s, i + 1), CharOrPad(s, i + 2), CharOrPad(s, i + 3), want);
      && (g.None? ==> DecodeGroups(s, i, want) == None)
      && (g.Some? ==>
        && |g.value.bytes| == Min(3, want)
        && Prepend(d, DecodeGroups(s, i, want))
           == Prepend(Decoded(d.bytes + g.value.bytes, d.bad || g.value.bad),
                      DecodeGroups(s, i + 4, want - Min(3, want))))
  {
    var g := DecodeGroup(CharOrPad(s, i), CharOrPad(s, i + 1), CharOrPad(s, i + 2), CharOrPad(s, i + 3), want);
    GroupSize(CharOrPad(s, i), CharOrPad(s, i + 1), CharOrPad(s, i + 2), CharOrPad(s, i + 3), want);
    hide DecodeGroup;
    if g.Some? {
      var rest := DecodeGroups(s, i + 4, want - Min(3, want));
      if want <= 2 {
        assert d.bytes + g.value.bytes + [] == d.bytes + g.value.bytes;
      } else if rest.Some? {
        ConcatAssoc(d.bytes, g.value.bytes, rest.value.bytes);
      }
    }
  }

  lemma GroupSize(d0: int, d1: int, d2: int, d3: int, want: nat)
    requires 0 < want
    ensures var g := DecodeGroup(d0, d1, d2, d3, want); g.Some? ==> |g.value.bytes| == Min(3, want)
  {
  }

  function DecodeLine(s: seq<Byte>): Decoded {
    if s == [] then Decoded([], false)
    else
      var llen := DecodeByte(s[0]);
      if llen < 0 || MAX_LINELEN < llen then Decoded([], true)
      else
        match DecodeGroups(s, 1, llen)
        case None => Decoded([], true)
        case Some(d) => d
  }

  /** Decoding a group gives back the bytes it was made from. */
  lemma GroupRoundTrip(c0: Byte, c1: Byte, c2: Byte)
    ensures var g := EncodeGroup(c0, c1, c2);
      && |g| == 4 && (forall k | 0 <= k < 4 :: 33 <= g[k] <= 96 && !Off(DecodeByte(g[k])))
      && Octet0(DecodeByte(g[0]), DecodeByte(g[1])) == c0
      && Octet1(DecodeByte(g[1]), DecodeByte(g[2])) == c1
      && Octet2(DecodeByte(g[2]), DecodeByte(g[3])) == c2
  {
    hide Sextet0, Sextet1, Sextet2, Sextet3, Octet0, Octet1, Octet2, EncodeByte, DecodeByte;
    ByteRoundTrip(Sextet0(c0));
    ByteRoundTrip(Sextet1(c0, c1));
    ByteRoundTrip(Sextet2(c1, c2));
    ByteRoundTrip(Sextet3(c2));
    OctetsFromSextets(c0, c1, c2);
  }

  lemma ByteRoundTrip(b: Code)
    ensures DecodeByte(EncodeByte(b)) == b && 33 <= EncodeByte(b) <= 96
  {
  }

  /** A whole group decodes without complaint to as many of its bytes as are wanted. */
  lemma DecodesGroup(c0: Byte, c1: Byte, c2: Byte, want: nat)
    requires 0 < want
    ensures var g := EncodeGroup(c0, c1, c2);
      DecodeGroup(g[0], g[1], g[2], g[3], want) == Some(Decoded([c0, c1, c2][..Min(3, want)], false))
  {
    hide EncodeGroup, DecodeByte, Octet0, Octet1, Octet2, Alien;
    GroupRoundTrip(c0, c1, c2);
    var all := [c0, c1, c2];
    assert all[..1] == [c0] && all[..2] == [c0, c1] && all[..3] == all;
  }

  lemma {:induction false} GroupsRoundTrip(p: seq<Byte>, x: seq<Byte>)
    ensures DecodeGroups(p + EncodeGroups(x), |p|, |x|) == Some(Decoded(x, false))
    decreases |x|
  {
    hide DecodeGroup;
    if x != [] {
      var c1, c2, rest := CharAt(x, 1), CharAt(x, 2), x[Min(3, |x|)..];
      var g := EncodeGroup(x[0], c1, c2);
      var s := p + EncodeGroups(x);
      DecodesGroup(x[0], c1, c2, |x|);
      hide EncodeGroup;
      ConcatAssoc(p, g, EncodeGroups(rest));
      assert forall k | 0 <= k < 4 :: s[|p| + k] == g[k];
      assert x == [x[0], c1, c2][..Min(3, |x|)] + rest;
      if |x| <= 2 {
        assert rest == [] && x == [x[0], c1, c2][..|x|];
      } else {
        GroupsRoundTrip(p + g, rest);
      }
    }
  }

  /** `bUuDecLine` inverts one line of the encoder. */
  lemma LineRoundTrip(x: seq<Byte>)
    requires |x| <= MAX_LINELEN
    ensures DecodeLine(EncodeLine(x)) == Decoded(x, false)
  {
    ByteRoundTrip(|x|);
    GroupsRoundTrip([EncodeByte(|x|)], x);
  }

  // ---------------------------------------------------------------------------------------------------
  // Decoding a text of lines
  // ---------------------------------------------------------------------------------------------------

  /** What the terminated lines of v decode to, how many of them are bad, and what is behind the last of them. */
  function DecodeLines(v: seq<Byte>): seq<Byte> {
    var i := First(v, EOL);
    if i == |v| then [] else DecodeLine(v[..i]).bytes + DecodeLines(v[i + 1..])
  }

  function BadLines(v: seq<Byte>): nat {
    var i := First(v, EOL);
    if i == |v| then 0 else (if DecodeLine(v[..i]).bad then 1 else 0) + BadLines(v[i + 1..])
  }

  function Tail(v: seq<Byte>): seq<Byte> {
    var i := First(v, EOL);
    if i == |v| then v else Tail(v[i + 1..])
  }

  /** The bytes of the lines in front of the first bad one. */
  function GoodLines(v: seq<Byte>): seq<Byte> {
    var i := First(v, EOL);
    if i == |v| || DecodeLine(v[..i]).bad then [] else DecodeLine(v[..i]).bytes + GoodLines(v[i + 1..])
  }

  /** And those of the first bad line with them. */
  function ThroughBad(v: seq<Byte>): seq<Byte> {
    var i := First(v, EOL);
    if i == |v| then []
    else DecodeLine(v[..i]).bytes + if DecodeLine(v[..i]).bad then [] else ThroughBad(v[i + 1..])
  }

  /** Those of the first bad line alone. */
  function BadBytes(v: seq<Byte>): seq<Byte> {
    var i := First(v, EOL);
    if i == |v| then [] else if DecodeLine(v[..i]).bad then DecodeLine(v[..i]).bytes else BadBytes(v[i + 1..])
  }

  lemma {:induction false} ThroughIsGoodAndBad(v: seq<Byte>)
    ensures ThroughBad(v) == GoodLines(v) + BadBytes(v)
    decreases |v|
  {
    hide First, DecodeLine;
    var i := First(v, EOL);
    if i < |v| {
      var d := DecodeLine(v[..i]);
      if d.bad {
        assert d.bytes + [] == [] + d.bytes;
      } else {
        ThroughIsGoodAndBad(v[i + 1..]);
        ConcatAssoc(d.bytes, GoodLines(v[i + 1..]), BadBytes(v[i + 1..]));
      }
    }
  }

  lemma {:induction false} GoodIsFirst(v: seq<Byte>)
    ensures GoodLines(v) <= DecodeLines(v)
    decreases |v|
  {
    hide First, DecodeLine;
    var i := First(v, EOL);
    if i < |v| {
      GoodIsFirst(v[i + 1..]);
    }
  }

  /** Without a bad line, that is all lines. */
  lemma {:induction false} GoodIsAll(v: seq<Byte>)
    requires BadLines(v) == 0
    ensures GoodLines(v) == DecodeLines(v)
    decreases |v|
  {
    hide First, DecodeLine;
    var i := First(v, EOL);
    if i < |v| {
      GoodIsAll(v[i + 1..]);
    }
  }

  /** The first line of v + w when v holds it all. */
  lemma FirstLine(v: seq<Byte>, w: seq<Byte>)
    requires First(v, EOL) < |v|
    ensures var i := First(v, EOL); var d := DecodeLine(v[..i]);
      && DecodeLines(v + w) == d.bytes + DecodeLines(v[i + 1..] + w)
      && BadLines(v + w) == (if d.bad then 1 else 0) + BadLines(v[i + 1..] + w)
      && Tail(v + w) == Tail(v[i + 1..] + w)
      && ThroughBad(v + w) == d.bytes + (if d.bad then [] else ThroughBad(v[i + 1..] + w))
      && BadBytes(v + w) == if d.bad then d.bytes else BadBytes(v[i + 1..] + w)
  {
    hide First, DecodeLine;
    var i := First(v, EOL);
    FirstStays(v, w, EOL);
    CutFirst(v, w, i);
    CutFirst(v, w, i + 1);
  }

  /** No encoded line holds a line end. */
  lemma {:induction false} CodesOnly(x: seq<Byte>)
    ensures forall b | b in EncodeGroups(x) :: 33 <= b <= 96
  {
    if x != [] {
      GroupRoundTrip(x[0], CharAt(x, 1), CharAt(x, 2));
      CodesOnly(x[Min(3, |x|)..]);
    }
  }

  lemma LineIsWhole(x: seq<Byte>)
    requires |x| <= MAX_LINELEN
    ensures First(EncodeLine(x) + EOL, EOL) == |EncodeLine(x)|
  {
    CodesOnly(x);
    ByteRoundTrip(|x|);
    var line := EncodeLine(x);
    forall j | 0 <= j < |line|
      ensures (line + EOL)[j] !in EOL
    {
      assert (line + EOL)[j] == line[j] && line[j] in line;
    }
    FirstUnique(line + EOL, EOL, |line|);
  }

  /** Decoding inverts encoding, with no bad line. */
  lemma {:induction false} RoundTrip(x: seq<Byte>)
    ensures DecodeLines(Encode(x)) == x && BadLines(Encode(x)) == 0 && Tail(Encode(x)) == []
    decreases |x|
  {
    hide EncodeLine, DecodeLine, First;
    if x == [] {
      EndOfText();
    } else {
      var n := Min(MAX_LINELEN, |x|);
      var line, rest := EncodeLine(x[..n]), Encode(x[n..]);
      LineRoundTrip(x[..n]);
      LineIsWhole(x[..n]);
      LineAndEnd(line, rest);
      RoundTrip(x[n..]);
      TakeDrop(x, n);
    }
  }

  lemma EndOfText()
    ensures DecodeLines([]) == [] && BadLines([]) == 0 && Tail([]) == []
  {
  }

  /** A line, its end, and what follows. */
  lemma LineAndEnd(line: seq<Byte>, rest: seq<Byte>)
    requires First(line + EOL, EOL) == |line|
    ensures DecodeLines(line + EOL + rest) == DecodeLine(line).bytes + DecodeLines(rest)
    ensures BadLines(line + EOL + rest) == (if DecodeLine(line).bad then 1 else 0) + BadLines(rest)
    ensures Tail(line + EOL + rest) == Tail(rest)
  {
    hide DecodeLine, First, DecodeLines, BadLines, Tail, ThroughBad, BadBytes;
    var v := line + EOL;
    assert v[..|line|] == line && v[|line| + 1..] == [10];
    FirstLine(v, rest);
    FirstUnique([10], EOL, 0);
    assert [10][..0] == [] && [10][1..] == [];
    EmptyLine([], []);
    FirstLine([10], rest);
    assert [] + rest == rest && [] + DecodeLines(rest) == DecodeLines(rest);
  }

  lemma EmptyLine(s: seq<Byte>, d: seq<Byte>)
    ensures s == [] ==> DecodeLine(s) == Decoded([], false) && d + DecodeLine(s).bytes == d
  {
  }

  // ---------------------------------------------------------------------------------------------------
  // The decoder stream
  // ---------------------------------------------------------------------------------------------------

  /** The first n bytes of d followed by t for ever. */
  function Repeating(d: seq<Byte>, t: seq<Byte>, n: nat): seq<Byte>
    decreases n - |d|
  {
    if n <= |d| then d[..n] else if t == [] then d else Repeating(d + t, t, n)
  }

  lemma RepeatOnce(d: seq<Byte>, t: seq<Byte>, n: nat)
    ensures Repeating(d + t, t, n) == Repeating(d, t, n)
  {
    if n <= |d| {
      assert (d + t)[..n] == d[..n];
    } else if t == [] {
      assert d + t == d;
    }
  }

  lemma {:induction false} RepeatDrop(d: seq<Byte>, d': seq<Byte>, t: seq<Byte>, n: nat)
    ensures Repeating(d + d', t, |d| + n) == d + Repeating(d', t, n)
    decreases n - |d'|
  {
    if n <= |d'| {
      CutSecond(d, d', n);
    } else if t != [] {
      RepeatDrop(d, d' + t, t, n);
      ConcatAssoc(d, d', t);
    }
  }

  /** With out decoded and n bad lines counted, text is what is left of a text that decodes to p in all, with bad
      bad lines in all and t behind its last line.  Without a counter no line may be bad. */
  predicate Owed(text: seq<Byte>, out: seq<Byte>, n: nat, counting: bool, p: seq<Byte>, bad: nat, t: seq<Byte>) {
    && out + DecodeLines(text) == p && n + BadLines(text) == bad && Tail(text) == t
    && (counting || BadLines(text) == 0)
  }

  /** Decoding the line of s from ol to l. */
  lemma OwedStep(s: seq<Byte>, ol: nat, l: nat, w: seq<Byte>, out: seq<Byte>, n: nat, counting: bool,
                 p: seq<Byte>, bad: nat, t: seq<Byte>)
    requires ol <= l < |s| && l == ol + First(s[ol..], EOL) && Owed(s[ol..] + w, out, n, counting, p, bad, t)
    ensures var d := DecodeLine(s[ol..l]);
      Owed(s[l + 1..] + w, out + d.bytes, n + (if d.bad && counting then 1 else 0), counting, p, bad, t)
      && (d.bad ==> counting)
  {
    hide DecodeLine, First, DecodeLines, BadLines, Tail;
    var line := s[ol..l];
    FirstLine(s[ol..], w);
    assert s[ol..][..l - ol] == line && s[ol..][l - ol + 1..] == s[l + 1..];
    ConcatAssoc(out, DecodeLine(line).bytes, DecodeLines(s[l + 1..] + w));
  }

  /** Without a counter: with out decoded, the decoder runs into a bad line of text, up to which it makes q in all. That
      line itself gives e, and the lines of text up to it give no more than k bytes. */
  predicate RunsInto(text: seq<Byte>, out: seq<Byte>, counting: bool, q: seq<Byte>, e: seq<Byte>, k: nat) {
    && !counting && BadLines(text) > 0
    && out + ThroughBad(text) == q && BadBytes(text) == e && |ThroughBad(text)| <= k
  }

  /** Decoding the line of s from ol to l: the bad line ends the pass. */
  lemma RunsStep(s: seq<Byte>, ol: nat, l: nat, w: seq<Byte>, out: seq<Byte>, counting: bool, q: seq<Byte>,
                 e: seq<Byte>, k: nat)
    requires ol <= l < |s| && l == ol + First(s[ol..], EOL) && RunsInto(s[ol..] + w, out, counting, q, e, k)
    ensures var d := DecodeLine(s[ol..l]);
      !counting && if d.bad then out + d.bytes == q else RunsInto(s[l + 1..] + w, out + d.bytes, counting, q, e, k)
  {
    hide DecodeLine, First, ThroughBad, BadBytes, BadLines;
    var line, rest := s[ol..l], s[l + 1..] + w;
    var d := DecodeLine(line);
    FirstLine(s[ol..], w);
    assert s[ol..][..l - ol] == line && s[ol..][l - ol + 1..] == s[l + 1..];
    ConcatAssoc(out, d.bytes, ThroughBad(rest));
    assert d.bytes + [] == d.bytes;
  }

  /** A bad line has an end. */
  lemma BadHasEnd(text: seq<Byte>)
    ensures First(text, EOL) == |text| ==> BadLines(text) == 0
  {
  }

  lemma NotRunning(s: seq<Byte>, w: seq<Byte>, out: seq<Byte>, counting: bool, q: seq<Byte>, e: seq<Byte>, k: nat)
    ensures First(s, EOL) == |s| && w == [] ==> !RunsInto(s + w, out, counting, q, e, k)
  {
    BadHasEnd(s);
    assert s + [] == s;
  }

  /** In front of the bad line the bytes fit, and the line has its end. */
  lemma RunsOn(s: seq<Byte>, w: seq<Byte>, out: seq<Byte>, counting: bool, q: seq<Byte>, e: seq<Byte>, k: nat)
    ensures RunsInto(s + w, out, counting, q, e, k) ==> |out| <= |q| && (w == [] ==> First(s, EOL) < |s|)
  {
    BadHasEnd(s);
    assert s + [] == s;
  }

  /** After the pass its lines are still there, and are to be decoded again. */
  lemma RunsAgain(text: seq<Byte>, out: seq<Byte>, counting: bool, q: seq<Byte>, e: seq<Byte>, k: nat)
    requires RunsInto(text, out, counting, q, e, k)
    ensures RunsInto(text, q, counting, q + ThroughBad(text), e, k)
    ensures |e| <= |ThroughBad(text)| <= |q| && |ThroughBad(text)| <= k && (out == [] ==> ThroughBad(text) == q)
    ensures RunsInto(text, q, counting, q + ThroughBad(text), e, |ThroughBad(text)|)
  {
    ThroughIsGoodAndBad(text);
    hide ThroughBad, GoodLines;
    assert [] + ThroughBad(text) == ThroughBad(text);
  }

  /** Handing out the first l bytes. */
  lemma RunsOutput(text: seq<Byte>, out: seq<Byte>, l: nat, counting: bool, q: seq<Byte>, e: seq<Byte>, k: nat)
    requires l <= |out|
    ensures RunsInto(text, out, counting, q, e, k) ==>
      l <= |q| && q == out[..l] + q[l..] && RunsInto(text, out[l..], counting, q[l..], e, k)
  {
    if RunsInto(text, out, counting, q, e, k) {
      CutFirst(out, ThroughBad(text), l);
      assert q == q[..l] + q[l..];
    }
  }

  /** out has been read of an output that begins with tb; q of it is made. After hit, tb is followed by more. */
  predicate Told(tb: seq<Byte>, more: seq<Byte>, hit: bool, out: seq<Byte>, q: seq<Byte>) {
    if !hit then out + q == tb else tb + more <= out + q && (more == [] ==> out + q == tb)
  }

  lemma ToldStep(tb: seq<Byte>, more: seq<Byte>, hit: bool, out: seq<Byte>, q: seq<Byte>, piece: seq<Byte>,
                 left: seq<Byte>, extra: seq<Byte>, stopped: bool)
    requires Told(tb, more, hit, out, q) && q + extra == piece + left
    requires (!stopped ==> extra == []) && (hit && more == [] ==> extra == [])
    ensures Told(tb, if stopped && !hit then extra else more, hit || stopped, out + piece, left)
  {
    ConcatAssoc(out, piece, left);
    ConcatAssoc(out, q, extra);
    assert out + q + [] == out + q;
  }

  lemma ToldLast(tb: seq<Byte>, more: seq<Byte>, hit: bool, out: seq<Byte>, q: seq<Byte>)
    requires Told(tb, more, hit, out, q) && |out| <= INT_MAX && (|out| == INT_MAX || (q == [] && hit))
    ensures var all := tb + more; all[..Min(|all|, INT_MAX)] <= out
    ensures more == [] || !hit ==> out == tb[..Min(|tb|, INT_MAX)]
  {
    var all := tb + more;
    if q == [] {
      assert out + q == out;
    } else {
      CutFirst(out, q, |out|);
      assert !hit ==> all[..INT_MAX] == tb[..INT_MAX];
      if hit {
        assert all == (out + q)[..|all|];
      }
    }
  }

  /** At the end of the input. */
  lemma OwedAtEnd(text: seq<Byte>, out: seq<Byte>, n: nat, counting: bool, p: seq<Byte>, bad: nat, t: seq<Byte>,
                  more: seq<Byte>, k: nat)
    requires First(text, EOL) == |text|
    ensures Owed(text, out, n, counting, p, bad, t) ==>
      && out == p && text == t && n == bad
      && Owed(text, out + more, n + k, counting, p + more, bad + k, t)
  {
    assert out + [] == out;
    assert out + more + [] == out + more;
  }

  /** Handing out the first l bytes. */
  lemma OwedOutput(text: seq<Byte>, out: seq<Byte>, l: nat, n: nat, counting: bool, p: seq<Byte>, bad: nat,
                   t: seq<Byte>)
    requires l <= |out|
    ensures Owed(text, out, n, counting, p, bad, t) ==>
      l <= |p| && p == out[..l] + p[l..] && Owed(text, out[l..], n, counting, p[l..], bad, t)
  {
    if Owed(text, out, n, counting, p, bad, t) {
      CutFirst(out, DecodeLines(text), l);
      assert p == p[..l] + p[l..];
    }
  }

  class Decoder {
    const src: Bstring
    const dst: Bstring
    const inp: BStream
    /** Bad lines are counted, not reported. */
    const counting: bool
    var badlines: nat

    ghost predicate Valid()
      reads this, src, dst, inp, inp.buff, inp.src
    {
      && src.Valid() && dst.Valid() && inp.Valid()
      && src != dst && src != inp.buff && dst != inp.buff
      && src.data != dst.data && src.data != inp.buff.data && dst.data != inp.buff.data
    }

    /** The text that is still to be decoded. */
    ghost function Incoming(): seq<Byte>
      reads this, src, src.data, dst, inp, inp.buff, inp.buff.data, inp.src
      requires Valid()
    {
      src.Contents() + inp.Virtual()
    }

    ghost predicate Owes(p: seq<Byte>, bad: nat, t: seq<Byte>)
      reads this, src, src.data, dst, dst.data, inp, inp.buff, inp.buff.data, inp.src
      requires Valid()
    {
      Owed(Incoming(), dst.Contents(), badlines, counting, p, bad, t)
    }

    ghost predicate Runs(q: seq<Byte>, e: seq<Byte>, k: nat)
      reads this, src, src.data, dst, dst.data, inp, inp.buff, inp.buff.data, inp.src
      requires Valid()
    {
      RunsInto(Incoming(), dst.Contents(), counting, q, e, k)
    }

    /** The whole input is in src, or one read takes it there. */
    ghost predicate AtOnce()
      reads this, src, src.data, dst, dst.data, inp, inp.buff, inp.buff.data, inp.src
      requires Valid()
    {
      || inp.Virtual() == []
      || (src.Contents() == [] && inp.src.Quick() && |inp.Virtual()| <= inp.maxBuffSz)
    }

    /** `bsUuDecode`. */
    constructor (inp: BStream, counting: bool)
      requires inp.Valid()
      ensures Valid() && this.inp == inp && this.counting == counting && badlines == 0
      ensures Incoming() == inp.Virtual() && dst.Contents() == []
      ensures fresh(src) && fresh(src.data) && fresh(dst) && fresh(dst.data)
    {
      src := new Bstring.Empty();
      dst := new Bstring.Empty();
      this.inp, this.counting, badlines := inp, counting, 0;
      new;
      assert [] + inp.Virtual() == inp.Virtual();
    }

    /** The three octets of a group, as far as they are wanted. */
    method DecodeOctets(d0: int, d1: int, d2: int, d3: int, want: nat) returns (failed: bool, bad: bool)
      requires dst.Valid() && 0 < want
      modifies dst, dst.data
      ensures dst.Valid() && (dst.data == old(dst.data) || fresh(dst.data))
      ensures var g := DecodeGroup(d0, d1, d2, d3, want);
        && failed == g.None?
        && (failed ==> dst.Contents() == old(dst.Contents()))
        && (!failed ==> bad == g.value.bad && dst.Contents() == old(dst.Contents()) + g.value.bytes)
    {
      hide Octet0, Octet1, Octet2, Alien, DecodeByte, Bstring.Contents;
      bad := Off(DecodeByte(d0)) || Off(DecodeByte(d1));
      var c0, c1 := CodeOf(d0, bad), CodeOf(d1, bad);
      if bad && (Alien(d0) || Alien(d1)) {
        return true, bad;
      }
      if want == 1 {
        dst.Conchar(Octet0(c0, c1));
        return false, bad;
      }
      var c2 := CodeOf(d2, Off(DecodeByte(d2)));
      if Off(DecodeByte(d2)) {
        bad := true;
        if Alien(d2) {
          return true, bad;
        }
      }
      if want == 2 {
        dst.Cat([Octet0(c0, c1), Octet1(c1, c2)]);
        return false, bad;
      }
      var c3 := CodeOf(d3, Off(DecodeByte(d3)));
      if Off(DecodeByte(d3)) {
        bad := true;
        if Alien(d3) {
          return true, bad;
        }
      }
      dst.Cat([Octet0(c0, c1), Octet1(c1, c2), Octet2(c2, c3)]);
      failed := false;
    }

    /** A bad line is counted, or reported when there is no counter. */
    method Report(bad: bool) returns (ret: int)
      modifies `badlines
      ensures badlines == old(badlines) + if bad && counting then 1 else 0
      ensures ret == if bad && !counting then BSTR_ERR else BSTR_OK
    {
      if bad && counting {
        badlines := badlines + 1;
        return BSTR_OK;
      }
      ret := if bad then BSTR_ERR else BSTR_OK;
    }

    /** `bUuDecLine`. */
    method DecLine(s: seq<Byte>) returns (ret: int)
      requires dst.Valid()
      modifies `badlines, dst, dst.data
      ensures dst.Valid() && (dst.data == old(dst.data) || fresh(dst.data))
      ensures dst.Contents() == old(dst.Contents()) + DecodeLine(s).bytes
      ensures badlines == old(badlines) + if DecodeLine(s).bad && counting then 1 else 0
      ensures ret == if DecodeLine(s).bad && !counting then BSTR_ERR else BSTR_OK
    {
      hide DecodeGroup;
      if |s| == 0 {
        return BSTR_OK;
      }
      var llen, otlen := DecodeByte(s[0]), dst.slen;
      if llen < 0 || MAX_LINELEN < llen {
        ret := Report(true);
        return;
      }
      ghost var d0 := dst.Contents();
      var bad := FillLine(s, llen);
      if dst.slen < otlen + llen {
        bad := true;
        dst.Truncate(otlen);
      }
      ret := Report(bad);
    }

    /** The loop over the groups of a line.  It stops short if the line is to be given up. */
    method FillLine(s: seq<Byte>, llen: nat) returns (bad: bool)
      requires dst.Valid()
      modifies dst, dst.data
      ensures dst.Valid() && (dst.data == old(dst.data) || fresh(dst.data))
      ensures old(dst.Contents()) <= dst.Contents()
      ensures var g := DecodeGroups(s, 1, llen);
        if g.None? then dst.slen < old(dst.slen) + llen
        else bad == g.value.bad && dst.Contents() == old(dst.Contents()) + g.value.bytes && |g.value.bytes| == llen
    {
      hide DecodeGroup, Bstring.Contents;
      ghost var d0, all := dst.Contents(), DecodeGroups(s, 1, llen);
      bad := false;
      var goal, i := dst.slen + llen, 1;
      ghost var done := [];
      PrependNothing(all);
      assert d0 + done == d0;
      while i < |s| && dst.slen < goal
        invariant 1 <= i && dst.Valid() && (dst.data == old(dst.data) || fresh(dst.data))
        invariant dst.Contents() == d0 + done && dst.slen <= goal
        invariant all == Prepend(Decoded(done, bad), DecodeGroups(s, i, goal - dst.slen))
        decreases goal - dst.slen
      {
        var failed, soft := DecodeOctets(CharOrPad(s, i), CharOrPad(s, i + 1), CharOrPad(s, i + 2), CharOrPad(s, i + 3),
                                         goal - dst.slen);
        ghost var want := goal - |d0 + done|;
        PrependGroup(Decoded(done, bad), s, i, want);
        if failed {
          return;
        }
        ghost var bytes := dst.Contents()[|d0 + done|..];
        assert d0 + done + bytes == dst.Contents();
        ConcatAssoc(d0, done, bytes);
        done := done + bytes;
        bad := bad || soft;
        i := i + 4;
      }
    }

    /** Hand out up to tsz bytes of what is decoded. */
    method Output(buff: array<Byte>, tsz: nat) returns (l: nat)
      requires dst.Valid() && tsz <= buff.Length && buff != dst.data
      modifies dst`slen, dst.data, buff
      ensures dst.Valid() && l == Min(tsz, old(dst.slen))
      ensures buff[..l] == old(dst.Contents())[..l] && dst.Contents() == old(dst.Contents())[l..]
    {
      ghost var d0 := dst.Contents();
      if dst.slen > tsz {
        MemCpy(buff, 0, dst.data[..tsz]);
        assert buff[..tsz] == d0[..tsz];
        var ret := dst.Delete(0, tsz);
        l := tsz;
      } else {
        MemCpy(buff, 0, dst.data[..dst.slen]);
        l := dst.slen;
        dst.Clear();
      }
    }

    /** `binchr` for a line end in src, from pos on: the length of src if there is none. */
    method FindEol(pos: nat) returns (i: nat)
      requires src.Valid() && pos <= src.slen
      ensures i == pos + First(src.Contents()[pos..], EOL)
    {
      i := pos;
      ghost var v := src.Contents();
      while i < src.slen && src.data[i] !in EOL
        invariant pos <= i <= src.slen
        invariant forall j | 0 <= j < i - pos :: v[pos..][j] !in EOL
      {
        assert v[pos..][i - pos] == src.data[i];
        i := i + 1;
      }
      assert i < src.slen ==> v[pos..][i - pos] == src.data[i];
      FirstUnique(v[pos..], EOL, i - pos);
    }

    /** Decode the line of src from ol to l; an empty one is skipped. */
    method DecodeAt(ol: nat, l: nat) returns (ret: int)
      requires src.Valid() && dst.Valid() && ol <= l <= src.slen
      modifies `badlines, dst, dst.data
      ensures dst.Valid() && (dst.data == old(dst.data) || fresh(dst.data))
      ensures var d := DecodeLine(old(src.Contents())[ol..l]);
        && dst.Contents() == old(dst.Contents()) + d.bytes
        && badlines == old(badlines) + (if d.bad && counting then 1 else 0)
        && ret == if d.bad && !counting then BSTR_ERR else BSTR_OK
    {
      hide Bstring.Contents, DecodeLine;
      ret := BSTR_OK;
      EmptyLine(src.Contents()[ol..l], dst.Contents());
      if l > ol {
        var s := src.Bytes();
        ret := DecLine(s[ol..l]);
      }
    }

    /** Decode the line of src from ol to l, and go on behind it. */
    method DecodeNext(ol: nat, l: nat, ghost s: seq<Byte>, ghost w: seq<Byte>, ghost owes: bool, ghost p: seq<Byte>,
                      ghost bad: nat, ghost t: seq<Byte>, ghost runs: bool, ghost q: seq<Byte>, ghost e: seq<Byte>,
                      ghost k: nat) returns (ret: int)
      requires src.Valid() && dst.Valid() && src.Contents() == s && ol <= l < |s| && l == ol + First(s[ol..], EOL)
      requires owes ==> Owed(s[ol..] + w, dst.Contents(), badlines, counting, p, bad, t)
      requires runs ==> RunsInto(s[ol..] + w, dst.Contents(), counting, q, e, k)
      modifies `badlines, dst, dst.data
      ensures dst.Valid() && (dst.data == old(dst.data) || fresh(dst.data))
      ensures owes ==> ret >= 0 && Owed(s[l + 1..] + w, dst.Contents(), badlines, counting, p, bad, t)
      ensures runs ==>
        if ret < 0 then dst.Contents() == q else RunsInto(s[l + 1..] + w, dst.Contents(), counting, q, e, k)
    {
      hide Bstring.Contents, DecodeLine, First, Owed, RunsInto;
      if owes {
        OwedStep(s, ol, l, w, dst.Contents(), badlines, counting, p, bad, t);
      }
      if runs {
        RunsStep(s, ol, l, w, dst.Contents(), counting, q, e, k);
      }
      ret := DecodeAt(ol, l);
    }

    /** Decode the lines in src until more than tsz bytes are there; l0 is the end of the first, and ol the position
        behind the last.  Without a counter it stops at a bad line, if it comes so far. */
    method DecodeSome(tsz: nat, l0: nat, ghost s: seq<Byte>, ghost w: seq<Byte>, ghost owes: bool, ghost p: seq<Byte>,
                      ghost bad: nat, ghost t: seq<Byte>, ghost runs: bool, ghost q: seq<Byte>, ghost e: seq<Byte>,
                      ghost k: nat) returns (ok: bool, ol: nat)
      requires src.Valid() && dst.Valid() && src != dst && src.data != dst.data
      requires src.Contents() == s && l0 == First(s, EOL) < src.slen
      requires owes ==> Owed(s + w, dst.Contents(), badlines, counting, p, bad, t)
      requires runs ==> RunsInto(s + w, dst.Contents(), counting, q, e, k)
      modifies `badlines, dst, dst.data
      ensures dst.Valid() && (dst.data == old(dst.data) || fresh(dst.data))
      ensures ok ==> 0 < ol <= |s|
      ensures owes ==> ok && Owed(s[ol..] + w, dst.Contents(), badlines, counting, p, bad, t)
      ensures runs ==> if ok then RunsInto(s[ol..] + w, dst.Contents(), counting, q, e, k) else dst.Contents() == q
      ensures runs && w == [] && |q| <= tsz ==> !ok
    {
      hide Bstring.Contents, DecodeLine, First, Owed, RunsInto;
      var l := l0;
      ol := 0;
      assert s[0..] == s;
      while true
        invariant dst.Valid() && (dst.data == old(dst.data) || fresh(dst.data))
        invariant ol <= l < src.slen && l == ol + First(s[ol..], EOL)
        invariant owes ==> Owed(s[ol..] + w, dst.Contents(), badlines, counting, p, bad, t)
        invariant runs ==> RunsInto(s[ol..] + w, dst.Contents(), counting, q, e, k)
        decreases src.slen - ol
      {
        var lret := DecodeNext(ol, l, s, w, owes, p, bad, t, runs, q, e, k);
        if lret < 0 {
          return false, 0;
        }
        ol := l + 1;
        RunsOn(s[ol..], w, dst.Contents(), counting, q, e, k);
        if dst.slen > tsz {
          break;
        }
        l := FindEol(ol);
        if l == src.slen {
          break;
        }
      }
      ok := true;
    }

    /** Decode the lines in src until more than tsz bytes are there, and delete them; after a bad line they stay. */
    method DecodeWhole(tsz: nat, l0: nat, ghost p: seq<Byte>, ghost bad: nat, ghost t: seq<Byte>, ghost q: seq<Byte>,
                       ghost e: seq<Byte>, ghost k: nat) returns (ok: bool)
      requires Valid() && l0 == First(src.Contents(), EOL) < src.slen
      modifies `badlines, src`slen, src.data, dst, dst.data
      ensures Valid() && (dst.data == old(dst.data) || fresh(dst.data))
      ensures inp.Virtual() == old(inp.Virtual())
      ensures old(Owes(p, bad, t)) ==> ok && Owes(p, bad, t)
      ensures if ok then src.slen < old(src.slen) else Incoming() == old(Incoming())
      ensures old(Runs(q, e, k)) ==> if ok then Runs(q, e, k) else dst.Contents() == q
      ensures old(Runs(q, e, k)) && inp.Virtual() == [] && |q| <= tsz ==> !ok
    {
      hide Bstring.Contents, Bstring.Terminated, DecodeLine, First, Owed, RunsInto;
      ghost var s, w := src.Contents(), inp.Virtual();
      var ol;
      ok, ol := DecodeSome(tsz, l0, s, w, Owes(p, bad, t), p, bad, t, Runs(q, e, k), q, e, k);
      if !ok {
        return;
      }
      var ret := src.Delete(0, ol);
      assert s[..0] + s[ol..] == s[ol..];
    }

    /** One turn of `bsUuDecodePart` that does not hand out anything: decode what is in src, or read more into it.
        At the end of the input what is behind the last line end is decoded, as often as there is a call. */
    method Work(tsz: nat, ghost p: seq<Byte>, ghost bad: nat, ghost t: seq<Byte>, ghost q: seq<Byte>,
                ghost e: seq<Byte>, ghost k: nat) returns (ended: bool, stopped: bool)
      requires Valid()
      modifies `badlines, src, src.data, dst, dst.data, inp, inp.buff, inp.buff.data, inp.src
      ensures Valid() && (src.data == old(src.data) || fresh(src.data))
      ensures dst.data == old(dst.data) || fresh(dst.data)
      ensures inp.buff.data == old(inp.buff.data) || fresh(inp.buff.data)
      ensures old(Owes(p, bad, t)) ==>
        if ended then
          var d := DecodeLine(t);
          && Owes(p + d.bytes, bad + (if d.bad && counting then 1 else 0), t)
          && dst.Contents() == p + d.bytes && badlines == bad + (if d.bad && counting then 1 else 0)
        else !stopped && Owes(p, bad, t)
      ensures old(Runs(q, e, k)) ==>
        !ended && if stopped then dst.Contents() == q && Runs(q + ThroughBad(Incoming()), e, k) else Runs(q, e, k)
      ensures stopped ==> !ended && Incoming() == old(Incoming())
      ensures old(AtOnce()) ==> inp.Virtual() == []
      ensures old(Runs(q, e, k)) && old(AtOnce()) && |q| <= tsz ==>
        Incoming() == old(Incoming()) && (stopped || dst.Contents() == old(dst.Contents()))
      ensures !ended && !stopped ==>
        || |Incoming()| < old(|Incoming()|)
        || (|Incoming()| == old(|Incoming()|) && |inp.Virtual()| < old(|inp.Virtual()|))
    {
      hide Bstring.Contents, Bstring.Terminated, DecodeLine, First, Owed, RunsInto, ThroughBad, Source.Even;
      ended, stopped := false, false;
      var eol := FindEol(0);
      assert src.Contents()[0..] == src.Contents();
      if eol < src.slen {
        ghost var was, runs := dst.Contents(), Runs(q, e, k);
        var ok := DecodeWhole(tsz, eol, p, bad, t, q, e, k);
        if runs && !ok {
          RunsAgain(Incoming(), was, counting, q, e, k);
        }
        return false, !ok;
      }
      ghost var s := src.Contents();
      NotRunning(s, inp.Virtual(), dst.Contents(), counting, q, e, k);
      var ret := inp.Read(src, inp.maxBuffSz);
      if ret == BSTR_ERR {
        assert inp.Virtual() == [];
        assert src.Contents() + [] == src.Contents() && s + [] == s;
        DecodeTail(p, bad, t);
        ended := true;
      }
    }

    /** The end of the input: decode what is behind the last line end, without deleting it. */
    method DecodeTail(ghost p: seq<Byte>, ghost bad: nat, ghost t: seq<Byte>)
      requires Valid() && inp.Virtual() == [] && First(src.Contents(), EOL) == src.slen && Incoming() == src.Contents()
      modifies `badlines, dst, dst.data
      ensures Valid() && (dst.data == old(dst.data) || fresh(dst.data)) && Incoming() == old(Incoming())
      ensures old(Owes(p, bad, t)) ==>
        var e := DecodeLine(t);
        && Owes(p + e.bytes, bad + (if e.bad && counting then 1 else 0), t)
        && dst.Contents() == p + e.bytes && badlines == bad + (if e.bad && counting then 1 else 0)
    {
      hide Bstring.Contents, DecodeLine, First, Owed;
      var text := src.Bytes();
      ghost var e := DecodeLine(text);
      OwedAtEnd(text, dst.Contents(), badlines, counting, p, bad, t, e.bytes, if e.bad && counting then 1 else 0);
      var ret := DecLine(text);
    }

    /** `bsUuDecodePart`: hand out up to tsz bytes.  again says that the unterminated tail was decoded (once more). */
    method Part(buff: array<Byte>, tsz: nat, ghost p: seq<Byte>, ghost bad: nat, ghost t: seq<Byte>,
                ghost q: seq<Byte>, ghost e: seq<Byte>, ghost k: nat)
      returns (l: nat, ghost again: bool, ghost rest: seq<Byte>, ghost stopped: bool, ghost extra: seq<Byte>,
               ghost left: seq<Byte>)
      requires Valid() && 0 < tsz <= buff.Length
      requires buff != src.data && buff != dst.data && buff != inp.buff.data
      modifies `badlines, src, src.data, dst, dst.data, inp, inp.buff, inp.buff.data, inp.src, buff
      ensures Valid() && (src.data == old(src.data) || fresh(src.data))
      ensures dst.data == old(dst.data) || fresh(dst.data)
      ensures inp.buff.data == old(inp.buff.data) || fresh(inp.buff.data)
      ensures l <= tsz
      ensures old(Owes(p, bad, t)) ==>
        var d := DecodeLine(t);
        && p + (if again then d.bytes else []) == buff[..l] + rest
        && Owes(rest, bad + (if again && d.bad && counting then 1 else 0), t)
        && (l == 0 ==> again && rest == [] && badlines == bad + (if d.bad && counting then 1 else 0))
      ensures old(Runs(q, e, k)) ==>
        && q + extra == buff[..l] + left && Runs(left, e, k) && Repeats(q, e, k, stopped, extra)
        && (stopped ==> Runs(left, e, |extra|)) && (l == 0 ==> stopped && q == [] && left == [])
      ensures old(Runs(q, e, k)) && old(AtOnce()) && old(dst.slen) == 0 && |q| <= tsz ==> stopped && extra == q
    {
      hide Bstring.Contents, DecodeLine, First, Owed, RunsInto, ThroughBad, Repeats, AtOnce;
      hide BStream.Virtual, BStream.Valid, Bstring.Terminated;
      again, stopped, extra := DecodeEnough(tsz, p, bad, t, q, e, k);
      ghost var out, d := dst.Contents(), DecodeLine(t);
      l := Output(buff, tsz);
      ghost var owed := p + if again then d.bytes else [];
      OwedOutput(Incoming(), out, l, badlines, counting, owed, bad + (if again && d.bad && counting then 1 else 0), t);
      rest := if l <= |owed| then owed[l..] else [];
      ghost var made := q + extra;
      RunsOutput(Incoming(), out, l, counting, made, e, k);
      RunsOutput(Incoming(), out, l, counting, made, e, |extra|);
      NothingMore(q, e, k, stopped, extra);
      left := if l <= |made| then made[l..] else [];
    }

    /** Nothing of the decoder is shared with the output. */
    ghost predicate Apart(b: Bstring, buff: array<Byte>)
      reads this, src, dst, inp, inp.buff, b
    {
      && b != src && b != dst && b != inp.buff
      && b.data != src.data && b.data != dst.data && b.data != inp.buff.data && b.data != buff
      && buff != src.data && buff != dst.data && buff != inp.buff.data
    }

    /** One read of the output stream: a part, appended to b. */
    method PartInto(b: Bstring, buff: array<Byte>, tsz: nat, ghost p: seq<Byte>, ghost bad: nat, ghost t: seq<Byte>,
                    ghost q: seq<Byte>, ghost e: seq<Byte>, ghost k: nat)
      returns (l: nat, ghost again: bool, ghost more: seq<Byte>, ghost rest: seq<Byte>, ghost stopped: bool,
               ghost extra: seq<Byte>, ghost left: seq<Byte>)
      requires Valid() && 0 < tsz <= buff.Length && b.Valid() && Apart(b, buff)
      modifies `badlines, src, src.data, dst, dst.data, inp, inp.buff, inp.buff.data, inp.src, buff, b, b.data
      ensures Valid() && b.Valid() && Apart(b, buff)
      ensures (src.data == old(src.data) || fresh(src.data)) && (dst.data == old(dst.data) || fresh(dst.data))
      ensures inp.buff.data == old(inp.buff.data) || fresh(inp.buff.data)
      ensures b.data == old(b.data) || fresh(b.data)
      ensures l == |more| <= tsz && b.Contents() == old(b.Contents()) + more
      ensures old(Owes(p, bad, t)) ==>
        var d := DecodeLine(t); var n := bad + if again && d.bad && counting then 1 else 0;
        && p + (if again then d.bytes else []) == more + rest
        && Owes(rest, n, t)
        && (l == 0 ==> again && rest == [] && badlines == n)
      ensures old(Runs(q, e, k)) ==>
        && q + extra == more + left && Runs(left, e, k) && Repeats(q, e, k, stopped, extra)
        && (stopped ==> Runs(left, e, |extra|)) && (l == 0 ==> stopped && q == [] && left == [])
      ensures old(Runs(q, e, k)) && old(AtOnce()) && old(dst.slen) == 0 && |q| <= tsz ==> stopped && extra == q
    {
      hide Bstring.Contents, DecodeLine, First, Owed, DecodeLines, BadLines, Tail, RunsInto, Repeats;
      l, again, rest, stopped, extra, left := Part(buff, tsz, p, bad, t, q, e, k);
      more := buff[0..l];
      assert more == buff[..l];
      b.CatBlock(buff, 0, l);
    }

    /** Decode until more than tsz bytes are there, or the input has ended, or a bad line stops it; then the lines up to
        that one are to come again as extra. */
    method DecodeEnough(tsz: nat, ghost p: seq<Byte>, ghost bad: nat, ghost t: seq<Byte>, ghost q: seq<Byte>,
                        ghost e: seq<Byte>, ghost k: nat)
      returns (ghost again: bool, ghost stopped: bool, ghost extra: seq<Byte>)
      requires Valid()
      modifies `badlines, src, src.data, dst, dst.data, inp, inp.buff, inp.buff.data, inp.src
      ensures Valid() && (src.data == old(src.data) || fresh(src.data))
      ensures dst.data == old(dst.data) || fresh(dst.data)
      ensures inp.buff.data == old(inp.buff.data) || fresh(inp.buff.data)
      ensures old(Owes(p, bad, t)) ==>
        var d := DecodeLine(t); var owed := p + if again then d.bytes else [];
        && Owes(owed, bad + (if again && d.bad && counting then 1 else 0), t)
        && (again ==> dst.Contents() == owed && badlines == bad + (if d.bad && counting then 1 else 0))
        && (!again ==> tsz < dst.slen)
      ensures old(Runs(q, e, k)) ==>
        && Runs(q + extra, e, k) && Repeats(q, e, k, stopped, extra)
        && if stopped then dst.Contents() == q && Runs(q + extra, e, |extra|) else tsz < dst.slen
      ensures old(Runs(q, e, k)) && old(AtOnce()) && old(dst.slen) == 0 && |q| <= tsz ==> stopped && extra == q
    {
      hide Bstring.Contents, DecodeLine, First, Owed, RunsInto, ThroughBad, Repeats, AtOnce;
      again, stopped, extra := false, false, [];
      assert p + [] == p && q + [] == q;
      ghost var runs := Runs(q, e, k);
      ghost var swift := runs && AtOnce() && dst.slen == 0 && |q| <= tsz;
      NotStopped(q, e, k);
      while dst.slen <= tsz
        invariant Valid() && (src.data == old(src.data) || fresh(src.data))
        invariant dst.data == old(dst.data) || fresh(dst.data)
        invariant inp.buff.data == old(inp.buff.data) || fresh(inp.buff.data)
        invariant !again && (old(Owes(p, bad, t)) ==> Owes(p, bad, t)) && (runs ==> Runs(q, e, k))
        invariant swift ==> AtOnce() && dst.slen == 0
        decreases |Incoming()|, |inp.Virtual()|
      {
        ghost var was := dst.Contents();
        var ended, halted := Work(tsz, p, bad, t, q, e, k);
        if ended || halted {
          again, stopped := ended, halted;
          if runs {
            extra := ThroughBad(Incoming());
            Stopping(Incoming(), was, counting, q, e, k);
          }
          return;
        }
        OnceRead();
      }
    }

    lemma OnceRead()
      requires Valid()
      ensures inp.Virtual() == [] ==> AtOnce()
    {
    }
  }

  /** What is to come again is what the lines still there give: between e and k bytes, and no more than q. */
  predicate Repeats(q: seq<Byte>, e: seq<Byte>, k: nat, stopped: bool, extra: seq<Byte>) {
    if stopped then |e| <= |extra| <= |q| && |extra| <= k else extra == []
  }

  lemma NotStopped(q: seq<Byte>, e: seq<Byte>, k: nat)
    ensures Repeats(q, e, k, false, [])
  {
  }

  lemma NothingMore(q: seq<Byte>, e: seq<Byte>, k: nat, stopped: bool, extra: seq<Byte>)
    ensures q == [] && Repeats(q, e, k, stopped, extra) ==> extra == []
  {
  }

  lemma Stopping(text: seq<Byte>, out: seq<Byte>, counting: bool, q: seq<Byte>, e: seq<Byte>, k: nat)
    requires RunsInto(text, out, counting, q, e, k)
    ensures var extra := ThroughBad(text);
      && RunsInto(text, q, counting, q + extra, e, k) && RunsInto(text, q, counting, q + extra, e, |extra|)
      && Repeats(q, e, k, true, extra) && (out == [] ==> extra == q)
  {
    hide RunsInto, ThroughBad;
    RunsAgain(text, out, counting, q, e, k);
  }

  /** The first n bytes at most. */
  function Cut(s: seq<Byte>, n: nat): seq<Byte> {
    s[..Min(n, |s|)]
  }

  /** What comes out when a bad line stops the decoder: the lines through that one, and then repeated, which is what
      the lines give that are not deleted when the decoder comes to it. */
  predicate Stuck(v: seq<Byte>, repeated: seq<Byte>, out: seq<Byte>) {
    var tb := ThroughBad(v);
    && |BadBytes(v)| <= |repeated| <= |tb| && |out| <= INT_MAX
    && Cut(tb + repeated, INT_MAX) <= out && (repeated == [] ==> out == Cut(tb, INT_MAX))
  }

  /** The output is only the lines in front of the bad one, if and only if nothing is repeated or INT_MAX comes
      first. */
  lemma OnlyGoodIff(v: seq<Byte>, repeated: seq<Byte>, out: seq<Byte>)
    requires Stuck(v, repeated, out)
    ensures out == Cut(GoodLines(v), INT_MAX) <==> repeated == [] || INT_MAX <= |GoodLines(v)|
    ensures Cut(GoodLines(v), INT_MAX) <= out
  {
    var g, tb := GoodLines(v), ThroughBad(v);
    ThroughIsGoodAndBad(v);
    hide GoodLines, BadBytes, ThroughBad;
    var all := tb + repeated;
    assert g == tb[..|g|] && g == all[..|g|];
    CutPrefix(g, all, INT_MAX);
    if repeated == [] {
      assert g + [] == g;
    }
    assert Cut(g, INT_MAX) <= Cut(all, INT_MAX) <= out;
    if INT_MAX <= |g| {
      assert out[..INT_MAX] == out;
    }
  }

  lemma CutPrefix(a: seq<Byte>, b: seq<Byte>, n: nat)
    requires a <= b
    ensures Cut(a, n) <= Cut(b, n)
  {
    assert a == b[..|a|];
  }

  /** `bUuDecodeEx`: read up to INT_MAX bytes from the decoder stream, in pieces of up to maxBuffSz.  What is behind the
      last line end comes again and again; no bytes at all are an error.  Without a counter a bad line stops the
      decoder, and the lines up to it that are still in its buffer come again and again. */
  method UuDecodeEx(inp: BStream, counting: bool, maxBuffSz: nat)
    returns (b: Bstring, ok: bool, badlines: nat, ghost repeated: seq<Byte>)
    requires inp.Valid() && 0 < maxBuffSz
    modifies inp, inp.buff, inp.buff.data, inp.src
    ensures fresh(b) && fresh(b.data) && b.Valid()
    ensures var v := old(inp.Virtual()); var t := DecodeLine(Tail(v));
      counting || BadLines(v) == 0 ==>
      && b.Contents() == Repeating(DecodeLines(v), t.bytes, INT_MAX)
      && (|DecodeLines(v)| < INT_MAX && t == Decoded([], false) ==> badlines == if counting then BadLines(v) else 0)
    ensures ok == (b.Contents() != []) && b.slen <= INT_MAX
    ensures var v := old(inp.Virtual());
      !counting && BadLines(v) > 0 ==>
      && Stuck(v, repeated, b.Contents())
      && (old(inp.src.Quick()) && |v| <= old(inp.maxBuffSz) && |ThroughBad(v)| <= Min(maxBuffSz, INT_MAX)
          ==> repeated == ThroughBad(v))
    ensures Cut(GoodLines(old(inp.Virtual())), INT_MAX) <= b.Contents()
  {
    hide Bstring.Contents, DecodeLine, First, Owed, Repeating, DecodeLines, BadLines, Tail, Reached, GoodLines;
    hide ThroughBad, BadBytes, RunsInto, Stuck, Cut, Told;
    ghost var v := inp.Virtual();
    var d := new Decoder(inp, counting);
    b := new Bstring.Empty();
    var buff := new Byte[maxBuffSz];
    ReachedFirst(v, counting);
    RunsFirst(v, counting);
    ghost var p, bad;
    p, bad, repeated := ReadAll(d, b, buff, v);
    ReachedLast(b.Contents(), p, bad, v);
    if !counting && BadLines(v) > 0 {
      OnlyGoodIff(v, repeated, b.Contents());
    } else {
      CutGood(v, b.Contents());
    }
    ok := b.slen != 0;
    badlines := d.badlines;
  }

  lemma CutGood(v: seq<Byte>, out: seq<Byte>)
    requires out == Repeating(DecodeLines(v), DecodeLine(Tail(v)).bytes, INT_MAX)
    ensures Cut(GoodLines(v), INT_MAX) <= out
  {
    hide GoodLines, DecodeLines, Tail, DecodeLine;
    GoodIsFirst(v);
    RepeatBegins(DecodeLines(v), DecodeLine(Tail(v)).bytes, INT_MAX);
    var d, g := DecodeLines(v), GoodLines(v);
    assert g == d[..|g|];
  }

  lemma {:induction false} RepeatBegins(d: seq<Byte>, t: seq<Byte>, n: nat)
    ensures Cut(d, n) <= Repeating(d, t, n)
    decreases n - |d|
  {
    if n > |d| && t != [] {
      RepeatBegins(d + t, t, n);
      CutFirst(d, t, |d|);
      assert (d + t)[..Min(n, |d + t|)][..|d|] == d;
    }
  }

  lemma RunsFirst(v: seq<Byte>, counting: bool)
    ensures var tb := ThroughBad(v);
      !counting && BadLines(v) > 0 ==> RunsInto(v, [], counting, tb, BadBytes(v), |tb|) && |BadBytes(v)| <= |tb|
  {
    ThroughIsGoodAndBad(v);
    hide ThroughBad, GoodLines;
    assert [] + ThroughBad(v) == ThroughBad(v);
  }

  /** out has been read of an output that begins with what v gives through its bad line; the next q are made.  At the
      first stop, rep is what is there to come again. */
  predicate Telling(v: seq<Byte>, rep: seq<Byte>, hit: bool, out: seq<Byte>, q: seq<Byte>, k: nat) {
    && Told(ThroughBad(v), rep, hit, out, q) && |BadBytes(v)| <= |rep| <= |ThroughBad(v)|
    && k == |if hit then rep else ThroughBad(v)|
  }

  lemma TellingFirst(v: seq<Byte>)
    ensures |BadBytes(v)| <= |ThroughBad(v)| ==>
      Telling(v, BadBytes(v), false, [], ThroughBad(v), |ThroughBad(v)|)
  {
    hide ThroughBad, BadBytes;
    assert [] + ThroughBad(v) == ThroughBad(v);
  }

  lemma TellingStep(v: seq<Byte>, rep: seq<Byte>, hit: bool, out: seq<Byte>, q: seq<Byte>, k: nat, piece: seq<Byte>,
                    left: seq<Byte>, extra: seq<Byte>, stopped: bool)
    requires Telling(v, rep, hit, out, q, k) && q + extra == piece + left
    requires Repeats(q, BadBytes(v), k, stopped, extra)
    ensures var first := stopped && !hit;
      Telling(v, if first then extra else rep, hit || stopped, out + piece, left, if first then |extra| else k)
  {
    hide ThroughBad, BadBytes, Told;
    ToldStep(ThroughBad(v), rep, hit, out, q, piece, left, extra, stopped);
  }

  lemma TellingLast(v: seq<Byte>, rep: seq<Byte>, hit: bool, out: seq<Byte>, q: seq<Byte>, k: nat)
    requires Telling(v, rep, hit, out, q, k) && |out| <= INT_MAX && (|out| == INT_MAX || (q == [] && hit))
    ensures Stuck(v, rep, out)
  {
    hide ThroughBad, BadBytes, Told;
    ToldLast(ThroughBad(v), rep, hit, out, q);
  }

  /** The loop of `bsread`. */
  method ReadAll(d: Decoder, b: Bstring, buff: array<Byte>, ghost v: seq<Byte>)
    returns (ghost p: seq<Byte>, ghost bad: nat, ghost rep: seq<Byte>)
    requires d.Valid() && b.Valid() && b.slen == 0 && d.Apart(b, buff) && 0 < buff.Length
    requires v == d.Incoming()
    modifies d`badlines, d.src, d.src.data, d.dst, d.dst.data, d.inp, d.inp.buff, d.inp.buff.data, d.inp.src
    modifies buff, b, b.data
    ensures b.Valid() && (b.data == old(b.data) || fresh(b.data))
    ensures old(d.Owes(DecodeLines(v), BadLines(v), Tail(v))) && Reached([], DecodeLines(v), BadLines(v), v) ==>
      && Reached(b.Contents(), p, bad, v)
      && (b.slen == INT_MAX || (p == [] && DecodeLine(Tail(v)).bytes == [] && d.badlines == bad))
    ensures b.slen <= INT_MAX
    ensures old(d.Runs(ThroughBad(v), BadBytes(v), |ThroughBad(v)|)) && |BadBytes(v)| <= |ThroughBad(v)| ==>
      && Stuck(v, rep, b.Contents())
      && (old(d.AtOnce()) && old(d.dst.slen) == 0 && |ThroughBad(v)| <= Min(INT_MAX, buff.Length)
          ==> rep == ThroughBad(v))
  {
    hide Bstring.Contents, DecodeLine, First, Owed, Repeating, DecodeLines, BadLines, Tail, Reached;
    hide ThroughBad, BadBytes, Telling, Stuck, Repeats, RunsInto;
    hide BStream.Virtual, BStream.Valid, Bstring.Terminated;
    hide Decoder.Valid, Decoder.Apart, Decoder.Incoming, Decoder.Owes, Decoder.Runs, Decoder.AtOnce;
    p, bad := DecodeLines(v), BadLines(v);
    ghost var t, e := Tail(v), DecodeLine(Tail(v));
    ghost var sound := d.Owes(p, bad, t) && Reached([], p, bad, v);
    ghost var q, k: nat, hit := ThroughBad(v), |ThroughBad(v)|, false;
    rep := BadBytes(v);
    ghost var runs := d.Runs(q, rep, k) && |rep| <= |q|;
    ghost var swift := runs && d.AtOnce() && d.dst.slen == 0 && |q| <= Min(INT_MAX, buff.Length);
    assert b.Contents() == [];
    TellingFirst(v);
    var l := 1;
    while b.slen < INT_MAX && l != 0
      invariant b.Valid() && b.slen <= INT_MAX && (b.data == old(b.data) || fresh(b.data))
      invariant d.Valid() && d.Apart(b, buff)
      invariant d.src.data == old(d.src.data) || fresh(d.src.data)
      invariant d.dst.data == old(d.dst.data) || fresh(d.dst.data)
      invariant d.inp.buff.data == old(d.inp.buff.data) || fresh(d.inp.buff.data)
      invariant sound ==> d.Owes(p, bad, t) && Reached(b.Contents(), p, bad, v)
      invariant sound && l == 0 ==> p == [] && e.bytes == [] && d.badlines == bad
      invariant runs ==> d.Runs(q, BadBytes(v), k) && Telling(v, rep, hit, b.Contents(), q, k)
      invariant runs && l == 0 ==> hit && q == []
      invariant swift ==>
        if hit then rep == ThroughBad(v) else b.slen == 0 && d.AtOnce() && d.dst.slen == 0 && q == ThroughBad(v)
      decreases INT_MAX - b.slen, l
    {
      ghost var was, again, more, rest, stopped, extra, left := b.Contents(), false, [], [], false, [], [];
      l, again, more, rest, stopped, extra, left :=
        d.PartInto(b, buff, Min(INT_MAX - b.slen, buff.Length), p, bad, t, q, BadBytes(v), k);
      if sound {
        ReachedStep(was, p, bad, v, again, more, rest, d.counting);
        p, bad := rest, bad + if again && e.bad && d.counting then 1 else 0;
      }
      if runs {
        TellingStep(v, rep, hit, was, q, k, more, left, extra, stopped);
        if stopped && !hit {
          rep, k, hit := extra, |extra|, true;
        }
        q := left;
      }
    }
    if runs {
      TellingLast(v, rep, hit, b.Contents(), q, k);
    }
  }

  /** out has been read of what v decodes to, p is what is owed without the tail. */
  predicate Reached(out: seq<Byte>, p: seq<Byte>, bad: nat, v: seq<Byte>) {
    var e := DecodeLine(Tail(v));
    && |out| <= INT_MAX
    && out + Repeating(p, e.bytes, INT_MAX - |out|) == Repeating(DecodeLines(v), e.bytes, INT_MAX)
    && (e == Decoded([], false) ==> bad == BadLines(v) && |out| + |p| == |DecodeLines(v)|)
  }

  lemma ReachedFirst(v: seq<Byte>, counting: bool)
    ensures Reached([], DecodeLines(v), BadLines(v), v)
    ensures counting || BadLines(v) == 0 ==> Owed(v, [], 0, counting, DecodeLines(v), BadLines(v), Tail(v))
  {
    hide Repeating, DecodeLine, BadLines, Tail, First;
    assert [] + DecodeLines(v) == DecodeLines(v);
    var all := Repeating(DecodeLines(v), DecodeLine(Tail(v)).bytes, INT_MAX);
    assert [] + all == all;
  }

  lemma ReachedStep(out: seq<Byte>, p: seq<Byte>, bad: nat, v: seq<Byte>, again: bool, more: seq<Byte>, rest: seq<Byte>,
                    counting: bool)
    requires Reached(out, p, bad, v) && |out| + |more| <= INT_MAX
    requires p + (if again then DecodeLine(Tail(v)).bytes else []) == more + rest
    ensures Reached(out + more, rest, bad + (if again && DecodeLine(Tail(v)).bad && counting then 1 else 0), v)
  {
    hide Repeating, DecodeLine, DecodeLines, BadLines, Tail;
    var e := DecodeLine(Tail(v)).bytes;
    RepeatStep(p, again, e, more, rest, INT_MAX - |out|);
    ConcatAssoc(out, more, Repeating(rest, e, INT_MAX - |out + more|));
    assert |more| + |rest| == |p| + if again then |e| else 0;
  }

  lemma ReachedLast(out: seq<Byte>, p: seq<Byte>, bad: nat, v: seq<Byte>)
    ensures Reached(out, p, bad, v) && (|out| == INT_MAX || (p == [] && DecodeLine(Tail(v)).bytes == [])) ==>
      && out == Repeating(DecodeLines(v), DecodeLine(Tail(v)).bytes, INT_MAX)
      && (DecodeLine(Tail(v)) == Decoded([], false) ==> bad == BadLines(v) && |out| + |p| == |DecodeLines(v)|)
  {
    hide DecodeLine, DecodeLines, BadLines, Tail;
    assert out + [] == out;
  }

  /** A piece more of the repeating text. */
  lemma RepeatStep(p: seq<Byte>, again: bool, e: seq<Byte>, more: seq<Byte>, rest: seq<Byte>, n: nat)
    requires p + (if again then e else []) == more + rest && |more| <= n
    ensures Repeating(p, e, n) == more + Repeating(rest, e, n - |more|)
  {
    hide Repeating;
    RepeatOnce(p, e, n);
    assert p + [] == p;
    RepeatDrop(more, rest, e, n - |more|);
  }

  /** What `bUuDecodeEx` reads of an encoded string is the string, whatever the chunks and buffers. */
  lemma DecodeExInvertsEncode(x: seq<Byte>)
    requires |x| <= INT_MAX
    ensures Repeating(DecodeLines(Encode(x)), DecodeLine(Tail(Encode(x))).bytes, INT_MAX) == x
    ensures DecodeLine(Tail(Encode(x))) == Decoded([], false) && BadLines(Encode(x)) == 0
  {
    hide DecodeLines, BadLines, Tail, Encode;
    RoundTrip(x);
    assert x[..|x|] == x;
  }

  /** The output ends with the last terminated line exactly if the rest decodes to nothing (or n bytes come first);
      otherwise the rest is repeated until n bytes are there. */
  lemma {:induction false} EndsWithLines(d: seq<Byte>, t: seq<Byte>, n: nat)
    ensures Repeating(d, t, n) == d[..Min(n, |d|)] <==> t == [] || n <= |d|
    ensures |Repeating(d, t, n)| == n <==> t != [] || n <= |d|
    decreases n - |d|
  {
    if n > |d| && t != [] {
      EndsWithLines(d + t, t, n);
    }
  }

  lemma EncodedAbc()
    ensures EncodeGroups([97, 98, 99]) == [56, 54, 41, 67] && EncodeByte(3) == 35
  {
    assert EncodeGroup(97, 98, 99) == [56, 54, 41, 67];
    hide EncodeGroup;
    assert [97, 98, 99][3..] == [] && EncodeGroups([]) == [];
    assert [56, 54, 41, 67] + [] == [56, 54, 41, 67];
  }

  /** An unterminated line, three bytes long, is such a rest. */
  lemma UnterminatedLine()
    ensures var v := [35, 56, 54, 41, 67]; Tail(v) == v && DecodeLine(v) == Decoded([97, 98, 99], false)
  {
    hide First, EncodeGroups, EncodeByte, DecodeLine;
    var v: seq<Byte> := [35, 56, 54, 41, 67];
    FirstUnique(v, EOL, 5);
    var line := EncodeLine([97, 98, 99]);
    EncodedAbc();
    assert line == v;
    LineRoundTrip([97, 98, 99]);
  }

  /** `bUuDecodeEx` over a string, with the buffers it has there.  Without a counter, a string that one read takes in
      gives only the lines in front of its bad line if and only if there are no bytes in them and in that line. */
  method DecodeString(v: seq<Byte>, counting: bool) returns (b: Bstring, ok: bool, badlines: nat)
    ensures b.Valid() && ok == (b.Contents() != [])
    ensures counting || BadLines(v) == 0 ==>
      b.Contents() == Repeating(DecodeLines(v), DecodeLine(Tail(v)).bytes, INT_MAX)
    ensures !counting && BadLines(v) > 0 && |v| <= 1024 && |ThroughBad(v)| <= 1024 ==>
      && (b.Contents() == GoodLines(v) <==> ThroughBad(v) == [])
      && ThroughBad(v) + ThroughBad(v) <= b.Contents()
  {
    hide DecodeLine, Repeating, DecodeLines, BadLines, Tail, GoodLines, ThroughBad, Stuck, Bstring.Contents;
    var src := new Source(v, [], 0);
    var inp := new BStream.Open(src);
    ghost var repeated;
    b, ok, badlines, repeated := UuDecodeEx(inp, counting, 1024);
    if !counting && BadLines(v) > 0 && |v| <= 1024 && |ThroughBad(v)| <= 1024 {
      StuckTwice(v, b.Contents());
    }
  }

  lemma StuckTwice(v: seq<Byte>, out: seq<Byte>)
    requires |ThroughBad(v)| <= 1024 && Stuck(v, ThroughBad(v), out)
    ensures (out == GoodLines(v) <==> ThroughBad(v) == []) && ThroughBad(v) + ThroughBad(v) <= out
  {
    OnlyGoodIff(v, ThroughBad(v), out);
    ThroughIsGoodAndBad(v);
    hide GoodLines, BadBytes, ThroughBad;
    var tb, g := ThroughBad(v), GoodLines(v);
    assert (tb + tb)[..|tb + tb|] == tb + tb && g[..|g|] == g;
  }

  /** The same up to the first bad line. */
  lemma LineAndBad(line: seq<Byte>, rest: seq<Byte>)
    requires First(line + EOL, EOL) == |line|
    ensures var d := DecodeLine(line);
      && ThroughBad(line + EOL + rest) == d.bytes + (if d.bad then [] else ThroughBad(rest))
      && BadBytes(line + EOL + rest) == if d.bad then d.bytes else BadBytes(rest)
  {
    hide DecodeLine, First, DecodeLines, BadLines, Tail, ThroughBad, BadBytes;
    var v := line + EOL;
    assert v[..|line|] == line && v[|line| + 1..] == [10];
    FirstLine(v, rest);
    FirstUnique([10], EOL, 0);
    assert [10][..0] == [] && [10][1..] == [];
    EmptyLine([], []);
    FirstLine([10], rest);
    assert [] + rest == rest && [] + ThroughBad(rest) == ThroughBad(rest);
  }

  /** A line of three bytes and then a bad one that gives none. */
  lemma StuckText()
    ensures var v := [35, 56, 54, 41, 67, 13, 10, 126, 13, 10];
      BadLines(v) == 1 && GoodLines(v) == [97, 98, 99] && ThroughBad(v) == [97, 98, 99]
  {
    hide ThroughBad, BadBytes, GoodLines, BadLines, DecodeLine, DecodeLines, Tail;
    var v: seq<Byte> := [35, 56, 54, 41, 67, 13, 10, 126, 13, 10];
    var line: seq<Byte>, bad: seq<Byte> := [35, 56, 54, 41, 67], [126];
    assert v == line + EOL + (bad + EOL + []);
    FirstUnique(line + EOL, EOL, 5);
    FirstUnique(bad + EOL, EOL, 1);
    UnterminatedLine();
    NoLength();
    LineAndEnd(line, bad + EOL + []);
    LineAndEnd(bad, []);
    LineAndBad(line, bad + EOL + []);
    LineAndBad(bad, []);
    EndOfText();
    ThroughIsGoodAndBad(v);
    assert [97, 98, 99] + [] == [97, 98, 99] && GoodLines(v) + [] == GoodLines(v);
  }

  lemma NoLength()
    ensures DecodeLine([126]) == Decoded([], true)
  {
  }

  /** The three bytes come twice, at least. */
  method StuckLine() returns (b: Bstring)
    ensures b.Valid() && [97, 98, 99, 97, 98, 99] <= b.Contents()
  {
    hide BadLines, GoodLines, ThroughBad, Bstring.Contents;
    StuckText();
    var ok, badlines;
    b, ok, badlines := DecodeString([35, 56, 54, 41, 67, 13, 10, 126, 13, 10], false);
    assert [97, 98, 99] + [97, 98, 99] == [97, 98, 99, 97, 98, 99];
  }
}
