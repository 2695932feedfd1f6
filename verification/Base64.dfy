/** Base64 encoding and decoding (deps/bstrlib/bstraux.c:307-498; section 5.2 of RFC 1341). */
module Base64 {
  import opened Bstrings
  import opened Seqs
  import opened Sextets

  const PAD: Byte := 61
  const CRLF: seq<Byte> := [13, 10]
  const LINE: nat := 57

  /** b64ETable. */
  function Symbol(c: Code): Byte {
    if c < 26 then 65 + c
    else if c < 52 then 97 + (c - 26)
    else if c < 62 then 48 + (c - 52)
    else if c == 62 then 43
    else 47
  }

  const B64_PAD := -2
  const B64_ERR := -1

  /** `base64DecodeSymbol`. */
  function DecodeSymbol(alpha: Byte): int {
    if 65 <= alpha <= 90 then alpha - 65
    else if 97 <= alpha <= 122 then 26 + (alpha - 97)
    else if 48 <= alpha <= 57 then 52 + (alpha - 48)
    else if alpha == 43 then 62
    else if alpha == 47 then 63
    else if alpha == 61 then B64_PAD
    else B64_ERR
  }

  lemma SymbolRoundTrip(c: Code)
    ensures DecodeSymbol(Symbol(c)) == c && Symbol(c) != PAD && Symbol(c) !in CRLF
  {
  }

  // ---------------------------------------------------------------------------------------------------
  // Encoding
  // ---------------------------------------------------------------------------------------------------

  function Group(a: Byte, b: Byte, c: Byte): seq<Byte> {
    [Symbol(Sextet0(a)), Symbol(Sextet1(a, b)), Symbol(Sextet2(b, c)), Symbol(Sextet3(c))]
  }

  /** The last one or two bytes, padded. */
  function LastGroup(x: seq<Byte>): seq<Byte>
    requires 1 <= |x| <= 2
  {
    if |x| == 1 then [Symbol(Sextet0(x[0])), Symbol(Sextet1(x[0], 0)), PAD, PAD]
    else [Symbol(Sextet0(x[0])), Symbol(Sextet1(x[0], x[1])), Symbol(Sextet2(x[1], 0)), PAD]
  }

  function Groups(x: seq<Byte>): seq<Byte> {
    if x == [] then [] else if |x| <= 2 then LastGroup(x) else Group(x[0], x[1], x[2]) + Groups(x[3..])
  }

  /** Full lines of 57 bytes each, and the rest on a line of its own. */
  function Encode(x: seq<Byte>): seq<Byte> {
    if |x| < LINE then Groups(x) else Groups(x[..LINE]) + CRLF + Encode(x[LINE..])
  }

  /** The line break in front of byte i, which is written with the group that follows or at the end. */
  function Break(i: nat): seq<Byte> {
    if i > 0 && i % LINE == 0 then CRLF else []
  }

  /** How the encoder's output goes on at byte i. */
  function From(x: seq<Byte>, i: nat): seq<Byte>
    requires i <= |x|
    decreases |x| - i
  {
    Break(i) +
    if i + 2 < |x| then Group(x[i], x[i + 1], x[i + 2]) + From(x, i + 3)
    else Groups(x[i..])
  }

  lemma BreakInLine(i: nat, p: nat)
    requires i % LINE == 0 && i < p < i + LINE
    ensures Break(p) == []
  {
  }

  /** From p on, inside the line from i to e. */
  lemma {:induction false} RestOfLine(x: seq<Byte>, i: nat, p: nat, e: nat)
    requires i % LINE == 0 && i <= p <= e <= |x| && p < i + LINE && (p - i) % 3 == 0
    requires e == i + LINE || (e == |x| && e < i + LINE)
    ensures From(x, p) == Break(p) + (Groups(x[p..e]) + if e == i + LINE then From(x, e) else [])
    decreases |x| - p
  {
    hide Group, Groups, From, Break;
    var tail := if e == i + LINE then From(x, e) else [];
    FromStep(x, p);
    if p + 2 < |x| {
      StepFits(i, p, e);
      var g, rest := Group(x[p], x[p + 1], x[p + 2]), x[p + 3..e];
      GroupsStep(x, p, e);
      if p + 3 < i + LINE {
        RestOfLine(x, i, p + 3, e);
        BreakInLine(i, p + 3);
      } else {
        NoGroups(rest);
      }
      NoBreak(Groups(rest) + tail);
      NoBreak(tail);
      ConcatAssoc(g, Groups(rest), tail);
    } else {
      assert x[p..] == x[p..e];
      assert Groups(x[p..]) + [] == Groups(x[p..]);
    }
  }

  lemma StepFits(i: nat, p: nat, e: nat)
    requires i <= p < i + LINE && (p - i) % 3 == 0
    ensures p + 3 <= i + LINE
  {
  }

  lemma FromStep(x: seq<Byte>, p: nat)
    requires p <= |x|
    ensures From(x, p)
         == Break(p) + if p + 2 < |x| then Group(x[p], x[p + 1], x[p + 2]) + From(x, p + 3) else Groups(x[p..])
  {
  }

  lemma GroupsStep(x: seq<Byte>, p: nat, e: nat)
    requires p + 3 <= e <= |x|
    ensures Groups(x[p..e]) == Group(x[p], x[p + 1], x[p + 2]) + Groups(x[p + 3..e])
  {
    assert x[p..e][3..] == x[p + 3..e];
  }

  lemma NoGroups(x: seq<Byte>)
    ensures x == [] ==> Groups(x) == []
  {
  }

  lemma NoBreak(s: seq<Byte>)
    ensures [] + s == s
  {
  }

  /** The order of the breaks does not matter. */
  lemma {:induction false} FromIsEncode(x: seq<Byte>, i: nat)
    requires i <= |x| && i % LINE == 0
    ensures From(x, i) == Break(i) + Encode(x[i..])
    decreases |x| - i
  {
    hide Groups, From;
    var e := if i + LINE <= |x| then i + LINE else |x|;
    RestOfLine(x, i, i, e);
    if i + LINE <= |x| {
      FromIsEncode(x, e);
      assert x[i..][..LINE] == x[i..e] && x[i..][LINE..] == x[e..];
      ConcatAssoc(Groups(x[i..e]), CRLF, Encode(x[e..]));
    } else {
      assert x[i..e] == x[i..];
      assert Groups(x[i..]) + [] == Groups(x[i..]);
    }
  }

  method AppendBreak(out: Bstring, i: nat)
    requires out.Valid()
    modifies out, out.data
    ensures out.Valid() && out.Contents() == old(out.Contents()) + Break(i)
    ensures out.data == old(out.data) || fresh(out.data)
  {
    if i != 0 && i % LINE == 0 {
      out.Conchar(13);
      out.Conchar(10);
    }
  }

  method AppendFour(out: Bstring, s: seq<Byte>)
    requires out.Valid() && |s| == 4
    modifies out, out.data
    ensures out.Valid() && out.Contents() == old(out.Contents()) + s
    ensures out.data == old(out.data) || fresh(out.data)
  {
    hide Bstring.Contents;
    out.Conchar(s[0]);
    out.Conchar(s[1]);
    out.Conchar(s[2]);
    out.Conchar(s[3]);
  }

  /** `bBase64Encode`. */
  method Base64Encode(b: seq<Byte>) returns (out: Bstring)
    ensures fresh(out) && fresh(out.data) && out.Valid() && out.Contents() == Encode(b)
  {
    hide Bstring.Contents, Symbol, Sextet0, Sextet1, Sextet2, Sextet3, Encode, Break;
    out := new Bstring.Empty();
    var i := 0;
    FromStart(b);
    while i + 2 < |b|
      invariant i <= |b| && fresh(out) && fresh(out.data) && out.Valid()
      invariant out.Contents() + From(b, i) == Encode(b)
      decreases |b| - i
    {
      ghost var o, g := out.Contents(), Group(b[i], b[i + 1], b[i + 2]);
      AppendBreak(out, i);
      AppendFour(out, [Symbol(Sextet0(b[i])), Symbol(Sextet1(b[i], b[i + 1])), Symbol(Sextet2(b[i + 1], b[i + 2])),
                       Symbol(Sextet3(b[i + 2]))]);
      Moved(o, Break(i), g, From(b, i + 3));
      i := i + 3;
    }
    ghost var o, rest := out.Contents(), b[i..];
    AppendBreak(out, i);
    assert o + (Break(i) + Groups(rest)) == Encode(b);
    ConcatAssoc(o, Break(i), Groups(rest));
    if i + 2 == |b| {
      AppendFour(out, [Symbol(Sextet0(b[i])), Symbol(Sextet1(b[i], b[i + 1])), Symbol(Sextet2(b[i + 1], 0)), PAD]);
    } else if i + 1 == |b| {
      AppendFour(out, [Symbol(Sextet0(b[i])), Symbol(Sextet1(b[i], 0)), PAD, PAD]);
    } else {
      assert rest == [];
    }
  }

  lemma FromStart(b: seq<Byte>)
    ensures [] + From(b, 0) == Encode(b)
  {
    FromIsEncode(b, 0);
    assert b[0..] == b && [] + Encode(b) == Encode(b) && [] + From(b, 0) == From(b, 0);
  }

  lemma Moved(o: seq<Byte>, b: seq<Byte>, g: seq<Byte>, rest: seq<Byte>)
    ensures o + b + g + rest == o + (b + (g + rest))
  {
  }

  // ---------------------------------------------------------------------------------------------------
  // Decoding
  // ---------------------------------------------------------------------------------------------------

  predicate Meaningless(b: Byte) {
    DecodeSymbol(b) == B64_ERR
  }

  function Value(b: Byte): Code {
    if DecodeSymbol(b) < 0 then 0 else DecodeSymbol(b)
  }

  /** s without the leading characters that mean nothing. */
  function Skip(s: seq<Byte>): (r: seq<Byte>)
    ensures |r| <= |s|
  {
    if s != [] && Meaningless(s[0]) then Skip(s[1..]) else s
  }

  /** The bytes of a text, and whether it is truncated. */
  datatype Decoded = Decoded(bytes: seq<Byte>, truncated: bool)

  /** Up to four symbols: the end of the text, or three bytes and what follows them. */
  datatype Quad = End(d: Decoded) | Full(bytes: seq<Byte>, rest: seq<Byte>)

  predicate Stops(s: seq<Byte>) {
    s == [] || s[0] == PAD
  }

  function DecodeQuad(text: seq<Byte>): (q: Quad)
    ensures q.Full? ==> |q.rest| < |text|
  {
    var s0 := Skip(text);
    if Stops(s0) then End(Decoded([], s0 != []))
    else
      var s1 := Skip(s0[1..]);
      if Stops(s1) then End(Decoded([], true)) else DecodeThird(s0[0], s1[0], Skip(s1[1..]))
  }

  function DecodeThird(v0: Byte, v1: Byte, s2: seq<Byte>): (q: Quad)
    ensures q.Full? ==> |q.rest| < |s2|
  {
    var a := Octet0(Value(v0), Value(v1));
    if s2 == [] then End(Decoded([], true))
    else if s2[0] == PAD then End(if |s2| > 1 && s2[1] == PAD then Decoded([a], false) else Decoded([], true))
    else
      var b, s3 := Octet1(Value(v1), Value(s2[0])), Skip(s2[1..]);
      if s3 == [] then End(Decoded([], true))
      else if s3[0] == PAD then End(Decoded([a, b], false))
      else Full([a, b, Octet2(Value(s2[0]), Value(s3[0]))], s3[1..])
  }

  function Decode(text: seq<Byte>): Decoded
    decreases |text|
  {
    match DecodeQuad(text)
    case End(d) => d
    case Full(bytes, rest) => Prepend(bytes, Decode(rest))
  }

  /** One of the four inner loops: on from i to a character that means something. */
  method NextSymbol(b: seq<Byte>, i0: nat) returns (i: nat)
    requires i0 <= |b|
    ensures i0 <= i <= |b| && b[i..] == Skip(b[i0..])
  {
    i := i0;
    while i < |b| && Meaningless(b[i])
      invariant i0 <= i <= |b| && Skip(b[i..]) == Skip(b[i0..])
    {
      assert b[i..][1..] == b[i + 1..];
      i := i + 1;
    }
  }

  /** `bBase64DecodeEx`.  Without a place for the flag the original returns NULL where this returns true for it. */
  method Base64DecodeEx(b: seq<Byte>) returns (out: Bstring, truncated: bool)
    ensures fresh(out) && fresh(out.data) && out.Valid()
    ensures Decoded(out.Contents(), truncated) == Decode(b)
  {
    hide Bstring.Contents, DecodeQuad;
    out := new Bstring.Empty();
    var i, more := 0, true;
    truncated := false;
    assert b[0..] == b;
    assert [] + Decode(b).bytes == Decode(b).bytes;
    while more
      invariant i <= |b| && fresh(out) && fresh(out.data) && out.Valid()
      invariant more ==> Decode(b) == Prepend(out.Contents(), Decode(b[i..]))
      invariant !more ==> Decode(b) == Decoded(out.Contents(), truncated)
      decreases |b| - i, more
    {
      ghost var o, q := out.Contents(), DecodeQuad(b[i..]);
      i, more, truncated := NextQuad(b, i, out);
      if more {
        ConcatAssoc(o, q.bytes, Decode(b[i..]).bytes);
      }
    }
  }

  /** One turn of the outer loop. */
  method NextQuad(b: seq<Byte>, i0: nat, out: Bstring) returns (i: nat, more: bool, truncated: bool)
    requires i0 <= |b| && out.Valid()
    modifies out, out.data
    ensures out.Valid() && (out.data == old(out.data) || fresh(out.data))
    ensures i0 <= i <= |b|
    ensures match DecodeQuad(b[i0..])
      case End(d) => !more && truncated == d.truncated && out.Contents() == old(out.Contents()) + d.bytes
      case Full(bytes, rest) => more && i0 < i && rest == b[i..] && out.Contents() == old(out.Contents()) + bytes
  {
    hide Bstring.Contents, DecodeThird, Skip;
    assert out.Contents() + [] == out.Contents();
    i := NextSymbol(b, i0);
    if i == |b| || b[i] == PAD {
      return i, false, i < |b|;
    }
    var v0 := b[i];
    assert b[i..][1..] == b[i + 1..];
    i := NextSymbol(b, i + 1);
    if i == |b| || b[i] == PAD {
      return i, false, true;
    }
    var v1 := b[i];
    assert b[i..][1..] == b[i + 1..];
    i := NextSymbol(b, i + 1);
    i, more, truncated := NextThird(b, i, v0, v1, out);
  }

  /** The third and the fourth symbol of a turn. */
  method NextThird(b: seq<Byte>, i0: nat, v0: Byte, v1: Byte, out: Bstring)
    returns (i: nat, more: bool, truncated: bool)
    requires i0 <= |b| && out.Valid()
    modifies out, out.data
    ensures out.Valid() && (out.data == old(out.data) || fresh(out.data))
    ensures i0 <= i <= |b|
    ensures match DecodeThird(v0, v1, b[i0..])
      case End(d) => !more && truncated == d.truncated && out.Contents() == old(out.Contents()) + d.bytes
      case Full(bytes, rest) => more && i0 < i && rest == b[i..] && out.Contents() == old(out.Contents()) + bytes
  {
    hide Bstring.Contents, Octet0, Octet1, Octet2, Value, Skip;
    i, more, truncated := i0, false, true;
    ghost var o := out.Contents();
    assert o + [] == o;
    var c0 := Octet0(Value(v0), Value(v1));
    if i == |b| {
      return;
    }
    if b[i] == PAD {
      if i + 1 < |b| && b[i + 1] == PAD {
        out.Conchar(c0);
        truncated := false;
      }
      return;
    }
    var c1, v2 := Octet1(Value(v1), Value(b[i])), b[i];
    assert b[i..][1..] == b[i + 1..];
    i := NextSymbol(b, i + 1);
    if i == |b| {
      return;
    }
    out.Conchar(c0);
    out.Conchar(c1);
    ConcatAssoc(o, [c0], [c1]);
    truncated := false;
    if b[i] == PAD {
      return;
    }
    out.Conchar(Octet2(Value(v2), Value(b[i])));
    ConcatAssoc(o, [c0, c1], [Octet2(Value(v2), Value(b[i]))]);
    assert b[i..][1..] == b[i + 1..];
    i, more := i + 1, true;
  }

  function Prepend(bytes: seq<Byte>, d: Decoded): Decoded {
    Decoded(bytes + d.bytes, d.truncated)
  }

  // ---------------------------------------------------------------------------------------------------
  // Round trip and line length
  // ---------------------------------------------------------------------------------------------------

  lemma DecodesGroup(a: Byte, b: Byte, c: Byte, rest: seq<Byte>)
    ensures Decode(Group(a, b, c) + rest) == Prepend([a, b, c], Decode(rest))
  {
    hide Symbol, DecodeSymbol, Sextet0, Sextet1, Sextet2, Sextet3, Octet0, Octet1, Octet2;
    SymbolRoundTrip(Sextet0(a));
    SymbolRoundTrip(Sextet1(a, b));
    SymbolRoundTrip(Sextet2(b, c));
    SymbolRoundTrip(Sextet3(c));
    OctetsFromSextets(a, b, c);
    var s := Group(a, b, c) + rest;
    assert s[1..][1..] == s[2..] && s[2..][1..] == s[3..] && s[3..][1..] == s[4..] == rest;
    assert s[1..][0] == s[1] && s[2..][0] == s[2] && s[3..][0] == s[3];
  }

  lemma DecodesLast(x: seq<Byte>, rest: seq<Byte>)
    requires 1 <= |x| <= 2
    ensures Decode(LastGroup(x) + rest) == Decoded(x, false)
  {
    hide Symbol, DecodeSymbol, Sextet0, Sextet1, Sextet2, Sextet3, Octet0, Octet1, Octet2;
    var a, b := x[0], if |x| == 2 then x[1] else 0;
    SymbolRoundTrip(Sextet0(a));
    SymbolRoundTrip(Sextet1(a, b));
    SymbolRoundTrip(Sextet2(b, 0));
    OctetsFromSextets(a, b, 0);
    assert DecodeSymbol(PAD) == B64_PAD by { PadIsPad(); }
    var s := LastGroup(x) + rest;
    assert s[1..][1..] == s[2..] && s[2..][1..] == s[3..];
    assert s[1..][0] == s[1] && s[2..][0] == s[2] && s[3..][0] == s[3];
    assert x == if |x| == 1 then [a] else [a, b];
  }

  lemma PadIsPad()
    ensures DecodeSymbol(PAD) == B64_PAD
  {
  }

  /** Whole groups decode to their bytes; a padded one ends the text. */
  lemma {:induction false} GroupsRoundTrip(x: seq<Byte>, tail: seq<Byte>)
    ensures Decode(Groups(x) + tail) == if |x| % 3 == 0 then Prepend(x, Decode(tail)) else Decoded(x, false)
    decreases |x|
  {
    hide Decode, Group, LastGroup;
    if x == [] {
      assert [] + tail == tail && [] + Decode(tail).bytes == Decode(tail).bytes;
    } else if |x| <= 2 {
      DecodesLast(x, tail);
    } else {
      var g, rest := Group(x[0], x[1], x[2]), x[3..];
      GroupsRoundTrip(rest, tail);
      DecodesGroup(x[0], x[1], x[2], Groups(rest) + tail);
      ConcatAssoc(g, Groups(rest), tail);
      assert x == [x[0], x[1], x[2]] + rest;
      ConcatAssoc([x[0], x[1], x[2]], rest, Decode(tail).bytes);
    }
  }

  lemma LineBreaks(rest: seq<Byte>)
    ensures Decode(CRLF + rest) == Decode(rest) && Decode([]) == Decoded([], false)
  {
    var s := CRLF + rest;
    assert s[1..][1..] == rest;
    assert Skip(s) == Skip(s[1..]) == Skip(rest);
  }

  /** Decoding inverts encoding, without a truncation flag. */
  lemma {:induction false} RoundTrip(x: seq<Byte>)
    ensures Decode(Encode(x)) == Decoded(x, false)
    decreases |x|
  {
    hide Decode, Groups;
    if |x| < LINE {
      GroupsRoundTrip(x, []);
      LineBreaks([]);
      assert Groups(x) + [] == Groups(x) && x + [] == x;
    } else {
      var rest := Encode(x[LINE..]);
      GroupsRoundTrip(x[..LINE], CRLF + rest);
      ConcatAssoc(Groups(x[..LINE]), CRLF, rest);
      LineBreaks(rest);
      RoundTrip(x[LINE..]);
      TakeDrop(x, LINE);
    }
  }

  predicate IsBreak(b: Byte) {
    b in CRLF
  }

  /** 4 symbols for every 3 bytes begun. */
  lemma {:induction false} GroupsLength(x: seq<Byte>)
    ensures |Groups(x)| == (|x| + 2) / 3 * 4
    decreases |x|
  {
    if |x| > 2 {
      GroupsLength(x[3..]);
    }
  }

  /** No line is longer than 76 characters: behind any position there is a line break or the end in time. */
  lemma {:induction false} LinesFit(x: seq<Byte>, i: nat)
    requires i + 76 < |Encode(x)|
    ensures exists k | i <= k <= i + 76 :: IsBreak(Encode(x)[k])
    decreases |x|
  {
    hide Groups;
    if |x| < LINE {
      GroupsLength(x);
    } else {
      var line, rest := Groups(x[..LINE]), Encode(x[LINE..]);
      GroupsLength(x[..LINE]);
      if i <= 77 {
        assert IsBreak(Encode(x)[if i <= 76 then 76 else 77]);
      } else {
        LinesFit(x[LINE..], i - 78);
        var k :| i - 78 <= k <= i - 2 && IsBreak(rest[k]);
        assert Encode(x)[k + 78] == rest[k];
      }
    }
  }
}
