/** UTF-8 and UTF-16 transcoding (deps/bstrlib/buniutil.c and deps/bstrlib/utf8util.c; section 3 of RFC 3629 and
    sections 2.1 and 2.2 of RFC 2781).

    Shifts and masks are written as products, quotients and remainders. */
module Utf {
  import opened Bstrings
  import opened Seqs
  import opened Wrappers

  type Word = w: int | 0 <= w < 0x1_0000

  /** isLegalUnicodeCodePoint: no surrogates, and neither of the last two code points of a plane. */
  predicate Legal(v: int) {
    0 <= v <= 0x10FFFF && (v < 0xD800 || v > 0xDFFF) && v % 0x1_0000 < 0xFFFE
  }

  type CodePoint = v: int | 0 <= v <= 0x10FFFF && Legal(v)

  // ---------------------------------------------------------------------------------------------------
  // One code point in UTF-8
  // ---------------------------------------------------------------------------------------------------

  type Six = b: int | 0 <= b < 0x40

  /** Groups of six bits, the lowest first. */
  function Six0(v: nat): Six {
    v % 0x40
  }

  function Six1(v: nat): Six {
    v / 0x40 % 0x40
  }

  function Six2(v: nat): Six {
    v / 0x1000 % 0x40
  }

  function Utf8(v: CodePoint): (s: seq<Byte>)
    ensures 1 <= |s| <= 4
  {
    if v < 0x80 then [v]
    else if v < 0x800 then [v / 0x40 + 0xC0, Six0(v) + 0x80]
    else if v < 0x1_0000 then [v / 0x1000 + 0xE0, Six1(v) + 0x80, Six0(v) + 0x80]
    else [v / 0x4_0000 + 0xF0, Six2(v) + 0x80, Six1(v) + 0x80, Six0(v) + 0x80]
  }

  /** The groups put together, and taken apart again. */
  lemma Together(v: nat)
    ensures v / 0x40 * 0x40 + Six0(v) == v
    ensures v / 0x1000 * 0x1000 + Six1(v) * 0x40 + Six0(v) == v
    ensures v / 0x4_0000 * 0x4_0000 + Six2(v) * 0x1000 + Six1(v) * 0x40 + Six0(v) == v
  {
    assert v / 0x40 / 0x40 == v / 0x1000;
    assert v / 0x1000 / 0x40 == v / 0x4_0000;
  }

  lemma Apart(h: nat, c2: Six, c1: Six, c0: Six)
    ensures var v := h * 0x40 + c0; v / 0x40 == h && Six0(v) == c0
    ensures var v := h * 0x1000 + c1 * 0x40 + c0; v / 0x1000 == h && Six1(v) == c1 && Six0(v) == c0
    ensures var v := h * 0x4_0000 + c2 * 0x1000 + c1 * 0x40 + c0;
      v / 0x4_0000 == h && Six2(v) == c2 && Six1(v) == c1 && Six0(v) == c0
  {
    var v := h * 0x1000 + c1 * 0x40 + c0;
    assert v / 0x40 == h * 0x40 + c1;
    var w := h * 0x4_0000 + c2 * 0x1000 + c1 * 0x40 + c0;
    assert w / 0x40 == h * 0x1000 + c2 * 0x40 + c1;
    assert w / 0x1000 == h * 0x40 + c2;
  }

  function Encode(cps: seq<CodePoint>): seq<Byte> {
    if cps == [] then [] else Utf8(cps[0]) + Encode(cps[1..])
  }

  /** A continuation byte less 0x80, as a byte. */
  function Low(b: Byte): Byte {
    (b + 0x80) % 0x100
  }

  datatype Parsed = Parsed(v: int, n: nat)

  function Parse2(c: Byte, c1: Byte): Option<Parsed> {
    var v := (c - 0xC0) * 0x40 + Low(c1);
    if Low(c1) >= 0x40 || v < 0x80 then None else Some(Parsed(v, 2))
  }

  function Parse3(c: Byte, c1: Byte, c2: Byte): Option<Parsed> {
    var v := (c - 0xE0) * 0x1000 + Low(c1) * 0x40 + Low(c2);
    if Low(c1) >= 0x40 || Low(c2) >= 0x40 || v < 0x800 || !Legal(v) then None else Some(Parsed(v, 3))
  }

  function Parse4(c: Byte, c1: Byte, c2: Byte, c3: Byte): Option<Parsed> {
    var v := (c - 0xF0) * 0x4_0000 + Low(c1) * 0x1000 + Low(c2) * 0x40 + Low(c3);
    if Low(c1) >= 0x40 || Low(c2) >= 0x40 || Low(c3) >= 0x40 || v < 0x1_0000 || !Legal(v) then None
    else Some(Parsed(v, 4))
  }

  /** What the iterator makes of a byte and the three bytes behind it. */
  function Parse(c: Byte, c1: Byte, c2: Byte, c3: Byte): Option<Parsed> {
    if c < 0xC0 || c > 0xFD then if c >= 0x80 then None else Some(Parsed(c, 1))
    else if c < 0xE0 then Parse2(c, c1)
    else if c < 0xF0 then Parse3(c, c1, c2)
    else if c < 0xF8 then Parse4(c, c1, c2, c3)
    else None
  }

  /** v and ofs say the same as p, with an ofs of 0 for an error. */
  predicate Result(p: Option<Parsed>, v: int, ofs: nat) {
    match p
    case Some(x) => v == x.v && ofs == x.n
    case None => ofs == 0
  }

  function At(s: seq<Byte>, i: nat): Byte {
    if i < |s| then s[i] else 0
  }

  function ParseFirst(s: seq<Byte>): Option<Parsed> {
    Parse(At(s, 0), At(s, 1), At(s, 2), At(s, 3))
  }

  /** s is the encoding of a legal code point, and p says which. */
  predicate Encodes(p: Option<Parsed>, s: seq<Byte>) {
    p.Some? ==> 1 <= p.value.n <= |s| && Legal(p.value.v) && Utf8(p.value.v) == s[..p.value.n]
  }

  lemma LowBack(b: Byte)
    ensures Low(b) < 0x40 ==> b == Low(b) + 0x80
  {
  }

  lemma Sound2(c: Byte, c1: Byte)
    requires 0xC0 <= c < 0xE0
    ensures Encodes(Parse2(c, c1), [c, c1])
  {
    if Low(c1) < 0x40 {
      Apart(c - 0xC0, 0, 0, Low(c1));
    }
  }

  lemma Sound3(c: Byte, c1: Byte, c2: Byte)
    requires 0xE0 <= c < 0xF0
    ensures Encodes(Parse3(c, c1, c2), [c, c1, c2])
  {
    hide Six0, Six1, Six2, Low, Legal;
    if Low(c1) < 0x40 && Low(c2) < 0x40 {
      Apart(c - 0xE0, 0, Low(c1), Low(c2));
      LowBack(c1);
      LowBack(c2);
    }
  }

  lemma Sound4(c: Byte, c1: Byte, c2: Byte, c3: Byte)
    requires 0xF0 <= c < 0xF8
    ensures Encodes(Parse4(c, c1, c2, c3), [c, c1, c2, c3])
  {
    hide Six0, Six1, Six2, Low, Legal;
    if Low(c1) < 0x40 && Low(c2) < 0x40 && Low(c3) < 0x40 {
      Apart(c - 0xF0, Low(c1), Low(c2), Low(c3));
      LowBack(c1);
      LowBack(c2);
      LowBack(c3);
    }
  }

  /** What parses is the encoding of a legal code point: nothing overlong, no surrogate, no noncharacter. */
  lemma ParseSound(c: Byte, c1: Byte, c2: Byte, c3: Byte)
    ensures Encodes(Parse(c, c1, c2, c3), [c, c1, c2, c3])
  {
    hide Utf8, Parse2, Parse3, Parse4, Low;
    var s := [c, c1, c2, c3];
    if c < 0x80 {
      OneByte(c);
      assert s[..1] == [c];
    } else if 0xC0 <= c < 0xE0 {
      Sound2(c, c1);
      Extends(Parse2(c, c1), [c, c1], s);
    } else if 0xE0 <= c < 0xF0 {
      Sound3(c, c1, c2);
      Extends(Parse3(c, c1, c2), [c, c1, c2], s);
    } else if 0xF0 <= c < 0xF8 {
      Sound4(c, c1, c2, c3);
    }
  }

  lemma ParseLegal(c: Byte, c1: Byte, c2: Byte, c3: Byte)
    ensures var p := Parse(c, c1, c2, c3); p.Some? ==> Legal(p.value.v) && 1 <= p.value.n <= 4
  {
    hide Parse, Legal;
    ParseSound(c, c1, c2, c3);
  }

  lemma OneByte(c: Byte)
    requires c < 0x80
    ensures Legal(c) && Utf8(c) == [c]
  {
  }

  lemma Extends(p: Option<Parsed>, s: seq<Byte>, s': seq<Byte>)
    requires Encodes(p, s) && s <= s'
    ensures Encodes(p, s')
  {
    hide Utf8, Legal;
    if p.Some? {
      assert s[..p.value.n] == s'[..p.value.n];
    }
  }

  lemma Low64(b: Six)
    ensures Low(b + 0x80) == b
  {
  }

  /** The encoding of a legal code point parses, whatever follows. */
  lemma ParseComplete(v: CodePoint, s: seq<Byte>)
    requires Utf8(v) <= s
    ensures ParseFirst(s) == Some(Parsed(v, |Utf8(v)|))
  {
    hide Six0, Six1, Six2, Low, Parse2, Parse3, Parse4, Legal;
    assert forall k | 0 <= k < |Utf8(v)| :: s[k] == Utf8(v)[k];
    if 0x80 <= v < 0x800 {
      Complete2(v);
    } else if 0x800 <= v < 0x1_0000 {
      Complete3(v);
    } else if 0x1_0000 <= v {
      Complete4(v);
    }
  }

  lemma Complete2(v: CodePoint)
    requires 0x80 <= v < 0x800
    ensures Parse2(v / 0x40 + 0xC0, Six0(v) + 0x80) == Some(Parsed(v, 2))
  {
    hide Six0, Low;
    Together(v);
    Low64(Six0(v));
  }

  lemma Complete3(v: CodePoint)
    requires 0x800 <= v < 0x1_0000
    ensures Parse3(v / 0x1000 + 0xE0, Six1(v) + 0x80, Six0(v) + 0x80) == Some(Parsed(v, 3))
  {
    hide Six0, Six1, Low, Legal;
    Together(v);
    Low64(Six0(v));
    Low64(Six1(v));
  }

  lemma Complete4(v: CodePoint)
    requires 0x1_0000 <= v
    ensures Parse4(v / 0x4_0000 + 0xF0, Six2(v) + 0x80, Six1(v) + 0x80, Six0(v) + 0x80) == Some(Parsed(v, 4))
  {
    hide Six0, Six1, Six2, Low, Legal;
    Together(v);
    Low64(Six0(v));
    Low64(Six1(v));
    Low64(Six2(v));
  }

  // ---------------------------------------------------------------------------------------------------
  // Reading a text
  // ---------------------------------------------------------------------------------------------------

  predicate IsContinuation(b: Byte) {
    0x80 <= b < 0xC0
  }

  function Continuations(s: seq<Byte>): (n: nat)
    ensures n <= |s|
  {
    if s != [] && IsContinuation(s[0]) then 1 + Continuations(s[1..]) else 0
  }

  lemma ParseFits(s: seq<Byte>)
    requires s != []
    ensures ParseFirst(s).Some? ==> 1 <= ParseFirst(s).value.n <= |s|
  {
    hide Legal;
  }

  /** How far one step goes: over a code point, or over a byte that starts none and the continuation bytes behind it. */
  function StepLength(s: seq<Byte>): (n: nat)
    requires s != []
    ensures 1 <= n <= |s|
  {
    ParseFits(s);
    match ParseFirst(s)
    case Some(p) => p.n
    case None => 1 + Continuations(s[1..])
  }

  function StepValue(s: seq<Byte>): Option<int> {
    match ParseFirst(s)
    case Some(p) => Some(p.v)
    case None => None
  }

  /** The code points of a text, None for an error. */
  function Steps(s: seq<Byte>): seq<Option<int>> {
    if s == [] then [] else [StepValue(s)] + Steps(s[StepLength(s)..])
  }

  lemma StepSound(s: seq<Byte>)
    requires s != []
    ensures StepValue(s).Some? ==> Legal(StepValue(s).value) && Utf8(StepValue(s).value) == s[..StepLength(s)]
  {
    hide Utf8, Parse, Legal;
    ParseSound(At(s, 0), At(s, 1), At(s, 2), At(s, 3));
    ParseFits(s);
    var quad, n := [At(s, 0), At(s, 1), At(s, 2), At(s, 3)], StepLength(s);
    if StepValue(s).Some? {
      assert quad[..n] == s[..n];
    }
  }

  function AllSome(cps: seq<CodePoint>): seq<Option<int>> {
    if cps == [] then [] else [Some(cps[0])] + AllSome(cps[1..])
  }

  /** Iterating over an encoded text gives its code points, without an error. */
  lemma {:induction false} StepsOfEncode(cps: seq<CodePoint>)
    ensures Steps(Encode(cps)) == AllSome(cps)
    decreases |cps|
  {
    hide Utf8, ParseFirst;
    if cps != [] {
      var s := Encode(cps);
      ParseComplete(cps[0], s);
      assert s[StepLength(s)..] == Encode(cps[1..]);
      StepsOfEncode(cps[1..]);
    }
  }

  /** A text without an error is the encoding of its code points. */
  lemma {:induction false} EncodeOfSteps(s: seq<Byte>) returns (cps: seq<CodePoint>)
    requires None !in Steps(s)
    ensures Encode(cps) == s && AllSome(cps) == Steps(s)
    decreases |s|
  {
    hide Utf8, ParseFirst;
    if s == [] {
      return [];
    }
    var n := StepLength(s);
    StepSound(s);
    assert Steps(s)[0] == StepValue(s) && forall p | p in Steps(s[n..]) :: p in Steps(s);
    var rest := EncodeOfSteps(s[n..]);
    var v: CodePoint := StepValue(s).value;
    cps := [v] + rest;
    assert cps[1..] == rest;
    TakeDrop(s, n);
  }

  /** How many bytes are looked at for a code point that starts with c. */
  function Reach(c: Byte): nat {
    if 0xC0 <= c < 0xE0 then 2 else if 0xE0 <= c < 0xF0 then 3 else if 0xF0 <= c < 0xF8 then 4 else 1
  }

  /** No step looks behind the end. */
  predicate Whole(s: seq<Byte>) {
    s == [] || (Reach(s[0]) <= |s| && Whole(s[StepLength(s)..]))
  }

  lemma ReachOfUtf8(v: CodePoint)
    ensures Reach(Utf8(v)[0]) == |Utf8(v)|
  {
    hide Six0, Six1, Six2;
  }

  lemma {:induction false} WholeEncode(cps: seq<CodePoint>)
    ensures Whole(Encode(cps))
    decreases |cps|
  {
    hide Utf8, ParseFirst, Reach;
    if cps != [] {
      var s := Encode(cps);
      ReachOfUtf8(cps[0]);
      ParseComplete(cps[0], s);
      assert s[StepLength(s)..] == Encode(cps[1..]);
      WholeEncode(cps[1..]);
    }
  }

  /** A text in memory at [from, to): a NUL is behind it, or no sequence is cut off at its end. */
  ghost predicate Readable(data: array<Byte>, from: nat, to: nat)
    reads data
  {
    from <= to <= data.Length && ((to < data.Length && data[to] == 0) || Whole(data[from..to]))
  }

  // ---------------------------------------------------------------------------------------------------
  // The iterator
  // ---------------------------------------------------------------------------------------------------

  class Utf8Iterator {
    /** The text is the slen bytes of data from base on.  The decoder's own checks do not keep its reads inside it. */
    const data: array<Byte>
    const base: nat
    const slen: nat
    var start: int
    var next: nat
    var error: bool

    ghost predicate Valid()
      reads this, data
    {
      base + slen <= data.Length
    }

    /** What is still to be read; a sequence that is cut off at the end may have led behind it. */
    ghost function Ahead(): seq<Byte>
      reads this, data
      requires Valid()
    {
      data[base + Min(next, slen)..base + slen]
    }

    /** The memory behind the text has no say in what is read of it. */
    ghost predicate Closed()
      reads this, data
      requires Valid()
    {
      Readable(data, base + Min(next, slen), base + slen)
    }

    /** `utf8IteratorInit`. */
    constructor (data: array<Byte>, base: nat, slen: nat)
      requires base + slen <= data.Length
      ensures Valid() && this.data == data && this.base == base && this.slen == slen
      ensures Ahead() == data[base..base + slen] && next == 0 && start == -1 && !error
      ensures Closed() <==> Readable(data, base, base + slen)
    {
      this.data, this.base, this.slen, start, next, error := data, base, slen, -1, 0, false;
    }

    /** `utf8IteratorGetNextCodePoint`.  It always goes on and gives a legal code point or errCh; which one, and how
        far it goes, is settled by the text alone if that is closed. */
    method GetNextCodePoint(errCh: int) returns (v: int)
      requires Valid()
      modifies `start, `next, `error
      ensures Valid() && (old(Closed()) ==> Closed())
      ensures old(Ahead()) == [] ==> v == errCh && start == slen && next == old(next) && error == old(error)
      ensures old(Ahead()) != [] ==>
        && start == old(next) && start < next <= slen + 3 && if error then v == errCh && next <= slen else Legal(v)
      ensures old(Ahead()) != [] && old(Closed()) ==>
        && next == start + StepLength(old(Ahead())) && Ahead() == old(Ahead())[StepLength(old(Ahead()))..]
        && error == StepValue(old(Ahead())).None?
        && v == (if error then errCh else StepValue(old(Ahead())).value)
    {
      hide StepLength, StepValue;
      if next >= slen {
        start := slen;
        return errCh;
      }
      ghost var s := Ahead();
      var ofs, failed;
      v, ofs, failed := Look(errCh);
      if Closed() {
        assert ofs <= |s|;
        assert data[base + next + ofs..base + slen] == s[ofs..];
      }
      start, next, error := next, next + ofs, failed;
    }

    /** The code point at next and its length; for an error, errCh and the length of what is skipped. */
    method Look(errCh: int) returns (v: int, ofs: nat, failed: bool)
      requires Valid() && next < slen
      ensures 0 < ofs && next + ofs <= slen + 3 && if failed then v == errCh && next + ofs <= slen else Legal(v)
      ensures Closed() ==> ofs == StepLength(Ahead()) && failed == StepValue(Ahead()).None?
      ensures Closed() ==> v == if failed then errCh else StepValue(Ahead()).value
    {
      hide ParseFirst, Continuations, Legal;
      ghost var s := Ahead();
      v, ofs := ReadOne();
      failed := false;
      if ofs == 0 {
        failed, v, ofs := true, errCh, 1;
        while next + ofs < slen && IsContinuation(data[base + next + ofs])
          invariant 1 <= ofs <= slen - next
          invariant Continuations(s[1..]) == ofs - 1 + Continuations(s[ofs..])
        {
          RunGoesOn(s, ofs);
          ofs := ofs + 1;
        }
        RunEnds(s, ofs);
      }
    }

    /** A byte at or behind next; behind the array it may be any. */
    method Peek(k: nat) returns (c: Byte)
      requires Valid()
      ensures base + next + k < data.Length ==> c == data[base + next + k]
    {
      if base + next + k < data.Length {
        return data[base + next + k];
      }
      c := *;
    }

    /** The cases of the lead byte; ofs is 0 if there is no code point. */
    method ReadOne() returns (v: int, ofs: nat)
      requires Valid() && next < slen
      ensures ofs <= 4 && (ofs != 0 ==> Legal(v))
      ensures Closed() ==>
        match ParseFirst(Ahead())
        case Some(p) => v == p.v && ofs == p.n
        case None => ofs == 0
    {
      hide Parse2, Parse3, Parse4, ParseFirst, Legal;
      var c: int := data[base + next];
      ghost var b1: Byte, b2: Byte, b3: Byte := At(Ahead(), 1), At(Ahead(), 2), At(Ahead(), 3);
      if c < 0xC0 || c > 0xFD {
        v, ofs := c, if c >= 0x80 then 0 else 1;
      } else if c < 0xE0 {
        v, ofs, b1 := ReadTwo(c);
      } else if c < 0xF0 {
        v, ofs, b1, b2 := ReadThree(c);
      } else if c < 0xF8 {
        v, ofs, b1, b2, b3 := ReadFour(c);
      } else {
        v, ofs := c, 0;
      }
      ParseLegal(c, b1, b2, b3);
      if Closed() {
        BytesAhead();
        Padding(Ahead(), b1, b2, b3);
      }
    }

    /** The text and memory, byte by byte. */
    lemma BytesAhead()
      requires Valid() && next < slen && Closed()
      ensures var s := Ahead();
        && |s| == slen - next && s[0] == data[base + next]
        && (|s| > 1 ==> s[1] == data[base + next + 1]) && (|s| > 2 ==> s[2] == data[base + next + 2])
        && (|s| > 3 ==> s[3] == data[base + next + 3])
        && (|s| < Reach(s[0]) ==> base + slen < data.Length && data[base + slen] == 0)
    {
      hide Reach;
      assert data[base + next..base + slen] == Ahead();
    }

    method ReadTwo(c: int) returns (v: int, ofs: nat, ghost b1: Byte)
      requires Valid() && next < slen && 0xC0 <= c < 0xE0
      ensures base + next + 1 < data.Length ==> b1 == data[base + next + 1]
      ensures Result(Parse2(c, b1), v, ofs)
    {
      hide Low;
      v, ofs := c * 0x40 - 0xC0 * 0x40, 0;
      var x1 := Peek(1);
      b1 := x1;
      var c1 := Low(x1);
      v := v + c1;
      if c1 >= 0x40 || v < 0x80 {
        return;
      }
      ofs := 2;
    }

    method ReadThree(c: int) returns (v: int, ofs: nat, ghost b1: Byte, ghost b2: Byte)
      requires Valid() && next < slen && 0xE0 <= c < 0xF0
      ensures base + next + 1 < data.Length ==> b1 == data[base + next + 1]
      ensures base + next + 2 < data.Length ==> b2 == data[base + next + 2]
      ensures Result(Parse3(c, b1, b2), v, ofs)
    {
      hide Legal, Low;
      v, ofs := c * 0x1000 - 0xE0 * 0x1000, 0;
      var x1 := Peek(1);
      var x2 := Peek(2);
      b1, b2 := x1, x2;
      var c1: int, d: int := Low(x1), Low(x2);
      v := v + (c1 * 0x40 + d);
      if c1 >= 0x40 || d >= 0x40 || v < 0x800 || !Legal(v) {
        return;
      }
      ofs := 3;
    }

    method ReadFour(c: int) returns (v: int, ofs: nat, ghost b1: Byte, ghost b2: Byte, ghost b3: Byte)
      requires Valid() && next < slen && 0xF0 <= c < 0xF8
      ensures base + next + 1 < data.Length ==> b1 == data[base + next + 1]
      ensures base + next + 2 < data.Length ==> b2 == data[base + next + 2]
      ensures base + next + 3 < data.Length ==> b3 == data[base + next + 3]
      ensures Result(Parse4(c, b1, b2, b3), v, ofs)
    {
      hide Legal, Low;
      v, ofs := c * 0x4_0000 - 0xF0 * 0x4_0000, 0;
      var x1 := Peek(1);
      var x2 := Peek(2);
      var x3 := Peek(3);
      b1, b2, b3 := x1, x2, x3;
      var c1: int, d: int, e: int := Low(x1), Low(x2), Low(x3);
      v := v + (c1 * 0x1000 + d * 0x40 + e);
      if c1 >= 0x40 || d >= 0x40 || e >= 0x40 || v < 0x1_0000 || !Legal(v) {
        return;
      }
      ofs := 4;
    }
  }

  /** What is read behind a sequence, or behind the NUL that follows the text, does not matter. */
  lemma Padding(s: seq<Byte>, c1: Byte, c2: Byte, c3: Byte)
    requires s != []
    requires (|s| > 1 ==> c1 == s[1]) && (|s| > 2 ==> c2 == s[2]) && (|s| > 3 ==> c3 == s[3])
    requires |s| < Reach(s[0]) ==> if |s| == 1 then c1 == 0 else if |s| == 2 then c2 == 0 else c3 == 0
    ensures ParseFirst(s) == Parse(s[0], c1, c2, c3)
  {
    hide Legal;
  }

  lemma RunGoesOn(s: seq<Byte>, k: nat)
    requires k < |s| && IsContinuation(s[k])
    ensures Continuations(s[k..]) == 1 + Continuations(s[k + 1..])
  {
    assert s[k..][1..] == s[k + 1..];
  }

  lemma RunEnds(s: seq<Byte>, k: nat)
    requires k <= |s| && (k < |s| ==> !IsContinuation(s[k]))
    ensures Continuations(s[k..]) == 0
  {
  }

  lemma {:induction false} InAllSome(cps: seq<CodePoint>)
    ensures None !in AllSome(cps) && (Some(0) in AllSome(cps) <==> 0 in cps)
  {
    if cps != [] {
      InAllSome(cps[1..]);
      assert cps == [cps[0]] + cps[1..];
    }
  }

  /** The code points of a text, with errCh for every error. */
  function ReadAs(s: seq<Byte>, errCh: CodePoint): seq<CodePoint> {
    if s == [] then []
    else
      StepSound(s);
      [if StepValue(s).None? then errCh else StepValue(s).value] + ReadAs(s[StepLength(s)..], errCh)
  }

  lemma {:induction false} ReadsEncoding(cps: seq<CodePoint>, errCh: CodePoint)
    ensures ReadAs(Encode(cps), errCh) == cps
    decreases |cps|
  {
    hide Utf8, ParseFirst;
    if cps != [] {
      var s := Encode(cps);
      ParseComplete(cps[0], s);
      assert s[StepLength(s)..] == Encode(cps[1..]);
      ReadsEncoding(cps[1..], errCh);
      assert cps == [cps[0]] + cps[1..];
    }
  }

  /** No error and no NUL. */
  predicate Clean(steps: seq<Option<int>>) {
    None !in steps && Some(0) !in steps
  }

  lemma CleanStep(s: seq<Byte>)
    ensures s == [] ==> Clean(Steps(s))
    ensures s != [] ==>
      (Clean(Steps(s)) <==> StepValue(s).Some? && StepValue(s).value > 0 && Clean(Steps(s[StepLength(s)..])))
  {
    hide StepValue, StepLength;
    if s != [] {
      StepSound(s);
      var step, rest := StepValue(s), Steps(s[StepLength(s)..]);
      assert Steps(s)[0] == step && Steps(s)[1..] == rest;
      assert forall x :: x in Steps(s) <==> x == step || x in rest;
    }
  }

  predicate IsText(s: seq<Byte>, cps: seq<CodePoint>) {
    0 !in cps && Encode(cps) == s
  }

  /** A text is an encoding exactly if every step finds a code point. */
  lemma TextIffSteps(s: seq<Byte>)
    ensures (exists cps: seq<CodePoint> :: IsText(s, cps)) <==> Clean(Steps(s))
  {
    if Clean(Steps(s)) {
      var cps := EncodeOfSteps(s);
      InAllSome(cps);
      assert IsText(s, cps);
    }
    if cps: seq<CodePoint> :| IsText(s, cps) {
      StepsOfEncode(cps);
      InAllSome(cps);
    }
  }

  /** `buIsUTF8Content`: the text is the encoding of legal code points other than NUL. */
  method IsUTF8Content(data: array<Byte>, slen: nat) returns (r: bool)
    requires slen <= data.Length
    ensures Readable(data, 0, slen) ==> (r <==> exists cps: seq<CodePoint> :: IsText(data[..slen], cps))
  {
    hide StepLength, StepValue, IsText, Steps, Clean, Utf8Iterator.Ahead;
    var iter := new Utf8Iterator(data, 0, slen);
    ghost var text := data[..slen];
    assert data[0..0 + slen] == text;
    TextIffSteps(text);
    while iter.next < iter.slen
      invariant iter.Valid() && fresh(iter) && iter.data == data && iter.base == 0 && iter.slen == slen
      invariant Readable(data, 0, slen) ==> iter.Closed() && (Clean(Steps(text)) <==> Clean(Steps(iter.Ahead())))
      decreases iter.slen - iter.next
    {
      CleanStep(iter.Ahead());
      AheadLength(iter);
      var v := iter.GetNextCodePoint(-1);
      if v <= 0 {
        return false;
      }
    }
    AheadLength(iter);
    assert iter.Ahead() == [];
    CleanStep(iter.Ahead());
    assert data[..slen] == text;
    return true;
  }

  lemma AheadLength(iter: Utf8Iterator)
    requires iter.Valid()
    ensures |iter.Ahead()| == iter.slen - Min(iter.next, iter.slen)
  {
  }

  // ---------------------------------------------------------------------------------------------------
  // Writing a text
  // ---------------------------------------------------------------------------------------------------

  /** The text for bu, with errCh for what is not legal; None if errCh is needed and not legal itself. */
  function Replaced(bu: seq<int>, errCh: int): Option<seq<CodePoint>> {
    if bu == [] then Some([])
    else if !Legal(bu[0]) && !Legal(errCh) then None
    else
      var v: CodePoint := if Legal(bu[0]) then bu[0] else errCh;
      var rest := Replaced(bu[1..], errCh);
      if rest.None? then None else Some([v] + rest.value)
  }

  lemma {:induction false} LegalStays(cps: seq<CodePoint>, errCh: int)
    ensures Replaced(cps, errCh) == Some(cps)
  {
    if cps != [] {
      LegalStays(cps[1..], errCh);
      assert cps == [cps[0]] + cps[1..];
    }
  }

  lemma {:induction false} EncodeConcat(a: seq<CodePoint>, b: seq<CodePoint>)
    ensures Encode(a + b) == Encode(a) + Encode(b)
  {
    if a == [] {
      assert [] + b == b && [] + Encode(b) == Encode(b);
    } else {
      EncodeConcat(a[1..], b);
      ConcatTail(a, b);
      ConcatAssoc(Utf8(a[0]), Encode(a[1..]), Encode(b));
    }
  }

  /** The cases of `buAppendBlkUcs4` for one legal code point. */
  method AppendCodePoint(b: Bstring, v: CodePoint)
    requires b.Valid()
    modifies b, b.data
    ensures b.Valid() && b.Contents() == old(b.Contents()) + Utf8(v) && b.Terminated()
    ensures b.data == old(b.data) || fresh(b.data)
  {
    if v < 0x80 {
      b.Conchar(v);
      return;
    }
    var c := new Byte[6];
    var n;
    if v < 0x800 {
      c[0] := v / 0x40 + 0xC0;
      c[1] := v % 0x40 + 0x80;
      n := 2;
    } else if v < 0x1_0000 {
      c[0] := v / 0x1000 + 0xE0;
      c[1] := v / 0x40 % 0x40 + 0x80;
      c[2] := v % 0x40 + 0x80;
      n := 3;
    } else {
      c[0] := v / 0x4_0000 + 0xF0;
      c[1] := v / 0x1000 % 0x40 + 0x80;
      c[2] := v / 0x40 % 0x40 + 0x80;
      c[3] := v % 0x40 + 0x80;
      n := 4;
    }
    assert c[0..0 + n] == Utf8(v);
    b.CatBlock(c, 0, n);
  }

  /** `buAppendBlkUcs4`. */
  method AppendBlkUcs4(b: Bstring, bu: seq<int>, errCh: int) returns (ret: int)
    requires b.Valid()
    modifies b, b.data
    ensures b.Valid() && (b.data == old(b.data) || fresh(b.data))
    ensures match Replaced(bu, errCh)
      case Some(cps) => ret == BSTR_OK && b.Contents() == old(b.Contents()) + Encode(cps)
      case None => ret == BSTR_ERR && b.Contents() == old(b.Contents())
    ensures old(b.Terminated()) && ret == BSTR_OK ==> b.Terminated()
  {
    hide Bstring.Contents, Bstring.Terminated, Legal, Utf8;
    var oldSlen := b.slen;
    ghost var o := b.Contents();
    ghost var done: seq<CodePoint> := [];
    var i := 0;
    assert bu[0..] == bu && o + [] == o;
    ReplacedAfter(bu, errCh, 0, done);
    while i < |bu|
      invariant 0 <= i <= |bu| && b.Valid() && (b.data == old(b.data) || fresh(b.data))
      invariant old(b.Terminated()) ==> b.Terminated()
      invariant b.Contents() == o + Encode(done)
      invariant Replaced(bu, errCh) == After(done, Replaced(bu[i..], errCh))
    {
      var v := bu[i];
      ReplacedAfter(bu, errCh, i, done);
      if !Legal(v) {
        if !Legal(errCh) {
          b.Truncate(oldSlen);
          assert (o + Encode(done))[..|o|] == o;
          return BSTR_ERR;
        }
        v := errCh;
      }
      LegalRange(v);
      AppendCodePoint(b, v);
      EncodeConcat(done, [v]);
      assert Encode([v]) == Utf8(v) by { OnePoint(v); }
      ConcatAssoc(o, Encode(done), Utf8(v));
      done := done + [v];
      i := i + 1;
    }
    NothingAfter(done, bu[i..], errCh);
    ret := BSTR_OK;
  }

  /** Code points appended to an empty bstring and iterated over there are the same, without an error. */
  method IterateAppended(cps: seq<CodePoint>, errCh: int) returns (read: seq<int>, errors: bool)
    ensures read == cps && !errors
  {
    hide Utf8Iterator.Ahead, Utf8, Steps, StepLength, StepValue, Encode;
    LegalStays(cps, errCh);
    var b := new Bstring.Empty();
    var ret := AppendBlkUcs4(b, cps, errCh);
    var iter := new Utf8Iterator(b.data, 0, b.slen);
    assert [] + Encode(cps) == Encode(cps) == b.data[..b.slen] == b.data[0..0 + b.slen];
    read, errors := [], false;
    assert cps[0..] == cps;
    while iter.next < iter.slen
      invariant iter.Valid() && iter.Closed() && fresh(iter) && iter.data == b.data && !errors
      invariant |read| <= |cps| && read == cps[..|read|] && iter.Ahead() == Encode(cps[|read|..])
      decreases iter.slen - iter.next
    {
      AheadLength(iter);
      FirstStep(cps[|read|..]);
      var v := iter.GetNextCodePoint(errCh);
      errors := errors || iter.error;
      assert cps[|read|..][1..] == cps[|read| + 1..];
      read := read + [v];
    }
    AheadLength(iter);
    FirstStep(cps[|read|..]);
  }

  lemma FirstStep(cps: seq<CodePoint>)
    ensures var s := Encode(cps);
      if s == [] then cps == []
      else cps != [] && StepValue(s) == Some(cps[0]) && s[StepLength(s)..] == Encode(cps[1..])
  {
    hide Utf8, ParseFirst;
    if cps != [] {
      ParseComplete(cps[0], Encode(cps));
    }
  }

  lemma LegalRange(v: int)
    ensures Legal(v) ==> 0 <= v <= 0x10FFFF
  {
  }

  lemma OnePoint(v: CodePoint)
    ensures Encode([v]) == Utf8(v)
  {
    assert Utf8(v) + [] == Utf8(v);
  }

  function After(done: seq<CodePoint>, rest: Option<seq<CodePoint>>): Option<seq<CodePoint>> {
    if rest.None? then None else Some(done + rest.value)
  }

  lemma NothingAfter(done: seq<CodePoint>, rest: seq<int>, errCh: int)
    ensures rest == [] ==> After(done, Replaced(rest, errCh)) == Some(done)
  {
    assert done + [] == done;
  }

  lemma ReplacedAfter(bu: seq<int>, errCh: int, i: nat, done: seq<CodePoint>)
    requires i <= |bu|
    ensures done == [] ==> After(done, Replaced(bu[i..], errCh)) == Replaced(bu[i..], errCh)
    ensures i < |bu| && !Legal(bu[i]) && !Legal(errCh) ==> Replaced(bu[i..], errCh) == None
    ensures i < |bu| && (Legal(bu[i]) || Legal(errCh)) ==>
      var v := if Legal(bu[i]) then bu[i] else errCh;
      After(done, Replaced(bu[i..], errCh)) == After(done + [v], Replaced(bu[i + 1..], errCh))
  {
    if done == [] && Replaced(bu[i..], errCh).Some? {
      assert done + Replaced(bu[i..], errCh).value == Replaced(bu[i..], errCh).value;
    }
    if i < |bu| {
      assert bu[i..][1..] == bu[i + 1..];
      if (Legal(bu[i]) || Legal(errCh)) && Replaced(bu[i + 1..], errCh).Some? {
        ConcatAssoc(done, [if Legal(bu[i]) then bu[i] else errCh], Replaced(bu[i + 1..], errCh).value);
      }
    }
  }

  // ---------------------------------------------------------------------------------------------------
  // Scanning backwards
  // ---------------------------------------------------------------------------------------------------

  /** How far in front of pos the lead byte is looked for and found. */
  function BackDistance(s: seq<Byte>, pos: nat): Option<nat>
    requires pos < |s|
  {
    if s[pos] < 0x80 || s[pos] >= 0xC0 then Some(0)
    else if pos == 0 then None
    else if 0xC1 <= s[pos - 1] < 0xF8 then Some(1)
    else if pos == 1 || !IsContinuation(s[pos - 1]) then None
    else if 0xE0 <= s[pos - 2] < 0xF8 then Some(2)
    else if pos == 2 || !IsContinuation(s[pos - 2]) then None
    else if 0xF0 <= s[pos - 3] <= 0xF7 then Some(3)
    else None
  }

  /** b without the bits above m, a power of two. */
  function Mask(b: Byte, m: nat): (r: int)
    requires 0 < m
    ensures 0 <= r < m
  {
    b % m
  }

  /** The value at a lead byte; the bytes behind it are masked, not checked. */
  function ValueAt(s: seq<Byte>): Option<int> {
    if s == [] then None
    else if s[0] < 0x80 then Some(s[0])
    else if s[0] < 0xE0 then
      if |s| < 2 then None
      else
        var v := Mask(s[0], 0x20) * 0x40 + Mask(s[1], 0x40);
        if v < 0x80 then None else Some(v)
    else if s[0] < 0xF0 then
      if |s| < 3 then None
      else
        var v := Mask(s[0], 0x10) * 0x1000 + Mask(s[1], 0x40) * 0x40 + Mask(s[2], 0x40);
        if v < 0x800 || !Legal(v) then None else Some(v)
    else if s[0] >= 0xF8 || |s| < 4 then None
    else
      var v := Mask(s[0], 8) * 0x4_0000 + Mask(s[1], 0x40) * 0x1000 + Mask(s[2], 0x40) * 0x40 + Mask(s[3], 0x40);
      if v < 0x1_0000 || !Legal(v) then None else Some(v)
  }

  lemma Masks(b: Six, h: nat)
    ensures Mask(b + 0x80, 0x40) == b
    ensures h < 0x20 ==> Mask(h + 0xC0, 0x20) == h
    ensures h < 0x10 ==> Mask(h + 0xE0, 0x10) == h
    ensures h < 8 ==> Mask(h + 0xF0, 8) == h
  {
  }

  lemma ValueFound(v: CodePoint, s: seq<Byte>)
    requires Utf8(v) <= s
    ensures ValueAt(s) == Some(v)
  {
    hide Six0, Six1, Six2, Mask;
    Together(v);
    Masks(Six0(v), v / 0x40);
    Masks(Six1(v), v / 0x1000);
    Masks(Six2(v), v / 0x4_0000);
  }

  lemma DistanceFound(s: seq<Byte>, v: CodePoint, o: nat, d: nat)
    requires o + |Utf8(v)| <= |s| && d < |Utf8(v)| && forall k | 0 <= k < |Utf8(v)| :: s[o + k] == Utf8(v)[k]
    ensures BackDistance(s, o + d) == Some(d)
  {
    hide Six0, Six1, Six2;
    var u := Utf8(v);
    assert s[o + 0] == u[0];
    assert 1 <= d ==> s[o + 1] == u[1];
    assert 2 <= d ==> s[o + 2] == u[2];
    assert 3 <= d ==> s[o + 3] == u[3];
  }

  /** From any byte of an encoded text the scan finds the code point around it. */
  lemma ScanFinds(pre: seq<Byte>, v: CodePoint, post: seq<Byte>, d: nat)
    requires d < |Utf8(v)|
    ensures var s := pre + Utf8(v) + post;
      BackDistance(s, |pre| + d) == Some(d) && ValueAt(s[|pre|..]) == Some(v)
  {
    hide Utf8, BackDistance, ValueAt;
    var s := pre + Utf8(v) + post;
    DistanceFound(s, v, |pre|, d);
    assert s[|pre|..] == Utf8(v) + post;
    ValueFound(v, s[|pre|..]);
  }

  /** Every byte of an encoded text belongs to one code point. */
  lemma {:induction false} ScanFindsInText(cps: seq<CodePoint>, pos: nat) returns (k: nat)
    requires pos < |Encode(cps)|
    ensures k < |cps| && |Encode(cps[..k])| <= pos < |Encode(cps[..k + 1])|
    ensures BackDistance(Encode(cps), pos) == Some(pos - |Encode(cps[..k])|)
    ensures ValueAt(Encode(cps)[|Encode(cps[..k])|..]) == Some(cps[k])
  {
    hide Utf8, BackDistance, ValueAt;
    k := 0;
    while |Encode(cps[..k + 1])| <= pos
      invariant k < |cps| && |Encode(cps[..k])| <= pos
      decreases |cps| - k
    {
      assert k + 1 < |cps| by { assert cps[..|cps|] == cps; }
      k := k + 1;
    }
    var a, v, b := cps[..k], cps[k], cps[k + 1..];
    EncodeConcat(a, [v]);
    EncodeConcat(a + [v], b);
    OnePoint(v);
    assert cps[..k + 1] == a + [v] && cps == a + [v] + b;
    ScanFinds(Encode(a), v, Encode(b), pos - |Encode(a)|);
  }

  /** `utf8ScanBackwardsForCodePoint`: a negative result is an error. */
  method ScanBackwards(msg: array<Byte>, len: nat, pos0: int) returns (ret: int, out: int)
    requires len <= msg.Length
    ensures pos0 < 0 || len <= pos0 ==> ret < 0
    ensures 0 <= pos0 < len ==>
      match BackDistance(msg[..len], pos0)
      case None => ret < 0
      case Some(d) =>
        match ValueAt(msg[pos0 - d..len])
        case None => ret < 0
        case Some(v) => ret == d && out == v
  {
    ret, out := -1, 0;
    if pos0 < 0 || pos0 >= len {
      return;
    }
    var pos := pos0;
    if msg[pos] < 0x80 {
      return 0, msg[pos];
    } else if msg[pos] < 0xC0 {
      if pos == 0 {
        return;
      }
      if 0xC1 <= msg[pos - 1] < 0xF8 {
        pos := pos - 1;
      } else {
        if pos == 1 || !IsContinuation(msg[pos - 1]) {
          return;
        }
        if 0xE0 <= msg[pos - 2] < 0xF8 {
          pos := pos - 2;
        } else {
          if pos == 2 || !IsContinuation(msg[pos - 2]) {
            return;
          }
          if 0xF0 <= msg[pos - 3] <= 0xF7 {
            pos := pos - 3;
          } else {
            return;
          }
        }
      }
    }
    var ok;
    ok, out := ReadAtLead(msg, len, pos);
    if ok {
      ret := pos0 - pos;
    }
  }

  method ReadAtLead(msg: array<Byte>, len: nat, pos: nat) returns (ok: bool, out: int)
    requires pos < len <= msg.Length && msg[pos] >= 0x80
    ensures ok == ValueAt(msg[pos..len]).Some?
    ensures ok ==> out == ValueAt(msg[pos..len]).value
  {
    hide Legal, Mask;
    ok, out := false, 0;
    if msg[pos] < 0xE0 {
      if pos + 1 >= len {
        return;
      }
      out := Mask(msg[pos], 0x20) * 0x40 + Mask(msg[pos + 1], 0x40);
      return out >= 0x80, out;
    }
    if msg[pos] < 0xF0 {
      if pos + 2 >= len {
        return;
      }
      out := Mask(msg[pos], 0x10) * 0x1000 + Mask(msg[pos + 1], 0x40) * 0x40 + Mask(msg[pos + 2], 0x40);
      return out >= 0x800 && Legal(out), out;
    }
    if msg[pos] >= 0xF8 || pos + 3 >= len {
      return;
    }
    out := Mask(msg[pos], 8) * 0x4_0000 + Mask(msg[pos + 1], 0x40) * 0x1000 + Mask(msg[pos + 2], 0x40) * 0x40
           + Mask(msg[pos + 3], 0x40);
    ok := out >= 0x1_0000 && Legal(out);
  }
}
