/** The buffered read stream of deps/bstrlib/bstrlib.c:2024-2350.

    The core stream hands out its bytes in chunks of any size it likes, and nothing only at its end. */
module ReadStream {
  import opened Bstrings
  import opened Seqs
  import opened Wrappers

  /** The stream behind the read function pointer.  It offers its bytes in chunks of any size but zero: first those
      in the list, then all of size pace, or for pace 0 everything at once. */
  class Source {
    var remaining: seq<Byte>
    var chunks: seq<nat>
    const pace: nat

    constructor (bytes: seq<Byte>, chunks: seq<nat>, pace: nat)
      ensures remaining == bytes && this.chunks == chunks && this.pace == pace
    {
      remaining, this.chunks, this.pace := bytes, chunks, pace;
    }

    function Offer(): nat
      reads this
    {
      var size := if chunks != [] then (if chunks[0] == 0 then 1 else chunks[0])
                  else if pace == 0 then |remaining| else pace;
      Min(size, |remaining|)
    }

    /** The rest comes byte by byte. */
    ghost predicate Slow()
      reads this
    {
      chunks == [] && pace == 1
    }

    /** The rest comes at once. */
    ghost predicate Quick()
      reads this
    {
      chunks == [] && pace == 0
    }

    /** From now on every chunk is of size pace. */
    ghost predicate Even()
      reads this
    {
      chunks == []
    }

    method Read(dst: array<Byte>, ofs: nat, n: nat) returns (l: nat)
      requires 0 < n && ofs + n <= dst.Length
      modifies this, dst
      ensures l == Min(n, old(Offer())) && l <= n && l <= |old(remaining)| && (l == 0 <==> old(remaining) == [])
      ensures remaining == old(remaining)[l..] && (old(Even()) ==> Even())
      ensures dst[..] == old(dst[..ofs]) + old(remaining)[..l] + old(dst[ofs + l..])
    {
      l := Min(n, Offer());
      MemCpy(dst, ofs, remaining[..l]);
      remaining := remaining[l..];
      if chunks != [] {
        chunks := chunks[1..];
      }
    }
  }

  // ---------------------------------------------------------------------------------------------------
  // Lines
  // ---------------------------------------------------------------------------------------------------

  /** Where the first terminator is, or the length. */
  function First(v: seq<Byte>, term: seq<Byte>): (i: nat)
    ensures i <= |v|
  {
    if v == [] || v[0] in term then 0 else 1 + First(v[1..], term)
  }

  lemma {:induction false} FirstIsLeast(v: seq<Byte>, term: seq<Byte>)
    ensures forall j | 0 <= j < First(v, term) :: v[j] !in term
    ensures First(v, term) < |v| ==> v[First(v, term)] in term
  {
    if v != [] && v[0] !in term {
      FirstIsLeast(v[1..], term);
      forall j | 0 <= j < First(v, term)
        ensures v[j] !in term
      {
        if j > 0 {
          assert v[1..][j - 1] !in term;
        }
      }
    }
  }

  lemma {:induction false} FirstUnique(v: seq<Byte>, term: seq<Byte>, i: nat)
    requires i <= |v| && (forall j | 0 <= j < i :: v[j] !in term) && (i < |v| ==> v[i] in term)
    ensures First(v, term) == i
  {
    FirstIsLeast(v, term);
  }

  /** The first line of v, its terminator included, and what is behind it. */
  function LineEnd(v: seq<Byte>, term: seq<Byte>): (k: nat)
    ensures k <= |v|
  {
    if First(v, term) < |v| then First(v, term) + 1 else |v|
  }

  function Line(v: seq<Byte>, term: seq<Byte>): seq<Byte> {
    v[..LineEnd(v, term)]
  }

  function Behind(v: seq<Byte>, term: seq<Byte>): seq<Byte> {
    v[LineEnd(v, term)..]
  }

  /** A first part without a terminator can be skipped. */
  lemma FirstSkips(a: seq<Byte>, b: seq<Byte>, term: seq<Byte>)
    requires First(a, term) == |a|
    ensures First(a + b, term) == |a| + First(b, term)
  {
    hide First;
    FirstIsLeast(a, term);
    FirstIsLeast(b, term);
    FirstUnique(a + b, term, |a| + First(b, term));
  }

  /** A terminator in the first part ends the line there. */
  lemma FirstStays(a: seq<Byte>, b: seq<Byte>, term: seq<Byte>)
    requires First(a, term) < |a|
    ensures First(a + b, term) == First(a, term)
  {
    hide First;
    FirstIsLeast(a, term);
    FirstUnique(a + b, term, First(a, term));
  }

  /** The line ends in the first part. */
  lemma LineInFirst(a: seq<Byte>, b: seq<Byte>, term: seq<Byte>)
    requires First(a, term) < |a|
    ensures First(a + b, term) == First(a, term) && a + b != []
    ensures Line(a + b, term) == a[..First(a, term) + 1] && Behind(a + b, term) == a[First(a, term) + 1..] + b
  {
    hide First;
    FirstStays(a, b, term);
    CutFirst(a, b, First(a, term) + 1);
  }

  lemma LineSkips(a: seq<Byte>, b: seq<Byte>, term: seq<Byte>)
    requires First(a, term) == |a|
    ensures First(a + b, term) == |a| + First(b, term)
    ensures Line(a + b, term) == a + Line(b, term) && Behind(a + b, term) == Behind(b, term)
  {
    hide First;
    FirstSkips(a, b, term);
    CutSecond(a, b, LineEnd(b, term));
  }

  /** Plant a sentinel behind the l bytes at ofs and look for a terminator. */
  method Scan(b: array<Byte>, ofs: nat, l: nat, term: seq<Byte>) returns (i: nat)
    requires term != [] && ofs + l < b.Length
    modifies b
    ensures b[..ofs + l] == old(b[..ofs + l])
    ensures i == First(old(b[ofs..ofs + l]), term)
  {
    ghost var v := b[ofs..ofs + l];
    b[ofs + l] := term[0];
    assert b[ofs..ofs + l] == v;
    i := 0;
    while b[ofs + i] !in term
      invariant i <= l && forall j | 0 <= j < i :: v[j] !in term
      invariant b[ofs + l] == term[0] && b[ofs..ofs + l] == v
      decreases l - i
    {
      assert b[ofs + i] == v[i];
      i := i + 1;
    }
    if i < l {
      assert b[ofs + i] == v[i];
    }
    FirstUnique(v, term, i);
  }

  method Find(b: Bstring, term: seq<Byte>) returns (i: nat)
    requires term != [] && b.Valid()
    modifies b.data
    ensures b.Contents() == old(b.Contents()) && i == First(b.Contents(), term)
  {
    i := Scan(b.data, 0, b.slen, term);
    assert b.data[..0 + b.slen] == b.Contents();
  }

  method FindBehind(b: Bstring, l: nat, term: seq<Byte>) returns (i: nat)
    requires term != [] && b.slen + l < b.data.Length
    modifies b.data
    ensures b.Contents() == old(b.Contents()) && b.data[b.slen..b.slen + l] == old(b.data[b.slen..b.slen + l])
    ensures i == First(b.data[b.slen..b.slen + l], term)
  {
    ghost var all := b.data[..b.slen + l];
    i := Scan(b.data, b.slen, l, term);
    assert b.data[..b.slen] == all[..b.slen] && b.data[b.slen..b.slen + l] == all[b.slen..];
  }

  // ---------------------------------------------------------------------------------------------------
  // The stream
  // ---------------------------------------------------------------------------------------------------

  class BStream {
    const buff: Bstring
    const src: Source
    var isEOF: bool
    var maxBuffSz: nat

    ghost predicate Valid()
      reads this, buff, src
    {
      buff.Valid() && 0 < maxBuffSz && (isEOF ==> src.remaining == [])
    }

    /** What the reader has still to get: the buffer and then the core stream. */
    ghost function Virtual(): seq<Byte>
      reads this, buff, buff.data, src
      requires Valid()
    {
      buff.Contents() + src.remaining
    }

    /** `bsopen`. */
    constructor Open(src: Source)
      ensures Valid() && this.src == src && Virtual() == src.remaining && fresh(buff) && fresh(buff.data)
      ensures buff.slen == 0 && maxBuffSz == 1024
    {
      this.src, isEOF, maxBuffSz := src, false, 1024;
      buff := new Bstring.Empty();
    }

    /** `bsbufflength`. */
    method SetBufferLength(sz: nat) returns (oldSz: nat)
      requires Valid()
      modifies `maxBuffSz
      ensures Valid() && Virtual() == old(Virtual())
      ensures oldSz == old(maxBuffSz) && maxBuffSz == if sz > 0 then sz else oldSz
    {
      oldSz := maxBuffSz;
      if sz > 0 {
        maxBuffSz := sz;
      }
    }

    /** `bseof`. */
    predicate Eof()
      reads this, buff
    {
      isEOF && buff.slen == 0
    }

    /** True means that nothing is left. */
    lemma EofIsEnd()
      requires Valid() && Eof()
      ensures Virtual() == []
    {
    }

    /** `bsreadlna` and `bsreadlnsa`: append the next line, up to and with the first byte of term. */
    method ReadLine(r: Bstring, term: seq<Byte>) returns (ret: int)
      requires Valid() && r.Valid() && r != buff && r.data != buff.data
      modifies `isEOF, buff, buff.data, src, r, r.data
      ensures Valid() && r.Valid() && (old(src.Even()) ==> src.Even())
      ensures (r.data == old(r.data) || fresh(r.data)) && (buff.data == old(buff.data) || fresh(buff.data))
      ensures r.data != buff.data
      ensures term == [] ==> ret == BSTR_ERR && r.Contents() == old(r.Contents())
      ensures term == [] ==> Virtual() == old(Virtual()) && buff.slen == old(buff.slen)
      ensures term != [] ==>
        && r.Contents() == old(r.Contents()) + Line(old(Virtual()), term)
        && Virtual() == Behind(old(Virtual()), term)
        && ret == (if old(Virtual()) == [] then BSTR_ERR else BSTR_OK)
        && isEOF == (old(isEOF) || First(old(Virtual()), term) == |old(Virtual())|)
      ensures term != [] ==> KeepsHeld(old(buff.slen), LineEnd(old(Virtual()), term), buff.slen, old(src.Slow()))
    {
      hide First, Line, Behind, LineEnd, KeepsHeld, Bstring.Contents, Bstring.Terminated, Source.Offer;
      if term == [] {
        return BSTR_ERR;
      }
      ghost var held, rest, r0 := buff.Contents(), src.remaining, r.Contents();
      MakeRoom();
      var l := buff.slen;
      var i := Find(buff, term);
      if i < l {
        HandOut(r, i + 1);
        LineInFirst(held, rest, term);
        LineKeepsHeld(held, rest, term, buff.slen, old(src.Slow()));
        return BSTR_OK;
      }
      var rlo := r.slen;
      HandOutAll(r);
      ret := ReadDirect(r, term, rlo);
      LineSkips(held, rest, term);
      LineKeepsHeld(held, rest, term, buff.slen, old(src.Slow()));
      ConcatAssoc(r0, held, Line(rest, term));
    }

    /** Room in the buffer for a whole read. */
    method MakeRoom()
      requires Valid()
      modifies buff`data, buff`copied, buff.data
      ensures Valid() && maxBuffSz < buff.data.Length && (buff.data == old(buff.data) || fresh(buff.data))
      ensures buff.Contents() == old(buff.Contents())
    {
      buff.Balloc(maxBuffSz + 1);
    }

    /** Append what is in the buffer to r; its length is set later. */
    method HandOutAll(r: Bstring)
      requires buff.Valid() && r.Valid() && r != buff && r.data != buff.data
      modifies r, r.data
      ensures r.Valid() && (r.data == old(r.data) || fresh(r.data)) && r.data != buff.data
      ensures r.Contents() == old(r.Contents()) + buff.Contents()
    {
      hide Bstring.Contents;
      buff.Prefix(buff.slen);
      r.CatBlock(buff.data, 0, buff.slen);
      assert buff.Contents()[..buff.slen] == buff.Contents();
    }

    /** Append the first k bytes of the buffer to r and delete them from the buffer. */
    method HandOut(r: Bstring, k: nat)
      requires buff.Valid() && r.Valid() && r != buff && r.data != buff.data && k <= buff.slen
      modifies buff`slen, buff.data, r, r.data
      ensures buff.Valid() && r.Valid() && (r.data == old(r.data) || fresh(r.data)) && r.data != buff.data
      ensures r.Contents() == old(r.Contents()) + old(buff.Contents())[..k]
      ensures buff.Contents() == old(buff.Contents())[k..]
    {
      hide Bstring.Contents;
      buff.Prefix(k);
      r.CatBlock(buff.data, 0, k);
      var ret := buff.Delete(0, k);
      assert buff.Contents() == old(buff.Contents())[k..];
    }

    /** The same when the buffer holds l bytes and its length is yet to be set. */
    method HandOutLast(r: Bstring, l: nat, k: nat)
      requires r.Valid() && r != buff && r.data != buff.data && k <= l < buff.data.Length
      modifies buff`slen, buff.data, r, r.data
      ensures buff.Valid() && r.Valid() && (r.data == old(r.data) || fresh(r.data)) && r.data != buff.data
      ensures r.Contents() == old(r.Contents()) + old(buff.data[0..l])[..k]
      ensures buff.Contents() == old(buff.data[0..l])[k..]
    {
      buff.slen := l;
      buff.Prefix(l);
      HandOut(r, k);
    }

    /** The bytes of the buffer have been handed out: read on directly into the destination. */
    method ReadDirect(r: Bstring, term: seq<Byte>, rlo: nat) returns (ret: int)
      requires Valid() && r.Valid() && r != buff && r.data != buff.data
      requires term != [] && maxBuffSz < buff.data.Length && rlo <= r.slen
      modifies `isEOF, buff`slen, buff.data, src, r`data, r`slen, r`copied, r.data
      ensures Valid() && r.Valid()
      ensures r.data == old(r.data) || fresh(r.data)
      ensures r.data != buff.data
      ensures r.Contents() == old(r.Contents()) + Line(old(src.remaining), term)
      ensures Virtual() == Behind(old(src.remaining), term)
      ensures ret == if old(r.slen) == rlo && old(src.remaining) == [] then BSTR_ERR else BSTR_OK
      ensures isEOF == (old(isEOF) || First(old(src.remaining), term) == |old(src.remaining)|)
      ensures (old(src.Even()) ==> src.Even()) && (old(src.Slow()) ==> buff.slen == 0)
    {
      hide First, Line, Behind, Bstring.Contents;
      ghost var v, r0 := src.remaining, r.Contents();
      NothingLeft(term);
      while true
        invariant Valid() && r.Valid() && maxBuffSz < buff.data.Length
        invariant r.data == old(r.data) || fresh(r.data)
        invariant r.data != buff.data && isEOF == old(isEOF)
        invariant r.Contents() + Line(src.remaining, term) == r0 + Line(v, term)
        invariant Behind(src.remaining, term) == Behind(v, term)
        invariant First(src.remaining, term) == |src.remaining| <==> First(v, term) == |v|
        invariant old(src.Even()) ==> src.Even()
        invariant rlo <= r.slen && (r.slen == rlo ==> v == src.remaining && old(r.slen) == rlo)
        decreases |src.remaining|
      {
        ghost var rest, r1 := src.remaining, r.Contents();
        var l, found := ReadChunk(r, term);
        if l == 0 {
          buff.Clear();
          isEOF := true;
          return if r.slen == rlo then BSTR_ERR else BSTR_OK;
        }
        if found {
          return BSTR_OK;
        }
        TakeDrop(rest, l);
        LineSkips(rest[..l], rest[l..], term);
        ConcatAssoc(r1, rest[..l], Line(rest[l..], term));
      }
    }

    /** One read into r: up to the end of the line, with the over-read pushed back, or all of it. */
    method ReadChunk(r: Bstring, term: seq<Byte>) returns (l: nat, found: bool)
      requires r.Valid() && buff.Valid() && 0 < maxBuffSz < buff.data.Length && term != []
      requires r != buff && r.data != buff.data
      modifies src, r`data, r`copied, r`slen, r.data, buff`slen, buff.data
      ensures r.Valid() && buff.Valid() && (r.data == old(r.data) || fresh(r.data))
      ensures l <= |old(src.remaining)| && (l == 0 <==> old(src.remaining) == [])
      ensures src.remaining == old(src.remaining)[l..]
      ensures l == 0 ==> !found
      ensures (old(src.Even()) ==> src.Even()) && (old(src.Slow()) && found ==> buff.slen == 0)
      ensures !found ==>
        var got := old(src.remaining)[..l];
        r.Contents() == old(r.Contents()) + got && First(got, term) == l
      ensures found ==>
        && r.Contents() == old(r.Contents()) + Line(old(src.remaining), term)
        && buff.Contents() + src.remaining == Behind(old(src.remaining), term)
        && First(old(src.remaining), term) < |old(src.remaining)|
    {
      hide First, Line, Behind, Bstring.Contents, Bstring.Terminated, Source.Offer, Source.Even;
      ghost var rest := src.remaining;
      var i;
      l, i := Fetch(r, term);
      found := i < l;
      TakeDrop(rest, l);
      if found {
        LineInFirst(rest[..l], rest[l..], term);
        PushBack(r, l, i + 1);
      } else {
        Keep(r, l);
      }
    }

    /** One read behind the end of r, with a scan for a terminator. */
    method Fetch(r: Bstring, term: seq<Byte>) returns (l: nat, i: nat)
      requires r.Valid() && 0 < maxBuffSz && term != []
      modifies src, r`data, r`copied, r.data
      ensures r.Valid() && r.Contents() == old(r.Contents()) && (r.data == old(r.data) || fresh(r.data))
      ensures l <= maxBuffSz && l <= |old(src.remaining)| && (l == 0 <==> old(src.remaining) == [])
      ensures src.remaining == old(src.remaining)[l..]
      ensures r.slen + l < r.data.Length && r.data[r.slen..r.slen + l] == old(src.remaining)[..l]
      ensures i == First(old(src.remaining)[..l], term)
      ensures (old(src.Even()) ==> src.Even()) && (old(src.Slow()) ==> l <= 1)
    {
      hide First, Bstring.Contents;
      r.Balloc(r.slen + maxBuffSz + 1);
      l := ReadBehind(r, maxBuffSz);
      i := 0;
      if l == 0 {
        r.Terminate();
      } else {
        i := FindBehind(r, l, term);
      }
    }

    /** One read of the core stream behind the end of r, where there is room for it. */
    method ReadBehind(r: Bstring, n: nat) returns (l: nat)
      requires 0 < n && r.slen + n < r.data.Length
      modifies src, r.data
      ensures l == Min(n, old(src.Offer())) && l <= |old(src.remaining)| && (l == 0 <==> old(src.remaining) == [])
      ensures r.Contents() == old(r.Contents()) && r.data[r.slen..r.slen + l] == old(src.remaining)[..l]
      ensures src.remaining == old(src.remaining)[l..] && (old(src.Even()) ==> src.Even())
    {
      ghost var r0, rest := r.Contents(), src.remaining;
      l := src.Read(r.data, r.slen, n);
      assert r.data[r.slen..r.slen + l] == rest[..l];
      assert r.data[..r.slen] == r0;
    }

    /** Take the l bytes behind the end of r into it. */
    method Keep(r: Bstring, l: nat)
      requires r.Valid() && r.slen + l < r.data.Length
      modifies r`slen
      ensures r.Valid() && r.Contents() == old(r.Contents()) + old(r.data[r.slen..r.slen + l])
    {
      SliceJoin(r.data[..], 0, r.slen, r.slen + l);
      r.slen := r.slen + l;
    }

    /** Of the l bytes behind the end of r, keep i and push the others back to the buffer. */
    method PushBack(r: Bstring, l: nat, i: nat)
      requires r.Valid() && r != buff && r.data != buff.data
      requires 0 < i <= l < buff.data.Length && r.slen + l < r.data.Length
      modifies buff`slen, buff.data, r`slen, r.data
      ensures r.Valid() && r.Contents() == old(r.Contents()) + old(r.data[r.slen..r.slen + l])[..i]
      ensures buff.Valid() && buff.Contents() == old(r.data[r.slen..r.slen + l])[i..]
    {
      ghost var r0, got := r.Contents(), r.data[r.slen..r.slen + l];
      r.slen := r.slen + i;
      buff.slen := l - i;
      MemCpy(buff.data, 0, r.data[r.slen..r.slen + (l - i)]);
      assert buff.Contents() == got[i..];
      r.data[r.slen] := 0;
      assert r.Contents() == r0 + got[..i];
    }

    /** `bsunread`: put bytes back in front. */
    method Unread(b: seq<Byte>)
      requires Valid()
      modifies buff, buff.data
      ensures Valid() && Virtual() == b + old(Virtual()) && buff.Contents() == b + old(buff.Contents())
      ensures buff.data == old(buff.data) || fresh(buff.data)
    {
      hide Bstring.Contents;
      ghost var b0 := buff.Contents();
      var ret := buff.Insert(0, b, '?' as int);
      assert b0[..0] + b == b && b0[0..] == b0;
      ConcatAssoc(b, b0, src.remaining);
    }

    /** `bsreada`: append n bytes, or what is left if that is fewer.  With nothing buffered and room for n bytes in r,
        a single read of the core stream decides, and brings fewer if the stream offers fewer.
        Nothing is read from the core stream that is not handed out. */
    method Read(r: Bstring, n: nat) returns (ret: int)
      requires Valid() && r.Valid() && r != buff && r.data != buff.data
      modifies `isEOF, buff, buff.data, src, r, r.data
      ensures Valid() && r.Valid() && (old(src.Even()) ==> src.Even())
      ensures (r.data == old(r.data) || fresh(r.data)) && (buff.data == old(buff.data) || fresh(buff.data))
      ensures r.data != buff.data
      ensures r.Contents() + Virtual() == old(r.Contents()) + old(Virtual())
      ensures var k := r.slen - old(r.slen);
        && 0 <= k <= n && k <= |old(Virtual())|
        && ret == (if k == 0 then BSTR_ERR else BSTR_OK)
        && (k == 0 <==> n == 0 || old(Virtual()) == [])
        && buff.Contents() == (if k <= old(buff.slen) then old(buff.Contents())[k..] else [])
        && if OneRead(old(buff.slen), old(isEOF), old(r.data.Length) - old(r.slen), n)
           then k == Min(n, old(src.Offer())) && isEOF == (k == 0)
           else k == Min(n, |old(Virtual())|) && isEOF == (old(isEOF) || k < n)
      ensures r.slen - old(r.slen) == Min(n, |old(Virtual())|) <==>
              OneRead(old(buff.slen), old(isEOF), old(r.data.Length) - old(r.slen), n)
              ==> Min(n, |old(Virtual())|) <= old(src.Offer())
    {
      hide Bstring.Contents, Bstring.Terminated, Source.Offer, Source.Even;
      if n == 0 {
        return BSTR_ERR;
      }
      if buff.slen == 0 {
        if isEOF {
          return BSTR_ERR;
        }
        if r.data.Length > n + r.slen {
          ghost var r0, rest := r.Contents(), src.remaining;
          var l := ReadBehind(r, n);
          TakeDrop(rest, l);
          ConcatAssoc(r0, rest[..l], rest[l..]);
          if l == 0 {
            isEOF := true;
            return BSTR_ERR;
          }
          Keep(r, l);
          r.Terminate();
          return BSTR_OK;
        }
      }
      ret := ReadLoop(r, n);
    }

    /** Hand out the buffer, refill it with no more than is still wanted, and so on. */
    method ReadLoop(r: Bstring, n: nat) returns (ret: int)
      requires Valid() && r.Valid() && r != buff && r.data != buff.data && 0 < n
      modifies `isEOF, buff, buff.data, src, r, r.data
      ensures Valid() && r.Valid() && (old(src.Even()) ==> src.Even())
      ensures (r.data == old(r.data) || fresh(r.data)) && (buff.data == old(buff.data) || fresh(buff.data))
      ensures r.data != buff.data
      ensures r.Contents() + Virtual() == old(r.Contents()) + old(Virtual())
      ensures var k := Min(n, |old(Virtual())|);
        && r.slen == old(r.slen) + k
        && ret == (if k == 0 then BSTR_ERR else BSTR_OK)
        && buff.Contents() == (if k <= old(buff.slen) then old(buff.Contents())[k..] else [])
        && isEOF == (old(isEOF) || k < n)
    {
      hide Bstring.Contents, Bstring.Terminated, Source.Offer;
      ghost var r0, b0, rest := r.Contents(), buff.Contents(), src.remaining;
      MakeRoom();
      var l := buff.slen;
      if l >= n {
        HandOut(r, n);
        Moved(r0, b0, rest, n);
        return BSTR_OK;
      }
      HandOutAll(r);
      assert b0[..l] == b0;
      Moved(r0, b0, rest, l);
      ret := ReadWanted(r, n - l, l == 0);
    }

    /** The bytes of the buffer have been handed out: read into it what is wanted, hand that out, and so on. */
    method ReadWanted(r: Bstring, n: nat, nothingYet: bool) returns (ret: int)
      requires Valid() && r.Valid() && r != buff && r.data != buff.data && 0 < n && maxBuffSz < buff.data.Length
      modifies `isEOF, buff`slen, buff.data, src, r, r.data
      ensures Valid() && r.Valid() && (r.data == old(r.data) || fresh(r.data)) && r.data != buff.data
      ensures r.Contents() + src.remaining == old(r.Contents()) + old(src.remaining)
      ensures r.slen == old(r.slen) + Min(n, |old(src.remaining)|) && buff.Contents() == []
      ensures isEOF == (old(isEOF) || |old(src.remaining)| < n)
      ensures ret == if nothingYet && old(src.remaining) == [] then BSTR_ERR else BSTR_OK
      ensures old(src.Even()) ==> src.Even()
    {
      hide Bstring.Contents, Source.Offer;
      ghost var all, total := r.Contents() + src.remaining, |src.remaining|;
      var goal, orslen := n + r.slen, r.slen;
      while true
        invariant Valid() && r.Valid() && (r.data == old(r.data) || fresh(r.data)) && r.data != buff.data
        invariant r.Contents() + src.remaining == all && orslen <= r.slen < goal && isEOF == old(isEOF)
        invariant r.slen + |src.remaining| == orslen + total && (old(src.Even()) ==> src.Even())
        decreases |src.remaining|
      {
        ghost var r1, rest := r.Contents(), src.remaining;
        var l := ReadOver(Min(goal - r.slen, maxBuffSz));
        TakeDrop(rest, l);
        ConcatAssoc(r1, rest[..l], rest[l..]);
        if l == 0 {
          isEOF := true;
          buff.Clear();
          return if nothingYet && r.slen == orslen then BSTR_ERR else BSTR_OK;
        }
        if l + r.slen >= goal {
          HandOutLast(r, l, goal - r.slen);
          return BSTR_OK;
        }
        r.CatBlock(buff.data, 0, l);
      }
    }

    /** One read of up to n bytes over what is in the buffer. */
    method ReadOver(n: nat) returns (l: nat)
      requires 0 < n <= buff.data.Length
      modifies src, buff.data
      ensures l <= n && l <= |old(src.remaining)| && (l == 0 <==> old(src.remaining) == [])
      ensures src.remaining == old(src.remaining)[l..] && buff.data[0..l] == old(src.remaining)[..l]
      ensures old(src.Even()) ==> src.Even()
    {
      hide Source.Offer;
      ghost var rest := src.remaining;
      l := src.Read(buff.data, 0, n);
      assert buff.data[0..l] == rest[..l];
    }
  }

  /** Moving k bytes over from held does not change what there is in all. */
  lemma Moved(got: seq<Byte>, held: seq<Byte>, rest: seq<Byte>, k: nat)
    requires k <= |held|
    ensures got + held[..k] + (held[k..] + rest) == got + (held + rest)
    ensures k == |held| ==> got + held[..k] + rest == got + (held + rest)
  {
    assert held[..k] + held[k..] == held;
  }

  /** A line of n bytes uses up the buffer first; bytes read on its way may be in it afterwards. */
  predicate KeepsHeld(buffered: nat, n: nat, buffered': nat, slow: bool) {
    if n < buffered then buffered' == buffered - n else slow ==> buffered' == 0
  }

  lemma LineKeepsHeld(held: seq<Byte>, rest: seq<Byte>, term: seq<Byte>, k: nat, slow: bool)
    requires var i := First(held, term); if i < |held| then k == |held| - (i + 1) else slow ==> k == 0
    ensures KeepsHeld(|held|, LineEnd(held + rest, term), k, slow)
  {
    hide First;
    if First(held, term) < |held| {
      LineInFirst(held, rest, term);
    } else {
      LineSkips(held, rest, term);
    }
  }

  lemma LineLength(v: seq<Byte>, term: seq<Byte>)
    ensures |Line(v, term)| == LineEnd(v, term)
  {
    hide First;
  }

  predicate OneRead(buffered: nat, atEnd: bool, room: int, n: nat) {
    0 < n && buffered == 0 && !atEnd && n < room
  }

  lemma NothingLeft(term: seq<Byte>)
    ensures First([], term) == 0 && Line([], term) == [] && Behind([], term) == []
  {
  }

  // ---------------------------------------------------------------------------------------------------
  // Runs
  // ---------------------------------------------------------------------------------------------------

  /** The capacity of a bstring made from "". */
  const EMPTY_CAPACITY: nat := 8

  datatype Op = GetLine(term: seq<Byte>) | Get(n: nat) | PutBack(bytes: seq<Byte>) | SetBuffer(sz: nat)

  /** What op may hand out when the stream holds v, of which the first held bytes are buffered for sure. */
  predicate Allowed(op: Op, v: seq<Byte>, held: nat, out: seq<Byte>) {
    match op
    case GetLine(term) => out == (if term == [] then [] else Line(v, term))
    case Get(n) =>
      && out <= v && |out| <= n && (out == [] <==> n == 0 || v == [])
      && (0 < held || EMPTY_CAPACITY <= n ==> |out| == Min(n, |v|))
    case PutBack(_) => out == []
    case SetBuffer(_) => out == []
  }

  /** What the stream holds when op has handed out. */
  function Left(op: Op, v: seq<Byte>, out: seq<Byte>): seq<Byte>
    requires |out| <= |v|
  {
    if op.PutBack? then op.bytes + v else v[|out|..]
  }

  function Held(op: Op, held: nat, out: seq<Byte>): nat {
    if op.PutBack? then |op.bytes| + held else if held < |out| then 0 else held - |out|
  }

  /** outs are what the calls in ops may hand out when the stream holds v, held bytes of it buffered for sure, and w is
      what it holds afterwards. */
  predicate Explains(v: seq<Byte>, held: nat, ops: seq<Op>, outs: seq<seq<Byte>>, w: seq<Byte>)
    decreases |ops|
  {
    |outs| == |ops| &&
    if ops == [] then v == w
    else
      && |outs[0]| <= |v| && Allowed(ops[0], v, held, outs[0])
      && Explains(Left(ops[0], v, outs[0]), Held(ops[0], held, outs[0]), ops[1..], outs[1..], w)
  }

  /** What has been handed out on balance, if only bytes are put back that were handed out last. */
  function Net(got: seq<Byte>, ops: seq<Op>, outs: seq<seq<Byte>>): (r: Option<seq<Byte>>)
    requires |outs| == |ops|
    decreases |ops|
  {
    if ops == [] then Some(got)
    else if ops[0].PutBack? then
      var b := ops[0].bytes;
      if |b| <= |got| && got[|got| - |b|..] == b then Net(got[..|got| - |b|], ops[1..], outs[1..]) else None
    else Net(got + outs[0], ops[1..], outs[1..])
  }

  /** What is handed out comes off the front. */
  lemma Comes(op: Op, v: seq<Byte>, held: nat, out: seq<Byte>)
    requires |out| <= |v| && Allowed(op, v, held, out)
    ensures out == v[..|out|] && (!op.PutBack? ==> out + Left(op, v, out) == v)
  {
    hide First, LineEnd;
  }

  /** Conservation: nothing is lost, repeated or reordered by any run, whatever the chunks and the buffer. */
  lemma {:induction false} Conserved(got: seq<Byte>, v: seq<Byte>, held: nat, ops: seq<Op>, outs: seq<seq<Byte>>,
                                     w: seq<Byte>)
    requires Explains(v, held, ops, outs, w)
    ensures Net(got, ops, outs).Some? ==> Net(got, ops, outs).value + w == got + v
    decreases |ops|
  {
    hide Allowed;
    if ops != [] {
      var rest, held' := Left(ops[0], v, outs[0]), Held(ops[0], held, outs[0]);
      Comes(ops[0], v, held, outs[0]);
      if ops[0].PutBack? {
        var b := ops[0].bytes;
        if |b| <= |got| && got[|got| - |b|..] == b {
          var kept := got[..|got| - |b|];
          Conserved(kept, rest, held', ops[1..], outs[1..], w);
          TakeDrop(got, |got| - |b|);
          ConcatAssoc(kept, b, v);
        }
      } else {
        Conserved(got + outs[0], rest, held', ops[1..], outs[1..], w);
        ConcatAssoc(got, outs[0], rest);
      }
    }
  }

  /** A read of n bytes brings all it can: it fits into no empty bstring, or wants one byte, or finds bytes that were
      put back and are in the buffer. */
  predicate Full(n: nat, held: seq<Byte>) {
    n <= 1 || EMPTY_CAPACITY <= n || held != []
  }

  /** Every read does, when held is what is buffered for sure. */
  predicate Steady(held: seq<Byte>, ops: seq<Op>)
    decreases |ops|
  {
    ops == [] ||
    match ops[0]
    case GetLine(term) => Steady(if term == [] then held else Behind(held, term), ops[1..])
    case Get(n) => Full(n, held) && Steady(held[Min(n, |held|)..], ops[1..])
    case PutBack(b) => Steady(b + held, ops[1..])
    case SetBuffer(_) => Steady(held, ops[1..])
  }

  /** What is buffered for sure behind a call. */
  function HeldBytes(op: Op, held: seq<Byte>): seq<Byte> {
    match op
    case GetLine(term) => if term == [] then held else Behind(held, term)
    case Get(n) => held[Min(n, |held|)..]
    case PutBack(b) => b + held
    case SetBuffer(_) => held
  }

  lemma SteadyStep(held: seq<Byte>, ops: seq<Op>)
    ensures ops == [] ==> Steady(held, ops)
    ensures ops != [] ==>
      (Steady(held, ops) <==> (ops[0].Get? ==> Full(ops[0].n, held)) && Steady(HeldBytes(ops[0], held), ops[1..]))
  {
    hide Behind, Full;
  }

  lemma DropHeld(held: seq<Byte>, x: seq<Byte>, n: nat)
    requires n <= |held + x|
    ensures (held + x)[n..] == if n <= |held| then held[n..] + x else x[n - |held|..]
  {
    if n <= |held| {
      CutFirst(held, x, n);
    } else {
      CutSecond(held, x, n - |held|);
    }
  }

  /** A full read, or a line, is as long as it can be, and uses up the held bytes first. */
  lemma SteadyLength(op: Op, held: seq<Byte>, x: seq<Byte>, out: seq<Byte>)
    requires var v := held + x; |out| <= |v| && Allowed(op, v, |held|, out)
    requires (op.Get? ==> Full(op.n, held)) && !op.PutBack?
    ensures |out| == |Out(op, held + x, |held|, false)|
    ensures HeldBytes(op, held) == if |out| <= |held| then held[|out|..] else []
  {
    hide First;
    if op.GetLine? && op.term != [] {
      LineHeld(held, x, op.term);
      LineLength(held + x, op.term);
    }
  }

  /** One call of a steady run: there is no choice, and the held bytes are still in front of y. */
  lemma SteadyCall(op: Op, held: seq<Byte>, x: seq<Byte>, out: seq<Byte>) returns (y: seq<Byte>)
    requires var v := held + x; |out| <= |v| && Allowed(op, v, |held|, out)
    requires op.Get? ==> Full(op.n, held)
    ensures out == Out(op, held + x, |held|, false)
    ensures Left(op, held + x, out) == HeldBytes(op, held) + y
    ensures |HeldBytes(op, held)| == Held(op, |held|, out)
  {
    hide Full, Allowed, Out;
    var v := held + x;
    Comes(op, v, |held|, out);
    OutAllowed(op, v, |held|, false);
    Comes(op, v, |held|, Out(op, v, |held|, false));
    if op.PutBack? {
      y := x;
      ConcatAssoc(op.bytes, held, x);
      NoBytes(op, v, |held|, out);
      NoBytes(op, v, |held|, Out(op, v, |held|, false));
    } else {
      hide HeldBytes;
      SteadyLength(op, held, x, out);
      DropHeld(held, x, |out|);
      y := if |out| <= |held| then x else x[|out| - |held|..];
      assert [] + y == y;
    }
  }

  lemma NoBytes(op: Op, v: seq<Byte>, held: nat, out: seq<Byte>)
    ensures op.PutBack? && Allowed(op, v, held, out) ==> out == []
  {
  }

  /** The first line of held + x, seen from held. */
  lemma LineHeld(held: seq<Byte>, x: seq<Byte>, term: seq<Byte>)
    ensures var k := LineEnd(held + x, term);
      if First(held, term) < |held| then k == LineEnd(held, term) <= |held| else k >= |held| && Behind(held, term) == []
  {
    hide First;
    if First(held, term) < |held| {
      LineInFirst(held, x, term);
    } else {
      LineSkips(held, x, term);
    }
  }

  /** Steady runs on two streams that hold the same give the same, whatever their chunks and buffers. */
  lemma {:induction false} RunsAgree(held: seq<Byte>, x: seq<Byte>, ops: seq<Op>, outs: seq<seq<Byte>>, w: seq<Byte>,
                                     outs': seq<seq<Byte>>, w': seq<Byte>)
    requires Explains(held + x, |held|, ops, outs, w) && Explains(held + x, |held|, ops, outs', w')
    requires Steady(held, ops)
    ensures outs == outs' && w == w'
    decreases |ops|
  {
    hide Allowed, Left, Held, HeldBytes, Steady, Full, Out;
    if ops != [] {
      SteadyStep(held, ops);
      var y := SteadyCall(ops[0], held, x, outs[0]);
      var y' := SteadyCall(ops[0], held, x, outs'[0]);
      RunsAgree(HeldBytes(ops[0], held), y, ops[1..], outs[1..], w, outs'[1..], w');
      assert outs == [outs[0]] + outs[1..] && outs' == [outs'[0]] + outs'[1..];
    } else {
      assert outs == [] && outs' == [];
    }
  }

  /** What op hands out when the core stream gives all at once, or for slow, byte by byte. */
  function Out(op: Op, v: seq<Byte>, held: nat, slow: bool): (out: seq<Byte>)
    ensures |out| <= |v|
  {
    match op
    case GetLine(term) => if term == [] then [] else Line(v, term)
    case Get(n) => v[..Min(if slow && held == 0 && n < EMPTY_CAPACITY then Min(n, 1) else n, |v|)]
    case PutBack(_) => []
    case SetBuffer(_) => []
  }

  function Outs(v: seq<Byte>, held: nat, ops: seq<Op>, slow: bool): seq<seq<Byte>>
    decreases |ops|
  {
    if ops == [] then []
    else
      var out := Out(ops[0], v, held, slow);
      [out] + Outs(Left(ops[0], v, out), Held(ops[0], held, out), ops[1..], slow)
  }

  /** A stream that shows the difference when a run is not steady: it has two bytes for the first read that is not
      full, and before that what the calls need. */
  lemma {:induction false} Differ(held: seq<Byte>, ops: seq<Op>) returns (x: seq<Byte>)
    requires !Steady(held, ops)
    ensures Outs(held + x, |held|, ops, true) != Outs(held + x, |held|, ops, false)
    decreases |ops|
  {
    hide Steady, HeldBytes, Before, Left, Held, Out;
    SteadyStep(held, ops);
    var op := ops[0];
    if op.Get? && !Full(op.n, held) {
      x := [0, 0];
      TwoBytes(op.n, held);
      assert Outs(held + x, |held|, ops, true)[0] != Outs(held + x, |held|, ops, false)[0];
      return;
    }
    var h := HeldBytes(op, held);
    var y := Differ(h, ops[1..]);
    x := Before(op, held) + y;
    BeforeFits(op, held, y);
    var v := held + x;
    ConcatTail([Out(op, v, |held|, false)], Outs(h + y, |h|, ops[1..], true));
    ConcatTail([Out(op, v, |held|, false)], Outs(h + y, |h|, ops[1..], false));
  }

  lemma TwoBytes(n: nat, held: seq<Byte>)
    requires !Full(n, held)
    ensures Out(Get(n), held + [0, 0], |held|, true) != Out(Get(n), held + [0, 0], |held|, false)
  {
    assert |Out(Get(n), held + [0, 0], 0, true)| == 1 && |Out(Get(n), held + [0, 0], 0, false)| == 2;
  }

  /** What op takes behind the held bytes. */
  function Before(op: Op, held: seq<Byte>): seq<Byte> {
    match op
    case GetLine(term) => if term == [] || First(held, term) < |held| then [] else [term[0]]
    case Get(n) => Repeat(0, if |held| < n then n - |held| else 0)
    case PutBack(_) => []
    case SetBuffer(_) => []
  }

  lemma BeforeFits(op: Op, held: seq<Byte>, y: seq<Byte>)
    requires op.Get? ==> Full(op.n, held)
    ensures var v := held + (Before(op, held) + y);
      var out := Out(op, v, |held|, false);
      && Out(op, v, |held|, true) == out
      && Left(op, v, out) == HeldBytes(op, held) + y && Held(op, |held|, out) == |HeldBytes(op, held)|
  {
    hide First;
    var b := Before(op, held);
    var v := held + (b + y);
    assert v == held + b + y;
    if op.GetLine? && op.term != [] {
      if First(held, op.term) < |held| {
        LineInFirst(held, b + y, op.term);
        assert b + y == y;
      } else {
        LineSkips(held, b + y, op.term);
        OneLine(op.term, y);
        LineSkips(held, [], op.term);
        assert held + [] == held;
        NothingLeft(op.term);
      }
    } else if op.Get? {
      var n := op.n;
      assert n <= |held + b|;
      if n <= |held| {
        assert b == [] && v == held + y;
      } else {
        assert |held + b| == n;
      }
    } else if op.PutBack? {
      assert b + y == y;
      ConcatAssoc(op.bytes, held, y);
    } else {
      assert b + y == y;
    }
  }

  lemma OneLine(term: seq<Byte>, y: seq<Byte>)
    requires term != []
    ensures Line([term[0]] + y, term) == [term[0]] && Behind([term[0]] + y, term) == y
  {
    assert ([term[0]] + y)[1..] == y;
  }

  lemma {:induction false} SteadyOuts(held: seq<Byte>, x: seq<Byte>, ops: seq<Op>)
    requires Steady(held, ops)
    ensures Outs(held + x, |held|, ops, true) == Outs(held + x, |held|, ops, false)
    decreases |ops|
  {
    hide Steady, HeldBytes, Left, Held, Full;
    if ops != [] {
      SteadyStep(held, ops);
      var out := Out(ops[0], held + x, |held|, true);
      OutAllowed(ops[0], held + x, |held|, true);
      var y := SteadyCall(ops[0], held, x, out);
      SteadyOuts(HeldBytes(ops[0], held), y, ops[1..]);
    }
  }

  lemma OutAllowed(op: Op, v: seq<Byte>, held: nat, slow: bool)
    ensures Allowed(op, v, held, Out(op, v, held, slow))
  {
    hide First, Line;
  }

  /** What a run hands out does not depend on how the core stream hands out its bytes, whatever they are, if and only if
      the run is steady. */
  lemma RunsAgreeIff(ops: seq<Op>)
    ensures (forall v :: Outs(v, 0, ops, true) == Outs(v, 0, ops, false)) <==> Steady([], ops)
  {
    hide Outs, Steady;
    if Steady([], ops) {
      forall v
        ensures Outs(v, 0, ops, true) == Outs(v, 0, ops, false)
      {
        SteadyOuts([], v, ops);
        assert [] + v == v;
      }
    } else {
      var x := Differ([], ops);
      assert [] + x == x;
    }
  }

  lemma Divided(a: seq<Byte>, b: seq<Byte>, v: seq<Byte>)
    requires a + b == [] + v
    ensures a <= v && v[|a|..] == b && a == v[..|a|]
  {
    assert v == a + b;
  }

  lemma LineAndBehind(v: seq<Byte>, term: seq<Byte>)
    ensures [] + Line(v, term) == Line(v, term) && Behind(v, term) == v[|Line(v, term)|..]
  {
    hide First;
  }

  /** A line, into a new bstring. */
  method CallLine(s: BStream, term: seq<Byte>) returns (out: seq<Byte>)
    requires s.Valid()
    modifies s, s.buff, s.buff.data, s.src
    ensures s.Valid() && (s.buff.data == old(s.buff.data) || fresh(s.buff.data))
    ensures out == if term == [] then [] else Line(old(s.Virtual()), term)
    ensures |out| <= |old(s.Virtual())| && s.Virtual() == old(s.Virtual())[|out|..]
    ensures old(s.src.Even()) ==> s.src.Even()
    ensures if |out| < old(s.buff.slen) then s.buff.slen == old(s.buff.slen) - |out|
            else old(s.src.Slow()) ==> s.buff.slen == 0
  {
    hide Bstring.Contents, Bstring.Terminated, First, Line, Behind, LineEnd;
    ghost var v := s.Virtual();
    var r := new Bstring.Empty();
    var ret := s.ReadLine(r, term);
    LineAndBehind(v, term);
    LineLength(v, term);
    out := r.Bytes();
  }

  /** Up to n bytes, into a new bstring. */
  method CallGet(s: BStream, n: nat) returns (out: seq<Byte>)
    requires s.Valid()
    modifies s, s.buff, s.buff.data, s.src
    ensures s.Valid() && (s.buff.data == old(s.buff.data) || fresh(s.buff.data))
    ensures var v := old(s.Virtual());
      && out <= v && |out| <= n && (|out| == 0 <==> n == 0 || v == []) && s.Virtual() == v[|out|..]
      && |out| == if OneRead(old(s.buff.slen), old(s.isEOF), EMPTY_CAPACITY, n) then Min(n, old(s.src.Offer()))
                  else Min(n, |v|)
    ensures s.buff.slen == if |out| <= old(s.buff.slen) then old(s.buff.slen) - |out| else 0
    ensures old(s.src.Even()) ==> s.src.Even()
  {
    hide Bstring.Contents, Bstring.Terminated, Source.Offer, OneRead;
    ghost var v := s.Virtual();
    var r := new Bstring.Empty();
    var ret := s.Read(r, n);
    Divided(r.Contents(), s.Virtual(), v);
    out := r.Bytes();
  }

  /** One call. */
  method Call(s: BStream, op: Op, ghost held: nat) returns (out: seq<Byte>)
    requires s.Valid() && held <= s.buff.slen
    modifies s, s.buff, s.buff.data, s.src
    ensures s.Valid() && (s.buff.data == old(s.buff.data) || fresh(s.buff.data))
    ensures |out| <= |old(s.Virtual())| && Allowed(op, old(s.Virtual()), held, out)
    ensures s.Virtual() == Left(op, old(s.Virtual()), out)
    ensures Held(op, held, out) <= s.buff.slen
    ensures old(s.src.Even()) ==> s.src.Even()
    ensures old(s.src.Slow()) && held == old(s.buff.slen) ==>
      Held(op, held, out) == s.buff.slen && out == Out(op, old(s.Virtual()), held, true)
    ensures old(s.src.Quick()) ==> out == Out(op, old(s.Virtual()), held, false)
  {
    hide Bstring.Contents, Bstring.Terminated, First, Line, Behind, LineEnd;
    out := [];
    if op.PutBack? {
      s.Unread(op.bytes);
    } else if op.SetBuffer? {
      var ret := s.SetBufferLength(op.sz);
    } else if op.GetLine? {
      out := CallLine(s, op.term);
    } else {
      out := CallGet(s, op.n);
    }
  }

  /** Any run of calls, each into a new bstring. */
  method Run(s: BStream, ops: seq<Op>, ghost held: nat) returns (outs: seq<seq<Byte>>)
    requires s.Valid() && held <= s.buff.slen
    modifies s, s.buff, s.buff.data, s.src
    ensures s.Valid() && Explains(old(s.Virtual()), held, ops, outs, s.Virtual())
    ensures old(s.src.Slow()) && held == old(s.buff.slen) ==> outs == Outs(old(s.Virtual()), held, ops, true)
    ensures old(s.src.Quick()) ==> outs == Outs(old(s.Virtual()), held, ops, false)
    decreases |ops|
  {
    hide BStream.Virtual, Allowed, Left, Held, Out;
    if ops == [] {
      return [];
    }
    var out := Call(s, ops[0], held);
    var rest := Run(s, ops[1..], Held(ops[0], held, out));
    outs := [out] + rest;
    assert outs[1..] == rest;
  }

  /** Two bytes are wanted and two are there, but a core stream that gives one at a time ends the read after one. */
  method ShortRead() returns (slow: seq<seq<Byte>>, quick: seq<seq<Byte>>)
    ensures slow == [[1]] && quick == [[1, 2]]
  {
    var v: seq<Byte>, ops := [1, 2], [Get(2)];
    assert ops[1..] == [] && v[..1] == [1] && v[..2] == v;
    var src := new Source(v, [], 1);
    var s := new BStream.Open(src);
    slow := Run(s, ops, 0);
    src := new Source(v, [], 0);
    var q := new BStream.Open(src);
    quick := Run(q, ops, 0);
  }
}
