/** The bstring header: a byte buffer with a length and a capacity, and the operations that grow and edit it
    (deps/bstrlib/bstrlib.c:105-170, 388-399, 430-446, 1039-1062, 1482-1530, 1540-1582).

    `data.Length` is the capacity mlen.  Allocation always succeeds. */
module Bstrings {
  import opened BitSmear

  type Byte = x: int | 0 <= x < 256

  const BSTR_OK := 0
  const BSTR_ERR := -1

  function Min(a: nat, b: nat): nat {
    if a < b then a else b
  }

  /** memmove within one array. */
  method MemMove(a: array<Byte>, dst: nat, src: nat, len: nat)
    requires dst + len <= a.Length && src + len <= a.Length
    modifies a
    ensures a[..] == old(a[..dst]) + old(a[src..src + len]) + old(a[dst + len..])
  {
    forall i | 0 <= i < len {
      a[dst + i] := a[src + i];
    }
  }

  /** memcpy of a block that lies elsewhere. */
  method MemCpy(a: array<Byte>, dst: nat, blk: seq<Byte>)
    requires dst + |blk| <= a.Length
    modifies a
    ensures a[..] == old(a[..dst]) + blk + old(a[dst + |blk|..])
  {
    forall i | 0 <= i < |blk| {
      a[dst + i] := blk[i];
    }
  }

  /** free, or realloc for the block it leaves: nothing is known about the bytes of the block any more. */
  method Free(a: array<Byte>)
    modifies a
  {
    for i := 0 to a.Length {
      a[i] := *;
    }
  }

  /** n times the byte c. */
  function Repeat(c: Byte, n: nat): (s: seq<Byte>)
    ensures |s| == n
  {
    seq(n, _ => c)
  }

  /** The nearest position in a string of n bytes. */
  function Clamp(x: int, n: nat): nat {
    if x < 0 then 0 else if x > n then n else x
  }

  /** s with blk at position pos, and with fill in between when pos is behind the end. */
  function Inserted(s: seq<Byte>, pos: nat, blk: seq<Byte>, fill: Byte): seq<Byte> {
    if pos <= |s| then s[..pos] + blk + s[pos..] else s + Repeat(fill, pos - |s|) + blk
  }

  /** bBlockCopy: memmove, also within one array. */
  method BlockCopy(a: array<Byte>, n: nat, src: array<Byte>, ofs: nat, len: nat)
    requires n + len <= a.Length && ofs + len <= src.Length
    modifies a
    ensures a[..n + len] == old(a[..n]) + old(src[ofs..ofs + len])
  {
    forall i | 0 <= i < len {
      a[n + i] := src[ofs + i];
    }
  }

  /** Appending len bytes moves the buffer. */
  predicate CatMoves(mlen: nat, slen: nat, len: nat) {
    mlen <= slen + len && Capacity(mlen, slen + len + 1) > mlen
  }

  /** What appending blk to s gives when the buffer that s leaves holds junk where blk was. */
  function Appended(s: seq<Byte>, blk: seq<Byte>, shared: bool, mlen: nat, junk: seq<Byte>): seq<Byte> {
    s + if shared && CatMoves(mlen, |s|, |blk|) then junk else blk
  }

  /** What is appended is right whatever the old buffer holds then, if and only if nothing or another block is appended
      or the buffer stays. */
  lemma CatRightIff(s: seq<Byte>, blk: seq<Byte>, shared: bool, mlen: nat)
    ensures (forall junk: seq<Byte> | |junk| == |blk| :: Appended(s, blk, shared, mlen, junk) == s + blk)
            <==> blk == [] || !shared || !CatMoves(mlen, |s|, |blk|)
  {
    if blk != [] && shared && CatMoves(mlen, |s|, |blk|) {
      var c: int := blk[0];
      var junk := blk[0 := (c + 1) % 256];
      assert Appended(s, blk, shared, mlen, junk)[|s|] != (s + blk)[|s|];
    }
  }

  /** Seven bytes in a buffer of eight, to which one of them is appended. */
  lemma CatFreedExample()
    ensures CatMoves(8, 7, 1)
  {
    SnapUpLeastPower(9);
  }

  /** Write blk behind the first n bytes. */
  method WriteAt(a: array<Byte>, n: nat, blk: seq<Byte>)
    requires n + |blk| <= a.Length
    modifies a
    ensures a[..n + |blk|] == old(a[..n]) + blk
  {
    MemCpy(a, n, blk);
    assert a[..n + |blk|] == a[..][..n + |blk|];
  }

  /** Take len bytes from pos on out of the first n bytes. */
  method CloseGap(a: array<Byte>, pos: nat, len: nat, n: nat)
    requires pos + len <= n <= a.Length
    modifies a
    ensures a[..n - len] == old(a[..n])[..pos] + old(a[..n])[pos + len..]
  {
    ghost var s := a[..];
    MemMove(a, pos, pos + len, n - (pos + len));
    assert a[..n - len] == a[..][..n - len];
    assert s[pos + len..n] == s[..n][pos + len..];
  }

  /** The capacity after a request for olen bytes. */
  function Capacity(mlen: nat, olen: nat): (m: nat)
    ensures m >= mlen && m >= olen
  {
    SnapUpLeastPower(olen);
    if olen >= mlen && SnapUpSize(olen) > mlen then SnapUpSize(olen) else mlen
  }

  /** Up to INT_MAX, the capacity grows past what was asked for exactly below 2^30, unless it is large enough as it
      is. */
  lemma CapacityExceeds(mlen: nat, olen: nat)
    requires olen < 0x8000_0000
    ensures Capacity(mlen, olen) > olen <==> olen < 0x4000_0000 || mlen > olen
  {
    SnapUpLeastPower(olen);
  }

  /** And it grows at all exactly when what is asked for is at least the capacity; from 2^30 bytes on, more. */
  lemma CapacityMoves(mlen: nat, olen: nat)
    requires olen < 0x8000_0000
    ensures Capacity(mlen, olen) > mlen <==> if olen < 0x4000_0000 then mlen <= olen else mlen < olen
  {
    CapacityExceeds(mlen, olen);
  }

  /** A string that is only read, such as a `const_bstring` or a block: the len bytes of data from ofs on. */
  datatype Ref = Ref(data: array<Byte>, ofs: nat, len: nat) {
    predicate Valid() {
      ofs + len <= data.Length
    }

    function Contents(): (s: seq<Byte>)
      reads data
      requires Valid()
      ensures |s| == len
    {
      data[ofs..ofs + len]
    }
  }

  class Bstring {
    var data: array<Byte>
    var slen: nat
    /** Bytes that reallocations have copied so far. */
    ghost var copied: nat

    ghost predicate Valid()
      reads this
    {
      slen < data.Length
    }

    ghost function Contents(): (s: seq<Byte>)
      reads this, data
      requires Valid()
      ensures |s| == slen
    {
      data[..slen]
    }

    /** There is a NUL behind the string. */
    ghost predicate Terminated()
      reads this, data
      requires Valid()
    {
      data[slen] == 0
    }

    function AsRef(): (r: Ref)
      reads this, data
      requires Valid()
      ensures r.Valid() && r.Contents() == Contents()
    {
      Ref(data, 0, slen)
    }

    method Bytes() returns (s: seq<Byte>)
      requires Valid()
      ensures s == Contents()
    {
      s := data[..slen];
    }

    /** `bfromcstr ("")`. */
    constructor Empty()
      ensures Valid() && fresh(data) && Contents() == [] && data.Length == 8 && copied == 0
      ensures Terminated()
    {
      slen, copied := 0, 0;
      data := new Byte[SnapUpSize(2)];
      new;
      data[0] := 0;
    }

    /** `blk2bstr`. */
    constructor FromBlock(blk: seq<Byte>)
      ensures Valid() && fresh(data) && Contents() == blk && Terminated()
    {
      slen, copied := |blk|, 0;
      var i := |blk| + if |blk| != 0 then 1 else 2;
      SnapUpLeastPower(i);
      data := new Byte[SnapUpSize(i)];
      new;
      MemCpy(data, 0, blk);
      data[|blk|] := 0;
    }

    lemma Prefix(k: nat)
      requires Valid() && k <= slen
      ensures data[0..k] == Contents()[..k]
    {
    }

    method Clear()
      requires Valid()
      modifies `slen
      ensures Valid() && Contents() == []
    {
      slen := 0;
    }

    method Truncate(n: nat)
      requires Valid() && n <= slen
      modifies `slen
      ensures Valid() && Contents() == old(Contents())[..n]
    {
      slen := n;
    }

    /** Put the NUL back behind the string. */
    method Terminate()
      requires Valid()
      modifies data
      ensures Contents() == old(Contents()) && Terminated()
    {
      data[slen] := 0;
    }

    /** `balloc`: make room for olen bytes without changing the string.  When the buffer moves, nothing is known about
        the block it leaves. */
    method Balloc(olen: nat)
      requires Valid() && 0 < olen
      modifies this`data, this`copied, data
      ensures Valid() && Contents() == old(Contents())
      ensures data == old(data) || fresh(data)
      ensures data.Length == Capacity(old(data.Length), olen)
      ensures copied <= old(copied) + if data.Length > old(data.Length) then old(data.Length) else 0
      ensures data.Length == old(data.Length) ==> data == old(data)
      ensures data == old(data) ==> data[..] == old(data[..])
      ensures old(Terminated()) ==> Terminated()
    {
      if olen >= data.Length {
        var len := SnapUpSize(olen);
        SnapUpLeastPower(olen);
        if len <= data.Length {
          return;
        }
        var x := new Byte[len];
        // realloc moves the whole buffer; a new block gets the string alone.
        var n := if 7 * data.Length < 8 * slen then data.Length else slen;
        forall i | 0 <= i < n {
          x[i] := data[i];
        }
        copied := copied + n;
        Free(data);
        data := x;
        data[slen] := 0;
      }
    }

    /** `bconchar`. */
    method Conchar(c: Byte)
      requires Valid()
      modifies this, data
      ensures Valid() && Contents() == old(Contents()) + [c] && Terminated()
      ensures data == old(data) || fresh(data)
      ensures data.Length == Capacity(old(data.Length), old(slen) + 2)
      ensures copied <= old(copied) + if data.Length > old(data.Length) then old(data.Length) else 0
    {
      var d := slen;
      Balloc(d + 2);
      data[d] := c;
      data[d + 1] := 0;
      slen := slen + 1;
    }

    /** `bcatblk`: append a block. */
    method Cat(blk: seq<Byte>)
      requires Valid()
      modifies this, data
      ensures Valid() && Contents() == old(Contents()) + blk && Terminated()
      ensures data == old(data) || fresh(data)
      ensures data.Length >= old(data.Length)
    {
      var nl := slen + |blk|;
      if data.Length <= nl {
        Balloc(nl + 1);
      }
      MemCpy(data, slen, blk);
      slen := nl;
      data[nl] := 0;
    }

    /** The same for the len bytes of src from ofs on.  A block of the string's own buffer is appended as it is, unless
        the buffer moves; then what the block it leaves holds is appended. */
    method CatBlock(src: array<Byte>, ofs: nat, len: nat)
      requires Valid() && ofs + len <= src.Length
      modifies this, data
      ensures Valid() && Terminated()
      ensures Contents() == old(Contents()) + if old(src == data && CatMoves(data.Length, slen, len))
                                              then src[ofs..ofs + len] else old(src[ofs..ofs + len])
      ensures data == old(data) || fresh(data)
      ensures data.Length >= old(data.Length)
    {
      hide Capacity;
      var nl := slen + len;
      if data.Length <= nl {
        Balloc(nl + 1);
      }
      BlockCopy(data, slen, src, ofs, len);
      slen := nl;
      data[nl] := 0;
    }

    /** `bdelete`: remove what lies in [pos, pos + len).  A range that starts before the string is cut on its left; one
        that is empty by more than that is an error. */
    method Delete(pos: int, len: int) returns (ret: int)
      requires Valid()
      modifies this`slen, data
      ensures Valid() && (old(Terminated()) ==> Terminated())
      ensures ret == if len < 0 || pos + len < 0 then BSTR_ERR else BSTR_OK
      ensures var s := old(Contents());
        Contents() == if ret == BSTR_ERR then s else s[..Clamp(pos, |s|)] + s[Clamp(pos + len, |s|)..]
    {
      var p, n := pos, len;
      if p < 0 {
        n := n + p;
        p := 0;
      }
      if n < 0 {
        return BSTR_ERR;
      }
      if n > 0 && p < slen {
        if p + n >= slen {
          slen := p;
        } else {
          CloseGap(data, p, n, slen);
          slen := slen - n;
        }
        data[slen] := 0;
      }
      return BSTR_OK;
    }

    /** `bsetstr` without a second string: pad with fill up to position pos. */
    method Pad(pos: nat, fill: Byte)
      requires Valid()
      modifies this, data
      ensures Valid() && Terminated() && (data == old(data) || fresh(data))
      ensures Contents() == Inserted(old(Contents()), if pos > old(slen) then pos else old(slen), [], fill)
      ensures data.Length == Capacity(old(data.Length), pos + 1)
    {
      Balloc(pos + 1);
      if pos > slen {
        ghost var s := Contents();
        WriteAt(data, slen, Repeat(fill, pos - slen));
        assert s + Repeat(fill, pos - slen) == s + Repeat(fill, pos - slen) + [];
        slen := pos;
      }
      data[slen] := 0;
    }

    /** `binsertblk`. */
    method Insert(pos: int, blk: seq<Byte>, fill: Byte) returns (ret: int)
      requires Valid()
      modifies this, data
      ensures Valid() && (data == old(data) || fresh(data))
      ensures ret == if pos < 0 then BSTR_ERR else BSTR_OK
      ensures Contents() == if ret == BSTR_ERR then old(Contents()) else Inserted(old(Contents()), pos, blk, fill)
      ensures old(Terminated()) || ret == BSTR_OK ==> Terminated()
    {
      if pos < 0 {
        return BSTR_ERR;
      }
      var d, l := slen + |blk|, pos + |blk|;
      if l > d {
        Balloc(l + 1);
        WriteAt(data, slen, Repeat(fill, pos - slen));
        WriteAt(data, pos, blk);
        slen := l;
      } else {
        Balloc(d + 1);
        OpenGap(data, pos, slen, blk);
        slen := d;
      }
      data[slen] := 0;
      return BSTR_OK;
    }
  }

  /** Move what is behind pos and copy blk into the gap. */
  method OpenGap(a: array<Byte>, pos: nat, n: nat, blk: seq<Byte>)
    requires pos <= n && n + |blk| < a.Length
    modifies a
    ensures a[..n + |blk|] == old(a[..n])[..pos] + blk + old(a[..n])[pos..]
  {
    ghost var s := a[..];
    MemMove(a, pos + |blk|, pos, n - pos);
    ghost var t := a[..];
    assert t == s[..pos + |blk|] + s[pos..n] + s[n + |blk|..];
    MemCpy(a, pos, blk);
    ghost var u := a[..];
    assert u == t[..pos] + blk + t[pos + |blk|..];
    InsertSeq(s, t, u, pos, n, blk);
    assert u[..n + |blk|] == a[..n + |blk|];
  }

  lemma InsertSeq(s: seq<Byte>, t: seq<Byte>, u: seq<Byte>, pos: nat, n: nat, blk: seq<Byte>)
    requires pos <= n && n + |blk| < |s|
    requires t == s[..pos + |blk|] + s[pos..n] + s[n + |blk|..]
    requires u == t[..pos] + blk + t[pos + |blk|..]
    ensures |u| == |s| && u[..n + |blk|] == s[..n][..pos] + blk + s[..n][pos..]
  {
    assert t[..pos] == s[..pos];
    assert u[pos + |blk|..n + |blk|] == t[pos + |blk|..n + |blk|] == s[pos..n];
  }

  // ---------------------------------------------------------------------------------------------------
  // Appending one character at a time
  // ---------------------------------------------------------------------------------------------------

  /** Capacity after n calls of `bconchar` on an empty bstring, and an upper bound on the bytes copied. */
  function CapacityAfter(n: nat): (m: nat)
    ensures m >= 8
  {
    if n == 0 then 8 else Capacity(CapacityAfter(n - 1), n + 1)
  }

  function CopiedAfter(n: nat): nat {
    if n == 0 then 0
    else CopiedAfter(n - 1) + if CapacityAfter(n) > CapacityAfter(n - 1) then CapacityAfter(n - 1) else 0
  }

  /** Doubling pays for itself: the copies of n appends come to at most 2 * n bytes. */
  lemma {:induction false} AppendsCopyLinear(n: nat)
    requires n < 0x4000_0000 - 1
    ensures CopiedAfter(n) <= 2 * n
    ensures CopiedAfter(n) + 8 <= CapacityAfter(n)
    ensures n + 1 < CapacityAfter(n) && (CapacityAfter(n) > 8 ==> CapacityAfter(n) <= 2 * n + 2)
    ensures exists k: nat :: CapacityAfter(n) == Pow2(k)
  {
    hide SnapUpSize, Pow2;
    if n == 0 {
      FirstPower();
    } else {
      AppendsCopyLinear(n - 1);
      var m := CapacityAfter(n - 1);
      var k: nat :| m == Pow2(k);
      if n + 1 >= m {
        NextPower(k);
      }
    }
  }

  lemma FirstPower()
    ensures Pow2(3) == 8
  {
  }

  lemma NextPower(k: nat)
    requires 8 <= Pow2(k) < 0x4000_0000
    ensures SnapUpSize(Pow2(k)) == Pow2(k + 1) == 2 * Pow2(k)
  {
    SnapUpLeastPower(Pow2(k));
    var p := SnapUpSize(Pow2(k));
    var k': nat :| p == Pow2(k') && Pow2(k') <= 2 * Pow2(k);
    Pow2Mono(k', k);
    Pow2Mono(k + 1, k');
  }

  /** n calls of `bconchar` build the string and copy no more than 2 * n bytes between buffers. */
  method BuildByAppending(s: seq<Byte>) returns (b: Bstring)
    requires |s| < 0x4000_0000 - 1
    ensures fresh(b) && fresh(b.data) && b.Valid() && b.Contents() == s
    ensures b.copied <= 2 * |s|
  {
    hide Capacity, CapacityAfter, CopiedAfter;
    b := new Bstring.Empty();
    var i := 0;
    NothingAppended();
    while i < |s|
      invariant 0 <= i <= |s|
      invariant fresh(b) && fresh(b.data) && b.Valid() && b.slen == i && b.Contents() == s[..i]
      invariant b.data.Length == CapacityAfter(i) && b.copied <= CopiedAfter(i)
    {
      AppendedOne(i);
      b.Conchar(s[i]);
      i := i + 1;
    }
    AppendsCopyLinear(|s|);
  }

  lemma NothingAppended()
    ensures CapacityAfter(0) == 8 && CopiedAfter(0) == 0
  {
  }

  lemma AppendedOne(i: nat)
    ensures var m, m' := CapacityAfter(i), CapacityAfter(i + 1);
      m' == Capacity(m, i + 2) && CopiedAfter(i + 1) == CopiedAfter(i) + if m' > m then m else 0
  {
  }
}
