/** In-place replacement of every match: `findreplaceengine` as `bfindreplace` uses it, and the SGML escaping built on
    it (deps/bstrlib/bstrlib.c:1660-1804, deps/bstrlib/bstraux.c:844-862).

    The engine searches and rewrites one live buffer, in one of three ways depending on which of the two strings is
    longer.  The reference replaces the leftmost non-overlapping matches of the original contents. */
module FindReplace {
  import opened Bstrings
  import opened SubstringSearch
  import Arith
  import opened Wrappers
  import opened Seqs

  /** t with the leftmost match of f, the leftmost one behind it, and so on, replaced by r. */
  function ReplaceIn(t: seq<Byte>, f: seq<Byte>, r: seq<Byte>): seq<Byte>
    requires f != []
    decreases |t|
  {
    var i := IndexFrom(t, f, 0);
    if i == BSTR_ERR then t else t[..i] + r + ReplaceIn(t[i + |f|..], f, r)
  }

  function ReplaceAll(s: seq<Byte>, f: seq<Byte>, r: seq<Byte>, pos: nat): seq<Byte>
    requires f != [] && pos <= |s|
  {
    s[..pos] + ReplaceIn(s[pos..], f, r)
  }

  lemma OccursShift(s: seq<Byte>, o: seq<Byte>, f: seq<Byte>, pos: nat, shift: nat, q: nat)
    requires shift <= pos <= |s| && pos - shift <= |o| && s[pos..] == o[pos - shift..] && pos <= q
    ensures OccursAt(s, f, q) <==> OccursAt(o, f, q - shift)
  {
    assert |s| - pos == |o| - (pos - shift);
    if q + |f| <= |s| {
      DropSlice(s, pos, q - pos, q - pos + |f|);
      DropSlice(o, pos - shift, q - pos, q - pos + |f|);
    }
  }

  /** Searching from pos sees nothing but the characters from pos on. */
  lemma SameTail(s: seq<Byte>, o: seq<Byte>, f: seq<Byte>, pos: nat, shift: nat)
    requires shift <= pos <= |s| && pos - shift <= |o| && s[pos..] == o[pos - shift..]
    ensures IndexFrom(o, f, pos - shift) == var i := IndexFrom(s, f, pos); if i == BSTR_ERR then i else i - shift
  {
    hide OccursAt;
    var i := IndexFrom(s, f, pos);
    forall q | pos - shift <= q && OccursAt(o, f, q)
      ensures i != BSTR_ERR && i - shift <= q
    {
      OccursShift(s, o, f, pos, shift, q + shift);
    }
    if i != BSTR_ERR {
      OccursShift(s, o, f, pos, shift, i);
    }
    IndexFromUnique(o, f, pos - shift, if i == BSTR_ERR then i else i - shift);
  }

  lemma ReplaceStep(o: seq<Byte>, f: seq<Byte>, r: seq<Byte>, pos: nat)
    requires f != [] && pos <= |o|
    ensures var i := IndexFrom(o, f, pos);
            ReplaceIn(o[pos..], f, r) == if i == BSTR_ERR then o[pos..]
                                         else o[pos..i] + r + ReplaceIn(o[i + |f|..], f, r)
  {
    hide OccursAt, IndexFrom;
    SameTail(o, o[pos..], f, pos, pos);
    var i, t := IndexFrom(o, f, pos), o[pos..];
    FoundInside(o, f, pos, i);
    if i != BSTR_ERR {
      DropDrop(o, pos, i - pos + |f|);
      assert t[..i - pos] == o[pos..i];
    }
  }

  /** A string that shares b's buffer lies before position k, where nothing is written. */
  ghost predicate Apart(b: Bstring, x: Ref, k: nat): (r: bool)
    reads b
    ensures r ==> x.Valid()
  {
    x.Valid() && (x.data == b.data ==> x.len == 0 || x.ofs + x.len <= k)
  }

  lemma FoundInside(o: seq<Byte>, f: seq<Byte>, pos: nat, i: int)
    requires pos <= |o| && i == IndexFrom(o, f, pos)
    ensures i != BSTR_ERR ==> pos <= i && i + |f| <= |o|
  {
  }

  /** The whole buffer now, with the first out bytes final and the original o untouched from pos on. */
  ghost predicate Halfway(now: seq<Byte>, o: seq<Byte>, f: seq<Byte>, r: seq<Byte>, start: nat, out: nat, pos: nat)
    requires f != [] && start <= |o|
  {
    && out <= pos <= |o| <= |now|
    && now[pos..|o|] == o[pos..]
    && now[..out] + ReplaceIn(o[pos..], f, r) == ReplaceAll(o, f, r, start)
  }

  lemma HalfwayStart(now: seq<Byte>, o: seq<Byte>, f: seq<Byte>, r: seq<Byte>, start: nat)
    requires f != [] && start <= |o| <= |now| && now[..|o|] == o
    ensures Halfway(now, o, f, r, start, start, start)
  {
    assert now[start..|o|] == now[..|o|][start..];
  }

  /** The next match in the live buffer is the next match in the original. */
  lemma LiveMatch(now: seq<Byte>, o: seq<Byte>, f: seq<Byte>, r: seq<Byte>, start: nat, out: nat, pos: nat)
    requires f != [] && start <= |o| && Halfway(now, o, f, r, start, out, pos)
    ensures IndexFrom(now[..|o|], f, pos) == IndexFrom(o, f, pos)
  {
    assert now[..|o|][pos..] == now[pos..|o|];
    SameTail(now[..|o|], o, f, pos, 0);
  }

  /** Text up to the match at i moves to out, the replacement follows, and what comes behind the match stays. */
  lemma HalfwayStep(was: seq<Byte>, now: seq<Byte>, o: seq<Byte>, f: seq<Byte>, r: seq<Byte>,
                    start: nat, out: nat, pos: nat, i: nat)
    requires f != [] && start <= |o| && Halfway(was, o, f, r, start, out, pos)
    requires i == IndexFrom(o, f, pos) && pos <= i && i + |f| <= |o| && |now| == |was|
    requires out + (i - pos) + |r| <= i + |f|
    requires now[..out + (i - pos) + |r|] == was[..out] + o[pos..i] + r
    requires now[i + |f|..|o|] == was[i + |f|..|o|]
    ensures Halfway(now, o, f, r, start, out + (i - pos) + |r|, i + |f|)
  {
    hide ReplaceIn, ReplaceAll, IndexFrom, OccursAt;
    ReplaceStep(o, f, r, pos);
    SliceOfSlice(was, o, pos, i + |f|);
    Regroup(was[..out], o[pos..i], r, ReplaceIn(o[i + |f|..], f, r));
  }

  lemma Regroup(a: seq<Byte>, b: seq<Byte>, c: seq<Byte>, d: seq<Byte>)
    ensures a + (b + c + d) == a + b + c + d
  {
  }

  lemma SliceOfSlice(s: seq<Byte>, o: seq<Byte>, pos: nat, k: nat)
    requires pos <= k <= |o| <= |s| && s[pos..|o|] == o[pos..]
    ensures s[k..|o|] == o[k..]
  {
    assert s[pos..|o|][k - pos..] == s[k..|o|];
    assert o[pos..][k - pos..] == o[k..];
  }

  lemma HalfwayEnd(now: seq<Byte>, o: seq<Byte>, f: seq<Byte>, r: seq<Byte>, start: nat, out: nat, pos: nat)
    requires f != [] && start <= |o| && Halfway(now, o, f, r, start, out, pos)
    requires IndexFrom(o, f, pos) == BSTR_ERR
    ensures now[..out] + o[pos..] == ReplaceAll(o, f, r, start)
  {
    ReplaceStep(o, f, r, pos);
  }

  /** The branch for strings of equal length. */
  method ReplaceEqual(b: Bstring, f: Ref, r: Ref, start: nat)
    requires b.Valid() && Apart(b, f, start) && Apart(b, r, start)
    requires 0 < f.len == r.len && start <= b.slen
    modifies b.data
    ensures b.Contents() == old(ReplaceAll(b.Contents(), f.Contents(), r.Contents(), start))
  {
    hide ReplaceAll, IndexFrom, OccursAt, Halfway, Written, Slid, Moved, Apart, Ref.Contents;
    ghost var o, fs, rs := b.Contents(), f.Contents(), r.Contents();
    var pos := start;
    ghost var now := b.data[..];
    HalfwayStart(now, o, fs, rs, start);
    LiveMatch(now, o, fs, rs, start, pos, pos);
    var i := Binstr(b, pos, f);
    while i >= 0
      invariant start <= pos <= |o|
      invariant Apart(b, f, start) && Apart(b, r, start) && f.Contents() == fs && r.Contents() == rs
      invariant now == b.data[..] && Halfway(now, o, fs, rs, start, pos, pos)
      invariant i == IndexFrom(o, fs, pos)
      decreases |o| - pos
    {
      FoundInside(o, fs, pos, i);
      WriteBehind(b, i, f, r, start);
      EqualStep(now, b.data[..], o, fs, rs, start, pos, i);
      now := b.data[..];
      pos := i + f.len;
      LiveMatch(now, o, fs, rs, start, pos, pos);
      i := Binstr(b, pos, f);
    }
    NoMove(now, pos, pos, |o|);
    LastPiece(now, now, o, fs, rs, start, 0, pos);
  }

  lemma EqualStep(was: seq<Byte>, now: seq<Byte>, o: seq<Byte>, f: seq<Byte>, r: seq<Byte>, start: nat, pos: nat,
                  i: nat)
    requires f != [] && start <= |o| && Halfway(was, o, f, r, start, pos, pos) && |f| == |r|
    requires i == IndexFrom(o, f, pos) && pos <= i && i + |f| <= |o| && Written(was, now, i, r)
    ensures Halfway(now, o, f, r, start, i + |f|, i + |f|)
  {
    HalfwayBounds(was, o, f, r, start, pos, pos);
    hide ReplaceAll, IndexFrom, OccursAt, Halfway, Written, Slid, Moved;
    NoMove(was, pos, pos, i);
    SlideSeq(was, was, now, pos, pos, i, i, r, i + |f|);
    HalfwaySlide(was, now, o, f, r, start, pos, pos, i);
  }

  lemma HalfwayBounds(now: seq<Byte>, o: seq<Byte>, f: seq<Byte>, r: seq<Byte>, start: nat, out: nat, pos: nat)
    requires f != [] && start <= |o| && Halfway(now, o, f, r, start, out, pos)
    ensures out <= pos <= |o| <= |now|
  {
  }

  lemma HalfwayTail(now: seq<Byte>, o: seq<Byte>, f: seq<Byte>, r: seq<Byte>, start: nat, out: nat, pos: nat, i: nat)
    requires f != [] && start <= |o| && Halfway(now, o, f, r, start, out, pos) && pos <= i <= |o|
    ensures now[pos..i] == o[pos..i]
  {
    assert now[pos..|o|][..i - pos] == now[pos..i];
  }

  // Block moves, as relations between the whole buffer before and after.

  ghost predicate Moved(s: seq<Byte>, t: seq<Byte>, d: nat, p: nat, e: nat) {
    p <= e <= |s| && d + (e - p) <= |s| && t == s[..d] + s[p..e] + s[d + e - p..]
  }

  ghost predicate Written(s: seq<Byte>, t: seq<Byte>, at: nat, rs: seq<Byte>) {
    at + |rs| <= |s| && t == s[..at] + rs + s[at + |rs|..]
  }

  ghost predicate Kept(s: seq<Byte>, t: seq<Byte>, k: nat) {
    k <= |s| == |t| && s[..k] == t[..k]
  }

  /** s[p..e] has gone to d, rs is behind it, and everything from k on is as before. */
  ghost predicate Slid(s: seq<Byte>, t: seq<Byte>, d: nat, p: nat, e: nat, rs: seq<Byte>, k: nat) {
    && d <= p <= e <= k <= |s| == |t| && d + (e - p) + |rs| <= k
    && t[..d + (e - p) + |rs|] == s[..d] + s[p..e] + rs
    && t[k..] == s[k..]
  }

  lemma MovedKeeps(s: seq<Byte>, t: seq<Byte>, d: nat, p: nat, e: nat, start: nat)
    requires Moved(s, t, d, p, e) && start <= d
    ensures Kept(s, t, start)
  {
  }

  lemma WrittenKeeps(s: seq<Byte>, t: seq<Byte>, at: nat, rs: seq<Byte>, start: nat)
    requires Written(s, t, at, rs) && start <= at
    ensures Kept(s, t, start)
  {
  }

  lemma SlideSeq(s0: seq<Byte>, s1: seq<Byte>, s2: seq<Byte>, d: nat, p: nat, e: nat, at: nat, rs: seq<Byte>, k: nat)
    requires Moved(s0, s1, d, p, e) && Written(s1, s2, at, rs) && at == d + (e - p)
    requires d <= p && e <= k <= |s0| && d + (e - p) + |rs| <= k
    ensures Slid(s0, s2, d, p, e, rs, k)
  {
    assert s1[..d + (e - p)] == s0[..d] + s0[p..e];
    assert s1[d + (e - p) + |rs|..] == s0[d + (e - p) + |rs|..];
  }

  lemma NoMove(s: seq<Byte>, d: nat, p: nat, e: nat)
    requires p <= e <= |s| && d + (e - p) <= |s| && (d == p || p == e)
    ensures Moved(s, s, d, p, e)
  {
  }

  /** xs is the value of x, seen in the bytes s of b's buffer if it lies there. */
  ghost predicate Seen(b: Bstring, x: Ref, k: nat, xs: seq<Byte>, s: seq<Byte>)
    reads b
  {
    && Apart(b, x, k) && |xs| == x.len
    && (x.data == b.data && x.len != 0 ==> x.ofs + x.len <= |s| && xs == s[x.ofs..x.ofs + x.len])
  }

  lemma SeenNow(b: Bstring, x: Ref, k: nat)
    requires Apart(b, x, k)
    ensures Seen(b, x, k, x.Contents(), b.data[..])
  {
  }

  /** Writing b's buffer from k on leaves the value of a string that is apart from it alone. */
  lemma StillApart(b: Bstring, x: Ref, k: nat, was: seq<Byte>, xs: seq<Byte>)
    requires Seen(b, x, k, xs, was) && Kept(was, b.data[..], k)
    requires x.data != b.data ==> xs == x.Contents()
    ensures x.Contents() == xs
  {
    if x.data == b.data && x.len != 0 {
      assert x.Contents() == b.data[..][..k][x.ofs..x.ofs + x.len];
      assert xs == was[..k][x.ofs..x.ofs + x.len];
    }
  }

  method MovePiece(data: array<Byte>, acc: nat, pos: nat, i: nat)
    requires acc <= pos <= i <= data.Length
    modifies data
    ensures Moved(old(data[..]), data[..], pos - acc, pos, i)
  {
    if acc != 0 && i > pos {
      MemMove(data, pos - acc, pos, i - pos);
    } else {
      hide Moved;
      NoMove(data[..], pos - acc, pos, i);
    }
  }

  method WritePiece(data: array<Byte>, at: nat, rs: seq<Byte>)
    requires at + |rs| <= data.Length
    modifies data
    ensures Written(old(data[..]), data[..], at, rs)
  {
    if |rs| != 0 {
      MemCpy(data, at, rs);
    }
  }

  /** The branch for a shorter replacement: the kept pieces slide left by what has been saved so far. */
  method ReplaceShrinking(b: Bstring, f: Ref, r: Ref, start: nat)
    requires b.Valid() && Apart(b, f, start) && Apart(b, r, start)
    requires f.len > r.len && start <= b.slen
    modifies b`slen, b.data
    ensures b.Valid()
    ensures b.Contents() == old(ReplaceAll(b.Contents(), f.Contents(), r.Contents(), start))
  {
    hide ReplaceAll, IndexFrom, OccursAt, Halfway, Moved, Apart;
    ghost var o, fs, rs := b.Contents(), f.Contents(), r.Contents();
    var acc, pos := ShrinkMatches(b, f, r, start, o);
    ghost var now := b.data[..];
    if acc != 0 {
      MovePiece(b.data, acc, pos, b.slen);
      LastPiece(now, b.data[..], o, fs, rs, start, acc, pos);
      b.slen := b.slen - acc;
      b.data[b.slen] := 0;
    } else {
      NoMove(now, pos, pos, b.slen);
      LastPiece(now, now, o, fs, rs, start, 0, pos);
    }
  }

  lemma LastPiece(was: seq<Byte>, now: seq<Byte>, o: seq<Byte>, f: seq<Byte>, r: seq<Byte>, start: nat, acc: nat,
                  pos: nat)
    requires f != [] && start <= |o| && acc <= pos && Halfway(was, o, f, r, start, pos - acc, pos)
    requires IndexFrom(o, f, pos) == BSTR_ERR && Moved(was, now, pos - acc, pos, |o|)
    ensures |now| == |was| && now[..|o| - acc] == ReplaceAll(o, f, r, start)
  {
    HalfwayEnd(was, o, f, r, start, pos - acc, pos);
  }

  method ShrinkMatches(b: Bstring, f: Ref, r: Ref, start: nat, ghost o: seq<Byte>) returns (acc: nat, pos: nat)
    requires b.Valid() && Apart(b, f, start) && Apart(b, r, start) && o == b.Contents()
    requires f.len > r.len && start <= b.slen
    modifies b.data
    ensures acc <= pos <= |o|
    ensures Halfway(b.data[..], o, old(f.Contents()), old(r.Contents()), start, pos - acc, pos)
    ensures IndexFrom(o, old(f.Contents()), pos) == BSTR_ERR
  {
    hide ReplaceAll, IndexFrom, OccursAt, Halfway, Moved, Written, Kept, Slid;
    ghost var fs, rs := f.Contents(), r.Contents();
    var delta := f.len - r.len;
    acc, pos := 0, start;
    ghost var now := b.data[..];
    HalfwayStart(now, o, fs, rs, start);
    LiveMatch(now, o, fs, rs, start, pos, pos);
    var i := Binstr(b, pos, f);
    while i >= 0
      invariant start <= pos - acc <= pos <= |o|
      invariant Apart(b, f, start) && Apart(b, r, start) && f.Contents() == fs && r.Contents() == rs
      invariant now == b.data[..] && Halfway(now, o, fs, rs, start, pos - acc, pos)
      invariant i == IndexFrom(o, fs, pos)
      decreases |o| - pos
    {
      FoundInside(o, fs, pos, i);
      SlideMatch(b, acc, pos, i, f, r, start);
      HalfwaySlide(now, b.data[..], o, fs, rs, start, pos - acc, pos, i);
      now := b.data[..];
      acc := acc + delta;
      pos := i + f.len;
      LiveMatch(now, o, fs, rs, start, pos - acc, pos);
      i := Binstr(b, pos, f);
    }
  }

  /** One match of the shrinking branch: move data[pos..i] left by acc and put the replacement behind it. */
  method SlideMatch(b: Bstring, acc: nat, pos: nat, i: nat, f: Ref, r: Ref, start: nat)
    requires b.Valid() && Apart(b, f, start) && Apart(b, r, start)
    requires r.len <= f.len && acc <= pos <= i && start <= pos - acc && i + f.len <= b.data.Length
    modifies b.data
    ensures Apart(b, f, start) && f.Contents() == old(f.Contents())
    ensures Apart(b, r, start) && r.Contents() == old(r.Contents())
    ensures Slid(old(b.data[..]), b.data[..], pos - acc, pos, i, r.Contents(), i + f.len)
  {
    hide Moved, Written, Kept, Slid, Apart, Ref.Contents;
    ghost var s0, rs := b.data[..], r.Contents();
    MoveBefore(b, acc, pos, i, f, r, start);
    ghost var s1 := b.data[..];
    WriteBehind(b, i - acc, f, r, start);
    SlideSeq(s0, s1, b.data[..], pos - acc, pos, i, i - acc, rs, i + f.len);
  }

  method MoveBefore(b: Bstring, acc: nat, pos: nat, i: nat, f: Ref, r: Ref, start: nat)
    requires b.Valid() && Apart(b, f, start) && Apart(b, r, start)
    requires acc <= pos <= i <= b.data.Length && start <= pos - acc
    modifies b.data
    ensures Apart(b, f, start) && f.Contents() == old(f.Contents())
    ensures Apart(b, r, start) && r.Contents() == old(r.Contents())
    ensures Moved(old(b.data[..]), b.data[..], pos - acc, pos, i)
  {
    hide Moved, Kept, Apart, Seen, Ref.Contents;
    ghost var s0, rs, fs := b.data[..], r.Contents(), f.Contents();
    SeenNow(b, r, start);
    SeenNow(b, f, start);
    MovePiece(b.data, acc, pos, i);
    MovedKeeps(s0, b.data[..], pos - acc, pos, i, start);
    StillApart(b, r, start, s0, rs);
    StillApart(b, f, start, s0, fs);
  }

  method WriteBehind(b: Bstring, at: nat, f: Ref, r: Ref, start: nat)
    requires b.Valid() && Apart(b, f, start) && Apart(b, r, start)
    requires start <= at && at + r.len <= b.data.Length
    modifies b.data
    ensures Apart(b, f, start) && f.Contents() == old(f.Contents())
    ensures Apart(b, r, start) && r.Contents() == old(r.Contents())
    ensures Written(old(b.data[..]), b.data[..], at, r.Contents())
  {
    hide Written, Kept, Apart, Seen, Ref.Contents;
    ghost var s0, rs, fs := b.data[..], r.Contents(), f.Contents();
    SeenNow(b, r, start);
    SeenNow(b, f, start);
    WritePiece(b.data, at, r.Contents());
    WrittenKeeps(s0, b.data[..], at, rs, start);
    StillApart(b, r, start, s0, rs);
    StillApart(b, f, start, s0, fs);
  }

  lemma HalfwaySlide(was: seq<Byte>, now: seq<Byte>, o: seq<Byte>, f: seq<Byte>, r: seq<Byte>,
                     start: nat, out: nat, pos: nat, i: nat)
    requires f != [] && start <= |o| && Halfway(was, o, f, r, start, out, pos)
    requires i == IndexFrom(o, f, pos) && pos <= i && i + |f| <= |o|
    requires Slid(was, now, out, pos, i, r, i + |f|)
    ensures Halfway(now, o, f, r, start, out + (i - pos) + |r|, i + |f|)
  {
    hide ReplaceAll, ReplaceIn, IndexFrom, OccursAt;
    HalfwayTail(was, o, f, r, start, out, pos, i);
    KeptBehind(was, now, i + |f|, |o|);
    HalfwayStep(was, now, o, f, r, start, out, pos, i);
  }

  lemma KeptBehind(s: seq<Byte>, t: seq<Byte>, k: nat, n: nat)
    requires k <= n <= |s| == |t| && s[k..] == t[k..]
    ensures s[k..n] == t[k..n]
  {
    assert s[k..][..n - k] == s[k..n] && t[k..][..n - k] == t[k..n];
  }

  // ---------------------------------------------------------------------------------------------------
  // The branch for a longer replacement
  // ---------------------------------------------------------------------------------------------------

  /** Positions of the matches that get replaced. */
  function Matches(o: seq<Byte>, f: seq<Byte>, pos: nat): (ms: seq<nat>)
    requires f != [] && pos <= |o|
    ensures Spaced(o, f, ms, pos)
    decreases |o| - pos
  {
    var i := IndexFrom(o, f, pos);
    if i == BSTR_ERR then []
    else
      var ms := Matches(o, f, i + |f|);
      assert forall k | 1 <= k < |[i] + ms| :: ([i] + ms)[k] == ms[k - 1];
      [i] + ms
  }

  ghost predicate Spaced(o: seq<Byte>, f: seq<Byte>, ms: seq<nat>, pos: nat) {
    && (ms != [] ==> pos <= ms[0])
    && (forall k | 0 <= k < |ms| - 1 :: ms[k] + |f| <= ms[k + 1])
    && (forall k | 0 <= k < |ms| :: ms[k] + |f| <= |o|)
  }

  /** Where match number k starts; behind the last one, the end of the string. */
  function At(o: seq<Byte>, ms: seq<nat>, k: nat): nat {
    if k < |ms| then ms[k] else |o|
  }

  /** The result from match number k on. */
  ghost function Final(o: seq<Byte>, f: seq<Byte>, r: seq<Byte>, ms: seq<nat>, pos: nat, k: nat): seq<Byte>
    requires Spaced(o, f, ms, pos) && k <= |ms|
    decreases |ms| - k
  {
    if k == |ms| then [] else r + o[ms[k] + |f|..At(o, ms, k + 1)] + Final(o, f, r, ms, pos, k + 1)
  }

  lemma FinalStep(o: seq<Byte>, f: seq<Byte>, r: seq<Byte>, ms: seq<nat>, pos: nat, k: nat)
    requires Spaced(o, f, ms, pos) && k <= |ms|
    ensures k == |ms| ==> Final(o, f, r, ms, pos, k) == [] && At(o, ms, k) == |o|
    ensures k < |ms| ==>
      && At(o, ms, k) == ms[k] && ms[k] + |f| <= At(o, ms, k + 1) <= |o|
      && Final(o, f, r, ms, pos, k) == r + o[ms[k] + |f|..At(o, ms, k + 1)] + Final(o, f, r, ms, pos, k + 1)
  {
  }

  lemma {:induction false} FinalReplaces(o: seq<Byte>, f: seq<Byte>, r: seq<Byte>, pos: nat, ms: seq<nat>, k: nat,
                                         p: nat)
    requires f != [] && pos <= p <= |o| && Spaced(o, f, ms, pos) && k <= |ms|
    requires ms[k..] == Matches(o, f, p)
    ensures p <= At(o, ms, k) && o[p..At(o, ms, k)] + Final(o, f, r, ms, pos, k) == ReplaceIn(o[p..], f, r)
    decreases |o| - p
  {
    hide ReplaceIn, IndexFrom, OccursAt, Spaced, Final, Matches, At;
    ReplaceStep(o, f, r, p);
    MatchesStep(o, f, p);
    FinalStep(o, f, r, ms, pos, k);
    var i := IndexFrom(o, f, p);
    if k == |ms| {
      assert i == BSTR_ERR;
      assert o[p..|o|] + [] == o[p..];
    } else {
      FirstOfTail(ms, k, i, Matches(o, f, i + |f|));
      FoundInside(o, f, p, i);
      FinalReplaces(o, f, r, pos, ms, k + 1, i + |f|);
      FinalMore(o, f, r, ms, pos, k, p);
    }
  }

  lemma FinalMore(o: seq<Byte>, f: seq<Byte>, r: seq<Byte>, ms: seq<nat>, pos: nat, k: nat, p: nat)
    requires f != [] && Spaced(o, f, ms, pos) && k < |ms| && p <= ms[k] == IndexFrom(o, f, p) && p <= |o|
    requires ms[k] + |f| <= At(o, ms, k + 1) <= |o|
    requires var q := ms[k] + |f|;
      o[q..At(o, ms, k + 1)] + Final(o, f, r, ms, pos, k + 1) == ReplaceIn(o[q..], f, r)
    ensures At(o, ms, k) == ms[k] && o[p..ms[k]] + Final(o, f, r, ms, pos, k) == ReplaceIn(o[p..], f, r)
  {
    hide ReplaceIn, IndexFrom, OccursAt, Spaced, Final, At;
    FinalStep(o, f, r, ms, pos, k);
    ReplaceStep(o, f, r, p);
    var i, q := ms[k], ms[k] + |f|;
    Rebracket(o[p..i], r, o[q..At(o, ms, k + 1)], Final(o, f, r, ms, pos, k + 1), Final(o, f, r, ms, pos, k),
              ReplaceIn(o[q..], f, r));
  }

  lemma FirstOfTail(ms: seq<nat>, k: nat, i: nat, rest: seq<nat>)
    requires k < |ms| && ms[k..] == [i] + rest
    ensures ms[k] == i && ms[k + 1..] == rest
  {
    assert ms[k..][0] == ms[k] && ms[k..][1..] == ms[k + 1..];
  }

  lemma Rebracket(a: seq<Byte>, b: seq<Byte>, c: seq<Byte>, d: seq<Byte>, bcd: seq<Byte>, cd: seq<Byte>)
    requires bcd == b + c + d && cd == c + d
    ensures a + bcd == a + b + cd
  {
  }

  lemma MatchesStep(o: seq<Byte>, f: seq<Byte>, p: nat)
    requires f != [] && p <= |o|
    ensures var i := IndexFrom(o, f, p);
            Matches(o, f, p) == if i == BSTR_ERR then [] else [i] + Matches(o, f, i + |f|)
  {
  }

  /** The buffer while the pieces move right, last one first: from match number k on, acc bytes further right,
      it is final, and before match number k it is still the original. */
  ghost predicate Spreading(now: seq<Byte>, o: seq<Byte>, f: seq<Byte>, r: seq<Byte>, ms: seq<nat>, pos: nat,
                            k: nat, acc: nat, n: nat)
    requires Spaced(o, f, ms, pos) && k <= |ms|
  {
    && At(o, ms, k) + acc + |Final(o, f, r, ms, pos, k)| == n <= |now|
    && now[..At(o, ms, k)] == o[..At(o, ms, k)]
    && now[At(o, ms, k) + acc..n] == Final(o, f, r, ms, pos, k)
  }

  lemma MovedParts(s: seq<Byte>, t: seq<Byte>, d: nat, p: nat, e: nat, k: nat, n: nat)
    requires Moved(s, t, d, p, e) && k <= d && d + (e - p) <= n <= |s|
    ensures |t| == |s| && t[..k] == s[..k]
    ensures t[d..d + (e - p)] == s[p..e] && t[d + (e - p)..n] == s[d + (e - p)..n]
  {
    assert t[..d] == s[..d] && t[..d][..k] == t[..k] && s[..d][..k] == s[..k];
    assert t[d + (e - p)..] == s[d + (e - p)..];
    DropSlice(s, d + (e - p), 0, n - (d + (e - p)));
    DropSlice(t, d + (e - p), 0, n - (d + (e - p)));
  }

  lemma WrittenParts(s: seq<Byte>, t: seq<Byte>, at: nat, rs: seq<Byte>, k: nat, n: nat)
    requires Written(s, t, at, rs) && k <= at && at + |rs| <= n <= |s|
    ensures |t| == |s| && t[..k] == s[..k]
    ensures t[at..n] == rs + s[at + |rs|..n]
  {
    assert t[..at] == s[..at] && t[..at][..k] == t[..k] && s[..at][..k] == s[..k];
    assert t[at + |rs|..] == s[at + |rs|..];
    DropSlice(s, at + |rs|, 0, n - (at + |rs|));
    DropSlice(t, at + |rs|, 0, n - (at + |rs|));
    assert t[at..at + |rs|] == rs;
    SliceJoin(t, at, at + |rs|, n);
  }

  lemma SpreadStep(s0: seq<Byte>, s1: seq<Byte>, s2: seq<Byte>, o: seq<Byte>, f: seq<Byte>, r: seq<Byte>,
                   ms: seq<nat>, pos: nat, k: nat, acc: nat, n: nat)
    requires Spaced(o, f, ms, pos) && k < |ms| && |f| <= |r| && |r| - |f| <= acc
    requires Spreading(s0, o, f, r, ms, pos, k + 1, acc, n)
    requires var s := ms[k] + |f|;
             Moved(s0, s1, s + acc, s, At(o, ms, k + 1)) && Written(s1, s2, s + acc - |r|, r)
    ensures Spreading(s2, o, f, r, ms, pos, k, acc - (|r| - |f|), n)
  {
    hide Moved, Written, Spaced;
    SpreadBounds(s0, o, f, r, ms, pos, k, acc, n);
    SpreadSeq(s0, s1, s2, o, r, ms[k], ms[k] + |f|, At(o, ms, k + 1), acc, n, Final(o, f, r, ms, pos, k + 1));
  }

  /** The same between plain positions: o[s..e] goes right by acc, and r comes in front of it. */
  lemma SpreadSeq(s0: seq<Byte>, s1: seq<Byte>, s2: seq<Byte>, o: seq<Byte>, r: seq<Byte>, a: nat, s: nat, e: nat,
                  acc: nat, n: nat, tail: seq<Byte>)
    requires a <= s <= e <= |o| && a + |r| <= s + acc && e + acc + |tail| == n <= |s0|
    requires s0[..e] == o[..e] && s0[e + acc..n] == tail
    requires Moved(s0, s1, s + acc, s, e) && Written(s1, s2, s + acc - |r|, r)
    ensures |s2| == |s0| && s2[..a] == o[..a] && s2[s + acc - |r|..n] == r + o[s..e] + tail
  {
    hide Moved, Written;
    SliceSlice(s0, 0, e, 0, a);
    SliceSlice(o, 0, e, 0, a);
    SliceSlice(s0, 0, e, s, e);
    SliceSlice(o, 0, e, s, e);
    MovedParts(s0, s1, s + acc, s, e, a, n);
    SliceJoin(s1, s + acc, e + acc, n);
    WrittenParts(s1, s2, s + acc - |r|, r, a, n);
    ConcatAssoc(r, o[s..e], tail);
  }

  /** Append to an array of which mlen entries may be used, doubling it when only one is left. */
  method Push(d0: array<nat>, mlen0: nat, m: nat, pos: nat) returns (d: array<nat>, mlen: nat)
    requires m < mlen0 <= d0.Length && 2 <= mlen0
    modifies d0
    ensures (d == d0 || fresh(d)) && m + 1 < mlen <= d.Length
    ensures d[..m + 1] == old(d0[..m]) + [pos]
  {
    d, mlen := d0, mlen0;
    if m >= mlen - 1 {
      mlen := mlen + mlen;
      d := new nat[mlen];
      forall i | 0 <= i < m {
        d[i] := d0[i];
      }
    }
    d[m] := pos;
  }

  /** Collect the match positions, and the string's end behind them. */
  method CollectMatches(b: Bstring, f: Ref, start: nat) returns (d: array<nat>, m: nat)
    requires b.Valid() && f.Valid() && 0 < f.len && start <= b.slen
    ensures fresh(d) && m < d.Length
    ensures d[..m] == Matches(b.Contents(), f.Contents(), start) && d[m] == b.slen
  {
    hide Matches, IndexFrom, OccursAt, Spaced, Collected;
    ghost var o, fs := b.Contents(), f.Contents();
    CollectedNone(o, fs, start);
    var mlen := 32;
    d := new nat[33];
    m := 0;
    var pos := Binstr(b, start, f);
    ghost var from := start;
    assert d[..m] == [];
    while pos >= 0
      invariant fresh(d) && m < mlen <= d.Length && 2 <= mlen
      invariant from <= |o| && pos == IndexFrom(o, fs, from)
      invariant Collected(d[..m], o, fs, from, start)
      decreases |o| - from
    {
      CollectedMore(d[..m], o, fs, from, start);
      d, mlen := Push(d, mlen, m, pos);
      m := m + 1;
      pos := pos + f.len;
      from := pos;
      pos := Binstr(b, pos, f);
    }
    CollectedMore(d[..m], o, fs, from, start);
    d[m] := b.slen;
  }

  /** The matches in front of from are done. */
  predicate Collected(done: seq<nat>, o: seq<Byte>, f: seq<Byte>, from: nat, start: nat)
    requires f != [] && from <= |o| && start <= |o|
  {
    done + Matches(o, f, from) == Matches(o, f, start)
  }

  lemma CollectedNone(o: seq<Byte>, f: seq<Byte>, start: nat)
    requires f != [] && start <= |o|
    ensures Collected([], o, f, start, start)
  {
    assert [] + Matches(o, f, start) == Matches(o, f, start);
  }

  lemma CollectedMore(done: seq<nat>, o: seq<Byte>, f: seq<Byte>, from: nat, start: nat)
    requires f != [] && from <= |o| && start <= |o| && Collected(done, o, f, from, start)
    ensures var i := IndexFrom(o, f, from);
      if i == BSTR_ERR then done == Matches(o, f, start)
      else from <= i && i + |f| <= |o| && Collected(done + [i], o, f, i + |f|, start)
  {
    hide Matches, IndexFrom, OccursAt, Spaced;
    var i := IndexFrom(o, f, from);
    FoundInside(o, f, from, i);
    MatchesStep(o, f, from);
    if i == BSTR_ERR {
      assert done + [] == done;
    } else {
      ConcatAssoc(done, [i], Matches(o, f, i + |f|));
    }
  }

  /** The branch for a longer replacement reads the replacement from a block that has been given back: the replacement
      is the part of b's own string that starts at alias, it was not copied because it ends in front of the start
      position, and the buffer moves before the first of the matches is rewritten. */
  predicate ReadsFreed(o: seq<Byte>, f: seq<Byte>, n: nat, start: nat, alias: Option<nat>, mlen: nat)
    requires f != [] && start <= |o|
  {
    && alias.Some? && |f| < n && alias.value + n <= start
    && IndexFrom(o, f, start) != BSTR_ERR
    && Capacity(mlen, Grown(o, f, n, start) + 1) > mlen
  }

  /** The length of the result when each match is replaced by n bytes. */
  function Grown(o: seq<Byte>, f: seq<Byte>, n: nat, start: nat): nat
    requires f != [] && start <= |o| && |f| <= n
  {
    Arith.MulNonNegative(|Matches(o, f, start)|, n - |f|);
    |o| + |Matches(o, f, start)| * (n - |f|)
  }

  lemma {:induction false} ReplacedLength(o: seq<Byte>, f: seq<Byte>, r: seq<Byte>, p: nat)
    requires f != [] && p <= |o|
    ensures |ReplaceIn(o[p..], f, r)| == |o| - p + |Matches(o, f, p)| * (|r| - |f|)
    decreases |o| - p
  {
    hide ReplaceIn, IndexFrom, OccursAt, Matches, Spaced;
    ReplaceStep(o, f, r, p);
    MatchesStep(o, f, p);
    var i := IndexFrom(o, f, p);
    if i != BSTR_ERR {
      FoundInside(o, f, p, i);
      ReplacedLength(o, f, r, i + |f|);
      Arith.MulDist(|r| - |f|, 1, |Matches(o, f, i + |f|)|);
    }
  }

  /** That is so exactly when a longer replacement is a part of the string and ends in front of the start position,
      there is a match, and the result with its terminator is at least as long as the capacity; from 2^30 bytes on,
      longer. */
  lemma ReadsFreedMeans(o: seq<Byte>, f: seq<Byte>, r: seq<Byte>, start: nat, alias: Option<nat>, mlen: nat)
    requires f != [] && start <= |o| && |ReplaceAll(o, f, r, start)| + 1 < 0x8000_0000
    ensures var size := |ReplaceAll(o, f, r, start)| + 1;
      ReadsFreed(o, f, |r|, start, alias, mlen) <==>
        && alias.Some? && |f| < |r| && alias.value + |r| <= start
        && (exists i :: start <= i && OccursAt(o, f, i))
        && if size < 0x4000_0000 then mlen <= size else mlen < size
  {
    hide ReplaceIn, OccursAt, Matches, Capacity, Spaced;
    ReplacedLength(o, f, r, start);
    CapacityMoves(mlen, |ReplaceAll(o, f, r, start)| + 1);
  }

  /** With a match, other replacement bytes make another result. */
  lemma ResultShowsReplacement(o: seq<Byte>, f: seq<Byte>, r: seq<Byte>, r': seq<Byte>, start: nat)
    requires f != [] && start <= |o| && |r| == |r'| && IndexFrom(o, f, start) != BSTR_ERR
    ensures ReplaceAll(o, f, r, start) == ReplaceAll(o, f, r', start) <==> r == r'
  {
    hide IndexFrom, OccursAt, ReplaceIn;
    var i := IndexFrom(o, f, start);
    FoundInside(o, f, start, i);
    ReplaceStep(o, f, r, start);
    ReplaceStep(o, f, r', start);
    PieceAt(o[..start], o[start..i], r, ReplaceIn(o[i + |f|..], f, r));
    PieceAt(o[..start], o[start..i], r', ReplaceIn(o[i + |f|..], f, r'));
  }

  lemma PieceAt(a: seq<Byte>, b: seq<Byte>, r: seq<Byte>, c: seq<Byte>)
    ensures (a + (b + r + c))[|a| + |b|..][..|r|] == r
  {
  }

  /** Without one, the replacement does not matter. */
  lemma NoMatchNoChange(o: seq<Byte>, f: seq<Byte>, r: seq<Byte>, start: nat)
    requires f != [] && start <= |o| && IndexFrom(o, f, start) == BSTR_ERR
    ensures ReplaceAll(o, f, r, start) == o && Matches(o, f, start) == []
  {
    hide IndexFrom, OccursAt, ReplaceIn, Spaced;
    ReplaceStep(o, f, r, start);
    TakeDrop(o, start);
  }

  /** What the engine leaves in b when the block that b's buffer has left holds junk where the replacement was. */
  function Outcome(o: seq<Byte>, f: seq<Byte>, r: seq<Byte>, start: nat, alias: Option<nat>, mlen: nat,
                   junk: seq<Byte>): seq<Byte>
    requires f != [] && start <= |o|
  {
    ReplaceAll(o, f, if ReadsFreed(o, f, |r|, start, alias, mlen) then junk else r, start)
  }

  /** All matches are replaced whatever that block holds, if and only if it is not read. */
  lemma RightUnlessFreed(o: seq<Byte>, f: seq<Byte>, r: seq<Byte>, start: nat, alias: Option<nat>, mlen: nat)
    requires f != [] && start <= |o|
    ensures (forall junk: seq<Byte> | |junk| == |r| ::
               Outcome(o, f, r, start, alias, mlen, junk) == ReplaceAll(o, f, r, start))
            <==> !ReadsFreed(o, f, |r|, start, alias, mlen)
  {
    hide IndexFrom, OccursAt, ReplaceAll, Matches, Capacity;
    if ReadsFreed(o, f, |r|, start, alias, mlen) {
      var c: int := r[0];
      var junk := r[0 := (c + 1) % 256];
      assert junk[0] != r[0];
      ResultShowsReplacement(o, f, r, junk, start);
      assert Outcome(o, f, r, start, alias, mlen, junk) != ReplaceAll(o, f, r, start);
    }
  }

  /** "xyaaaa" in a buffer of 8 bytes, "a" replaced from position 2 on by the "xy" at the front of that buffer. */
  lemma FreedExample()
    ensures ReadsFreed([120, 121, 97, 97, 97, 97], [97], 2, 2, Some(0), 8)
  {
    var o: seq<Byte> := [120, 121, 97, 97, 97, 97];
    hide IndexFrom, OccursAt, Capacity;
    MatchHere(o, [97], 2);
    MatchHere(o, [97], 3);
    MatchHere(o, [97], 4);
    MatchHere(o, [97], 5);
    assert |Matches(o, [97], 2)| >= 4;
    assert Capacity(8, Grown(o, [97], 2, 2) + 1) >= Grown(o, [97], 2, 2) + 1;
  }

  lemma MatchHere(o: seq<Byte>, f: seq<Byte>, k: nat)
    requires k < |o| && f == [o[k]]
    ensures IndexFrom(o, f, k) == k
    ensures |Matches(o, f, k)| == 1 + |Matches(o, f, k + 1)|
  {
    assert OccursAt(o, f, k);
  }

  /** Where x starts in b's buffer, if it lies there. */
  ghost function AliasOf(b: Bstring, x: Ref): Option<nat>
    reads b
  {
    if x.data == b.data then Some(x.ofs) else None
  }

  /** The branch for a longer replacement: find all matches, make room once, then move the pieces right. */
  method ReplaceExpanding(b: Bstring, f: Ref, r: Ref, start: nat)
    requires b.Valid() && Apart(b, f, start) && Apart(b, r, start)
    requires 0 < f.len < r.len && start <= b.slen
    modifies b, b.data
    ensures b.Valid() && (b.data == old(b.data) || fresh(b.data))
    ensures var freed := old(ReadsFreed(b.Contents(), f.Contents(), r.len, start, AliasOf(b, r), b.data.Length));
      b.Contents() == ReplaceAll(old(b.Contents()), old(f.Contents()),
                                 if freed then r.Contents() else old(r.Contents()), start)
  {
    hide ReplaceAll, Matches, IndexFrom, OccursAt, Spaced, Capacity, ReadsFreed, Grown;
    ghost var o, fs, rs0, mlen := b.Contents(), f.Contents(), r.Contents(), b.data.Length;
    var d, m := CollectMatches(b, f, start);
    ghost var ms := Matches(o, fs, start);
    var acc := m * (r.len - f.len);                          // each match adds -delta
    var flen := f.len;
    assert acc >= 0 by { Arith.MulNonNegative(m, r.len - f.len); }
    FreedIfMoved(o, fs, r.len, start, AliasOf(b, r), mlen, acc);
    MakeRoom(b, acc, r, start);
    ghost var rs := r.Contents();
    Spread(b, d, m, flen, r, start, acc, o, fs);
    if IndexFrom(o, fs, start) == BSTR_ERR {
      NoMatchNoChange(o, fs, rs, start);
      NoMatchNoChange(o, fs, rs0, start);
    }
  }

  lemma FreedIfMoved(o: seq<Byte>, f: seq<Byte>, n: nat, start: nat, alias: Option<nat>, mlen: nat, acc: nat)
    requires f != [] && start <= |o| && |f| < n && acc == |Matches(o, f, start)| * (n - |f|)
    ensures ReadsFreed(o, f, n, start, alias, mlen)
            <==> && alias.Some? && alias.value + n <= start && IndexFrom(o, f, start) != BSTR_ERR
                 && Capacity(mlen, |o| + acc + 1) > mlen
  {
  }

  /** With room enough: the pieces move, and the string gets its new length. */
  method Spread(b: Bstring, d: array<nat>, m: nat, flen: nat, r: Ref, start: nat, acc: nat,
                ghost o: seq<Byte>, ghost fs: seq<Byte>)
    requires b.Valid() && Apart(b, r, start) && 0 < flen == |fs| < r.len && start <= |o|
    requires b.Contents() == o && |o| + acc < b.data.Length && acc == m * (r.len - flen)
    requires m == |Matches(o, fs, start)| < d.Length && d[..m] == Matches(o, fs, start) && d[m] == |o|
    modifies b`slen, b.data
    ensures b.Valid() && b.Contents() == ReplaceAll(o, fs, old(r.Contents()), start)
  {
    hide ReplaceAll, Matches, Spreading, Apart, Ref.Contents;
    ghost var ms, n, rs := Matches(o, fs, start), |o| + acc, r.Contents();
    SpreadStart(b.data[..], o, fs, rs, ms, start, acc, n);
    MovePieces(b, d, m, flen, r, start, acc, o, fs, ms, n);
    b.slen := b.slen + acc;
    SpreadEnd(b.data[..], o, fs, rs, ms, start, n);
    b.data[b.slen] := 0;
  }

  method MakeRoom(b: Bstring, acc: nat, r: Ref, start: nat)
    requires b.Valid() && Apart(b, r, start)
    modifies b`data, b`copied, b.data
    ensures b.Valid() && b.Contents() == old(b.Contents()) && b.slen + acc < b.data.Length
    ensures b.data == old(b.data) || fresh(b.data)
    ensures b.data.Length == Capacity(old(b.data.Length), b.slen + acc + 1)
    ensures Apart(b, r, start)
    ensures b.data.Length == old(b.data.Length) || r.data != old(b.data) ==> r.Contents() == old(r.Contents())
  {
    b.Balloc(b.slen + acc + 1);
  }

  lemma SpreadStart(now: seq<Byte>, o: seq<Byte>, f: seq<Byte>, r: seq<Byte>, ms: seq<nat>, pos: nat, acc: nat, n: nat)
    requires Spaced(o, f, ms, pos) && n == |o| + acc && n <= |now| && now[..|o|] == o
    ensures Spreading(now, o, f, r, ms, pos, |ms|, acc, n)
  {
  }

  lemma SpreadEnd(now: seq<Byte>, o: seq<Byte>, f: seq<Byte>, r: seq<Byte>, ms: seq<nat>, pos: nat, n: nat)
    requires f != [] && pos <= |o| && ms == Matches(o, f, pos)
    requires Spreading(now, o, f, r, ms, pos, 0, 0, n)
    ensures n <= |now| && now[..n] == ReplaceAll(o, f, r, pos)
  {
    assert ms[0..] == ms;
    FinalReplaces(o, f, r, pos, ms, 0, pos);
    var k, tail := At(o, ms, 0), Final(o, f, r, ms, pos, 0);
    hide Matches, ReplaceIn, Final, At, Spaced;
    SliceJoin(now, 0, k, n);
    SliceJoin(o, 0, pos, k);
    ConcatAssoc(o[..pos], o[pos..k], tail);
  }

  method MovePieces(b: Bstring, d: array<nat>, m: nat, flen: nat, r: Ref, start: nat, acc0: nat,
                    ghost o: seq<Byte>, ghost fs: seq<Byte>, ghost ms: seq<nat>, ghost n: nat)
    requires b.Valid() && Apart(b, r, start) && 0 < flen == |fs| < r.len
    requires Spaced(o, fs, ms, start) && m == |ms| < d.Length && d[..m] == ms && d[m] == |o|
    requires acc0 == m * (r.len - flen)
    requires Spreading(b.data[..], o, fs, r.Contents(), ms, start, m, acc0, n)
    modifies b.data
    ensures Spreading(b.data[..], o, fs, old(r.Contents()), ms, start, 0, 0, n)
  {
    hide Spreading, Moved, Written, Kept, Spaced, At, Apart, Ref.Contents;
    ghost var rs := r.Contents();
    var acc := acc0;
    var i := m - 1;
    while i >= 0
      invariant -1 <= i < m && acc == (i + 1) * (r.len - flen)
      invariant Apart(b, r, start) && r.Contents() == rs
      invariant Spreading(b.data[..], o, fs, rs, ms, start, i + 1, acc, n)
    {
      ghost var s0 := b.data[..];
      SpreadBounds(s0, o, fs, rs, ms, start, i, acc, n);
      Arith.MulDist(r.len - flen, i, 1);
      Arith.MulNonNegative(i, r.len - flen);
      Entries(d[..], m, ms, o, i);
      var s := d[i] + flen;
      var l := d[i + 1] - s;
      ghost var s1 := SpreadMatch(b, s, l, acc, r, start);
      SpreadStep(s0, s1, b.data[..], o, fs, rs, ms, start, i, acc, n);
      acc := acc - (r.len - flen);
      i := i - 1;
    }
  }

  lemma Entries(d: seq<nat>, m: nat, ms: seq<nat>, o: seq<Byte>, i: nat)
    requires i < m == |ms| < |d| && d[..m] == ms && d[m] == |o|
    ensures d[i] == ms[i] && d[i + 1] == At(o, ms, i + 1)
  {
    assert d[..m][i] == d[i] && (i + 1 < m ==> d[..m][i + 1] == d[i + 1]);
  }

  /** One match of the expanding branch: move the piece behind it right by acc, then write the replacement. */
  method SpreadMatch(b: Bstring, s: nat, l: nat, acc: nat, r: Ref, start: nat) returns (ghost s1: seq<Byte>)
    requires b.Valid() && Apart(b, r, start) && start + r.len <= s + acc && s + l + acc <= b.data.Length
    modifies b.data
    ensures Apart(b, r, start) && r.Contents() == old(r.Contents())
    ensures Moved(old(b.data[..]), s1, s + acc, s, s + l)
    ensures Written(s1, b.data[..], s + acc - r.len, r.Contents())
  {
    hide Moved, Written, Kept;
    ghost var rs := r.Contents();
    MoveRightApart(b, s, l, acc, r, start);
    s1 := b.data[..];
    WriteApart(b, s + acc - r.len, r, start);
  }

  method MoveRightApart(b: Bstring, s: nat, l: nat, acc: nat, r: Ref, start: nat)
    requires b.Valid() && Apart(b, r, start) && start <= s + acc && s + l + acc <= b.data.Length
    modifies b.data
    ensures Apart(b, r, start) && r.Contents() == old(r.Contents())
    ensures Moved(old(b.data[..]), b.data[..], s + acc, s, s + l)
  {
    hide Moved, Kept, Apart, Seen, Ref.Contents;
    ghost var s0, rs := b.data[..], r.Contents();
    SeenNow(b, r, start);
    MoveRight(b.data, s, l, acc);
    MovedKeeps(s0, b.data[..], s + acc, s, s + l, start);
    StillApart(b, r, start, s0, rs);
  }

  method WriteApart(b: Bstring, at: nat, r: Ref, start: nat)
    requires b.Valid() && Apart(b, r, start) && start <= at && at + r.len <= b.data.Length
    modifies b.data
    ensures Apart(b, r, start) && r.Contents() == old(r.Contents())
    ensures Written(old(b.data[..]), b.data[..], at, r.Contents())
  {
    hide Written, Kept, Apart, Seen, Ref.Contents;
    ghost var s0, rs := b.data[..], r.Contents();
    SeenNow(b, r, start);
    WritePiece(b.data, at, r.Contents());
    WrittenKeeps(s0, b.data[..], at, rs, start);
    StillApart(b, r, start, s0, rs);
  }

  method MoveRight(data: array<Byte>, s: nat, l: nat, acc: nat)
    requires s + l + acc <= data.Length
    modifies data
    ensures Moved(old(data[..]), data[..], s + acc, s, s + l)
  {
    if l != 0 {
      MemMove(data, s + acc, s, l);
    } else {
      NoMove(data[..], s + acc, s, s);
    }
  }

  lemma SpreadBounds(now: seq<Byte>, o: seq<Byte>, f: seq<Byte>, r: seq<Byte>, ms: seq<nat>, pos: nat, k: nat,
                     acc: nat, n: nat)
    requires Spaced(o, f, ms, pos) && k < |ms| && Spreading(now, o, f, r, ms, pos, k + 1, acc, n)
    ensures pos <= ms[k] && ms[k] + |f| <= At(o, ms, k + 1) <= |o| && At(o, ms, k + 1) + acc <= n <= |now|
  {
    SpacedFrom(o, f, ms, pos, k);
  }

  lemma {:induction false} SpacedFrom(o: seq<Byte>, f: seq<Byte>, ms: seq<nat>, pos: nat, k: nat)
    requires Spaced(o, f, ms, pos) && k < |ms|
    ensures pos <= ms[k]
  {
    if k > 0 {
      SpacedFrom(o, f, ms, pos, k - 1);
      assert ms[k - 1] + |f| <= ms[k - 1 + 1];
    }
  }

  // ---------------------------------------------------------------------------------------------------
  // The engine and its use for escaping
  // ---------------------------------------------------------------------------------------------------

  /** The engine is going to read the replacement from b's old buffer after that has been given back. */
  ghost predicate Freed(b: Bstring, find: Ref, repl: Ref, start: int)
    reads b, b.data, find.data
    requires b.Valid() && find.Valid()
  {
    && 0 < find.len && 0 <= start <= b.slen
    && ReadsFreed(b.Contents(), find.Contents(), repl.len, start, AliasOf(b, repl), b.data.Length)
  }

  /** A string that shares b's buffer is a part of b's string. */
  ghost predicate Inside(b: Bstring, x: Ref)
    reads b
  {
    x.Valid() && (x.data == b.data ==> x.ofs + x.len <= b.slen)
  }

  /** `findreplaceengine` with `binstr`.  The other strings may be b itself or any part of it.  The result is right
      unless the replacement is read from a block that has been given back; then it is made of what that block holds in
      the end. */
  method FindReplaceEngine(b: Bstring, find: Ref, repl: Ref, start: int) returns (ret: int)
    requires b.Valid() && Inside(b, find) && Inside(b, repl)
    modifies b, b.data
    ensures b.Valid() && (b.data == old(b.data) || fresh(b.data))
    ensures ret == if start < 0 || find.len == 0 then BSTR_ERR else BSTR_OK
    ensures b.Contents() == if ret == BSTR_OK && start <= old(b.slen)
                            then ReplaceAll(old(b.Contents()), old(find.Contents()),
                                            if old(Freed(b, find, repl, start))
                                            then repl.Contents() else old(repl.Contents()), start)
                            else old(b.Contents())
  {
    hide ReplaceAll, ReadsFreed, Ref.Contents, Bstring.Terminated;
    if start < 0 || find.len <= 0 {
      return BSTR_ERR;
    }
    if start > b.slen - find.len {
      NothingFits(b.Contents(), find.Contents(), repl.Contents(), start);
      return BSTR_OK;
    }
    var auxf, auxr := find, repl;
    if find.data == b.data && start - find.len < find.ofs < b.slen {         // an alias that may be overwritten
      auxf := Copy(find);
    }
    if repl.data == b.data && start - repl.len < repl.ofs < b.slen {
      auxr := Copy(repl);
    }
    assert Apart(b, auxf, start) && Apart(b, auxr, start);
    NotFreed(b.Contents(), find.Contents(), repl.len, start, AliasOf(b, repl), b.data.Length);
    NotFreed(b.Contents(), find.Contents(), repl.len, start, AliasOf(b, auxr), b.data.Length);
    if auxf.len == auxr.len {
      ReplaceEqual(b, auxf, auxr, start);
    } else if auxf.len > auxr.len {
      ReplaceShrinking(b, auxf, auxr, start);
    } else {
      ReplaceExpanding(b, auxf, auxr, start);
    }
    return BSTR_OK;
  }

  lemma NotFreed(o: seq<Byte>, f: seq<Byte>, n: nat, start: nat, alias: Option<nat>, mlen: nat)
    requires f != [] && start <= |o|
    ensures alias.None? || n <= |f| || start < alias.value + n ==> !ReadsFreed(o, f, n, start, alias, mlen)
  {
  }

  /** `bstrcpy`. */
  method Copy(x: Ref) returns (y: Ref)
    requires x.Valid()
    ensures y.Valid() && fresh(y.data) && y.Contents() == x.Contents() && y.len == x.len
  {
    var c := new Bstring.FromBlock(x.Contents());
    y := c.AsRef();
  }

  lemma NothingFits(s: seq<Byte>, f: seq<Byte>, r: seq<Byte>, pos: nat)
    requires f != [] && |s| - |f| < pos
    ensures pos <= |s| ==> ReplaceAll(s, f, r, pos) == s
  {
  }

  /** Every byte c replaced by r. */
  function Substitute(s: seq<Byte>, c: Byte, r: seq<Byte>): seq<Byte> {
    if s == [] then [] else (if s[0] == c then r else [s[0]]) + Substitute(s[1..], c, r)
  }

  lemma {:induction false} SubstituteConcat(a: seq<Byte>, b: seq<Byte>, c: Byte, r: seq<Byte>)
    ensures Substitute(a + b, c, r) == Substitute(a, c, r) + Substitute(b, c, r)
  {
    if a == [] {
      assert a + b == b;
    } else {
      SubstituteConcat(a[1..], b, c, r);
      ConcatTail(a, b);
      ConcatAssoc(if a[0] == c then r else [a[0]], Substitute(a[1..], c, r), Substitute(b, c, r));
    }
  }

  lemma {:induction false} SubstituteNothing(s: seq<Byte>, c: Byte, r: seq<Byte>)
    requires c !in s
    ensures Substitute(s, c, r) == s
  {
    if s != [] {
      SubstituteNothing(s[1..], c, r);
    }
  }

  lemma OccursByte(s: seq<Byte>, c: Byte, k: int)
    ensures OccursAt(s, [c], k) <==> 0 <= k < |s| && s[k] == c
  {
    if 0 <= k < |s| {
      assert s[k..k + 1] == [s[k]];
    }
  }

  /** The first match of a one-byte string is the first such byte. */
  lemma FirstByte(s: seq<Byte>, c: Byte)
    ensures var i := IndexFrom(s, [c], 0);
            if i == BSTR_ERR then c !in s else i < |s| && s[i] == c && c !in s[..i]
  {
    hide OccursAt;
    var i := IndexFrom(s, [c], 0);
    forall k | 0 <= k < |s| && s[k] == c
      ensures i != BSTR_ERR && i <= k
    {
      OccursByte(s, c, k);
    }
    OccursByte(s, c, i);
  }

  /** Replacing all matches of a one-byte string replaces each of those bytes. */
  lemma {:induction false} ReplaceOneByte(s: seq<Byte>, c: Byte, r: seq<Byte>)
    ensures ReplaceIn(s, [c], r) == Substitute(s, c, r)
    decreases |s|
  {
    hide OccursAt, IndexFrom, Substitute;
    var i := IndexFrom(s, [c], 0);
    FirstByte(s, c);
    if i == BSTR_ERR {
      SubstituteNothing(s, c, r);
    } else {
      ReplaceOneByte(s[i + 1..], c, r);
      SubstituteNothing(s[..i], c, r);
      SubstituteByte(c, c, r);
      SubstituteConcat(s[..i], [c], c, r);
      SubstituteConcat(s[..i] + [c], s[i + 1..], c, r);
      assert s == s[..i] + [c] + s[i + 1..];
    }
  }

  const AMP: seq<Byte> := [38, 97, 109, 112, 59]               // &amp;
  const QUOT: seq<Byte> := [38, 113, 117, 111, 116, 59]        // &quot;
  const LT: seq<Byte> := [38, 108, 116, 59]                    // &lt;
  const GT: seq<Byte> := [38, 103, 116, 59]                    // &gt;

  /** What each character becomes in text that can be quoted in SGML. */
  function Escape(c: Byte): seq<Byte> {
    if c == 38 then AMP else if c == 34 then QUOT else if c == 60 then LT else if c == 62 then GT else [c]
  }

  function EscapeAll(s: seq<Byte>): seq<Byte> {
    if s == [] then [] else Escape(s[0]) + EscapeAll(s[1..])
  }

  function FourPasses(s: seq<Byte>): seq<Byte> {
    Substitute(Substitute(Substitute(Substitute(s, 38, AMP), 34, QUOT), 60, LT), 62, GT)
  }

  lemma FourPassesConcat(a: seq<Byte>, b: seq<Byte>)
    ensures FourPasses(a + b) == FourPasses(a) + FourPasses(b)
  {
    SubstituteConcat(a, b, 38, AMP);
    var a1, b1 := Substitute(a, 38, AMP), Substitute(b, 38, AMP);
    SubstituteConcat(a1, b1, 34, QUOT);
    var a2, b2 := Substitute(a1, 34, QUOT), Substitute(b1, 34, QUOT);
    SubstituteConcat(a2, b2, 60, LT);
    SubstituteConcat(Substitute(a2, 60, LT), Substitute(b2, 60, LT), 62, GT);
  }

  lemma SubstituteByte(x: Byte, c: Byte, r: seq<Byte>)
    ensures Substitute([x], c, r) == if x == c then r else [x]
  {
  }

  /** On one character the passes after the first leave each inserted entity alone. */
  lemma FourPassesByte(c: Byte)
    ensures FourPasses([c]) == Escape(c)
  {
    hide Substitute;
    SubstituteByte(c, 38, AMP);
    if c == 38 {
      SubstituteNothing(AMP, 34, QUOT);
      SubstituteNothing(AMP, 60, LT);
      SubstituteNothing(AMP, 62, GT);
    } else {
      SubstituteByte(c, 34, QUOT);
      SubstituteNothing(QUOT, 60, LT);
      SubstituteNothing(QUOT, 62, GT);
      SubstituteByte(c, 60, LT);
      SubstituteNothing(LT, 62, GT);
      SubstituteByte(c, 62, GT);
    }
  }

  /** Four successive replace-all passes amount to one map over the characters. */
  lemma {:induction false} PassesEscape(s: seq<Byte>)
    ensures FourPasses(s) == EscapeAll(s)
  {
    if s != [] {
      PassesEscape(s[1..]);
      FourPassesByte(s[0]);
      hide FourPasses;
      FourPassesConcat([s[0]], s[1..]);
      assert s == [s[0]] + s[1..];
    }
  }

  predicate EntityAt(t: seq<Byte>, i: nat)
    requires i <= |t|
  {
    AMP <= t[i..] || QUOT <= t[i..] || LT <= t[i..] || GT <= t[i..]
  }

  lemma EntityInTail(e: seq<Byte>, t: seq<Byte>, i: nat)
    requires i <= |t|
    ensures EntityAt(e + t, |e| + i) == EntityAt(t, i)
  {
    assert (e + t)[|e| + i..] == t[i..];
  }

  lemma EntityInHead(c: Byte, t: seq<Byte>, i: nat)
    requires i < |Escape(c)| && Escape(c)[i] == 38
    ensures EntityAt(Escape(c) + t, i)
  {
    assert (Escape(c) + t)[i..] == Escape(c) + t;
  }

  lemma EscapeClean(c: Byte)
    ensures 34 !in Escape(c) && 60 !in Escape(c) && 62 !in Escape(c)
  {
  }

  /** No character that needs escaping is left bare: '&' only starts the four entities. */
  lemma {:induction false} EscapedIsQuotable(s: seq<Byte>)
    ensures 34 !in EscapeAll(s) && 60 !in EscapeAll(s) && 62 !in EscapeAll(s)
    ensures forall i | 0 <= i < |EscapeAll(s)| && EscapeAll(s)[i] == 38 :: EntityAt(EscapeAll(s), i)
  {
    hide EntityAt, Escape;
    if s != [] {
      EscapedIsQuotable(s[1..]);
      EscapeClean(s[0]);
      var e, t := Escape(s[0]), EscapeAll(s[1..]);
      forall i | 0 <= i < |e + t| && (e + t)[i] == 38
        ensures EntityAt(e + t, i)
      {
        if i >= |e| {
          EntityInTail(e, t, i - |e|);
        } else {
          EntityInHead(s[0], t, i);
        }
      }
    }
  }

  /** Reading quoted text: each of &amp; &quot; &lt; &gt; stands for one character. */
  function Unescape(t: seq<Byte>): seq<Byte> {
    if t == [] then []
    else if [38, 97, 109, 112, 59] <= t then [38] + Unescape(t[5..])
    else if [38, 113, 117, 111, 116, 59] <= t then [34] + Unescape(t[6..])
    else if [38, 108, 116, 59] <= t then [60] + Unescape(t[4..])
    else if [38, 103, 116, 59] <= t then [62] + Unescape(t[4..])
    else [t[0]] + Unescape(t[1..])
  }

  lemma UnescapeHead(c: Byte, t: seq<Byte>)
    ensures Unescape(Escape(c) + t) == [c] + Unescape(t)
  {
    var e := Escape(c);
    var u := e + t;
    assert u[|e|..] == t && u[..|e|] == e && u[0] == e[0] && (|e| > 1 ==> u[1] == e[1]);
    if c == 38 {
      assert [38, 97, 109, 112, 59] <= u;
    } else if c == 34 {
      assert [38, 113, 117, 111, 116, 59] <= u;
    } else if c == 60 {
      assert [38, 108, 116, 59] <= u;
    } else if c == 62 {
      assert [38, 103, 116, 59] <= u;
    }
  }

  /** Nothing is lost by escaping: reading the escaped text gives every text back. */
  lemma {:induction false} UnescapeInvertsEscape(s: seq<Byte>)
    ensures Unescape(EscapeAll(s)) == s
  {
    if s != [] {
      UnescapeInvertsEscape(s[1..]);
      hide Unescape, Escape;
      UnescapeHead(s[0], EscapeAll(s[1..]));
    }
  }

  /** Text that can be quoted: no bare character that needs escaping. */
  predicate Quotable(t: seq<Byte>) {
    && 34 !in t && 60 !in t && 62 !in t
    && forall i | 0 <= i < |t| && t[i] == 38 :: EntityAt(t, i)
  }

  /** Cutting the first entity or character off. */
  lemma QuotableHead(t: seq<Byte>) returns (c: Byte)
    requires t != [] && Quotable(t)
    ensures Escape(c) <= t && Quotable(t[|Escape(c)|..])
  {
    assert t[0..] == t;
    c := if t[0] != 38 then t[0] else if AMP <= t then 38 else if QUOT <= t then 34 else if LT <= t then 60 else 62;
    assert Escape(c) <= t by {
      assert t[0] == 38 ==> EntityAt(t, 0);
    }
    var n := |Escape(c)|;
    forall i | 0 <= i < |t[n..]| && t[n..][i] == 38
      ensures EntityAt(t[n..], i)
    {
      assert EntityAt(t, n + i) && t[n + i..] == t[n..][i..];
    }
  }

  /** And escaping gives every text that can be quoted. */
  lemma {:induction false} EscapeInvertsUnescape(t: seq<Byte>)
    requires Quotable(t)
    ensures EscapeAll(Unescape(t)) == t
    decreases |t|
  {
    if t != [] {
      var c := QuotableHead(t);
      var rest := t[|Escape(c)|..];
      EscapeInvertsUnescape(rest);
      UnescapeHead(c, rest);
      assert t == Escape(c) + rest;
      assert ([c] + Unescape(rest))[1..] == Unescape(rest);
    }
  }

  /** `bSGMLEncode`. */
  method SgmlEncode(b: Bstring) returns (ret: int)
    requires b.Valid()
    modifies b, b.data
    ensures ret == 0 && b.Valid() && b.Contents() == EscapeAll(old(b.Contents()))
  {
    hide ReplaceAll, Substitute, EscapeAll;
    ghost var s := b.Contents();
    ReplaceByte(b, 38, AMP);
    ReplaceByte(b, 34, QUOT);
    ReplaceByte(b, 60, LT);
    ReplaceByte(b, 62, GT);
    PassesEscape(s);
    return 0;
  }

  /** One pass over the table of `bSGMLEncode`. */
  method ReplaceByte(b: Bstring, c: Byte, r: seq<Byte>)
    requires b.Valid()
    modifies b, b.data
    ensures b.Valid() && b.Contents() == Substitute(old(b.Contents()), c, r)
    ensures b.data == old(b.data) || fresh(b.data)
  {
    var find := new Bstring.FromBlock([c]);
    var repl := new Bstring.FromBlock(r);
    ReplaceOneByte(b.Contents(), c, r);
    assert b.Contents()[0..] == b.Contents();
    var ret := FindReplaceEngine(b, find.AsRef(), repl.AsRef(), 0);
  }
}
