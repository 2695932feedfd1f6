/** The substring search `binstr` (deps/bstrlib/bstrlib.c:1088-1173): it looks for the earliest subsequence, two
    characters at a time, and then checks whether that subsequence happens to be contiguous. */
module SubstringSearch {
  import opened Bstrings

  predicate OccursAt(s: seq<Byte>, p: seq<Byte>, i: int) {
    0 <= i && i + |p| <= |s| && s[i..i + |p|] == p
  }

  /** The least position from pos on at which p occurs in s, or BSTR_ERR. */
  function IndexFrom(s: seq<Byte>, p: seq<Byte>, pos: nat): (r: int)
    requires pos <= |s|
    ensures r == BSTR_ERR || pos <= r <= |s|
    ensures r != BSTR_ERR ==> OccursAt(s, p, r)
    ensures forall i | pos <= i && OccursAt(s, p, i) :: r != BSTR_ERR && r <= i
    decreases |s| - pos
  {
    if OccursAt(s, p, pos) then pos
    else if pos == |s| then BSTR_ERR
    else IndexFrom(s, p, pos + 1)
  }

  /** The least position is determined by what it means. */
  lemma IndexFromUnique(s: seq<Byte>, p: seq<Byte>, pos: nat, r: int)
    requires pos <= |s|
    requires r == BSTR_ERR || (pos <= r && OccursAt(s, p, r))
    requires forall i | pos <= i && OccursAt(s, p, i) :: r != BSTR_ERR && r <= i
    ensures r == IndexFrom(s, p, pos)
  {
  }

  /** An occurrence fixes every character it covers. */
  lemma OccurrenceAt(s: seq<Byte>, p: seq<Byte>, q: int, j: nat)
    requires OccursAt(s, p, q) && j < |p|
    ensures s[q + j] == p[j]
  {
    assert s[q..q + |p|][j] == p[j];
  }

  /** What the search knows at position i with the first j characters of p found from ii on, in order but perhaps
      with gaps: every occurrence still has its character number j at i or later. */
  ghost predicate Searching(s: seq<Byte>, p: seq<Byte>, pos: nat, i: int, ii: int, j: nat) {
    && pos <= i <= |s| && j < |p|
    && (forall q | pos <= q && OccursAt(s, p, q) :: i <= q + j)
    && (0 < j ==> pos <= ii && ii + j <= i && (i == ii + j ==> s[ii..ii + j] == p[..j]))
  }

  /** Skipping n characters that differ from the wanted one loses no occurrence. */
  lemma SkipMismatch(s: seq<Byte>, p: seq<Byte>, pos: nat, i: int, ii: int, j: nat, n: nat)
    requires Searching(s, p, pos, i, ii, j) && i + n <= |s|
    requires forall k | i <= k < i + n :: s[k] != p[j]
    ensures Searching(s, p, pos, i + n, ii, j)
  {
    forall q | pos <= q && OccursAt(s, p, q)
      ensures i + n <= q + j
    {
      OccurrenceAt(s, p, q, j);
    }
  }

  lemma TakeMatch(s: seq<Byte>, p: seq<Byte>, pos: nat, i: int, ii: int, j: nat)
    requires Searching(s, p, pos, i, ii, j) && i < |s| && s[i] == p[j] && j + 1 < |p|
    ensures Searching(s, p, pos, i + 1, if j == 0 then i else ii, j + 1)
  {
    var ii' := if j == 0 then i else ii;
    forall q | pos <= q && OccursAt(s, p, q)
      ensures i + 1 <= q + (j + 1)
    {
    }
    if i + 1 == ii' + j + 1 {
      assert s[ii'..i + 1] == s[ii'..i] + [s[i]];
      assert p[..j + 1] == p[..j] + [p[j]];
    }
  }

  /** A complete subsequence that is contiguous is the first occurrence. */
  lemma Contiguous(s: seq<Byte>, p: seq<Byte>, pos: nat, i: int, ii: int)
    requires 0 < |p| && Searching(s, p, pos, i, ii, |p| - 1) && 1 < |p|
    requires i < |s| && s[i] == p[|p| - 1] && i == ii + |p| - 1
    ensures IndexFrom(s, p, pos) == ii
  {
    assert s[ii..i + 1] == s[ii..i] + [s[i]];
    assert p == p[..|p| - 1] + [p[|p| - 1]];
    assert OccursAt(s, p, ii);
  }

  /** With gaps, the search can go back to i - j: no occurrence starts before it. */
  lemma Restart(s: seq<Byte>, p: seq<Byte>, pos: nat, i: int, ii: int, j: nat)
    requires Searching(s, p, pos, i, ii, j) && ii + j < i && 0 < j
    ensures ii < i - j && Searching(s, p, pos, i - j, ii, 0)
  {
  }

  /** Past the last position that the unrolled test may look at, only the tail case can still succeed. */
  lemma Exhausted(s: seq<Byte>, p: seq<Byte>, pos: nat, i: int, ii: int, j: nat)
    requires Searching(s, p, pos, i, ii, j) && |s| - 1 <= i
    requires !(i == |s| - 1 && |p| == j + 1 && p[j] == s[i])
    ensures IndexFrom(s, p, pos) == BSTR_ERR
  {
    if IndexFrom(s, p, pos) != BSTR_ERR {
      OccurrenceAt(s, p, IndexFrom(s, p, pos), j);
    }
  }

  method Binstr(b1: Bstring, pos: int, b2: Ref) returns (r: int)
    requires b1.Valid() && b2.Valid()
    ensures r == if 0 <= pos <= b1.slen then IndexFrom(b1.Contents(), b2.Contents(), pos) else BSTR_ERR
  {
    ghost var s, p := b1.Contents(), b2.Contents();
    if b1.slen == pos {
      return if b2.len == 0 then pos else BSTR_ERR;
    }
    if b1.slen < pos || pos < 0 {
      return BSTR_ERR;
    }
    if b2.len == 0 {
      return pos;
    }
    var lf := b1.slen - b2.len + 1;
    if lf <= pos {
      return BSTR_ERR;
    }
    if b1.data == b2.data && b2.ofs == 0 && pos == 0 {         // an alias: the pattern is a prefix
      assert s[..|p|] == p;
      assert OccursAt(s, p, 0);
      return 0;
    }
    var i := pos;
    var d0, d1, ll := b2.data, b1.data, b2.len;
    var c0 := d0[b2.ofs];
    if ll == 1 {
      assert c0 == p[0] && lf == |s|;
      r := FindByte(b1, i, lf, c0, s);
      SingleByte(s, p, pos, r);
      return r;
    }
    r := SearchUnrolled(b1, pos, b2);
  }

  method FindByte(b1: Bstring, pos: nat, lf: nat, c0: Byte, ghost s: seq<Byte>) returns (r: int)
    requires b1.Valid() && s == b1.Contents() && pos <= lf <= b1.slen
    ensures r == BSTR_ERR ==> forall k | pos <= k < lf :: s[k] != c0
    ensures r != BSTR_ERR ==> pos <= r < lf && s[r] == c0 && forall k | pos <= k < r :: s[k] != c0
  {
    var i := pos;
    while i < lf
      invariant pos <= i <= lf
      invariant forall k | pos <= k < i :: s[k] != c0
    {
      if c0 == b1.data[i] {
        return i;
      }
      i := i + 1;
    }
    return BSTR_ERR;
  }

  lemma SingleByte(s: seq<Byte>, p: seq<Byte>, pos: nat, r: int)
    requires |p| == 1 && pos <= |s|
    requires r == BSTR_ERR ==> forall k | pos <= k < |s| :: s[k] != p[0]
    requires r != BSTR_ERR ==> pos <= r < |s| && s[r] == p[0] && forall k | pos <= k < r :: s[k] != p[0]
    ensures r == IndexFrom(s, p, pos)
  {
    forall i | pos <= i && OccursAt(s, p, i)
      ensures r != BSTR_ERR && r <= i
    {
      OccurrenceAt(s, p, i, 0);
    }
    if r != BSTR_ERR {
      assert s[r..r + 1] == p;
      assert OccursAt(s, p, r);
    }
  }

  /** The main loop, with the unrolled test and the tail case that re-enters it. */
  method SearchUnrolled(b1: Bstring, pos: nat, b2: Ref) returns (r: int)
    requires b1.Valid() && b2.Valid()
    requires 1 < b2.len && pos + b2.len <= b1.slen
    ensures r == IndexFrom(b1.Contents(), b2.Contents(), pos)
  {
    hide OccursAt, IndexFrom, Searching;
    ghost var s, p := b1.Contents(), b2.Contents();
    var d0, d1, ll := b2.data, b1.data, b2.len;
    var c0 := d0[b2.ofs];
    var c1, i, j, ii, lf := c0, pos, 0, -1, b1.slen - 1;
    Starting(s, p, pos);
    while true
      invariant pos <= i <= b1.slen && 0 <= j < ll && c1 == p[j]
      invariant Searching(s, p, pos, i, ii, j)
      invariant 0 < j ==> pos <= ii && ii + j <= i
      decreases b1.slen - (if j == 0 then i else ii), b1.slen - i
    {
      if i < lf {
        if c1 != d1[i] {
          if c1 != d1[1 + i] {
            SkipMismatch(s, p, pos, i, ii, j, 2);
            i := i + 2;
            continue;
          }
          SkipMismatch(s, p, pos, i, ii, j, 1);
          i := i + 1;
        }
        if j == 0 {
          MarkStart(s, p, pos, i, ii);
          ii := i;
        }
        if j + 1 < ll {
          TakeMatch(s, p, pos, i, ii, j);
          j := j + 1;
          i := i + 1;
          c1 := d0[b2.ofs + j];
          continue;
        }
        j := j + 1;
        i := i + 1;
      } else if i == lf && ll == j + 1 && c1 == d1[i] {
        // One character short of the loop's reach: the last one matches at the very end.
      } else {
        Exhausted(s, p, pos, i, ii, j);
        return BSTR_ERR;
      }
      // N0: the pattern has been found as a subsequence
      ghost var last := if j == ll then i - 1 else i;
      if i == ii + j {
        Contiguous(s, p, pos, last, ii);
        return ii;
      }
      Restart(s, p, pos, last, ii, ll - 1);
      i := i - j;
      j := 0;
      c1 := c0;
    }
  }

  lemma MarkStart(s: seq<Byte>, p: seq<Byte>, pos: nat, i: int, ii: int)
    requires Searching(s, p, pos, i, ii, 0)
    ensures Searching(s, p, pos, i, i, 0)
  {
  }

  lemma Starting(s: seq<Byte>, p: seq<Byte>, pos: nat)
    requires pos <= |s| && 0 < |p|
    ensures Searching(s, p, pos, pos, -1, 0)
  {
  }
}
