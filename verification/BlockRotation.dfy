/** The block exchange behind argv permutation: `gcd` and `permute_args`
    (deps/argtable3/argtable3.c:1571-1621).

    Two adjacent blocks of an array are exchanged in place by following cycles.  Writing n and k for the two
    block lengths, the element at offset o goes to offset (o + k) mod (n + k); that map has gcd(n, k) cycles,
    each of length (n + k) / gcd(n, k).  The proof ranks the offsets of one cycle by a Bezout inverse of k. */
module BlockRotation {
  import opened Arith

  /** Euclid's algorithm, as a specification of the loop in `ComputeGcd`. */
  function Gcd(a: nat, b: nat): (g: nat)
    requires 0 < b
    ensures 0 < g <= b
    decreases b
  {
    if a % b == 0 then b else Gcd(b, a % b)
  }

  /** The greatest common divisor is a common divisor and an integer combination of its arguments. */
  lemma {:induction false} GcdBezout(a: nat, b: nat) returns (p: nat, q: nat, u: int, v: int)
    requires 0 < b
    ensures a == Gcd(a, b) * p && b == Gcd(a, b) * q
    ensures u * a + v * b == Gcd(a, b)
    decreases b
  {
    var d, r := a / b, a % b;
    DivMod(a, b);
    if r == 0 {
      p, q, u, v := d, 1, 0, 1;
    } else {
      var p', q', u', v' := GcdBezout(b, r);
      BezoutStep(a, b, d, r, Gcd(a, b), p', q', u', v');
      p, q, u, v := p' * d + q', p', v', u' - v' * d;
    }
  }

  lemma BezoutStep(a: nat, b: nat, d: nat, r: nat, g: nat, p: nat, q: nat, u: int, v: int)
    requires a == b * d + r && b == g * p && r == g * q && u * b + v * r == g
    ensures a == g * (p * d + q)
    ensures v * a + (u - v * d) * b == g
  {
    MulAssoc(g, p, d);
    MulDist(g, p * d, q);
    MulDist(v, b * d, r);
    MulDist(b, u, -(v * d));
    MulAssoc(v, d, b);
    assert -(v * d) * b == -(v * d * b);
  }

  /** Every common divisor divides the result, so the result is the greatest one. */
  lemma GcdGreatest(a: nat, b: nat, d: nat)
    requires 0 < b && 0 < d && a % d == 0 && b % d == 0
    ensures Gcd(a, b) % d == 0 && d <= Gcd(a, b)
  {
    var x, y := a / d, b / d;
    DivMod(a, d);
    DivMod(b, d);
    var p, q, u, v := GcdBezout(a, b);
    var z := u * x + v * y;
    CommonFactor(d, x, y, u, v);
    DivModUnique(Gcd(a, b), d, z, 0);
    MulSign(d, z);
  }

  lemma CommonFactor(d: int, x: int, y: int, u: int, v: int)
    ensures d * (u * x + v * y) == u * (d * x) + v * (d * y)
  {
    MulDist(d, u * x, v * y);
    MulAssoc(d, u, x);
    MulAssoc(u, d, x);
    MulAssoc(d, v, y);
    MulAssoc(v, d, y);
  }

  method ComputeGcd(a0: nat, b0: nat) returns (g: nat)
    requires 0 < b0
    ensures g == Gcd(a0, b0)
  {
    var a, b := a0, b0;
    var c := a % b;
    while c != 0
      invariant 0 < b && 0 <= c == a % b
      invariant Gcd(a, b) == Gcd(a0, b0)
      decreases c
    {
      a := b;
      b := c;
      c := a % b;
    }
    return b;
  }

  /** Block lengths n and k, their gcd g, the cofactors, and a Bezout certificate u * c + w * k1 == 1. */
  datatype Cycles = Cycles(n: nat, k: nat, g: nat, n1: nat, k1: nat, c: nat, u: int, w: int) {
    ghost predicate Valid() {
      && 0 < g && 0 < k && 0 < c == n1 + k1
      && n == g * n1 && k == g * k1
      && u * c + w * k1 == 1
    }

    /** Where the element at offset o goes when blocks of n and k elements change places. */
    function Next(o: int): int {
      if o < n then o + k else o - n
    }

    /** The number of its cycle. */
    ghost function Residue(o: int): (r: int)
      requires Valid()
      ensures 0 <= r < g
    {
      o % g
    }

    /** Number of steps from the start of its cycle (offset n + residue) to offset o. */
    ghost function Rank(o: int): (r: int)
      requires Valid()
      ensures 0 <= r < c
    {
      ((o / g - n1) * w) % c
    }
  }

  lemma NextShift(cs: Cycles, o: int)
    requires cs.Valid() && 0 <= o < cs.n + cs.k
    ensures 0 <= cs.Next(o) < cs.n + cs.k
    ensures cs.Next(o) % cs.g == o % cs.g
    ensures cs.Next(o) / cs.g == if o < cs.n then o / cs.g + cs.k1 else o / cs.g - cs.n1
  {
    var t, r := o / cs.g, o % cs.g;
    assert o == cs.g * t + r;
    if o < cs.n {
      assert o + cs.k == cs.g * (t + cs.k1) + r by { assert cs.g * (t + cs.k1) == cs.g * t + cs.g * cs.k1; }
      DivModUnique(o + cs.k, cs.g, t + cs.k1, r);
    } else {
      assert o - cs.n == cs.g * (t - cs.n1) + r by { assert cs.g * (t - cs.n1) == cs.g * t - cs.g * cs.n1; }
      DivModUnique(o - cs.n, cs.g, t - cs.n1, r);
    }
  }

  /** One step along a cycle stays in its residue class and raises the rank by one, back to 0 after the last offset. */
  lemma NextRank(cs: Cycles, o: int)
    requires cs.Valid() && 0 <= o < cs.n + cs.k
    ensures 0 <= cs.Next(o) < cs.n + cs.k && cs.Next(o) % cs.g == o % cs.g
    ensures cs.Rank(cs.Next(o)) == if cs.Rank(o) + 1 == cs.c then 0 else cs.Rank(o) + 1
  {
    NextShift(cs, o);
    var x, y := o / cs.g - cs.n1, cs.Next(o) / cs.g - cs.n1;
    var lap := if o < cs.n then 0 else 1;
    assert y == x + cs.k1 - lap * cs.c;
    RankAfter(x, y, cs.k1, lap, cs.c, cs.w, cs.u);
  }

  lemma RankAfter(x: int, y: int, k1: int, lap: int, c: int, w: int, u: int)
    requires 0 < c && u * c + w * k1 == 1 && y == x + k1 - lap * c
    ensures var r := (x * w) % c; (y * w) % c == if r + 1 == c then 0 else r + 1
  {
    var q, r := (x * w) / c, (x * w) % c;
    DivMod(x * w, c);
    RankStep(x, k1, lap, c, w, u, q, r);
    ModAdd(r + 1, q - u - lap * w, c);
    if r + 1 == c {
      DivModUnique(r + 1, c, 1, 0);
    } else {
      DivModUnique(r + 1, c, 0, r + 1);
    }
  }

  lemma RankStep(x: int, k1: int, lap: int, c: int, w: int, u: int, q: int, r: int)
    requires x * w == c * q + r && u * c + w * k1 == 1
    ensures (x + k1 - lap * c) * w == (r + 1) + (q - u - lap * w) * c
  {
    MulDist(w, x, k1 - lap * c);
    MulDist(w, k1, -(lap * c));
    assert -(lap * c) * w == -(lap * c * w);
    MulAssoc(lap, c, w);
    MulAssoc(lap, w, c);
    MulDist(c, q, -u - lap * w);
    MulDist(c, -u, -(lap * w));
    assert -(lap * w) * c == -(lap * w * c);
  }

  /** Offsets of one residue class are told apart by their ranks: the class is a single cycle. */
  lemma RankInjective(cs: Cycles, o: int, o': int)
    requires cs.Valid()
    requires 0 <= o < cs.n + cs.k && 0 <= o' < cs.n + cs.k
    requires o % cs.g == o' % cs.g && cs.Rank(o) == cs.Rank(o')
    ensures o == o'
  {
    QuotientBound(cs, o);
    QuotientBound(cs, o');
    var x, x' := o / cs.g - cs.n1, o' / cs.g - cs.n1;
    DivMod(x * cs.w, cs.c);
    DivMod(x' * cs.w, cs.c);
    var z := SameRank(x, x', cs.w, cs.c, cs.k1, cs.u, (x * cs.w) / cs.c, (x' * cs.w) / cs.c, cs.Rank(o));
    MulSign(cs.c, z);
    SameQuotient(o, o', cs.g);
  }

  lemma SameRank(x: int, x': int, w: int, c: int, k1: int, u: int, q: int, q': int, r: int) returns (z: int)
    requires x * w == c * q + r && x' * w == c * q' + r && u * c + w * k1 == 1
    ensures x - x' == c * z
  {
    var d, m := x - x', q - q';
    assert d * w == c * m by {
      MulDist(w, x, -x');
      MulDist(c, q, -q');
    }
    z := m * k1 + d * u;
    calc {
      d;
      d * (u * c + w * k1);
      { MulDist(d, u * c, w * k1); MulAssoc(d, u, c); MulAssoc(d, w, k1); }
      d * u * c + d * w * k1;
      { MulAssoc(c, m, k1); }
      d * u * c + c * (m * k1);
      { MulDist(c, m * k1, d * u); }
      c * z;
    }
  }

  lemma QuotientBound(cs: Cycles, o: int)
    requires cs.Valid() && 0 <= o < cs.n + cs.k
    ensures 0 <= o / cs.g < cs.c
  {
    var t := o / cs.g;
    assert o == cs.g * t + o % cs.g;
    assert cs.g * cs.c == cs.n + cs.k by { assert cs.g * (cs.n1 + cs.k1) == cs.g * cs.n1 + cs.g * cs.k1; }
    assert cs.g * (t - cs.c) == cs.g * t - cs.g * cs.c;
    MulSign(cs.g, t - cs.c);
    MulSign(cs.g, t);
  }

  lemma CycleStart(cs: Cycles, i: int)
    requires cs.Valid() && 0 <= i < cs.g
    ensures 0 <= cs.n + i < cs.n + cs.k
    ensures (cs.n + i) % cs.g == i && cs.Rank(cs.n + i) == 0
  {
    DivModUnique(cs.n + i, cs.g, cs.n1, i);
    assert cs.k1 > 0;
    assert cs.g * cs.k1 >= cs.g;
    assert 0 * cs.w == 0;
    DivModUnique(0, cs.c, 0, 0);
  }

  lemma MakeCycles(n: nat, k: nat) returns (cs: Cycles)
    requires 0 < k
    ensures cs.Valid() && cs.n == n && cs.k == k && cs.g == Gcd(n, k)
    ensures (n + k) / cs.g == cs.c
  {
    var p, q, u, v := GcdBezout(n, k);
    var g := Gcd(n, k);
    BezoutQuotients(g, p, q, u, v);
    assert u * (p + q) + (v - u) * q == u * p + v * q;
    cs := Cycles(n, k, g, p, q, p + q, u, v - u);
    assert n + k == g * (p + q) + 0 by { assert g * (p + q) == g * p + g * q; }
    DivModUnique(n + k, g, p + q, 0);
    MulSign(g, q);
  }

  lemma BezoutQuotients(g: nat, p: int, q: int, u: int, v: int)
    requires 0 < g && u * (g * p) + v * (g * q) == g
    ensures u * p + v * q == 1
  {
    var z := u * p + v * q;
    assert g * z == g by {
      assert g * z == g * (u * p) + g * (v * q);
      assert g * (u * p) == u * (g * p);
      assert g * (v * q) == v * (g * q);
    }
    assert g * (z - 1) == 0;
    MulSign(g, z - 1);
  }

  /** The cycles tabulated by offset: successor, cycle number and rank within the cycle.
      `Valid` keeps only what the in-place loop needs, so that no division is left. */
  datatype Orbits = Orbits(n: nat, k: nat, cycles: nat, length: nat, next: seq<nat>, cycle: seq<nat>, rank: seq<nat>) {
    ghost predicate Valid() {
      && |next| == |cycle| == |rank| == n + k
      && (forall o {:trigger next[o]} | 0 <= o < n + k :: next[o] == if o < n then o + k else o - n)
      && (forall o {:trigger next[o]} {:trigger rank[o]} | 0 <= o < n + k :: cycle[o] < cycles && rank[o] < length)
      && (forall o {:trigger next[o]} | 0 <= o < n + k :: cycle[next[o]] == cycle[o])
      && (forall o {:trigger next[o]} | 0 <= o < n + k ::
            rank[next[o]] == if rank[o] + 1 == length then 0 else rank[o] + 1)
      && (forall o, o' {:trigger rank[o], rank[o']} |
            0 <= o < n + k && 0 <= o' < n + k && cycle[o] == cycle[o'] && rank[o] == rank[o'] :: o == o')
      && cycles <= k
      && (forall o {:trigger rank[o]} {:trigger cycle[o]} | n <= o < n + cycles :: cycle[o] == o - n && rank[o] == 0)
    }
  }

  // The facts about `Cycles` without a remainder in sight.

  lemma TabulatedStep(cs: Cycles, o: int)
    requires cs.Valid() && 0 <= o < cs.n + cs.k
    ensures 0 <= cs.Next(o) < cs.n + cs.k && cs.Residue(cs.Next(o)) == cs.Residue(o)
    ensures cs.Rank(cs.Next(o)) == if cs.Rank(o) + 1 == cs.c then 0 else cs.Rank(o) + 1
  {
    NextRank(cs, o);
  }

  lemma TabulatedOnce(cs: Cycles, o: int, o': int)
    requires cs.Valid() && 0 <= o < cs.n + cs.k && 0 <= o' < cs.n + cs.k
    ensures cs.Residue(o) == cs.Residue(o') && cs.Rank(o) == cs.Rank(o') ==> o == o'
  {
    hide Cycles.Rank;
    if cs.Residue(o) == cs.Residue(o') && cs.Rank(o) == cs.Rank(o') {
      RankInjective(cs, o, o');
    }
  }

  lemma Counted(cs: Cycles)
    requires cs.Valid()
    ensures 0 < cs.g <= cs.k && 0 < cs.c
  {
    MulSign(cs.g, cs.k1);
  }

  lemma TabulatedStart(cs: Cycles, o: int)
    requires cs.Valid() && cs.n <= o < cs.n + cs.g
    ensures cs.Residue(o) == o - cs.n && cs.Rank(o) == 0 && cs.g <= cs.k
  {
    CycleStart(cs, o - cs.n);
  }

  /** The offsets split into gcd(n, k) disjoint cycles of (n + k) / gcd(n, k) offsets each. */
  lemma CyclesCoverBlocks(n: nat, k: nat) returns (orb: Orbits)
    requires 0 < k
    ensures orb.Valid() && orb.n == n && orb.k == k
    ensures orb.cycles == Gcd(n, k) && orb.length == (n + k) / Gcd(n, k)
  {
    hide Cycles.Rank, Cycles.Residue, Cycles.Valid, Gcd;
    var cs := MakeCycles(n, k);
    forall o | 0 <= o < n + k
      ensures 0 <= cs.Next(o) < n + k
    {
      TabulatedStep(cs, o);
    }
    orb := Orbits(n, k, cs.g, cs.c, seq(n + k, o requires 0 <= o < n + k => cs.Next(o)),
                  seq(n + k, o => cs.Residue(o)), seq(n + k, o => cs.Rank(o)));
    forall o | 0 <= o < n + k
      ensures orb.cycle[orb.next[o]] == orb.cycle[o]
      ensures orb.rank[orb.next[o]] == if orb.rank[o] + 1 == orb.length then 0 else orb.rank[o] + 1
    {
      TabulatedStep(cs, o);
    }
    forall o, o' | 0 <= o < n + k && 0 <= o' < n + k && orb.cycle[o] == orb.cycle[o'] && orb.rank[o] == orb.rank[o']
      ensures o == o'
    {
      TabulatedOnce(cs, o, o');
    }
    forall o | n <= o < n + orb.cycles
      ensures orb.cycle[o] == o - n && orb.rank[o] == 0
    {
      TabulatedStart(cs, o);
    }
    Counted(cs);
  }

  /** The sequence with block [start, mid) and block [mid, end) exchanged. */
  function Exchange<T>(s: seq<T>, start: nat, mid: nat, end: nat): (r: seq<T>)
    requires start <= mid <= end <= |s|
    ensures |r| == |s|
  {
    s[..start] + s[mid..end] + s[start..mid] + s[end..]
  }

  /** State of `PermuteArgs` after cycles 0..i-1 are done and j steps of cycle i have led to offset pos. */
  ghost predicate Progress<T>(orb: Orbits, was: seq<T>, now: seq<T>, start: nat, i: nat, j: nat, pos: nat)
    requires orb.Valid() && |was| == |now| && start + orb.n + orb.k <= |was|
    requires pos < orb.n + orb.k
  {
    && Outside(orb, was, now, start) && Moved(orb, was, now, start, i, j) && Waiting(orb, was, now, start, i, j)
    && (i < orb.cycles && j < orb.length ==> now[start + orb.n + i] == was[start + pos])
  }

  ghost predicate Outside<T>(orb: Orbits, was: seq<T>, now: seq<T>, start: nat)
    requires |was| == |now|
  {
    forall x | 0 <= x < |was| && !(start <= x < start + orb.n + orb.k) :: now[x] == was[x]
  }

  ghost predicate Moved<T>(orb: Orbits, was: seq<T>, now: seq<T>, start: nat, i: nat, j: nat)
    requires orb.Valid() && |was| == |now| && start + orb.n + orb.k <= |was|
  {
    forall o {:trigger orb.next[o]} |
      0 <= o < orb.n + orb.k && (orb.cycle[o] < i || (orb.cycle[o] == i && orb.rank[o] < j)) ::
      now[start + orb.next[o]] == was[start + o]
  }

  ghost predicate Waiting<T>(orb: Orbits, was: seq<T>, now: seq<T>, start: nat, i: nat, j: nat)
    requires orb.Valid() && |was| == |now| && start + orb.n + orb.k <= |was|
  {
    forall o {:trigger orb.cycle[o]} |
      0 <= o < orb.n + orb.k && (orb.cycle[o] > i || (orb.cycle[o] == i && orb.rank[o] > j)) ::
      now[start + o] == was[start + o]
  }

  lemma AllMoved<T>(orb: Orbits, was: seq<T>, now: seq<T>, start: nat)
    requires orb.Valid() && |was| == |now| && start + orb.n + orb.k <= |was| && 0 < orb.k
    requires Progress(orb, was, now, start, orb.cycles, 0, 0)
    ensures now == Exchange(was, start, start + orb.n, start + orb.n + orb.k)
  {
    var end := start + orb.n + orb.k;
    forall x | start <= x < end
      ensures now[x] == Exchange(was, start, start + orb.n, end)[x]
    {
      var y := x - start;
      var o := if y < orb.k then y + orb.n else y - orb.k;
      assert orb.next[o] == y;
    }
  }

  /** The successors of two offsets differ when the offsets differ. */
  lemma MovedStep<T>(orb: Orbits, was: seq<T>, now: seq<T>, now': seq<T>, start: nat, i: nat, j: nat, pos: nat, o: nat)
    requires orb.Valid() && |was| == |now| == |now'| && start + orb.n + orb.k <= |was|
    requires i < orb.cycles && j < orb.length
    requires pos < orb.n + orb.k && orb.cycle[pos] == i && orb.rank[pos] == j
    requires now[start + orb.n + i] == was[start + pos]
    requires var p, q := start + orb.next[pos], start + orb.n + i; now' == now[p := now[q]][q := now[p]]
    requires o < orb.n + orb.k && (orb.cycle[o] < i || (orb.cycle[o] == i && orb.rank[o] <= j))
    requires o != pos ==> now[start + orb.next[o]] == was[start + o]
    ensures now'[start + orb.next[o]] == was[start + o]
  {
    var q := orb.n + i;
    assert orb.rank[q] == 0 && orb.cycle[q] == i;
    if o == pos {
      assert orb.next[pos] == q || now'[start + orb.next[pos]] == was[start + pos];
    } else {
      assert orb.next[o] != orb.next[pos];
      assert orb.rank[o] != j || orb.cycle[o] != i;
      assert orb.next[o] != q;
    }
  }

  /** One swap of the inner loop. */
  lemma StepProgress<T>(orb: Orbits, was: seq<T>, now: seq<T>, now': seq<T>, start: nat, i: nat, j: nat, pos: nat)
    requires orb.Valid() && |was| == |now| == |now'| && start + orb.n + orb.k <= |was|
    requires i < orb.cycles && j < orb.length
    requires pos < orb.n + orb.k && orb.cycle[pos] == i && orb.rank[pos] == j
    requires Progress(orb, was, now, start, i, j, pos)
    requires var p, q := start + orb.next[pos], start + orb.n + i; now' == now[p := now[q]][q := now[p]]
    ensures Progress(orb, was, now', start, i, j + 1, orb.next[pos])
  {
    hide Moved, Waiting, Orbits.Valid;
    OrbitStep(orb, pos);
    CycleHead(orb, i);
    StepMoved(orb, was, now, now', start, i, j, pos);
    StepWaiting(orb, was, now, now', start, i, j, pos);
    if j + 1 < orb.length {
      StillWaiting(orb, was, now, start, i, j, orb.next[pos]);
    }
  }

  lemma StepMoved<T>(orb: Orbits, was: seq<T>, now: seq<T>, now': seq<T>, start: nat, i: nat, j: nat, pos: nat)
    requires orb.Valid() && |was| == |now| == |now'| && start + orb.n + orb.k <= |was|
    requires i < orb.cycles && j < orb.length
    requires pos < orb.n + orb.k && orb.cycle[pos] == i && orb.rank[pos] == j
    requires Moved(orb, was, now, start, i, j) && now[start + orb.n + i] == was[start + pos]
    requires var p, q := start + orb.next[pos], start + orb.n + i; now' == now[p := now[q]][q := now[p]]
    ensures Moved(orb, was, now', start, i, j + 1)
  {
    forall o | 0 <= o < orb.n + orb.k && (orb.cycle[o] < i || (orb.cycle[o] == i && orb.rank[o] < j + 1))
      ensures now'[start + orb.next[o]] == was[start + o]
    {
      MovedStep(orb, was, now, now', start, i, j, pos, o);
    }
  }

  lemma StepWaiting<T>(orb: Orbits, was: seq<T>, now: seq<T>, now': seq<T>, start: nat, i: nat, j: nat, pos: nat)
    requires orb.Valid() && |was| == |now| == |now'| && start + orb.n + orb.k <= |was|
    requires i < orb.cycles && j < orb.length
    requires pos < orb.n + orb.k && orb.cycle[pos] == i && orb.rank[pos] == j
    requires Waiting(orb, was, now, start, i, j)
    requires var p, q := start + orb.next[pos], start + orb.n + i; now' == now[p := now[q]][q := now[p]]
    ensures Waiting(orb, was, now', start, i, j + 1)
  {
    OrbitStep(orb, pos);
    CycleHead(orb, i);
    forall o | 0 <= o < orb.n + orb.k && (orb.cycle[o] > i || (orb.cycle[o] == i && orb.rank[o] > j + 1))
      ensures now'[start + o] == was[start + o]
    {
      assert o != orb.next[pos] && o != orb.n + i;
    }
  }

  lemma StillWaiting<T>(orb: Orbits, was: seq<T>, now: seq<T>, start: nat, i: nat, j: nat, o: nat)
    requires orb.Valid() && |was| == |now| && start + orb.n + orb.k <= |was|
    requires Waiting(orb, was, now, start, i, j)
    requires o < orb.n + orb.k && orb.cycle[o] == i && orb.rank[o] > j
    ensures now[start + o] == was[start + o]
  {
  }

  lemma CycleHead(orb: Orbits, i: nat)
    requires orb.Valid() && i < orb.cycles
    ensures orb.n + i < orb.n + orb.k == |orb.next| == |orb.cycle| == |orb.rank|
    ensures orb.rank[orb.n + i] == 0 && orb.cycle[orb.n + i] == i
  {
  }

  lemma OrbitStep(orb: Orbits, o: nat)
    requires orb.Valid() && o < orb.n + orb.k
    ensures orb.next[o] == (if o < orb.n then o + orb.k else o - orb.n) && orb.next[o] < orb.n + orb.k
    ensures orb.cycle[orb.next[o]] == orb.cycle[o]
    ensures orb.rank[o] < orb.length
    ensures orb.rank[orb.next[o]] == if orb.rank[o] + 1 == orb.length then 0 else orb.rank[o] + 1
  {
  }

  lemma NextCycle<T>(orb: Orbits, was: seq<T>, now: seq<T>, start: nat, i: nat, pos: nat)
    requires orb.Valid() && |was| == |now| && start + orb.n + orb.k <= |was| && 0 < orb.k
    requires i < orb.cycles && pos < orb.n + orb.k
    requires Progress(orb, was, now, start, i, orb.length, pos)
    ensures Progress(orb, was, now, start, i + 1, 0, if i + 1 < orb.cycles then orb.n + i + 1 else 0)
  {
    if i + 1 < orb.cycles {
      assert orb.rank[orb.n + i + 1] == 0 && orb.cycle[orb.n + i + 1] == i + 1;
    }
  }

  lemma FirstCycle<T>(orb: Orbits, was: seq<T>, start: nat)
    requires orb.Valid() && start + orb.n + orb.k <= |was| && 0 < orb.cycles
    ensures Progress(orb, was, was, start, 0, 0, orb.n)
  {
  }

  /** Exchange the block [start, mid) with the block [mid, end) of a in place, keeping the order inside each. */
  method PermuteArgs<T>(a: array<T>, start: nat, mid: nat, end: nat)
    requires start <= mid < end <= a.Length
    modifies a
    ensures a[..] == Exchange(old(a[..]), start, mid, end)
  {
    hide Progress, Orbits.Valid;
    var nnonopts, nopts := mid - start, end - mid;
    ghost var orb := CyclesCoverBlocks(nnonopts, nopts);
    var ncycle := ComputeGcd(nnonopts, nopts);
    var cyclelen := (end - start) / ncycle;
    FirstCycle(orb, a[..], start);
    var i := 0;
    while i < ncycle
      invariant 0 <= i <= ncycle
      invariant Progress(orb, old(a[..]), a[..], start, i, 0, if i < ncycle then orb.n + i else 0)
    {
      FollowCycle(a, start, mid, nnonopts, nopts, i, cyclelen, orb, old(a[..]));
      i := i + 1;
    }
    AllMoved(orb, old(a[..]), a[..], start);
    assert start + orb.n == mid && mid + orb.k == end;
  }

  /** The inner loop of `PermuteArgs`: rotate the elements of cycle i through the slot at mid + i. */
  method FollowCycle<T>(a: array<T>, start: nat, mid: nat, nnonopts: nat, nopts: nat, i: nat, cyclelen: nat,
                        ghost orb: Orbits, ghost was: seq<T>)
    requires orb.Valid() && orb.n == nnonopts && orb.k == nopts && orb.length == cyclelen && 0 < orb.k
    requires i < orb.cycles
    requires mid == start + nnonopts && mid + nopts <= a.Length == |was|
    requires Progress(orb, was, a[..], start, i, 0, orb.n + i)
    modifies a
    ensures Progress(orb, was, a[..], start, i + 1, 0, if i + 1 < orb.cycles then orb.n + i + 1 else 0)
  {
    hide Progress, Orbits.Valid;
    var cstart := mid + i;
    var pos := cstart;
    ghost var o := orb.n + i;
    CycleHead(orb, i);
    var j := 0;
    while j < cyclelen
      invariant 0 <= j <= cyclelen
      invariant 0 <= o < orb.n + orb.k && pos == start + o && orb.cycle[o] == i
      invariant orb.rank[o] == if j == cyclelen then 0 else j
      invariant Progress(orb, was, a[..], start, i, j, o)
    {
      OrbitStep(orb, o);
      if pos >= mid {
        pos := pos - nnonopts;
      } else {
        pos := pos + nopts;
      }
      assert pos == start + orb.next[o];
      ghost var now := a[..];
      Swap(a, pos, cstart);
      assert a[..] == now[pos := now[cstart]][cstart := now[pos]];
      StepProgress(orb, was, now, a[..], start, i, j, o);
      o := orb.next[o];
      j := j + 1;
    }
    NextCycle(orb, was, a[..], start, i, o);
  }

  method Swap<T>(a: array<T>, p: nat, q: nat)
    requires p < a.Length && q < a.Length
    modifies a
    ensures a[..] == old(a[..])[p := old(a[q])][q := old(a[p])]
  {
    var swap := a[p];
    a[p] := a[q];
    a[q] := swap;
  }
}
