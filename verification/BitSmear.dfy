/** The size rounding `snapUpSize` (deps/bstrlib/bstrlib.c:79-100) for a 32-bit int. */
module BitSmear {
  import opened Arith

  const INT_MAX := 0x7fff_ffff

  function Pow2(k: nat): (p: nat)
    ensures 0 < p
  {
    if k == 0 then 1 else 2 * Pow2(k - 1)
  }

  lemma {:induction false} Pow2Add(a: nat, b: nat)
    ensures Pow2(a + b) == Pow2(a) * Pow2(b)
  {
    if a > 0 {
      Pow2Add(a - 1, b);
      MulAssoc(2, Pow2(a - 1), Pow2(b));
    }
  }

  /** Bitwise or of two unsigned numbers. */
  function Or(a: nat, b: nat): nat {
    if a == 0 && b == 0 then 0
    else 2 * Or(a / 2, b / 2) + if a % 2 == 1 || b % 2 == 1 then 1 else 0
  }

  lemma {:induction false} OrZero(a: nat)
    ensures Or(a, 0) == a
  {
    if a > 0 { OrZero(a / 2); }
  }

  /** Below a power of two, or leaves the bits above it alone and does not shrink its arguments. */
  lemma {:induction false} OrLow(h: nat, y: nat, x: nat, k: nat)
    requires y < Pow2(k) && x < Pow2(k)
    ensures Or(h * Pow2(k) + y, x) == h * Pow2(k) + Or(y, x)
    ensures x <= Or(y, x) && y <= Or(y, x) < Pow2(k)
  {
    if k == 0 {
      OrZero(h);
    } else {
      OrLow(h, y / 2, x / 2, k - 1);
      MulAssoc(h, 2, Pow2(k - 1));
      MulAssoc(2, h, Pow2(k - 1));
      var a := h * Pow2(k - 1);
      assert h * Pow2(k) == 2 * a;
      assert (2 * a + y) / 2 == a + y / 2 && (2 * a + y) % 2 == y % 2;
    }
  }

  /** The leading r bits of a number with k + 1 bits are ones (all of them when r > k). */
  predicate LeadingOnes(j: nat, k: nat, r: nat) {
    && Pow2(k) <= j < Pow2(k + 1)
    && j >= Pow2(k + 1) - if r <= k then Pow2(k + 1 - r) else 1
  }

  /** Or-ing with a copy shifted by r doubles the number of leading ones. */
  lemma SmearStep(j: nat, k: nat, r: nat)
    requires 0 < r && LeadingOnes(j, k, r)
    ensures LeadingOnes(Or(j, j / Pow2(r)), k, 2 * r)
  {
    hide Or;
    if r > k {
      QuotientLess(j, Pow2(r));
      OrLow(0, j, j / Pow2(r), k + 1);
    } else {
      SmearShort(j, k, r, k + 1 - r);
    }
  }

  lemma QuotientLess(j: nat, s: nat)
    requires 0 < s
    ensures 0 <= j / s <= j
  {
    var q := j / s;
    DivMod(j, s);
    MulSign(s, q);
    MulDist(q, s - 1, 1);
    MulNonNegative(s - 1, q);
  }

  lemma SmearShort(j: nat, k: nat, r: nat, m: nat)
    requires 0 < r <= k && m == k + 1 - r
    requires Pow2(k + 1) - Pow2(m) <= j < Pow2(k + 1)
    ensures LeadingOnes(Or(j, j / Pow2(r)), k, 2 * r)
  {
    hide Or, Pow2;
    var x, q, s := j / Pow2(r), Pow2(m), Pow2(r);
    Pow2Add(m, r);
    Pow2Add(r, m);
    var h := s - 1;
    assert s * q - q == h * q by { MulDist(q, s, 0 - 1); }
    var y := j - h * q;
    ShiftBounds(j, x, q, s);
    OrLow(h, y, x, m);
    assert Or(j, x) == h * q + Or(y, x);
    if 2 * r <= k {
      Pow2Add(r, m - r);
      ShiftLower(j, x, q, s, Pow2(m - r));
    } else {
      Pow2Mono(m, r);
      ShiftLower(j, x, q, s, 1);
    }
    Pow2Top(k, m, y, x, s);
  }

  lemma Pow2Top(k: nat, m: nat, y: nat, x: nat, s: nat)
    requires m <= k
    ensures Pow2(k) + Pow2(m) <= Pow2(k + 1)
  {
    Pow2Mono(m, k);
  }

  lemma {:induction false} Pow2Mono(a: nat, b: nat)
    ensures a <= b ==> Pow2(a) <= Pow2(b)
    decreases b
  {
    if a < b { Pow2Mono(a, b - 1); }
  }

  lemma ShiftBounds(j: nat, x: nat, q: nat, s: nat)
    requires 0 < s && j < s * q && x == j / s
    ensures x < q
  {
    DivMod(j, s);
    MulDist(s, x, 0 - q);
    MulSign(s, x - q);
  }

  /** If j >= s * q - q and q <= s * d then j / s >= q - d. */
  lemma ShiftLower(j: nat, x: nat, q: nat, s: nat, d: nat)
    requires 0 < s && j >= s * q - q && q <= s * d && x == j / s
    ensures x >= q - d
  {
    DivMod(j, s);
    MulDist(s, x, d - q);
    MulDist(s, d, 0 - q);
    MulSign(s, x + d - q);
  }

  function SnapUpSize(i: nat): (r: nat) {
    if i < 8 then 8
    else
      var j := Or(i, i / 2);
      var j := Or(j, j / 4);
      var j := Or(j, j / 16);
      var j := Or(j, j / 256);
      var j := Or(j, j / 65536);
      var j := j + 1;
      if i <= j <= INT_MAX then j else i                       // the cast of 2^31 to int is negative
  }

  lemma {:induction false} TopBit(i: nat) returns (k: nat)
    requires 0 < i
    ensures Pow2(k) <= i < Pow2(k + 1)
  {
    if i == 1 {
      k := 0;
    } else {
      var k' := TopBit(i / 2);
      k := k' + 1;
    }
  }

  /** Five steps fill a number of at most 32 bits with ones below its top bit. */
  lemma SmearFills(i: nat, k: nat)
    requires Pow2(k) <= i < Pow2(k + 1) && k < 31
    ensures var j1 := Or(i, i / 2);
            var j2 := Or(j1, j1 / 4);
            var j3 := Or(j2, j2 / 16);
            var j4 := Or(j3, j3 / 256);
            Or(j4, j4 / 65536) == Pow2(k + 1) - 1
  {
    var j1 := Or(i, i / 2);
    var j2 := Or(j1, j1 / 4);
    var j3 := Or(j2, j2 / 16);
    var j4 := Or(j3, j3 / 256);
    SmallPowers();
    SmearStep(i, k, 1);
    SmearStep(j1, k, 2);
    SmearStep(j2, k, 4);
    SmearStep(j3, k, 8);
    SmearStep(j4, k, 16);
  }

  lemma SmallPowers()
    ensures Pow2(1) == 2 && Pow2(2) == 4 && Pow2(4) == 16 && Pow2(8) == 256 && Pow2(16) == 65536
    ensures Pow2(30) == 0x4000_0000 && Pow2(31) == 0x8000_0000
  {
    Pow2Add(1, 1);
    Pow2Add(2, 2);
    Pow2Add(4, 4);
    Pow2Add(8, 8);
    Pow2Add(16, 8);
    Pow2Add(24, 4);
    Pow2Add(28, 2);
    Pow2Add(30, 1);
  }

  lemma SnapValue(i: nat) returns (k: nat)
    requires 8 <= i <= INT_MAX
    ensures k < 31 && Pow2(k) <= i < Pow2(k + 1)
    ensures SnapUpSize(i) == if k < 30 then Pow2(k + 1) else i
  {
    k := TopBit(i);
    SmallPowers();
    Pow2Mono(31, k);
    SmearFills(i, k);
    hide Or, Pow2;
    Pow2Mono(k + 1, 30);
  }

  /** From 8 up to 2^30 the result is the least power of two greater than i; it is never less than i. */
  lemma SnapUpLeastPower(i: nat)
    ensures SnapUpSize(i) >= i && SnapUpSize(i) >= 8
    ensures i < 0x4000_0000 ==> SnapUpSize(i) > i
    ensures 8 <= i < 0x4000_0000 ==> exists k: nat :: SnapUpSize(i) == Pow2(k) && Pow2(k) <= 2 * i
    ensures 8 <= i < 0x4000_0000 ==> forall k: nat | i < Pow2(k) :: SnapUpSize(i) <= Pow2(k)
    ensures 0x4000_0000 <= i <= INT_MAX ==> SnapUpSize(i) == i
  {
    hide SnapUpSize, Pow2;
    if 8 <= i <= INT_MAX {
      var k := SnapValue(i);
      SnapPower(i, k, SnapUpSize(i));
      forall n: nat | i < Pow2(n)
        ensures i < 0x4000_0000 ==> SnapUpSize(i) <= Pow2(n)
      {
        SnapLeast(i, k, SnapUpSize(i), n);
      }
    } else {
      SnapOutside(i);
    }
  }

  lemma SnapPower(i: nat, k: nat, p: nat)
    requires 8 <= i <= INT_MAX && Pow2(k) <= i < Pow2(k + 1) && p == if k < 30 then Pow2(k + 1) else i
    ensures p >= i && (i < 0x4000_0000 ==> p > i && p == Pow2(k + 1) <= 2 * i)
    ensures 0x4000_0000 <= i ==> p == i
  {
    hide Pow2;
    SmallPowers();
    Pow2Mono(30, k);
    Pow2Mono(k + 1, 30);
    Pow2Next(k);
  }

  lemma SnapLeast(i: nat, k: nat, p: nat, n: nat)
    requires Pow2(k) <= i < Pow2(n) && p == if k < 30 then Pow2(k + 1) else i
    ensures p <= Pow2(n)
  {
    hide Pow2;
    Pow2Mono(n, k);
    Pow2Mono(k + 1, n);
  }

  lemma Pow2Next(k: nat)
    ensures Pow2(k + 1) == 2 * Pow2(k)
  {
  }

  lemma SnapOutside(i: nat)
    requires i < 8 || INT_MAX < i
    ensures SnapUpSize(i) == if i < 8 then 8 else i
  {
    hide Or;
  }
}
