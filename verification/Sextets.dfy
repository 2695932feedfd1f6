/** Three octets as four groups of six bits, as in Base64 and in UU encoding.

    Shifts and masks are written as products, quotients and remainders; the two sides of each `|` have no common bit. */
module Sextets {
  import opened Arith
  import opened Bstrings

  type Code = c: int | 0 <= c < 64

  function Sextet0(a: Byte): Code {
    a / 4
  }

  function Sextet1(a: Byte, b: Byte): Code {
    a % 4 * 16 + b / 16
  }

  function Sextet2(b: Byte, c: Byte): Code {
    b % 16 * 4 + c / 64
  }

  function Sextet3(c: Byte): Code {
    c % 64
  }

  function Octet0(c0: Code, c1: Code): Byte {
    c0 * 4 + c1 / 16
  }

  function Octet1(c1: Code, c2: Code): Byte {
    c1 % 16 * 16 + c2 / 4
  }

  function Octet2(c2: Code, c3: Code): Byte {
    c2 % 4 * 64 + c3
  }

  lemma OctetsFromSextets(a: Byte, b: Byte, c: Byte)
    ensures Octet0(Sextet0(a), Sextet1(a, b)) == a
    ensures Octet1(Sextet1(a, b), Sextet2(b, c)) == b
    ensures Octet2(Sextet2(b, c), Sextet3(c)) == c
  {
    Halves(a % 4, b / 16, 16);
    Halves(b % 16, c / 64, 4);
  }

  lemma Halves(a: nat, b: nat, m: nat)
    requires 0 < m && b < m
    ensures (a * m + b) / m == a && (a * m + b) % m == b
  {
    DivModUnique(a * m + b, m, a, b);
  }
}
