/** Bytes as their eight bits, for the bit-level code of the E2E profile. */
module Octets {

  /** Bit 0 is the most significant one. */
  type Octet = s: seq<bool> | |s| == 8 witness [false, false, false, false, false, false, false, false]

  const ZERO: Octet := [false, false, false, false, false, false, false, false]
  const ONES: Octet := [true, true, true, true, true, true, true, true]
  const NIBBLE: Octet := [false, false, false, false, true, true, true, true]

  function Xor(x: Octet, y: Octet): Octet { seq(8, i requires 0 <= i < 8 => x[i] != y[i]) }

  function And(x: Octet, y: Octet): Octet { seq(8, i requires 0 <= i < 8 => x[i] && y[i]) }

  function Or(x: Octet, y: Octet): Octet { seq(8, i requires 0 <= i < 8 => x[i] || y[i]) }

  function Not(x: Octet): Octet { seq(8, i requires 0 <= i < 8 => !x[i]) }

  /** `x << n`, cut to eight bits. */
  function Left(x: Octet, n: nat): Octet { seq(8, i requires 0 <= i < 8 => i + n < 8 && x[i + n]) }

  /** `x >> n` */
  function Right(x: Octet, n: nat): Octet { seq(8, i requires 0 <= i < 8 => n <= i && x[i - n]) }

  /** The number in the low nibble. */
  function LowNibble(x: Octet): (n: nat)
    ensures n < 16
  {
    (if x[4] then 8 else 0) + (if x[5] then 4 else 0) + (if x[6] then 2 else 0) + (if x[7] then 1 else 0)
  }

  function NibbleOf(n: nat): Octet
    requires n < 16
  {
    [false, false, false, false, n >= 8, n % 8 >= 4, n % 4 >= 2, n % 2 >= 1]
  }

  /** Only the low nibble is set. */
  predicate IsNibble(x: Octet) { !x[0] && !x[1] && !x[2] && !x[3] }

  lemma LowNibbleOf(n: nat)
    requires n < 16
    ensures LowNibble(NibbleOf(n)) == n && IsNibble(NibbleOf(n))
  {
  }

  lemma XorSwap(a: Octet, b: Octet, c: Octet, d: Octet)
    ensures Xor(Xor(a, b), Xor(c, d)) == Xor(Xor(a, c), Xor(b, d))
  {
  }

  lemma XorZero(a: Octet, b: Octet)
    ensures Xor(a, b) == ZERO <==> a == b
  {
    if Xor(a, b) == ZERO {
      assert forall i | 0 <= i < 8 :: Xor(a, b)[i] == (a[i] != b[i]);
      assert a == b;
    }
  }

  lemma XorIdentity(a: Octet)
    ensures Xor(ZERO, a) == a
  {
  }

  lemma XorSame(d: Octet, a: Octet)
    ensures Xor(d, Xor(a, a)) == d
  {
  }

  lemma XorCancels(a: Octet, b: Octet, c: Octet)
    ensures Xor(a, c) == Xor(b, c) <==> a == b
  {
    if Xor(a, c) == Xor(b, c) {
      assert forall i | 0 <= i < 8 :: Xor(a, c)[i] == (a[i] != c[i]);
      assert forall i | 0 <= i < 8 :: Xor(b, c)[i] == (b[i] != c[i]);
      assert a == b;
    }
  }
}
