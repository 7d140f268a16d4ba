/** The CRC-8 of E2E profile 1 (source/runtime/inc/E2EProtection.hpp): polynomial 0x1D,
  most significant bit first. It is the SAE J1850 CRC of section 7.2.1.1 of the AUTOSAR
  Specification of CRC Routines, start value and final XOR 0xFF. */
module Crc8 {
  import opened Octets

  /** 0x1D */
  const POLYNOMIAL: Octet := [false, false, false, true, true, true, false, true]

  /** Multiplication by x modulo the polynomial: every bit moves up, and the bit that falls
      out is fed back where the polynomial has a one. */
  function Shift(c: Octet): Octet {
    seq(8, i requires 0 <= i < 8 => (i < 7 && c[i + 1]) != (c[0] && POLYNOMIAL[i]))
  }

  function Shifts(crc: Octet, n: nat): Octet
    decreases n, crc
  {
    if n == 0 then crc else Shifts(Shift(crc), n - 1)
  }

  /** The register after the first `k` bytes of `m`. */
  function Register(crc: Octet, m: seq<Octet>, k: nat): Octet
    requires k <= |m|
    decreases k
  {
    if k == 0 then crc else Shifts(Xor(Register(crc, m, k - 1), m[k - 1]), 8)
  }

  function Checksum(m: seq<Octet>): Octet {
    Xor(Register(ONES, m, |m|), ONES)
  }

  method Crc8Update(crc0: Octet, data: Octet) returns (crc: Octet)
    ensures crc == Shifts(Xor(crc0, data), 8)
  {
    crc := Xor(crc0, data);
    for i := 0 to 8
      invariant Shifts(crc, 8 - i) == Shifts(Xor(crc0, data), 8)
    {
      ghost var before := crc;
      if crc[0] {
        crc := Xor(Left(crc, 1), POLYNOMIAL);
      } else {
        crc := Left(crc, 1);
      }
      assert crc == Shift(before);
    }
  }

  // ---- Linearity --------------------------------------------------------------------

  /** A shift step is a linear map over GF(2). */
  lemma ShiftLinear(a: Octet, b: Octet)
    ensures Shift(Xor(a, b)) == Xor(Shift(a), Shift(b))
  {
  }

  /** A shift step is invertible. */
  lemma ShiftZero(a: Octet)
    ensures Shift(a) == ZERO <==> a == ZERO
  {
    if Shift(a) == ZERO {
      assert Shift(a)[7] == a[0];
      assert forall i | 1 <= i < 8 :: Shift(a)[i - 1] == a[i];
      assert a == ZERO;
    }
  }

  lemma {:induction false} ShiftsLinear(a: Octet, b: Octet, n: nat)
    ensures Shifts(Xor(a, b), n) == Xor(Shifts(a, n), Shifts(b, n))
    decreases n
  {
    if n > 0 {
      ShiftLinear(a, b);
      ShiftsLinear(Shift(a), Shift(b), n - 1);
    }
  }

  lemma {:induction false} ShiftsZero(a: Octet, n: nat)
    ensures Shifts(a, n) == ZERO <==> a == ZERO
    decreases n
  {
    if n > 0 {
      ShiftZero(a);
      ShiftsZero(Shift(a), n - 1);
    }
  }

  /** The register `k` zero bytes later. */
  function Feed(c: Octet, k: nat): Octet
    decreases k
  {
    if k == 0 then c else Shifts(Feed(c, k - 1), 8)
  }

  lemma {:induction false} FeedZero(c: Octet, k: nat)
    ensures Feed(c, k) == ZERO <==> c == ZERO
    decreases k
  {
    if k > 0 {
      FeedZero(c, k - 1);
      ShiftsZero(Feed(c, k - 1), 8);
    }
  }

  lemma {:induction false} FeedOnce(c: Octet, k: nat)
    ensures Feed(Shifts(c, 8), k) == Feed(c, k + 1)
    decreases k
  {
    if k > 0 {
      FeedOnce(c, k - 1);
    }
  }

  /** The registers' difference moves on by the difference of the next two bytes. */
  lemma DifferenceStep(c: Octet, x: seq<Octet>, y: seq<Octet>, k: nat)
    requires k < |x| == |y|
    ensures Xor(Register(c, x, k + 1), Register(c, y, k + 1))
            == Shifts(Xor(Xor(Register(c, x, k), Register(c, y, k)), Xor(x[k], y[k])), 8)
  {
    var p, q := Register(c, x, k), Register(c, y, k);
    ShiftsLinear(Xor(p, x[k]), Xor(q, y[k]), 8);
    XorSwap(p, x[k], q, y[k]);
  }

  function XorAll(x: seq<Octet>, y: seq<Octet>): (d: seq<Octet>)
    requires |x| == |y|
    ensures |d| == |x|
  {
    seq(|x|, i requires 0 <= i < |x| => Xor(x[i], y[i]))
  }

  lemma {:induction false} RegisterDifference(c: Octet, x: seq<Octet>, y: seq<Octet>, k: nat)
    requires k <= |x| == |y|
    ensures Xor(Register(c, x, k), Register(c, y, k)) == Register(ZERO, XorAll(x, y), k)
    decreases k
  {
    if k == 0 {
      XorZero(c, c);
    } else {
      RegisterDifference(c, x, y, k - 1);
      DifferenceStep(c, x, y, k - 1);
    }
  }

  /** The difference of two checksums depends on the XOR of the messages alone: it is what the
      register makes of that XOR when it starts at zero. */
  lemma ChecksumDifference(x: seq<Octet>, y: seq<Octet>)
    requires |x| == |y|
    ensures Xor(Checksum(x), Checksum(y)) == Register(ZERO, XorAll(x, y), |x|)
  {
    var p, q := Register(ONES, x, |x|), Register(ONES, y, |y|);
    XorSwap(p, ONES, q, ONES);
    XorSame(Xor(p, q), ONES);
    RegisterDifference(ONES, x, y, |x|);
  }

  /** Over bytes on which the messages agree, the difference is only shifted: it depends on
      the XOR of the messages alone. */
  lemma {:induction false} DifferenceShifts(c: Octet, x: seq<Octet>, y: seq<Octet>, i: nat, k: nat)
    requires i <= k <= |x| == |y|
    requires forall j | i <= j < k :: x[j] == y[j]
    ensures Xor(Register(c, x, k), Register(c, y, k))
            == Feed(Xor(Register(c, x, i), Register(c, y, i)), k - i)
    decreases k
  {
    if i < k {
      DifferenceShifts(c, x, y, i, k - 1);
      DifferenceStep(c, x, y, k - 1);
      var d := Xor(Register(c, x, k - 1), Register(c, y, k - 1));
      XorSame(d, x[k - 1]);
    }
  }

  /** The messages agree except, at most, at the byte positions i < j. */
  predicate AgreeBut(x: seq<Octet>, y: seq<Octet>, i: nat, j: nat) {
    |x| == |y| && forall k | 0 <= k < |x| && k != i && k != j :: x[k] == y[k]
  }

  /** The registers' difference just after the first byte in which the messages differ. */
  lemma FirstDifference(x: seq<Octet>, y: seq<Octet>, i: nat)
    requires i < |x| == |y| && forall k | 0 <= k < i :: x[k] == y[k]
    ensures Xor(Register(ONES, x, i + 1), Register(ONES, y, i + 1)) == Shifts(Xor(x[i], y[i]), 8)
  {
    DifferenceShifts(ONES, x, y, 0, i);
    XorZero(ONES, ONES);
    FeedZero(ZERO, i);
    DifferenceStep(ONES, x, y, i);
    XorIdentity(Xor(x[i], y[i]));
  }

  /** The final registers are equal exactly when the difference after byte j, where the messages
      differ for the last time, is zero. */
  lemma LastDifference(x: seq<Octet>, y: seq<Octet>, j: nat)
    requires j < |x| == |y| && forall k | j < k < |x| :: x[k] == y[k]
    ensures Register(ONES, x, |x|) == Register(ONES, y, |y|)
            <==> Xor(Register(ONES, x, j + 1), Register(ONES, y, j + 1)) == ZERO
  {
    DifferenceShifts(ONES, x, y, j + 1, |x|);
    FeedZero(Xor(Register(ONES, x, j + 1), Register(ONES, y, j + 1)), |x| - j - 1);
    XorZero(Register(ONES, x, |x|), Register(ONES, y, |x|));
  }

  lemma FeedAfter(c: Octet, d: Octet, k: nat)
    requires c == Shifts(d, 8)
    ensures Feed(c, k) == Feed(d, k + 1)
  {
    FeedOnce(d, k);
  }

  /** The first difference, once shifted next to the second one, decides. */
  lemma DifferenceAtSecond(x: seq<Octet>, y: seq<Octet>, i: nat, j: nat)
    requires i < j < |x| && AgreeBut(x, y, i, j)
    ensures Xor(Register(ONES, x, j), Register(ONES, y, j)) == Feed(Xor(x[i], y[i]), j - i)
  {
    var k, c := i + 1, Xor(Register(ONES, x, i + 1), Register(ONES, y, i + 1));
    assert c == Shifts(Xor(x[i], y[i]), 8) by {
      FirstDifference(x, y, i);
    }
    FeedAfter(c, Xor(x[i], y[i]), j - k);
    assert Xor(Register(ONES, x, j), Register(ONES, y, j)) == Feed(c, j - k) by {
      DifferenceShifts(ONES, x, y, k, j);
    }
  }

  /** Two messages that differ at bytes i < j at most leave equal registers exactly when
      the difference at j is the difference at i shifted by the distance between them. */
  lemma RegisterCollision(x: seq<Octet>, y: seq<Octet>, i: nat, j: nat)
    requires i < j < |x| && AgreeBut(x, y, i, j)
    ensures Register(ONES, x, |x|) == Register(ONES, y, |y|)
            <==> Feed(Xor(x[i], y[i]), j - i) == Xor(x[j], y[j])
  {
    DifferenceAtSecond(x, y, i, j);
    DifferenceStep(ONES, x, y, j);
    LastDifference(x, y, j);
    var e, f := Feed(Xor(x[i], y[i]), j - i), Xor(x[j], y[j]);
    ShiftsZero(Xor(e, f), 8);
    XorZero(e, f);
  }

  /** The same for the checksum. */
  lemma TwoByteCollision(x: seq<Octet>, y: seq<Octet>, i: nat, j: nat)
    requires i < j < |x| && AgreeBut(x, y, i, j)
    ensures Checksum(x) == Checksum(y) <==> Feed(Xor(x[i], y[i]), j - i) == Xor(x[j], y[j])
  {
    RegisterCollision(x, y, i, j);
    XorCancels(Register(ONES, x, |x|), Register(ONES, y, |y|), ONES);
  }

  // ---- Bursts -----------------------------------------------------------------------

  /** All the bits in which x and y differ lie in the 8-bit window that starts at bit p of
      the whole message. */
  predicate DifferWithin(x: seq<Octet>, y: seq<Octet>, p: nat)
    requires |x| == |y|
  {
    forall i, k | 0 <= i < |x| && 0 <= k < 8 && !(p <= 8 * i + k < p + 8) :: x[i][k] == y[i][k]
  }

  /** x and y differ, and all the differing bits lie in some 8-bit window. */
  ghost predicate IsBurst(x: seq<Octet>, y: seq<Octet>) {
    |x| == |y| && x != y && exists p: nat :: DifferWithin(x, y, p)
  }

  /** The eight bits from bit s of d on, when d has no bit before s and e none from s on. */
  function WindowOf(d: Octet, e: Octet, s: nat): Octet
    requires s < 8
  {
    Xor(Left(d, s), Right(e, 8 - s))
  }

  lemma WindowNonzero(d: Octet, e: Octet, s: nat)
    requires s < 8 && (forall i | 0 <= i < s :: !d[i]) && (forall i | s <= i < 8 :: !e[i])
    requires WindowOf(d, e, s) == ZERO
    ensures d == ZERO && e == ZERO
  {
    var window := WindowOf(d, e, s);
    assert forall i | 0 <= i < 8 - s :: window[i] == d[i + s];
    assert forall i | 8 - s <= i < 8 :: window[i] == e[i + s - 8];
    assert forall i | s <= i < 8 :: d[i] == window[i - s];
    assert forall i | 0 <= i < s :: e[i] == window[i + 8 - s];
  }

  /** A window that is not all zero leaves a nonzero difference, wherever it starts: eight
      shifts after d the register meets e, and 8 - s shifts before that it is the window. */
  lemma WindowSurvives(d: Octet, e: Octet, s: nat)
    requires s < 8 && (forall i | 0 <= i < s :: !d[i]) && (forall i | s <= i < 8 :: !e[i])
    requires d != ZERO || e != ZERO
    ensures Shifts(d, 8) != e
  {
    var low := Right(e, 8 - s);
    PlainShifts(d, s);
    PlainShifts(low, 8 - s);
    assert Left(low, 8 - s) == e;
    ShiftsAdd(d, s, 8 - s);
    ShiftsLinear(Left(d, s), low, 8 - s);
    ShiftsZero(WindowOf(d, e, s), 8 - s);
    XorZero(Shifts(d, 8), e);
    if WindowOf(d, e, s) == ZERO {
      WindowNonzero(d, e, s);
    }
  }

  /** Shifting zeros out is a plain left shift. */
  lemma {:induction false} PlainShifts(a: Octet, n: nat)
    requires n <= 8 && forall i | 0 <= i < n :: !a[i]
    ensures Shifts(a, n) == Left(a, n)
    decreases n
  {
    if n == 0 {
      assert Left(a, 0) == a;
    } else {
      assert Shift(a) == Left(a, 1);
      assert Left(Left(a, 1), n - 1) == Left(a, n);
      PlainShifts(Shift(a), n - 1);
    }
  }

  lemma {:induction false} ShiftsAdd(a: Octet, m: nat, n: nat)
    ensures Shifts(a, m + n) == Shifts(Shifts(a, m), n)
    decreases m
  {
    if m > 0 {
      ShiftsAdd(Shift(a), m - 1, n);
    }
  }

  lemma BurstIsLocal(x: seq<Octet>, y: seq<Octet>, p: nat)
    requires |x| == |y| && x != y && DifferWithin(x, y, p)
    ensures p / 8 < |x| && AgreeBut(x, y, p / 8, p / 8 + 1)
  {
    forall k | 0 <= k < |x| && k != p / 8 && k != p / 8 + 1 ensures x[k] == y[k] {
      forall b | 0 <= b < 8 ensures x[k][b] == y[k][b] {
        assert !(p <= 8 * k + b < p + 8);
      }
      assert x[k] == y[k];
    }
  }

  lemma BurstWindow(x: seq<Octet>, y: seq<Octet>, p: nat, i: nat, j: nat)
    requires |x| == |y| && DifferWithin(x, y, p) && i == p / 8 && j == i + 1 < |x|
    ensures forall k | 0 <= k < p % 8 :: !Xor(x[i], y[i])[k]
    ensures forall k | p % 8 <= k < 8 :: !Xor(x[j], y[j])[k]
  {
    forall k | 0 <= k < p % 8 ensures !Xor(x[i], y[i])[k] {
      assert !(p <= 8 * i + k < p + 8);
    }
    forall k | p % 8 <= k < 8 ensures !Xor(x[j], y[j])[k] {
      assert !(p <= 8 * j + k < p + 8);
    }
  }

  /** The checksum detects every error burst of at most 8 bits, in a message of any length
      and across any byte boundary. */
  lemma BurstDetected(x: seq<Octet>, y: seq<Octet>)
    requires IsBurst(x, y)
    ensures Checksum(x) != Checksum(y)
  {
    var p: nat :| DifferWithin(x, y, p);
    BurstIsLocal(x, y, p);
    var i := p / 8;
    if i + 1 < |x| {
      BurstWindow(x, y, p, i, i + 1);
      TwoByteCollision(x, y, i, i + 1);
      assert Feed(Xor(x[i], y[i]), 1) == Shifts(Xor(x[i], y[i]), 8);
      XorZero(x[i], y[i]);
      XorZero(x[i + 1], y[i + 1]);
      WindowSurvives(Xor(x[i], y[i]), Xor(x[i + 1], y[i + 1]), p % 8);
    } else {
      OneByteDetected(x, y, i);
    }
  }

  /** Changing exactly one byte always changes the checksum. */
  lemma OneByteDetected(x: seq<Octet>, y: seq<Octet>, i: nat)
    requires i < |x| == |y| && AgreeBut(x, y, i, i) && x[i] != y[i]
    ensures Checksum(x) != Checksum(y)
  {
    FirstDifference(x, y, i);
    LastDifference(x, y, i);
    XorZero(x[i], y[i]);
    ShiftsZero(Xor(x[i], y[i]), 8);
    XorCancels(Register(ONES, x, |x|), Register(ONES, y, |y|), ONES);
  }
}
