/** What the CRC-8 of E2E profile 1 computes (source/runtime/inc/E2EProtection.hpp): a remainder
  of polynomials over GF(2), found by long division. */
module CrcDivision {
  import opened Octets
  import opened Crc8

  /** x^8 + x^4 + x^3 + x^2 + 1, which is 0x1D behind its leading one. */
  const DIVISOR: seq<bool> := [true, false, false, false, true, true, true, false, true]

  /** The bits of a message, the most significant bit of each byte first. */
  function BitsOf(m: seq<Octet>): seq<bool> {
    if m == [] then [] else m[0] + BitsOf(m[1..])
  }

  /** One line of a long division: subtract the divisor if the leading bit is set, and drop that
      bit. */
  function DivisionStep(bits: seq<bool>): (r: seq<bool>)
    requires |bits| > 8
    ensures |r| == |bits| - 1
  {
    seq(|bits| - 1, i requires 0 <= i < |bits| - 1 => bits[i + 1] != (bits[0] && i < 8 && DIVISOR[i + 1]))
  }

  function Remainder(bits: seq<bool>): (r: Octet)
    requires |bits| >= 8
    decreases |bits|
  {
    if |bits| == 8 then bits else Remainder(DivisionStep(bits))
  }

  /** The bits in the low end of a byte. */
  function Pad(bits: seq<bool>): Octet
    requires |bits| <= 8
  {
    seq(8, i requires 0 <= i < 8 => i >= 8 - |bits| && bits[i - (8 - |bits|)])
  }

  lemma StepIsShift(w: Octet, bits: seq<bool>, rest: seq<bool>)
    requires 0 < |bits| <= 8
    ensures DivisionStep(w + bits + rest) == Xor(Shift(w), Pad([bits[0]])) + bits[1..] + rest
  {
    var all, next := w + bits + rest, Xor(Shift(w), Pad([bits[0]])) + bits[1..] + rest;
    assert |DivisionStep(all)| == |next|;
    forall i | 0 <= i < |next| ensures DivisionStep(all)[i] == next[i] {
      if i < 8 {
        assert DIVISOR[i + 1] == POLYNOMIAL[i];
        assert next[i] == Xor(Shift(w), Pad([bits[0]]))[i];
      } else {
        assert all[i + 1] == next[i];
      }
    }
  }

  lemma ShiftedPad(bit: bool, n: nat)
    requires n <= 7
    ensures forall i | 0 <= i < 8 :: Shifts(Pad([bit]), n)[i] == (i == 7 - n && bit)
  {
    PlainShifts(Pad([bit]), n);
  }

  lemma PadBit(bit: bool, tail: seq<bool>, i: nat)
    requires |tail| <= 7 && i < 8
    ensures Pad([bit] + tail)[i] == if i == 7 - |tail| then bit else Pad(tail)[i]
    ensures i <= 7 - |tail| ==> !Pad(tail)[i]
  {
    if i >= 8 - |tail| {
      assert ([bit] + tail)[i - (7 - |tail|)] == tail[i - (8 - |tail|)];
    }
  }

  lemma PadParts(bit: bool, tail: seq<bool>)
    requires |tail| <= 7
    ensures Xor(Shifts(Pad([bit]), |tail|), Pad(tail)) == Pad([bit] + tail)
  {
    ShiftedPad(bit, |tail|);
    var x, y := Xor(Shifts(Pad([bit]), |tail|), Pad(tail)), Pad([bit] + tail);
    forall i | 0 <= i < 8 ensures x[i] == y[i] {
      PadBit(bit, tail, i);
    }
    assert x == y;
  }

  lemma XorAssociates(a: Octet, b: Octet, c: Octet)
    ensures Xor(Xor(a, b), c) == Xor(a, Xor(b, c))
  {
  }

  /** As many lines of the division as there are bits carry the window over them. */
  lemma {:induction false} StepsCarryWindow(w: Octet, bits: seq<bool>, rest: seq<bool>)
    requires |bits| <= 8
    ensures Remainder(w + bits + rest) == Remainder(Xor(Shifts(w, |bits|), Pad(bits)) + rest)
    decreases |bits|
  {
    if bits == [] {
      assert Xor(w, Pad([])) == w && w + [] + rest == w + rest;
    } else {
      var n, u := |bits| - 1, Pad([bits[0]]);
      var next := Xor(Shift(w), u);
      StepIsShift(w, bits, rest);
      StepsCarryWindow(next, bits[1..], rest);
      ShiftsLinear(Shift(w), u, n);
      XorAssociates(Shifts(Shift(w), n), Shifts(u, n), Pad(bits[1..]));
      assert [bits[0]] + bits[1..] == bits;
      PadParts(bits[0], bits[1..]);
    }
  }

  /** The next byte of the message comes into the window. */
  lemma ByteCarriesWindow(w: Octet, b: Octet, rest: seq<bool>)
    ensures Remainder(w + b + rest) == Remainder(Xor(Shifts(w, 8), b) + rest)
  {
    StepsCarryWindow(w, b, rest);
    assert Pad(b) == b;
  }

  lemma {:induction false} RegisterFollowsDivision(c: Octet, m: seq<Octet>, k: nat)
    requires k < |m|
    ensures Remainder(Xor(Register(c, m, k), m[k]) + BitsOf(m[k + 1..]) + ZERO) == Register(c, m, |m|)
    decreases |m| - k
  {
    var w := Xor(Register(c, m, k), m[k]);
    assert Register(c, m, k + 1) == Shifts(w, 8);
    if k + 1 == |m| {
      LastByte(w);
      assert w + BitsOf(m[k + 1..]) + ZERO == w + ZERO;
    } else {
      var rest := BitsOf(m[k + 2..]) + ZERO;
      assert m[k + 1..][1..] == m[k + 2..];
      assert w + BitsOf(m[k + 1..]) + ZERO == w + m[k + 1] + rest;
      ByteCarriesWindow(w, m[k + 1], rest);
      RegisterFollowsDivision(c, m, k + 1);
      assert Xor(Shifts(w, 8), m[k + 1]) + rest == Xor(Shifts(w, 8), m[k + 1]) + BitsOf(m[k + 2..]) + ZERO;
    }
  }

  lemma LastByte(w: Octet)
    ensures Remainder(w + ZERO) == Shifts(w, 8)
  {
    ByteCarriesWindow(w, ZERO, []);
    assert w + ZERO + [] == w + ZERO;
    assert Xor(Shifts(w, 8), ZERO) + [] == Shifts(w, 8);
  }

  lemma RemainderFromFirst(c: Octet, m: seq<Octet>, first: Octet)
    requires m != [] && first == Xor(c, m[0])
    ensures Remainder(first + BitsOf(m[1..]) + ZERO) == Register(c, m, |m|)
  {
    RegisterFollowsDivision(c, m, 0);
  }

  /** Started at zero, the register is the remainder of the message times x^8. */
  lemma RegisterIsRemainder(m: seq<Octet>)
    ensures Register(ZERO, m, |m|) == Remainder(BitsOf(m) + ZERO)
  {
    if m == [] {
      assert BitsOf(m) + ZERO == ZERO;
    } else {
      XorIdentity(m[0]);
      RemainderFromFirst(ZERO, m, m[0]);
    }
  }

  lemma XorWithOnes(x: Octet)
    ensures Xor(ONES, x) == Not(x) && Xor(x, ONES) == Not(x)
  {
  }

  /** The checksum: the first byte is inverted by the start value 0xFF, and the remainder by the
      final XOR with 0xFF. */
  lemma ChecksumIsRemainder(m: seq<Octet>)
    requires m != []
    ensures Checksum(m) == Not(Remainder(Not(m[0]) + BitsOf(m[1..]) + ZERO))
  {
    XorWithOnes(m[0]);
    RemainderFromFirst(ONES, m, Not(m[0]));
    XorWithOnes(Register(ONES, m, |m|));
  }

  // ---- A check value --------------------------------------------------------------------------------

  function Bit(n: nat, i: nat): bool
    requires i < 8
  {
    n / [128, 64, 32, 16, 8, 4, 2, 1][i] % 2 == 1
  }

  function OctetOf(n: nat): Octet {
    seq(8, i requires 0 <= i < 8 => Bit(n, i))
  }

  /** What a shift does to each bit of a number. */
  predicate ShiftsTo(a: nat, b: nat) {
    && Bit(b, 0) == Bit(a, 1) && Bit(b, 1) == Bit(a, 2) && Bit(b, 2) == Bit(a, 3)
    && Bit(b, 3) == (Bit(a, 4) != Bit(a, 0)) && Bit(b, 4) == (Bit(a, 5) != Bit(a, 0))
    && Bit(b, 5) == (Bit(a, 6) != Bit(a, 0)) && Bit(b, 6) == Bit(a, 7) && Bit(b, 7) == Bit(a, 0)
  }

  lemma StepTo(a: nat, b: nat, n: nat)
    requires n > 0 && ShiftsTo(a, b)
    ensures Shifts(OctetOf(a), n) == Shifts(OctetOf(b), n - 1)
  {
    var s, t := Shift(OctetOf(a)), OctetOf(b);
    assert forall i | 0 <= i < 8 :: s[i] == t[i];
    assert s == t;
  }

  lemma FirstZeroByteBegins()
    ensures Shifts(OctetOf(0xFF), 8) == Shifts(OctetOf(0x4B), 4)
  {
    StepTo(0xFF, 0xE3, 8);
    StepTo(0xE3, 0xDB, 7);
    StepTo(0xDB, 0xAB, 6);
    StepTo(0xAB, 0x4B, 5);
  }

  lemma FirstZeroByteEnds()
    ensures Shifts(OctetOf(0x4B), 4) == OctetOf(0xC4)
  {
    StepTo(0x4B, 0x96, 4);
    StepTo(0x96, 0x31, 3);
    StepTo(0x31, 0x62, 2);
    StepTo(0x62, 0xC4, 1);
  }

  lemma SecondZeroByteBegins()
    ensures Shifts(OctetOf(0xC4), 8) == Shifts(OctetOf(0xDC), 4)
  {
    StepTo(0xC4, 0x95, 8);
    StepTo(0x95, 0x37, 7);
    StepTo(0x37, 0x6E, 6);
    StepTo(0x6E, 0xDC, 5);
  }

  lemma SecondZeroByteEnds()
    ensures Shifts(OctetOf(0xDC), 4) == OctetOf(0x41)
  {
    StepTo(0xDC, 0xA5, 4);
    StepTo(0xA5, 0x57, 3);
    StepTo(0x57, 0xAE, 2);
    StepTo(0xAE, 0x41, 1);
  }

  lemma ThirdZeroByteBegins()
    ensures Shifts(OctetOf(0x41), 8) == Shifts(OctetOf(0x64), 4)
  {
    StepTo(0x41, 0x82, 8);
    StepTo(0x82, 0x19, 7);
    StepTo(0x19, 0x32, 6);
    StepTo(0x32, 0x64, 5);
  }

  lemma ThirdZeroByteEnds()
    ensures Shifts(OctetOf(0x64), 4) == OctetOf(0x0E)
  {
    StepTo(0x64, 0xC8, 4);
    StepTo(0xC8, 0x8D, 3);
    StepTo(0x8D, 0x07, 2);
    StepTo(0x07, 0x0E, 1);
  }

  lemma FourthZeroByteBegins()
    ensures Shifts(OctetOf(0x0E), 8) == Shifts(OctetOf(0xE0), 4)
  {
    StepTo(0x0E, 0x1C, 8);
    StepTo(0x1C, 0x38, 7);
    StepTo(0x38, 0x70, 6);
    StepTo(0x70, 0xE0, 5);
  }

  lemma FourthZeroByteEnds()
    ensures Shifts(OctetOf(0xE0), 4) == OctetOf(0xA6)
  {
    StepTo(0xE0, 0xDD, 4);
    StepTo(0xDD, 0xA7, 3);
    StepTo(0xA7, 0x53, 2);
    StepTo(0x53, 0xA6, 1);
  }

  lemma RegisterOfZero(m: seq<Octet>, k: nat, a: Octet, b: Octet)
    requires k < |m| && m[k] == ZERO && Register(ONES, m, k) == a && Shifts(a, 8) == b
    ensures Register(ONES, m, k + 1) == b
  {
    assert Xor(a, ZERO) == a;
  }

  lemma OnesIs()
    ensures OctetOf(0xFF) == ONES && Xor(OctetOf(0xA6), ONES) == OctetOf(0x59)
  {
  }

  lemma TwoZeros(m: seq<Octet>)
    requires |m| >= 2 && m[0] == ZERO && m[1] == ZERO
    ensures Register(ONES, m, 2) == OctetOf(0x41)
  {
    OnesIs();
    FirstZeroByteBegins();
    FirstZeroByteEnds();
    RegisterOfZero(m, 0, OctetOf(0xFF), OctetOf(0xC4));
    SecondZeroByteBegins();
    SecondZeroByteEnds();
    RegisterOfZero(m, 1, OctetOf(0xC4), OctetOf(0x41));
  }

  /** The CRC of four zero bytes is 0x59. */
  lemma ChecksumOfFourZeros(m: seq<Octet>)
    requires m == [ZERO, ZERO, ZERO, ZERO]
    ensures Checksum(m) == OctetOf(0x59)
  {
    TwoZeros(m);
    ThirdZeroByteBegins();
    ThirdZeroByteEnds();
    RegisterOfZero(m, 2, OctetOf(0x41), OctetOf(0x0E));
    FourthZeroByteBegins();
    FourthZeroByteEnds();
    RegisterOfZero(m, 3, OctetOf(0x0E), OctetOf(0xA6));
    OnesIs();
  }
}
