/** The protector and the checker of E2E profile 1 (source/runtime/inc/E2EProtection.hpp). */
module E2EProfile1 {
  import opened Common
  import opened Octets
  import opened Crc8

  /** `dataIdHigh` and `dataIdLow` are the two bytes of the 16-bit data id. */
  datatype Config = Config(
    dataIdHigh: Octet,
    dataIdLow: Octet,
    maxDeltaCounter: nat,
    counterOffset: nat,
    crcOffset: nat,
    dataLength: nat)
  {
    /** The other fields are unsigned integers of 32, 8, 8 and 16 bits. */
    predicate Valid() {
      maxDeltaCounter < TWO_TO_32 && counterOffset < 256 && crcOffset < 256
      && dataLength < 0x1_0000
    }

    function CounterByte(): nat { counterOffset / 8 }
    function CounterBit(): nat { counterOffset % 8 }
    function CrcByte(): nat { crcOffset / 8 }
  }

  datatype Outcome = Done | InvalidArgument

  datatype E2EResult = Ok | NotAvailable | NoNewData | Repeated | WrongSequence | Error
  datatype CheckStatus = CheckStatus(result: E2EResult, counter: nat)

  // ---- What is stamped, and what is read back ---------------------------------------

  /** The bytes the CRC covers: data id (low byte first), counter, payload. */
  function Message(cfg: Config, counter: Octet, data: seq<Octet>): seq<Octet>
    requires cfg.Valid()
  {
    [cfg.dataIdLow, cfg.dataIdHigh, counter] + data
  }

  function CrcOf(cfg: Config, counter: Octet, data: seq<Octet>): Octet
    requires cfg.Valid()
  {
    Checksum(Message(cfg, counter, data))
  }

  function NibbleInto(o: Octet, nibble: Octet, at: nat): Octet {
    Or(And(o, Not(Left(NIBBLE, at))), Left(And(nibble, NIBBLE), at))
  }

  function PutCounter(cfg: Config, data: seq<Octet>, counter: Octet): (r: seq<Octet>)
    ensures |r| == |data|
  {
    var i := cfg.CounterByte();
    if i < |data| then
      data[i := NibbleInto(data[i], counter, cfg.CounterBit())]
    else data
  }

  function PutCrc(cfg: Config, data: seq<Octet>, crc: Octet): (r: seq<Octet>)
    ensures |r| == |data|
  {
    if cfg.CrcByte() < |data| then data[cfg.CrcByte() := crc] else data
  }

  /** The buffer after a successful Protect: the CRC it carries is that of the buffer before
      the two writes. */
  function Stamped(cfg: Config, data: seq<Octet>, counter: Octet): (r: seq<Octet>)
    requires cfg.Valid()
    ensures |r| == |data|
  {
    PutCrc(cfg, PutCounter(cfg, data, counter), CrcOf(cfg, counter, data))
  }

  lemma StampedIs(cfg: Config, data: seq<Octet>, counter: Octet, crc: Octet, after: seq<Octet>)
    requires cfg.Valid() && crc == CrcOf(cfg, counter, data)
    requires after == PutCrc(cfg, PutCounter(cfg, data, counter), crc)
    ensures after == Stamped(cfg, data, counter)
  {
  }

  function GetCounter(cfg: Config, data: seq<Octet>): Octet {
    if cfg.CounterByte() < |data| then And(Right(data[cfg.CounterByte()], cfg.CounterBit()), NIBBLE) else ZERO
  }

  function GetCrc(cfg: Config, data: seq<Octet>): Octet {
    if cfg.CrcByte() < |data| then data[cfg.CrcByte()] else ZERO
  }

  /** The length test and the CRC test of Check. */
  predicate CrcHolds(cfg: Config, data: seq<Octet>)
    requires cfg.Valid()
  {
    |data| * 8 == cfg.dataLength && GetCrc(cfg, data) == CrcOf(cfg, GetCounter(cfg, data), data)
  }

  method CalculateCRC8(cfg: Config, data: array<Octet>, counter: Octet) returns (crc: Octet)
    requires cfg.Valid()
    ensures crc == CrcOf(cfg, counter, data[..])
  {
    ghost var m := Message(cfg, counter, data[..]);
    crc := ONES;
    crc := Crc8Update(crc, cfg.dataIdLow);
    assert crc == Register(ONES, m, 1);
    crc := Crc8Update(crc, cfg.dataIdHigh);
    assert crc == Register(ONES, m, 2);
    crc := Crc8Update(crc, counter);
    for i := 0 to data.Length
      invariant crc == Register(ONES, m, i + 3)
    {
      assert m[i + 3] == data[i];
      crc := Crc8Update(crc, data[i]);
    }
    crc := Xor(crc, ONES);
  }

  lemma NextStamp(n: nat, counter: nat)
    requires counter == n % 15
    ensures (counter + 1) % 15 == (n + 1) % 15
  {
  }

  class Protector {
    const config: Config
    var counter: nat
    ghost var protected: nat  // the successful calls of Protect so far

    ghost predicate Valid()
      reads this
    {
      config.Valid() && counter == protected % 15
    }

    constructor (config: Config)
      requires config.Valid()
      ensures Valid() && this.config == config && counter == 0 && protected == 0
    {
      this.config := config;
      counter := 0;
      protected := 0;
    }

    /** The n-th successful call stamps n mod 15. */
    method Protect(data: array<Octet>) returns (r: Outcome)
      requires Valid()
      modifies this, data
      ensures Valid()
      ensures r.Done? <==> data.Length * 8 == config.dataLength
      ensures r.Done? ==> protected == old(protected) + 1
      ensures r.Done? ==> data[..] == Stamped(config, old(data[..]), NibbleOf(counter))
      ensures !r.Done? ==> protected == old(protected) && data[..] == old(data[..])
    {
      if data.Length * 8 != config.dataLength {
        return InvalidArgument;
      }
      NextStamp(protected, counter);
      counter := (counter + 1) % 15;
      protected := protected + 1;
      Stamp(data, NibbleOf(counter));
      return Done;
    }

    /** Calculate the CRC, then write counter and CRC at their places. */
    method Stamp(data: array<Octet>, c: Octet)
      requires config.Valid()
      modifies data
      ensures data[..] == Stamped(config, old(data[..]), c)
    {
      ghost var before := data[..];
      var crc := CalculateCRC8(config, data, c);
      WriteCounter(data, c);
      WriteCRC(data, crc);
      StampedIs(config, before, c, crc, data[..]);
    }

    method WriteCounter(data: array<Octet>, counter: Octet)
      modifies data
      ensures data[..] == PutCounter(config, old(data[..]), counter)
    {
      var byteOffset, bitOffset := config.counterOffset / 8, config.counterOffset % 8;
      if byteOffset < data.Length {
        data[byteOffset] :=
          Or(And(data[byteOffset], Not(Left(NIBBLE, bitOffset))), Left(And(counter, NIBBLE), bitOffset));
      }
    }

    method WriteCRC(data: array<Octet>, crc: Octet)
      modifies data
      ensures data[..] == PutCrc(config, old(data[..]), crc)
    {
      var byteOffset := config.crcOffset / 8;
      if byteOffset < data.Length {
        data[byteOffset] := crc;
      }
    }
  }

  // ---- The sequence check -----------------------------------------------------------

  /** The branches of Check once the CRC holds. */
  function Verdict(cfg: Config, last: nat, counter: nat): E2EResult
    requires last < 16 && counter < 16
  {
    if counter == last then Repeated
    else if counter != (last + 1) % 15 then
      var delta := if counter >= last then counter - last else 15 - last + counter;
      if delta > cfg.maxDeltaCounter then WrongSequence else Ok
    else Ok
  }

  /** What Check finds in a frame before it looks at the sequence. */
  datatype View = BadLength | BadCrc(counter: nat) | Intact(counter: nat)

  function ViewOf(cfg: Config, data: seq<Octet>): (v: View)
    requires cfg.Valid()
    ensures !v.BadLength? ==> v.counter < 16
    ensures v.Intact? <==> CrcHolds(cfg, data)
  {
    if |data| * 8 != cfg.dataLength then BadLength
    else if CrcHolds(cfg, data) then Intact(LowNibble(GetCounter(cfg, data)))
    else BadCrc(LowNibble(GetCounter(cfg, data)))
  }

  function Checked(cfg: Config, last: nat, v: View): CheckStatus
    requires last < 16 && (v.Intact? ==> v.counter < 16)
  {
    match v
    case BadLength => CheckStatus(Error, 0)
    case BadCrc(counter) => CheckStatus(Error, counter)
    case Intact(counter) => CheckStatus(Verdict(cfg, last, counter), counter)
  }

  function LastAfter(last: nat, v: View): nat {
    if v.Intact? then v.counter else last
  }

  lemma ViewIs(cfg: Config, data: seq<Octet>, counter: Octet, received: Octet, expected: Octet)
    requires cfg.Valid() && |data| * 8 == cfg.dataLength && counter == GetCounter(cfg, data)
    requires received == GetCrc(cfg, data) && expected == CrcOf(cfg, counter, data)
    ensures ViewOf(cfg, data) == if received == expected then Intact(LowNibble(counter)) else BadCrc(LowNibble(counter))
  {
  }

  class Checker {
    const config: Config
    var lastCounter: nat
    var lastStatus: CheckStatus

    ghost predicate Valid()
      reads this
    {
      config.Valid() && lastCounter < 16
    }

    constructor (config: Config)
      requires config.Valid()
      ensures Valid() && this.config == config && lastCounter == 0 && lastStatus == CheckStatus(NoNewData, 0)
    {
      this.config := config;
      lastCounter := 0;
      lastStatus := CheckStatus(NoNewData, 0);
    }

    method Check(data: array<Octet>) returns (status: CheckStatus)
      requires Valid()
      modifies this
      ensures Valid() && status == lastStatus
      ensures status == Checked(config, old(lastCounter), ViewOf(config, data[..]))
      ensures lastCounter == LastAfter(old(lastCounter), ViewOf(config, data[..]))
    {
      var view := Inspect(data);
      status := Judge(view);
    }

    /** The branches on the length, the CRC and the sequence. */
    method Judge(view: View) returns (status: CheckStatus)
      requires Valid() && (view.Intact? ==> view.counter < 16)
      modifies this
      ensures Valid() && status == lastStatus
      ensures status == Checked(config, old(lastCounter), view)
      ensures lastCounter == LastAfter(old(lastCounter), view)
    {
      if view.BadLength? {
        lastStatus := CheckStatus(Error, 0);
        return lastStatus;
      }
      var counter := view.counter;
      if view.BadCrc? {
        lastStatus := CheckStatus(Error, counter);
        return lastStatus;
      }
      var expectedCounter := (lastCounter + 1) % 15;
      if counter == lastCounter {
        lastStatus := CheckStatus(Repeated, counter);
      } else if counter != expectedCounter {
        var delta := if counter >= lastCounter then counter - lastCounter else 15 - lastCounter + counter;
        if delta > config.maxDeltaCounter {
          lastStatus := CheckStatus(WrongSequence, counter);
        } else {
          lastStatus := CheckStatus(Ok, counter);
        }
      } else {
        lastStatus := CheckStatus(Ok, counter);
      }
      lastCounter := counter;
      return lastStatus;
    }

    /** Test the length, extract the counter and compare the two CRCs. */
    method Inspect(data: array<Octet>) returns (view: View)
      requires config.Valid()
      ensures view == ViewOf(config, data[..])
    {
      if data.Length * 8 != config.dataLength {
        return BadLength;
      }
      var counter := ReadCounter(data);
      var receivedCrc := ReadCRC(data);
      var expectedCrc := CalculateCRC8(config, data, counter);
      ViewIs(config, data[..], counter, receivedCrc, expectedCrc);
      view := if receivedCrc != expectedCrc then BadCrc(LowNibble(counter)) else Intact(LowNibble(counter));
    }

    method ReadCounter(data: array<Octet>) returns (counter: Octet)
      ensures counter == GetCounter(config, data[..])
    {
      var byteOffset, bitOffset := config.counterOffset / 8, config.counterOffset % 8;
      counter := ZERO;
      if byteOffset < data.Length {
        counter := And(Right(data[byteOffset], bitOffset), NIBBLE);
      }
    }

    method ReadCRC(data: array<Octet>) returns (crc: Octet)
      ensures crc == GetCrc(config, data[..])
    {
      var byteOffset := config.crcOffset / 8;
      crc := ZERO;
      if byteOffset < data.Length {
        crc := data[byteOffset];
      }
    }
  }

  // ---- Corruption -------------------------------------------------------------------

  lemma PayloadBurst(cfg: Config, counter: Octet, x: seq<Octet>, y: seq<Octet>)
    requires cfg.Valid() && IsBurst(x, y)
    ensures IsBurst(Message(cfg, counter, x), Message(cfg, counter, y))
  {
    var p: nat :| DifferWithin(x, y, p);
    var m, n := Message(cfg, counter, x), Message(cfg, counter, y);
    assert m[3..] == x && n[3..] == y;
    forall i, k | 0 <= i < |m| && 0 <= k < 8 && !(p + 24 <= 8 * i + k < p + 24 + 8)
      ensures m[i][k] == n[i][k]
    {
      if i >= 3 {
        assert !(p <= 8 * (i - 3) + k < p + 8);
        assert x[i - 3][k] == y[i - 3][k];
      }
    }
    assert DifferWithin(m, n, p + 24);
  }

  /** After a frame whose CRC holds is hit by a burst of at most 8 bits that leaves the
      counter and the CRC read from it unchanged, Check reports an error and keeps its last
      counter. */
  lemma BurstIsReported(cfg: Config, last: nat, x: seq<Octet>, y: seq<Octet>)
    requires cfg.Valid() && last < 16
    requires CrcHolds(cfg, x) && IsBurst(x, y)
    requires GetCounter(cfg, y) == GetCounter(cfg, x) && GetCrc(cfg, y) == GetCrc(cfg, x)
    ensures Checked(cfg, last, ViewOf(cfg, y)).result == Error && LastAfter(last, ViewOf(cfg, y)) == last
  {
    PayloadBurst(cfg, GetCounter(cfg, x), x, y);
    BurstDetected(Message(cfg, GetCounter(cfg, x), x), Message(cfg, GetCounter(cfg, x), y));
  }

  // ---- A just-protected buffer --------------------------------------------------------

  /** The counter nibble lies in one byte of the buffer, the CRC in another one. */
  predicate Placed(cfg: Config, n: nat) {
    cfg.CounterBit() <= 4 && cfg.CounterByte() < n && cfg.CrcByte() < n && cfg.CounterByte() != cfg.CrcByte()
  }

  lemma NibbleRoundTrip(o: Octet, c: Octet, at: nat)
    requires at <= 4 && IsNibble(c)
    ensures And(Right(NibbleInto(o, c, at), at), NIBBLE) == c
  {
    var r := And(Right(NibbleInto(o, c, at), at), NIBBLE);
    forall i | 0 <= i < 8 ensures r[i] == c[i] {
      if i >= 4 {
        assert Left(NIBBLE, at)[i - at] && Left(And(c, NIBBLE), at)[i - at] == c[i];
      }
    }
  }

  lemma StampedReadsBack(cfg: Config, data: seq<Octet>, c: Octet)
    requires cfg.Valid() && Placed(cfg, |data|) && IsNibble(c)
    ensures var s := Stamped(cfg, data, c);
            && GetCounter(cfg, s) == c && GetCrc(cfg, s) == CrcOf(cfg, c, data)
            && AgreeBut(data, s, cfg.CounterByte(), cfg.CrcByte())
  {
    NibbleRoundTrip(data[cfg.CounterByte()], c, cfg.CounterBit());
  }

  /** What is read from any buffer: the four bits above bit offset counterOffset of its byte, as far
      as the byte reaches, and the CRC byte; zero where the buffer is too short. */
  lemma ReadBits(cfg: Config, data: seq<Octet>, i: nat)
    requires cfg.Valid() && i < 8
    ensures var j, at := cfg.counterOffset / 8, cfg.counterOffset % 8;
            GetCounter(cfg, data)[i] == (i >= 4 && i >= at && j < |data| && data[j][i - at])
    ensures var j := cfg.crcOffset / 8; GetCrc(cfg, data)[i] == (j < |data| && data[j][i])
  {
  }

  /** The buffer after Protect, bit by bit, wherever counter and CRC are placed: the four bits of
      the counter from bit offset counterOffset on (counted from the low end of its byte, and cut
      at the end of the byte), the CRC byte, which wins, and every other bit as it was. */
  lemma StampedBits(cfg: Config, data: seq<Octet>, c: Octet, j: nat, i: nat)
    requires cfg.Valid() && j < |data| && i < 8 && IsNibble(c)
    ensures Stamped(cfg, data, c)[j][i] ==
            if j == cfg.crcOffset / 8 then CrcOf(cfg, c, data)[i]
            else if j == cfg.counterOffset / 8 && i + cfg.counterOffset % 8 in {4, 5, 6, 7}
            then c[i + cfg.counterOffset % 8]
            else data[j][i]
  {
    if j == cfg.counterOffset / 8 {
      NibbleBit(data[j], c, cfg.counterOffset % 8, i);
    }
    var counted := PutCounter(cfg, data, c);
    assert counted[j] == if j == cfg.counterOffset / 8 then NibbleInto(data[j], c, cfg.counterOffset % 8) else data[j];
    StampedByte(cfg, data, c, j);
  }

  lemma StampedByte(cfg: Config, data: seq<Octet>, c: Octet, j: nat)
    requires cfg.Valid() && j < |data|
    ensures Stamped(cfg, data, c)[j] ==
            if j == cfg.crcOffset / 8 then CrcOf(cfg, c, data) else PutCounter(cfg, data, c)[j]
  {
  }

  lemma NibbleBit(o: Octet, c: Octet, at: nat, i: nat)
    requires at < 8 && i < 8
    ensures NibbleInto(o, c, at)[i] == if i + at in {4, 5, 6, 7} then c[i + at] else o[i]
  {
    assert Left(NIBBLE, at)[i] == (i + at in {4, 5, 6, 7});
    assert Left(And(c, NIBBLE), at)[i] == (i + at in {4, 5, 6, 7} && c[i + at]);
  }

  /** Protect computes the CRC before it writes the counter and the CRC into the buffer, and
      Check computes it afterwards: Check's CRC test passes exactly when the two writes leave
      the CRC of the buffer as it was. */
  lemma JustProtected(cfg: Config, data: seq<Octet>, c: Octet)
    requires cfg.Valid() && Placed(cfg, |data|) && |data| * 8 == cfg.dataLength && IsNibble(c)
    ensures CrcHolds(cfg, Stamped(cfg, data, c)) <==> CrcOf(cfg, c, data) == CrcOf(cfg, c, Stamped(cfg, data, c))
  {
    StampedReadsBack(cfg, data, c);
  }

  /** What the two writes change in the byte that comes first, carried by the CRC to the byte
      that comes second, is what they change there. */
  predicate ChangesCancel(cfg: Config, x: seq<Octet>, y: seq<Octet>)
    requires cfg.Valid() && Placed(cfg, |x|) && |x| == |y|
  {
    var i, j := cfg.CounterByte(), cfg.CrcByte();
    if i < j then Feed(Xor(x[i], y[i]), j - i) == Xor(x[j], y[j])
    else Feed(Xor(x[j], y[j]), i - j) == Xor(x[i], y[i])
  }

  lemma PayloadCollision(cfg: Config, c: Octet, x: seq<Octet>, y: seq<Octet>, i: nat, j: nat)
    requires cfg.Valid() && i < j < |x| && AgreeBut(x, y, i, j)
    ensures CrcOf(cfg, c, x) == CrcOf(cfg, c, y) <==> Feed(Xor(x[i], y[i]), j - i) == Xor(x[j], y[j])
  {
    var m, n := Message(cfg, c, x), Message(cfg, c, y);
    forall k | 0 <= k < |m| && k != i + 3 && k != j + 3 ensures m[k] == n[k] {
      if k >= 3 {
        assert m[k] == x[k - 3] && n[k] == y[k - 3];
      }
    }
    TwoByteCollision(m, n, i + 3, j + 3);
  }

  /** The exact condition under which Check accepts the CRC of a just-protected buffer, as a
      relation between the two written bytes before and after. */
  lemma SelfAcceptance(cfg: Config, data: seq<Octet>, c: Octet)
    requires cfg.Valid() && Placed(cfg, |data|) && |data| * 8 == cfg.dataLength && IsNibble(c)
    ensures CrcHolds(cfg, Stamped(cfg, data, c)) <==> ChangesCancel(cfg, data, Stamped(cfg, data, c))
  {
    JustProtected(cfg, data, c);
    StampedReadsBack(cfg, data, c);
    var i, j := cfg.CounterByte(), cfg.CrcByte();
    PayloadCollision(cfg, c, data, Stamped(cfg, data, c), if i < j then i else j, if i < j then j else i);
  }

  lemma OneChange(a: Octet, b: Octet, k: nat)
    ensures a == ZERO && b == ZERO ==> Feed(a, k) == b
    ensures (a == ZERO) != (b == ZERO) ==> Feed(a, k) != b
  {
    FeedZero(a, k);
  }

  /** If the two writes change nothing, Check accepts the CRC; if they change exactly one
      byte, it reports an error. */
  lemma OneChangedByte(cfg: Config, data: seq<Octet>, c: Octet)
    requires cfg.Valid() && Placed(cfg, |data|) && |data| * 8 == cfg.dataLength && IsNibble(c)
    ensures var s := Stamped(cfg, data, c);
            && (s == data ==> CrcHolds(cfg, s))
            && ((s[cfg.CounterByte()] == data[cfg.CounterByte()]) != (s[cfg.CrcByte()] == data[cfg.CrcByte()])
                ==> !CrcHolds(cfg, s))
  {
    SelfAcceptance(cfg, data, c);
    StampedReadsBack(cfg, data, c);
    OneChangeNeverCancels(cfg, data, Stamped(cfg, data, c));
  }

  lemma OneChangeNeverCancels(cfg: Config, x: seq<Octet>, y: seq<Octet>)
    requires cfg.Valid() && Placed(cfg, |x|) && |x| == |y|
    ensures x == y ==> ChangesCancel(cfg, x, y)
    ensures (x[cfg.CounterByte()] == y[cfg.CounterByte()]) != (x[cfg.CrcByte()] == y[cfg.CrcByte()])
            ==> !ChangesCancel(cfg, x, y)
  {
    var i, j := cfg.CounterByte(), cfg.CrcByte();
    XorZero(x[i], y[i]);
    XorZero(x[j], y[j]);
    if i < j {
      OneChange(Xor(x[i], y[i]), Xor(x[j], y[j]), j - i);
    } else {
      OneChange(Xor(x[j], y[j]), Xor(x[i], y[i]), i - j);
    }
  }

  const ONE: Octet := [false, false, false, false, false, false, false, true]

  /** The register is all ones, cancelled by the data id, stays zero until the counter, is
      the polynomial after it, and is cancelled again by the first payload byte. */
  lemma CancellingMessage(m: seq<Octet>)
    requires m == [ONES, ZERO, ONE, POLYNOMIAL, ZERO]
    ensures Checksum(m) == ONES
  {
    XorZero(ONES, ONES);
    XorZero(ZERO, ZERO);
    XorZero(POLYNOMIAL, POLYNOMIAL);
    ShiftsZero(ZERO, 8);
    assert Register(ONES, m, 1) == ZERO;
    assert Register(ONES, m, 2) == ZERO;
    XorIdentity(ONE);
    PlainShifts(ONE, 7);
    ShiftsAdd(ONE, 7, 1);
    assert Shifts(Shifts(ONE, 7), 1) == Shift(Left(ONE, 7)) == POLYNOMIAL;
    assert Register(ONES, m, 3) == POLYNOMIAL;
    assert Register(ONES, m, 4) == ZERO;
    XorIdentity(ONES);
  }

  /** "Protect, then Check accepts" is false: the payload 1D 00 with data id 0x00FF, the
      counter in bits 4 to 7 and the CRC in the second byte, protected for the first time, is
      reported as an error. Its counter nibble is right before the call and its CRC byte is
      not. */
  lemma ProtectThenCheckCanFail(cfg: Config, data: seq<Octet>)
    requires cfg == Config(ZERO, ONES, 1, 4, 8, 16) && data == [POLYNOMIAL, ZERO]
    ensures NibbleOf(1) == ONE && !CrcHolds(cfg, Stamped(cfg, data, ONE))
  {
    assert Message(cfg, ONE, data) == [ONES, ZERO, ONE, POLYNOMIAL, ZERO];
    CancellingMessage(Message(cfg, ONE, data));
    assert NibbleInto(POLYNOMIAL, ONE, 4) == POLYNOMIAL;
    OneChangedByte(cfg, data, ONE);
  }

  /** The counter that the status reports is the one read from the frame, right or wrong, and 0
      for a frame of the wrong length. */
  lemma StatusReportsCounter(cfg: Config, last: nat, data: seq<Octet>)
    requires cfg.Valid() && last < 16
    ensures Checked(cfg, last, ViewOf(cfg, data)).counter ==
            if |data| * 8 != cfg.dataLength then 0 else LowNibble(GetCounter(cfg, data))
  {
  }

  /** A counter of 15, which no protector stamps, counts as one past 14; after it, 1 is in
      sequence. */
  lemma StrayCounter(cfg: Config, last: nat, counter: nat)
    requires last < 15 && counter < 15
    ensures Verdict(cfg, last, 15) == if 15 - last <= cfg.maxDeltaCounter then Ok else WrongSequence
    ensures Verdict(cfg, 15, counter) == if counter == 1 || counter <= cfg.maxDeltaCounter then Ok else WrongSequence
    ensures Verdict(cfg, 15, 15) == Repeated
  {
  }

  // ---- Runs ---------------------------------------------------------------------------

  /** The verdict as a function of how many frames the sender has stamped since the last one
      accepted: 0, 15, 30... repeat; up to max(1, maxDeltaCounter) modulo 15 is in sequence. */
  function VerdictOfGap(cfg: Config, gap: int): E2EResult {
    if gap % 15 == 0 then Repeated
    else if gap % 15 <= (if cfg.maxDeltaCounter < 1 then 1 else cfg.maxDeltaCounter) then Ok
    else WrongSequence
  }

  lemma VerdictIsGap(cfg: Config, m: nat, n: nat)
    ensures Verdict(cfg, m % 15, n % 15) == VerdictOfGap(cfg, n - m)
  {
    GapModulo(m, n);
  }

  lemma GapModulo(m: nat, n: nat)
    ensures var a, b := m % 15, n % 15; (n - m) % 15 == if b >= a then b - a else b - a + 15
  {
    assert n - m == 15 * (n / 15 - m / 15) + (n % 15 - m % 15);
  }

  /** Nibbles and CRCs aside, a run of checks is a list of views. */
  predicate Views(views: seq<View>) {
    forall i | 0 <= i < |views| && views[i].Intact? :: views[i].counter < 16
  }

  /** The checker's last counter after checking the first k frames. */
  function LastOf(views: seq<View>, k: nat): (r: nat)
    requires Views(views) && k <= |views|
    ensures r < 16
    decreases k
  {
    if k == 0 then 0 else LastAfter(LastOf(views, k - 1), views[k - 1])
  }

  /** The index, among the frames the sender stamped, of the last intact frame before the
      k-th; 0, for "before the first", if there was none. */
  function LastStamp(views: seq<View>, stamps: seq<nat>, k: nat): nat
    requires k <= |views| == |stamps|
    decreases k
  {
    if k == 0 then 0
    else if views[k - 1].Intact? then stamps[k - 1]
    else LastStamp(views, stamps, k - 1)
  }

  /** Every intact frame carries the counter that the protector's stamp number `stamps[i]`
      carries. Frames may be lost, repeated, reordered or corrupted. */
  predicate CountersFromProtector(views: seq<View>, stamps: seq<nat>) {
    |views| == |stamps| && forall i | 0 <= i < |views| && views[i].Intact? :: views[i].counter == stamps[i] % 15
  }

  lemma {:induction false} LastIsLastStamp(views: seq<View>, stamps: seq<nat>, k: nat)
    requires Views(views) && CountersFromProtector(views, stamps) && k <= |views|
    ensures LastOf(views, k) == LastStamp(views, stamps, k) % 15
    decreases k
  {
    if k > 0 {
      LastIsLastStamp(views, stamps, k - 1);
    }
  }

  /** In every run of checks the verdict on an intact frame depends on nothing but the gap
      since the last intact frame; any other frame is an error. */
  lemma GapDecides(cfg: Config, views: seq<View>, stamps: seq<nat>, k: nat)
    requires Views(views) && CountersFromProtector(views, stamps) && k < |views|
    ensures Checked(cfg, LastOf(views, k), views[k]).result
            == if views[k].Intact? then VerdictOfGap(cfg, stamps[k] - LastStamp(views, stamps, k)) else Error
    ensures views[k].Intact? ==> Checked(cfg, LastOf(views, k), views[k]).counter == stamps[k] % 15
  {
    LastIsLastStamp(views, stamps, k);
    VerdictIsGap(cfg, LastStamp(views, stamps, k), stamps[k]);
  }

  /** Sender and receiver together: frame i is what the stamps[i]-th successful Protect made
      of payloads[i], received unchanged. It is accepted, repeated or out of sequence by the
      gap alone, provided the two writes cancel out; otherwise it is an error. */
  lemma ProtectedRun(cfg: Config, payloads: seq<seq<Octet>>, views: seq<View>, stamps: seq<nat>, k: nat)
    requires cfg.Valid() && |payloads| == |views| == |stamps| && k < |views|
    requires forall i | 0 <= i < |payloads| :: |payloads[i]| * 8 == cfg.dataLength && Placed(cfg, |payloads[i]|)
    requires forall i | 0 <= i < |views| ::
               views[i] == ViewOf(cfg, Stamped(cfg, payloads[i], NibbleOf(stamps[i] % 15)))
    ensures Views(views)
    ensures Checked(cfg, LastOf(views, k), views[k]).result
            == if ChangesCancel(cfg, payloads[k], Stamped(cfg, payloads[k], NibbleOf(stamps[k] % 15)))
               then VerdictOfGap(cfg, stamps[k] - LastStamp(views, stamps, k))
               else Error
  {
    forall i | 0 <= i < |views|
      ensures views[i].Intact? <==>
              ChangesCancel(cfg, payloads[i], Stamped(cfg, payloads[i], NibbleOf(stamps[i] % 15)))
      ensures views[i].Intact? ==> views[i].counter == stamps[i] % 15
    {
      LowNibbleOf(stamps[i] % 15);
      ProtectedView(cfg, payloads[i], NibbleOf(stamps[i] % 15));
    }
    GapDecides(cfg, views, stamps, k);
  }

  lemma ProtectedView(cfg: Config, data: seq<Octet>, c: Octet)
    requires cfg.Valid() && Placed(cfg, |data|) && |data| * 8 == cfg.dataLength && IsNibble(c)
    ensures var v := ViewOf(cfg, Stamped(cfg, data, c));
            && (v.Intact? <==> ChangesCancel(cfg, data, Stamped(cfg, data, c)))
            && (v.Intact? ==> v.counter == LowNibble(c))
  {
    SelfAcceptance(cfg, data, c);
    StampedReadsBack(cfg, data, c);
  }
}
