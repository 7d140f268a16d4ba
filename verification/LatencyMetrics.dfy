/** The latency metrics that the iceoryx2 and DDS bindings update on every send
  (source/binding/iceoryx2/src/Iceoryx2Binding.cpp, source/binding/dds/src/DdsBinding.cpp). */
module LatencyMetrics {
  import opened Common

  datatype Metrics = Metrics(sent: nat, bytes: nat, avg: nat, max: nat, min: nat)

  const INITIAL: Metrics := Metrics(0, 0, 0, 0, WRAP - 1)

  datatype Send = Send(size: nat, latency: nat)

  function Max(a: nat, b: nat): nat { if a < b then b else a }
  function Min(a: nat, b: nat): nat { if b < a then b else a }

  /** `x / n`, by repeated subtraction. */
  function Quotient(x: nat, n: nat): nat
    requires n > 0
  {
    if x < n then 0 else 1 + Quotient(x - n, n)
  }

  /** `(avg * (n - 1) + latency) / n` in unsigned arithmetic of 64 bits. */
  function Average(avg: nat, n: nat, latency: nat): nat
    requires n > 0
  {
    Quotient((avg * (n - 1) % WRAP + latency) % WRAP, n)
  }

  lemma {:induction false} QuotientBounds(x: nat, n: nat)
    requires n > 0
    ensures n * Quotient(x, n) <= x < n * Quotient(x, n) + n
  {
    if x >= n {
      QuotientBounds(x - n, n);
      Scale(n, Quotient(x - n, n), 1);
    }
  }

  lemma Scale(n: nat, a: nat, d: nat)
    ensures n * (a + d) == n * a + n * d
  {
  }

  lemma AtLeast(n: nat, d: nat)
    requires d >= 1
    ensures n * d >= n
  {
  }

  lemma Monotone(n: nat, a: nat, b: nat)
    requires a <= b
    ensures n * a <= n * b
    ensures a < b ==> n * a + n <= n * b
  {
    Scale(n, a, b - a);
    if a < b {
      AtLeast(n, b - a);
    }
  }

  lemma QuotientIsUnique(x: nat, n: nat, q: nat, q': nat)
    requires n * q <= x < n * q + n && n * q' <= x < n * q' + n
    ensures q == q'
  {
    Monotone(n, if q < q' then q else q', if q < q' then q' else q);
  }

  lemma DivisionBounds(x: nat, n: nat)
    requires n > 0
    ensures n * (x / n) <= x < n * (x / n) + n
  {
  }

  lemma QuotientIsDivision(x: nat, n: nat)
    requires n > 0
    ensures Quotient(x, n) == x / n
  {
    QuotientBounds(x, n);
    DivisionBounds(x, n);
    QuotientIsUnique(x, n, Quotient(x, n), x / n);
  }

  function AfterSend(m: Metrics, s: Send): Metrics {
    var n := m.sent + 1;
    Metrics(n, (m.bytes + s.size) % WRAP, if n == 1 then s.latency else Average(m.avg, n, s.latency),
            Max(m.max, s.latency), Min(m.min, s.latency))
  }

  const TWO_TO_53: nat := 0x20_0000_0000_0000

  /** The distance between neighbouring doubles around n. */
  function Ulp(n: nat): (u: nat)
    ensures u > 0
    ensures n < TWO_TO_53 ==> u == 1
  {
    if n < TWO_TO_53 then 1 else 2 * Ulp(n / 2)
  }

  /** `static_cast<uint64_t>(static_cast<double>(n))`: to the nearest double, a tie to the even one. */
  function AsDouble(n: nat): nat {
    var u := Ulp(n);
    var q := Quotient(n, u);
    if IsNearer(n - u * q, u, q) then u * q else u * q + u
  }

  /** Round down if less than half is left, or just half and the quotient is even. */
  predicate IsNearer(left: int, u: nat, q: nat) { 2 * left < u || (2 * left == u && q % 2 == 0) }

  function AfterDdsSend(m: Metrics, s: Send): Metrics {
    if m.sent == 0 then AfterSend(m, s).(avg := AsDouble(s.latency)) else AfterSend(m, s)
  }

  /** The counter does not wrap around: that takes 2^64 sends. */
  class Iceoryx2Metrics {
    var messagesSent: nat
    var bytesSent: nat
    var avgLatency: nat
    var maxLatency: nat
    var minLatency: nat

    function View(): Metrics
      reads this
    {
      Metrics(messagesSent, bytesSent, avgLatency, maxLatency, minLatency)
    }

    constructor ()
      ensures View() == INITIAL
    {
      messagesSent, bytesSent, avgLatency, maxLatency, minLatency := 0, 0, 0, 0, WRAP - 1;
    }

    method RecordSend(size: nat, latency: nat)
      requires messagesSent + 1 < WRAP
      modifies this
      ensures View() == AfterSend(old(View()), Send(size, latency))
    {
      messagesSent := messagesSent + 1;
      bytesSent := (bytesSent + size) % WRAP;
      if messagesSent == 1 {
        avgLatency := latency;
      } else {
        var sum := (avgLatency * (messagesSent - 1) % WRAP + latency) % WRAP;
        QuotientIsDivision(sum, messagesSent);
        avgLatency := sum / messagesSent;
      }
      maxLatency := Max(maxLatency, latency);
      minLatency := Min(minLatency, latency);
    }
  }

  class DdsMetrics {
    var messagesSent: nat
    var bytesSent: nat
    var avgLatency: nat
    var maxLatency: nat
    var minLatency: nat

    function View(): Metrics
      reads this
    {
      Metrics(messagesSent, bytesSent, avgLatency, maxLatency, minLatency)
    }

    /** Until the first send the extremes are the initial ones. */
    ghost predicate Valid()
      reads this
    {
      messagesSent == 0 ==> maxLatency == 0 && minLatency == WRAP - 1
    }

    constructor ()
      ensures View() == INITIAL && Valid()
    {
      messagesSent, bytesSent, avgLatency, maxLatency, minLatency := 0, 0, 0, 0, WRAP - 1;
    }

    /** The first send sets the three latencies outright, the average by way of a double. A
        duration count is a signed integer of 64 bits. */
    method RecordSend(size: nat, latency: nat)
      requires Valid() && messagesSent + 1 < WRAP && latency < WRAP / 2
      modifies this
      ensures Valid() && View() == AfterDdsSend(old(View()), Send(size, latency))
    {
      messagesSent := messagesSent + 1;
      bytesSent := (bytesSent + size) % WRAP;
      if messagesSent == 1 {
        minLatency := latency;
        maxLatency := latency;
        avgLatency := AsDouble(latency);
      } else {
        minLatency := Min(minLatency, latency);
        maxLatency := Max(maxLatency, latency);
        var sum := (avgLatency * (messagesSent - 1) % WRAP + latency) % WRAP;
        QuotientIsDivision(sum, messagesSent);
        avgLatency := sum / messagesSent;
      }
    }
  }

  // ---- Runs ------------------------------------------------------------------------------------

  function After(sends: seq<Send>): (m: Metrics)
    ensures m.sent == |sends|
  {
    if sends == [] then INITIAL else AfterSend(After(sends[..|sends| - 1]), sends[|sends| - 1])
  }

  function Total(sends: seq<Send>): nat {
    if sends == [] then 0 else Total(sends[..|sends| - 1]) + sends[|sends| - 1].latency
  }

  function TotalBytes(sends: seq<Send>): nat {
    if sends == [] then 0 else TotalBytes(sends[..|sends| - 1]) + sends[|sends| - 1].size
  }

  lemma WrappedTwice(a: nat, b: nat)
    ensures (a % WRAP + b) % WRAP == (a + b) % WRAP
  {
  }

  /** After every run the counts are the number of sends and the sum of their sizes, the latter
      modulo 2^64. */
  lemma {:induction false} BytesAreCounted(sends: seq<Send>)
    ensures After(sends).sent == |sends|
    ensures After(sends).bytes == TotalBytes(sends) % 0x1_0000_0000_0000_0000
  {
    if sends != [] {
      var last := |sends| - 1;
      BytesAreCounted(sends[..last]);
      WrappedTwice(TotalBytes(sends[..last]), sends[last].size);
    }
  }

  lemma QuotientBetween(x: nat, n: nat, q: nat, low: nat, high: nat)
    requires n * low <= x <= n * high && n * q <= x < n * q + n
    ensures low <= q <= high
  {
    if q < low {
      Monotone(n, q, low);
    }
    if high < q {
      Monotone(n, high, q);
    }
  }

  lemma WithoutWrapAround(product: nat, n: nat, latency: nat)
    requires n > 0 && product + latency < WRAP
    ensures Quotient((product % WRAP + latency) % WRAP, n) == Quotient(product + latency, n)
  {
  }

  lemma SumBounds(product: nat, n: nat, latency: nat, q: nat)
    requires n > 0 && product + latency < WRAP
    requires q == Quotient((product % WRAP + latency) % WRAP, n)
    ensures n * q <= product + latency < n * q + n
  {
    WithoutWrapAround(product, n, latency);
    QuotientBounds(product + latency, n);
  }

  /** Without wrap-around the new average is the quotient of the sum that the old one stands for. */
  lemma AverageIsQuotient(avg: nat, n: nat, latency: nat)
    requires n > 0 && avg * (n - 1) + latency < WRAP
    ensures n * Average(avg, n, latency) <= avg * (n - 1) + latency < n * Average(avg, n, latency) + n
  {
    var product, a := avg * (n - 1), Average(avg, n, latency);
    assert a == Quotient((product % WRAP + latency) % WRAP, n);
    SumBounds(product, n, latency, a);
  }

  lemma SumBetween(avg: nat, n: nat, latency: nat, low: nat, high: nat)
    requires n > 0 && low <= avg <= high && low <= latency <= high
    ensures n * low <= avg * (n - 1) + latency <= n * high
  {
    Monotone(n - 1, low, avg);
    Monotone(n - 1, avg, high);
    Scale(low, n - 1, 1);
    Scale(high, n - 1, 1);
  }

  /** One step of the average when nothing wraps around: it stays between the bounds. */
  lemma AverageStaysBetween(avg: nat, n: nat, latency: nat, low: nat, high: nat)
    requires n > 1 && avg * (n - 1) + latency < WRAP
    requires low <= avg <= high && low <= latency <= high
    ensures low <= Average(avg, n, latency) <= high
  {
    AverageIsQuotient(avg, n, latency);
    SumBetween(avg, n, latency, low, high);
    QuotientBetween(avg * (n - 1) + latency, n, Average(avg, n, latency), low, high);
  }

  /** `2 * (total - n * avg) <= n * (n - 1)`: the error of the mean is at most (n - 1) / 2. */
  predicate Close(n: nat, avg: nat, total: nat) {
    n * avg <= total && 2 * (total - n * avg) <= n * (n - 1)
  }

  lemma CloseStep(n: nat, avg: nat, total: nat, latency: nat, a: nat)
    requires n > 1 && Close(n - 1, avg, total) && n * a <= avg * (n - 1) + latency < n * a + n
    ensures Close(n, a, total + latency)
  {
    assert n * (n - 1) == (n - 1) * (n - 2) + 2 * (n - 1);
  }

  /** The largest and the smallest latency of a run are the recorded ones. */
  lemma {:induction false} ExtremesAreExact(sends: seq<Send>)
    requires sends != [] && forall s | s in sends :: s.latency < WRAP
    ensures forall s | s in sends :: After(sends).min <= s.latency <= After(sends).max
    ensures exists s :: s in sends && s.latency == After(sends).min
    ensures exists s :: s in sends && s.latency == After(sends).max
  {
    var last := |sends| - 1;
    var init := sends[..last];
    assert sends == init + [sends[last]];
    if init != [] {
      ExtremesAreExact(init);
      var lo :| lo in init && lo.latency == After(init).min;
      var hi :| hi in init && hi.latency == After(init).max;
      assert lo in sends && hi in sends && sends[last] in sends;
    } else {
      assert sends[last] in sends;
    }
  }

  predicate IsClose(m: Metrics, n: nat, total: nat) {
    m.sent == n && m.min <= m.avg <= m.max && Close(n, m.avg, total)
  }

  // ---- Overflow: the exact condition ------------------------------------------------------------

  lemma WrappedSum(product: nat, latency: nat)
    ensures (product % WRAP + latency) % WRAP == (product + latency) % WRAP
  {
  }

  /** What is left of a sum of 64 bits or more is at least 2^64 short, and so is its quotient. */
  lemma QuotientOfWrapped(x: nat, n: nat, q: nat)
    requires 0 < n < WRAP && q == Quotient(x % WRAP, n)
    ensures x < WRAP ==> q == Quotient(x, n)
    ensures x >= WRAP ==> n * q <= x - WRAP && q < Quotient(x, n)
  {
    if x >= WRAP {
      QuotientBounds(x % WRAP, n);
      QuotientBounds(x, n);
      assert x % WRAP <= x - WRAP;
      if Quotient(x, n) <= q {
        Monotone(n, Quotient(x, n), q);
      }
    }
  }

  lemma AverageOfSum(avg: nat, n: nat, latency: nat, x: nat)
    requires n > 0 && x == avg * (n - 1) + latency
    ensures Average(avg, n, latency) == Quotient(x % WRAP, n)
  {
    var product := avg * (n - 1);
    WrappedSum(product, latency);
  }

  /** The 64-bit average is the true quotient exactly if the sum does not overflow. */
  lemma AverageIsExactExactlyIfNoOverflow(avg: nat, n: nat, latency: nat, sum: nat)
    requires 1 < n < WRAP && sum == avg * (n - 1) + latency
    ensures Average(avg, n, latency) == Quotient(sum, n) <==> sum < WRAP
  {
    AverageOfSum(avg, n, latency, sum);
    QuotientOfWrapped(sum, n, Average(avg, n, latency));
  }

  lemma SquareFits(n: nat)
    requires 0 < n <= TWO_TO_32
    ensures n * (n - 1) < WRAP
  {
    Monotone(n, n - 1, TWO_TO_32);
    assert n * TWO_TO_32 <= WRAP;
  }

  /** For up to 2^32 sends one step keeps the average close to the mean exactly if its sum does
      not overflow. */
  lemma CloseExactlyIfNoOverflow(avg: nat, n: nat, latency: nat, total: nat)
    requires 1 < n <= TWO_TO_32 && Close(n - 1, avg, total)
    ensures Close(n, Average(avg, n, latency), total + latency) <==> avg * (n - 1) + latency < WRAP
  {
    var x, a := avg * (n - 1) + latency, Average(avg, n, latency);
    if x < WRAP {
      AverageIsQuotient(avg, n, latency);
      CloseStep(n, avg, total, latency, a);
    } else {
      AverageOfSum(avg, n, latency, x);
      QuotientOfWrapped(x, n, a);
      SquareFits(n);
    }
  }

  /** The sum that this send computes fits in 64 bits; the first send computes none. */
  predicate StepFits(m: Metrics, s: Send) {
    m.sent > 0 ==> m.avg * m.sent + s.latency < WRAP
  }

  lemma SendKeepsClose(m: Metrics, n: nat, total: nat, s: Send)
    requires n >= 1 && IsClose(m, n, total)
    ensures StepFits(m, s) ==> IsClose(AfterSend(m, s), n + 1, total + s.latency)
    ensures n < TWO_TO_32 && IsClose(AfterSend(m, s), n + 1, total + s.latency) ==> StepFits(m, s)
  {
    if StepFits(m, s) {
      AverageStaysBetween(m.avg, n + 1, s.latency, Min(m.min, s.latency), Max(m.max, s.latency));
      AverageIsQuotient(m.avg, n + 1, s.latency);
      CloseStep(n + 1, m.avg, total, s.latency, Average(m.avg, n + 1, s.latency));
    } else if n < TWO_TO_32 {
      CloseExactlyIfNoOverflow(m.avg, n + 1, s.latency, total);
    }
  }

  predicate StepFitsAt(sends: seq<Send>, k: nat)
    requires k < |sends|
  {
    StepFits(After(sends[..k]), sends[k])
  }

  predicate EveryStepFits(sends: seq<Send>) {
    forall k | 0 <= k < |sends| :: StepFitsAt(sends, k)
  }

  predicate IsCloseAfter(sends: seq<Send>, k: nat)
    requires k <= |sends|
  {
    IsClose(After(sends[..k]), k, Total(sends[..k]))
  }

  lemma Prefix(sends: seq<Send>, n: nat)
    requires n <= |sends|
    ensures forall k | 0 <= k <= n :: sends[..n][..k] == sends[..k]
  {
  }

  /** The metrics after one more send of a run. */
  lemma AfterOneMore(sends: seq<Send>, k: nat)
    requires k < |sends|
    ensures After(sends[..k + 1]) == AfterSend(After(sends[..k]), sends[k])
    ensures Total(sends[..k + 1]) == Total(sends[..k]) + sends[k].latency
  {
    Prefix(sends, k + 1);
  }

  lemma CloseAfterOneMore(sends: seq<Send>, k: nat)
    requires 0 < k < |sends| && IsCloseAfter(sends, k)
    ensures StepFitsAt(sends, k) ==> IsCloseAfter(sends, k + 1)
    ensures k < TWO_TO_32 && IsCloseAfter(sends, k + 1) ==> StepFitsAt(sends, k)
  {
    AfterOneMore(sends, k);
    SendKeepsClose(After(sends[..k]), k, Total(sends[..k]), sends[k]);
  }

  lemma CloseAfterFirst(sends: seq<Send>)
    requires sends != []
    ensures IsCloseAfter(sends, 1) && StepFitsAt(sends, 0)
  {
    AfterOneMore(sends, 0);
    assert sends[..0] == [];
  }

  lemma {:induction false} FittingStepsStayClose(sends: seq<Send>, k: nat)
    requires 0 < k <= |sends| && forall j | 0 <= j < k :: StepFitsAt(sends, j)
    ensures IsCloseAfter(sends, k)
  {
    if k == 1 {
      CloseAfterFirst(sends);
    } else {
      FittingStepsStayClose(sends, k - 1);
      CloseAfterOneMore(sends, k - 1);
    }
  }

  /** After any sends none of which overflows: the average lies between the extremes, never
      exceeds the true mean, and falls short of it by at most (n - 1) / 2. */
  lemma AverageIsClose(sends: seq<Send>)
    requires sends != [] && EveryStepFits(sends)
    ensures IsClose(After(sends), |sends|, Total(sends))
  {
    FittingStepsStayClose(sends, |sends|);
    assert sends[..|sends|] == sends;
  }

  /** For up to 2^32 sends that condition is exact: the average is close after every send of a
      run if and only if no send overflows. */
  lemma CloseThroughoutExactlyIfStepsFit(sends: seq<Send>)
    requires |sends| <= TWO_TO_32
    ensures (forall k | 0 < k <= |sends| :: IsCloseAfter(sends, k)) <==> EveryStepFits(sends)
  {
    if EveryStepFits(sends) {
      forall k | 0 < k <= |sends| ensures IsCloseAfter(sends, k) {
        FittingStepsStayClose(sends, k);
      }
    }
    if forall k | 0 < k <= |sends| :: IsCloseAfter(sends, k) {
      forall k | 0 <= k < |sends| ensures StepFitsAt(sends, k) {
        if k == 0 {
          CloseAfterFirst(sends);
        } else {
          assert IsCloseAfter(sends, k) && IsCloseAfter(sends, k + 1);
          CloseAfterOneMore(sends, k);
        }
      }
    }
  }

  /** The running average in integers of any size. */
  function Unbounded(sends: seq<Send>): nat {
    var n := |sends|;
    if n == 0 then 0
    else if n == 1 then sends[0].latency
    else Quotient(Unbounded(sends[..n - 1]) * (n - 1) + sends[n - 1].latency, n)
  }

  predicate IsExactAfter(sends: seq<Send>, k: nat)
    requires k <= |sends|
  {
    After(sends[..k]).avg == Unbounded(sends[..k])
  }

  lemma ExactAfterOneMore(sends: seq<Send>, k: nat)
    requires k < |sends| && k + 1 < WRAP && IsExactAfter(sends, k)
    ensures IsExactAfter(sends, k + 1) <==> StepFitsAt(sends, k)
  {
    AfterOneMore(sends, k);
    Prefix(sends, k + 1);
    if k > 0 {
      var avg, latency := Unbounded(sends[..k]), sends[k].latency;
      AverageIsExactExactlyIfNoOverflow(avg, k + 1, latency, avg * k + latency);
    }
  }

  lemma {:induction false} FittingStepsStayExact(sends: seq<Send>, k: nat)
    requires k <= |sends| < WRAP && forall j | 0 <= j < k :: StepFitsAt(sends, j)
    ensures IsExactAfter(sends, k)
  {
    if k > 0 {
      FittingStepsStayExact(sends, k - 1);
      ExactAfterOneMore(sends, k - 1);
    }
  }

  /** For any number of sends: the 64-bit average equals the unbounded one after every send of a
      run if and only if no send overflows. */
  lemma ExactThroughoutExactlyIfStepsFit(sends: seq<Send>)
    requires |sends| < WRAP
    ensures (forall k | 0 <= k <= |sends| :: IsExactAfter(sends, k)) <==> EveryStepFits(sends)
  {
    if EveryStepFits(sends) {
      forall k | 0 <= k <= |sends| ensures IsExactAfter(sends, k) {
        FittingStepsStayExact(sends, k);
      }
    }
    if forall k | 0 <= k <= |sends| :: IsExactAfter(sends, k) {
      forall k | 0 <= k < |sends| ensures StepFitsAt(sends, k) {
        assert IsExactAfter(sends, k) && IsExactAfter(sends, k + 1);
        ExactAfterOneMore(sends, k);
      }
    }
  }

  lemma LastStepFits(sends: seq<Send>, k: nat)
    requires 0 < k < |sends| && IsCloseAfter(sends, k) && Total(sends[..k]) + sends[k].latency < WRAP
    ensures StepFitsAt(sends, k)
  {
  }

  lemma {:induction false} TotalGrows(sends: seq<Send>, k: nat)
    requires k <= |sends|
    ensures Total(sends[..k]) <= Total(sends)
    decreases |sends| - k
  {
    if k == |sends| {
      assert sends[..k] == sends;
    } else {
      AfterOneMore(sends, k);
      TotalGrows(sends, k + 1);
    }
  }

  lemma NextStepFits(sends: seq<Send>, k: nat)
    requires 0 < k < |sends| && IsCloseAfter(sends, k) && Total(sends) < WRAP
    ensures StepFitsAt(sends, k)
  {
    AfterOneMore(sends, k);
    TotalGrows(sends, k + 1);
    LastStepFits(sends, k);
  }

  lemma {:induction false} TotalFitsUpTo(sends: seq<Send>, k: nat)
    requires k <= |sends| && Total(sends) < WRAP
    ensures forall j | 0 <= j < k :: StepFitsAt(sends, j)
  {
    if k > 0 {
      TotalFitsUpTo(sends, k - 1);
      if k == 1 {
        CloseAfterFirst(sends);
      } else {
        FittingStepsStayClose(sends, k - 1);
        NextStepFits(sends, k - 1);
      }
    }
  }

  /** A caller that keeps the total latency below 2^64 has no overflow. */
  lemma FittingTotalIsClose(sends: seq<Send>)
    requires sends != [] && Total(sends) < WRAP
    ensures EveryStepFits(sends) && IsClose(After(sends), |sends|, Total(sends))
  {
    TotalFitsUpTo(sends, |sends|);
    AverageIsClose(sends);
  }

  function Rising(n: nat): (r: seq<Send>)
    ensures |r| == n
  {
    seq(n, i requires 0 <= i < n => Send(0, i))
  }

  lemma ZeroStays(m: Metrics, s: Send)
    requires m.avg == 0 && m.sent + 1 < WRAP && s.latency < m.sent + 1
    ensures AfterSend(m, s).avg == 0
  {
    if m.sent > 0 {
      WithoutWrapAround(0, m.sent + 1, s.latency);
    }
  }

  lemma {:induction false} RisingAverage(n: nat)
    requires n < WRAP
    ensures After(Rising(n)).avg == 0
  {
    if n > 0 {
      RisingAverage(n - 1);
      assert Rising(n)[..n - 1] == Rising(n - 1);
      ZeroStays(After(Rising(n - 1)), Send(0, n - 1));
    }
  }

  lemma {:induction false} RisingTotal(n: nat)
    requires n > 0
    ensures 2 * Total(Rising(n)) == n * (n - 1)
  {
    assert Rising(n)[..n - 1] == Rising(n - 1);
    if n > 1 {
      RisingTotal(n - 1);
      assert n * (n - 1) == (n - 1) * (n - 2) + 2 * (n - 1);
    }
  }

  /** The bound is met for every n: with latencies 0, 1, .., n - 1 the average stays 0, which is
      (n - 1) / 2 below the mean. */
  lemma BoundIsTight(n: nat)
    requires 0 < n < WRAP
    ensures After(Rising(n)).avg == 0 && 2 * Total(Rising(n)) == n * (n - 1)
  {
    RisingAverage(n);
    RisingTotal(n);
  }

  /** An instance of overflow: two sends of 2^63 ns average to 0, below both. */
  lemma OverflowLeavesTheRange()
    ensures var s := Send(0, 0x8000_0000_0000_0000);
            !StepFitsAt([s, s], 1) && After([s, s]).avg < After([s, s]).min
  {
    var s := Send(0, 0x8000_0000_0000_0000);
    AfterOneMore([s, s], 0);
    AfterOneMore([s, s], 1);
    assert [s, s][..2] == [s, s] && [s, s][..0] == [];
  }

  // ---- The detour through a double ----------------------------------------------------------------

  predicate IsPowerOfTwo(u: nat) { u == 1 || (u > 1 && u % 2 == 0 && IsPowerOfTwo(u / 2)) }

  /** From 2^53 on the spacing is the power of two that leaves 53 bits. */
  lemma {:induction false} UlpLeaves53Bits(n: nat)
    ensures IsPowerOfTwo(Ulp(n))
    ensures n >= 0x20_0000_0000_0000 ==> 0x10_0000_0000_0000 * Ulp(n) <= n < 0x20_0000_0000_0000 * Ulp(n)
  {
    if n >= TWO_TO_53 {
      UlpLeaves53Bits(n / 2);
      assert Ulp(n) / 2 == Ulp(n / 2);
    }
  }

  lemma Rounding(n: nat, u: nat, q: nat, down: nat)
    requires down <= n < down + u
    ensures var near := IsNearer(n - down, u, q);
            var r, q' := if near then down else down + u, if near then q else q + 1;
            && 0 <= u + 2 * (r - n) <= 2 * u
            && (2 * (r - n) == u || 2 * (n - r) == u ==> q' % 2 == 0)
  {
  }

  /** The detour ends at the nearest multiple of the spacing, and halfway at the even one. */
  lemma DoubleIsNearest(n: nat) returns (q: nat)
    ensures AsDouble(n) == Ulp(n) * q
    ensures 0 <= Ulp(n) + 2 * (AsDouble(n) - n) <= 2 * Ulp(n)
    ensures 2 * (AsDouble(n) - n) == Ulp(n) || 2 * (n - AsDouble(n)) == Ulp(n) ==> q % 2 == 0
  {
    var u := Ulp(n);
    q := Quotient(n, u);
    QuotientBounds(n, u);
    Rounding(n, u, q, u * q);
    Scale(u, q, 1);
    q := if IsNearer(n - u * q, u, q) then q else q + 1;
  }

  /** A first latency survives the detour exactly if it is a multiple of the distance between
      doubles; below 2^53 every latency is. */
  lemma DoubleIsExactExactlyIfMultiple(n: nat)
    ensures AsDouble(n) == n <==> n == Ulp(n) * Quotient(n, Ulp(n))
    ensures n < TWO_TO_53 ==> AsDouble(n) == n
  {
    QuotientBounds(n, Ulp(n));
  }

  function AfterDds(sends: seq<Send>): Metrics {
    if sends == [] then INITIAL else AfterDdsSend(AfterDds(sends[..|sends| - 1]), sends[|sends| - 1])
  }

  /** If its first latency survives the detour, a run leaves the same metrics in both bindings;
      the first send does exactly in that case. The counts and the extremes are always the same. */
  lemma {:induction false} BindingsAgree(sends: seq<Send>)
    requires sends != []
    ensures AsDouble(sends[0].latency) == sends[0].latency ==> AfterDds(sends) == After(sends)
    ensures |sends| == 1 && AfterDds(sends) == After(sends) ==> AsDouble(sends[0].latency) == sends[0].latency
    ensures AfterDds(sends).(avg := 0) == After(sends).(avg := 0)
  {
    var last := |sends| - 1;
    if last > 0 {
      BindingsAgree(sends[..last]);
    } else {
      assert sends[..0] == [];
    }
  }

  /** The smallest latency that does not survive. */
  lemma DoubleLosesALatency()
    ensures AsDouble(TWO_TO_53 + 1) == TWO_TO_53
  {
    var n := TWO_TO_53 + 1;
    assert n / 2 == TWO_TO_53 / 2 && Ulp(n / 2) == 1 && Ulp(n) == 2;
    QuotientBounds(n, 2);
    assert Quotient(n, 2) == TWO_TO_53 / 2;
  }

  predicate DdsIsCloseAfter(sends: seq<Send>, k: nat)
    requires k <= |sends|
  {
    IsClose(AfterDds(sends[..k]), k, Total(sends[..k]))
  }

  lemma FirstAverageMustSurvive(sends: seq<Send>)
    requires sends != [] && DdsIsCloseAfter(sends, 1)
    ensures AsDouble(sends[0].latency) == sends[0].latency
  {
    AfterOneMore(sends, 0);
    assert sends[..1][..0] == [] && sends[..0] == [];
    assert AfterDds(sends[..1]) == AfterDdsSend(INITIAL, sends[0]);
  }

  /** For up to 2^32 sends over DDS the average is close after every send of a run if and only if
      the first latency survives the detour and no send overflows. */
  lemma DdsCloseThroughoutExactlyIf(sends: seq<Send>)
    requires 0 < |sends| <= TWO_TO_32
    ensures (forall k | 0 < k <= |sends| :: DdsIsCloseAfter(sends, k)) <==>
            AsDouble(sends[0].latency) == sends[0].latency && EveryStepFits(sends)
  {
    CloseThroughoutExactlyIfStepsFit(sends);
    if forall k | 0 < k <= |sends| :: DdsIsCloseAfter(sends, k) {
      assert DdsIsCloseAfter(sends, 1);
      FirstAverageMustSurvive(sends);
    }
    if AsDouble(sends[0].latency) == sends[0].latency {
      forall k | 0 < k <= |sends| ensures DdsIsCloseAfter(sends, k) <==> IsCloseAfter(sends, k) {
        BindingsAgree(sends[..k]);
      }
    }
  }
}
