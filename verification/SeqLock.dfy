/** The slot seqlock as an interleaving step system (source/registry/inc/SeqLock.hpp).

  Any number of writers and readers share one slot: an atomic 64-bit counter and a
  list of memory cells. A cell is whatever one access touches; a field, or one byte of
  a character array. One step is one atomic access: a `fetch_add` of the counter, a
  store of one cell, or a load of the counter or of one cell. */
module SeqLock {
  import opened Common

  type Thread = nat

  datatype Store = Store(cell: nat, value: int)

  datatype Address = Counter | Cell(index: nat)
  datatype Access = Access(address: Address, value: int)

  /** A thread between the constructor and the destructor of a SeqLockWriter. */
  datatype Writer = Writer(stored: seq<Store>, pending: seq<Store>)

  /** The retry bookkeeping of one call of Read. `retries` is the source's retry_count;
      the other three only observe: attempts that met an odd counter, attempts that met a
      changed counter, and the number of increments before the call. */
  datatype Tally = Tally(retries: nat, odd: nat, changed: nat, calledAt: nat)

  /** Where a call of Read stands. `seq1` and `log` are its local variables; `ticks` and
      `since` only observe: the number of increments at the load of seq1, and the index of the
      state it left. */
  datatype Reader =
    | Top(tally: Tally)
    | Copying(tally: Tally, seq1: nat, log: seq<Access>, ticks: nat, since: nat)
    | Accepted(tally: Tally, seq1: nat, log: seq<Access>)
    | GaveUp(tally: Tally)

  datatype State = State(
    sequence: nat,
    cells: seq<int>,
    writers: map<Thread, Writer>,
    readers: map<Thread, Reader>,
    begun: nat,
    finished: nat,
    committed: seq<seq<Store>>,
    clock: nat)
  {
    /** The number of fetch_adds so far. */
    function Ticks(): nat { begun + finished }

    function Load(a: Address): int
      requires a.Cell? ==> a.index < |cells|
    {
      if a.Counter? then sequence else cells[a.index]
    }
  }

  datatype Step =
    | BeginWrite(w: Thread, program: seq<Store>)
    | StoreCell(w: Thread)
    | EndWrite(w: Thread)
    | CallRead(r: Thread)
    | LoadFirst(r: Thread)
    | LoadCopy(r: Thread, address: Address)
    | LoadSecond(r: Thread)

  predicate Fits(program: seq<Store>, cells: seq<int>) {
    forall i | 0 <= i < |program| :: program[i].cell < |cells|
  }

  predicate Enabled(s: State, step: Step) {
    match step
    case BeginWrite(w, program) => w !in s.writers && Fits(program, s.cells)
    case StoreCell(w) =>
      w in s.writers && s.writers[w].pending != [] && s.writers[w].pending[0].cell < |s.cells|
    case EndWrite(w) => w in s.writers && s.writers[w].pending == []
    case CallRead(r) => r !in s.readers || s.readers[r].Accepted? || s.readers[r].GaveUp?
    case LoadFirst(r) => r in s.readers && s.readers[r].Top?
    case LoadCopy(r, a) =>
      r in s.readers && s.readers[r].Copying? && (a.Cell? ==> a.index < |s.cells|)
    case LoadSecond(r) => r in s.readers && s.readers[r].Copying?
  }

  /** `if (++retry_count > MAX_RETRY_COUNT) return empty`, otherwise back to the top. */
  function Retry(t: Tally): Reader {
    var t' := t.(retries := t.retries + 1);
    if t'.retries > MAX_RETRY_COUNT then GaveUp(t') else Top(t')
  }

  function AfterFirstLoad(s: State, t: Tally): Reader {
    if s.sequence % 2 == 1 then Retry(t.(odd := t.odd + 1))
    else Copying(t, s.sequence, [], s.Ticks(), s.clock)
  }

  function AfterSecondLoad(s: State, c: Reader): Reader
    requires c.Copying?
  {
    if c.seq1 == s.sequence then Accepted(c.tally, c.seq1, c.log)
    else Retry(c.tally.(changed := c.tally.changed + 1))
  }

  function Copied(c: Reader, a: Access): Reader
    requires c.Copying?
  {
    Copying(c.tally, c.seq1, c.log + [a], c.ticks, c.since)
  }

  function Apply(s: State, step: Step): State
    requires Enabled(s, step)
  {
    var s := s.(clock := s.clock + 1);
    match step
    case BeginWrite(w, program) =>
      s.(sequence := FetchAdd(s.sequence), begun := s.begun + 1, writers := s.writers[w := Writer([], program)])
    case StoreCell(w) =>
      var Writer(stored, pending) := s.writers[w];
      s.(cells := s.cells[pending[0].cell := pending[0].value],
         writers := s.writers[w := Writer(stored + [pending[0]], pending[1..])])
    case EndWrite(w) =>
      s.(sequence := FetchAdd(s.sequence), finished := s.finished + 1,
         writers := s.writers - {w}, committed := s.committed + [s.writers[w].stored])
    case CallRead(r) =>
      s.(readers := s.readers[r := Top(Tally(0, 0, 0, s.Ticks()))])
    case LoadFirst(r) =>
      s.(readers := s.readers[r := AfterFirstLoad(s, s.readers[r].tally)])
    case LoadCopy(r, a) =>
      var c := s.readers[r];
      s.(readers := s.readers[r := Copied(c, Access(a, s.Load(a)))])
    case LoadSecond(r) =>
      s.(readers := s.readers[r := AfterSecondLoad(s, s.readers[r])])
  }

  predicate Initial(s: State) {
    && s.sequence == 0 && s.begun == 0 && s.finished == 0 && s.clock == 0
    && s.writers == map[] && s.readers == map[] && s.committed == []
  }

  /** `tr` is the list of states met by performing `steps` from an initial state. */
  ghost predicate IsRun(tr: seq<State>, steps: seq<Step>) {
    && |tr| == |steps| + 1
    && Initial(tr[0])
    && forall i | 0 <= i < |steps| :: Enabled(tr[i], steps[i]) && tr[i + 1] == Apply(tr[i], steps[i])
  }

  // ---- The counter, for any number of overlapping writers -------------------------

  ghost predicate CounterInv(s: State) {
    && s.sequence == s.Ticks() % WRAP
    && s.begun == s.finished + |s.writers|
  }

  lemma Residue(n: nat, q: nat, r: nat)
    requires n == WRAP * q + r && r < WRAP
    ensures n % WRAP == r
  {
  }

  lemma ResidueParity(n: nat)
    ensures (n % WRAP) % 2 == n % 2
  {
    var half := 0x8000_0000_0000_0000 * (n / WRAP);
    assert n == 2 * half + n % WRAP;
  }

  lemma FetchAddResidue(n: nat)
    ensures FetchAdd(n % WRAP) == (n + 1) % WRAP
  {
    var q, r := n / WRAP, n % WRAP;
    if r + 1 < WRAP {
      Residue(n + 1, q, r + 1);
    } else {
      Residue(n + 1, q + 1, 0);
    }
  }

  lemma WriterLeaves(writers: map<Thread, Writer>, w: Thread)
    requires w in writers
    ensures |writers - {w}| == |writers| - 1
  {
    assert (writers - {w}).Keys == writers.Keys - {w};
    assert |writers.Keys - {w}| == |writers.Keys| - 1;
    assert |(writers - {w}).Keys| == |writers - {w}| && |writers.Keys| == |writers|;
  }

  lemma CounterStep(s: State, step: Step)
    requires CounterInv(s) && Enabled(s, step)
    ensures CounterInv(Apply(s, step))
  {
    if step.EndWrite? {
      WriterLeaves(s.writers, step.w);
    }
    if step.BeginWrite? || step.EndWrite? {
      FetchAddResidue(s.Ticks());
    }
  }

  lemma {:induction false} CounterHolds(tr: seq<State>, steps: seq<Step>, i: nat)
    requires IsRun(tr, steps) && i < |tr|
    ensures CounterInv(tr[i]) && tr[i].clock == i
  {
    if i > 0 {
      CounterHolds(tr, steps, i - 1);
      CounterStep(tr[i - 1], steps[i - 1]);
    }
  }

  /** In every reachable state the counter is (writes begun + writes finished) modulo 2^64,
      and begun minus finished is the number of writers inside their critical section. */
  lemma CounterCountsWrites(tr: seq<State>, steps: seq<Step>, i: nat)
    requires IsRun(tr, steps) && i < |tr|
    ensures tr[i].sequence == (tr[i].begun + tr[i].finished) % WRAP
    ensures tr[i].begun - tr[i].finished == |tr[i].writers|
    ensures tr[i].sequence % 2 == |tr[i].writers| % 2
  {
    CounterHolds(tr, steps, i);
    ResidueParity(tr[i].Ticks());
  }

  lemma {:induction false} TicksGrow(tr: seq<State>, steps: seq<Step>, i: nat, k: nat)
    requires IsRun(tr, steps) && i <= k < |tr|
    ensures tr[i].begun <= tr[k].begun && tr[i].finished <= tr[k].finished
    ensures |tr[k].cells| == |tr[i].cells|
    decreases k - i
  {
    if i < k {
      assert tr[i + 1] == Apply(tr[i], steps[i]);
      TicksGrow(tr, steps, i + 1, k);
    }
  }

  /** While the number of increments stands still nobody enters or leaves, and if nobody is
      inside, no cell changes. */
  lemma {:induction false} QuietStretch(tr: seq<State>, steps: seq<Step>, i: nat, j: nat, k: nat)
    requires IsRun(tr, steps) && i <= j <= k < |tr|
    requires tr[i].Ticks() == tr[k].Ticks()
    ensures tr[j].begun == tr[k].begun && tr[j].finished == tr[k].finished
    ensures tr[j].writers.Keys == tr[k].writers.Keys
    ensures tr[k].writers == map[] ==> tr[j].cells == tr[k].cells
    decreases k - j
  {
    TicksGrow(tr, steps, i, j);
    TicksGrow(tr, steps, j, k);
    if j < k {
      TicksGrow(tr, steps, j, j + 1);
      TicksGrow(tr, steps, j + 1, k);
      QuietStretch(tr, steps, i, j + 1, k);
      assert tr[j + 1] == Apply(tr[j], steps[j]);
      assert tr[k].writers == map[] ==> tr[k].writers.Keys == {};
    }
  }

  // ---- What a reader's local variables say about the past -------------------------

  /** Every value in a reader's log was loaded after the load of seq1, which met an even
      counter. */
  ghost predicate LogInv(tr: seq<State>, k: nat, c: Reader)
    requires k < |tr| && c.Copying?
  {
    && c.since <= k
    && c.ticks == tr[c.since].Ticks() && c.seq1 == tr[c.since].sequence && c.seq1 % 2 == 0
    && forall m | 0 <= m < |c.log| :: LoadedBetween(tr, c.since, k, c.log[m])
  }

  ghost predicate LoadedBetween(tr: seq<State>, i: nat, k: nat, a: Access)
    requires k < |tr|
  {
    exists j :: i <= j <= k && (a.address.Cell? ==> a.address.index < |tr[j].cells|) && tr[j].Load(a.address) == a.value
  }

  lemma LogGrows(tr: seq<State>, k: nat, c: Reader, c': Reader, a: Address)
    requires k + 1 < |tr| && c.Copying? && LogInv(tr, k, c)
    requires a.Cell? ==> a.index < |tr[k].cells|
    requires c' == c || c' == Copied(c, Access(a, tr[k].Load(a)))
    ensures LogInv(tr, k + 1, c')
  {
    forall m | 0 <= m < |c'.log| ensures LoadedBetween(tr, c'.since, k + 1, c'.log[m]) {
      if m < |c.log| {
        assert LoadedBetween(tr, c.since, k, c.log[m]);
      } else {
        assert tr[k].Load(a) == c'.log[m].value;
      }
    }
  }

  lemma LogStarts(tr: seq<State>, steps: seq<Step>, k: nat, r: Thread)
    requires IsRun(tr, steps) && k < |steps| && steps[k] == LoadFirst(r) && tr[k].clock == k
    requires tr[k + 1].readers[r].Copying?
    ensures LogInv(tr, k + 1, tr[k + 1].readers[r])
  {
    assert tr[k + 1].readers[r] == AfterFirstLoad(tr[k].(clock := k + 1), tr[k].readers[r].tally);
  }

  lemma {:induction false} LogHistory(tr: seq<State>, steps: seq<Step>, k: nat, r: Thread)
    requires IsRun(tr, steps) && k < |tr|
    requires r in tr[k].readers && tr[k].readers[r].Copying?
    ensures LogInv(tr, k, tr[k].readers[r])
  {
    if k > 0 {
      var s, step := tr[k - 1], steps[k - 1];
      assert tr[k] == Apply(s, step);
      if step == LoadFirst(r) {
        CounterHolds(tr, steps, k - 1);
        LogStarts(tr, steps, k - 1, r);
      } else {
        LogHistory(tr, steps, k - 1, r);
        var a := if step.LoadCopy? && step.r == r then step.address else Counter;
        LogGrows(tr, k - 1, s.readers[r], tr[k].readers[r], a);
      }
    }
  }

  /** Step k of the run is the second counter load of reader r, and it meets the value of
      the first one. */
  ghost predicate Accepts(tr: seq<State>, steps: seq<Step>, k: nat, r: Thread) {
    && IsRun(tr, steps) && k < |steps| && steps[k] == LoadSecond(r)
    && tr[k + 1].readers[r].Accepted?
  }

  /** Fewer than 2^64 increments separate the two counter loads. */
  ghost predicate NoWrapAround(tr: seq<State>, steps: seq<Step>, k: nat, r: Thread)
    requires Accepts(tr, steps, k, r)
  {
    tr[k].Ticks() - tr[k].readers[r].ticks < WRAP
  }

  lemma SameResidue(a: nat, b: nat)
    requires a <= b < a + WRAP && a % WRAP == b % WRAP
    ensures a == b
  {
    assert a == WRAP * (a / WRAP) + a % WRAP;
    assert b == WRAP * (b / WRAP) + b % WRAP;
  }

  /** Writers may overlap in any way: during an accepted read no write begins or ends, the
      same threads are inside their critical section all along, and their number is even. */
  lemma AcceptedReadMeetsNoBoundary(tr: seq<State>, steps: seq<Step>, k: nat, r: Thread, j: nat)
    requires Accepts(tr, steps, k, r) && NoWrapAround(tr, steps, k, r)
    requires tr[k].readers[r].since <= j <= k
    ensures tr[j].begun == tr[k].begun && tr[j].finished == tr[k].finished
    ensures tr[j].writers.Keys == tr[k].writers.Keys && |tr[k].writers| % 2 == 0
    ensures tr[j].sequence == tr[k].readers[r].seq1 && tr[j].sequence % 2 == 0
    ensures tr[k].writers == map[] ==> tr[j].cells == tr[k].cells
  {
    var c := tr[k].readers[r];
    LogHistory(tr, steps, k, r);
    CounterCountsWrites(tr, steps, c.since);
    CounterCountsWrites(tr, steps, j);
    CounterCountsWrites(tr, steps, k);
    TicksGrow(tr, steps, c.since, k);
    SameResidue(c.ticks, tr[k].Ticks());
    QuietStretch(tr, steps, c.since, j, k);
  }

  /** The copies in a log are what memory holds in a state. */
  ghost predicate LogMatches(s: State, log: seq<Access>) {
    forall a | a in log :: (a.address.Cell? ==> a.address.index < |s.cells|) && a.value == s.Load(a.address)
  }

  /** No accepted read has exactly one writer inside. If at most one is inside at the second
      load, nobody is, and the read is an untorn snapshot: nothing changed between the two
      counter loads, and every value in the log, the counter's own copy included, is the one
      memory held throughout. */
  lemma AcceptedReadIsSnapshot(tr: seq<State>, steps: seq<Step>, k: nat, r: Thread)
    requires Accepts(tr, steps, k, r) && NoWrapAround(tr, steps, k, r)
    ensures tr[k].writers == map[] <==> |tr[k].writers| <= 1
    ensures |tr[k].writers| <= 1 ==>
              && LogMatches(tr[k], tr[k + 1].readers[r].log)
              && forall j | tr[k].readers[r].since <= j <= k ::
                   tr[j].cells == tr[k].cells && tr[j].sequence == tr[k].sequence
    ensures tr[k + 1].readers[r].log == tr[k].readers[r].log
  {
    LogHistory(tr, steps, k, r);
    AcceptedReadMeetsNoBoundary(tr, steps, k, r, k);
    if |tr[k].writers| <= 1 {
      assert |tr[k].writers| == 0;
      QuietReadIsSnapshot(tr, steps, k, r);
    }
  }

  lemma QuietReadIsSnapshot(tr: seq<State>, steps: seq<Step>, k: nat, r: Thread)
    requires Accepts(tr, steps, k, r) && NoWrapAround(tr, steps, k, r) && tr[k].writers == map[]
    ensures forall j | tr[k].readers[r].since <= j <= k ::
              tr[j].cells == tr[k].cells && tr[j].sequence == tr[k].sequence
    ensures LogMatches(tr[k], tr[k].readers[r].log)
  {
    var c := tr[k].readers[r];
    LogHistory(tr, steps, k, r);
    AcceptedReadMeetsNoBoundary(tr, steps, k, r, k);
    forall j | c.since <= j <= k
      ensures tr[j].cells == tr[k].cells && tr[j].sequence == tr[k].sequence
    {
      AcceptedReadMeetsNoBoundary(tr, steps, k, r, j);
    }
    forall a | a in c.log
      ensures (a.address.Cell? ==> a.address.index < |tr[k].cells|) && a.value == tr[k].Load(a.address)
    {
      assert LoadedBetween(tr, c.since, k, a);
      var j :| c.since <= j <= k
        && (a.address.Cell? ==> a.address.index < |tr[j].cells|) && tr[j].Load(a.address) == a.value;
      assert tr[j].cells == tr[k].cells;
    }
  }

  // ---- Serialised writers: the snapshot is a prefix of the completed writes --------

  function Perform(cells: seq<int>, program: seq<Store>): (r: seq<int>)
    requires Fits(program, cells)
    ensures |r| == |cells|
    decreases |program|
  {
    if program == [] then cells
    else
      var last := |program| - 1;
      Perform(cells, program[..last])[program[last].cell := program[last].value]
  }

  /** The slot after performing whole writes one after the other. */
  function Replay(cells: seq<int>, writes: seq<seq<Store>>): (r: seq<int>)
    requires forall i | 0 <= i < |writes| :: Fits(writes[i], cells)
    ensures |r| == |cells|
    decreases |writes|
  {
    if writes == [] then cells
    else
      assert Fits(writes[|writes| - 1], cells);
      Perform(Replay(cells, writes[..|writes| - 1]), writes[|writes| - 1])
  }

  /** At most one writer at a time, as the comment on SeqLockWriter asks of its callers. */
  ghost predicate Serialised(tr: seq<State>) {
    forall i | 0 <= i < |tr| :: |tr[i].writers| <= 1
  }

  ghost predicate ReplayInv(cells0: seq<int>, s: State) {
    && |s.cells| == |cells0| && |s.committed| == s.finished
    && (forall i | 0 <= i < |s.committed| :: Fits(s.committed[i], cells0))
    && (forall w | w in s.writers :: Fits(s.writers[w].stored, cells0) && Fits(s.writers[w].pending, cells0))
    && (s.writers == map[] ==> s.cells == Replay(cells0, s.committed))
    && (forall w | w in s.writers :: s.cells == Perform(Replay(cells0, s.committed), s.writers[w].stored))
  }

  lemma SoleWriter(writers: map<Thread, Writer>, w: Thread)
    requires |writers| <= 1 && w in writers
    ensures writers.Keys == {w} && writers - {w} == map[]
  {
    assert |writers.Keys| == |writers|;
    assert |writers.Keys - {w}| == |writers.Keys| - 1;
    assert writers.Keys == writers.Keys - {w} + {w};
  }

  lemma ReplayBegin(cells0: seq<int>, s: State, step: Step)
    requires ReplayInv(cells0, s) && Enabled(s, step) && step.BeginWrite?
    requires |Apply(s, step).writers| <= 1
    ensures ReplayInv(cells0, Apply(s, step))
  {
    SoleWriter(Apply(s, step).writers, step.w);
    assert s.writers.Keys <= Apply(s, step).writers.Keys;
    assert s.writers == map[];
  }

  lemma ReplayStore(cells0: seq<int>, s: State, step: Step)
    requires ReplayInv(cells0, s) && Enabled(s, step) && step.StoreCell?
    requires |s.writers| <= 1
    ensures ReplayInv(cells0, Apply(s, step))
  {
    SoleWriter(s.writers, step.w);
    var stored, stored' := s.writers[step.w].stored, Apply(s, step).writers[step.w].stored;
    assert stored'[..|stored|] == stored;
  }

  lemma ReplayEnd(cells0: seq<int>, s: State, step: Step)
    requires ReplayInv(cells0, s) && Enabled(s, step) && step.EndWrite?
    requires |s.writers| <= 1
    ensures ReplayInv(cells0, Apply(s, step))
  {
    SoleWriter(s.writers, step.w);
    assert Apply(s, step).committed[..|s.committed|] == s.committed;
  }

  lemma ReplayStep(cells0: seq<int>, s: State, step: Step)
    requires ReplayInv(cells0, s) && Enabled(s, step)
    requires |s.writers| <= 1 && |Apply(s, step).writers| <= 1
    ensures ReplayInv(cells0, Apply(s, step))
  {
    match step
    case BeginWrite(_, _) => ReplayBegin(cells0, s, step);
    case StoreCell(_) => ReplayStore(cells0, s, step);
    case EndWrite(_) => ReplayEnd(cells0, s, step);
    case _ => assert Apply(s, step).writers == s.writers && Apply(s, step).cells == s.cells;
  }

  /** With serialised writers, whenever nobody is writing the slot holds exactly what the
      completed writes, performed whole and one after the other, leave in it. */
  lemma {:induction false} QuiescentSlotIsReplay(tr: seq<State>, steps: seq<Step>, i: nat)
    requires IsRun(tr, steps) && Serialised(tr) && i < |tr|
    ensures ReplayInv(tr[0].cells, tr[i])
  {
    if i > 0 {
      QuiescentSlotIsReplay(tr, steps, i - 1);
      ReplayStep(tr[0].cells, tr[i - 1], steps[i - 1]);
    }
  }

  // ---- A write performs the program it was begun with --------------------------------

  /** Step b begins a write of w, which has not ended before step k. */
  predicate InWrite(steps: seq<Step>, b: nat, k: nat, w: Thread, program: seq<Store>) {
    b < k <= |steps| && steps[b] == BeginWrite(w, program) && forall j | b < j < k :: steps[j] != EndWrite(w)
  }

  ghost predicate Owes(s: State, w: Thread, program: seq<Store>) {
    w in s.writers && s.writers[w].stored + s.writers[w].pending == program
  }

  lemma OwesAfterStep(s: State, step: Step, w: Thread, program: seq<Store>)
    requires Enabled(s, step) && Owes(s, w, program) && step != EndWrite(w)
    ensures Owes(Apply(s, step), w, program)
  {
  }

  lemma {:induction false} WriterOwesProgram(
      tr: seq<State>, steps: seq<Step>, b: nat, k: nat, w: Thread, program: seq<Store>)
    requires IsRun(tr, steps) && InWrite(steps, b, k, w, program)
    ensures Owes(tr[k], w, program)
    decreases k
  {
    if k == b + 1 {
      assert tr[k] == Apply(tr[b], steps[b]);
    } else {
      WriterOwesProgram(tr, steps, b, k - 1, w, program);
      OwesAfterStep(tr[k - 1], steps[k - 1], w, program);
    }
  }

  /** Writers may overlap in any way: a write that ends has performed exactly the stores it was
      begun with, in order. */
  lemma WriteCommitsItsProgram(tr: seq<State>, steps: seq<Step>, b: nat, e: nat, w: Thread, program: seq<Store>)
    requires IsRun(tr, steps) && InWrite(steps, b, e, w, program) && e < |steps| && steps[e] == EndWrite(w)
    ensures tr[e + 1].committed == tr[e].committed + [program]
  {
    WriterOwesProgram(tr, steps, b, e, w, program);
    assert tr[e + 1] == Apply(tr[e], steps[e]);
    assert program == tr[e].writers[w].stored + [] == tr[e].writers[w].stored;
  }

  /** The last store to a cell decides; a cell without a store stays. */
  ghost predicate Performed(before: seq<int>, after: seq<int>, program: seq<Store>)
    requires |before| == |after| && Fits(program, before)
  {
    && (forall i | 0 <= i < |program| && (forall j | i < j < |program| :: program[j].cell != program[i].cell) ::
          after[program[i].cell] == program[i].value)
    && (forall c | 0 <= c < |before| && (forall i | 0 <= i < |program| :: program[i].cell != c) ::
          after[c] == before[c])
  }

  lemma {:induction false} PerformIsPerformed(cells: seq<int>, program: seq<Store>)
    requires Fits(program, cells)
    ensures Performed(cells, Perform(cells, program), program)
    decreases |program|
  {
    if program != [] {
      var last := |program| - 1;
      var init := program[..last];
      PerformIsPerformed(cells, init);
      forall i | 0 <= i < |program| && (forall j | i < j < |program| :: program[j].cell != program[i].cell)
        ensures Perform(cells, program)[program[i].cell] == program[i].value
      {
        if i < last {
          assert program[last].cell != program[i].cell && init[i] == program[i];
        }
      }
      forall c | 0 <= c < |cells| && (forall i | 0 <= i < |program| :: program[i].cell != c)
        ensures Perform(cells, program)[c] == cells[c]
      {
        assert program[last].cell != c && forall i | 0 <= i < last :: init[i] == program[i];
      }
    }
  }

  ghost predicate StoredSoFar(cells: seq<int>, s: State, w: Thread) {
    && w in s.writers && |s.writers| <= 1 && |s.cells| == |cells|
    && Fits(s.writers[w].stored, cells) && Fits(s.writers[w].pending, cells)
    && s.cells == Perform(cells, s.writers[w].stored)
  }

  lemma SecondWriterOverlaps(s: State, step: Step, w: Thread)
    requires Enabled(s, step) && w in s.writers
    ensures step.BeginWrite? ==> |Apply(s, step).writers| >= 2
  {
    if step.BeginWrite? {
      var after := Apply(s, step).writers;
      assert {w, step.w} <= after.Keys && |{w, step.w}| == 2;
      SubsetIsSmaller({w, step.w}, after.Keys);
      assert |after.Keys| == |after|;
    }
  }

  lemma SubsetIsSmaller(a: set<Thread>, b: set<Thread>)
    requires a <= b
    ensures |a| <= |b|
  {
    assert b == a + (b - a);
  }

  lemma StoredAfterStep(cells: seq<int>, s: State, step: Step, w: Thread, s': State)
    requires Enabled(s, step) && StoredSoFar(cells, s, w) && step != EndWrite(w)
    requires s' == Apply(s, step) && |s'.writers| <= 1
    ensures StoredSoFar(cells, s', w)
  {
    SoleWriter(s.writers, w);
    SecondWriterOverlaps(s, step, w);
    if step.StoreCell? {
      var stored, stored' := s.writers[w].stored, s'.writers[w].stored;
      assert stored'[..|stored|] == stored;
    }
  }

  lemma StoredAtBegin(s: State, step: Step, s': State)
    requires Enabled(s, step) && step.BeginWrite? && s' == Apply(s, step) && |s'.writers| <= 1
    ensures StoredSoFar(s.cells, s', step.w)
  {
    assert s'.writers[step.w] == Writer([], step.program);
  }

  lemma RunStep(tr: seq<State>, steps: seq<Step>, k: nat)
    requires IsRun(tr, steps) && Serialised(tr) && k < |steps|
    ensures Enabled(tr[k], steps[k]) && tr[k + 1] == Apply(tr[k], steps[k]) && |tr[k + 1].writers| <= 1
  {
  }

  lemma StoredAtRunBegin(tr: seq<State>, steps: seq<Step>, b: nat)
    requires IsRun(tr, steps) && Serialised(tr) && b < |steps| && steps[b].BeginWrite?
    ensures StoredSoFar(tr[b].cells, tr[b + 1], steps[b].w)
  {
    RunStep(tr, steps, b);
    StoredAtBegin(tr[b], steps[b], tr[b + 1]);
  }

  lemma StoredAfterRunStep(tr: seq<State>, steps: seq<Step>, cells: seq<int>, k: nat, w: Thread)
    requires IsRun(tr, steps) && Serialised(tr) && k < |steps|
    requires StoredSoFar(cells, tr[k], w) && steps[k] != EndWrite(w)
    ensures StoredSoFar(cells, tr[k + 1], w)
  {
    RunStep(tr, steps, k);
    StoredAfterStep(cells, tr[k], steps[k], w, tr[k + 1]);
  }

  lemma {:induction false} StoresOfSoleWriter(
      tr: seq<State>, steps: seq<Step>, b: nat, k: nat, w: Thread, program: seq<Store>)
    requires IsRun(tr, steps) && Serialised(tr) && InWrite(steps, b, k, w, program)
    ensures StoredSoFar(tr[b].cells, tr[k], w)
    decreases k
  {
    if k == b + 1 {
      StoredAtRunBegin(tr, steps, b);
    } else {
      StoresOfSoleWriter(tr, steps, b, k - 1, w, program);
      StoredAfterRunStep(tr, steps, tr[b].cells, k - 1, w);
    }
  }

  /** With serialised writers a write that ends leaves in each cell the last value its program
      stores there, and what the cell held when it began where the program stores nothing. */
  lemma SerialisedWriteIsPerformed(tr: seq<State>, steps: seq<Step>, b: nat, e: nat, w: Thread, program: seq<Store>)
    requires IsRun(tr, steps) && Serialised(tr)
    requires InWrite(steps, b, e, w, program) && e < |steps| && steps[e] == EndWrite(w)
    ensures |tr[e + 1].cells| == |tr[b].cells| && Fits(program, tr[b].cells)
    ensures Performed(tr[b].cells, tr[e + 1].cells, program)
  {
    StoresOfSoleWriter(tr, steps, b, e, w, program);
    WriterOwesProgram(tr, steps, b, e, w, program);
    assert tr[e + 1] == Apply(tr[e], steps[e]);
    assert tr[e].writers[w].stored == program;
    PerformIsPerformed(tr[b].cells, program);
  }

  /** The programs begun by the first k steps, in order. */
  function Begun(steps: seq<Step>, k: nat): seq<seq<Store>>
    requires k <= |steps|
  {
    if k == 0 then []
    else Begun(steps, k - 1) + (if steps[k - 1].BeginWrite? then [steps[k - 1].program] else [])
  }

  /** Completed writes are the first programs begun; a write in progress is the last one. */
  ghost predicate BegunInv(programs: seq<seq<Store>>, s: State) {
    && |programs| == s.begun && s.finished <= s.begun && s.committed == programs[..s.finished]
    && (s.writers == map[] ==> s.finished == s.begun)
    && (forall w | w in s.writers :: s.finished + 1 == s.begun && Owes(s, w, programs[s.finished]))
  }

  lemma BegunAfterBegin(programs: seq<seq<Store>>, s: State, step: Step)
    requires BegunInv(programs, s) && Enabled(s, step) && step.BeginWrite? && |Apply(s, step).writers| <= 1
    ensures BegunInv(programs + [step.program], Apply(s, step))
  {
    SoleWriter(Apply(s, step).writers, step.w);
    assert s.writers.Keys <= Apply(s, step).writers.Keys;
    assert s.writers == map[];
    assert programs[..s.finished] == (programs + [step.program])[..s.finished];
  }

  lemma BegunAfterEnd(programs: seq<seq<Store>>, s: State, step: Step)
    requires BegunInv(programs, s) && Enabled(s, step) && step.EndWrite? && |s.writers| <= 1
    ensures BegunInv(programs, Apply(s, step))
  {
    SoleWriter(s.writers, step.w);
    assert s.writers[step.w].stored == programs[s.finished];
    assert programs[..s.finished + 1] == programs[..s.finished] + [programs[s.finished]];
  }

  lemma BegunAfterStore(programs: seq<seq<Store>>, s: State, step: Step)
    requires BegunInv(programs, s) && Enabled(s, step) && !step.BeginWrite? && !step.EndWrite?
    ensures BegunInv(programs, Apply(s, step))
  {
    forall w | w in s.writers ensures Owes(Apply(s, step), w, programs[s.finished]) {
      OwesAfterStep(s, step, w, programs[s.finished]);
    }
    assert Apply(s, step).writers.Keys == s.writers.Keys;
    assert s.writers == map[] ==> Apply(s, step).writers == map[];
    assert Apply(s, step).writers == map[] ==> s.writers.Keys == {};
  }

  lemma {:induction false} CompletedWritesAreThoseBegun(tr: seq<State>, steps: seq<Step>, i: nat)
    requires IsRun(tr, steps) && Serialised(tr) && i < |tr|
    ensures BegunInv(Begun(steps, i), tr[i])
  {
    if i > 0 {
      CompletedWritesAreThoseBegun(tr, steps, i - 1);
      var s, step := tr[i - 1], steps[i - 1];
      assert tr[i] == Apply(s, step);
      if step.BeginWrite? {
        BegunAfterBegin(Begun(steps, i - 1), s, step);
      } else {
        assert Begun(steps, i) == Begun(steps, i - 1);
        if step.EndWrite? {
          BegunAfterEnd(Begun(steps, i - 1), s, step);
        } else {
          BegunAfterStore(Begun(steps, i - 1), s, step);
        }
      }
    }
  }

  lemma QuietStateHasAllBegun(tr: seq<State>, steps: seq<Step>, i: nat)
    requires IsRun(tr, steps) && Serialised(tr) && i < |tr| && tr[i].writers == map[]
    ensures Begun(steps, i) == tr[i].committed && |Begun(steps, i)| == tr[i].finished
  {
    CompletedWritesAreThoseBegun(tr, steps, i);
    assert Begun(steps, i)[..tr[i].finished] == Begun(steps, i);
  }

  lemma QuietSlotIsReplay(tr: seq<State>, steps: seq<Step>, i: nat)
    requires IsRun(tr, steps) && Serialised(tr) && i < |tr| && tr[i].writers == map[]
    ensures |Begun(steps, i)| == tr[i].finished && forall p | p in Begun(steps, i) :: Fits(p, tr[0].cells)
    ensures tr[i].cells == Replay(tr[0].cells, Begun(steps, i))
  {
    QuiescentSlotIsReplay(tr, steps, i);
    QuietStateHasAllBegun(tr, steps, i);
  }

  /** The seqlock is linearizable when writers are serialised: an accepted read returns, cell
      by cell, the slot as the `n` writes begun so far leave it, performed whole and in the order
      begun. All of them, and no others, were complete at every instant between the two counter
      loads; the counter it copied and the even version it checked are both 2n. */
  lemma SerialisedReadsAreLinearizable(tr: seq<State>, steps: seq<Step>, k: nat, r: Thread) returns (n: nat)
    requires Accepts(tr, steps, k, r) && NoWrapAround(tr, steps, k, r)
    requires Serialised(tr)
    ensures n == |Begun(steps, k)| && forall p | p in Begun(steps, k) :: Fits(p, tr[0].cells)
    ensures forall j | tr[k].readers[r].since <= j <= k :: tr[j].finished == n && tr[j].begun == n
    ensures tr[k + 1].readers[r].seq1 == 2 * n % WRAP
    ensures var snapshot := Replay(tr[0].cells, Begun(steps, k));
            forall a | a in tr[k + 1].readers[r].log ::
              && (a.address.Counter? ==> a.value == 2 * n % WRAP)
              && (a.address.Cell? ==> a.address.index < |snapshot| && a.value == snapshot[a.address.index])
  {
    n := tr[k].finished;
    CounterCountsWrites(tr, steps, k);
    AcceptedReadIsSnapshot(tr, steps, k, r);
    QuietSlotIsReplay(tr, steps, k);
    forall j | tr[k].readers[r].since <= j <= k ensures tr[j].finished == n && tr[j].begun == n {
      AcceptedReadMeetsNoBoundary(tr, steps, k, r, j);
    }
  }

  // ---- Without serialisation: a torn read -----------------------------------------

  lemma ExtendRun(tr: seq<State>, steps: seq<Step>, step: Step) returns (tr': seq<State>, steps': seq<Step>)
    requires IsRun(tr, steps) && Enabled(tr[|steps|], step)
    ensures IsRun(tr', steps') && steps' == steps + [step]
    ensures tr' == tr + [Apply(tr[|steps|], step)]
  {
    tr', steps' := tr + [Apply(tr[|steps|], step)], steps + [step];
  }

  predicate InSlot(s: State, addresses: seq<Address>) {
    forall i | 0 <= i < |addresses| :: addresses[i].Cell? ==> addresses[i].index < |s.cells|
  }

  /** What a state holds at these addresses: the counter as it is, the cells as they are. */
  function CopyOf(s: State, addresses: seq<Address>): (log: seq<Access>)
    requires InSlot(s, addresses)
    ensures |log| == |addresses|
  {
    seq(|addresses|, i requires 0 <= i < |addresses| =>
      Access(addresses[i], if addresses[i].Counter? then s.sequence else s.cells[addresses[i].index]))
  }

  function WithLog(c: Reader, log: seq<Access>): Reader
    requires c.Copying?
  {
    Copying(c.tally, c.seq1, log, c.ticks, c.since)
  }

  function Copies(r: Thread, addresses: seq<Address>): seq<Step> {
    seq(|addresses|, i requires 0 <= i < |addresses| => LoadCopy(r, addresses[i]))
  }

  /** Same slot, same writers; only the reader has moved. */
  predicate Undisturbed(s: State, s': State) {
    s'.cells == s.cells && s'.sequence == s.sequence && s'.writers == s.writers
    && s'.begun == s.begun && s'.finished == s.finished
  }

  lemma CopyAll(tr: seq<State>, steps: seq<Step>, r: Thread, addresses: seq<Address>)
    returns (tr': seq<State>, steps': seq<Step>)
    requires IsRun(tr, steps) && InSlot(tr[|steps|], addresses)
    requires r in tr[|steps|].readers && tr[|steps|].readers[r].Copying? && tr[|steps|].readers[r].log == []
    ensures IsRun(tr', steps') && steps' == steps + Copies(r, addresses) && tr <= tr'
    ensures var s, s' := tr[|steps|], tr'[|steps'|];
            && Undisturbed(s, s') && r in s'.readers
            && s'.readers[r] == WithLog(s.readers[r], CopyOf(s, addresses))
    decreases |addresses|
  {
    var s := tr[|steps|];
    if addresses == [] {
      tr', steps' := tr, steps;
      assert steps + Copies(r, []) == steps;
      assert CopyOf(s, []) == [];
    } else {
      var init, last := addresses[..|addresses| - 1], addresses[|addresses| - 1];
      var tr1, steps1 := CopyAll(tr, steps, r, init);
      tr', steps' := ExtendRun(tr1, steps1, LoadCopy(r, last));
      assert Copies(r, addresses) == Copies(r, init) + [LoadCopy(r, last)];
      assert CopyOf(s, addresses) == CopyOf(s, init) + [Access(last, s.Load(last))];
    }
  }

  lemma CallAndLoad(tr: seq<State>, steps: seq<Step>, r: Thread) returns (tr': seq<State>, steps': seq<Step>)
    requires IsRun(tr, steps) && CanCall(tr[|steps|], r)
    ensures IsRun(tr', steps') && steps' == steps + [CallRead(r), LoadFirst(r)] && tr <= tr'
    ensures Undisturbed(tr[|steps|], tr'[|steps'|]) && r in tr'[|steps'|].readers
    ensures var s, t := tr[|steps|], Tally(0, 0, 0, tr[|steps|].Ticks());
            tr'[|steps'|].readers[r] == if s.sequence % 2 == 1 then Retry(t.(odd := 1))
                                        else Copying(t, s.sequence, [], s.Ticks(), |steps| + 2)
  {
    tr', steps' := ExtendRun(tr, steps, CallRead(r));
    tr', steps' := ExtendRun(tr', steps', LoadFirst(r));
    CounterHolds(tr', steps', |steps| + 1);
  }

  /** Such reads exist. From every reachable state, whoever is in the middle of a write: if the
      number of writers inside is even, a read that nobody disturbs can copy the counter and any
      cells in any order, and is accepted, unfinished stores included. With two or more writers
      inside that is a torn read. */
  lemma UndisturbedReadIsAccepted(tr: seq<State>, steps: seq<Step>, r: Thread, addresses: seq<Address>)
    returns (tr': seq<State>, steps': seq<Step>)
    requires IsRun(tr, steps) && CanCall(tr[|steps|], r) && |tr[|steps|].writers| % 2 == 0
    requires InSlot(tr[|steps|], addresses)
    ensures var s := tr[|steps|];
            && steps' == steps + [CallRead(r), LoadFirst(r)] + Copies(r, addresses) + [LoadSecond(r)]
            && tr <= tr' && Accepts(tr', steps', |steps'| - 1, r) && NoWrapAround(tr', steps', |steps'| - 1, r)
            && tr'[|steps'|].readers[r].log == CopyOf(s, addresses)
            && Undisturbed(s, tr'[|steps'|])
  {
    CounterCountsWrites(tr, steps, |steps|);
    tr', steps' := CallAndLoad(tr, steps, r);
    assert CopyOf(tr'[|steps'|], addresses) == CopyOf(tr[|steps|], addresses);
    tr', steps' := CopyAll(tr', steps', r, addresses);
    tr', steps' := ExtendRun(tr', steps', LoadSecond(r));
  }

  lemma LoadOddAgain(tr: seq<State>, steps: seq<Step>, r: Thread, n: nat) returns (tr': seq<State>, steps': seq<Step>)
    requires IsRun(tr, steps) && r in tr[|steps|].readers && tr[|steps|].readers[r].Top?
    requires tr[|steps|].sequence % 2 == 1 && n == MAX_RETRY_COUNT + 1 - tr[|steps|].readers[r].tally.retries
    requires tr[|steps|].readers[r].tally.retries <= MAX_RETRY_COUNT
    ensures IsRun(tr', steps') && steps' == steps + seq(n, _ => LoadFirst(r)) && tr <= tr'
    ensures Undisturbed(tr[|steps|], tr'[|steps'|])
    ensures r in tr'[|steps'|].readers && tr'[|steps'|].readers[r].GaveUp?
    decreases n
  {
    tr', steps' := ExtendRun(tr, steps, LoadFirst(r));
    if n > 1 {
      tr', steps' := LoadOddAgain(tr', steps', r, n - 1);
      assert [LoadFirst(r)] + seq(n - 1, _ => LoadFirst(r)) == seq(n, _ => LoadFirst(r));
    }
  }

  /** If the number of writers inside is odd, a read that nobody disturbs gives up after its
      1001 attempts. */
  lemma UndisturbedReadGivesUp(tr: seq<State>, steps: seq<Step>, r: Thread) returns (tr': seq<State>, steps': seq<Step>)
    requires IsRun(tr, steps) && CanCall(tr[|steps|], r) && |tr[|steps|].writers| % 2 == 1
    ensures IsRun(tr', steps') && steps' == steps + [CallRead(r)] + seq(1001, _ => LoadFirst(r)) && tr <= tr'
    ensures Undisturbed(tr[|steps|], tr'[|steps'|])
    ensures r in tr'[|steps'|].readers && tr'[|steps'|].readers[r].GaveUp?
  {
    CounterCountsWrites(tr, steps, |steps|);
    tr', steps' := ExtendRun(tr, steps, CallRead(r));
    tr', steps' := LoadOddAgain(tr', steps', r, 1001);
  }

  /** From step c, a call of Read by r, to step k nobody but r takes a step of that call. */
  predicate ReadsAlone(steps: seq<Step>, c: nat, k: nat, r: Thread) {
    && c < k <= |steps| && steps[c] == CallRead(r)
    && forall j | c < j < k ::
         steps[j] == LoadFirst(r) || steps[j] == LoadSecond(r) || (steps[j].LoadCopy? && steps[j].r == r)
  }

  /** Where such a call can stand when it was made in state s. */
  ghost predicate StandsAlone(s: State, x: Reader) {
    match x
    case Top(t) => t.retries > 0 ==> s.sequence % 2 == 1
    case Copying(_, seq1, log, _, _) => s.sequence % 2 == 0 && seq1 == s.sequence && LogMatches(s, log)
    case Accepted(_, seq1, log) => s.sequence % 2 == 0 && seq1 == s.sequence && LogMatches(s, log)
    case GaveUp(_) => s.sequence % 2 == 1
  }

  lemma AloneStep(s: State, s0: State, step: Step, r: Thread)
    requires Enabled(s, step) && (step == LoadFirst(r) || step == LoadSecond(r) || (step.LoadCopy? && step.r == r))
    requires Undisturbed(s0, s) && r in s.readers && StandsAlone(s0, s.readers[r])
    ensures var s' := Apply(s, step);
            Undisturbed(s0, s') && r in s'.readers && StandsAlone(s0, s'.readers[r])
  {
  }

  lemma {:induction false} AloneHistory(tr: seq<State>, steps: seq<Step>, c: nat, k: nat, r: Thread)
    requires IsRun(tr, steps) && ReadsAlone(steps, c, k, r)
    ensures Undisturbed(tr[c], tr[k]) && r in tr[k].readers && StandsAlone(tr[c], tr[k].readers[r])
    decreases k
  {
    if k == c + 1 {
      assert tr[c + 1] == Apply(tr[c], steps[c]);
    } else {
      AloneHistory(tr, steps, c, k - 1, r);
      AloneStep(tr[k - 1], tr[c], steps[k - 1], r);
    }
  }

  /** Every undisturbed read, in every run: whatever cells it copies and however often, when it
      has finished it has been accepted if and only if the number of writers inside is even; its
      log is then what the slot holds, unfinished stores included. */
  lemma UndisturbedReadIsAcceptedExactlyIfEven(tr: seq<State>, steps: seq<Step>, c: nat, k: nat, r: Thread)
    requires IsRun(tr, steps) && ReadsAlone(steps, c, k, r)
    ensures Undisturbed(tr[c], tr[k]) && r in tr[k].readers
    ensures tr[k].readers[r].Accepted? || tr[k].readers[r].GaveUp? ==>
              (tr[k].readers[r].Accepted? <==> |tr[c].writers| % 2 == 0)
    ensures tr[k].readers[r].Accepted? ==> LogMatches(tr[c], tr[k].readers[r].log)
  {
    AloneHistory(tr, steps, c, k, r);
    CounterCountsWrites(tr, steps, c);
  }

  /** An attempt gets past its first load exactly if the number of writers inside is even. */
  lemma FirstLoadPassesExactlyIfEven(tr: seq<State>, steps: seq<Step>, k: nat, r: Thread)
    requires IsRun(tr, steps) && k < |steps| && steps[k] == LoadFirst(r)
    ensures tr[k + 1].readers[r].Copying? <==> |tr[k].writers| % 2 == 0
  {
    CounterCountsWrites(tr, steps, k);
  }

  lemma StoreAll(tr: seq<State>, steps: seq<Step>, w: Thread) returns (tr': seq<State>, steps': seq<Step>)
    requires IsRun(tr, steps) && w in tr[|steps|].writers && Fits(tr[|steps|].writers[w].pending, tr[|steps|].cells)
    ensures IsRun(tr', steps') && tr <= tr'
    ensures steps' == steps + seq(|tr[|steps|].writers[w].pending|, _ => StoreCell(w))
    ensures var s, s' := tr[|steps|], tr'[|steps'|];
            && s'.writers.Keys == s.writers.Keys && s'.writers[w].pending == []
            && s'.begun == s.begun && s'.finished == s.finished && s'.readers == s.readers
    decreases |tr[|steps|].writers[w].pending|
  {
    var pending := tr[|steps|].writers[w].pending;
    if pending == [] {
      tr', steps' := tr, steps;
      assert steps == steps + seq(0, _ => StoreCell(w));
    } else {
      tr', steps' := ExtendRun(tr, steps, StoreCell(w));
      assert tr'[|steps'|].writers[w].pending == pending[1..];
      assert tr'[|steps'|].writers.Keys == tr[|steps|].writers.Keys;
      tr', steps' := StoreAll(tr', steps', w);
      assert [StoreCell(w)] + seq(|pending| - 1, _ => StoreCell(w)) == seq(|pending|, _ => StoreCell(w));
    }
  }

  /** From every reachable state every thread that is not writing can write any program to its
      end, one store after the other. */
  lemma AnyWriteCanComplete(tr: seq<State>, steps: seq<Step>, w: Thread, program: seq<Store>)
    returns (tr': seq<State>, steps': seq<Step>)
    requires IsRun(tr, steps) && w !in tr[|steps|].writers && Fits(program, tr[|steps|].cells)
    ensures IsRun(tr', steps') && tr <= tr'
    ensures steps' == steps + [BeginWrite(w, program)] + seq(|program|, _ => StoreCell(w)) + [EndWrite(w)]
    ensures tr'[|steps'|].finished == tr[|steps|].finished + 1 && tr'[|steps'|].writers.Keys == tr[|steps|].writers.Keys
  {
    tr', steps' := ExtendRun(tr, steps, BeginWrite(w, program));
    tr', steps' := StoreAll(tr', steps', w);
    tr', steps' := ExtendRun(tr', steps', EndWrite(w));
  }

  /** A call of Read can be made unless the thread is in the middle of one. */
  predicate CanCall(s: State, r: Thread) {
    r !in s.readers || s.readers[r].Accepted? || s.readers[r].GaveUp?
  }

  /** Two overlapping writers; the first has performed one of its two stores. */
  lemma OverlappingWriters() returns (tr: seq<State>, steps: seq<Step>)
    ensures IsRun(tr, steps) && |steps| == 3
    ensures forall j | 0 <= j < |tr| :: tr[j].writers == map[] ==> tr[j].cells == [0, 0]
    ensures var s := tr[3]; 1 in s.writers && s.sequence == 2 && s.begun == 2 && s.finished == 0
    ensures tr[3].cells == [1, 0] && tr[3].readers == map[]
  {
    tr, steps := [State(0, [0, 0], map[], map[], 0, 0, [], 0)], [];
    tr, steps := ExtendRun(tr, steps, BeginWrite(1, [Store(0, 1), Store(1, 1)]));
    tr, steps := ExtendRun(tr, steps, BeginWrite(2, []));
    tr, steps := ExtendRun(tr, steps, StoreCell(1));
    assert 1 in tr[1].writers && 1 in tr[2].writers;
  }

  /** fetch_add does not exclude a second writer: two overlapping writers make the counter
      even again, and a reader accepts one cell of an unfinished write beside an untouched
      one, although the slot held [0, 0] whenever nobody was writing. */
  lemma OverlappingWritersTearARead() returns (tr: seq<State>, steps: seq<Step>)
    ensures |steps| == 8 && Accepts(tr, steps, 7, 9) && NoWrapAround(tr, steps, 7, 9)
    ensures tr[8].readers[9].log == [Access(Cell(0), 1), Access(Cell(1), 0)]
    ensures forall j | 0 <= j < |tr| :: tr[j].writers == map[] ==> tr[j].cells == [0, 0]
  {
    tr, steps := OverlappingWriters();
    var w := tr[3].writers;
    tr, steps := ExtendRun(tr, steps, CallRead(9));
    tr, steps := ExtendRun(tr, steps, LoadFirst(9));
    assert tr[5].readers[9] == Copying(Tally(0, 0, 0, 2), 2, [], 2, tr[4].clock + 1);
    tr, steps := ExtendRun(tr, steps, LoadCopy(9, Cell(0)));
    tr, steps := ExtendRun(tr, steps, LoadCopy(9, Cell(1)));
    assert tr[7].readers[9].log == [Access(Cell(0), 1), Access(Cell(1), 0)];
    tr, steps := ExtendRun(tr, steps, LoadSecond(9));
    assert forall j | 3 <= j < |tr| :: tr[j].writers == w;
  }

  // ---- Bounded retries --------------------------------------------------------------

  ghost predicate TallyInv(s: State, r: Reader) {
    var t := r.tally;
    && t.retries == t.odd + t.changed
    && t.calledAt + t.changed <= s.Ticks()
    && (r.GaveUp? ==> t.retries == MAX_RETRY_COUNT + 1)
    && (!r.GaveUp? ==> t.retries <= MAX_RETRY_COUNT)
    && (r.Copying? ==> r.ticks <= s.Ticks() && t.calledAt + t.changed <= r.ticks && r.seq1 == r.ticks % WRAP)
  }

  lemma TallyStep(s: State, step: Step, r: Thread)
    requires CounterInv(s) && Enabled(s, step) && r in Apply(s, step).readers
    requires r in s.readers ==> TallyInv(s, s.readers[r])
    ensures TallyInv(Apply(s, step), Apply(s, step).readers[r])
  {
    match step
    case LoadFirst(_) =>
    case LoadSecond(_) =>
    case _ =>
  }

  /** A call of Read makes at most 1001 attempts. It returns empty only after 1001 of them,
      each of which met an odd or a changed counter, and each change took an increment of its
      own; so a call that never meets an odd counter and during which fewer than 1001
      increments happen does not give up. */
  lemma {:induction false} RetriesAreBounded(tr: seq<State>, steps: seq<Step>, i: nat, r: Thread)
    requires IsRun(tr, steps) && i < |tr| && r in tr[i].readers
    ensures TallyInv(tr[i], tr[i].readers[r])
    ensures var t := tr[i].readers[r].tally;
            && t.retries <= 1001
            && (tr[i].readers[r].GaveUp? ==> t.odd + t.changed == 1001)
            && (t.odd == 0 && tr[i].Ticks() - t.calledAt < 1001 ==> !tr[i].readers[r].GaveUp?)
  {
    if i > 0 {
      CounterHolds(tr, steps, i - 1);
      if r in tr[i - 1].readers {
        RetriesAreBounded(tr, steps, i - 1, r);
      }
      TallyStep(tr[i - 1], steps[i - 1], r);
    }
  }
}
