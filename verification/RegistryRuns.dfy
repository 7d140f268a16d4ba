/** Every run of registry operations against a simple map from slots to registrations. */
module RegistryRuns {
  import opened Common
  import opened ServiceRegistry

  /** The state after a list of operations on two freshly mapped arrays. */
  function Run(ops: seq<Op>): (d: Dual)
    ensures d.Valid() && |d.qm| == |d.asil| == MAX_SLOTS
    decreases |ops|
  {
    if ops == [] then Fresh() else Step(Run(ops[..|ops| - 1]), ops[|ops| - 1])
  }

  // ---- The reference: what the operations on one slot amount to -----------------------

  datatype Side = QmSide | AsilSide

  datatype Entry = Entry(g: Registration, heartbeat: nat, pid: int)

  /** Operations on this id reach slot k of that side. */
  predicate Touches(id: nat, side: Side, k: nat) {
    id % 1024 == k && k != 0 && (if side.QmSide? then !SelectRegistry(id).Asil? else !SelectRegistry(id).Qm?)
  }

  function Now(op: Op, side: Side): nat
    requires op.RegisterOp?
  {
    if side.QmSide? then op.qmNow else op.asilNow
  }

  /** The map entry of slot k: a registration fills an empty slot and is refused by a full one;
      an unregistration empties it, whoever filled it; a heartbeat updates a full slot. */
  function History(ops: seq<Op>, side: Side, k: nat): Option<Entry>
    decreases |ops|
  {
    if ops == [] then None
    else
      var before, op := History(ops[..|ops| - 1], side, k), ops[|ops| - 1];
      if Touches(op.ServiceId(), side, k) then Next(before, op, side) else before
  }

  function Next(before: Option<Entry>, op: Op, side: Side): Option<Entry> {
    match op
    case RegisterOp(g, _, _, pid) => if before.None? then Some(Entry(g, Now(op, side), pid)) else before
    case UnregisterOp(_) => None
    case HeartbeatOp(_, t) => if before.Some? then Some(before.value.(heartbeat := t)) else None
  }

  /** An active record carries everything the registration gave, its strings cut to what the
      arrays hold. */
  predicate Carries(s: Slot, e: Entry) {
    && s.Valid() && s.IsActive() && s.status == 1
    && s.serviceId == e.g.serviceId && s.instanceId == e.g.instanceId
    && s.majorVersion == e.g.majorVersion && s.minorVersion == e.g.minorVersion
    && Text(s.bindingType) == Cut(Text(e.g.bindingType), 15)
    && Text(s.endpoint) == Cut(Text(e.g.endpoint), 79)
    && s.lastHeartbeat == e.heartbeat && s.ownerPid == e.pid && s.heartbeatInterval == 100
    && s.metadata == Nuls(64)
  }

  /** An empty slot is all zeros, but for the counter and the time of a heartbeat given to it. */
  predicate IsBlank(s: Slot) {
    && !s.IsActive() && s.status == 0 && s.ownerPid == 0 && s.heartbeatInterval == 0
    && s.serviceId == 0 && s.instanceId == 0 && s.majorVersion == 0 && s.minorVersion == 0
    && s.bindingType == Nuls(16) && s.endpoint == Nuls(80) && s.metadata == Nuls(64)
  }

  predicate Agrees(s: Slot, h: Option<Entry>) {
    && s.Valid() && s.sequence % 2 == 0
    && match h { case None => IsBlank(s) case Some(e) => Carries(s, e) }
  }

  function SlotOf(d: Dual, side: Side, k: nat): Slot
    requires |d.qm| == |d.asil| == MAX_SLOTS && k < MAX_SLOTS
  {
    if side.QmSide? then d.qm[k] else d.asil[k]
  }

  lemma FetchAddFlipsParity(n: nat)
    ensures FetchAdd(n) % 2 == (n + 1) % 2
  {
    var q := (n + 1) / WRAP;
    assert n + 1 == FetchAdd(n) + 2 * (0x8000_0000_0000_0000 * q);
  }

  lemma TwoFlips(a: nat, b: nat, c: nat)
    requires b % 2 == (a + 1) % 2 && c % 2 == (b + 1) % 2
    ensures c % 2 == a % 2
  {
  }

  lemma WrittenKeepsParity(n: nat)
    ensures FetchAdd(FetchAdd(n)) % 2 == n % 2
  {
    FetchAddFlipsParity(n);
    FetchAddFlipsParity(FetchAdd(n));
    TwoFlips(n, FetchAdd(n), FetchAdd(FetchAdd(n)));
  }

  /** What one operation does to one slot of one side. */
  function SlotAfter(s: Slot, op: Op, now: nat): Slot
    requires s.Valid()
  {
    match op
    case RegisterOp(g, _, _, pid) => if s.IsActive() then s else Registered(s, g, now, pid)
    case UnregisterOp(_) => Cleared(s)
    case HeartbeatOp(_, t) => Written(s).(lastHeartbeat := t)
  }

  lemma RegisteredAgrees(s: Slot, g: Registration, now: nat, pid: int)
    requires Agrees(s, None)
    ensures Agrees(Registered(s, g, now, pid), Some(Entry(g, now, pid)))
  {
    WrittenKeepsParity(s.sequence);
    AssignedText(s.bindingType, g.bindingType);
    AssignedText(s.endpoint, g.endpoint);
  }

  lemma ClearedAgrees(s: Slot)
    requires s.Valid() && s.sequence % 2 == 0
    ensures Agrees(Cleared(s), None)
  {
    WrittenKeepsParity(s.sequence);
  }

  lemma BeatenAgrees(s: Slot, h: Option<Entry>, t: nat)
    requires Agrees(s, h)
    ensures Agrees(Written(s).(lastHeartbeat := t), if h.Some? then Some(h.value.(heartbeat := t)) else None)
  {
    WrittenKeepsParity(s.sequence);
  }

  lemma AgreesTellsActive(s: Slot, h: Option<Entry>)
    requires Agrees(s, h)
    ensures s.Valid() && s.sequence % 2 == 0 && (s.IsActive() <==> h.Some?)
    ensures h.Some? ==> Carries(s, h.value) && s.serviceId == h.value.g.serviceId
  {
  }

  lemma AgreesAfter(s: Slot, h: Option<Entry>, op: Op, side: Side)
    requires Agrees(s, h) && s.Valid()
    ensures Agrees(SlotAfter(s, op, if op.RegisterOp? then Now(op, side) else 0), Next(h, op, side))
  {
    AgreesTellsActive(s, h);
    match op
    case RegisterOp(g, _, _, pid) =>
      if h.None? {
        RegisteredAgrees(s, g, Now(op, side), pid);
      }
    case UnregisterOp(_) => ClearedAgrees(s);
    case HeartbeatOp(_, t) => BeatenAgrees(s, h, t);
  }

  lemma StepOnSlot(d: Dual, op: Op, side: Side, k: nat)
    requires d.Valid() && |d.qm| == |d.asil| == MAX_SLOTS && k < MAX_SLOTS
    ensures SlotOf(d, side, k).Valid() && |Step(d, op).qm| == |Step(d, op).asil| == MAX_SLOTS
    ensures SlotOf(Step(d, op), side, k)
            == if Touches(op.ServiceId(), side, k)
               then SlotAfter(SlotOf(d, side, k), op, if op.RegisterOp? then Now(op, side) else 0)
               else SlotOf(d, side, k)
  {
  }

  /** In every run every slot of both arrays agrees with the map, and no seqlock counter is
      left odd. */
  lemma {:induction false} RunAgreesWithMap(ops: seq<Op>, side: Side, k: nat)
    requires k < MAX_SLOTS
    ensures Agrees(SlotOf(Run(ops), side, k), History(ops, side, k))
    decreases |ops|
  {
    if ops != [] {
      var prefix, op := ops[..|ops| - 1], ops[|ops| - 1];
      RunAgreesWithMap(prefix, side, k);
      StepOnSlot(Run(prefix), op, side, k);
      if Touches(op.ServiceId(), side, k) {
        AgreesAfter(SlotOf(Run(prefix), side, k), History(prefix, side, k), op, side);
      }
    }
  }

  function SideOf(id: nat): Side {
    if SelectRegistry(id).Asil? then AsilSide else QmSide
  }

  /** FindService(id) returns a record exactly when id's slot in id's registry was last filled
      by a registration of exactly that id; the record then carries that registration and the
      last heartbeat. */
  lemma FindRefinesMap(ops: seq<Op>, id: nat)
    ensures var h, r := History(ops, SideOf(id), id % 1024), FindDual(Run(ops), id);
            && (r.Some? <==> h.Some? && h.value.g.serviceId == id)
            && (r.Some? ==> Carries(r.value, h.value) && r.value.serviceId == id)
  {
    RunAgreesWithMap(ops, SideOf(id), id % 1024);
    SlotZeroIsNeverFilled(ops, SideOf(id));
    AgreesTellsActive(SlotOf(Run(ops), SideOf(id), id % 1024), History(ops, SideOf(id), id % 1024));
    var d := Run(ops);
    FindInArray(if SideOf(id).QmSide? then d.qm else d.asil, id);
  }

  lemma FindInArray(a: seq<Slot>, id: nat)
    requires IsArray(a) && |a| == MAX_SLOTS && a[id % 1024].sequence % 2 == 0
    ensures Find(a, id) == if id % 1024 != 0 && a[id % 1024].serviceId == id && a[id % 1024].IsActive()
                           then Some(a[id % 1024]) else None
  {
  }

  lemma {:induction false} SlotZeroIsNeverFilled(ops: seq<Op>, side: Side)
    ensures History(ops, side, 0).None?
    decreases |ops|
  {
    if ops != [] {
      SlotZeroIsNeverFilled(ops[..|ops| - 1], side);
    }
  }

  /** Which registration an entry stems from: the i-th operation, which found the slot empty,
      with no unregistration of the slot since. Conversely such an i makes the slot full. */
  ghost predicate FilledAt(ops: seq<Op>, side: Side, k: nat, i: nat) {
    && i < |ops| && ops[i].RegisterOp? && Touches(ops[i].ServiceId(), side, k)
    && History(ops[..i], side, k).None?
    && forall j | i < j < |ops| :: !(ops[j].UnregisterOp? && Touches(ops[j].ServiceId(), side, k))
  }

  predicate IsHeartbeat(op: Op, side: Side, k: nat) {
    op.HeartbeatOp? && Touches(op.ServiceId(), side, k)
  }

  ghost predicate NoHeartbeatSince(ops: seq<Op>, side: Side, k: nat, i: nat) {
    forall j | i < j < |ops| :: !IsHeartbeat(ops[j], side, k)
  }

  /** t is the time given by the last heartbeat after operation i, or, if there was none, the
      clock as the registration itself read it. */
  ghost predicate HeartbeatSince(ops: seq<Op>, side: Side, k: nat, i: nat, t: nat)
    requires i < |ops| && ops[i].RegisterOp?
  {
    || (NoHeartbeatSince(ops, side, k, i) && t == Now(ops[i], side))
    || exists j: nat :: i < j < |ops|
         && IsHeartbeat(ops[j], side, k) && t == ops[j].t && NoHeartbeatSince(ops, side, k, j)
  }

  lemma HeartbeatStands(ops: seq<Op>, op: Op, side: Side, k: nat, i: nat, t: nat)
    requires i < |ops| && ops[i].RegisterOp? && HeartbeatSince(ops, side, k, i, t)
    requires !IsHeartbeat(op, side, k)
    ensures HeartbeatSince(ops + [op], side, k, i, t)
  {
    var ops' := ops + [op];
    if NoHeartbeatSince(ops, side, k, i) && t == Now(ops[i], side) {
      assert NoHeartbeatSince(ops', side, k, i);
    } else {
      var j: nat :| i < j < |ops| && IsHeartbeat(ops[j], side, k) && t == ops[j].t && NoHeartbeatSince(ops, side, k, j);
      assert IsHeartbeat(ops'[j], side, k) && NoHeartbeatSince(ops', side, k, j);
    }
  }

  lemma {:induction false} EntryHasOrigin(ops: seq<Op>, side: Side, k: nat) returns (i: nat)
    requires History(ops, side, k).Some?
    ensures FilledAt(ops, side, k, i)
    ensures var e := History(ops, side, k).value;
            e.g == ops[i].g && e.pid == ops[i].pid && HeartbeatSince(ops, side, k, i, e.heartbeat)
    decreases |ops|
  {
    var n := |ops| - 1;
    var prefix, op := ops[..n], ops[n];
    assert ops == prefix + [op];
    if Touches(op.ServiceId(), side, k) && op.RegisterOp? && History(prefix, side, k).None? {
      i := n;
      assert NoHeartbeatSince(ops, side, k, n);
    } else {
      i := EntryHasOrigin(prefix, side, k);
      assert prefix[..i] == ops[..i];
      if IsHeartbeat(op, side, k) {
        assert IsHeartbeat(ops[n], side, k) && NoHeartbeatSince(ops, side, k, n);
      } else {
        HeartbeatStands(prefix, op, side, k, i, History(prefix, side, k).value.heartbeat);
      }
    }
  }

  lemma {:induction false} FilledSlotIsFull(ops: seq<Op>, side: Side, k: nat, i: nat)
    requires FilledAt(ops, side, k, i)
    ensures History(ops, side, k).Some? && History(ops, side, k).value.g == ops[i].g
    decreases |ops|
  {
    var n := |ops| - 1;
    if i < n {
      assert ops[..n][..i] == ops[..i];
      FilledSlotIsFull(ops[..n], side, k, i);
    }
  }

  /** The same as FindRefinesMap, in terms of the operations alone. */
  lemma FoundExactlyIfLastFilledBy(ops: seq<Op>, id: nat)
    ensures FindDual(Run(ops), id).Some? <==>
            exists i: nat :: FilledAt(ops, SideOf(id), id % 1024, i) && ops[i].g.serviceId == id
  {
    var side, k := SideOf(id), id % 1024;
    FindRefinesMap(ops, id);
    if FindDual(Run(ops), id).Some? {
      var i := EntryHasOrigin(ops, side, k);
      assert FilledAt(ops, side, k, i) && ops[i].g.serviceId == id;
    }
    if i: nat :| FilledAt(ops, side, k, i) && ops[i].g.serviceId == id {
      FilledSlotIsFull(ops, side, k, i);
    }
  }

  // ---- Consequences -------------------------------------------------------------------

  /** Of the ids that share a slot in one registry at most one is ever found. */
  lemma AtMostOneFound(ops: seq<Op>, a: nat, b: nat)
    requires SideOf(a) == SideOf(b) && a % 1024 == b % 1024
    requires FindDual(Run(ops), a).Some? && FindDual(Run(ops), b).Some?
    ensures a == b
  {
    FindRefinesMap(ops, a);
    FindRefinesMap(ops, b);
  }

  /** Unregistering b does not ask who owns the slot: it removes a exactly when b reaches a's
      slot, and otherwise leaves a's record as it is. */
  lemma UnregisterRemovesWhoeverIsThere(ops: seq<Op>, a: nat, b: nat)
    ensures FindDual(Run(ops + [UnregisterOp(b)]), a)
            == if Touches(b, SideOf(a), a % 1024) then None else FindDual(Run(ops), a)
  {
    var ops' := ops + [UnregisterOp(b)];
    assert ops'[..|ops|] == ops;
    if Touches(b, SideOf(a), a % 1024) {
      FindRefinesMap(ops', a);
    } else {
      StepOnSlot(Run(ops), UnregisterOp(b), SideOf(a), a % 1024);
    }
  }

  /** A registration succeeds exactly when every slot it reaches is empty. */
  lemma RegistrationSucceedsIfFree(ops: seq<Op>, op: Op)
    requires op.RegisterOp?
    ensures var id := op.ServiceId();
            StepOutcome(Run(ops), op).Done? <==>
            && id % 1024 != 0
            && (Touches(id, QmSide, id % 1024) ==> History(ops, QmSide, id % 1024).None?)
            && (Touches(id, AsilSide, id % 1024) ==> History(ops, AsilSide, id % 1024).None?)
  {
    var k := op.ServiceId() % 1024;
    RunAgreesWithMap(ops, QmSide, k);
    RunAgreesWithMap(ops, AsilSide, k);
    AgreesTellsActive(SlotOf(Run(ops), QmSide, k), History(ops, QmSide, k));
    AgreesTellsActive(SlotOf(Run(ops), AsilSide, k), History(ops, AsilSide, k));
  }

  /** What an operation reports on two mapped arrays. A broadcast registration is refused as soon
      as one of its slots is full; the other operations never ask whether a slot is full. */
  lemma OutcomesSayWhy(ops: seq<Op>, op: Op)
    ensures op.ServiceId() % 1024 == 0 ==> StepOutcome(Run(ops), op) == InvalidArgument
    ensures op.ServiceId() % 1024 != 0 && !op.RegisterOp? ==> StepOutcome(Run(ops), op) == Done
    ensures op.ServiceId() % 1024 != 0 && op.RegisterOp? ==>
              StepOutcome(Run(ops), op) == Done || StepOutcome(Run(ops), op) == ServiceNotOffered
  {
  }

  /** Before the arrays are mapped nothing is stored and nothing is found. */
  lemma UnmappedArraysRefuse(op: Op, id: nat)
    ensures var d := Dual([], []);
            && Step(d, op) == d && FindDual(d, id) == None
            && StepOutcome(d, op) == if op.ServiceId() % 1024 == 0 then InvalidArgument else NotInitialized
  {
  }

  /** A registration that succeeds is found, with its data. */
  lemma SuccessfulRegistrationIsFound(ops: seq<Op>, op: Op)
    requires op.RegisterOp? && StepOutcome(Run(ops), op).Done?
    ensures var r := FindDual(Run(ops + [op]), op.g.serviceId);
            r.Some? && Carries(r.value, Entry(op.g, Now(op, SideOf(op.g.serviceId)), op.pid))
  {
    var id := op.g.serviceId;
    RegistrationSucceedsIfFree(ops, op);
    assert (ops + [op])[..|ops|] == ops;
    FindRefinesMap(ops + [op], id);
  }

  // ---- Which ids reach which array --------------------------------------------------------

  predicate IsAsilId(id: nat) { 0xF001 <= id % 0x1_0000 <= 0xF3FE }

  /** Operations on ids whose low 16 bits are 0xF001 to 0xF3FE never touch the QM array, and
      operations on any other id, the broadcast id 0xFFFF aside, never touch the ASIL array. */
  lemma IdsDecideTheArray(d: Dual, op: Op)
    requires d.Valid()
    ensures SelectRegistry(op.ServiceId()).Asil? <==> IsAsilId(op.ServiceId())
    ensures SelectRegistry(op.ServiceId()).Both? <==> op.ServiceId() % 0x1_0000 == 0xFFFF
    ensures IsAsilId(op.ServiceId()) ==> Step(d, op).qm == d.qm
    ensures !IsAsilId(op.ServiceId()) && op.ServiceId() % 0x1_0000 != 0xFFFF ==> Step(d, op).asil == d.asil
    ensures FindDual(d, op.ServiceId()) == if IsAsilId(op.ServiceId()) then Find(d.asil, op.ServiceId())
                                           else Find(d.qm, op.ServiceId())
  {
  }

  /** After every run the QM array holds no such id. */
  lemma QmArrayHoldsNoAsilId(ops: seq<Op>, k: nat)
    requires k < MAX_SLOTS && Run(ops).qm[k].IsActive()
    ensures !IsAsilId(Run(ops).qm[k].serviceId)
  {
    RunAgreesWithMap(ops, QmSide, k);
    var i := EntryHasOrigin(ops, QmSide, k);
    assert Touches(ops[i].g.serviceId, QmSide, k);
  }

  /** In every run: slot 0 is never active, an active slot i holds an id that is i modulo
      1024, and the ASIL array holds only ids routed to it. */
  lemma {:induction false} ActiveSlotsBelong(ops: seq<Op>, side: Side, k: nat)
    requires k < MAX_SLOTS && SlotOf(Run(ops), side, k).IsActive()
    ensures k != 0 && SlotOf(Run(ops), side, k).serviceId % 1024 == k
    ensures side.AsilSide? ==>
              var sid := SlotOf(Run(ops), side, k).serviceId % 0x1_0000; 0xF001 <= sid <= 0xF3FE || sid == 0xFFFF
  {
    RunAgreesWithMap(ops, side, k);
    var i := EntryHasOrigin(ops, side, k);
  }

  /** An operation on an id of one registry leaves the other array untouched. */
  lemma OtherArrayUntouched(d: Dual, op: Op)
    requires d.Valid()
    ensures SelectRegistry(op.ServiceId()).Qm? ==> Step(d, op).asil == d.asil
    ensures SelectRegistry(op.ServiceId()).Asil? ==> Step(d, op).qm == d.qm
  {
  }

  // ---- The broadcast slot -------------------------------------------------------------

  /** The two arrays agree on slot 1023 but for the time of the last heartbeat, which each
      array's registration reads from the clock for itself. */
  predicate Mirrored(d: Dual)
    requires |d.qm| == |d.asil| == MAX_SLOTS
  {
    d.asil[BROADCAST_SLOT] == d.qm[BROADCAST_SLOT].(lastHeartbeat := d.asil[BROADCAST_SLOT].lastHeartbeat)
  }

  /** The operation does not reach slot 1023, or is a broadcast, or is a registration that the
      occupied slot refuses. */
  predicate KeepsMirror(d: Dual, op: Op)
    requires |d.qm| == |d.asil| == MAX_SLOTS
  {
    || op.ServiceId() % 1024 != BROADCAST_SLOT
    || SelectRegistry(op.ServiceId()).Both?
    || (op.RegisterOp? && d.qm[BROADCAST_SLOT].IsActive())
  }

  /** A write leaves its mark on the seqlock counter. */
  lemma WrittenIsVisible(n: nat)
    requires n < WRAP
    ensures FetchAdd(FetchAdd(n)) != n && FetchAdd(FetchAdd(n)) < WRAP
  {
  }

  /** No id is routed to slot 1023 of the ASIL array alone: 0xF3FF is out of range. */
  lemma NoAsilIdAtBroadcastSlot(id: nat)
    requires id % 1024 == BROADCAST_SLOT
    ensures !SelectRegistry(id).Asil?
  {
  }

  /** Every write advances the counter by two, modulo 2^64. */
  lemma WriteAdvancesCounterByTwo(s: Slot, op: Op, now: nat)
    requires s.Valid() && !(op.RegisterOp? && s.IsActive())
    ensures SlotAfter(s, op, now).sequence == (s.sequence + 2) % 0x1_0000_0000_0000_0000
  {
  }

  lemma CounterOfSlotAfter(s: Slot, op: Op, now: nat)
    requires s.Valid() && s.sequence < WRAP
    ensures SlotAfter(s, op, now).sequence < WRAP
    ensures SlotAfter(s, op, now).sequence == s.sequence <==> op.RegisterOp? && s.IsActive()
  {
    WrittenIsVisible(s.sequence);
  }

  /** From a mirrored state an operation keeps the mirror exactly if it meets that condition. */
  lemma MirrorKeptExactlyIf(d: Dual, op: Op)
    requires d.Valid() && |d.qm| == |d.asil| == MAX_SLOTS
    requires Mirrored(d) && d.qm[BROADCAST_SLOT].sequence < WRAP
    ensures |Step(d, op).qm| == |Step(d, op).asil| == MAX_SLOTS
    ensures Mirrored(Step(d, op)) <==> KeepsMirror(d, op)
  {
    var id := op.ServiceId();
    StepOnSlot(d, op, QmSide, BROADCAST_SLOT);
    StepOnSlot(d, op, AsilSide, BROADCAST_SLOT);
    if id % 1024 == BROADCAST_SLOT {
      NoAsilIdAtBroadcastSlot(id);
      CounterOfSlotAfter(d.qm[BROADCAST_SLOT], op, if op.RegisterOp? then op.qmNow else 0);
    }
  }

  lemma {:induction false} CountersFit(ops: seq<Op>, side: Side, k: nat)
    requires k < MAX_SLOTS
    ensures SlotOf(Run(ops), side, k).sequence < WRAP
    decreases |ops|
  {
    if ops != [] {
      var prefix, op := ops[..|ops| - 1], ops[|ops| - 1];
      CountersFit(prefix, side, k);
      StepOnSlot(Run(prefix), op, side, k);
      CounterOfSlotAfter(SlotOf(Run(prefix), side, k), op, if op.RegisterOp? then Now(op, side) else 0);
    }
  }

  predicate MirroredAfter(ops: seq<Op>, k: nat)
    requires k <= |ops|
  {
    Mirrored(Run(ops[..k]))
  }

  predicate KeepsMirrorAt(ops: seq<Op>, k: nat)
    requires k < |ops|
  {
    KeepsMirror(Run(ops[..k]), ops[k])
  }

  lemma MirrorAfterOneMore(ops: seq<Op>, k: nat)
    requires k < |ops| && MirroredAfter(ops, k)
    ensures MirroredAfter(ops, k + 1) <==> KeepsMirrorAt(ops, k)
  {
    assert ops[..k + 1][..k] == ops[..k];
    CountersFit(ops[..k], QmSide, BROADCAST_SLOT);
    MirrorKeptExactlyIf(Run(ops[..k]), ops[k]);
  }

  lemma {:induction false} MirrorAfterPrefix(ops: seq<Op>, k: nat)
    requires k <= |ops| && forall j | 0 <= j < k :: KeepsMirrorAt(ops, j)
    ensures MirroredAfter(ops, k)
  {
    if k > 0 {
      MirrorAfterPrefix(ops, k - 1);
      MirrorAfterOneMore(ops, k - 1);
    } else {
      assert ops[..0] == [];
    }
  }

  /** In every run: the arrays mirror each other after every operation if and only if every
      operation met the condition in the state it found. */
  lemma MirroredThroughoutExactlyIf(ops: seq<Op>)
    ensures (forall k | 0 <= k <= |ops| :: MirroredAfter(ops, k)) <==>
            (forall k | 0 <= k < |ops| :: KeepsMirrorAt(ops, k))
  {
    if forall k | 0 <= k < |ops| :: KeepsMirrorAt(ops, k) {
      forall k | 0 <= k <= |ops| ensures MirroredAfter(ops, k) {
        MirrorAfterPrefix(ops, k);
      }
    }
    if forall k | 0 <= k <= |ops| :: MirroredAfter(ops, k) {
      forall k | 0 <= k < |ops| ensures KeepsMirrorAt(ops, k) {
        assert MirroredAfter(ops, k) && MirroredAfter(ops, k + 1);
        MirrorAfterOneMore(ops, k);
      }
    }
  }

  lemma RegisterChangesArrayExactlyIf(a: seq<Slot>, k: nat, g: Registration, now: nat, pid: int)
    requires IsArray(a) && |a| == MAX_SLOTS && IsValidSlotIndex(k) && a[k].sequence < WRAP
    ensures AfterRegister(a, k, g, now, pid) != a <==> !a[k].IsActive()
  {
    if !a[k].IsActive() {
      WrittenIsVisible(a[k].sequence);
      assert AfterRegister(a, k, g, now, pid)[k].sequence != a[k].sequence;
    }
  }

  lemma BroadcastChangesExactlyIf(d: Dual, op: Op)
    requires d.Valid() && |d.qm| == |d.asil| == MAX_SLOTS
    requires op.RegisterOp? && op.ServiceId() % 1024 == BROADCAST_SLOT && SelectRegistry(op.ServiceId()).Both?
    requires d.qm[BROADCAST_SLOT].sequence < WRAP && d.asil[BROADCAST_SLOT].sequence < WRAP
    ensures Step(d, op) == d <==> d.qm[BROADCAST_SLOT].IsActive() && d.asil[BROADCAST_SLOT].IsActive()
    ensures StepOutcome(d, op).Done? <==> !d.qm[BROADCAST_SLOT].IsActive() && !d.asil[BROADCAST_SLOT].IsActive()
  {
    RegisterChangesArrayExactlyIf(d.qm, BROADCAST_SLOT, op.g, op.qmNow, op.pid);
    RegisterChangesArrayExactlyIf(d.asil, BROADCAST_SLOT, op.g, op.asilNow, op.pid);
  }

  lemma RefusalByOneArrayChangesNothing(d: Dual, op: Op)
    requires d.Valid() && op.RegisterOp? && !SelectRegistry(op.ServiceId()).Both? && !StepOutcome(d, op).Done?
    ensures Step(d, op) == d
  {
  }

  lemma BroadcastReachesItsSlot(id: nat)
    requires SelectRegistry(id).Both?
    ensures id % 1024 == BROADCAST_SLOT
  {
  }

  /** A registration that reports an error leaves both arrays as they were, except exactly a
      broadcast that finds slot 1023 occupied in one array only: it fills the other one. */
  lemma RefusedRegistrationChangesNothingExactlyIf(ops: seq<Op>, op: Op)
    requires op.RegisterOp? && !StepOutcome(Run(ops), op).Done?
    ensures var d := Run(ops);
            Step(d, op) == d <==>
            !(SelectRegistry(op.ServiceId()).Both?
              && d.qm[BROADCAST_SLOT].IsActive() != d.asil[BROADCAST_SLOT].IsActive())
  {
    if SelectRegistry(op.ServiceId()).Both? {
      BroadcastReachesItsSlot(op.ServiceId());
      CountersFit(ops, QmSide, BROADCAST_SLOT);
      CountersFit(ops, AsilSide, BROADCAST_SLOT);
      BroadcastChangesExactlyIf(Run(ops), op);
    } else {
      RefusalByOneArrayChangesNothing(Run(ops), op);
    }
  }

  // ---- The same mirror without the counters ---------------------------------------------

  /** What a slot says about its service: everything but the seqlock counter and the time of the
      last heartbeat. */
  function Content(s: Slot): Slot { s.(sequence := 0, lastHeartbeat := 0) }

  predicate ContentMirrored(d: Dual)
    requires |d.qm| == |d.asil| == MAX_SLOTS
  {
    Content(d.asil[BROADCAST_SLOT]) == Content(d.qm[BROADCAST_SLOT])
  }

  predicate KeepsContent(d: Dual, op: Op)
    requires |d.qm| == |d.asil| == MAX_SLOTS
  {
    KeepsMirror(d, op) || op.HeartbeatOp? || (op.UnregisterOp? && Content(d.qm[BROADCAST_SLOT]) == EMPTY)
  }

  /** Two arrays of the same content keep the same content exactly if the operation keeps the
      mirror, is a heartbeat, or unregisters a slot that is already empty. */
  lemma ContentKeptExactlyIf(d: Dual, op: Op)
    requires d.Valid() && |d.qm| == |d.asil| == MAX_SLOTS && ContentMirrored(d)
    ensures |Step(d, op).qm| == |Step(d, op).asil| == MAX_SLOTS
    ensures ContentMirrored(Step(d, op)) <==> KeepsContent(d, op)
  {
    var id, q, a := op.ServiceId(), d.qm[BROADCAST_SLOT], d.asil[BROADCAST_SLOT];
    StepOnSlot(d, op, QmSide, BROADCAST_SLOT);
    StepOnSlot(d, op, AsilSide, BROADCAST_SLOT);
    assert Content(q).status == q.status && Content(a).status == a.status;
    if id % 1024 == BROADCAST_SLOT {
      NoAsilIdAtBroadcastSlot(id);
      ContentAfter(q, a, op, if op.RegisterOp? then op.qmNow else 0, if op.RegisterOp? then op.asilNow else 0);
    }
  }

  /** The same operation on slots of the same content; on one of them only. */
  lemma ContentAfter(q: Slot, a: Slot, op: Op, qNow: nat, aNow: nat)
    requires q.Valid() && a.Valid() && Content(q) == Content(a)
    ensures Content(SlotAfter(q, op, qNow)) == Content(SlotAfter(a, op, aNow))
    ensures Content(SlotAfter(q, op, qNow)) == Content(q) <==>
            match op
            case RegisterOp(_, _, _, _) => q.IsActive()
            case UnregisterOp(_) => Content(q) == EMPTY
            case HeartbeatOp(_, _) => true
  {
    assert Content(q).status == q.status && Content(a).status == a.status;
    assert Content(q).bindingType == q.bindingType && Content(a).bindingType == a.bindingType;
    assert Content(q).endpoint == q.endpoint && Content(a).endpoint == a.endpoint;
  }

  predicate ContentMirroredAfter(ops: seq<Op>, k: nat)
    requires k <= |ops|
  {
    ContentMirrored(Run(ops[..k]))
  }

  predicate KeepsContentAt(ops: seq<Op>, k: nat)
    requires k < |ops|
  {
    KeepsContent(Run(ops[..k]), ops[k])
  }

  lemma ContentAfterOneMore(ops: seq<Op>, k: nat)
    requires k < |ops| && ContentMirroredAfter(ops, k)
    ensures ContentMirroredAfter(ops, k + 1) <==> KeepsContentAt(ops, k)
  {
    assert ops[..k + 1][..k] == ops[..k];
    ContentKeptExactlyIf(Run(ops[..k]), ops[k]);
  }

  lemma {:induction false} ContentAfterPrefix(ops: seq<Op>, k: nat)
    requires k <= |ops| && forall j | 0 <= j < k :: KeepsContentAt(ops, j)
    ensures ContentMirroredAfter(ops, k)
  {
    if k > 0 {
      ContentAfterPrefix(ops, k - 1);
      ContentAfterOneMore(ops, k - 1);
    } else {
      assert ops[..0] == [];
    }
  }

  /** In every run: the arrays hold the same registration in slot 1023 after every operation if
      and only if every operation met that condition in the state it found. */
  lemma ContentMirroredThroughoutExactlyIf(ops: seq<Op>)
    ensures (forall k | 0 <= k <= |ops| :: ContentMirroredAfter(ops, k)) <==>
            (forall k | 0 <= k < |ops| :: KeepsContentAt(ops, k))
  {
    if forall k | 0 <= k < |ops| :: KeepsContentAt(ops, k) {
      forall k | 0 <= k <= |ops| ensures ContentMirroredAfter(ops, k) {
        ContentAfterPrefix(ops, k);
      }
    }
    if forall k | 0 <= k <= |ops| :: ContentMirroredAfter(ops, k) {
      forall k | 0 <= k < |ops| ensures KeepsContentAt(ops, k) {
        assert ContentMirroredAfter(ops, k) && ContentMirroredAfter(ops, k + 1);
        ContentAfterOneMore(ops, k);
      }
    }
  }

  // ---- Callers that keep to the rule -----------------------------------------------------

  /** Every operation that reaches slot 1023 is a broadcast. */
  predicate OnlyBroadcasts(ops: seq<Op>) {
    forall i | 0 <= i < |ops| && ops[i].ServiceId() % 1024 == BROADCAST_SLOT :: SelectRegistry(ops[i].ServiceId()).Both?
  }

  /** Callers that use slot 1023 for broadcasts only are safe. */
  lemma BroadcastSlotIsMirrored(ops: seq<Op>)
    requires OnlyBroadcasts(ops)
    ensures Mirrored(Run(ops))
  {
    forall k | 0 <= k < |ops| ensures KeepsMirrorAt(ops, k) {
    }
    MirrorAfterPrefix(ops, |ops|);
    assert ops[..|ops|] == ops;
  }

  /** An instance of a broken mirror. A QM service with id 0x03FF takes the broadcast slot of one
      array only. A broadcast registration is then refused with an error and cannot be found,
      although the ASIL array holds it. */
  lemma QmServiceBreaksTheMirror(first: Op, second: Op)
    requires first.RegisterOp? && first.ServiceId() == 0x03FF
    requires second.RegisterOp? && second.ServiceId() == 0xFFFF
    ensures StepOutcome(Run([]), first).Done?
    ensures !StepOutcome(Run([first]), second).Done?
    ensures FindDual(Run([first, second]), 0xFFFF).None?
    ensures Find(Run([first, second]).asil, 0xFFFF).Some?
  {
    var both := [first, second];
    assert [first][..0] == [] && both[..1] == [first];
    assert History([first], QmSide, 1023) == Some(Entry(first.g, first.qmNow, first.pid));
    assert History([first], AsilSide, 1023) == None;
    RegistrationSucceedsIfFree([], first);
    RegistrationSucceedsIfFree([first], second);
    FindRefinesMap(both, 0xFFFF);
    RunAgreesWithMap(both, AsilSide, 1023);
  }

  // ---- The documented id ranges -------------------------------------------------------

  /** The fixed mapping is called free of collisions. Over the documented ranges it is, in the
      ASIL registry; in the QM registry two different ids share a slot exactly when they are
      0x400 apart, which makes 0x0001 to 0x0017 collide with 0x0401 to 0x0417, and 0x0400
      itself maps to the reserved slot. */
  lemma DocumentedRangesCollide(a: nat, b: nat)
    requires a < b
    ensures 0xF001 <= a && b <= 0xF3FE ==> CalculateSlot(a) != CalculateSlot(b)
    ensures 0x0001 <= a && b <= 0x0417 ==> (CalculateSlot(a) == CalculateSlot(b) <==> b == a + 0x400)
    ensures 0x0001 <= a <= 0x0417 ==> (CalculateSlot(a) == 0 <==> a == 0x0400)
  {
  }
}
