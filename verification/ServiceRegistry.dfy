/** The slot arrays of the service registry and the operations on them
  (source/registry/src/SharedMemoryRegistry.cpp, source/registry/inc/ServiceSlot.hpp,
  source/registry/inc/SharedMemoryRegistry.hpp), for one caller at a time. */
module ServiceRegistry {
  import opened Common

  const MAX_SLOTS: nat := 1024
  const BROADCAST_SLOT: nat := 1023

  const IDLE: nat := 0
  const ACTIVE: nat := 1

  datatype Slot = Slot(
    sequence: nat,
    serviceId: nat,
    instanceId: nat,
    majorVersion: nat,
    minorVersion: nat,
    bindingType: seq<char>,
    endpoint: seq<char>,
    lastHeartbeat: nat,
    heartbeatInterval: nat,
    status: nat,
    ownerPid: int,
    metadata: seq<char>)
  {
    /** The character arrays have 16, 80 and 64 elements. */
    predicate Valid() { |bindingType| == 16 && |endpoint| == 80 && |metadata| == 64 }

    predicate IsActive() { status == ACTIVE }
  }

  function Nuls(n: nat): (r: seq<char>)
    ensures |r| == n
  {
    seq(n, _ => '\0')
  }

  const EMPTY: Slot := Slot(0, 0, 0, 0, 0, Nuls(16), Nuls(80), 0, 0, IDLE, 0, Nuls(64))

  // ---- Strings ------------------------------------------------------------------------

  /** The characters before the first NUL: what a C string or a character array holds. */
  function Text(s: seq<char>): (r: seq<char>)
    ensures |r| <= |s| && r == s[..|r|] && '\0' !in r
    ensures |r| < |s| ==> s[|r|] == '\0'
  {
    if s == [] || s[0] == '\0' then [] else [s[0]] + Text(s[1..])
  }

  /** `strncpy(field, src, n)` */
  function StrNCpy(field: seq<char>, src: seq<char>, n: nat): (r: seq<char>)
    requires n <= |field|
    ensures |r| == |field|
  {
    var t := Text(src);
    seq(|field|, i requires 0 <= i < |field| => if i >= n then field[i] else if i < |t| then t[i] else '\0')
  }

  /** `strncpy(field, src, sizeof(field) - 1)`, then a NUL in the last element. */
  function Assign(field: seq<char>, src: seq<char>): (r: seq<char>)
    requires |field| > 0
    ensures |r| == |field|
  {
    StrNCpy(field, src, |field| - 1)[|field| - 1 := '\0']
  }

  function Cut(s: seq<char>, n: nat): seq<char> {
    if |s| <= n then s else s[..n]
  }

  lemma {:induction false} TextIsUnique(s: seq<char>, t: seq<char>)
    requires |t| < |s| && t == s[..|t|] && '\0' !in t && s[|t|] == '\0'
    ensures Text(s) == t
  {
    if t != [] {
      assert s[0] == t[0] && s[1..][..|t| - 1] == t[1..];
      TextIsUnique(s[1..], t[1..]);
    }
  }

  /** A field holds the assigned string, cut to leave room for the NUL, whatever the field
      held before. */
  lemma AssignedText(field: seq<char>, src: seq<char>)
    requires |field| > 0
    ensures Text(Assign(field, src)) == Cut(Text(src), |field| - 1)
  {
    TextIsUnique(Assign(field, src), Cut(Text(src), |field| - 1));
  }

  // ---- Steps on one slot ------------------------------------------------------------------

  datatype Registration = Registration(
    serviceId: nat,
    instanceId: nat,
    majorVersion: nat,
    minorVersion: nat,
    bindingType: seq<char>,
    endpoint: seq<char>)

  /** A slot after one seqlock-protected write. */
  function Written(s: Slot): Slot {
    s.(sequence := FetchAdd(FetchAdd(s.sequence)))
  }

  function Registered(s: Slot, g: Registration, now: nat, pid: int): Slot
    requires s.Valid()
  {
    Written(s).(
    serviceId := g.serviceId, instanceId := g.instanceId,
    majorVersion := g.majorVersion, minorVersion := g.minorVersion,
    bindingType := Assign(s.bindingType, g.bindingType), endpoint := Assign(s.endpoint, g.endpoint),
    lastHeartbeat := now, heartbeatInterval := 100, ownerPid := pid, status := ACTIVE)
  }

  function Cleared(s: Slot): Slot {
    EMPTY.(sequence := Written(s).sequence)
  }

  // ---- Steps on one array; [] is an array that is not mapped yet --------------------------

  datatype Outcome = Done | NotInitialized | InvalidArgument | ServiceNotOffered

  predicate IsArray(a: seq<Slot>) {
    (|a| == 0 || |a| == MAX_SLOTS) && forall i | 0 <= i < |a| :: a[i].Valid()
  }

  predicate IsValidSlotIndex(k: nat) { 0 < k < MAX_SLOTS }

  function RegisterOutcome(a: seq<Slot>, k: nat): Outcome
    requires IsArray(a)
  {
    if a == [] then NotInitialized
    else if !IsValidSlotIndex(k) then InvalidArgument
    else if a[k].IsActive() then ServiceNotOffered
    else Done
  }

  function AfterRegister(a: seq<Slot>, k: nat, g: Registration, now: nat, pid: int): (r: seq<Slot>)
    requires IsArray(a)
    ensures IsArray(r)
  {
    if RegisterOutcome(a, k).Done? then a[k := Registered(a[k], g, now, pid)] else a
  }

  function WriteOutcome(a: seq<Slot>, k: nat): Outcome {
    if a == [] then NotInitialized else if !IsValidSlotIndex(k) then InvalidArgument else Done
  }

  function AfterUnregister(a: seq<Slot>, k: nat): (r: seq<Slot>)
    requires IsArray(a)
    ensures IsArray(r)
  {
    if WriteOutcome(a, k).Done? then a[k := Cleared(a[k])] else a
  }

  function AfterHeartbeat(a: seq<Slot>, k: nat, t: nat): (r: seq<Slot>)
    requires IsArray(a)
    ensures IsArray(r)
  {
    if WriteOutcome(a, k).Done? then a[k := Written(a[k]).(lastHeartbeat := t)] else a
  }

  /** What a seqlock read of the slot returns when nobody writes meanwhile: an odd counter,
      left by a writer that never finished, makes every attempt fail. */
  function Locked<R>(s: Slot, r: R): Option<R> {
    if s.sequence % 2 == 1 then None else Some(r)
  }

  function Find(a: seq<Slot>, serviceId: nat): Option<Slot>
    requires IsArray(a)
  {
    var k := serviceId % 1024;
    if a == [] || !IsValidSlotIndex(k) then None
    else if a[k].serviceId == serviceId && a[k].IsActive() then Locked(a[k], a[k])
    else None
  }

  class SingleRegistry {
    var slots: array?<Slot>

    ghost function Contents(): seq<Slot>
      reads this, slots
    {
      if slots == null then [] else slots[..]
    }

    ghost predicate Valid()
      reads this, slots
    {
      (slots != null ==> slots.Length == MAX_SLOTS) && IsArray(Contents())
    }

    constructor ()
      ensures Valid() && slots == null
    {
      slots := null;
    }

    /** The success path of Initialize: a fresh mapping of idle slots. */
    method Initialize()
      requires Valid()
      modifies this
      ensures Valid() && slots != null && (old(slots) == null ==> fresh(slots))
      ensures old(slots) == null ==> Contents() == seq(MAX_SLOTS, _ => EMPTY)
      ensures old(slots) != null ==> slots == old(slots)
    {
      if slots == null {
        slots := new Slot[MAX_SLOTS](_ => EMPTY);
      }
    }

    method RegisterService(k: nat, g: Registration, now: nat, pid: int) returns (r: Outcome)
      requires Valid()
      modifies slots
      ensures Valid() && r == RegisterOutcome(old(Contents()), k)
      ensures Contents() == AfterRegister(old(Contents()), k, g, now, pid)
    {
      if slots == null {
        return NotInitialized;
      }
      if !IsValidSlotIndex(k) {
        return InvalidArgument;
      }
      if slots[k].IsActive() {
        return ServiceNotOffered;
      }
      slots[k] := slots[k].(sequence := FetchAdd(slots[k].sequence));
      slots[k] := slots[k].(serviceId := g.serviceId);
      slots[k] := slots[k].(instanceId := g.instanceId);
      slots[k] := slots[k].(majorVersion := g.majorVersion);
      slots[k] := slots[k].(minorVersion := g.minorVersion);
      slots[k] := slots[k].(bindingType := Assign(slots[k].bindingType, g.bindingType));
      slots[k] := slots[k].(endpoint := Assign(slots[k].endpoint, g.endpoint));
      slots[k] := slots[k].(lastHeartbeat := now);
      slots[k] := slots[k].(heartbeatInterval := 100);
      slots[k] := slots[k].(ownerPid := pid);
      slots[k] := slots[k].(status := ACTIVE);
      slots[k] := slots[k].(sequence := FetchAdd(slots[k].sequence));
      return Done;
    }

    method UnregisterService(k: nat) returns (r: Outcome)
      requires Valid()
      modifies slots
      ensures Valid() && r == WriteOutcome(old(Contents()), k)
      ensures Contents() == AfterUnregister(old(Contents()), k)
    {
      if slots == null {
        return NotInitialized;
      }
      if !IsValidSlotIndex(k) {
        return InvalidArgument;
      }
      slots[k] := slots[k].(sequence := FetchAdd(slots[k].sequence));
      slots[k] := slots[k].(serviceId := 0, instanceId := 0, majorVersion := 0, minorVersion := 0);
      slots[k] := slots[k].(bindingType := Nuls(16), endpoint := Nuls(80));
      slots[k] := slots[k].(lastHeartbeat := 0, heartbeatInterval := 0, status := IDLE, ownerPid := 0);
      slots[k] := slots[k].(metadata := Nuls(64));
      slots[k] := slots[k].(sequence := FetchAdd(slots[k].sequence));
      return Done;
    }

    method UpdateHeartbeat(k: nat, t: nat) returns (r: Outcome)
      requires Valid()
      modifies slots
      ensures Valid() && r == WriteOutcome(old(Contents()), k)
      ensures Contents() == AfterHeartbeat(old(Contents()), k, t)
    {
      if slots == null {
        return NotInitialized;
      }
      if !IsValidSlotIndex(k) {
        return InvalidArgument;
      }
      slots[k] := slots[k].(sequence := FetchAdd(slots[k].sequence));
      slots[k] := slots[k].(lastHeartbeat := t);
      slots[k] := slots[k].(sequence := FetchAdd(slots[k].sequence));
      return Done;
    }

    /** SeqLockReader::Read with the slot to itself. */
    method Read<R>(k: nat, readFunc: Slot -> R) returns (r: Option<R>)
      requires Valid() && slots != null && k < MAX_SLOTS
      ensures r == Locked(slots[k], readFunc(slots[k]))
    {
      var retryCount := 0;
      while true
        invariant retryCount <= MAX_RETRY_COUNT
        invariant retryCount > 0 ==> slots[k].sequence % 2 == 1
        decreases MAX_RETRY_COUNT - retryCount
      {
        var seq1 := slots[k].sequence;
        if seq1 % 2 == 1 {
          retryCount := retryCount + 1;
          if retryCount > MAX_RETRY_COUNT {
            return None;
          }
          continue;
        }
        var result := readFunc(slots[k]);
        var seq2 := slots[k].sequence;
        if seq1 == seq2 {
          return Some(result);
        }
        retryCount := retryCount + 1;
        if retryCount > MAX_RETRY_COUNT {
          return None;
        }
      }
    }

    method FindService(serviceId: nat) returns (r: Option<Slot>)
      requires Valid()
      ensures r == Find(Contents(), serviceId)
    {
      if slots == null {
        return None;
      }
      var k := serviceId % 1024;
      if !IsValidSlotIndex(k) {
        return None;
      }
      r := Read(k, (s: Slot) => if s.serviceId == serviceId && s.IsActive() then s else EMPTY);
      if r.Some? && r.value.serviceId == 0 {
        return None;
      }
    }

    method ReadSlot(k: nat) returns (r: Option<Slot>)
      requires Valid()
      ensures r == if slots == null || k == 0 || k >= 1024 then None else Locked(slots[k], slots[k])
    {
      if slots == null || !IsValidSlotIndex(k) {
        return None;
      }
      r := Read(k, (s: Slot) => s);
    }
  }

  // ---- The two arrays ------------------------------------------------------------------

  datatype Route = Qm | Asil | Both

  const QM_SERVICE_ID_MIN: nat := 0x0001
  const QM_SERVICE_ID_MAX: nat := 0x0417
  const ASIL_SERVICE_ID_MIN: nat := 0xF001
  const ASIL_SERVICE_ID_MAX: nat := 0xF3FE
  const BROADCAST_SERVICE_ID: nat := 0xFFFF

  function CalculateSlot(serviceId: nat): nat { serviceId % 1024 }

  /** Only the low 16 bits count, and every id outside the documented ranges goes to QM. */
  function SelectRegistry(serviceId: nat): Route {
    var sid := serviceId % 0x1_0000;
    if sid == BROADCAST_SERVICE_ID then Both
    else if ASIL_SERVICE_ID_MIN <= sid <= ASIL_SERVICE_ID_MAX then Asil
    else if QM_SERVICE_ID_MIN <= sid <= QM_SERVICE_ID_MAX then Qm
    else Qm
  }

  datatype Dual = Dual(qm: seq<Slot>, asil: seq<Slot>) {
    predicate Valid() { IsArray(qm) && IsArray(asil) }
  }

  datatype Op =
    | RegisterOp(g: Registration, qmNow: nat, asilNow: nat, pid: int)
    | UnregisterOp(id: nat)
    | HeartbeatOp(id: nat, t: nat)
  {
    function ServiceId(): nat { if RegisterOp? then g.serviceId else id }
  }

  function StepArray(a: seq<Slot>, op: Op, now: nat): (r: seq<Slot>)
    requires IsArray(a)
    ensures IsArray(r)
  {
    var k := CalculateSlot(op.ServiceId());
    match op
    case RegisterOp(g, _, _, pid) => AfterRegister(a, k, g, now, pid)
    case UnregisterOp(_) => AfterUnregister(a, k)
    case HeartbeatOp(_, t) => AfterHeartbeat(a, k, t)
  }

  function Step(d: Dual, op: Op): (r: Dual)
    requires d.Valid()
    ensures r.Valid()
  {
    if CalculateSlot(op.ServiceId()) == 0 then d
    else
      var route := SelectRegistry(op.ServiceId());
      Dual(if route.Asil? then d.qm else StepArray(d.qm, op, if op.RegisterOp? then op.qmNow else 0),
           if route.Qm? then d.asil else StepArray(d.asil, op, if op.RegisterOp? then op.asilNow else 0))
  }

  function ArrayOutcome(a: seq<Slot>, op: Op): Outcome
    requires IsArray(a)
  {
    var k := CalculateSlot(op.ServiceId());
    if op.RegisterOp? then RegisterOutcome(a, k) else WriteOutcome(a, k)
  }

  /** A broadcast registration reports QM's error first; the other broadcast operations
      report what happened in the ASIL array only. */
  function StepOutcome(d: Dual, op: Op): Outcome
    requires d.Valid()
  {
    if CalculateSlot(op.ServiceId()) == 0 then InvalidArgument
    else
      match SelectRegistry(op.ServiceId())
      case Qm => ArrayOutcome(d.qm, op)
      case Asil => ArrayOutcome(d.asil, op)
      case Both =>
        if op.RegisterOp? && !ArrayOutcome(d.qm, op).Done? then ArrayOutcome(d.qm, op)
        else ArrayOutcome(d.asil, op)
  }

  function FindDual(d: Dual, serviceId: nat): Option<Slot>
    requires d.Valid()
  {
    if SelectRegistry(serviceId).Asil? then Find(d.asil, serviceId) else Find(d.qm, serviceId)
  }

  class SharedMemoryRegistry {
    const qm: SingleRegistry
    const asil: SingleRegistry

    ghost function Contents(): Dual
      reads qm, qm.slots, asil, asil.slots
    {
      Dual(qm.Contents(), asil.Contents())
    }

    ghost predicate Valid()
      reads qm, qm.slots, asil, asil.slots
    {
      && qm != asil && qm.Valid() && asil.Valid()
      && (qm.slots != null ==> qm.slots != asil.slots)
    }

    constructor ()
      ensures Valid() && Contents() == Dual([], [])
    {
      qm := new SingleRegistry();
      asil := new SingleRegistry();
    }

    method Initialize()
      requires Valid()
      modifies qm, asil
      ensures Valid() && qm.slots != null && asil.slots != null
      ensures old(Contents()) == Dual([], []) ==> Contents() == Fresh()
    {
      qm.Initialize();
      asil.Initialize();
    }

    method RegisterService(g: Registration, qmNow: nat, asilNow: nat, pid: int) returns (r: Outcome)
      requires Valid()
      modifies qm.slots, asil.slots
      ensures Valid() && r == StepOutcome(old(Contents()), RegisterOp(g, qmNow, asilNow, pid))
      ensures Contents() == Step(old(Contents()), RegisterOp(g, qmNow, asilNow, pid))
    {
      var k := CalculateSlot(g.serviceId);
      if k == 0 {
        return InvalidArgument;
      }
      match SelectRegistry(g.serviceId) {
        case Both =>
          var qmResult := qm.RegisterService(k, g, qmNow, pid);
          var asilResult := asil.RegisterService(k, g, asilNow, pid);
          r := if !qmResult.Done? then qmResult else asilResult;
        case Asil =>
          r := asil.RegisterService(k, g, asilNow, pid);
        case Qm =>
          r := qm.RegisterService(k, g, qmNow, pid);
      }
    }

    method UnregisterService(serviceId: nat) returns (r: Outcome)
      requires Valid()
      modifies qm.slots, asil.slots
      ensures Valid() && r == StepOutcome(old(Contents()), UnregisterOp(serviceId))
      ensures Contents() == Step(old(Contents()), UnregisterOp(serviceId))
    {
      var k := CalculateSlot(serviceId);
      if k == 0 {
        return InvalidArgument;
      }
      match SelectRegistry(serviceId) {
        case Both =>
          var _ := qm.UnregisterService(k);
          r := asil.UnregisterService(k);
        case Asil =>
          r := asil.UnregisterService(k);
        case Qm =>
          r := qm.UnregisterService(k);
      }
    }

    method UpdateHeartbeat(serviceId: nat, t: nat) returns (r: Outcome)
      requires Valid()
      modifies qm.slots, asil.slots
      ensures Valid() && r == StepOutcome(old(Contents()), HeartbeatOp(serviceId, t))
      ensures Contents() == Step(old(Contents()), HeartbeatOp(serviceId, t))
    {
      var k := CalculateSlot(serviceId);
      if k == 0 {
        return InvalidArgument;
      }
      match SelectRegistry(serviceId) {
        case Both =>
          var _ := qm.UpdateHeartbeat(k, t);
          r := asil.UpdateHeartbeat(k, t);
        case Asil =>
          r := asil.UpdateHeartbeat(k, t);
        case Qm =>
          r := qm.UpdateHeartbeat(k, t);
      }
    }

    method FindService(serviceId: nat) returns (r: Option<Slot>)
      requires Valid()
      ensures r == FindDual(Contents(), serviceId)
    {
      if SelectRegistry(serviceId).Asil? {
        r := asil.FindService(serviceId);
      } else {
        r := qm.FindService(serviceId);
      }
    }
  }

  /** Two mapped arrays of idle slots. */
  function Fresh(): (d: Dual)
    ensures d.Valid()
  {
    Dual(seq(MAX_SLOTS, _ => EMPTY), seq(MAX_SLOTS, _ => EMPTY))
  }
}
