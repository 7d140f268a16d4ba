/** The writer keys of the DDS binding: printed in SendEvent, parsed again in FindService
  (source/binding/dds/src/DdsBinding.cpp). */
module DdsKeys {
  import opened Common

  // ---- Hexadecimal numbers ------------------------------------------------------------------------

  const DIGITS := "0123456789abcdef"

  /** The value of a digit in either case; 16 for any other character. */
  function DigitValue(c: char): (d: nat)
    ensures d <= 16
  {
    if '0' <= c <= '9' then c as nat - '0' as nat
    else if 'a' <= c <= 'f' then c as nat - 'a' as nat + 10
    else if 'A' <= c <= 'F' then c as nat - 'A' as nat + 10
    else 16
  }

  predicate IsHex(s: string) { forall c | c in s :: DigitValue(c) < 16 }

  /** `std::hex`: lower case, no leading zeros. */
  function Hex(n: nat): (s: string)
    ensures s != [] && IsHex(s)
  {
    if n < 16 then [DIGITS[n]] else Hex(n / 16) + [DIGITS[n % 16]]
  }

  function HexValue(s: string): nat
    requires IsHex(s)
  {
    if s == [] then 0 else 16 * HexValue(s[..|s| - 1]) + DigitValue(s[|s| - 1])
  }

  /** The longest prefix of digits. */
  function HexPrefix(s: string): (r: string)
    ensures IsHex(r)
    ensures IsHex(s) ==> r == s
  {
    if s == [] || DigitValue(s[0]) == 16 then []
    else
      assert s == [s[0]] + s[1..];
      [s[0]] + HexPrefix(s[1..])
  }

  /** `std::stoull(s, nullptr, 16)` on a string without space, sign or 0x in front; None where it
      throws. */
  function Stoull(s: string): Option<nat> {
    var digits := HexPrefix(s);
    if digits == [] || HexValue(digits) >= WRAP then None else Some(HexValue(digits))
  }

  lemma ValueOfDigit(d: nat)
    requires d < 16
    ensures DigitValue(DIGITS[d]) == d
  {
  }

  lemma ValueOfMore(s: string, c: char)
    requires IsHex(s) && DigitValue(c) < 16
    ensures IsHex(s + [c]) && HexValue(s + [c]) == 16 * HexValue(s) + DigitValue(c)
  {
    assert (s + [c])[..|s|] == s;
  }

  lemma {:induction false} ValueOfHex(n: nat)
    ensures HexValue(Hex(n)) == n
  {
    if n >= 16 {
      ValueOfHex(n / 16);
      ValueOfDigit(n % 16);
      ValueOfMore(Hex(n / 16), DIGITS[n % 16]);
    } else {
      ValueOfDigit(n);
      ValueOfMore([], DIGITS[n]);
      assert [] + [DIGITS[n]] == Hex(n);
    }
  }

  /** What std::hex prints: lower-case digits without leading zeros. */
  lemma {:induction false} HexForm(n: nat)
    ensures forall c | c in Hex(n) :: c in "0123456789abcdef"
    ensures n == 0 ==> Hex(n) == "0"
    ensures n > 0 ==> Hex(n)[0] != '0'
  {
    if n >= 16 {
      HexForm(n / 16);
      assert Hex(n)[0] == Hex(n / 16)[0];
    }
  }

  /** A string of digits is read if it is not empty and its value fits in 64 bits. */
  lemma StoullOfDigits(s: string)
    requires IsHex(s)
    ensures Stoull(s) == if s == [] || HexValue(s) >= 0x1_0000_0000_0000_0000 then None else Some(HexValue(s))
  {
  }

  // ---- Keys -------------------------------------------------------------------------------------------

  function MakeKey(serviceId: nat, instanceId: nat, eventId: nat): string {
    Hex(serviceId) + "_" + (Hex(instanceId) + "_" + Hex(eventId))
  }

  /** `s.find('_', from)`; None is npos. */
  function FindUnderscore(s: string, from: nat): (r: Option<nat>)
    ensures r.Some? ==> from <= r.value < |s| && s[r.value] == '_' && '_' !in s[from..r.value]
    ensures r.None? && from <= |s| ==> '_' !in s[from..]
    decreases |s| - from
  {
    if from >= |s| then None
    else if s[from] == '_' then Some(from)
    else
      var r := FindUnderscore(s, from + 1);
      assert s[from..] == [s[from]] + s[from + 1..];
      assert r.Some? ==> s[from..r.value] == [s[from]] + s[from + 1..r.value];
      r
  }

  /** What FindService reads in front of the first underscore of a key, and behind it up to the
      second one; None if the key is malformed there. */
  function ServiceOf(key: string): Option<nat> {
    match FindUnderscore(key, 0)
    case None => None
    case Some(first) => Stoull(key[..first])
  }

  function InstanceOf(key: string): Option<nat> {
    match FindUnderscore(key, 0)
    case None => None
    case Some(first) =>
      match FindUnderscore(key, first + 1)
      case None => None
      case Some(second) => Stoull(key[first + 1..second])
  }

  lemma {:induction false} FoundAt(s: string, from: nat, before: string, after: string)
    requires from <= |s| && s[from..] == before + "_" + after && '_' !in before
    ensures FindUnderscore(s, from) == Some(from + |before|)
    decreases |before|
  {
    assert s[from] == s[from..][0];
    if before != [] {
      assert s[from + 1..] == s[from..][1..] == before[1..] + "_" + after;
      FoundAt(s, from + 1, before[1..], after);
    }
  }

  /** The part of a key that begins at `from`, and what follows the underscore behind it. */
  lemma PartAt(key: string, from: nat, to: nat, part: string, rest: string)
    requires from <= |key| && key[from..] == part + "_" + rest && '_' !in part && to == from + |part|
    ensures FindUnderscore(key, from) == Some(to) && to < |key|
    ensures key[from..to] == part && key[to + 1..] == rest
  {
    FoundAt(key, from, part, rest);
    var tail := key[from..];
    assert key[from..to] == tail[..|part|];
    assert key[to + 1..] == tail[|part| + 1..];
  }

  lemma FirstPart(key: string, part: string, rest: string)
    requires key == part + "_" + rest && '_' !in part
    ensures FindUnderscore(key, 0) == Some(|part|)
    ensures key[..|part|] == part && key[|part| + 1..] == rest
  {
    assert key[0..] == key;
    PartAt(key, 0, |part|, part, rest);
  }

  /** Where the parts of a key begin and end. */
  lemma KeyParts(key: string, s: string, i: string, e: string, first: nat, second: nat)
    requires '_' !in s && '_' !in i && key == s + "_" + (i + "_" + e)
    requires first == |s| && second == first + 1 + |i|
    ensures FindUnderscore(key, 0) == Some(first) && FindUnderscore(key, first + 1) == Some(second) && second < |key|
    ensures key[..first] == s && key[first + 1..second] == i && key[second + 1..] == e
  {
    FirstPart(key, s, i + "_" + e);
    PartAt(key, first + 1, second, i, e);
  }

  lemma HexHasNoUnderscore(n: nat)
    ensures '_' !in Hex(n)
  {
    assert DigitValue('_') == 16;
  }

  lemma StoullOfHex(n: nat)
    requires n < WRAP
    ensures Stoull(Hex(n)) == Some(n)
  {
    ValueOfHex(n);
  }

  lemma ParseOfParts(key: string, s: string, i: string, e: string)
    requires '_' !in s && '_' !in i && key == s + "_" + (i + "_" + e)
    ensures ServiceOf(key) == Stoull(s) && InstanceOf(key) == Stoull(i)
  {
    KeyParts(key, s, i, e, |s|, |s| + 1 + |i|);
  }

  /** Parsing undoes printing. */
  lemma ParseOfKey(serviceId: nat, instanceId: nat, eventId: nat)
    requires serviceId < WRAP && instanceId < WRAP
    ensures ServiceOf(MakeKey(serviceId, instanceId, eventId)) == Some(serviceId)
    ensures InstanceOf(MakeKey(serviceId, instanceId, eventId)) == Some(instanceId)
  {
    HexHasNoUnderscore(serviceId);
    HexHasNoUnderscore(instanceId);
    StoullOfHex(serviceId);
    StoullOfHex(instanceId);
    ParseOfParts(MakeKey(serviceId, instanceId, eventId), Hex(serviceId), Hex(instanceId), Hex(eventId));
  }

  lemma PartsAreUnique(key: string, s: string, i: string, e: string, s': string, i': string, e': string)
    requires '_' !in s && '_' !in i && '_' !in s' && '_' !in i'
    requires key == s + "_" + (i + "_" + e) && key == s' + "_" + (i' + "_" + e')
    ensures s == s' && i == i' && e == e'
  {
    KeyParts(key, s, i, e, |s|, |s| + 1 + |i|);
    KeyParts(key, s', i', e', |s'|, |s'| + 1 + |i'|);
  }

  lemma HexIsInjective(n: nat, n': nat)
    requires Hex(n) == Hex(n')
    ensures n == n'
  {
    ValueOfHex(n);
    ValueOfHex(n');
  }

  /** No two triples have the same key. */
  lemma MakeKeyIsInjective(s: nat, i: nat, e: nat, s': nat, i': nat, e': nat)
    requires MakeKey(s, i, e) == MakeKey(s', i', e')
    ensures s == s' && i == i' && e == e'
  {
    HexHasNoUnderscore(s);
    HexHasNoUnderscore(i);
    HexHasNoUnderscore(s');
    HexHasNoUnderscore(i');
    PartsAreUnique(MakeKey(s, i, e), Hex(s), Hex(i), Hex(e), Hex(s'), Hex(i'), Hex(e'));
    HexIsInjective(s, s');
    HexIsInjective(i, i');
    HexIsInjective(e, e');
  }

  // ---- The binding --------------------------------------------------------------------------------------

  type Writer = nat

  /** A call of SendEvent; `writer` is the data writer that topic and writer creation give, if
      they are needed and succeed. */
  datatype Send = Send(serviceId: nat, instanceId: nat, eventId: nat, writer: Option<Writer>) {
    predicate Valid() { serviceId < WRAP && instanceId < WRAP && eventId < TWO_TO_32 }
    function Key(): string { MakeKey(serviceId, instanceId, eventId) }
    function Ids(): (nat, nat, nat) { (serviceId, instanceId, eventId) }
  }

  function AfterSend(writers: map<string, Writer>, s: Send): map<string, Writer> {
    if s.Key() in writers || s.writer.None? then writers else writers[s.Key() := s.writer.value]
  }

  /** The instance that a key names, if it names the service. */
  function InstanceIn(key: string, serviceId: nat): Option<nat> {
    if ServiceOf(key) == Some(serviceId) then InstanceOf(key) else None
  }

  function Instances(keys: set<string>, serviceId: nat): set<nat> {
    set key | key in keys && InstanceIn(key, serviceId).Some? :: InstanceIn(key, serviceId).value
  }

  lemma InstancesWith(keys: set<string>, key: string, serviceId: nat, id: Option<nat>)
    requires id == InstanceIn(key, serviceId)
    ensures Instances(keys + {key}, serviceId) == Instances(keys, serviceId) + if id.Some? then {id.value} else {}
  {
    assert key in keys + {key};
    forall x | x in Instances(keys, serviceId) ensures x in Instances(keys + {key}, serviceId) {
      var k :| k in keys && InstanceIn(k, serviceId) == Some(x);
      assert k in keys + {key};
    }
  }

  class DdsBinding {
    var writers: map<string, Writer>

    constructor ()
      ensures writers == map[]
    {
      writers := map[];
    }

    /** The part of SendEvent that finds or creates the writer; false is kBindingConnectionError. */
    method WriterFor(s: Send) returns (ok: bool)
      modifies this
      ensures writers == AfterSend(old(writers), s)
      ensures ok <==> s.Key() in writers
    {
      var key := s.Key();
      if key !in writers {
        if s.writer.None? {
          return false;
        }
        writers := writers[key := s.writer.value];
      }
      ok := true;
    }

    /** `discovered` is what the discovery listener has found for the service; None, before
        Initialize, is kNotInitialized. */
    method FindService(serviceId: nat, discovered: Option<seq<nat>>) returns (r: Option<seq<nat>>)
      ensures r.None? <==> discovered.None?
      ensures r.Some? ==> forall i, j | 0 <= i < j < |r.value| :: r.value[i] != r.value[j]
      ensures r.Some? ==> forall instanceId :: instanceId in r.value <==>
                            instanceId in discovered.value || instanceId in Instances(writers.Keys, serviceId)
    {
      if discovered.None? {
        return None;
      }
      var remote := set instanceId | instanceId in discovered.value;
      var local := FindLocal(serviceId);
      var all := Listed(remote + local);
      r := Some(all);
    }

    /** The loop over the writers of this process. */
    method FindLocal(serviceId: nat) returns (all: set<nat>)
      ensures all == Instances(writers.Keys, serviceId)
    {
      all := {};
      var left := writers.Keys;
      while left != {}
        invariant left <= writers.Keys && all == Instances(writers.Keys - left, serviceId)
        decreases |left|
      {
        var key :| key in left;
        var id := ReadKey(key, serviceId);
        InstancesWith(writers.Keys - left, key, serviceId, id);
        assert writers.Keys - (left - {key}) == writers.Keys - left + {key};
        if id.Some? {
          all := all + {id.value};
        }
        left := left - {key};
      }
      assert writers.Keys - left == writers.Keys;
    }

    method ReadKey(key: string, serviceId: nat) returns (id: Option<nat>)
      ensures id == InstanceIn(key, serviceId)
    {
      id := None;
      var first := FindUnderscore(key, 0);
      if first.Some? {
        var sid := Stoull(key[..first.value]);
        if sid == Some(serviceId) {
          var second := FindUnderscore(key, first.value + 1);
          if second.Some? {
            id := Stoull(key[first.value + 1..second.value]);
          }
        }
      }
    }

    method Listed(s: set<nat>) returns (r: seq<nat>)
      ensures forall i, j | 0 <= i < j < |r| :: r[i] != r[j]
      ensures forall x :: x in r <==> x in s
    {
      r := [];
      var left := s;
      while left != {}
        invariant left <= s && forall x :: x in r <==> x in s && x !in left
        invariant forall i, j | 0 <= i < j < |r| :: r[i] != r[j]
        decreases |left|
      {
        var x :| x in left;
        r := r + [x];
        left := left - {x};
      }
    }
  }

  // ---- Runs --------------------------------------------------------------------------------------------

  function After(sends: seq<Send>): map<string, Writer> {
    if sends == [] then map[] else AfterSend(After(sends[..|sends| - 1]), sends[|sends| - 1])
  }

  /** Some send of the run had a writer for this triple created, or would have. */
  predicate Created(sends: seq<Send>, serviceId: nat, instanceId: nat, eventId: nat) {
    exists i :: 0 <= i < |sends| && sends[i].writer.Some?
      && sends[i].serviceId == serviceId && sends[i].instanceId == instanceId && sends[i].eventId == eventId
  }

  lemma {:induction false} KeyHasCreator(sends: seq<Send>, key: string) returns (i: nat)
    requires key in After(sends)
    ensures i < |sends| && sends[i].writer.Some? && sends[i].Key() == key
  {
    i := |sends| - 1;
    if key in After(sends[..i]) {
      i := KeyHasCreator(sends[..i], key);
    }
  }

  lemma {:induction false} CreatorHasKey(sends: seq<Send>, i: nat)
    requires i < |sends| && sends[i].writer.Some?
    ensures sends[i].Key() in After(sends)
  {
    var last := |sends| - 1;
    if i < last {
      CreatorHasKey(sends[..last], i);
    }
  }

  lemma KeyIsOfCreated(sends: seq<Send>, key: string, serviceId: nat, instanceId: nat) returns (eventId: nat)
    requires forall s | s in sends :: s.Valid()
    requires key in After(sends) && InstanceIn(key, serviceId) == Some(instanceId)
    ensures Created(sends, serviceId, instanceId, eventId)
  {
    var i := KeyHasCreator(sends, key);
    assert sends[i] in sends;
    ParseOfKey(sends[i].serviceId, sends[i].instanceId, sends[i].eventId);
    eventId := sends[i].eventId;
  }

  /** After any sends, FindService(s) finds exactly the instances for which some event of s got a
      writer. */
  lemma FoundExactlyIfCreated(sends: seq<Send>, serviceId: nat, instanceId: nat)
    requires forall s | s in sends :: s.Valid()
    ensures instanceId in Instances(After(sends).Keys, serviceId)
            <==> exists eventId :: Created(sends, serviceId, instanceId, eventId)
  {
    var writers := After(sends);
    if instanceId in Instances(writers.Keys, serviceId) {
      var key :| key in writers && InstanceIn(key, serviceId) == Some(instanceId);
      var eventId := KeyIsOfCreated(sends, key, serviceId, instanceId);
    }
    if eventId :| Created(sends, serviceId, instanceId, eventId) {
      var i :| 0 <= i < |sends| && sends[i].writer.Some?
        && sends[i].serviceId == serviceId && sends[i].instanceId == instanceId && sends[i].eventId == eventId;
      assert sends[i] in sends;
      CreatorHasKey(sends, i);
      ParseOfKey(serviceId, instanceId, eventId);
      assert sends[i].Key() in writers;
    }
  }

  lemma SameKeySameIds(a: Send, b: Send)
    requires a.Key() == b.Key()
    ensures a.Ids() == b.Ids()
  {
    MakeKeyIsInjective(a.serviceId, a.instanceId, a.eventId, b.serviceId, b.instanceId, b.eventId);
  }

  /** Each triple has a writer of its own: the one that its first successful creation gave. */
  lemma {:induction false} WriterIsTheFirstCreated(sends: seq<Send>, k: nat)
    requires k < |sends| && sends[k].writer.Some?
    requires forall i | 0 <= i < k && sends[i].writer.Some? :: sends[i].Ids() != sends[k].Ids()
    ensures sends[k].Key() in After(sends) && After(sends)[sends[k].Key()] == sends[k].writer.value
  {
    var last := |sends| - 1;
    if k < last {
      WriterIsTheFirstCreated(sends[..last], k);
    } else if sends[k].Key() in After(sends[..last]) {
      var i := KeyHasCreator(sends[..last], sends[k].Key());
      SameKeySameIds(sends[i], sends[k]);
      assert false;
    }
  }
}
