/** The binding manager: a priority multimap and a name map over the same plugins, the table of
  library handles, and the static mappings (source/binding/manager/src/BindingManager.cpp,
  source/binding/manager/inc/BindingManager.hpp). */
module Bindings {
  import opened Common

  type Name = string
  /** A plugin object and a library handle: addresses, compared by identity. */
  type Object = nat
  type Handle = nat

  datatype Result = Ok | Err(code: int)

  const CONFIG_LOAD_FAILED := 1
  const LIBRARY_LOAD_FAILED := 2
  const SYMBOL_NOT_FOUND := 3
  const BINDING_INIT_FAILED := 4
  const BINDING_NOT_FOUND := 6

  datatype Config = Config(name: Name, priority: nat, enabled: bool)
  datatype Mapping = Mapping(serviceId: nat, instanceId: nat, bindingName: Name)

  /** An element of the multimap. `stamp` only observes: the number of insertions before it. */
  datatype Entry = Entry(priority: nat, binding: Object, stamp: nat)

  /** What dlopen, dlsym, the factory and Initialize do when one library is loaded. */
  datatype LoadEvent =
    | OpenFailed
    | SymbolMissing(handle: Handle)
    | CreateReturnedNull(handle: Handle)
    | InitFailed(handle: Handle, code: int)
    | Loaded(handle: Handle, binding: Object)

  /** `opens` and `closes` count the calls of dlopen that succeeded and the calls of dlclose. */
  datatype State = State(
    bindings: seq<Entry>,
    byName: map<Name, Object>,
    handles: map<Name, Handle>,
    mappings: seq<Mapping>,
    inserted: nat,
    opens: multiset<Handle>,
    closes: multiset<Handle>)

  const EMPTY: State := State([], map[], map[], [], 0, multiset{}, multiset{})

  // ---- The multimap -----------------------------------------------------------------------------

  /** Where emplace puts a key: behind the elements of the same or a greater priority. */
  function UpperBound(bs: seq<Entry>, priority: nat): (k: nat)
    ensures k <= |bs|
    ensures forall i | 0 <= i < k :: bs[i].priority >= priority
    ensures k < |bs| ==> bs[k].priority < priority
  {
    if bs == [] || bs[0].priority < priority then 0 else 1 + UpperBound(bs[1..], priority)
  }

  function Emplace(bs: seq<Entry>, e: Entry): (r: seq<Entry>) {
    var k := UpperBound(bs, e.priority);
    bs[..k] + [e] + bs[k..]
  }

  /** Without the elements that hold the object. */
  function Erase(bs: seq<Entry>, o: Object): (r: seq<Entry>) {
    if bs == [] then []
    else
      var last := |bs| - 1;
      if bs[last].binding == o then Erase(bs[..last], o) else Erase(bs[..last], o) + [bs[last]]
  }

  /** Greater priority first; among equals, the earlier insertion first. */
  predicate Before(a: Entry, b: Entry) {
    a.priority > b.priority || (a.priority == b.priority && a.stamp < b.stamp)
  }

  predicate Sorted(bs: seq<Entry>) {
    forall i, j | 0 <= i < j < |bs| :: Before(bs[i], bs[j])
  }

  predicate Distinct(bs: seq<Entry>) {
    forall i, j | 0 <= i < j < |bs| :: bs[i].binding != bs[j].binding
  }

  function Objects(bs: seq<Entry>): set<Object> {
    set e | e in bs :: e.binding
  }

  lemma Inserting(bs: seq<Entry>, e: Entry, k: nat, r: seq<Entry>)
    requires k <= |bs| && r == bs[..k] + [e] + bs[k..]
    ensures forall i | 0 <= i < |r| :: r[i] == if i < k then bs[i] else if i == k then e else bs[i - 1]
    ensures forall i | 0 <= i < |bs| :: bs[i] == if i < k then r[i] else r[i + 1]
  {
  }

  lemma EmplaceMembers(bs: seq<Entry>, e: Entry)
    ensures forall x :: x in Emplace(bs, e) <==> x in bs || x == e
  {
    Inserting(bs, e, UpperBound(bs, e.priority), Emplace(bs, e));
  }

  lemma EmplaceSorted(bs: seq<Entry>, e: Entry)
    requires Sorted(bs) && forall x | x in bs :: x.stamp < e.stamp
    ensures Sorted(Emplace(bs, e))
  {
    var k, r := UpperBound(bs, e.priority), Emplace(bs, e);
    Inserting(bs, e, k, r);
    forall i, j | 0 <= i < j < |r| ensures Before(r[i], r[j]) {
      assert k < |bs| && k < j ==> j - 1 == k || Before(bs[k], bs[j - 1]);
    }
  }

  lemma DistinctAfter(bs: seq<Entry>, e: Entry, k: nat, r: seq<Entry>)
    requires k <= |bs| && r == bs[..k] + [e] + bs[k..]
    requires Distinct(bs) && e.binding !in Objects(bs)
    ensures Distinct(r)
  {
    forall i, j | 0 <= i < j < |r| ensures r[i].binding != r[j].binding {
      if i == k {
        assert r[j] == bs[j - 1] && bs[j - 1] in bs;
      } else if j == k {
        assert r[i] == bs[i] && bs[i] in bs;
      } else {
        assert r[i] == bs[if i < k then i else i - 1] && r[j] == bs[if j < k then j else j - 1];
      }
    }
  }

  lemma DistinctBefore(bs: seq<Entry>, e: Entry, k: nat, r: seq<Entry>)
    requires k <= |bs| && r == bs[..k] + [e] + bs[k..]
    requires Distinct(r)
    ensures Distinct(bs) && e.binding !in Objects(bs)
  {
    forall i | 0 <= i < |bs| ensures bs[i].binding != e.binding {
      assert r[if i < k then i else i + 1] == bs[i] && r[k] == e;
    }
    forall i, j | 0 <= i < j < |bs| ensures bs[i].binding != bs[j].binding {
      assert bs[i] == r[if i < k then i else i + 1] && bs[j] == r[if j < k then j else j + 1];
    }
  }

  lemma EmplaceDistinct(bs: seq<Entry>, e: Entry)
    ensures Distinct(Emplace(bs, e)) <==> Distinct(bs) && e.binding !in Objects(bs)
  {
    var k, r := UpperBound(bs, e.priority), Emplace(bs, e);
    if Distinct(r) {
      DistinctBefore(bs, e, k, r);
    }
    if Distinct(bs) && e.binding !in Objects(bs) {
      DistinctAfter(bs, e, k, r);
    }
  }

  lemma {:induction false} EraseMembers(bs: seq<Entry>, o: Object)
    ensures forall x :: x in Erase(bs, o) <==> x in bs && x.binding != o
  {
    if bs != [] {
      var last := |bs| - 1;
      EraseMembers(bs[..last], o);
      assert bs == bs[..last] + [bs[last]];
    }
  }

  lemma {:induction false} EraseSorted(bs: seq<Entry>, o: Object)
    requires Sorted(bs)
    ensures Sorted(Erase(bs, o))
  {
    if bs != [] {
      var last := |bs| - 1;
      EraseSorted(bs[..last], o);
      EraseMembers(bs[..last], o);
      forall x | x in Erase(bs[..last], o) ensures Before(x, bs[last]) {
        var i :| 0 <= i < last && bs[i] == x;
      }
    }
  }

  lemma {:induction false} EraseDistinct(bs: seq<Entry>, o: Object)
    requires Distinct(bs)
    ensures Distinct(Erase(bs, o))
  {
    if bs != [] {
      var last := |bs| - 1;
      EraseDistinct(bs[..last], o);
      EraseMembers(bs[..last], o);
      forall x | x in Erase(bs[..last], o) ensures x.binding != bs[last].binding {
        var i :| 0 <= i < last && bs[i] == x;
      }
    }
  }

  // ---- The operations, as functions ---------------------------------------------------------------

  function Inserted(s: State, name: Name, priority: nat, o: Object): State {
    s.(bindings := Emplace(s.bindings, Entry(priority, o, s.inserted)), byName := s.byName[name := o],
    inserted := s.inserted + 1)
  }

  function AfterRegister(s: State, c: Config, binding: Option<Object>): (State, Result) {
    match binding
    case None => (s, Err(BINDING_INIT_FAILED))
    case Some(o) => (Inserted(s, c.name, c.priority, o), Ok)
  }

  function OpenedAndClosed(s: State, h: Handle): State {
    s.(opens := s.opens + multiset{h}, closes := s.closes + multiset{h})
  }

  function AfterLoad(s: State, c: Config, ev: LoadEvent): (State, Result) {
    match ev
    case OpenFailed => (s, Err(LIBRARY_LOAD_FAILED))
    case SymbolMissing(h) => (OpenedAndClosed(s, h), Err(SYMBOL_NOT_FOUND))
    case CreateReturnedNull(h) => (OpenedAndClosed(s, h), Err(BINDING_INIT_FAILED))
    case InitFailed(h, code) => (OpenedAndClosed(s, h), Err(code))
    case Loaded(h, o) =>
      (Inserted(s, c.name, c.priority, o).(handles := s.handles[c.name := h], opens := s.opens + multiset{h}), Ok)
  }

  function AfterUnload(s: State, name: Name): (State, Result) {
    if name !in s.byName then (s, Err(BINDING_NOT_FOUND))
    else
      (s.(bindings := Erase(s.bindings, s.byName[name]), byName := s.byName - {name}, handles := s.handles - {name},
       closes := if name in s.handles then s.closes + multiset{s.handles[name]} else s.closes), Ok)
  }

  function UnloadAll(s: State, names: seq<Name>): State {
    if names == [] then s
    else
      var last := |names| - 1;
      AfterUnload(UnloadAll(s, names[..last]), names[last]).0
  }

  function ReloadOne(s: State, c: Config, ev: LoadEvent): State {
    if !c.enabled || c.name in s.byName then s else AfterLoad(s, c, ev).0
  }

  function LoadAll(s: State, cs: seq<Config>, evs: seq<LoadEvent>): State
    requires |evs| == |cs|
  {
    if cs == [] then s
    else
      var last := |cs| - 1;
      ReloadOne(LoadAll(s, cs[..last], evs[..last]), cs[last], evs[last])
  }

  function EnabledNames(cs: seq<Config>): set<Name> {
    set c | c in cs && c.enabled :: c.name
  }

  function Removed(order: seq<Name>, keep: set<Name>): (r: seq<Name>)
    ensures forall n :: n in r <==> n in order && n !in keep
  {
    if order == [] then []
    else
      var last := |order| - 1;
      Removed(order[..last], keep) + (if order[last] in keep then [] else [order[last]])
  }

  /** What the parser delivers: the mappings it pushed, and the configurations unless it failed. */
  datatype Parsed = Parsed(pushed: seq<Mapping>, configs: Option<seq<Config>>)

  /** `order` is the order in which the hash map of names is iterated; `evs` says for each
      configuration what loading it would meet. */
  function AfterReload(s: State, parsed: Parsed, order: seq<Name>, evs: seq<LoadEvent>): (State, Result)
    requires parsed.configs.Some? ==> |evs| == |parsed.configs.value|
  {
    var s1 := s.(mappings := s.mappings + parsed.pushed);
    match parsed.configs
    case None => (s1, Err(CONFIG_LOAD_FAILED))
    case Some(cs) => (LoadAll(UnloadAll(s1, Removed(order, EnabledNames(cs))), cs, evs), Ok)
  }

  // ---- The two indexes and the ledger agree ----------------------------------------------------------

  /** How many names a handle is stored under. */
  function Stored(handles: map<Name, Handle>, h: Handle): nat {
    |set n | n in handles && handles[n] == h|
  }

  ghost predicate OneToOne(m: map<Name, Object>) {
    forall n, n' | n in m && n' in m && n != n' :: m[n] != m[n']
  }

  /** Multimap and name map hold exactly the same objects, each once. */
  ghost predicate SameBindings(s: State) {
    Distinct(s.bindings) && OneToOne(s.byName) && Objects(s.bindings) == s.byName.Values
  }

  /** Every library opened has been closed once or is stored once, under a loaded name. */
  ghost predicate LedgerBalances(s: State) {
    s.handles.Keys <= s.byName.Keys && forall h :: s.opens[h] == s.closes[h] + Stored(s.handles, h)
  }

  ghost predicate InOrder(s: State) {
    Sorted(s.bindings) && forall e | e in s.bindings :: e.stamp < s.inserted
  }

  ghost predicate Consistent(s: State) { InOrder(s) && SameBindings(s) && LedgerBalances(s) }

  ghost predicate IsFresh(s: State, name: Name, o: Object) { name !in s.byName && o !in s.byName.Values }

  lemma ObjectsOfEmplace(bs: seq<Entry>, e: Entry)
    ensures Objects(Emplace(bs, e)) == Objects(bs) + {e.binding}
  {
    EmplaceMembers(bs, e);
    assert e in Emplace(bs, e);
  }

  lemma ValuesOfUpdate(m: map<Name, Object>, name: Name, o: Object)
    requires OneToOne(m)
    ensures name !in m ==> m[name := o].Values == m.Values + {o}
    ensures name !in m ==> (OneToOne(m[name := o]) <==> o !in m.Values)
    ensures name in m && m[name] != o ==> m[name] !in m[name := o].Values
  {
    var m' := m[name := o];
    assert name in m' && m'[name] == o;
    if name !in m {
      forall v | v in m.Values ensures v in m'.Values {
        var n :| n in m && m[n] == v;
        assert n in m' && m'[n] == v;
      }
      if o in m.Values {
        var n :| n in m && m[n] == o;
        assert n in m' && m'[n] == m'[name];
      }
    }
  }

  /** The order of the multimap never depends on the names. */
  lemma InsertedKeepsInOrder(s: State, name: Name, priority: nat, o: Object)
    requires InOrder(s)
    ensures InOrder(Inserted(s, name, priority, o))
  {
    var e := Entry(priority, o, s.inserted);
    EmplaceMembers(s.bindings, e);
    EmplaceSorted(s.bindings, e);
  }

  lemma UnloadKeepsInOrder(s: State, name: Name)
    requires InOrder(s)
    ensures InOrder(AfterUnload(s, name).0)
  {
    if name in s.byName {
      EraseMembers(s.bindings, s.byName[name]);
      EraseSorted(s.bindings, s.byName[name]);
    }
  }

  /** Inserting keeps the two indexes in step exactly if name and object are both new. A used
      name leaves its old object in the multimap only; a used object would stand there twice. */
  lemma InsertionIsConsistentExactlyIfFresh(s: State, name: Name, priority: nat, o: Object)
    requires InOrder(s) && SameBindings(s)
    ensures SameBindings(Inserted(s, name, priority, o)) <==> IsFresh(s, name, o)
  {
    var e := Entry(priority, o, s.inserted);
    EmplaceDistinct(s.bindings, e);
    ObjectsOfEmplace(s.bindings, e);
    ValuesOfUpdate(s.byName, name, o);
    if name in s.byName && s.byName[name] != o {
      assert s.byName[name] in Objects(Emplace(s.bindings, e));
    }
  }

  lemma RegisterIsConsistentExactlyIfFresh(s: State, c: Config, o: Object)
    requires Consistent(s)
    ensures Consistent(AfterRegister(s, c, Some(o)).0) <==> IsFresh(s, c.name, o)
  {
    InsertedKeepsInOrder(s, c.name, c.priority, o);
    InsertionIsConsistentExactlyIfFresh(s, c.name, c.priority, o);
  }

  lemma StoredOfUpdate(handles: map<Name, Handle>, name: Name, h: Handle, x: Handle)
    requires name !in handles
    ensures Stored(handles[name := h], x) == Stored(handles, x) + if x == h then 1 else 0
  {
    var handles' := handles[name := h];
    var before := set n | n in handles && handles[n] == x;
    var after := set n | n in handles' && handles'[n] == x;
    assert after == if x == h then before + {name} else before;
  }

  lemma StoredOfRemoval(handles: map<Name, Handle>, name: Name, x: Handle)
    requires name in handles
    ensures Stored(handles, x) == Stored(handles - {name}, x) + if x == handles[name] then 1 else 0
  {
    var h := handles[name];
    StoredOfUpdate(handles - {name}, name, h, x);
    assert (handles - {name})[name := h] == handles;
  }

  lemma ClosingKeepsSum(closes: multiset<Handle>, left: map<Name, Handle>, name: Name)
    requires name in left
    ensures forall h :: (closes + multiset{left[name]})[h] + Stored(left - {name}, h) == closes[h] + Stored(left, h)
  {
    forall h ensures (closes + multiset{left[name]})[h] + Stored(left - {name}, h) == closes[h] + Stored(left, h) {
      StoredOfRemoval(left, name, h);
    }
  }

  lemma LoadIsConsistentExactlyIfFresh(s: State, c: Config, ev: LoadEvent)
    requires Consistent(s)
    ensures Consistent(AfterLoad(s, c, ev).0) <==> (ev.Loaded? ==> IsFresh(s, c.name, ev.binding))
  {
    if ev.Loaded? {
      InsertedKeepsInOrder(s, c.name, c.priority, ev.binding);
      InsertionIsConsistentExactlyIfFresh(s, c.name, c.priority, ev.binding);
      if c.name !in s.byName {
        forall x
          ensures Stored(s.handles[c.name := ev.handle], x) == Stored(s.handles, x) + if x == ev.handle then 1 else 0
        {
          StoredOfUpdate(s.handles, c.name, ev.handle, x);
        }
      }
    }
  }

  /** Loading a library under a name that already has one drops the old handle: it is opened,
      not closed, and not stored any more (unless the new handle is the same one, which is then
      stored once for two openings). */
  lemma LoadingAUsedNameLeaksALibrary(s: State, c: Config, ev: LoadEvent)
    requires Consistent(s) && ev.Loaded? && c.name in s.handles
    ensures var s' := AfterLoad(s, c, ev).0; var h := s.handles[c.name];
            s'.opens[h] == s'.closes[h] + Stored(s'.handles, h) + 1
  {
    var h := s.handles[c.name];
    var rest := s.handles - {c.name};
    StoredOfRemoval(s.handles, c.name, h);
    StoredOfUpdate(rest, c.name, ev.handle, h);
    assert rest[c.name := ev.handle] == s.handles[c.name := ev.handle];
  }

  lemma UnloadKeepsBindings(s: State, name: Name)
    requires SameBindings(s) && name in s.byName
    ensures SameBindings(AfterUnload(s, name).0)
  {
    var o := s.byName[name];
    var s' := AfterUnload(s, name).0;
    EraseMembers(s.bindings, o);
    EraseDistinct(s.bindings, o);
    forall x ensures x in Objects(s'.bindings) <==> x in s'.byName.Values {
      if x in Objects(s'.bindings) {
        assert x in s.byName.Values && x != o;
        var n :| n in s.byName && s.byName[n] == x;
        assert n in s'.byName && s'.byName[n] == x;
      }
      if x in s'.byName.Values {
        var n :| n in s'.byName && s'.byName[n] == x;
        assert n in s.byName && s.byName[n] == x && x in s.byName.Values;
        var e :| e in s.bindings && e.binding == x;
        assert e in s'.bindings;
      }
    }
  }

  lemma UnloadKeepsLedger(s: State, name: Name)
    requires LedgerBalances(s) && name in s.byName
    ensures LedgerBalances(AfterUnload(s, name).0)
  {
    var s' := AfterUnload(s, name).0;
    forall h ensures s'.opens[h] == s'.closes[h] + Stored(s'.handles, h) {
      if name in s.handles {
        StoredOfRemoval(s.handles, name, h);
      } else {
        assert s.handles - {name} == s.handles;
      }
    }
  }

  /** Unloading undoes nothing else: from a consistent state it always leads to one. */
  lemma UnloadKeepsConsistent(s: State, name: Name)
    requires Consistent(s)
    ensures Consistent(AfterUnload(s, name).0)
  {
    if name in s.byName {
      UnloadKeepsInOrder(s, name);
      UnloadKeepsBindings(s, name);
      UnloadKeepsLedger(s, name);
    }
  }

  // ---- Reloading ----------------------------------------------------------------------------------------

  /** The entry of a loaded object, with its priority and its place among equals. */
  ghost predicate Holds(s: State, name: Name, e: Entry) {
    name in s.byName && s.byName[name] == e.binding && e in s.bindings
  }

  lemma {:induction false} UnloadAllKeeps(s: State, names: seq<Name>)
    requires Consistent(s)
    ensures Consistent(UnloadAll(s, names))
    ensures forall n :: n in UnloadAll(s, names).byName <==> n in s.byName && n !in names
    ensures forall n, e | n !in names && Holds(s, n, e) :: Holds(UnloadAll(s, names), n, e)
  {
    if names != [] {
      var last := |names| - 1;
      var s1 := UnloadAll(s, names[..last]);
      UnloadAllKeeps(s, names[..last]);
      UnloadKeepsConsistent(s1, names[last]);
      if names[last] in s1.byName {
        EraseMembers(s1.bindings, s1.byName[names[last]]);
      }
    }
  }

  /** Whenever the reload really loads a library, the new object is not one already in use. */
  ghost predicate FreshLoads(s: State, cs: seq<Config>, evs: seq<LoadEvent>)
    requires |evs| == |cs|
  {
    forall i | 0 <= i < |cs| && evs[i].Loaded? ::
      var si := LoadAll(s, cs[..i], evs[..i]);
      cs[i].enabled && cs[i].name !in si.byName ==> evs[i].binding !in si.byName.Values
  }

  predicate Loads(c: Config, ev: LoadEvent, n: Name) { c.enabled && ev.Loaded? && c.name == n }

  lemma ReloadOneKeeps(s: State, c: Config, ev: LoadEvent)
    requires Consistent(s)
    requires ev.Loaded? && c.enabled && c.name !in s.byName ==> ev.binding !in s.byName.Values
    ensures Consistent(ReloadOne(s, c, ev))
    ensures forall n, e | Holds(s, n, e) :: Holds(ReloadOne(s, c, ev), n, e)
  {
    if c.enabled && c.name !in s.byName {
      LoadIsConsistentExactlyIfFresh(s, c, ev);
      if ev.Loaded? {
        EmplaceMembers(s.bindings, Entry(c.priority, ev.binding, s.inserted));
      }
    }
  }

  lemma FreshBefore(s: State, cs: seq<Config>, evs: seq<LoadEvent>)
    requires |evs| == |cs| > 0 && FreshLoads(s, cs, evs)
    ensures FreshLoads(s, cs[..|cs| - 1], evs[..|cs| - 1])
  {
    var last := |cs| - 1;
    assert forall i | 0 <= i < last :: cs[..last][..i] == cs[..i] && evs[..last][..i] == evs[..i];
  }

  lemma {:induction false} LoadAllKeeps(s: State, cs: seq<Config>, evs: seq<LoadEvent>)
    requires |evs| == |cs| && Consistent(s) && FreshLoads(s, cs, evs)
    ensures Consistent(LoadAll(s, cs, evs))
    ensures forall n, e | Holds(s, n, e) :: Holds(LoadAll(s, cs, evs), n, e)
  {
    if cs != [] {
      var last := |cs| - 1;
      FreshBefore(s, cs, evs);
      LoadAllKeeps(s, cs[..last], evs[..last]);
      ReloadOneKeeps(LoadAll(s, cs[..last], evs[..last]), cs[last], evs[last]);
    }
  }

  lemma NamesOfReloadOne(s: State, c: Config, ev: LoadEvent)
    ensures var s' := ReloadOne(s, c, ev);
            s'.byName.Keys == s.byName.Keys + if c.enabled && ev.Loaded? then {c.name} else {}
  {
  }

  lemma {:induction false} NamesOfLoadAll(s: State, cs: seq<Config>, evs: seq<LoadEvent>)
    requires |evs| == |cs|
    ensures forall n :: n in LoadAll(s, cs, evs).byName <==>
              n in s.byName || exists i :: 0 <= i < |cs| && Loads(cs[i], evs[i], n)
  {
    if cs != [] {
      var last := |cs| - 1;
      var cs1, evs1 := cs[..last], evs[..last];
      NamesOfLoadAll(s, cs1, evs1);
      NamesOfReloadOne(LoadAll(s, cs1, evs1), cs[last], evs[last]);
      forall n ensures n in LoadAll(s, cs, evs).byName <==>
                 n in s.byName || exists i :: 0 <= i < |cs| && Loads(cs[i], evs[i], n) {
        if i :| 0 <= i < last && Loads(cs1[i], evs1[i], n) {
          assert Loads(cs[i], evs[i], n);
        }
        if i :| 0 <= i < |cs| && Loads(cs[i], evs[i], n) {
          assert i < last ==> Loads(cs1[i], evs1[i], n);
        }
      }
    }
  }

  /** The hash map of names is iterated over all its keys. */
  ghost predicate IsOrderOf(order: seq<Name>, s: State) {
    forall n :: n in order <==> n in s.byName
  }

  ghost predicate FreshReload(s: State, parsed: Parsed, order: seq<Name>, evs: seq<LoadEvent>)
    requires parsed.configs.Some? ==> |evs| == |parsed.configs.value|
  {
    match parsed.configs
    case None => true
    case Some(cs) =>
      FreshLoads(UnloadAll(s.(mappings := s.mappings + parsed.pushed), Removed(order, EnabledNames(cs))), cs, evs)
  }

  /** After a reload the indexes and the ledger agree, and an enabled name that was loaded keeps
      its object, its old priority and its place among equals, whatever the new configuration
      says. */
  lemma ReloadKeepsConsistent(s: State, parsed: Parsed, order: seq<Name>, evs: seq<LoadEvent>)
    requires parsed.configs.Some? ==> |evs| == |parsed.configs.value|
    requires Consistent(s) && IsOrderOf(order, s) && FreshReload(s, parsed, order, evs)
    ensures Consistent(AfterReload(s, parsed, order, evs).0)
    ensures parsed.configs.Some? ==>
              forall c, e | c in parsed.configs.value && c.enabled && Holds(s, c.name, e) ::
                Holds(AfterReload(s, parsed, order, evs).0, c.name, e)
  {
    if parsed.configs.Some? {
      var s1 := s.(mappings := s.mappings + parsed.pushed);
      var cs := parsed.configs.value;
      var gone := Removed(order, EnabledNames(cs));
      assert forall n, e :: Holds(s, n, e) == Holds(s1, n, e);
      UnloadAllKeeps(s1, gone);
      LoadAllKeeps(UnloadAll(s1, gone), cs, evs);
    }
  }

  /** The names loaded after a reload: those that were loaded and are enabled, and those enabled
      in a configuration whose library loads. In particular every loaded name is enabled. */
  lemma NamesAfterReload(s: State, parsed: Parsed, order: seq<Name>, evs: seq<LoadEvent>, n: Name)
    requires parsed.configs.Some? && |evs| == |parsed.configs.value|
    requires Consistent(s) && IsOrderOf(order, s)
    ensures var cs := parsed.configs.value;
            n in AfterReload(s, parsed, order, evs).0.byName <==>
            (n in s.byName && exists c :: c in cs && c.enabled && c.name == n)
            || exists i :: 0 <= i < |cs| && cs[i].enabled && cs[i].name == n && evs[i].Loaded?
    ensures n in AfterReload(s, parsed, order, evs).0.byName ==>
              exists c :: c in parsed.configs.value && c.enabled && c.name == n
  {
    var s1 := s.(mappings := s.mappings + parsed.pushed);
    var cs := parsed.configs.value;
    var gone := Removed(order, EnabledNames(cs));
    UnloadAllKeeps(s1, gone);
    NamesOfLoadAll(UnloadAll(s1, gone), cs, evs);
    if i :| 0 <= i < |cs| && Loads(cs[i], evs[i], n) {
      assert cs[i] in cs;
    }
  }

  // ---- Results, and what an operation leaves alone --------------------------------------------------------

  /** The error codes, and that a failed operation changes the ledger or the mappings at most. */
  lemma FailuresSayWhy(
      s: State, c: Config, ev: LoadEvent, name: Name, parsed: Parsed, order: seq<Name>, evs: seq<LoadEvent>)
    requires parsed.configs.Some? ==> |evs| == |parsed.configs.value|
    ensures AfterRegister(s, c, None) == (s, Err(4)) && forall o :: AfterRegister(s, c, Some(o)).1 == Ok
    ensures AfterLoad(s, c, ev).1 == match ev
                                     case OpenFailed => Err(2)
                                     case SymbolMissing(_) => Err(3)
                                     case CreateReturnedNull(_) => Err(4)
                                     case InitFailed(_, code) => Err(code)
                                     case Loaded(_, _) => Ok
    ensures !ev.Loaded? ==> AfterLoad(s, c, ev).0.(opens := s.opens, closes := s.closes) == s
    ensures name !in s.byName ==> AfterUnload(s, name) == (s, Err(6))
    ensures name in s.byName ==> AfterUnload(s, name).1 == Ok
    ensures parsed.configs.None? ==>
              AfterReload(s, parsed, order, evs) == (s.(mappings := s.mappings + parsed.pushed), Err(1))
    ensures parsed.configs.Some? ==> AfterReload(s, parsed, order, evs).1 == Ok
  {
  }

  /** Unloading a name leaves every other name its object, its handle and its place, and keeps the
      mappings; of its own it keeps nothing. */
  lemma UnloadLeavesOthers(s: State, name: Name, other: Name, e: Entry)
    requires Consistent(s) && other != name
    ensures var s' := AfterUnload(s, name).0;
            && name !in s'.byName && name !in s'.handles && s'.mappings == s.mappings
            && (other in s'.byName <==> other in s.byName) && (other in s'.handles <==> other in s.handles)
            && (other in s.handles ==> s'.handles[other] == s.handles[other])
            && (Holds(s, other, e) ==> Holds(s', other, e))
  {
    if name in s.byName {
      EraseMembers(s.bindings, s.byName[name]);
    }
  }

  /** Loading a name leaves every other name its object, its handle and its place, and keeps the
      mappings; the new object and its handle are stored under the name. */
  lemma LoadLeavesOthers(s: State, c: Config, ev: LoadEvent, other: Name, e: Entry)
    requires other != c.name
    ensures var s' := AfterLoad(s, c, ev).0;
            && s'.mappings == s.mappings
            && (other in s'.byName <==> other in s.byName) && (other in s'.handles <==> other in s.handles)
            && (other in s.handles ==> s'.handles[other] == s.handles[other])
            && (Holds(s, other, e) ==> Holds(s', other, e))
            && (ev.Loaded? ==>
                  c.name in s'.byName && s'.byName[c.name] == ev.binding
                  && c.name in s'.handles && s'.handles[c.name] == ev.handle)
  {
    if ev.Loaded? {
      EmplaceMembers(s.bindings, Entry(c.priority, ev.binding, s.inserted));
    }
  }

  // ---- Runs -----------------------------------------------------------------------------------------------

  datatype Op =
    | Register(config: Config, binding: Option<Object>)
    | Load(config: Config, event: LoadEvent)
    | Unload(name: Name)
    | Reload(parsed: Parsed, order: seq<Name>, events: seq<LoadEvent>)
  {
    predicate Valid() {
      Reload? && parsed.configs.Some? ==> |events| == |parsed.configs.value|
    }
  }

  function Step(s: State, op: Op): State
    requires op.Valid()
  {
    match op
    case Register(c, o) => AfterRegister(s, c, o).0
    case Load(c, ev) => AfterLoad(s, c, ev).0
    case Unload(name) => AfterUnload(s, name).0
    case Reload(parsed, order, evs) => AfterReload(s, parsed, order, evs).0
  }

  /** New names and new objects only. */
  ghost predicate UsesFresh(s: State, op: Op)
    requires op.Valid()
  {
    match op
    case Register(c, o) => o.Some? ==> IsFresh(s, c.name, o.value)
    case Load(c, ev) => ev.Loaded? ==> IsFresh(s, c.name, ev.binding)
    case Unload(_) => true
    case Reload(parsed, order, evs) => IsOrderOf(order, s) && FreshReload(s, parsed, order, evs)
  }

  ghost predicate IsRun(tr: seq<State>, ops: seq<Op>) {
    && |tr| == |ops| + 1 && tr[0] == EMPTY
    && forall i | 0 <= i < |ops| :: ops[i].Valid() && UsesFresh(tr[i], ops[i]) && tr[i + 1] == Step(tr[i], ops[i])
  }

  /** Every state reached by operations on new names and objects is consistent. */
  lemma {:induction false} ReachableStatesAreConsistent(tr: seq<State>, ops: seq<Op>, i: nat)
    requires IsRun(tr, ops) && i < |tr|
    ensures Consistent(tr[i])
  {
    if i > 0 {
      ReachableStatesAreConsistent(tr, ops, i - 1);
      var s := tr[i - 1];
      match ops[i - 1]
      case Register(c, o) =>
        if o.Some? {
          RegisterIsConsistentExactlyIfFresh(s, c, o.value);
        }
      case Load(c, ev) => LoadIsConsistentExactlyIfFresh(s, c, ev);
      case Unload(name) => UnloadKeepsConsistent(s, name);
      case Reload(parsed, order, evs) => ReloadKeepsConsistent(s, parsed, order, evs);
    }
  }

  // ---- Arrivals: which configuration brought an object in ------------------------------------------------

  datatype Arrival = Arrival(name: Name, priority: nat, binding: Object)

  /** What loading one configuration after the other brings in: the libraries that load under
      an enabled name not in use. */
  function ArrivalsOfLoads(s: State, cs: seq<Config>, evs: seq<LoadEvent>): seq<Arrival>
    requires |evs| == |cs|
  {
    if cs == [] then []
    else
      var last := |cs| - 1;
      var c, ev := cs[last], evs[last];
      ArrivalsOfLoads(s, cs[..last], evs[..last])
      + (if c.enabled && ev.Loaded? && c.name !in LoadAll(s, cs[..last], evs[..last]).byName
         then [Arrival(c.name, c.priority, ev.binding)] else [])
  }

  /** What an operation brings in, in order. */
  function ArrivalsOf(s: State, op: Op): seq<Arrival>
    requires op.Valid()
  {
    match op
    case Register(c, o) => if o.Some? then [Arrival(c.name, c.priority, o.value)] else []
    case Load(c, ev) => if ev.Loaded? then [Arrival(c.name, c.priority, ev.binding)] else []
    case Unload(_) => []
    case Reload(parsed, order, evs) =>
      match parsed.configs
      case None => []
      case Some(cs) =>
        var s1 := s.(mappings := s.mappings + parsed.pushed);
        ArrivalsOfLoads(UnloadAll(s1, Removed(order, EnabledNames(cs))), cs, evs)
  }

  /** All arrivals of the first k operations. */
  function Arrivals(tr: seq<State>, ops: seq<Op>, k: nat): seq<Arrival>
    requires k <= |ops| < |tr| && forall op | op in ops :: op.Valid()
  {
    if k == 0 then [] else Arrivals(tr, ops, k - 1) + ArrivalsOf(tr[k - 1], ops[k - 1])
  }

  /** Arrival i is the last one under its name. */
  ghost predicate IsLatest(log: seq<Arrival>, i: nat) {
    i < |log| && forall j | i < j < |log| :: log[j].name != log[i].name
  }

  /** Every element of the multimap carries object and priority of the arrival whose number is its
      stamp. */
  ghost predicate EntriesTraced(s: State, log: seq<Arrival>) {
    && s.inserted == |log|
    && forall e | e in s.bindings ::
         e.stamp < |log| && e.priority == log[e.stamp].priority && e.binding == log[e.stamp].binding
  }

  /** Every loaded name has the object of the latest arrival under it, and stands in the multimap
      with the priority of that arrival. */
  ghost predicate NamesTraced(s: State, log: seq<Arrival>) {
    forall n | n in s.byName :: exists i: nat :: IsNamedBy(s, log, n, i)
  }

  ghost predicate IsNamedBy(s: State, log: seq<Arrival>, n: Name, i: nat) {
    && IsLatest(log, i) && log[i].name == n && n in s.byName && log[i].binding == s.byName[n]
    && Entry(log[i].priority, log[i].binding, i) in s.bindings
  }

  ghost predicate Traced(s: State, log: seq<Arrival>) { EntriesTraced(s, log) && NamesTraced(s, log) }

  lemma TracedAfterInsert(s: State, log: seq<Arrival>, name: Name, priority: nat, o: Object)
    requires Traced(s, log)
    ensures Traced(Inserted(s, name, priority, o), log + [Arrival(name, priority, o)])
  {
    var s', log' := Inserted(s, name, priority, o), log + [Arrival(name, priority, o)];
    EmplaceMembers(s.bindings, Entry(priority, o, s.inserted));
    forall n | n in s'.byName ensures exists i: nat :: IsNamedBy(s', log', n, i) {
      if n == name {
        assert IsNamedBy(s', log', n, |log|);
      } else {
        var i: nat :| IsNamedBy(s, log, n, i);
        assert IsNamedBy(s', log', n, i);
      }
    }
  }

  lemma TracedAfterUnload(s: State, log: seq<Arrival>, name: Name)
    requires Traced(s, log) && OneToOne(s.byName)
    ensures Traced(AfterUnload(s, name).0, log)
  {
    var s' := AfterUnload(s, name).0;
    if name in s.byName {
      EraseMembers(s.bindings, s.byName[name]);
      forall n | n in s'.byName ensures exists i: nat :: IsNamedBy(s', log, n, i) {
        var i: nat :| IsNamedBy(s, log, n, i);
        assert s.byName[n] != s.byName[name];
        assert IsNamedBy(s', log, n, i);
      }
    }
  }

  /** Nothing that a trace speaks of has changed. */
  lemma TracedAlike(s: State, s': State, log: seq<Arrival>)
    requires Traced(s, log) && s'.bindings == s.bindings && s'.byName == s.byName && s'.inserted == s.inserted
    ensures Traced(s', log)
  {
    forall n | n in s'.byName ensures exists i: nat :: IsNamedBy(s', log, n, i) {
      var i: nat :| IsNamedBy(s, log, n, i);
      assert IsNamedBy(s', log, n, i);
    }
  }

  lemma {:induction false} TracedAfterUnloadAll(s: State, log: seq<Arrival>, names: seq<Name>)
    requires Traced(s, log) && Consistent(s)
    ensures Traced(UnloadAll(s, names), log)
  {
    if names != [] {
      var init := names[..|names| - 1];
      TracedAfterUnloadAll(s, log, init);
      UnloadAllKeeps(s, init);
      TracedAfterUnload(UnloadAll(s, init), log, names[|names| - 1]);
    }
  }

  lemma TracedAfterLoad(s: State, log: seq<Arrival>, c: Config, ev: LoadEvent)
    requires Traced(s, log)
    ensures Traced(AfterLoad(s, c, ev).0, log + if ev.Loaded? then [Arrival(c.name, c.priority, ev.binding)] else [])
  {
    var s' := AfterLoad(s, c, ev).0;
    if ev.Loaded? {
      TracedAfterInsert(s, log, c.name, c.priority, ev.binding);
      TracedAlike(Inserted(s, c.name, c.priority, ev.binding), s', log + [Arrival(c.name, c.priority, ev.binding)]);
    } else {
      assert log + [] == log;
      TracedAlike(s, s', log);
    }
  }

  lemma {:induction false} TracedAfterLoads(s: State, log: seq<Arrival>, cs: seq<Config>, evs: seq<LoadEvent>)
    requires |evs| == |cs| && Traced(s, log)
    ensures Traced(LoadAll(s, cs, evs), log + ArrivalsOfLoads(s, cs, evs))
  {
    if cs == [] {
      assert log + [] == log;
    } else {
      var last := |cs| - 1;
      var c, ev, s1 := cs[last], evs[last], LoadAll(s, cs[..last], evs[..last]);
      var more := ArrivalsOfLoads(s, cs[..last], evs[..last]);
      TracedAfterLoads(s, log, cs[..last], evs[..last]);
      if c.enabled && c.name !in s1.byName {
        TracedAfterLoad(s1, log + more, c, ev);
      }
      assert log + ArrivalsOfLoads(s, cs, evs) == log + more
             + (if c.enabled && ev.Loaded? && c.name !in s1.byName
                then [Arrival(c.name, c.priority, ev.binding)] else []);
      assert (log + more) + [] == log + more;
    }
  }

  lemma TracedAfterReload(s: State, log: seq<Arrival>, parsed: Parsed, order: seq<Name>, evs: seq<LoadEvent>)
    requires parsed.configs.Some? ==> |evs| == |parsed.configs.value|
    requires Traced(s, log) && Consistent(s)
    ensures Traced(AfterReload(s, parsed, order, evs).0, log + ArrivalsOf(s, Reload(parsed, order, evs)))
  {
    var s1 := s.(mappings := s.mappings + parsed.pushed);
    TracedAlike(s, s1, log);
    if parsed.configs.Some? {
      var cs := parsed.configs.value;
      var gone := Removed(order, EnabledNames(cs));
      TracedAfterUnloadAll(s1, log, gone);
      TracedAfterLoads(UnloadAll(s1, gone), log, cs, evs);
    } else {
      assert log + [] == log;
    }
  }

  lemma TracedAfterStep(s: State, log: seq<Arrival>, op: Op)
    requires op.Valid() && Traced(s, log) && Consistent(s)
    ensures Traced(Step(s, op), log + ArrivalsOf(s, op))
  {
    assert log + [] == log;
    match op
    case Register(c, o) =>
      if o.Some? {
        TracedAfterInsert(s, log, c.name, c.priority, o.value);
      }
    case Load(c, ev) => TracedAfterLoad(s, log, c, ev);
    case Unload(name) => TracedAfterUnload(s, log, name);
    case Reload(parsed, order, evs) => TracedAfterReload(s, log, parsed, order, evs);
  }

  /** After every run each element of the multimap carries the priority of the configuration that
      brought its object in, and each loaded name has the object of its latest arrival. */
  lemma {:induction false} PrioritiesAreConfigured(tr: seq<State>, ops: seq<Op>, k: nat)
    requires IsRun(tr, ops) && k < |tr|
    ensures forall op | op in ops :: op.Valid()
    ensures Traced(tr[k], Arrivals(tr, ops, k))
  {
    forall op | op in ops ensures op.Valid() {
      var i :| 0 <= i < |ops| && ops[i] == op;
    }
    if k > 0 {
      PrioritiesAreConfigured(tr, ops, k - 1);
      ReachableStatesAreConsistent(tr, ops, k - 1);
      TracedAfterStep(tr[k - 1], Arrivals(tr, ops, k - 1), ops[k - 1]);
    }
  }

  // ---- Selection ----------------------------------------------------------------------------------------------

  predicate Matches(m: Mapping, serviceId: nat, instanceId: nat) {
    m.serviceId == serviceId && (m.instanceId == 0 || m.instanceId == instanceId)
  }

  function FindStaticMapping(ms: seq<Mapping>, serviceId: nat, instanceId: nat): (r: Option<Name>)
    ensures r.None? <==> forall m | m in ms :: !Matches(m, serviceId, instanceId)
    ensures r.Some? ==>
              exists k :: 0 <= k < |ms| && IsFirstMatch(ms, k, serviceId, instanceId) && ms[k].bindingName == r.value
  {
    if ms == [] then None
    else if Matches(ms[0], serviceId, instanceId) then
      assert IsFirstMatch(ms, 0, serviceId, instanceId);
      Some(ms[0].bindingName)
    else
      var r := FindStaticMapping(ms[1..], serviceId, instanceId);
      assert forall k | 0 <= k < |ms| - 1 :: ms[1..][k] == ms[k + 1];
      assert forall k | 0 <= k < |ms| - 1 && IsFirstMatch(ms[1..], k, serviceId, instanceId) ::
          IsFirstMatch(ms, k + 1, serviceId, instanceId);
      r
  }

  predicate IsFirstMatch(ms: seq<Mapping>, k: nat, serviceId: nat, instanceId: nat)
    requires k < |ms|
  {
    Matches(ms[k], serviceId, instanceId) && forall j | 0 <= j < k :: !Matches(ms[j], serviceId, instanceId)
  }

  lemma {:induction false} FirstMatchDecides(ms: seq<Mapping>, more: seq<Mapping>, serviceId: nat, instanceId: nat)
    requires FindStaticMapping(ms, serviceId, instanceId).Some?
    ensures FindStaticMapping(ms + more, serviceId, instanceId) == FindStaticMapping(ms, serviceId, instanceId)
  {
    assert (ms + more)[0] == ms[0] && (ms + more)[1..] == ms[1..] + more;
    if !Matches(ms[0], serviceId, instanceId) {
      FirstMatchDecides(ms[1..], more, serviceId, instanceId);
    }
  }

  lemma {:induction false} UnloadAllKeepsMappings(s: State, names: seq<Name>)
    ensures UnloadAll(s, names).mappings == s.mappings
  {
    if names != [] {
      UnloadAllKeepsMappings(s, names[..|names| - 1]);
    }
  }

  lemma {:induction false} LoadAllKeepsMappings(s: State, cs: seq<Config>, evs: seq<LoadEvent>)
    requires |evs| == |cs|
    ensures LoadAll(s, cs, evs).mappings == s.mappings
  {
    if cs != [] {
      LoadAllKeepsMappings(s, cs[..|cs| - 1], evs[..|cs| - 1]);
    }
  }

  /** A mapping selects for its own service only, and for its own instance or, with instance 0, for
      every instance; the first such mapping decides. */
  lemma FirstMappingDecides(ms: seq<Mapping>, k: nat, serviceId: nat, instanceId: nat)
    requires k < |ms| && ms[k].serviceId == serviceId && (ms[k].instanceId == 0 || ms[k].instanceId == instanceId)
    requires forall j | 0 <= j < k ::
               ms[j].serviceId != serviceId || (ms[j].instanceId != 0 && ms[j].instanceId != instanceId)
    ensures FindStaticMapping(ms, serviceId, instanceId) == Some(ms[k].bindingName)
  {
    var r := FindStaticMapping(ms, serviceId, instanceId);
    assert ms[k] in ms && Matches(ms[k], serviceId, instanceId);
    var i :| 0 <= i < |ms| && IsFirstMatch(ms, i, serviceId, instanceId) && ms[i].bindingName == r.value;
    assert !(i < k) && !(k < i);
  }

  /** No mapping selects for another service or another instance. */
  lemma NoMappingNoSelection(ms: seq<Mapping>, serviceId: nat, instanceId: nat)
    requires forall m | m in ms :: m.serviceId != serviceId || (m.instanceId != 0 && m.instanceId != instanceId)
    ensures FindStaticMapping(ms, serviceId, instanceId) == None
  {
  }

  /** A reload adds mappings and removes none: a service that was mapped stays mapped to the
      same name, whatever the new configuration maps it to, and even if that binding is gone. */
  lemma ReloadCannotRemap(
      s: State, parsed: Parsed, order: seq<Name>, evs: seq<LoadEvent>, serviceId: nat, instanceId: nat)
    requires parsed.configs.Some? ==> |evs| == |parsed.configs.value|
    requires FindStaticMapping(s.mappings, serviceId, instanceId).Some?
    ensures var s' := AfterReload(s, parsed, order, evs).0;
            && s'.mappings == s.mappings + parsed.pushed
            && FindStaticMapping(s'.mappings, serviceId, instanceId)
               == FindStaticMapping(s.mappings, serviceId, instanceId)
  {
    FirstMatchDecides(s.mappings, parsed.pushed, serviceId, instanceId);
    if parsed.configs.Some? {
      var s1 := s.(mappings := s.mappings + parsed.pushed);
      var gone := Removed(order, EnabledNames(parsed.configs.value));
      UnloadAllKeepsMappings(s1, gone);
      LoadAllKeepsMappings(UnloadAll(s1, gone), parsed.configs.value, evs);
    }
  }

  /** The declarative meaning of the scan: nothing supports the service, or the choice is the
      supporting binding of greatest priority, the earliest inserted among equals. */
  ghost predicate IsBest(bs: seq<Entry>, supports: (Object, nat) -> bool, serviceId: nat, r: Option<Object>) {
    match r
    case None => forall e | e in bs :: !supports(e.binding, serviceId)
    case Some(o) =>
      exists e :: e in bs && e.binding == o && supports(o, serviceId)
        && forall e' | e' in bs && e' != e && supports(e'.binding, serviceId) :: Before(e, e')
  }

  /** What SelectBinding returns: the binding that the first matching mapping names, if it is
      loaded, and the best supporting one otherwise. */
  ghost predicate IsSelected(
      s: State, supports: (Object, nat) -> bool, serviceId: nat, instanceId: nat, r: Option<Object>) {
    match FindStaticMapping(s.mappings, serviceId, instanceId)
    case Some(name) =>
      if name in s.byName then r == Some(s.byName[name]) else IsBest(s.bindings, supports, serviceId, r)
    case None => IsBest(s.bindings, supports, serviceId, r)
  }

  /** In a consistent state a selection is a loaded binding, there is exactly one, and there is
      none only if no loaded binding supports the service. */
  lemma SelectionIsLoaded(
      s: State, supports: (Object, nat) -> bool, serviceId: nat, instanceId: nat, r: Option<Object>, r': Option<Object>)
    requires Consistent(s)
    requires IsSelected(s, supports, serviceId, instanceId, r) && IsSelected(s, supports, serviceId, instanceId, r')
    ensures r == r'
    ensures r.Some? ==> r.value in s.byName.Values
    ensures r.None? ==> forall name | name in s.byName :: !supports(s.byName[name], serviceId)
  {
    forall e | e in s.bindings ensures e.binding in s.byName.Values {
      assert e.binding in Objects(s.bindings);
    }
    forall name | name in s.byName ensures exists e :: e in s.bindings && e.binding == s.byName[name] {
      assert s.byName[name] in s.byName.Values;
      assert s.byName[name] in Objects(s.bindings);
    }
  }

  /** The loaded name n, brought in by arrival i, supports the service. */
  ghost predicate Offers(
      s: State, log: seq<Arrival>, supports: (Object, nat) -> bool, serviceId: nat, n: Name, i: nat) {
    n in s.byName && IsLatest(log, i) && log[i].name == n && supports(s.byName[n], serviceId)
  }

  lemma SameArrival(log: seq<Arrival>, i: nat, j: nat)
    requires IsLatest(log, i) && IsLatest(log, j) && log[i].name == log[j].name
    ensures i == j
  {
  }

  /** After every run, for a service without a mapping: what is selected is a loaded binding that
      supports the service and was brought in with the greatest configured priority, the earliest
      arrival among equals. */
  lemma SelectionFollowsConfiguration(
      tr: seq<State>, ops: seq<Op>, k: nat, supports: (Object, nat) -> bool, serviceId: nat, instanceId: nat, o: Object)
    returns (n: Name, i: nat)
    requires IsRun(tr, ops) && k < |tr| && FindStaticMapping(tr[k].mappings, serviceId, instanceId).None?
    requires IsSelected(tr[k], supports, serviceId, instanceId, Some(o))
    ensures forall op | op in ops :: op.Valid()
    ensures var log := Arrivals(tr, ops, k);
            && Offers(tr[k], log, supports, serviceId, n, i) && tr[k].byName[n] == o == log[i].binding
            && forall n': Name, j: nat | n' != n && Offers(tr[k], log, supports, serviceId, n', j) ::
                 log[i].priority > log[j].priority || (log[i].priority == log[j].priority && i < j)
  {
    PrioritiesAreConfigured(tr, ops, k);
    ReachableStatesAreConsistent(tr, ops, k);
    n, i := BestIsTraced(tr[k], Arrivals(tr, ops, k), supports, serviceId, o);
  }

  lemma NamedByArrival(s: State, log: seq<Arrival>, supports: (Object, nat) -> bool, serviceId: nat, n: Name, j: nat)
    requires Traced(s, log) && Offers(s, log, supports, serviceId, n, j)
    ensures IsNamedBy(s, log, n, j)
  {
    var i: nat :| IsNamedBy(s, log, n, i);
    SameArrival(log, i, j);
  }

  lemma BestIsTraced(s: State, log: seq<Arrival>, supports: (Object, nat) -> bool, serviceId: nat, o: Object)
    returns (n: Name, i: nat)
    requires Traced(s, log) && Consistent(s) && IsBest(s.bindings, supports, serviceId, Some(o))
    ensures Offers(s, log, supports, serviceId, n, i) && s.byName[n] == o == log[i].binding
    ensures forall n': Name, j: nat | n' != n && Offers(s, log, supports, serviceId, n', j) ::
              log[i].priority > log[j].priority || (log[i].priority == log[j].priority && i < j)
  {
    var e :| e in s.bindings && e.binding == o && supports(o, serviceId)
      && forall e' | e' in s.bindings && e' != e && supports(e'.binding, serviceId) :: Before(e, e');
    assert o in Objects(s.bindings);
    n :| n in s.byName && s.byName[n] == o;
    i :| IsNamedBy(s, log, n, i);
    var named := Entry(log[i].priority, o, i);
    OneEntryPerObject(s.bindings, e, named);
    forall n': Name, j: nat | n' != n && Offers(s, log, supports, serviceId, n', j)
      ensures log[i].priority > log[j].priority || (log[i].priority == log[j].priority && i < j)
    {
      NamedByArrival(s, log, supports, serviceId, n', j);
      assert Before(e, Entry(log[j].priority, log[j].binding, j));
    }
  }

  lemma OneEntryPerObject(bs: seq<Entry>, a: Entry, b: Entry)
    requires Distinct(bs) && a in bs && b in bs && a.binding == b.binding
    ensures a == b
  {
    var i :| 0 <= i < |bs| && bs[i] == a;
    var j :| 0 <= j < |bs| && bs[j] == b;
  }

  // ---- After a reused name --------------------------------------------------------------------------------

  ghost predicate IsStale(s: State, o: Object) { o in Objects(s.bindings) && o !in s.byName.Values }

  /** Registering another object under a used name leaves the old one in the multimap, where no
      name reaches it. */
  lemma ReusedNameLeavesStaleObject(s: State, name: Name, priority: nat, o: Object)
    requires SameBindings(s) && name in s.byName && o != s.byName[name]
    ensures IsStale(Inserted(s, name, priority, o), s.byName[name])
  {
    ObjectsOfEmplace(s.bindings, Entry(priority, o, s.inserted));
    ValuesOfUpdate(s.byName, name, o);
    assert s.byName[name] in s.byName.Values;
  }

  /** If that object was the best for a service, the priority scan goes on selecting it, unless
      the new object supports the service with a greater priority. */
  lemma StaleObjectIsBestExactlyIf(
      s: State, supports: (Object, nat) -> bool, serviceId: nat, name: Name, priority: nat, o: Object, previous: Entry)
    requires InOrder(s) && SameBindings(s) && name in s.byName && o !in s.byName.Values
    requires previous in s.bindings && previous.binding == s.byName[name]
    requires IsBest(s.bindings, supports, serviceId, Some(previous.binding))
    ensures IsBest(Inserted(s, name, priority, o).bindings, supports, serviceId, Some(previous.binding)) <==>
            !(supports(o, serviceId) && priority > previous.priority)
  {
    var e := Entry(priority, o, s.inserted);
    EmplaceMembers(s.bindings, e);
    assert e.binding !in Objects(s.bindings) && previous.binding in Objects(s.bindings);
    BestOfOneMore(s.bindings, Emplace(s.bindings, e), e, supports, serviceId, previous);
  }

  lemma BestOfOneMore(
      bs: seq<Entry>, bs': seq<Entry>, e: Entry, supports: (Object, nat) -> bool, serviceId: nat, previous: Entry)
    requires Distinct(bs) && previous in bs && e.binding != previous.binding && previous.stamp < e.stamp
    requires forall x :: x in bs' <==> x in bs || x == e
    requires IsBest(bs, supports, serviceId, Some(previous.binding))
    ensures IsBest(bs', supports, serviceId, Some(previous.binding)) <==>
            !(supports(e.binding, serviceId) && e.priority > previous.priority)
  {
    var o := previous.binding;
    forall x | x in bs && x.binding == o ensures x == previous {
      assert exists i, j :: 0 <= i < |bs| && 0 <= j < |bs| && bs[i] == x && bs[j] == previous;
    }
    assert supports(o, serviceId);
    assert forall x | x in bs && x != previous && supports(x.binding, serviceId) :: Before(previous, x);
    if IsBest(bs', supports, serviceId, Some(o)) {
      assert supports(e.binding, serviceId) ==> Before(previous, e);
    }
  }

  /** No UnloadBinding removes a stale object. */
  lemma StaleObjectSurvivesUnload(s: State, o: Object, name: Name)
    requires IsStale(s, o)
    ensures IsStale(AfterUnload(s, name).0, o)
  {
    if name in s.byName {
      assert s.byName[name] in s.byName.Values;
      EraseMembers(s.bindings, s.byName[name]);
      var e :| e in s.bindings && e.binding == o;
      assert e in Erase(s.bindings, s.byName[name]);
    }
  }

  // ---- The manager ---------------------------------------------------------------------------------------

  class BindingManager {
    const supports: (Object, nat) -> bool
    var bindings: seq<Entry>
    var byName: map<Name, Object>
    var handles: map<Name, Handle>
    var mappings: seq<Mapping>
    var inserted: nat
    ghost var opens: multiset<Handle>
    ghost var closes: multiset<Handle>

    ghost function View(): State
      reads this
    {
      State(bindings, byName, handles, mappings, inserted, opens, closes)
    }

    /** What a multimap guarantees. */
    ghost predicate Valid()
      reads this
    {
      InOrder(View())
    }

    constructor (supports: (Object, nat) -> bool)
      ensures Valid() && View() == EMPTY && this.supports == supports
    {
      this.supports := supports;
      bindings, byName, handles, mappings, inserted := [], map[], map[], [], 0;
      opens, closes := multiset{}, multiset{};
    }

    method PlaceOf(priority: nat) returns (k: nat)
      ensures k == UpperBound(bindings, priority)
    {
      k := 0;
      while k < |bindings| && bindings[k].priority >= priority
        invariant k <= |bindings|
        invariant UpperBound(bindings, priority) == k + UpperBound(bindings[k..], priority)
      {
        assert bindings[k..][1..] == bindings[k + 1..];
        k := k + 1;
      }
    }

    method Insert(name: Name, priority: nat, o: Object)
      requires Valid()
      modifies this
      ensures Valid()
      ensures View() == Inserted(old(View()), name, priority, o)
    {
      var k := PlaceOf(priority);
      InsertedKeepsInOrder(View(), name, priority, o);
      bindings := bindings[..k] + [Entry(priority, o, inserted)] + bindings[k..];
      byName := byName[name := o];
      inserted := inserted + 1;
    }

    method RegisterBinding(c: Config, binding: Option<Object>) returns (r: Result)
      requires Valid()
      modifies this
      ensures Valid()
      ensures (View(), r) == AfterRegister(old(View()), c, binding)
    {
      if binding.None? {
        return Err(BINDING_INIT_FAILED);
      }
      Insert(c.name, c.priority, binding.value);
      r := Ok;
    }

    method LoadBinding(c: Config, ev: LoadEvent) returns (r: Result)
      requires Valid()
      modifies this
      ensures Valid()
      ensures (View(), r) == AfterLoad(old(View()), c, ev)
    {
      if ev.OpenFailed? {
        return Err(LIBRARY_LOAD_FAILED);
      }
      opens := opens + multiset{ev.handle};
      if !ev.Loaded? {
        closes := closes + multiset{ev.handle};
        return match ev
          case SymbolMissing(_) => Err(SYMBOL_NOT_FOUND)
          case InitFailed(_, code) => Err(code)
          case _ => Err(BINDING_INIT_FAILED);
      }
      Insert(c.name, c.priority, ev.binding);
      handles := handles[c.name := ev.handle];
      r := Ok;
    }

    method EraseBinding(o: Object)
      modifies this`bindings
      ensures bindings == Erase(old(bindings), o)
    {
      var i, n := 0, 0;
      ghost var all := bindings;
      while i < |bindings|
        invariant n <= |all| && i <= |bindings|
        invariant bindings[..i] == Erase(all[..n], o) && bindings[i..] == all[n..]
        decreases |all| - n
      {
        assert bindings[i] == bindings[i..][0] == all[n];
        assert all[..n + 1][..n] == all[..n];
        if bindings[i].binding == o {
          assert bindings[i..][1..] == all[n..][1..];
          bindings := bindings[..i] + bindings[i + 1..];
        } else {
          i := i + 1;
        }
        n := n + 1;
      }
      assert all[..n] == all && bindings[..i] == bindings;
    }

    method UnloadBinding(name: Name) returns (r: Result)
      requires Valid()
      modifies this
      ensures Valid()
      ensures (View(), r) == AfterUnload(old(View()), name)
    {
      if name !in byName {
        return Err(BINDING_NOT_FOUND);
      }
      UnloadKeepsInOrder(View(), name);
      EraseBinding(byName[name]);
      byName := byName - {name};
      if name in handles {
        closes := closes + multiset{handles[name]};
      }
      handles := handles - {name};
      r := Ok;
    }

    method ReloadConfiguration(parsed: Parsed, order: seq<Name>, evs: seq<LoadEvent>) returns (r: Result)
      requires Valid()
      requires parsed.configs.Some? ==> |evs| == |parsed.configs.value|
      requires IsOrderOf(order, View())
      modifies this
      ensures Valid()
      ensures (View(), r) == AfterReload(old(View()), parsed, order, evs)
    {
      mappings := mappings + parsed.pushed;
      if parsed.configs.None? {
        return Err(CONFIG_LOAD_FAILED);
      }
      var configs := parsed.configs.value;
      var keep := set c | c in configs && c.enabled :: c.name;
      var toUnload := NamesToUnload(order, keep);
      UnloadEach(toUnload);
      LoadEach(configs, evs);
      r := Ok;
    }

    method NamesToUnload(order: seq<Name>, keep: set<Name>) returns (toUnload: seq<Name>)
      ensures toUnload == Removed(order, keep)
    {
      toUnload := [];
      for i := 0 to |order|
        invariant toUnload == Removed(order[..i], keep)
      {
        assert order[..i + 1][..i] == order[..i];
        if order[i] !in keep {
          toUnload := toUnload + [order[i]];
        }
      }
      assert order[..|order|] == order;
    }

    method UnloadEach(names: seq<Name>)
      requires Valid()
      modifies this
      ensures Valid()
      ensures View() == UnloadAll(old(View()), names)
    {
      for i := 0 to |names|
        invariant Valid() && View() == UnloadAll(old(View()), names[..i])
      {
        assert names[..i + 1][..i] == names[..i];
        var _ := UnloadBinding(names[i]);
      }
      assert names[..|names|] == names;
    }

    method LoadEach(configs: seq<Config>, evs: seq<LoadEvent>)
      requires Valid()
      requires |evs| == |configs|
      modifies this
      ensures Valid()
      ensures View() == LoadAll(old(View()), configs, evs)
    {
      for i := 0 to |configs|
        invariant Valid() && View() == LoadAll(old(View()), configs[..i], evs[..i])
      {
        assert configs[..i + 1][..i] == configs[..i] && evs[..i + 1][..i] == evs[..i];
        if configs[i].enabled && configs[i].name !in byName {
          var _ := LoadBinding(configs[i], evs[i]);
        }
      }
      assert configs[..|configs|] == configs && evs[..|configs|] == evs;
    }

    /** Closes every stored handle, in any order: from a consistent state, every library opened
        has then been closed as often as it was opened. */
    method Shutdown()
      requires Valid()
      modifies this
      ensures Valid()
      ensures bindings == [] && byName == map[] && handles == map[] && mappings == []
      ensures opens == old(opens)
      ensures forall h :: closes[h] == old(closes)[h] + Stored(old(handles), h)
      ensures old(LedgerBalances(View())) ==> closes == opens
    {
      var left := handles;
      while left.Keys != {}
        invariant forall h :: closes[h] + Stored(left, h) == old(closes)[h] + Stored(handles, h)
        invariant handles == old(handles) && opens == old(opens)
        decreases |left.Keys|
      {
        var name :| name in left.Keys;
        ClosingKeepsSum(closes, left, name);
        assert (left - {name}).Keys < left.Keys;
        closes := closes + multiset{left[name]};
        left := left - {name};
      }
      bindings, byName, handles, mappings := [], map[], map[], [];
    }

    method LookUpMapping(serviceId: nat, instanceId: nat) returns (r: Option<Name>)
      ensures r == FindStaticMapping(mappings, serviceId, instanceId)
    {
      for i := 0 to |mappings|
        invariant FindStaticMapping(mappings, serviceId, instanceId)
                  == FindStaticMapping(mappings[i..], serviceId, instanceId)
      {
        assert mappings[i..][1..] == mappings[i + 1..];
        if mappings[i].serviceId == serviceId && (mappings[i].instanceId == 0 || mappings[i].instanceId == instanceId) {
          return Some(mappings[i].bindingName);
        }
      }
      r := None;
    }

    method SelectBinding(serviceId: nat, instanceId: nat) returns (r: Option<Object>)
      requires Valid()
      ensures IsSelected(View(), supports, serviceId, instanceId, r)
    {
      var name := LookUpMapping(serviceId, instanceId);
      if name.Some? && name.value in byName {
        return Some(byName[name.value]);
      }
      for i := 0 to |bindings|
        invariant forall j | 0 <= j < i :: !supports(bindings[j].binding, serviceId)
      {
        if supports(bindings[i].binding, serviceId) {
          return Some(bindings[i].binding);
        }
      }
      r := None;
    }
  }
}
