/** The reference database as a finite map from names to entries, over whole histories of calls. */
module RefDBMap {
  import opened Basics
  import opened Bytes
  import opened Pack
  import opened Records
  import opened Layout
  import opened StorageSpec

  type Contents = map<seq<byte>, Entry>

  /** No two live slots have the same name. */
  ghost predicate Distinct(s: seq<Option<Entry>>)
  {
    forall i, j :: 0 <= i < |s| && 0 <= j < |s| && s[i].Some? && s[j].Some? && s[i].value.name == s[j].value.name ==> i == j
  }

  /** The map holds every live entry under its name, and no other name. */
  ghost predicate Represents(m: Contents, s: seq<Option<Entry>>)
  {
    && (forall i :: 0 <= i < |s| && s[i].Some? ==> s[i].value.name in m && m[s[i].value.name] == s[i].value)
    && (forall name :: name in m ==> FindName(s, name).Some?)
  }

  function ContentsIn(s: seq<Option<Entry>>, n: nat): (m: Contents)
    requires n <= |s|
  {
    if n == 0 then map[]
    else
      var m := ContentsIn(s, n - 1);
      if s[n - 1].Some? then m[s[n - 1].value.name := s[n - 1].value] else m
  }

  function ContentsOf(s: seq<Option<Entry>>): (m: Contents)
  {
    ContentsIn(s, |s|)
  }

  lemma {:induction false} ContentsFrom(s: seq<Option<Entry>>, n: nat, name: seq<byte>)
    requires n <= |s| && name in ContentsIn(s, n)
    ensures exists i :: 0 <= i < n && Holds(s[i], name)
  {
    if Holds(s[n - 1], name) {
    } else {
      ContentsFrom(s, n - 1, name);
    }
  }

  lemma {:induction false} ContentsHas(s: seq<Option<Entry>>, n: nat, i: nat)
    requires i < n <= |s| && Distinct(s) && s[i].Some?
    ensures s[i].value.name in ContentsIn(s, n) && ContentsIn(s, n)[s[i].value.name] == s[i].value
  {
    if i < n - 1 { ContentsHas(s, n - 1, i); }
  }

  lemma {:induction false} ContentsSize(s: seq<Option<Entry>>, n: nat)
    requires n <= |s| && Distinct(s)
    ensures |ContentsIn(s, n)| == LiveIn(s, n)
  {
    if n > 0 {
      ContentsSize(s, n - 1);
      if s[n - 1].Some? {
        var m, name := ContentsIn(s, n - 1), s[n - 1].value.name;
        if name in m { ContentsFrom(s, n - 1, name); }
        assert m[name := s[n - 1].value].Keys == m.Keys + {name};
      }
    }
  }

  /** With distinct names the slots are a map, with as many entries as there are live slots. */
  lemma ContentsSpec(s: seq<Option<Entry>>)
    requires Distinct(s)
    ensures Represents(ContentsOf(s), s)
    ensures |ContentsOf(s)| == Live(s)
  {
    ContentsSize(s, |s|);
    forall i | 0 <= i < |s| && s[i].Some? ensures s[i].value.name in ContentsOf(s) && ContentsOf(s)[s[i].value.name] == s[i].value {
      ContentsHas(s, |s|, i);
    }
    forall name | name in ContentsOf(s) ensures FindName(s, name).Some? {
      ContentsFrom(s, |s|, name);
      FindNameSpec(s, name);
    }
  }

  lemma RepresentsUnique(m: Contents, m': Contents, s: seq<Option<Entry>>)
    requires Represents(m, s) && Represents(m', s)
    ensures m == m'
  {
    forall name | name in m ensures name in m' && m[name] == m'[name] { FindNameSpec(s, name); }
    forall name | name in m' ensures name in m { FindNameSpec(s, name); }
  }

  lemma ContentsAre(m: Contents, s: seq<Option<Entry>>)
    requires Distinct(s) && Represents(m, s)
    ensures ContentsOf(s) == m
  {
    ContentsSpec(s);
    RepresentsUnique(ContentsOf(s), m, s);
  }

  /** Looking a name up in the map is finding its slot. */
  lemma Lookup(s: seq<Option<Entry>>, name: seq<byte>)
    requires Distinct(s)
    ensures name in ContentsOf(s) <==> FindName(s, name).Some?
    ensures FindName(s, name).Some? ==> var i := FindName(s, name).value;
                                        i < |s| && Holds(s[i], name) && s[i].value == ContentsOf(s)[name]
    ensures forall j :: 0 <= j < |s| && Holds(s[j], name) ==> FindName(s, name) == Some(j)
  {
    ContentsSpec(s);
    FindNameSpec(s, name);
  }

  // ----- single slots as map operations -----

  lemma PutSlot(s: seq<Option<Entry>>, i: nat, e: Entry)
    requires Distinct(s) && i < |s|
    requires Holds(s[i], e.name) || (s[i].None? && FindName(s, e.name).None?)
    ensures Distinct(s[i := Some(e)])
    ensures ContentsOf(s[i := Some(e)]) == ContentsOf(s)[e.name := e]
  {
    var s', m := s[i := Some(e)], ContentsOf(s)[e.name := e];
    ContentsSpec(s);
    FindNameSpec(s, e.name);
    forall name | name in m ensures FindName(s', name).Some? {
      FindNameSpec(s', name);
      if name == e.name {
        assert Holds(s'[i], name);
      } else {
        FindNameSpec(s, name);
        assert Holds(s'[FindName(s, name).value], name);
      }
    }
    ContentsAre(m, s');
  }

  lemma FreeSlot(s: seq<Option<Entry>>, i: nat)
    requires Distinct(s) && i < |s| && s[i].Some?
    ensures Distinct(s[i := None])
    ensures ContentsOf(s[i := None]) == ContentsOf(s) - {s[i].value.name}
  {
    var s', gone := s[i := None], s[i].value.name;
    var m := ContentsOf(s) - {gone};
    ContentsSpec(s);
    forall name | name in m ensures FindName(s', name).Some? {
      FindNameSpec(s, name);
      FindNameSpec(s', name);
      assert Holds(s'[FindName(s, name).value], name);
    }
    ContentsAre(m, s');
  }

  // ----- calls as map operations -----

  /** The calls: `write`, `update`, `update_at` and `delete`. */
  datatype Op =
    | Put(record: Record)
    | Set(name: ArrayString64, reference: Reference)
    | SetAt(index: nat, reference: Reference)
    | Remove(record: Record)

  function Apply(st: Storage, op: Op): (r: (Result<nat>, Storage))
  {
    match op
    case Put(record) => ApplyWrite(st, record)
    case Set(name, reference) => ApplyUpdate(st, name, reference)
    case SetAt(index, reference) => ApplyUpdateAt(st, index, reference)
    case Remove(record) => ApplyDelete(st, record)
  }

  /** What a call that takes effect does to the map. */
  datatype Change =
    | Stored(name: seq<byte>, tag: nat, reference: Reference)
    | Changed(name: seq<byte>, reference: Reference)
    | Removed(name: seq<byte>)

  /** Addressed by name. */
  predicate ByName(op: Op)
  {
    match op
    case Put(record) => record.index.None?
    case Set(_, _) => true
    case SetAt(_, _) => false
    case Remove(record) => record.index.None?
  }

  function NamedChange(op: Op): (c: Change)
    requires !op.SetAt?
  {
    match op
    case Put(record) => Stored(record.name, record.tag, record.reference)
    case Set(name, reference) => Changed(name, reference)
    case Remove(record) => Removed(record.name)
  }

  function ChangeOf(st: Storage, op: Op): (c: Change)
  {
    if op.SetAt? then
      Changed(if op.index < |st.slots| && st.slots[op.index].Some? then st.slots[op.index].value.name else [], op.reference)
    else NamedChange(op)
  }

  function MapStep(m: Contents, c: Change): (m': Contents)
  {
    match c
    case Stored(name, tag, reference) =>
      var counter := if name in m then m[name].counter else 0;
      m[name := Entry(NextCounter(counter, U16_MAX), tag, name, reference)]
    case Changed(name, reference) =>
      if name !in m then m
      else m[name := m[name].(counter := NextCounter(m[name].counter, U16_MAX), reference := reference)]
    case Removed(name) => m - {name}
  }

  /** A write that goes to a free slot although what it keeps of the name is already stored. */
  predicate Duplicates(st: Storage, record: Record)
  {
    var i := Target(st.slots, record.index, record.name);
    i < |st.slots| && st.slots[i].None? && FindName(st.slots, BeforeNul(record.name)).Some?
  }

  /** What the database expects of its callers. */
  predicate Admissible(st: Storage, op: Op)
  {
    match op
    case Put(record) => NulFree(record.name) && record.reference.Valid() && !Duplicates(st, record)
    case Set(_, reference) => reference.Valid() && reference.Type() == st.kind
    case SetAt(index, reference) =>
      reference.Valid() && reference.Type() == st.kind && (index < |st.slots| ==> st.slots[index].Some?)
    case Remove(record) => record.Size() <= st.kind.SlotSize()
  }

  /** The call succeeded and changed the storage. */
  predicate Took(r: Result<nat>) { r.Ok? && r.value > 0 }

  /** Stored names have no NUL, as in every storage read from bytes. */
  predicate NulFreeSlots(s: seq<Option<Entry>>)
  {
    forall i :: 0 <= i < |s| && s[i].Some? ==> NulFree(s[i].value.name)
  }

  /** A write of any name keeps names distinct exactly when it is not a duplicating one. */
  lemma WriteKeepsDistinct(st: Storage, record: Record)
    requires Distinct(st.slots) && NulFreeSlots(st.slots) && ApplyWrite(st, record).0.Ok?
    ensures Distinct(ApplyWrite(st, record).1.slots) <==> !Duplicates(st, record)
  {
    var s, name := st.slots, BeforeNul(record.name);
    var i := Target(s, record.index, record.name);
    var st' := ApplyWrite(st, record).1;
    TargetSpec(s, record.name);
    FreeFromSpec(s, 0);
    FindNameSpec(s, name);
    NulFreeNames(record.name);
    if Duplicates(st, record) {
      var j := FindName(s, name).value;
      assert st'.slots[i].value.name == st'.slots[j].value.name && i != j;
    } else {
      PutSlot(s, i, st'.slots[i].value);
    }
  }

  /** A name with a NUL is kept up to the NUL and then no longer found under the name that was written. */
  lemma NulNamesAreLost(st: Storage, record: Record)
    requires NulFreeSlots(st.slots) && !NulFree(record.name) && ApplyWrite(st, record).0.Ok?
    ensures FindName(ApplyWrite(st, record).1.slots, record.name).None?
    ensures FindName(ApplyWrite(st, record).1.slots, BeforeNul(record.name)).Some?
  {
    var s' := ApplyWrite(st, record).1.slots;
    var i := Target(st.slots, record.index, record.name);
    FindNameSpec(s', record.name);
    FindNameSpec(s', BeforeNul(record.name));
    assert Holds(s'[i], BeforeNul(record.name));
  }

  /** A write that takes effect changes one slot: the name's own, or a free one when the name has none. */
  lemma PutTakes(st: Storage, record: Record)
    requires Distinct(st.slots) && Admissible(st, Put(record)) && ApplyWrite(st, record).0.Ok?
    ensures var i, st' := Target(st.slots, record.index, record.name), ApplyWrite(st, record).1;
            && i < |st.slots| && st'.slots == st.slots[i := st'.slots[i]] && st'.slots[i].Some?
            && st'.slots[i].value.name == record.name
            && (Holds(st.slots[i], record.name) || (st.slots[i].None? && FindName(st.slots, record.name).None?))
  {
    var s := st.slots;
    NulFreeNames(record.name);
    TargetSpec(s, record.name);
    FreeFromSpec(s, 0);
    FindNameSpec(s, record.name);
  }

  /** Each call is exactly the matching map operation when it takes effect, and nothing at all when it does not. */
  lemma StepRefines(st: Storage, op: Op)
    requires Distinct(st.slots) && Admissible(st, op)
    ensures var (r, st') := Apply(st, op);
            && Distinct(st'.slots) && st'.kind == st.kind && |st'.slots| == |st.slots| && st'.name == st.name
            && (Took(r) ==> ContentsOf(st'.slots) == MapStep(ContentsOf(st.slots), ChangeOf(st, op)))
            && (Took(r) ==> st'.counter == NextCounter(st.counter, U32_MAX))
            && (!Took(r) ==> st' == st)
            && (Took(r) && ChangeOf(st, op).Changed? ==> ChangeOf(st, op).name in ContentsOf(st.slots))
  {
    var s := st.slots;
    var (r, st') := Apply(st, op);
    var name := ChangeOf(st, op).name;
    FindNameSpec(s, name);
    Lookup(s, name);
    if Took(r) {
      match op
      case Put(record) =>
        PutTakes(st, record);
        var i := Target(s, record.index, name);
        PutSlot(s, i, st'.slots[i].value);
      case Set(_, _) =>
        var i := FindName(s, name).value;
        PutSlot(s, i, st'.slots[i].value);
      case SetAt(i, _) =>
        assert Holds(s[i], name);
        PutSlot(s, i, st'.slots[i].value);
      case Remove(record) =>
        FreeSlot(s, Target(s, record.index, name));
    }
  }

  /** What a call addressed by name returns, in terms of the map and its capacity. */
  function NamedResult(m: Contents, capacity: nat, kind: ReferenceType, op: Op): (r: Result<nat>)
    requires ByName(op)
  {
    match op
    case Put(record) =>
      if record.name !in m && |m| >= capacity then Err(AccountDataTooSmall)
      else if record.name in m && record.counter != 0 && record.counter != m[record.name].counter then Err(Custom(409))
      else if record.reference.Type() != kind then Err(Custom(409))
      else Ok(68 + kind.Size())
    case Set(name, _) => if name in m then Ok(68 + kind.Size()) else Err(Custom(404))
    case Remove(record) =>
      if record.name !in m then (if |m| < capacity then Ok(0) else Err(AccountDataTooSmall))
      else if record.counter != 0 && record.counter != m[record.name].counter then Err(Custom(409))
      else Ok(68 + record.reference.Type().Size())
  }

  /** The result of every call addressed by name, and exactly when it takes effect. */
  lemma NamedOutcome(st: Storage, op: Op)
    requires Distinct(st.slots) && Admissible(st, op) && ByName(op)
    ensures Apply(st, op).0 == NamedResult(ContentsOf(st.slots), |st.slots|, st.kind, op)
    ensures Took(Apply(st, op).0) <==> MapAccepts(ContentsOf(st.slots), |st.slots|, st.kind, op)
  {
    var s, name := st.slots, ChangeOf(st, op).name;
    Lookup(s, name);
    ContentsSpec(s);
    FindNameSpec(s, name);
    FreeFromSpec(s, 0);
    AllLive(s, |s|);
  }

  /** The slot a call by index addresses is free, or is the one in which its name is found under the counter it gives. */
  predicate OwnSlot(st: Storage, i: nat, record: Record)
  {
    i < |st.slots| && FindName(st.slots, record.name) == Some(i) && st.slots[i].Some?
    && (record.counter == 0 || record.counter == st.slots[i].value.counter)
  }

  /** Exactly when a call addressed by index takes effect. */
  lemma IndexedOutcome(st: Storage, op: Op, i: u32)
    requires Distinct(st.slots) && Admissible(st, op)
    ensures op.Put? && op.record.index == Some(i) ==>
              (Took(Apply(st, op).0) <==> op.record.reference.Type() == st.kind
                                          && i < |st.slots| && (st.slots[i].None? || OwnSlot(st, i, op.record)))
    ensures op.Remove? && op.record.index == Some(i) ==> (Took(Apply(st, op).0) <==> OwnSlot(st, i, op.record))
    ensures op.SetAt? && op.index == i ==> (Took(Apply(st, op).0) <==> i < |st.slots|)
  {
    if op.Put? || op.Remove? { Lookup(st.slots, op.record.name); }
  }

  /** A bounded dictionary with optimistic counters: what it accepts. */
  predicate MapAccepts(m: Contents, capacity: nat, kind: ReferenceType, op: Op)
    requires ByName(op)
  {
    match op
    case Put(record) =>
      && record.reference.Type() == kind
      && (record.name in m ==> record.counter == 0 || record.counter == m[record.name].counter)
      && (record.name !in m ==> |m| < capacity)
    case Set(name, _) => name in m
    case Remove(record) => record.name in m && (record.counter == 0 || record.counter == m[record.name].counter)
  }

  /** A name keeps its slot as long as the name is not removed. */
  lemma SlotStays(st: Storage, op: Op, name: seq<byte>)
    requires Distinct(st.slots) && Admissible(st, op) && FindName(st.slots, name).Some?
    requires Took(Apply(st, op).0) ==> ChangeOf(st, op) != Removed(name)
    ensures FindName(Apply(st, op).1.slots, name) == FindName(st.slots, name)
  {
    var s := st.slots;
    var (r, st') := Apply(st, op);
    StepRefines(st, op);
    FindNameSpec(s, name);
    if Took(r) {
      if op.Put? {
        PutTakes(st, op.record);
      } else if op.Set? {
        FindNameSpec(s, op.name);
      }
      assert Holds(st'.slots[FindName(s, name).value], name);
      Lookup(st'.slots, name);
    }
  }

  /** A successful write is read back: same tag and value, the next counter, and the slot it went to. */
  lemma ReadAfterWrite(st: Storage, record: Record)
    requires Distinct(st.slots) && Admissible(st, Put(record)) && ApplyWrite(st, record).0.Ok?
    ensures var st' := ApplyWrite(st, record).1;
            var i := Target(st.slots, record.index, record.name);
            && FindName(st'.slots, record.name) == Some(i)
            && st'.slots[i].value == Entry(NextCounter(Head(st.slots[i]).0, U16_MAX), record.tag, record.name, record.reference)
            && forall name :: name != record.name ==> FindName(st'.slots, name) == FindName(st.slots, name)
  {
    var s, st' := st.slots, ApplyWrite(st, record).1;
    var i := Target(s, record.index, record.name);
    StepRefines(st, Put(record));
    PutTakes(st, record);
    NulFreeNames(record.name);
    Lookup(st'.slots, record.name);
    assert Holds(st'.slots[i], record.name);
    forall name | name != record.name ensures FindName(st'.slots, name) == FindName(s, name) {
      FindNameSpec(s, name);
      FindNameSpec(st'.slots, name);
      if FindName(s, name).Some? { SlotStays(st, Put(record), name); }
      if FindName(st'.slots, name).Some? { assert Holds(s[FindName(st'.slots, name).value], name); }
    }
  }

  /** A successful update is read back: the new value under the next counter, with the same tag, in the same slot. */
  lemma ReadAfterUpdate(st: Storage, op: Op, name: seq<byte>)
    requires Distinct(st.slots) && Admissible(st, op) && FindName(st.slots, name).Some?
    requires (op.Set? && op.name == name) || (op.SetAt? && FindName(st.slots, name) == Some(op.index))
    ensures var i, st' := FindName(st.slots, name).value, Apply(st, op).1;
            && Took(Apply(st, op).0) && i < |st.slots| && st.slots[i].Some? && FindName(st'.slots, name) == Some(i)
            && st'.slots == st.slots[i := Some(Entry(NextCounter(st.slots[i].value.counter, U16_MAX), st.slots[i].value.tag, name, op.reference))]
  {
    FindNameSpec(st.slots, name);
    SlotStays(st, op, name);
  }

  /** After a successful delete the name is gone, and all other names are found where they were. */
  lemma ReadAfterDelete(st: Storage, record: Record)
    requires Distinct(st.slots) && Admissible(st, Remove(record)) && Took(ApplyDelete(st, record).0)
    ensures var st' := ApplyDelete(st, record).1;
            && FindName(st'.slots, record.name).None?
            && forall name :: name != record.name ==> FindName(st'.slots, name) == FindName(st.slots, name)
  {
    var s, st' := st.slots, ApplyDelete(st, record).1;
    StepRefines(st, Remove(record));
    FindNameSpec(st'.slots, record.name);
    Lookup(st'.slots, record.name);
    forall name | name != record.name ensures FindName(st'.slots, name) == FindName(s, name) {
      FindNameSpec(s, name);
      FindNameSpec(st'.slots, name);
      if FindName(s, name).Some? { SlotStays(st, Remove(record), name); }
      if FindName(st'.slots, name).Some? { assert Holds(s[FindName(st'.slots, name).value], name); }
    }
  }

  // ----- histories -----

  function Run(st: Storage, ops: seq<Op>): (st': Storage)
    decreases |ops|
  {
    if ops == [] then st else Run(Apply(st, ops[0]).1, ops[1..])
  }

  predicate AllAdmissible(st: Storage, ops: seq<Op>)
    decreases |ops|
  {
    ops == [] || (Admissible(st, ops[0]) && AllAdmissible(Apply(st, ops[0]).1, ops[1..]))
  }

  /** What the calls that took effect did, in order. */
  function Effective(st: Storage, ops: seq<Op>): (done: seq<Change>)
    decreases |ops|
  {
    if ops == [] then []
    else
      var (r, st') := Apply(st, ops[0]);
      (if Took(r) then [ChangeOf(st, ops[0])] else []) + Effective(st', ops[1..])
  }

  function MapRun(m: Contents, changes: seq<Change>): (m': Contents)
    decreases |changes|
  {
    if changes == [] then m else MapRun(MapStep(m, changes[0]), changes[1..])
  }

  /** The changes of a run are the first call's change, if it took effect, and those of the rest. */
  lemma EffectiveStep(st: Storage, ops: seq<Op>)
    requires ops != []
    ensures var (r, st') := Apply(st, ops[0]);
            var done, rest := Effective(st, ops), Effective(st', ops[1..]);
            if Took(r) then done != [] && done[0] == ChangeOf(st, ops[0]) && done[1..] == rest else done == rest
  {
  }

  /** Any number of counter steps, in closed form: a cycle of length `max` that never meets 0. */
  function Advanced(c: nat, k: nat, max: nat): (n: nat)
    requires 1 <= c <= max
    ensures 1 <= n <= max
  {
    (c - 1 + k) % max + 1
  }

  lemma AdvancedStep(c: nat, k: nat, max: nat)
    requires 1 <= c <= max
    ensures Advanced(c, 0, max) == c
    ensures Advanced(NextCounter(c, max), k, max) == Advanced(c, k + 1, max)
  {
    ModSmall(c - 1, max);
    if c == max {
      ModWrap(k, max);
      assert c - 1 + (k + 1) == max + k;
    } else {
      assert NextCounter(c, max) - 1 + k == c - 1 + (k + 1);
    }
  }

  lemma AdvancedNext(c: nat, k: nat, max: nat)
    requires 1 <= c <= max
    ensures NextCounter(Advanced(c, k, max), max) == Advanced(c, k + 1, max)
  {
    AddRemainder(1 % max, c - 1 + k, max);
    if max > 1 { ModSmall(1, max); }
  }

  lemma ModSmall(a: nat, max: nat)
    requires a < max
    ensures a % max == a
  {
  }

  lemma ModWrap(a: nat, max: nat)
    requires max >= 1
    ensures (max + a) % max == a % max
  {
    assert (max + a) - max == a;
    QuotientIs(max + a, max, a / max + 1);
    QuotientIs(a, max, a / max);
  }

  lemma {:induction false} RunContents(st: Storage, ops: seq<Op>)
    requires Distinct(st.slots) && AllAdmissible(st, ops)
    ensures Distinct(Run(st, ops).slots)
    ensures ContentsOf(Run(st, ops).slots) == MapRun(ContentsOf(st.slots), Effective(st, ops))
    ensures Run(st, ops).kind == st.kind && Run(st, ops).name == st.name && |Run(st, ops).slots| == |st.slots|
    decreases |ops|
  {
    if ops != [] {
      StepRefines(st, ops[0]);
      RunContents(Apply(st, ops[0]).1, ops[1..]);
      EffectiveStep(st, ops);
    }
  }

  lemma {:induction false} RunCounter(st: Storage, ops: seq<Op>)
    requires Distinct(st.slots) && AllAdmissible(st, ops) && 1 <= st.counter <= U32_MAX
    ensures Run(st, ops).counter == Advanced(st.counter, |Effective(st, ops)|, U32_MAX)
    decreases |ops|
  {
    AdvancedStep(st.counter, 0, U32_MAX);
    if ops != [] {
      var st' := Apply(st, ops[0]).1;
      StepRefines(st, ops[0]);
      RunCounter(st', ops[1..]);
      AdvancedStep(st.counter, |Effective(st', ops[1..])|, U32_MAX);
    }
  }

  /** After any history the slots are the map run of the calls that took effect, and the storage counter counted them. */
  lemma RunRefines(st: Storage, ops: seq<Op>)
    requires Distinct(st.slots) && AllAdmissible(st, ops) && 1 <= st.counter <= U32_MAX
    ensures Distinct(Run(st, ops).slots)
    ensures ContentsOf(Run(st, ops).slots) == MapRun(ContentsOf(st.slots), Effective(st, ops))
    ensures Run(st, ops).counter == Advanced(st.counter, |Effective(st, ops)|, U32_MAX)
    ensures Run(st, ops).kind == st.kind && Run(st, ops).name == st.name && |Run(st, ops).slots| == |st.slots|
  {
    RunContents(st, ops);
    RunCounter(st, ops);
  }

  /** A bounded dictionary run on calls addressed by name: each is performed if acceptable and skipped if not. */
  function DictionaryRun(m: Contents, capacity: nat, kind: ReferenceType, ops: seq<Op>): (m': Contents)
    requires forall k :: 0 <= k < |ops| ==> Sound(kind, ops[k])
    decreases |ops|
  {
    if ops == [] then m
    else
      assert Sound(kind, ops[0]);
      var m' := if MapAccepts(m, capacity, kind, ops[0]) then MapStep(m, NamedChange(ops[0])) else m;
      DictionaryRun(m', capacity, kind, ops[1..])
  }

  /** What one call by name must satisfy, whatever the storage holds when it is made. */
  predicate Sound(kind: ReferenceType, op: Op)
  {
    && ByName(op)
    && match op
       case Put(record) => NulFree(record.name) && record.reference.Valid()
       case Set(_, reference) => reference.Valid() && reference.Type() == kind
       case Remove(record) => record.Size() <= kind.SlotSize()
  }

  lemma SoundIsAdmissible(st: Storage, op: Op)
    requires Sound(st.kind, op)
    ensures Admissible(st, op)
  {
    if op.Put? {
      NulFreeNames(op.record.name);
      TargetSpec(st.slots, op.record.name);
      FindNameSpec(st.slots, op.record.name);
    }
  }

  /** Used by name only, the database is indistinguishable from the bounded dictionary. */
  lemma {:induction false} NamedRunIsDictionary(st: Storage, ops: seq<Op>)
    requires Distinct(st.slots) && forall k :: 0 <= k < |ops| ==> Sound(st.kind, ops[k])
    ensures AllAdmissible(st, ops)
    ensures ContentsOf(Run(st, ops).slots) == DictionaryRun(ContentsOf(st.slots), |st.slots|, st.kind, ops)
    decreases |ops|
  {
    if ops != [] {
      assert Sound(st.kind, ops[0]);
      SoundIsAdmissible(st, ops[0]);
      StepRefines(st, ops[0]);
      NamedOutcome(st, ops[0]);
      NamedRunIsDictionary(Apply(st, ops[0]).1, ops[1..]);
    }
  }

  // ----- optimistic concurrency -----

  /** Number of changes to `name` in a list. */
  function Touches(changes: seq<Change>, name: seq<byte>): (k: nat)
  {
    if changes == [] then 0 else (if changes[0].name == name then 1 else 0) + Touches(changes[1..], name)
  }

  predicate NeverRemoves(changes: seq<Change>, name: seq<byte>)
  {
    forall k :: 0 <= k < |changes| ==> changes[k] != Removed(name)
  }

  lemma {:induction false} CounterAfterMapRun(m: Contents, changes: seq<Change>, name: seq<byte>)
    requires name in m && 1 <= m[name].counter <= U16_MAX && NeverRemoves(changes, name)
    ensures name in MapRun(m, changes)
    ensures MapRun(m, changes)[name].counter == Advanced(m[name].counter, Touches(changes, name), U16_MAX)
    decreases |changes|
  {
    if changes == [] {
      AdvancedStep(m[name].counter, 0, U16_MAX);
    } else {
      var c, rest := changes[0], changes[1..];
      assert c != Removed(name);
      CounterStep(m, c, name);
      assert NeverRemoves(rest, name);
      CounterAfterMapRun(MapStep(m, c), rest, name);
      if c.name == name { AdvancedStep(m[name].counter, Touches(rest, name), U16_MAX); }
    }
  }

  /** A change that does not remove a name moves its counter on, or leaves it if it is about another name. */
  lemma CounterStep(m: Contents, c: Change, name: seq<byte>)
    requires name in m && m[name].counter <= U16_MAX && c != Removed(name)
    ensures name in MapStep(m, c)
    ensures MapStep(m, c)[name].counter == if c.name == name then NextCounter(m[name].counter, U16_MAX) else m[name].counter
    ensures 1 <= m[name].counter ==> 1 <= MapStep(m, c)[name].counter <= U16_MAX
  {
  }

  /** Over any history that never removes it, a name stays in the slot it has. */
  lemma {:induction false} SlotsAreStable(st: Storage, ops: seq<Op>, name: seq<byte>)
    requires Distinct(st.slots) && AllAdmissible(st, ops) && FindName(st.slots, name).Some?
    requires NeverRemoves(Effective(st, ops), name)
    ensures FindName(Run(st, ops).slots, name) == FindName(st.slots, name)
    decreases |ops|
  {
    if ops != [] {
      var (r, st') := Apply(st, ops[0]);
      var done := Effective(st, ops);
      EffectiveStep(st, ops);
      assert Took(r) ==> done[0] != Removed(name);
      forall k | 0 <= k < |Effective(st', ops[1..])| ensures Effective(st', ops[1..])[k] != Removed(name) {
        assert Effective(st', ops[1..])[k] == if Took(r) then done[k + 1] else done[k];
      }
      StepRefines(st, ops[0]);
      SlotStays(st, ops[0], name);
      SlotsAreStable(st', ops[1..], name);
    }
  }

  /** Whether a counter comes round again: only after whole cycles. */
  lemma AdvancedReturns(c: nat, k: nat, max: nat)
    requires 1 <= c <= max
    ensures Advanced(c, k, max) == c <==> k % max == 0
  {
    AddRemainder(c - 1, k, max);
  }

  /** The remainder of a sum, from a small first term and the remainder of the second. */
  lemma AddRemainder(a: nat, k: nat, max: nat)
    requires a < max
    ensures (a + k) % max == if a + k % max < max then a + k % max else a + k % max - max
  {
    var q, r := k / max, k % max;
    DivMod(k, max);
    if a + r < max {
      RemainderIs(a + k, max, q, a + r);
    } else {
      NextMultiple(q, max);
      RemainderIs(a + k, max, q + 1, a + r - max);
    }
  }

  lemma DivMod(k: nat, max: nat)
    requires max >= 1
    ensures k == (k / max) * max + k % max
  {
  }

  lemma RemainderIs(n: nat, max: nat, q: nat, r: nat)
    requires r < max && n == q * max + r
    ensures n % max == r
  {
    QuotientIs(n, max, q);
  }

  /**
   * A writer holding an old counter, with or without the slot number it read, is refused unless a whole number of
   * cycles has passed since it read; so is a delete.
   */
  lemma StaleWriteRefused(st: Storage, ops: seq<Op>, stale: Record)
    requires Distinct(st.slots) && AllAdmissible(st, ops) && 1 <= st.counter <= U32_MAX
    requires stale.name in ContentsOf(st.slots)
    requires stale.index.Some? ==> FindName(st.slots, stale.name) == Some(stale.index.value)
    requires 1 <= stale.counter == ContentsOf(st.slots)[stale.name].counter
    requires NeverRemoves(Effective(st, ops), stale.name)
    ensures var k, st' := Touches(Effective(st, ops), stale.name), Run(st, ops);
            && stale.name in ContentsOf(st'.slots)
            && ContentsOf(st'.slots)[stale.name].counter == Advanced(stale.counter, k, U16_MAX)
            && (k % U16_MAX != 0 ==> ApplyWrite(st', stale).0 == ApplyDelete(st', stale).0 == Err(Custom(409)))
            && (k % U16_MAX == 0 ==> ApplyDelete(st', stale).0.Ok? && (ApplyWrite(st', stale).0.Ok? <==> stale.reference.Type() == st.kind))
  {
    var done := Effective(st, ops);
    Lookup(st.slots, stale.name);
    RunRefines(st, ops);
    SlotsAreStable(st, ops, stale.name);
    CounterAfterMapRun(ContentsOf(st.slots), done, stale.name);
    AdvancedReturns(stale.counter, Touches(done, stale.name), U16_MAX);
    Lookup(Run(st, ops).slots, stale.name);
  }
}
