/** `map_sp`, the growing table from names to pointers (ext/pbc/src/map.c). */
module SpMap {
  import opened Words
  import opened Wrappers
  import opened Chains
  import opened Index

  /** A C string without its terminator. */
  type Name = seq<byte>

  // ---- calc_hash

  /** The hash after mixing in the characters name[i-1], name[i-1-step], ... */
  function HashFrom(name: Name, i: nat, step: nat, h: nat): nat
    requires i <= |name| && step > 0
    decreases i
  {
    if i < step then h else HashFrom(name, i - step, step, Mix(h, name[i - 1]))
  }

  /** `h ^ ((h<<5)+(h>>2)+(size_t)c)` for a signed char c and a 64-bit size_t. */
  function Mix(h: nat, c: byte): nat {
    var c' := if c < 0x80 then c as int else c as int + 0xFFFF_FFFF_FFFF_FF00;
    Xor(h, (h * 0x20 + h / 4 + c') % 0x1_0000_0000_0000_0000)
  }

  function Hash(name: Name): nat {
    HashFrom(name, |name|, |name| / 32 + 1, |name|)
  }

  method CalcHash(name: Name) returns (h: nat)
    ensures h == Hash(name)
  {
    var len := |name|;
    h := len;
    var step := len / 32 + 1;
    var i := len;
    while i >= step
      invariant 0 <= i <= len
      invariant HashFrom(name, i, step, h) == Hash(name)
      decreases i
    {
      h := Mix(h, name[i - 1]);
      i := i - step;
    }
  }

  // ---- the table as a value

  datatype Slot<+V> = Slot(key: Option<Name>, hash: nat, pointer: Option<V>, next: nat)

  function Empty<V>(): Slot<V> {
    Slot(None, 0, None, 0)
  }

  function Cells<V>(slots: seq<Slot<V>>): (cells: seq<Cell<Name>>)
    ensures |cells| == |slots|
    ensures forall i | 0 <= i < |slots| :: cells[i] == Cell(slots[i].key, slots[i].next)
  {
    seq(|slots|, i requires 0 <= i < |slots| => Cell(slots[i].key, slots[i].next))
  }

  /** The home slot of a name in a table of the given capacity. */
  function Home(cap: nat): Name -> nat {
    (k: Name) => if cap == 0 then 0 else Hash(k) % cap
  }

  /** The representation invariant: the keys are placed in chains from their home slots,
      free slots are zeroed and the hashes are cached. */
  ghost predicate Table<V>(slots: seq<Slot<V>>, tail: seq<seq<nat>>, at: map<Name, nat>) {
    && Placed(Cells(slots), tail, at, Home(|slots|))
    && (forall i | 0 <= i < |slots| :: Fields(slots[i]))
  }

  ghost predicate Fields<V>(s: Slot<V>) {
    if s.key.None? then s == Empty() else s.hash == Hash(s.key.value)
  }

  ghost function Contents<V>(slots: seq<Slot<V>>, at: map<Name, nat>): map<Name, Option<V>>
    requires forall k | k in at :: at[k] < |slots|
  {
    map k | k in at :: slots[at[k]].pointer
  }

  lemma TableAt<V>(slots: seq<Slot<V>>, tail: seq<seq<nat>>, at: map<Name, nat>)
    requires Table(slots, tail, at)
    ensures |tail| == |slots|
    ensures forall k | k in at :: at[k] < |slots| && slots[at[k]].key == Some(k)
  {
    forall k | k in at
      ensures at[k] < |slots| && slots[at[k]].key == Some(k) { assert Cells(slots)[at[k]].key == Some(k); }
  }

  lemma EmptyTable<V>(slots: seq<Slot<V>>)
    requires forall i | 0 <= i < |slots| :: slots[i] == Empty()
    ensures Table(slots, seq(|slots|, _ => []), map[])
    ensures Count(Links(Cells(slots))) == 0 && Contents(slots, map[]) == map[]
  {
    NonePlaced(Cells(slots), Home(|slots|));
  }

  /** A new entry in its own free home slot. */
  lemma PutAtHome<V>(slots: seq<Slot<V>>, tail: seq<seq<nat>>, at: map<Name, nat>, h: nat, key: Name, value: Option<V>)
    requires Table(slots, tail, at) && h < |slots| && h == Home(|slots|)(key)
    requires slots[h].key.None? && key !in at
    ensures var slots' := slots[h := Slot(Some(key), Hash(key), value, slots[h].next)];
            Table(slots', tail[h := [h]], at[key := h])
            && Contents(slots', at[key := h]) == Contents(slots, at)[key := value]
            && Count(Links(Cells(slots'))) == Count(Links(Cells(slots))) + 1
  {
    hide Hash, Entry;
    var slots' := slots[h := Slot(Some(key), Hash(key), value, slots[h].next)];
    PutHome(Cells(slots), tail, at, Home(|slots|), h, key);
    assert Cells(slots') == Cells(slots)[h := Cell(Some(key), 0)];
    forall k | k in at ensures at[k] != h { assert Cells(slots)[at[k]].key == Some(k); }
  }

  /** A new entry in a free slot e, spliced in behind a slot s of its home slot's chain. */
  lemma PutBehind<V>(slots: seq<Slot<V>>, tail: seq<seq<nat>>, at: map<Name, nat>, s: nat, e: nat, key: Name,
                     value: Option<V>)
    requires Table(slots, tail, at) && s < |slots| == |tail| && e < |slots|
    requires Home(|slots|)(key) < |slots| && s in tail[Home(|slots|)(key)]
    requires slots[s].key.Some? && slots[e].key.None? && key !in at
    ensures tail[s] != []
    ensures var slots' := slots[e := Slot(Some(key), Hash(key), value, slots[s].next)][s := slots[s].(next := e + 1)];
            Table(slots', SplicedTail(tail, s, e), at[key := e])
            && Contents(slots', at[key := e]) == Contents(slots, at)[key := value]
            && Count(Links(Cells(slots'))) == Count(Links(Cells(slots))) + 1
  {
    hide Hash, Entry, After;
    var slots' := slots[e := Slot(Some(key), Hash(key), value, slots[s].next)][s := slots[s].(next := e + 1)];
    PutLinked(Cells(slots), tail, at, Home(|slots|), s, e, key);
    assert Cells(slots') == Linked(Cells(slots), s, e, key);
    forall k | k in at ensures at[k] != e { assert Cells(slots)[at[k]].key == Some(k); }
  }

  /** Storing a value in an entry. */
  lemma PutValue<V>(slots: seq<Slot<V>>, tail: seq<seq<nat>>, at: map<Name, nat>, i: nat, value: Option<V>)
    requires Table(slots, tail, at) && i < |slots| && slots[i].key.Some?
    ensures var slots' := slots[i := slots[i].(pointer := value)];
            Table(slots', tail, at) && Cells(slots') == Cells(slots)
            && Contents(slots', at) == Contents(slots, at)[slots[i].key.value := value]
  {
    hide Hash, Entry;
    var slots' := slots[i := slots[i].(pointer := value)];
    assert Cells(slots') == Cells(slots);
    Step(Cells(slots), tail, at, Home(|slots|), i);
    forall k | k in at && at[k] == i ensures k == slots[i].key.value { assert Cells(slots)[at[k]].key == Some(k); }
  }

  /** The bindings of the first n slots, in slot order. */
  ghost function Bindings<V>(slots: seq<Slot<V>>, n: nat): map<Name, Option<V>>
    requires n <= |slots|
  {
    if n == 0 then map[]
    else if slots[n - 1].key.None? then Bindings(slots, n - 1)
    else Bindings(slots, n - 1)[slots[n - 1].key.value := slots[n - 1].pointer]
  }

  lemma EntryOf<V>(slots: seq<Slot<V>>, tail: seq<seq<nat>>, at: map<Name, nat>, i: nat)
    requires Table(slots, tail, at) && i < |slots|
    ensures slots[i].key.None? ==> slots[i] == Empty()
    ensures slots[i].key.Some? ==> slots[i].hash == Hash(slots[i].key.value)
    ensures slots[i].key.Some? ==> slots[i].key.value in at && at[slots[i].key.value] == i
    ensures forall k | k in at :: at[k] < |slots| && slots[at[k]].key == Some(k)
  {
    hide Hash;
    Step(Cells(slots), tail, at, Home(|slots|), i);
    assert Fields(slots[i]);
    forall k | k in at
      ensures at[k] < |slots| && slots[at[k]].key == Some(k) { assert Cells(slots)[at[k]].key == Some(k); }
  }

  lemma {:induction false} BindingsAre<V>(slots: seq<Slot<V>>, tail: seq<seq<nat>>, at: map<Name, nat>, n: nat)
    requires Table(slots, tail, at) && n <= |slots|
    ensures forall k :: k in Bindings(slots, n) <==> k in at && at[k] < n
    ensures forall k | k in Bindings(slots, n) :: Bindings(slots, n)[k] == slots[at[k]].pointer
    ensures n == 0 ==> Bindings(slots, n) == map[]
    ensures n == |slots| ==> Bindings(slots, n) == Contents(slots, at)
  {
    hide Hash;
    if n > 0 {
      BindingsAre(slots, tail, at, n - 1);
      EntryOf(slots, tail, at, n - 1);
    }
  }

  /** Reinserting the entry of slot i of a full table: its key is new so far. */
  lemma OldEntry<V>(slots: seq<Slot<V>>, tail: seq<seq<nat>>, at: map<Name, nat>, i: nat)
    requires Table(slots, tail, at) && i < |slots| && Links(Cells(slots))[i].used
    ensures slots[i].key.Some? && slots[i].hash == Hash(slots[i].key.value)
    ensures slots[i].key.value !in Bindings(slots, i)
    ensures Bindings(slots, i + 1) == Bindings(slots, i)[slots[i].key.value := slots[i].pointer]
  {
    hide Hash;
    BindingsAre(slots, tail, at, i);
    EntryOf(slots, tail, at, i);
  }

  /** Going round from behind slot h, every slot before e is taken. */
  predicate TakenUpTo<V>(slots: seq<Slot<V>>, h: nat, e: nat)
    requires e <= |slots|
  {
    if h < e then forall j | h < j < e :: slots[j].key.Some?
    else (forall j | h < j < |slots| :: slots[j].key.Some?) && forall j | 0 <= j < e :: slots[j].key.Some?
  }

  // ---- iteration, as a value

  /** The bindings with a non-null pointer from slot `from` on, in slot order. */
  ghost function Live<V>(slots: seq<Slot<V>>, from: nat): seq<(Name, V)>
    requires from <= |slots|
    requires forall i | 0 <= i < |slots| && slots[i].pointer.Some? :: slots[i].key.Some?
    decreases |slots| - from
  {
    if from == |slots| then []
    else if slots[from].pointer.None? then Live(slots, from + 1)
    else [(slots[from].key.value, slots[from].pointer.value)] + Live(slots, from + 1)
  }

  lemma TablePointers<V>(slots: seq<Slot<V>>, tail: seq<seq<nat>>, at: map<Name, nat>)
    requires Table(slots, tail, at)
    ensures forall i | 0 <= i < |slots| && slots[i].pointer.Some? :: slots[i].key.Some?
  {
    hide Hash;
    forall i | 0 <= i < |slots| && slots[i].pointer.Some? ensures slots[i].key.Some? {
      EntryOf(slots, tail, at, i);
    }
  }

  ghost predicate Visits<V>(b: (Name, V), m: map<Name, Option<V>>) {
    b.0 in m && m[b.0] == Some(b.1)
  }

  ghost predicate Listed<V>(live: seq<(Name, V)>, k: Name) {
    exists j :: 0 <= j < |live| && live[j].0 == k
  }

  /** The slot-order listing has every name bound to a non-null pointer exactly once,
      with its pointer. */
  lemma {:induction false} LiveComplete<V>(slots: seq<Slot<V>>, tail: seq<seq<nat>>, at: map<Name, nat>, from: nat)
    requires Table(slots, tail, at) && from <= |slots|
    requires forall i | 0 <= i < |slots| && slots[i].pointer.Some? :: slots[i].key.Some?
    ensures forall j | 0 <= j < |Live(slots, from)| ::
              Visits(Live(slots, from)[j], Contents(slots, at)) && at[Live(slots, from)[j].0] >= from
    ensures forall i, j | 0 <= i < j < |Live(slots, from)| :: Live(slots, from)[i].0 != Live(slots, from)[j].0
    ensures forall k | k in at && slots[at[k]].pointer.Some? && at[k] >= from :: Listed(Live(slots, from), k)
    decreases |slots| - from
  {
    hide Hash;
    if from < |slots| {
      LiveComplete(slots, tail, at, from + 1);
      EntryOf(slots, tail, at, from);
      var m, live, later := Contents(slots, at), Live(slots, from), Live(slots, from + 1);
      forall k | k in at && slots[at[k]].pointer.Some? && at[k] >= from ensures Listed(live, k) {
        LiveHas(slots, at, from, k);
      }
      forall j | 0 <= j < |live| ensures Visits(live[j], m) && at[live[j].0] >= from {
        if slots[from].pointer.None? {
          assert live[j] == later[j];
          assert Visits(later[j], m);
        } else if j > 0 {
          assert live[j] == later[j - 1];
          assert Visits(later[j - 1], m);
        } else {
          assert slots[from].key.Some? && live[0].0 == slots[from].key.value;
          assert at[live[0].0] == from && m[live[0].0] == slots[from].pointer;
        }
      }
    }
  }

  ghost predicate Sits<V>(b: (Name, V), at: map<Name, nat>, from: nat) {
    b.0 in at && at[b.0] >= from
  }

  ghost predicate Precedes<V>(a: (Name, V), b: (Name, V), at: map<Name, nat>) {
    a.0 in at && b.0 in at && at[a.0] < at[b.0]
  }

  /** The listing follows the slots. */
  lemma {:induction false} LiveSorted<V>(slots: seq<Slot<V>>, tail: seq<seq<nat>>, at: map<Name, nat>, from: nat)
    requires Table(slots, tail, at) && from <= |slots|
    requires forall i | 0 <= i < |slots| && slots[i].pointer.Some? :: slots[i].key.Some?
    ensures forall i | 0 <= i < |Live(slots, from)| :: Sits(Live(slots, from)[i], at, from)
    ensures forall i, j | 0 <= i < j < |Live(slots, from)| :: Precedes(Live(slots, from)[i], Live(slots, from)[j], at)
    decreases |slots| - from
  {
    hide Hash, Table;
    if from < |slots| {
      LiveSorted(slots, tail, at, from + 1);
      EntryOf(slots, tail, at, from);
      var live, later := Live(slots, from), Live(slots, from + 1);
      if slots[from].pointer.Some? {
        assert live == [(slots[from].key.value, slots[from].pointer.value)] + later;
        forall i | 0 <= i < |live| ensures Sits(live[i], at, from) && (i > 0 ==> Sits(live[i], at, from + 1)) {
          if i > 0 { assert Sits(later[i - 1], at, from + 1); }
        }
        forall i, j | 0 <= i < j < |live| ensures Precedes(live[i], live[j], at) {
          if i > 0 { assert Precedes(later[i - 1], later[j - 1], at); }
        }
      } else {
        forall i | 0 <= i < |live| ensures Sits(live[i], at, from) { assert Sits(later[i], at, from + 1); }
      }
    }
  }

  lemma LiveHas<V>(slots: seq<Slot<V>>, at: map<Name, nat>, from: nat, k: Name)
    requires from < |slots|
    requires forall i | 0 <= i < |slots| && slots[i].pointer.Some? :: slots[i].key.Some?
    requires k in at && from <= at[k] < |slots| && slots[at[k]].key == Some(k) && slots[at[k]].pointer.Some?
    requires at[k] > from ==> Listed(Live(slots, from + 1), k)
    ensures Listed(Live(slots, from), k)
  {
    var live, later := Live(slots, from), Live(slots, from + 1);
    if at[k] > from {
      var j :| 0 <= j < |later| && later[j].0 == k;
      assert live[|live| - |later| + j] == later[j];
    } else {
      assert live[0].0 == k;
    }
  }

  ghost function Pointers<V>(live: seq<(Name, V)>): seq<V> {
    seq(|live|, i requires 0 <= i < |live| => live[i].1)
  }

  // ---- runs of operations on the abstract map

  /** Inserting a new key, finding or making a key's slot and storing through it, looking a
      key up. */
  datatype Op<V> = Insert(key: Name, value: Option<V>) | QueryInsert(key: Name, value: Option<V>) | Query(key: Name)

  /** The map and the answers so far. */
  datatype Abstract<V> = Abstract(m: map<Name, Option<V>>, answers: seq<Option<V>>)

  function Found<V>(m: map<Name, Option<V>>, key: Name): Option<V> {
    if key in m then m[key] else None
  }

  function Does<V>(a: Abstract<V>, op: Op<V>): Abstract<V> {
    match op
    case Insert(key, value) => Abstract(a.m[key := value], a.answers)
    case QueryInsert(key, value) => Abstract(a.m[key := value], a.answers + [Found(a.m, key)])
    case Query(key) => Abstract(a.m, a.answers + [Found(a.m, key)])
  }

  function AfterOps<V>(a: Abstract<V>, ops: seq<Op<V>>): Abstract<V>
    decreases |ops|
  {
    if ops == [] then a else AfterOps(Does(a, ops[0]), ops[1..])
  }

  lemma NoOps<V>(a: Abstract<V>)
    ensures AfterOps(a, []) == a
  {
  }

  lemma FirstOp<V>(m: map<Name, Option<V>>, answers: seq<Option<V>>, ops: seq<Op<V>>)
    requires ops != [] && Allowed(m, ops)
    ensures (ops[0].Insert? ==> ops[0].key !in m) && (ops[0].Query? ==> Hash(ops[0].key) != 0)
    ensures Allowed(Does(Abstract(m, answers), ops[0]).m, ops[1..])
    ensures AfterOps(Abstract(m, answers), ops) == AfterOps(Does(Abstract(m, answers), ops[0]), ops[1..])
  {
    hide Hash;
  }

  /** Keys inserted are new, and no name that hashes to 0 is looked up. */
  ghost predicate Allowed<V>(m: map<Name, Option<V>>, ops: seq<Op<V>>)
    decreases |ops|
  {
    ops == [] ||
    ((ops[0].Insert? ==> ops[0].key !in m) && (ops[0].Query? ==> Hash(ops[0].key) != 0)
     && Allowed(Does(Abstract(m, []), ops[0]).m, ops[1..]))
  }

  /** The least power of two that is large enough. */
  method Capacity(max: nat) returns (c: nat)
    ensures max <= c && c >= 1 && PowerOfTwo(c) && (c > 1 ==> c / 2 < max)
  {
    c := 1;
    while c < max
      invariant c >= 1 && PowerOfTwo(c) && (c > 1 ==> c / 2 < max)
      decreases max - c
    {
      c := c * 2;
    }
  }

  class SpMap<V> {
    var cap: nat
    var size: nat
    var slot: array<Slot<V>>
    ghost var tail: seq<seq<nat>>
    ghost var at: map<Name, nat>

    ghost predicate Valid()
      reads this, slot
    {
      && slot.Length == cap == |tail| && PowerOfTwo(cap)
      && Table(slot[..], tail, at)
      && size == Count(Links(Cells(slot[..])))
    }

    /** The finite map the table stands for. */
    ghost function View(): map<Name, Option<V>>
      requires Valid()
      reads this, slot
    {
      TableAt(slot[..], tail, at);
      Contents(slot[..], at)
    }

    /** `_pbcM_sp_new` */
    constructor (max: nat)
      ensures Valid() && View() == map[] && size == 0 && fresh(slot)
      ensures max <= cap
    {
      var c := Capacity(max);
      cap, size := c, 0;
      slot := new Slot<V>[c](_ => Empty());
      tail, at := seq(c, _ => []), map[];
      new;
      hide Hash, Table, Contents, PowerOfTwo;
      EmptyTable(slot[..]);
    }

    /** Linear probing for a free slot, from behind slot h. */
    method Probe(h: nat) returns (empty: nat)
      requires Valid() && h < cap && size < cap
      ensures empty < cap && slot[empty].key.None? && TakenUpTo(slot[..], h, empty)
    {
      hide And, Hash, Table, PowerOfTwo;
      ghost var free := FreeSlot(Links(Cells(slot[..])));
      empty := And(h + 1, cap - 1);
      AndMask(h + 1, cap);
      Wraps(h, cap);
      while slot[empty].key.Some?
        invariant empty < cap && TakenUpTo(slot[..], h, empty)
        decreases if empty <= free then free - empty else free - empty + cap
      {
        AndMask(empty + 1, cap);
        Wraps(empty, cap);
        empty := And(empty + 1, cap - 1);
      }
    }

    /** A key that is not in the table gets its free home slot, in a table that is not
        full. */
    method TakeHome(key: Name, hashFull: nat, value: Option<V>) returns (i: nat)
      requires Valid() && size < cap && hashFull == Hash(key) && key !in View()
      requires slot[Hash(key) % cap].key.None?
      modifies this, slot
      ensures Valid() && slot == old(slot) && cap == old(cap) && size == old(size) + 1
      ensures View() == old(View())[key := value]
      ensures i < cap && slot[i].key == Some(key) && slot[i].next == 0
    {
      hide Hash, Table;
      i := And(hashFull, cap - 1);
      AndMask(hashFull, cap);
      ghost var was := slot[..];
      WalkStep(i);
      PutAtHome(was, tail, at, i, key, value);
      slot[i] := Slot(Some(key), hashFull, value, slot[i].next);
      tail, at := tail[i := [i]], at[key := i];
      assert slot[..] == was[i := Slot(Some(key), Hash(key), value, was[i].next)];
      size := size + 1;
    }

    /** If its home slot is taken, it gets the first free slot behind that, which is spliced
        into the chain behind slot s. */
    method PlaceBehind(key: Name, hashFull: nat, s: nat, value: Option<V>) returns (i: nat)
      requires Valid() && size < cap && hashFull == Hash(key) && key !in View()
      requires s < cap && slot[s].key.Some? && s in tail[Hash(key) % cap]
      modifies this, slot
      ensures Valid() && slot == old(slot) && cap == old(cap) && size == old(size) + 1
      ensures View() == old(View())[key := value]
      ensures i < cap && slot[i].key == Some(key) && TakenUpTo(old(slot[..]), Hash(key) % cap, i)
      ensures slot[s].next == i + 1 && slot[i].next == old(slot[s].next)
    {
      hide Hash, Table;
      AndMask(hashFull, cap);
      ghost var was := slot[..];
      i := Probe(And(hashFull, cap - 1));
      PutBehind(was, tail, at, s, i, key, value);
      slot[i] := Slot(Some(key), hashFull, value, slot[s].next);
      slot[s] := slot[s].(next := i + 1);
      tail, at := SplicedTail(tail, s, i), at[key := i];
      assert slot[..] == was[i := Slot(Some(key), Hash(key), value, was[s].next)][s := was[s].(next := i + 1)];
      size := size + 1;
    }

    /** `_pbcM_sp_insert_hash` */
    method InsertHash(key: Name, hashFull: nat, value: Option<V>)
      requires Valid() && hashFull == Hash(key) && key !in View()
      modifies this, slot
      ensures Valid() && (slot == old(slot) || fresh(slot))
      ensures View() == old(View())[key := value] && size == old(size) + 1
      ensures cap == if old(size < cap) then old(cap) else 2 * old(cap)
      decreases if size < cap then 0 else 2
    {
      hide Hash, Table;
      if cap > size {
        var hash := And(hashFull, cap - 1);
        AndMask(hashFull, cap);
        if slot[hash].key.None? {
          var _ := TakeHome(key, hashFull, value);
        } else {
          WalkStep(hash);
          var _ := PlaceBehind(key, hashFull, hash, value);
        }
        return;
      }
      Rehash();
      InsertHash(key, hashFull, value);
    }

    /** `_pbcM_sp_rehash`: runs exactly when the table is full, doubles it, and changes
        no binding. */
    method Rehash()
      requires Valid() && cap <= size
      modifies this
      ensures Valid() && fresh(slot)
      ensures View() == old(View()) && size == old(size) == old(cap) && cap == 2 * old(cap)
      decreases 1
    {
      hide Hash, Table, Bindings, Contents;
      var oldSlot := slot;
      ghost var oldTail, oldAt, oldCap := tail, at, cap;
      FullTable(Links(Cells(oldSlot[..])));
      BindingsAre(oldSlot[..], oldTail, oldAt, 0);
      BindingsAre(oldSlot[..], oldTail, oldAt, cap);
      var n := size;
      size := 0;
      cap := cap * 2;
      slot := new Slot<V>[cap](_ => Empty());
      tail, at := seq(cap, _ => []), map[];
      EmptyTable(slot[..]);
      var i := 0;
      while i < n
        invariant 0 <= i <= n && Valid() && fresh(slot)
        invariant oldSlot[..] == old(slot[..]) && size == i && cap == 2 * oldCap
        invariant View() == Bindings(oldSlot[..], i)
      {
        OldEntry(oldSlot[..], oldTail, oldAt, i);
        InsertHash(oldSlot[i].key.value, oldSlot[i].hash, oldSlot[i].pointer);
        i := i + 1;
      }
    }

    /** `_pbcM_sp_insert`, for a key that is not in the table. */
    method Insert(key: Name, value: Option<V>)
      requires Valid() && key !in View()
      modifies this, slot
      ensures Valid() && (slot == old(slot) || fresh(slot))
      ensures View() == old(View())[key := value] && size == old(size) + 1
      ensures cap == if old(size < cap) then old(cap) else 2 * old(cap)
    {
      var h := CalcHash(key);
      InsertHash(key, h, value);
    }

    /** The walk the lookups share: the index of the key's slot, if it has one, and the slot
        where the walk ended, which is the last of the chain if it has none. */
    method Find(key: Name, hashFull: nat) returns (r: Option<nat>, last: nat)
      requires Valid() && hashFull == Hash(key)
      requires hashFull == 0 ==> slot[Hash(key) % cap].key.Some?
      ensures r.Some? <==> key in at
      ensures r.Some? ==> r.value == last == at[key] && last < cap && slot[last].key == Some(key)
      ensures r.None? && slot[Hash(key) % cap].key.Some? ==>
                last < cap && slot[last].key.Some? && slot[last].next == 0 && last in tail[Hash(key) % cap]
    {
      hide Hash, Table;
      var i := And(hashFull, cap - 1);
      AndMask(hashFull, cap);
      HomeWalk(key);
      ghost var home := i;
      WalkStep(home);
      while true
        invariant 0 <= i < cap
        invariant key in at ==> at[key] in tail[i]
        invariant slot[home].key.Some? ==> i in tail[home] && slot[i].key.Some?
        decreases |tail[i]|, slot[i].next
      {
        WalkStep(i);
        if slot[i].hash == hashFull && slot[i].key == Some(key) {
          return Some(i), i;
        }
        if slot[i].next == 0 {
          return None, i;
        }
        if slot[home].key.Some? { NextOnWalk(home, i); }
        i := slot[i].next - 1;
      }
    }

    lemma NextOnWalk(home: nat, i: nat)
      requires Valid() && home < cap && i < cap && i in tail[home] && slot[i].next != 0
      ensures slot[i].next <= cap && slot[i].next - 1 in tail[home] && slot[slot[i].next - 1].key.Some?
    {
      hide Hash, Entry;
      WalkStep(i);
      var links := Links(Cells(slot[..]));
      assert WalkFrom(links, tail, i);
      var n := slot[i].next - 1;
      WalkStep(n);
      WalkContains(links, tail, home, i, n);
    }

    lemma HomeWalk(key: Name)
      requires Valid()
      ensures Hash(key) % cap < cap
      ensures key in at ==> at[key] in tail[Hash(key) % cap] && at[key] < cap && slot[at[key]].key == Some(key)
    {
      hide Hash;
      AndMask(Hash(key), cap);
      if key in at { FromHome(Cells(slot[..]), tail, at, Home(cap), key); }
    }

    lemma WalkStep(i: nat)
      requires Valid() && i < cap
      ensures slot[i].key.None? ==> tail[i] == [] && slot[i].next == 0
      ensures slot[i].key.Some? ==>
                slot[i].hash == Hash(slot[i].key.value) && slot[i].key.value in at && at[slot[i].key.value] == i
      ensures slot[i].next != 0 ==> slot[i].next <= cap && tail[i] == [i] + tail[slot[i].next - 1]
      ensures slot[i].key.Some? && slot[i].next == 0 ==> tail[i] == [i]
    {
      hide Hash;
      Step(Cells(slot[..]), tail, at, Home(cap), i);
      EntryOf(slot[..], tail, at, i);
    }

    /** `_pbcM_sp_query`. A name that hashes to 0 would match the zeroed hash of an empty
        home slot and have its null key compared: such a query is not allowed. */
    method Query(key: Name) returns (r: Option<V>)
      requires Valid()
      requires Hash(key) == 0 ==> slot[Hash(key) % cap].key.Some?
      ensures r == if key in View() then View()[key] else None
    {
      var h := CalcHash(key);
      var f, _ := Find(key, h);
      r := if f.None? then None else slot[f.value].pointer;
    }

    /** `_pbcM_sp_query_insert`: the slot whose pointer the caller may then set. A new key
        starts with the null pointer, at the end of its chain. */
    method QueryInsert(key: Name) returns (i: nat)
      requires Valid()
      modifies this, slot
      ensures Valid() && (slot == old(slot) || fresh(slot))
      ensures i < cap && slot[i].key == Some(key) && (key !in old(View()) ==> slot[i].next == 0)
      ensures View() == if key in old(View()) then old(View()) else old(View())[key := None]
      ensures size == if key in old(View()) then old(size) else old(size) + 1
      ensures cap == if key in old(View()) || old(size < cap) then old(cap) else 2 * old(cap)
      decreases if size < cap then 0 else 2
    {
      hide Table;
      var h := CalcHash(key);
      var home := And(h, cap - 1);
      AndMask(h, cap);
      if slot[home].key.None? {
        HomeFree(home, key);
        if cap > size {
          i := TakeHome(key, h, None);
          return;
        }
      } else {
        var f, last := Find(key, h);
        if f.Some? {
          return f.value;
        }
        if cap > size {
          i := PlaceBehind(key, h, last, None);
          return;
        }
      }
      Rehash();
      i := QueryInsert(key);
    }

    lemma HomeFree(home: nat, key: Name)
      requires Valid() && home < cap && home == Hash(key) % cap && slot[home].key.None?
      ensures key !in at
    {
      HomeWalk(key);
      WalkStep(home);
    }

    /** `*v = value` through the pointer QueryInsert returned. */
    method Store(i: nat, value: Option<V>)
      requires Valid() && i < cap && slot[i].key.Some?
      modifies slot
      ensures Valid() && View() == old(View())[old(slot[i]).key.value := value]
      ensures slot[i].key == old(slot[i]).key
    {
      ghost var was := slot[..];
      PutValue(was, tail, at, i, value);
      slot[i] := slot[i].(pointer := value);
      assert slot[..] == was[i := was[i].(pointer := value)];
    }

    /** Any run of operations on the table answers as the same run on a finite map, and
        leaves the table standing for that map. */
    method RunOps(ops: seq<Op<V>>) returns (answers: seq<Option<V>>)
      requires Valid() && Allowed(View(), ops)
      modifies this, slot
      ensures Valid() && View() == AfterOps(Abstract(old(View()), []), ops).m
      ensures answers == AfterOps(Abstract(old(View()), []), ops).answers
    {
      hide Hash, Table, Contents, Does, Allowed, AfterOps;
      ghost var end := AfterOps(Abstract(View(), []), ops);
      answers := [];
      var i := 0;
      assert ops[0..] == ops;
      while i < |ops|
        invariant 0 <= i <= |ops| && Valid() && (slot == old(slot) || fresh(slot))
        invariant Allowed(View(), ops[i..])
        invariant AfterOps(Abstract(View(), answers), ops[i..]) == end
      {
        assert ops[i..][0] == ops[i] && ops[i..][1..] == ops[i + 1..];
        FirstOp(View(), answers, ops[i..]);
        var answer := DoOp(ops[i], answers);
        answers := answers + answer;
        i := i + 1;
      }
      assert ops[i..] == [];
      NoOps(Abstract(View(), answers));
    }

    method DoOp(op: Op<V>, ghost answers: seq<Option<V>>) returns (answer: seq<Option<V>>)
      requires Valid() && (op.Insert? ==> op.key !in View()) && (op.Query? ==> Hash(op.key) != 0)
      modifies this, slot
      ensures Valid() && (slot == old(slot) || fresh(slot))
      ensures Abstract(View(), answers + answer) == Does(Abstract(old(View()), answers), op)
    {
      hide Hash, Table, Contents;
      match op
      case Insert(key, value) =>
        Insert(key, value);
        answer := [];
        assert answers + [] == answers;
      case QueryInsert(key, value) =>
        var j := QueryInsert(key);
        SlotShows(j);
        answer := [slot[j].pointer];
        Store(j, value);
      case Query(key) =>
        var r := Query(key);
        answer := [r];
    }

    lemma SlotShows(j: nat)
      requires Valid() && j < cap && slot[j].key.Some?
      ensures slot[j].key.value in View() && View()[slot[j].key.value] == slot[j].pointer
    {
      hide Hash;
      EntryOf(slot[..], tail, at, j);
    }

    /** What is left of a walk over the table from slot `from`. */
    ghost function LiveFrom(from: nat): seq<(Name, V)>
      requires Valid() && from <= cap
      reads this, slot
    {
      TablePointers(slot[..], tail, at);
      Live(slot[..], from)
    }

    /** `_pbcM_sp_foreach_ud`; the trace is what the callback is given. */
    method ForeachUd() returns (trace: seq<V>)
      requires Valid()
      ensures trace == Pointers(LiveFrom(0))
    {
      hide Table;
      trace := [];
      var i := 0;
      while i < cap
        invariant 0 <= i <= cap
        invariant Pointers(LiveFrom(0)) == trace + Pointers(LiveFrom(i))
      {
        LiveStep(i);
        if slot[i].pointer.Some? {
          trace := trace + [slot[i].pointer.value];
        }
        i := i + 1;
      }
    }

    lemma LiveStep(i: nat)
      requires Valid() && i < cap
      ensures slot[i].pointer.Some? ==> slot[i].key.Some?
      ensures LiveFrom(i) == if slot[i].pointer.None? then LiveFrom(i + 1)
                             else [(slot[i].key.value, slot[i].pointer.value)] + LiveFrom(i + 1)
      ensures Pointers(LiveFrom(i)) == if slot[i].pointer.None? then Pointers(LiveFrom(i + 1))
                             else [slot[i].pointer.value] + Pointers(LiveFrom(i + 1))
    {
      TablePointers(slot[..], tail, at);
    }

    /** The first live slot at or after `from`: `_find_first` and the scan of
        `_find_next`. */
    method Scan(from: nat) returns (idx: Option<nat>)
      requires Valid() && from <= cap
      ensures idx.None? ==> LiveFrom(from) == []
      ensures idx.Some? ==> idx.value < cap && slot[idx.value].pointer.Some? && slot[idx.value].key.Some?
                            && LiveFrom(from) == LiveFrom(idx.value)
    {
      hide Table;
      var i := from;
      while i < cap
        invariant from <= i <= cap && LiveFrom(from) == LiveFrom(i)
      {
        LiveStep(i);
        if slot[i].pointer.Some? {
          return Some(i);
        }
        i := i + 1;
      }
      return None;
    }

    /** Where `_pbcM_sp_next` resumes after a key. */
    ghost function Resume(key: Option<Name>): (from: nat)
      requires Valid()
      reads this, slot
      ensures from <= cap && (key.None? ==> from == 0)
    {
      if key.None? then 0 else if key.value in at then at[key.value] + 1 else cap
    }

    /** The slot behind that of a key, if the key is there. */
    method FindBehind(key: Name) returns (from: Option<nat>)
      requires Valid()
      requires Hash(key) == 0 ==> slot[0].key.Some?
      ensures from.None? ==> Resume(Some(key)) == cap
      ensures from.Some? ==> from.value == Resume(Some(key))
    {
      hide Hash, Table, Live;
      RemainderIs(0, cap, 0, 0);
      var h := CalcHash(key);
      var f, _ := Find(key, h);
      if f.None? {
        return None;
      }
      return Some(f.value + 1);
    }

    /** `_pbcM_sp_next`: the live binding after the given key's slot, or the first one. */
    method Next(key: Option<Name>) returns (next: Option<Name>, pointer: Option<V>)
      requires Valid()
      requires key.Some? && Hash(key.value) == 0 ==> slot[0].key.Some?
      ensures LiveFrom(Resume(key)) == [] ==> next == None && pointer == None
      ensures LiveFrom(Resume(key)) != [] ==>
                var b := LiveFrom(Resume(key))[0]; next == Some(b.0) && pointer == Some(b.1)
      ensures next.Some? ==> next.value in at && LiveFrom(Resume(next)) == LiveFrom(Resume(key))[1..]
    {
      hide Hash, Table;
      var from := 0;
      if key.Some? {
        var f := FindBehind(key.value);
        if f.None? {
          return None, None;
        }
        from := f.value;
      }
      var idx := Scan(from);
      if idx.None? {
        return None, None;
      }
      LiveStep(idx.value);
      WalkStep(idx.value);
      return slot[idx.value].key, slot[idx.value].pointer;
    }

    /** A whole iteration: starting from no key and feeding each key back visits exactly
        the bindings `ForeachUd` visits, in the same order, and stops. */
    method Iterate() returns (seen: seq<(Name, V)>)
      requires Valid()
      ensures seen == LiveFrom(0)
      ensures forall i, j | 0 <= i < j < |seen| :: seen[i].0 != seen[j].0
      ensures forall k :: k in View() && View()[k].Some? <==> Listed(seen, k)
      ensures forall j | 0 <= j < |seen| :: Visits(seen[j], View())
    {
      hide Hash, Table, Live, Contents;
      seen := [];
      var key, p := Next(None);
      while key.Some?
        invariant key.Some? ==> key.value in at
        invariant key.None? ==> seen == LiveFrom(0)
        invariant key.Some? ==> p.Some? && LiveFrom(0) == seen + [(key.value, p.value)] + LiveFrom(Resume(key))
        decreases key.Some?, if key.Some? then |LiveFrom(Resume(key))| else 0
      {
        seen := seen + [(key.value, p.value)];
        HomeTaken(key.value);
        ghost var rest := LiveFrom(Resume(key));
        key, p := Next(key);
        assert rest != [] ==> rest == [rest[0]] + rest[1..];
      }
      Complete();
    }

    lemma HomeTaken(key: Name)
      requires Valid() && key in at
      ensures slot[Hash(key) % cap].key.Some?
      ensures Hash(key) == 0 ==> slot[0].key.Some?
    {
      hide Hash, Table;
      HomeWalk(key);
      WalkStep(Hash(key) % cap);
      RemainderIs(0, cap, 0, 0);
    }

    lemma Complete()
      requires Valid()
      ensures var live, m := LiveFrom(0), View();
              && (forall j | 0 <= j < |live| :: Visits(live[j], m))
              && (forall i, j | 0 <= i < j < |live| :: live[i].0 != live[j].0)
              && (forall k | k in m && m[k].Some? :: Listed(live, k))
    {
      TablePointers(slot[..], tail, at);
      LiveComplete(slot[..], tail, at, 0);
      var live, m := LiveFrom(0), View();
      assert live == Live(slot[..], 0) && m == Contents(slot[..], at);
    }
  }
}
