/** The two tables that are built once, exactly full: `map_ip` from ids to pointers,
    with its dense-array form, and `map_si` from names to ids (ext/pbc/src/map.c); and
    the enum they make up (ext/pbc/src/proto.c). */
module IdMaps {
  import opened Words
  import opened Wrappers
  import opened Chains
  import opened Index
  import SpMap

  type Name = SpMap.Name
  type int32 = n: int | -0x8000_0000 <= n < 0x8000_0000

  /** `struct map_kv` with a non-null pointer. */
  datatype Kv<+V> = Kv(id: int32, pointer: V)

  predicate DistinctIds<V>(table: seq<Kv<V>>) {
    forall i, j | 0 <= i < j < |table| :: table[i].id != table[j].id
  }

  predicate HasId<V>(table: seq<Kv<V>>, id: int) {
    exists i :: 0 <= i < |table| && table[i].id == id
  }

  /** The finite map a table lists. */
  function ById<V>(table: seq<Kv<V>>): map<int, V> {
    if table == [] then map[]
    else ById(table[..|table| - 1])[table[|table| - 1].id := table[|table| - 1].pointer]
  }

  lemma {:induction false} ByIdAt<V>(table: seq<Kv<V>>)
    requires DistinctIds(table)
    ensures forall i | 0 <= i < |table| :: table[i].id in ById(table) && ById(table)[table[i].id] == table[i].pointer
    ensures forall id :: id in ById(table) ==> HasId(table, id)
    ensures |ById(table)| == |table|
  {
    if table != [] {
      var n := |table| - 1;
      ByIdAt(table[..n]);
      assert forall i | 0 <= i < n :: table[..n][i] == table[i];
      forall id | id in ById(table) ensures HasId(table, id) {
        if id in ById(table[..n]) {
          var i :| 0 <= i < n && table[..n][i].id == id;
          assert table[i].id == id;
        } else {
          assert table[n].id == id;
        }
      }
    }
  }

  /** Two tables with the same bindings list the same map. */
  lemma ByIdIs<V>(table: seq<Kv<V>>, m: map<int, V>)
    requires DistinctIds(table)
    requires forall i | 0 <= i < |table| :: table[i].id in m && m[table[i].id] == table[i].pointer
    requires forall id | id in m :: HasId(table, id)
    ensures ById(table) == m
  {
    ByIdAt(table);
    hide ById;
    forall id | id in ById(table) ensures id in m && ById(table)[id] == m[id] {
      var i :| 0 <= i < |table| && table[i].id == id;
    }
    forall id | id in m ensures id in ById(table) {
      var i :| 0 <= i < |table| && table[i].id == id;
    }
  }

  // ---- map_ip

  datatype IpSlot<+V> = IpSlot(id: int32, pointer: Option<V>, next: nat)

  function IpCells<V>(slots: seq<IpSlot<V>>): (cells: seq<Cell<int>>)
    ensures |cells| == |slots|
    ensures forall i | 0 <= i < |slots| ::
              cells[i] == Cell(if slots[i].pointer.Some? then Some(slots[i].id as int) else None, slots[i].next)
  {
    seq(|slots|, i requires 0 <= i < |slots| => Cell(if slots[i].pointer.Some? then Some(slots[i].id as int)
      else None, slots[i].next))
  }

  /** `((unsigned)id) % size` */
  function IpHome(size: nat): int -> nat {
    (id: int) => if size == 0 then 0 else FromInt(id) % size
  }

  ghost function IpContents<V>(slots: seq<IpSlot<V>>, at: map<int, nat>): map<int, V>
    requires forall k | k in at :: at[k] < |slots| && slots[at[k]].pointer.Some?
  {
    map k | k in at :: slots[at[k]].pointer.value
  }

  ghost predicate IpTable<V>(slots: seq<IpSlot<V>>, tail: seq<seq<nat>>, at: map<int, nat>) {
    && Placed(IpCells(slots), tail, at, IpHome(|slots|))
    && (forall k | k in at :: at[k] < |slots| && slots[at[k]].pointer.Some? && slots[at[k]].id == k)
  }

  lemma IpPutHome<V>(slots: seq<IpSlot<V>>, tail: seq<seq<nat>>, at: map<int, nat>, h: nat, kv: Kv<V>)
    requires IpTable(slots, tail, at) && h < |slots| && h == IpHome(|slots|)(kv.id)
    requires slots[h].pointer.None? && kv.id !in at
    ensures var slots' := slots[h := IpSlot(kv.id, Some(kv.pointer), slots[h].next)];
            IpTable(slots', tail[h := [h]], at[kv.id := h])
            && IpContents(slots', at[kv.id := h]) == IpContents(slots, at)[kv.id := kv.pointer]
            && Count(Links(IpCells(slots'))) == Count(Links(IpCells(slots))) + 1
  {
    hide Placed, IpHome;
    var slots' := slots[h := IpSlot(kv.id, Some(kv.pointer), slots[h].next)];
    PutHome(IpCells(slots), tail, at, IpHome(|slots|), h, kv.id);
    assert forall k | k in at :: at[k] != h && k != kv.id;
    var id: int := kv.id;
    assert IpContents(slots', at[id := h]) == IpContents(slots, at)[id := kv.pointer];
    assert IpCells(slots') == IpCells(slots)[h := Cell(Some(kv.id as int), 0)];
  }

  lemma IpPutBehind<V>(slots: seq<IpSlot<V>>, tail: seq<seq<nat>>, at: map<int, nat>, h: nat, e: nat, kv: Kv<V>)
    requires IpTable(slots, tail, at) && h < |slots| && h == IpHome(|slots|)(kv.id) && e < |slots|
    requires slots[h].pointer.Some? && slots[e].pointer.None? && kv.id !in at
    ensures |tail| == |slots| && tail[h] != []
    ensures var slots' := slots[e := IpSlot(kv.id, Some(kv.pointer), slots[h].next)][h := slots[h].(next := e + 1)];
            IpTable(slots', SplicedTail(tail, h, e), at[kv.id := e])
            && IpContents(slots', at[kv.id := e]) == IpContents(slots, at)[kv.id := kv.pointer]
            && Count(Links(IpCells(slots'))) == Count(Links(IpCells(slots))) + 1
  {
    hide Placed, IpHome, After;
    var slots' := slots[e := IpSlot(kv.id, Some(kv.pointer), slots[h].next)][h := slots[h].(next := e + 1)];
    MeetsItself(IpCells(slots), tail, at, IpHome(|slots|), h);
    PutLinked(IpCells(slots), tail, at, IpHome(|slots|), h, e, kv.id);
    assert forall k | k in at :: at[k] != e && k != kv.id;
    var id: int := kv.id;
    assert IpContents(slots', at[id := e]) == IpContents(slots, at)[id := kv.pointer];
    assert IpCells(slots') == Linked(IpCells(slots), h, e, kv.id);
  }

  /** The monotone cursor both builders share: below it every slot is taken, and a table
      that is not full has a free slot at or after it. */
  lemma CursorStops(links: seq<Link>, empty: nat) returns (free: nat)
    requires Count(links) < |links|
    requires empty <= |links| && forall k | 0 <= k < empty :: links[k].used
    ensures empty <= free < |links| && !links[free].used
  {
    free := FreeSlot(links);
  }

  /** The bindings of an array indexed by id. */
  ghost function DenseView<V>(cells: seq<Option<V>>): map<int, V> {
    map id | 0 <= id < |cells| && cells[id].Some? :: cells[id].value
  }

  class IpMap<V> {
    const dense: array?<Option<V>>
    const hashSize: nat
    const slot: array?<IpSlot<V>>
    ghost const tail: seq<seq<nat>>
    ghost const at: map<int, nat>

    /** Dense form: an array indexed by id. Hash form: a chained table without a free
        slot. Either way hashSize is the number of bindings. */
    ghost predicate Valid()
      reads this, dense, slot
    {
      if dense != null then
        |DenseView(dense[..])| == hashSize
      else
        && slot != null && slot.Length == hashSize > 0
        && IpTable(slot[..], tail, at)
        && (forall i | 0 <= i < hashSize :: slot[i].pointer.Some?)
        && |IpContents(slot[..], at)| == hashSize
    }

    /** The finite map the table stands for. */
    ghost function View(): map<int, V>
      requires Valid()
      reads this, dense, slot
    {
      if dense != null then DenseView(dense[..]) else IpContents(slot[..], at)
    }

    constructor Dense(cells: array<Option<V>>, size: nat)
      requires |DenseView(cells[..])| == size
      ensures Valid() && dense == cells && hashSize == size
      ensures View() == DenseView(cells[..])
    {
      dense, hashSize, slot := cells, size, null;
      tail, at := [], map[];
    }

    constructor Hashed(slots: array<IpSlot<V>>, ghost tail: seq<seq<nat>>, ghost at: map<int, nat>)
      requires slots.Length > 0 && IpTable(slots[..], tail, at)
      requires forall i | 0 <= i < slots.Length :: slots[i].pointer.Some?
      requires |IpContents(slots[..], at)| == slots.Length
      ensures Valid() && dense == null && slot == slots && hashSize == slots.Length
      ensures View() == IpContents(slots[..], at)
    {
      dense, hashSize, slot := null, slots.Length, slots;
      this.tail, this.at := tail, at;
    }

    /** `_pbcM_ip_query` on a table that was built from some bindings. */
    method Query(id: int32) returns (r: Option<V>)
      requires Valid()
      ensures r == if id in View() then Some(View()[id]) else None
    {
      if dense != null {
        if id >= 0 && id < dense.Length {
          return dense[id];
        }
        return None;
      }
      var i := FromInt(id) % hashSize;
      if id in at { FromHome(IpCells(slot[..]), tail, at, IpHome(hashSize), id); }
      while true
        invariant 0 <= i < hashSize == |tail|
        invariant id in at ==> at[id] in tail[i]
        decreases |tail[i]|
      {
        Step(IpCells(slot[..]), tail, at, IpHome(hashSize), i);
        if slot[i].id == id {
          return slot[i].pointer;
        }
        if slot[i].next == 0 {
          return None;
        }
        i := slot[i].next - 1;
      }
    }
  }

  /** One round of the build loop: the entry goes to its home slot, or to the first free
      slot at or after the cursor, spliced in behind the home slot. */
  method IpPlace<V>(slot: array<IpSlot<V>>, ghost tail: seq<seq<nat>>, ghost at: map<int, nat>, empty: nat, kv: Kv<V>)
    returns (empty': nat, ghost tail': seq<seq<nat>>, ghost at': map<int, nat>)
    requires IpTable(slot[..], tail, at) && |tail| == slot.Length && kv.id !in at
    requires Count(Links(IpCells(slot[..]))) < slot.Length
    requires empty <= slot.Length && forall k | 0 <= k < empty :: slot[k].pointer.Some?
    modifies slot
    ensures IpTable(slot[..], tail', at') && |tail'| == slot.Length
    ensures IpContents(slot[..], at') == old(IpContents(slot[..], at))[kv.id := kv.pointer]
    ensures Count(Links(IpCells(slot[..]))) == old(Count(Links(IpCells(slot[..])))) + 1
    ensures empty <= empty' <= slot.Length && forall k | 0 <= k < empty' :: slot[k].pointer.Some?
  {
    hide Placed, IpHome;
    ghost var was := slot[..];
    var hash := IpHash(kv.id, slot.Length);
    empty' := empty;
    if slot[hash].pointer.None? {
      IpPutHome(was, tail, at, hash, kv);
      slot[hash] := IpSlot(kv.id, Some(kv.pointer), slot[hash].next);
      tail', at' := tail[hash := [hash]], at[kv.id := hash];
    } else {
      ghost var free := CursorStops(Links(IpCells(was)), empty);
      while slot[empty'].pointer.Some?
        invariant empty <= empty' <= free
        invariant forall k | 0 <= k < empty' :: slot[k].pointer.Some?
        decreases free - empty'
      {
        empty' := empty' + 1;
      }
      IpPutBehind(was, tail, at, hash, empty', kv);
      slot[empty'] := IpSlot(kv.id, Some(kv.pointer), slot[hash].next);
      slot[hash] := slot[hash].(next := empty' + 1);
      tail', at' := SplicedTail(tail, hash, empty'), at[kv.id := empty'];
      ghost var one := was[empty' := IpSlot(kv.id, Some(kv.pointer), was[hash].next)];
      assert slot[..] == one[hash := was[hash].(next := empty' + 1)];
    }
  }

  /** `_pbcM_ip_new_hash` */
  method IpNewHash<V>(table: seq<Kv<V>>) returns (m: IpMap<V>)
    requires table != [] && DistinctIds(table)
    ensures fresh(m) && m.Valid() && m.dense == null && m.View() == ById(table) && m.hashSize == |table|
  {
    hide Placed, IpHome;
    var size := |table|;
    var slot := new IpSlot<V>[size](_ => IpSlot(0, None, 0));
    ghost var tail: seq<seq<nat>>, at: map<int, nat> := seq(size, _ => []), map[];
    NonePlaced(IpCells(slot[..]), IpHome(size));
    var empty, i := 0, 0;
    while i < size
      invariant 0 <= i <= size && slot.Length == size == |tail| && 0 <= empty <= size && fresh(slot)
      invariant IpTable(slot[..], tail, at) && IpContents(slot[..], at) == ById(table[..i])
      invariant Count(Links(IpCells(slot[..]))) == i
      invariant forall k | 0 <= k < empty :: slot[k].pointer.Some?
    {
      NewId(table, i);
      empty, tail, at := IpPlace(slot, tail, at, empty, table[i]);
      i := i + 1;
    }
    assert table[..size] == table;
    FullTable(Links(IpCells(slot[..])));
    ByIdAt(table);
    forall k | 0 <= k < size ensures slot[k].pointer.Some? { assert Links(IpCells(slot[..]))[k].used; }
    m := new IpMap<V>.Hashed(slot, tail, at);
  }

  method IpHash(id: int32, size: nat) returns (h: nat)
    requires size > 0
    ensures h == IpHome(size)(id) && h < size
  {
    h := FromInt(id) % size;
  }

  lemma NewId<V>(table: seq<Kv<V>>, i: nat)
    requires DistinctIds(table) && i < |table|
    ensures table[i].id !in ById(table[..i])
    ensures ById(table[..i + 1]) == ById(table[..i])[table[i].id := table[i].pointer]
  {
    ByIdAt(table[..i]);
    assert table[..i + 1][..i] == table[..i];
  }

  /** `_pbcM_ip_new`: dense unless an id is negative or above twice the size. */
  method IpNew<V>(table: seq<Kv<V>>) returns (m: IpMap<V>)
    requires table != [] && DistinctIds(table)
    ensures fresh(m) && m.Valid() && m.View() == ById(table) && m.hashSize == |table|
    ensures m.dense == null <==> exists i :: 0 <= i < |table| && (table[i].id < 0 || table[i].id > 2 * |table|)
  {
    var size := |table|;
    var max: int := table[0].id;
    if max > size * 2 || max < 0 {
      m := IpNewHash(table);
      return;
    }
    var i := 1;
    while i < size
      invariant 1 <= i <= size
      invariant 0 <= max <= size * 2
      invariant forall k | 0 <= k < i :: 0 <= table[k].id <= max
    {
      if table[i].id < 0 {
        m := IpNewHash(table);
        return;
      }
      if table[i].id > max {
        max := table[i].id;
        if max > size * 2 {
          m := IpNewHash(table);
          return;
        }
      }
      i := i + 1;
    }
    m := FillDense(table, max);
  }

  /** The array form, for ids from 0 to max. */
  method FillDense<V>(table: seq<Kv<V>>, max: nat) returns (m: IpMap<V>)
    requires DistinctIds(table) && forall k | 0 <= k < |table| :: 0 <= table[k].id <= max
    ensures fresh(m) && m.Valid() && m.View() == ById(table) && m.hashSize == |table| && m.dense != null
  {
    var cells := new Option<V>[max + 1](_ => None);
    assert DenseView(cells[..]) == map[];
    var i := 0;
    assert ById(table[..0]) == map[];
    hide ById, DenseView, DistinctIds;
    while i < |table|
      invariant 0 <= i <= |table| && cells.Length == max + 1
      invariant DenseView(cells[..]) == ById(table[..i])
    {
      NewId(table, i);
      ghost var was := cells[..];
      cells[table[i].id] := Some(table[i].pointer);
      DenseStore(was, table[i]);
      assert cells[..] == was[table[i].id := Some(table[i].pointer)];
      i := i + 1;
    }
    assert table[..|table|] == table;
    ByIdAt(table);
    m := new IpMap<V>.Dense(cells, |table|);
  }

  lemma DenseStore<V>(cells: seq<Option<V>>, kv: Kv<V>)
    requires 0 <= kv.id < |cells|
    ensures DenseView(cells[kv.id := Some(kv.pointer)]) == DenseView(cells)[kv.id as int := kv.pointer]
  {
  }

  /** `_inject`: the bindings of a table, in array or slot order. */
  method Inject<V>(m: IpMap<V>) returns (table: seq<Kv<V>>)
    requires m.Valid()
    requires forall id | id in m.View() :: -0x8000_0000 <= id < 0x8000_0000
    ensures DistinctIds(table) && ById(table) == m.View() && |table| == m.hashSize
  {
    if m.dense != null {
      assert forall id | 0 <= id < m.dense.Length && m.dense[id].Some? :: id in m.View();
      table := InjectDense(m.dense);
      ByIdIs(table, m.View());
    } else {
      table := [];
      var i := 0;
      while i < m.slot.Length
        invariant 0 <= i <= m.slot.Length && |table| == i
        invariant forall k | 0 <= k < i :: table[k] == Kv(m.slot[k].id, m.slot[k].pointer.value)
      {
        table := table + [Kv(m.slot[i].id, m.slot[i].pointer.value)];
        i := i + 1;
      }
      SlotsListed(m, table);
      ByIdIs(table, m.View());
    }
    ByIdAt(table);
  }

  /** The loop over the array form. */
  method InjectDense<V>(dense: array<Option<V>>) returns (table: seq<Kv<V>>)
    requires forall id | 0 <= id < dense.Length && dense[id].Some? :: -0x8000_0000 <= id < 0x8000_0000
    ensures DistinctIds(table)
    ensures forall k | 0 <= k < |table| ::
              0 <= table[k].id < dense.Length && dense[table[k].id] == Some(table[k].pointer)
    ensures forall id | 0 <= id < dense.Length && dense[id].Some? :: HasId(table, id)
  {
    hide HasId;
    table := [];
    var i := 0;
    while i < dense.Length
      invariant 0 <= i <= dense.Length
      invariant forall k | 0 <= k < |table| :: 0 <= table[k].id < i && dense[table[k].id] == Some(table[k].pointer)
      invariant DistinctIds(table)
      invariant forall id | 0 <= id < i && dense[id].Some? :: HasId(table, id)
    {
      if dense[i].Some? {
        OneMoreId(table, Kv(i, dense[i].value));
        table := table + [Kv(i, dense[i].value)];
      }
      i := i + 1;
    }
  }

  lemma OneMoreId<V>(table: seq<Kv<V>>, kv: Kv<V>)
    ensures HasId(table + [kv], kv.id)
    ensures forall id | HasId(table, id) :: HasId(table + [kv], id)
  {
    var more := table + [kv];
    assert more[|table|].id == kv.id;
    forall id | HasId(table, id) ensures HasId(more, id) {
      var k :| 0 <= k < |table| && table[k].id == id;
      assert more[k].id == id;
    }
  }

  lemma SlotsListed<V>(m: IpMap<V>, table: seq<Kv<V>>)
    requires m.Valid() && m.dense == null && |table| == m.hashSize
    requires forall k | 0 <= k < |table| :: table[k] == Kv(m.slot[k].id, m.slot[k].pointer.value)
    ensures DistinctIds(table)
    ensures forall k | 0 <= k < |table| :: table[k].id in m.View() && m.View()[table[k].id] == table[k].pointer
    ensures forall id | id in m.View() :: HasId(table, id)
  {
    forall k | 0 <= k < |table| ensures table[k].id in m.at && m.at[table[k].id] == k {
      Step(IpCells(m.slot[..]), m.tail, m.at, IpHome(m.hashSize), k);
    }
    forall id | id in m.View() ensures HasId(table, id) {
      assert table[m.at[id]].id == id;
    }
  }

  /** `_pbcM_ip_combine`: the union of two tables without a common id, whichever form
      each of the three tables has. */
  method IpCombine<V>(a: IpMap<V>, b: IpMap<V>) returns (m: IpMap<V>)
    requires a.Valid() && b.Valid() && a.View().Keys !! b.View().Keys
    requires a.hashSize + b.hashSize > 0
    requires forall id | id in a.View() || id in b.View() :: -0x8000_0000 <= id < 0x8000_0000
    ensures fresh(m) && m.Valid() && m.View() == a.View() + b.View()
  {
    var first := Inject(a);
    var second := Inject(b);
    var table := first + second;
    JoinedTables(first, second);
    m := IpNew(table);
  }

  lemma JoinedTables<V>(first: seq<Kv<V>>, second: seq<Kv<V>>)
    requires DistinctIds(first) && DistinctIds(second) && ById(first).Keys !! ById(second).Keys
    ensures DistinctIds(first + second) && ById(first + second) == ById(first) + ById(second)
  {
    var table, m := first + second, ById(first) + ById(second);
    ByIdAt(first);
    ByIdAt(second);
    hide ById;
    forall i, j | 0 <= i < j < |table| ensures table[i].id != table[j].id {
      if i < |first| <= j { assert first[i].id in ById(first) && second[j - |first|].id in ById(second); }
    }
    forall id | id in m ensures HasId(table, id) {
      if HasId(second, id) {
        var i :| 0 <= i < |second| && second[i].id == id;
        assert table[|first| + i].id == id;
      } else {
        var i :| 0 <= i < |first| && first[i].id == id;
        assert table[i].id == id;
      }
    }
    ByIdIs(table, m);
  }

  // ---- map_si

  datatype SiSlot = SiSlot(key: Option<Name>, hash: nat, id: int32, next: nat)

  function SiCells(slots: seq<SiSlot>): (cells: seq<Cell<Name>>)
    ensures |cells| == |slots|
    ensures forall i | 0 <= i < |slots| :: cells[i] == Cell(slots[i].key, slots[i].next)
  {
    seq(|slots|, i requires 0 <= i < |slots| => Cell(slots[i].key, slots[i].next))
  }

  ghost predicate SiTable(slots: seq<SiSlot>, tail: seq<seq<nat>>, at: map<Name, nat>) {
    && Placed(SiCells(slots), tail, at, SpMap.Home(|slots|))
    && (forall k | k in at :: at[k] < |slots| && slots[at[k]].key == Some(k) && slots[at[k]].hash == SpMap.Hash(k))
  }

  ghost function SiContents(slots: seq<SiSlot>, at: map<Name, nat>): map<Name, int>
    requires forall k | k in at :: at[k] < |slots|
  {
    map k | k in at :: slots[at[k]].id as int
  }

  predicate DistinctNames(table: seq<Kv<Name>>) {
    forall i, j | 0 <= i < j < |table| :: table[i].pointer != table[j].pointer
  }

  function ByName(table: seq<Kv<Name>>): map<Name, int> {
    if table == [] then map[]
    else ByName(table[..|table| - 1])[table[|table| - 1].pointer := table[|table| - 1].id]
  }

  lemma {:induction false} ByNameAt(table: seq<Kv<Name>>)
    requires DistinctNames(table)
    ensures forall i | 0 <= i < |table| ::
              table[i].pointer in ByName(table) && ByName(table)[table[i].pointer] == table[i].id
    ensures forall k :: k in ByName(table) ==> exists i :: 0 <= i < |table| && table[i].pointer == k
  {
    if table != [] {
      var n := |table| - 1;
      ByNameAt(table[..n]);
      assert forall i | 0 <= i < n :: table[..n][i] == table[i];
      forall k | k in ByName(table) ensures exists i :: 0 <= i < |table| && table[i].pointer == k {
        if k in ByName(table[..n]) {
          var i :| 0 <= i < n && table[..n][i].pointer == k;
          assert table[i].pointer == k;
        } else {
          assert table[n].pointer == k;
        }
      }
    }
  }

  lemma NewName(table: seq<Kv<Name>>, i: nat)
    requires DistinctNames(table) && i < |table|
    ensures table[i].pointer !in ByName(table[..i])
    ensures ByName(table[..i + 1]) == ByName(table[..i])[table[i].pointer := table[i].id]
  {
    ByNameAt(table[..i]);
    assert table[..i + 1][..i] == table[..i];
  }

  lemma SiPutHome(slots: seq<SiSlot>, tail: seq<seq<nat>>, at: map<Name, nat>, h: nat, kv: Kv<Name>)
    requires SiTable(slots, tail, at) && h < |slots| && h == SpMap.Home(|slots|)(kv.pointer)
    requires slots[h].key.None? && kv.pointer !in at
    ensures var slots' := slots[h := SiSlot(Some(kv.pointer), SpMap.Hash(kv.pointer), kv.id, slots[h].next)];
            SiTable(slots', tail[h := [h]], at[kv.pointer := h])
            && SiContents(slots', at[kv.pointer := h]) == SiContents(slots, at)[kv.pointer := kv.id]
            && Count(Links(SiCells(slots'))) == Count(Links(SiCells(slots))) + 1
  {
    hide Placed, SpMap.Hash, SpMap.Home;
    var slots' := slots[h := SiSlot(Some(kv.pointer), SpMap.Hash(kv.pointer), kv.id, slots[h].next)];
    PutHome(SiCells(slots), tail, at, SpMap.Home(|slots|), h, kv.pointer);
    assert forall k | k in at :: at[k] != h;
    assert SiCells(slots') == SiCells(slots)[h := Cell(Some(kv.pointer), 0)];
  }

  lemma SiPutBehind(slots: seq<SiSlot>, tail: seq<seq<nat>>, at: map<Name, nat>, h: nat, e: nat, kv: Kv<Name>)
    requires SiTable(slots, tail, at) && h < |slots| && h == SpMap.Home(|slots|)(kv.pointer) && e < |slots|
    requires slots[h].key.Some? && slots[e].key.None? && kv.pointer !in at
    ensures |tail| == |slots| && tail[h] != []
    ensures var one := slots[e := SiSlot(Some(kv.pointer), SpMap.Hash(kv.pointer), kv.id, slots[h].next)];
            var slots' := one[h := slots[h].(next := e + 1)];
            SiTable(slots', SplicedTail(tail, h, e), at[kv.pointer := e])
            && SiContents(slots', at[kv.pointer := e]) == SiContents(slots, at)[kv.pointer := kv.id]
            && Count(Links(SiCells(slots'))) == Count(Links(SiCells(slots))) + 1
  {
    hide Placed, SpMap.Hash, SpMap.Home, After;
    var one := slots[e := SiSlot(Some(kv.pointer), SpMap.Hash(kv.pointer), kv.id, slots[h].next)];
    var slots' := one[h := slots[h].(next := e + 1)];
    MeetsItself(SiCells(slots), tail, at, SpMap.Home(|slots|), h);
    PutLinked(SiCells(slots), tail, at, SpMap.Home(|slots|), h, e, kv.pointer);
    assert forall k | k in at :: at[k] != e;
    assert SiCells(slots') == Linked(SiCells(slots), h, e, kv.pointer);
  }

  class SiMap {
    const slot: array<SiSlot>
    ghost const tail: seq<seq<nat>>
    ghost const at: map<Name, nat>

    /** A chained table without a free slot. */
    ghost predicate Valid()
      reads this, slot
    {
      && slot.Length > 0
      && SiTable(slot[..], tail, at)
      && (forall i | 0 <= i < slot.Length :: slot[i].key.Some?)
    }

    ghost function View(): map<Name, int>
      requires Valid()
      reads this, slot
    {
      SiContents(slot[..], at)
    }

    /** `_pbcM_si_new` */
    constructor (table: seq<Kv<Name>>)
      requires table != [] && DistinctNames(table)
      ensures Valid() && View() == ByName(table)
    {
      var slots, t, a := SiFill(table);
      slot, tail, at := slots, t, a;
    }

    /** `_pbcM_si_query` */
    method Query(key: Name) returns (err: int, result: int)
      requires Valid()
      ensures if key in View() then err == 0 && result == View()[key] else err == 1
    {
      hide SpMap.Hash;
      var hashFull := SpMap.CalcHash(key);
      var i := hashFull % slot.Length;
      if key in at { FromHome(SiCells(slot[..]), tail, at, SpMap.Home(slot.Length), key); }
      Step(SiCells(slot[..]), tail, at, SpMap.Home(slot.Length), 0);
      while true
        invariant 0 <= i < slot.Length == |tail|
        invariant key in at ==> at[key] in tail[i]
        decreases |tail[i]|
      {
        Step(SiCells(slot[..]), tail, at, SpMap.Home(slot.Length), i);
        if slot[i].hash == hashFull && slot[i].key.value == key {
          return 0, slot[i].id;
        }
        if slot[i].next == 0 {
          return 1, 0;
        }
        i := slot[i].next - 1;
      }
    }
  }

  /** One round of the loop, as in `IpPlace`. */
  method SiPlace(slot: array<SiSlot>, ghost tail: seq<seq<nat>>, ghost at: map<Name, nat>, empty: nat, kv: Kv<Name>)
    returns (empty': nat, ghost tail': seq<seq<nat>>, ghost at': map<Name, nat>)
    requires SiTable(slot[..], tail, at) && |tail| == slot.Length && kv.pointer !in at
    requires Count(Links(SiCells(slot[..]))) < slot.Length
    requires empty <= slot.Length && forall k | 0 <= k < empty :: slot[k].key.Some?
    modifies slot
    ensures SiTable(slot[..], tail', at') && |tail'| == slot.Length
    ensures SiContents(slot[..], at') == old(SiContents(slot[..], at))[kv.pointer := kv.id]
    ensures Count(Links(SiCells(slot[..]))) == old(Count(Links(SiCells(slot[..])))) + 1
    ensures empty <= empty' <= slot.Length && forall k | 0 <= k < empty' :: slot[k].key.Some?
  {
    hide Placed, SpMap.Home, SpMap.Hash;
    ghost var was := slot[..];
    var hashFull := SpMap.CalcHash(kv.pointer);
    var hash := SiHash(kv.pointer, hashFull, slot.Length);
    empty' := empty;
    if slot[hash].key.None? {
      SiPutHome(was, tail, at, hash, kv);
      slot[hash] := SiSlot(Some(kv.pointer), hashFull, kv.id, slot[hash].next);
      tail', at' := tail[hash := [hash]], at[kv.pointer := hash];
    } else {
      ghost var free := CursorStops(Links(SiCells(was)), empty);
      while slot[empty'].key.Some?
        invariant empty <= empty' <= free
        invariant forall k | 0 <= k < empty' :: slot[k].key.Some?
        decreases free - empty'
      {
        empty' := empty' + 1;
      }
      SiPutBehind(was, tail, at, hash, empty', kv);
      slot[empty'] := SiSlot(Some(kv.pointer), hashFull, kv.id, slot[hash].next);
      slot[hash] := slot[hash].(next := empty' + 1);
      tail', at' := SplicedTail(tail, hash, empty'), at[kv.pointer := empty'];
      ghost var one := was[empty' := SiSlot(Some(kv.pointer), hashFull, kv.id, was[hash].next)];
      assert slot[..] == one[hash := was[hash].(next := empty' + 1)];
    }
  }

  /** The loop of `_pbcM_si_new`. */
  method SiFill(table: seq<Kv<Name>>) returns (slot: array<SiSlot>, ghost tail: seq<seq<nat>>, ghost at: map<Name, nat>)
    requires table != [] && DistinctNames(table)
    ensures fresh(slot) && slot.Length == |table|
    ensures SiTable(slot[..], tail, at) && SiContents(slot[..], at) == ByName(table)
    ensures forall i | 0 <= i < slot.Length :: slot[i].key.Some?
  {
    hide Placed, SpMap.Home, SpMap.Hash;
    var size := |table|;
    slot := new SiSlot[size](_ => SiSlot(None, 0, 0, 0));
    tail, at := seq(size, _ => []), map[];
    NonePlaced(SiCells(slot[..]), SpMap.Home(size));
    var empty, i := 0, 0;
    while i < size
      invariant 0 <= i <= size && slot.Length == size == |tail| && 0 <= empty <= size && fresh(slot)
      invariant SiTable(slot[..], tail, at) && SiContents(slot[..], at) == ByName(table[..i])
      invariant Count(Links(SiCells(slot[..]))) == i
      invariant forall k | 0 <= k < empty :: slot[k].key.Some?
    {
      NewName(table, i);
      empty, tail, at := SiPlace(slot, tail, at, empty, table[i]);
      i := i + 1;
    }
    assert table[..size] == table;
    FullTable(Links(SiCells(slot[..])));
    forall k | 0 <= k < size ensures slot[k].key.Some? { assert Links(SiCells(slot[..]))[k].used; }
  }

  method SiHash(name: Name, hashFull: nat, size: nat) returns (h: nat)
    requires size > 0 && hashFull == SpMap.Hash(name)
    ensures h == SpMap.Home(size)(name) && h < size
  {
    h := hashFull % size;
  }

  // ---- enums

  /** `struct _enum` */
  class Enum {
    const key: Name
    const id: IpMap<Name>
    const name: SiMap
    const defaultId: int
    const defaultName: Name

    ghost predicate Valid()
      reads this, id, id.dense, id.slot, name, name.slot
    {
      id.Valid() && name.Valid()
    }

    /** `_pbcP_push_enum`: both tables are built from the one list of values, whose first
        is the default. */
    constructor (key: Name, table: seq<Kv<Name>>)
      requires table != [] && DistinctIds(table) && DistinctNames(table)
      ensures Valid() && id.View() == ById(table) && name.View() == ByName(table)
      ensures this.key == key && defaultId == table[0].id && defaultName == table[0].pointer
      ensures forall n | n in name.View() :: name.View()[n] in id.View() && id.View()[name.View()[n]] == n
      ensures forall i | i in id.View() :: id.View()[i] in name.View() && name.View()[id.View()[i]] == i
    {
      this.key := key;
      var byId := IpNew(table);
      id := byId;
      name := new SiMap(table);
      defaultId, defaultName := table[0].id, table[0].pointer;
      TablesInverse(table);
    }

    /** Looking a name up and its id back gives the name again; any other name or id is
        rejected. */
    method NameThere(n: Name) returns (err: int, back: Option<Name>)
      requires Valid()
      requires forall n | n in name.View() :: -0x8000_0000 <= name.View()[n] < 0x8000_0000
      requires forall n | n in name.View() :: name.View()[n] in id.View() && id.View()[name.View()[n]] == n
      ensures if n in name.View() then err == 0 && back == Some(n) else err == 1 && back == None
    {
      var e, v := name.Query(n);
      err, back := e, None;
      if e == 0 { back := id.Query(v); }
    }
  }

  /** The two tables of an enum are inverse to each other. */
  lemma TablesInverse(table: seq<Kv<Name>>)
    requires DistinctIds(table) && DistinctNames(table)
    ensures forall n | n in ByName(table) :: ByName(table)[n] in ById(table) && ById(table)[ByName(table)[n]] == n
    ensures forall i | i in ById(table) :: ById(table)[i] in ByName(table) && ByName(table)[ById(table)[i]] == i
  {
    ByIdAt(table);
    ByNameAt(table);
  }
}
