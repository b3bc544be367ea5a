/** What the message reader stores for arbitrary records (ext/pbc/src/rmessage.c): each field
    gets the values of its own records, whatever other records stand between them. */
module Gathered {
  import opened Words
  import opened Wrappers
  import opened Proto
  import opened RMessage
  import Context
  import Packed
  import Records
  import Varint

  /** f is a field of the type. */
  ghost predicate FieldOf(t: Message, f: Field) {
    t.InStep() && f.id in t.id && t.id[f.id] == f
  }

  // ---- one field at a time

  lemma {:induction false} OtherFields(env: Env, t: Message, buffer: seq<byte>, a: Context.Atom,
                                       m: map<Name, seq<Var>>, f: Field)
    requires FieldOf(t, f) && a.FieldId() != f.id
    ensures At(Add(env, t, buffer, a, m), f.name) == At(m, f.name)
  {
    hide AddPacked, ValueOf, Packed.UnpackAtom;
  }

  lemma {:induction false} SameField(env: Env, t: Message, buffer: seq<byte>, a: Context.Atom,
                                     m: map<Name, seq<Var>>, m': map<Name, seq<Var>>, f: Field)
    requires FieldOf(t, f) && a.FieldId() == f.id && At(m, f.name) == At(m', f.name)
    ensures At(Add(env, t, buffer, a, m), f.name) == At(Add(env, t, buffer, a, m'), f.name)
  {
    hide AddPacked, ValueOf, Packed.UnpackAtom;
    NothingAdded(env, f, At(m, f.name), Packed.UnpackAtom(f.ftype, buffer, a));
  }

  lemma {:induction false} NothingAdded(env: Env, f: Field, vs: seq<Var>, u: Packed.Unpacked)
    ensures |AddPacked(env, f, vs, u)| == |vs| + |u.vs|
  {
  }

  /** What is stored under a field's name are the values of its own records: records of other
      fields, known or not, make no difference. */
  lemma {:induction false} OwnRecords(env: Env, t: Message, buffer: seq<byte>, atoms: seq<Context.Atom>, f: Field)
    requires FieldOf(t, f)
    ensures At(Gather(env, t, buffer, atoms), f.name)
            == At(Gather(env, t, buffer, Records.RecordsOf(atoms, f.id)), f.name)
    decreases |atoms|
  {
    hide Gather, Add, FieldOf;
    if atoms != [] {
      var n := |atoms| - 1;
      var before, a := atoms[..n], atoms[n];
      assert atoms == before + [a] && atoms[..n + 1] == atoms;
      OwnRecords(env, t, buffer, before, f);
      GatherStep(env, t, buffer, atoms, n);
      Records.OneMore(before, a, f.id);
      var m := Gather(env, t, buffer, before);
      if a.FieldId() == f.id {
        var recs := Records.RecordsOf(before, f.id);
        GatherStep(env, t, buffer, recs + [a], |recs|);
        assert (recs + [a])[..|recs|] == recs && (recs + [a])[..|recs| + 1] == recs + [a];
        SameField(env, t, buffer, a, m, Gather(env, t, buffer, recs), f);
      } else {
        OtherFields(env, t, buffer, a, m, f);
      }
    }
  }

  /** A name that is stored is the name of a field that has a record. */
  lemma {:induction false} NamesOfFields(env: Env, t: Message, buffer: seq<byte>, atoms: seq<Context.Atom>, n: Name)
    requires n in Gather(env, t, buffer, atoms)
    ensures exists k :: 0 <= k < |atoms| && atoms[k].FieldId() in t.id && t.id[atoms[k].FieldId()].name == n
    decreases |atoms|
  {
    hide Gather, AddPacked, ValueOf, Packed.UnpackAtom;
    GatherStep(env, t, buffer, atoms, 0);
    if atoms != [] {
      var l := |atoms| - 1;
      GatherStep(env, t, buffer, atoms, l);
      assert atoms[..l + 1] == atoms;
      if n in Gather(env, t, buffer, atoms[..l]) {
        NamesOfFields(env, t, buffer, atoms[..l], n);
        var k :| 0 <= k < l && atoms[..l][k].FieldId() in t.id && t.id[atoms[..l][k].FieldId()].name == n;
        assert atoms[k] == atoms[..l][k];
      }
    }
  }

  // ---- what one record of an unpacked field stores

  /** A text as it is stored: with a terminator behind it, and in an array a copy is marked by a
      negative length. */
  predicate StoredText(bs: seq<byte>, element: bool, v: Var) {
    if bs != [] && bs[|bs| - 1] == 0 then v == Text(bs, |bs|)
    else v == Text(bs + [0], if element then -|bs| else |bs|)
  }

  /** The values (none or one) a record adds, type by type. */
  ghost predicate Stores(env: Env, f: Field, a: Context.Atom, buffer: seq<byte>, vs: seq<Var>) {
    var number := Longlong(FromInt(a.first), FromInt(a.second));
    var delimited := a.wireId % 8 == 2;
    match f.ftype
    case INT64 | UINT64 | INT32 | UINT32 | BOOL | FIXED32 | FIXED64 | SFIXED32 | SFIXED64 | DOUBLE | FLOAT => vs
      == [Num(number)]
    case SINT32 => vs == [Num(Varint.DeZigZag32(number))]
    case SINT64 => vs == [Num(Varint.DeZigZag64(number))]
    case ENUM => |vs| == 1 && NamedValue(env, f, number.low, vs[0])
    case STRING =>
      if delimited then |vs| == 1 && StoredText(Context.SliceOf(buffer, a), f.flabel.REPEATED?, vs[0]) else vs == []
    case BYTES =>
      if delimited then vs == [Text(Context.SliceOf(buffer, a), |Context.SliceOf(buffer, a)|)] else vs == []
    case MESSAGE =>
      if delimited && f.typeName in env.msgs then
        var sub := Read(env, env.msgs[f.typeName], Context.SliceOf(buffer, a));
        if sub.None? && f.flabel.REPEATED? then vs == [] else vs == [Sub(sub)]
      else vs == []
    case GROUP => vs == []
  }

  /** An enum value is the signed number, with its name if it has one. */
  predicate NamedValue(env: Env, f: Field, low: word, v: Var) {
    var id := if low < 0x8000_0000 then low as int else low - 0x1_0000_0000;
    && v.EnumVal? && v.id == id
    && (f.typeName in env.enums && id in env.enums[f.typeName].id ==> v.name == Some(env.enums[f.typeName].id[id]))
    && (!(f.typeName in env.enums && id in env.enums[f.typeName].id) ==> v.name == None)
  }

  lemma {:induction false} OneRecord(env: Env, t: Message, buffer: seq<byte>, a: Context.Atom,
                                     m: map<Name, seq<Var>>, f: Field)
    requires FieldOf(t, f) && a.FieldId() == f.id && !f.flabel.PACKED?
    requires InBounds(buffer, a) && (a.Delimited() ==> buffer != [])
    ensures exists vs ::
              Stores(env, f, a, buffer, vs) && At(Add(env, t, buffer, a, m), f.name) == At(m, f.name) + vs
  {
    hide Read, Varint.DeZigZag32, Varint.DeZigZag64;
    var v := ValueOf(env, f, a, buffer, f.flabel.REPEATED?);
    var vs := if v.Some? then [v.value] else [];
    assert Stores(env, f, a, buffer, vs);
    assert At(m, f.name) + [] == At(m, f.name);
  }

  // ---- what one packed record stores

  /** The values of the payload behind those that are there, and for an enum field the names
      on the first elements, as many as the payload has values. */
  predicate StoresPacked(env: Env, f: Field, was: seq<Var>, u: Packed.Unpacked, now: seq<Var>) {
    && |now| == |was| + |u.vs|
    && forall i | 0 <= i < |now| ::
         var v := if i < |was| then was[i] else Num(u.vs[i - |was|]);
         if f.ftype.ENUM? && i < u.n then
           match v
           case Num(n) => NamedValue(env, f, n.low, now[i])
           case EnumVal(id, _) => NamedValue(env, f, FromInt(id), now[i]) || !(-0x8000_0000 <= id < 0x8000_0000)
           case _ => now[i] == v
         else now[i] == v
  }

  lemma {:induction false} PackedRecord(env: Env, f: Field, was: seq<Var>, u: Packed.Unpacked)
    ensures StoresPacked(env, f, was, u, AddPacked(env, f, was, u))
  {
    var now := AddPacked(env, f, was, u);
    forall i | 0 <= i < |now| && f.ftype.ENUM? && i < u.n
      ensures var v := if i < |was| then was[i] else Num(u.vs[i - |was|]); now[i] == Named(env, f, v)
    {
    }
  }

  /** `pbc_rmessage_integer` of a field with one value, or with none. */
  lemma {:induction false} IntegerExactly(m: RMsg, key: Name, defaultLow: word, last: set<Name>)
    ensures At(m.index, key) == [] ==> Integer(m, key, defaultLow, last) == defaultLow
    ensures forall n | At(m.index, key) == [Num(n)] :: Integer(m, key, defaultLow, last) == n.low
    ensures forall id, name | At(m.index, key) == [EnumVal(id, name)] && -0x8000_0000 <= id < 0x8000_0000 ::
              Integer(m, key, defaultLow, last) == if id < 0 then id + 0x1_0000_0000 else id
    ensures forall n, k, ns | At(m.index, key) == [Num(n)] + ns + [Num(k)] ::
              Integer(m, key, defaultLow, last) == if key in last then k.low else n.low
  {
    forall n, k, ns | At(m.index, key) == [Num(n)] + ns + [Num(k)]
      ensures Integer(m, key, defaultLow, last) == if key in last then k.low else n.low
    {
      var vs := At(m.index, key);
      assert vs[0] == Num(n) && vs[|vs| - 1] == Num(k);
    }
  }

  // ---- a whole message

  function Flat(vss: seq<seq<Var>>): seq<Var> {
    if vss == [] then [] else Flat(vss[..|vss| - 1]) + vss[|vss| - 1]
  }

  /** vs are the values of the records of f, one record after the other. */
  ghost predicate InOrder(env: Env, f: Field, recs: seq<Context.Atom>, buffer: seq<byte>, vs: seq<Var>) {
    exists vss :: |vss| == |recs| && vs == Flat(vss) && forall k | 0 <= k < |recs| ::
      Stores(env, f, recs[k], buffer, vss[k])
  }

  lemma {:induction false} OneLonger(env: Env, f: Field, recs: seq<Context.Atom>, a: Context.Atom, buffer: seq<byte>,
                                     was: seq<Var>, vs: seq<Var>)
    requires InOrder(env, f, recs, buffer, was) && Stores(env, f, a, buffer, vs)
    ensures InOrder(env, f, recs + [a], buffer, was + vs)
  {
    hide Stores;
    var vss :| |vss| == |recs| && was == Flat(vss) && forall k | 0 <= k < |recs| ::
      Stores(env, f, recs[k], buffer, vss[k]);
    var longer := vss + [vs];
    assert longer[..|vss|] == vss;
    assert Flat(longer) == was + vs;
  }

  lemma {:induction false} StoredInOrder(env: Env, t: Message, buffer: seq<byte>, recs: seq<Context.Atom>, f: Field)
    requires FieldOf(t, f) && !f.flabel.PACKED?
    requires forall a | a in recs :: a.FieldId() == f.id && InBounds(buffer, a) && (a.Delimited() ==> buffer != [])
    ensures InOrder(env, f, recs, buffer, At(Gather(env, t, buffer, recs), f.name))
    decreases |recs|
  {
    hide Gather, Add, FieldOf, Stores, InBounds, InOrder;
    GatherStep(env, t, buffer, recs, 0);
    if recs == [] {
      NothingInOrder(env, f, buffer);
    } else {
      var n := |recs| - 1;
      var before, a := recs[..n], recs[n];
      assert recs == before + [a] && recs[..n + 1] == recs && a in recs;
      StoredInOrder(env, t, buffer, before, f);
      GatherStep(env, t, buffer, recs, n);
      var m := Gather(env, t, buffer, before);
      OneRecord(env, t, buffer, a, m, f);
      var vs :| Stores(env, f, a, buffer, vs) && At(Add(env, t, buffer, a, m), f.name) == At(m, f.name) + vs;
      OneLonger(env, f, before, a, buffer, At(m, f.name), vs);
    }
  }

  lemma {:induction false} NothingInOrder(env: Env, f: Field, buffer: seq<byte>)
    ensures InOrder(env, f, [], buffer, [])
  {
    assert Flat([]) == [];
  }

  lemma {:induction false} OwnInBounds(buffer: seq<byte>, atoms: seq<Context.Atom>, id: int)
    requires forall a | a in atoms :: InBounds(buffer, a)
    ensures forall a | a in Records.RecordsOf(atoms, id) :: a.FieldId() == id && a in atoms
    decreases |atoms|
  {
    hide InBounds;
    if atoms != [] {
      OwnInBounds(buffer, atoms[..|atoms| - 1], id);
    }
  }

  /** vs is what the packed records of f leave, one payload behind the other. */
  ghost predicate PackedInOrder(env: Env, f: Field, recs: seq<Context.Atom>, buffer: seq<byte>, vs: seq<Var>)
    decreases |recs|
  {
    if recs == [] then vs == []
    else
      var n := |recs| - 1;
      exists was :: PackedInOrder(env, f, recs[..n], buffer, was)
                    && StoresPacked(env, f, was, Packed.UnpackAtom(f.ftype, buffer, recs[n]), vs)
  }

  lemma {:induction false} StoredPacked(env: Env, t: Message, buffer: seq<byte>, recs: seq<Context.Atom>, f: Field)
    requires FieldOf(t, f) && f.flabel.PACKED? && forall a | a in recs :: a.FieldId() == f.id
    ensures PackedInOrder(env, f, recs, buffer, At(Gather(env, t, buffer, recs), f.name))
    decreases |recs|
  {
    hide Gather, StoresPacked, Packed.UnpackAtom, AddPacked;
    GatherStep(env, t, buffer, recs, 0);
    if recs != [] {
      var n := |recs| - 1;
      var before, a := recs[..n], recs[n];
      assert recs[..n + 1] == recs && a in recs;
      StoredPacked(env, t, buffer, before, f);
      GatherStep(env, t, buffer, recs, n);
      var was := At(Gather(env, t, buffer, before), f.name);
      PackedRecord(env, f, was, Packed.UnpackAtom(f.ftype, buffer, a));
      NothingAdded(env, f, was, Packed.UnpackAtom(f.ftype, buffer, a));
    }
  }

  /** What a message holds after any buffer was read: under the name of each field the values of
      its records, in order, and nothing under any other name. */
  ghost predicate Holds(env: Env, t: Message, buffer: seq<byte>, atoms: seq<Context.Atom>, index: map<Name, seq<Var>>) {
    && (forall i | i in t.id && !t.id[i].flabel.PACKED? ::
          InOrder(env, t.id[i], Records.RecordsOf(atoms, i), buffer, At(index, t.id[i].name)))
    && (forall i | i in t.id && t.id[i].flabel.PACKED? ::
          PackedInOrder(env, t.id[i], Records.RecordsOf(atoms, i), buffer, At(index, t.id[i].name)))
    && (forall n | n in index :: exists k ::
         0 <= k < |atoms| && atoms[k].FieldId() in t.id && t.id[atoms[k].FieldId()].name == n)
  }

  lemma {:induction false} GatherHolds(env: Env, t: Message, buffer: seq<byte>)
    requires t.InStep() && buffer != [] && Context.Tokens(buffer, 0).ok
    ensures var atoms := Context.Tokens(buffer, 0).atoms; Holds(env, t, buffer, atoms, Gather(env, t, buffer, atoms))
  {
    hide Gather, Context.Tokens, InOrder, PackedInOrder, InBounds, Records.RecordsOf;
    var atoms := Context.Tokens(buffer, 0).atoms;
    var index := Gather(env, t, buffer, atoms);
    forall a | a in atoms ensures InBounds(buffer, a) {
      var k :| 0 <= k < |atoms| && atoms[k] == a;
      AtomInBounds(buffer, k);
    }
    forall i | i in t.id && !t.id[i].flabel.PACKED?
      ensures InOrder(env, t.id[i], Records.RecordsOf(atoms, i), buffer, At(index, t.id[i].name))
    {
      var f, recs := t.id[i], Records.RecordsOf(atoms, i);
      OwnInBounds(buffer, atoms, i);
      OwnRecords(env, t, buffer, atoms, f);
      StoredInOrder(env, t, buffer, recs, f);
    }
    forall i | i in t.id && t.id[i].flabel.PACKED?
      ensures PackedInOrder(env, t.id[i], Records.RecordsOf(atoms, i), buffer, At(index, t.id[i].name))
    {
      OwnInBounds(buffer, atoms, i);
      OwnRecords(env, t, buffer, atoms, t.id[i]);
      StoredPacked(env, t, buffer, Records.RecordsOf(atoms, i), t.id[i]);
    }
    forall n | n in index
      ensures exists k :: 0 <= k < |atoms| && atoms[k].FieldId() in t.id && t.id[atoms[k].FieldId()].name == n
    {
      NamesOfFields(env, t, buffer, atoms, n);
    }
  }

  /** `pbc_rmessage_new` on any buffer. */
  method ReadAny(env: Env, typeName: Name, buffer: seq<byte>) returns (r: Option<RMsg>)
    requires env.Closed() && typeName in env.msgs
    ensures r.None? <==> buffer != [] && !Context.Tokens(buffer, 0).ok
    ensures r.Some? && buffer == [] ==> r.value.index == map[]
    ensures r.Some? && buffer != [] ==>
              Holds(env, env.msgs[typeName], buffer, Context.Tokens(buffer, 0).atoms, r.value.index)
  {
    hide Gather, Context.Tokens, Holds, Read;
    var t := env.msgs[typeName];
    r := New(env, t, buffer);
    ReadIs(env, t, buffer);
    if buffer != [] && Context.Tokens(buffer, 0).ok { GatherHolds(env, t, buffer); }
  }
}
