/** What the callback decoder passes to its callback (ext/pbc/src/decode.c), argument by
    argument and with the constants of pbc.h written out. */
module Called {
  import opened Words
  import opened Wrappers
  import opened Proto
  import opened Decode
  import Context
  import Packed
  import RMessage
  import Varint

  /** The kind of a field without the repetition bit. */
  predicate KindOfType(t: Type, kind: nat) {
    match t
    case INT32 | SINT32 => kind == 1
    case DOUBLE | FLOAT => kind == 2
    case BOOL => kind == 3
    case ENUM => kind == 4
    case STRING => kind == 5
    case MESSAGE => kind == 6
    case FIXED64 | SFIXED64 => kind == 7
    case FIXED32 | SFIXED32 => kind == 8
    case BYTES => kind == 9
    case INT64 | SINT64 => kind == 10
    case UINT32 | UINT64 => kind == 11
    case GROUP => kind == 0
  }

  /** All arguments but the value: kind and repetition, type name, id and key of the field. */
  predicate Describes(f: Field, e: Event) {
    && KindOfType(f.ftype, e.kind % 128)
    && (e.kind >= 128 <==> f.flabel.REPEATED? || f.flabel.PACKED?) && e.kind < 256
    && (f.ftype.ENUM? || f.ftype.MESSAGE? ==> e.typeName == Some(f.typeName))
    && (!(f.ftype.ENUM? || f.ftype.MESSAGE?) ==> e.typeName == None)
    && e.id == f.id && e.key == Some(f.name)
  }

  lemma {:induction false} EventDescribes(f: Field, v: PbcValue)
    ensures Describes(f, EventOf(f, v)) && EventOf(f, v).value == v
  {
  }

  /** An enum value: the signed id, and its name if the enum has one for it. */
  predicate EnumPassed(env: Env, f: Field, low: word, v: PbcValue) {
    var id := if low < 0x8000_0000 then low as int else low - 0x1_0000_0000;
    && v.EnumValue? && v.id == id
    && (f.typeName in env.enums && id in env.enums[f.typeName].id ==> v.name == Some(env.enums[f.typeName].id[id]))
    && (!(f.typeName in env.enums && id in env.enums[f.typeName].id) ==> v.name == None)
  }

  /** The value of a record of an unpacked field, type by type: the 32-bit types lose their
      upper word. */
  predicate ValuePassed(env: Env, f: Field, a: Context.Atom, buffer: seq<byte>, v: PbcValue) {
    var low, hi := FromInt(a.first), FromInt(a.second);
    match f.ftype
    case INT64 | UINT64 | FIXED64 | SFIXED64 | DOUBLE => v == Num(Longlong(low, hi))
    case INT32 | UINT32 | BOOL | FIXED32 | SFIXED32 | FLOAT => v == Num(Longlong(low, 0))
    case SINT32 => v == Num(Varint.DeZigZag32(Longlong(low, hi)))
    case SINT64 => v == Num(Varint.DeZigZag64(Longlong(low, hi)))
    case ENUM => EnumPassed(env, f, low, v)
    case STRING | BYTES | MESSAGE => v == Slice(Context.SliceOf(buffer, a))
    case GROUP => false
  }

  /** An element of a packed payload. */
  predicate ElementPassed(env: Env, f: Field, n: Longlong, v: PbcValue) {
    if f.ftype.ENUM? then EnumPassed(env, f, n.low, v) else v == Num(n)
  }

  /** The calls of one accepted record. */
  predicate RecordCalls(env: Env, t: Message, buffer: seq<byte>, a: Context.Atom, es: seq<Event>) {
    if a.FieldId() !in t.id then
      && |es| == 1 && es[0].typeName == None && es[0].key == None && es[0].id == a.FieldId() == 0
      && var low, hi := FromInt(a.first), FromInt(a.second);
         (if a.wireId % 8 == 0 then es[0].kind == 1 && es[0].value == Num(Longlong(low, hi))
          else if a.wireId % 8 == 1 then es[0].kind == 7 && es[0].value == Num(Longlong(low, hi))
          else if a.wireId % 8 == 2 then es[0].kind == 9 && es[0].value == Slice(Context.SliceOf(buffer, a))
          else a.wireId % 8 == 5 && es[0].kind == 8 && es[0].value == Num(Longlong(low, 0)))
    else
      var f := t.id[a.FieldId()];
      && (forall k | 0 <= k < |es| :: Describes(f, es[k]))
      && if f.flabel.PACKED? then
           var vs := Packed.UnpackAtom(f.ftype, buffer, a).vs;
           |es| == |vs| && forall k | 0 <= k < |vs| :: ElementPassed(env, f, vs[k], es[k].value)
         else
           |es| == 1 && ValuePassed(env, f, a, buffer, es[0].value)
  }

  lemma {:induction false} RecordExactly(env: Env, t: Message, buffer: seq<byte>, a: Context.Atom)
    requires a.wireId % 8 in {0, 1, 2, 5} && AtomCalls(env, t, buffer, a).ok
    ensures RecordCalls(env, t, buffer, a, AtomCalls(env, t, buffer, a).events)
  {
    hide Packed.UnpackAtom, Varint.DeZigZag32, Varint.DeZigZag64;
    if a.FieldId() in t.id {
      var f := t.id[a.FieldId()];
      if f.flabel.PACKED? {
        ArrayExactly(env, f, Packed.UnpackAtom(f.ftype, buffer, a));
      } else {
        TypeExactly(env, f, a, buffer);
      }
    }
  }

  lemma {:induction false} TypeExactly(env: Env, f: Field, a: Context.Atom, buffer: seq<byte>)
    requires TypeCalls(env, f, a, buffer).ok
    ensures var es := TypeCalls(env, f, a, buffer).events;
            |es| == 1 && Describes(f, es[0]) && ValuePassed(env, f, a, buffer, es[0].value)
  {
    hide Varint.DeZigZag32, Varint.DeZigZag64, EventOf, Describes;
    EventDescribes(f, TypeCalls(env, f, a, buffer).events[0].value);
    forall v ensures Describes(f, EventOf(f, v)) && EventOf(f, v).value == v { EventDescribes(f, v); }
  }

  lemma {:induction false} ArrayExactly(env: Env, f: Field, u: Packed.Unpacked)
    ensures var es := ArrayCalls(env, f, u).events;
            && |es| == |u.vs|
            && forall k | 0 <= k < |es| :: Describes(f, es[k]) && ElementPassed(env, f, u.vs[k], es[k].value)
  {
    hide EventOf, Describes;
    forall v ensures Describes(f, EventOf(f, v)) && EventOf(f, v).value == v { EventDescribes(f, v); }
  }

  // ---- a whole run

  /** The calls of several records, in their order. */
  ghost predicate RunCalls(env: Env, t: Message, buffer: seq<byte>, atoms: seq<Context.Atom>, es: seq<Event>)
    decreases |atoms|
  {
    if atoms == [] then es == []
    else
      var n := |atoms| - 1;
      exists m: nat ::
        m <= |es| && RunCalls(env, t, buffer, atoms[..n], es[..m]) && RecordCalls(env, t, buffer, atoms[n], es[m..])
  }

  /** The calls made: those of the records before the first one refused, and then, if that is a
      packed one, those of its elements before the fault. */
  ghost predicate CallsMade(env: Env, t: Message, buffer: seq<byte>, atoms: seq<Context.Atom>, r: Run) {
    if r.ok then
      && r.n == |atoms| && RunCalls(env, t, buffer, atoms, r.events)
      && forall k | 0 <= k < |atoms| :: Accepted(t, buffer, atoms[k])
    else
      && r.n < |atoms| && !Accepted(t, buffer, atoms[r.n]) && (forall k | 0 <= k < r.n :: Accepted(t, buffer, atoms[k]))
      && exists m: nat ::
           m <= |r.events| && RunCalls(env, t, buffer, atoms[..r.n], r.events[..m])
             && Started(env, t, buffer, atoms[r.n], r.events[m..])
  }

  /** The calls of a record that is refused. */
  predicate Started(env: Env, t: Message, buffer: seq<byte>, a: Context.Atom, es: seq<Event>) {
    if a.FieldId() in t.id && t.id[a.FieldId()].flabel.PACKED? then
      var f := t.id[a.FieldId()];
      var vs := Packed.UnpackAtom(f.ftype, buffer, a).vs;
      |es| == |vs| && forall k | 0 <= k < |vs| :: Describes(f, es[k]) && ElementPassed(env, f, vs[k], es[k].value)
    else es == []
  }

  lemma {:induction false} RefusedStarts(env: Env, t: Message, buffer: seq<byte>, a: Context.Atom)
    requires !AtomCalls(env, t, buffer, a).ok
    ensures Started(env, t, buffer, a, AtomCalls(env, t, buffer, a).events)
  {
    hide Packed.UnpackAtom, Varint.DeZigZag32, Varint.DeZigZag64, EventOf, Describes, ElementPassed, ArrayCalls;
    if a.FieldId() in t.id && t.id[a.FieldId()].flabel.PACKED? {
      var f := t.id[a.FieldId()];
      ArrayExactly(env, f, Packed.UnpackAtom(f.ftype, buffer, a));
    }
  }

  lemma {:induction false} RunExactly(env: Env, t: Message, buffer: seq<byte>, n: nat)
    requires n <= |Context.Tokens(buffer, 0).atoms|
    ensures var atoms := Context.Tokens(buffer, 0).atoms[..n]; CallsMade(env, t, buffer, atoms,
            RunOf(env, t, buffer, atoms))
  {
    hide Context.Tokens, RunOf, AtomCalls, RecordCalls, Accepted, Started;
    var all := Context.Tokens(buffer, 0).atoms;
    RunNone(env, t, buffer, all);
    if n > 0 {
      var k := n - 1;
      RunExactly(env, t, buffer, k);
      RunStep(env, t, buffer, all, k);
      AtomExactly(env, t, buffer, k);
      Context.WireTypes(buffer, k);
      var atoms, before := all[..n], all[..k];
      assert atoms[..k] == before && atoms[k] == all[k];
      var r, c := RunOf(env, t, buffer, before), AtomCalls(env, t, buffer, all[k]);
      if r.ok {
        var es := r.events + c.events;
        assert es[..|r.events|] == r.events && es[|r.events|..] == c.events;
        if c.ok { RecordExactly(env, t, buffer, all[k]); } else { RefusedStarts(env, t, buffer, all[k]); }
      } else {
        assert atoms[..r.n] == before[..r.n] && atoms[r.n] == before[r.n];
      }
    }
  }

  /** `pbc_decode` on any buffer. */
  method DecodeAny(env: Env, typeName: Name, buffer: seq<byte>) returns (r: int, events: seq<Event>)
    requires typeName in env.msgs && forall i | i in env.msgs[typeName].id :: !env.msgs[typeName].id[i].ftype.GROUP?
    ensures var s := Context.Tokens(buffer, 0);
            && (!s.ok ==> r == -|s.atoms| - 1 && events == [])
            && (s.ok && r >= 0 ==> CallsMade(env, env.msgs[typeName], buffer, s.atoms, Run(events, true, r)))
            && (s.ok && r < 0 ==> CallsMade(env, env.msgs[typeName], buffer, s.atoms, Run(events, false, -r - 1)))
  {
    hide Context.Tokens, RunOf, RunCalls;
    ghost var s := Context.Tokens(buffer, 0);
    r, events := PbcDecode(env, typeName, buffer);
    RunExactly(env, env.msgs[typeName], buffer, |s.atoms|);
    assert s.atoms[..|s.atoms|] == s.atoms;
  }
}
