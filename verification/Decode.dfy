/** The callback decoder (ext/pbc/src/decode.c), and its agreement with the message reader. */
module Decode {
  import opened Words
  import opened Wrappers
  import opened Proto
  import Context
  import Packed
  import RMessage
  import Varint

  /** `union pbc_value`; a real is its bits, a slice the bytes it points to. */
  datatype PbcValue = Num(v: Longlong) | Slice(bs: seq<byte>) | EnumValue(id: int, name: Option<Name>)

  /** One call of the callback. The type name passed is the key of the field's message or
      enum, or else (None) the built-in name of the kind. */
  datatype Event = Event(kind: nat, typeName: Option<Name>, value: PbcValue, id: int, key: Option<Name>)

  /** `_pbcP_type` without the repetition bit: the PBC_ constants. */
  function Kind(t: Type): nat {
    match t
    case DOUBLE | FLOAT => 2
    case INT64 | SINT64 => 10
    case INT32 | SINT32 => 1
    case UINT32 | UINT64 => 11
    case FIXED32 | SFIXED32 => 8
    case FIXED64 | SFIXED64 => 7
    case BOOL => 3
    case STRING => 5
    case BYTES => 9
    case ENUM => 4
    case MESSAGE => 6
    case GROUP => 0
  }

  const PBC_REPEATED := 128

  function EventOf(f: Field, v: PbcValue): Event {
    Event(Kind(f.ftype) + (if f.flabel.REPEATED? || f.flabel.PACKED? then PBC_REPEATED else 0),
          if f.ftype.ENUM? || f.ftype.MESSAGE? then Some(f.typeName) else None, v, f.id, Some(f.name))
  }

  // ---- what one record makes the decoder call

  /** Types whose upper word is dropped. */
  predicate Narrow(t: Type) {
    t in {INT32, UINT32, BOOL, FIXED32, SFIXED32, FLOAT}
  }

  function Narrowed(t: Type, v: Longlong): Longlong {
    if Narrow(t) then Longlong(v.low, 0) else v
  }

  /** The calls made and whether the record was accepted. */
  datatype Calls = Calls(events: seq<Event>, ok: bool)

  /** `call_unknown`: its switch compares the whole tag with the wire types, so only records
      of field id 0 reach a case. */
  function UnknownCalls(a: Context.Atom, buffer: seq<byte>): Calls {
    if a.wireId == Context.WT_VARINT then Calls([Event(1, None, Num(a.Number()), a.FieldId(), None)], true)
    else if a.wireId == Context.WT_BIT64 then Calls([Event(7, None, Num(a.Number()), a.FieldId(), None)], true)
    else if a.wireId == Context.WT_LEND
      then Calls([Event(9, None, Slice(Context.SliceOf(buffer, a)), a.FieldId(), None)], true)
    else if a.wireId == Context.WT_BIT32
      then Calls([Event(8, None, Num(Longlong(a.Number().low, 0)), a.FieldId(), None)], true)
    else Calls([], false)
  }

  /** `call_type` */
  function TypeCalls(env: Env, f: Field, a: Context.Atom, buffer: seq<byte>): Calls {
    match f.ftype
    case STRING | BYTES | MESSAGE =>
      if a.Delimited() then Calls([EventOf(f, Slice(Context.SliceOf(buffer, a)))], true) else Calls([], false)
    case ENUM => Calls([EventOf(f, EnumValue(ToInt32(a.Number().low), env.EnumName(f, a.Number().low)))], true)
    case SINT32 => Calls([EventOf(f, Num(Varint.DeZigZag32(a.Number())))], true)
    case SINT64 => Calls([EventOf(f, Num(Varint.DeZigZag64(a.Number())))], true)
    case GROUP => Calls([], false)
    case _ => Calls([EventOf(f, Num(Narrowed(f.ftype, a.Number())))], true)
  }

  function ElementEvent(env: Env, f: Field, v: Longlong): Event {
    EventOf(f, if f.ftype.ENUM? then EnumValue(ToInt32(v.low), env.EnumName(f, v.low)) else Num(v))
  }

  function ElementEvents(env: Env, f: Field, vs: seq<Longlong>): (es: seq<Event>)
    ensures |es| == |vs|
  {
    seq(|vs|, i requires 0 <= i < |vs| => ElementEvent(env, f, vs[i]))
  }

  /** `call_array`: a malformed payload is reported after the elements before the fault. */
  function ArrayCalls(env: Env, f: Field, u: Packed.Unpacked): Calls {
    Calls(ElementEvents(env, f, u.vs), u.n >= 0)
  }

  function AtomCalls(env: Env, t: Message, buffer: seq<byte>, a: Context.Atom): Calls {
    if a.FieldId() !in t.id then UnknownCalls(a, buffer)
    else
      var f := t.id[a.FieldId()];
      if f.flabel.PACKED? then ArrayCalls(env, f, Packed.UnpackAtom(f.ftype, buffer, a))
      else TypeCalls(env, f, a, buffer)
  }

  /** The whole run: the calls made, whether every record was accepted, and how many were. */
  datatype Run = Run(events: seq<Event>, ok: bool, n: nat)

  function RunOf(env: Env, t: Message, buffer: seq<byte>, atoms: seq<Context.Atom>): Run
    decreases |atoms|
  {
    if atoms == [] then Run([], true, 0)
    else
      var r := RunOf(env, t, buffer, atoms[..|atoms| - 1]);
      if !r.ok then r
      else
        var c := AtomCalls(env, t, buffer, atoms[|atoms| - 1]);
        Run(r.events + c.events, c.ok, if c.ok then r.n + 1 else r.n)
  }

  // ---- the code; the callback's effect is the list of calls

  method CallArray(env: Env, f: Field, buffer: seq<byte>) returns (n: int, events: seq<Event>)
    requires !f.ftype.GROUP?
    ensures n == Packed.Unpack(f.ftype, buffer).n
            && Calls(events, n >= 0) == ArrayCalls(env, f, Packed.Unpack(f.ftype, buffer))
  {
    hide OfLe32, ElementEvent, Packed.Fixed, Packed.Varints;
    NoElements(env, f);
    match Packed.WidthOf(f.ftype)
    case Fixed8 =>
      if |buffer| % 8 != 0 { return -1, []; }
      events := CallFixed(env, f, buffer, 8);
      n := |buffer| / 8;
    case Fixed4 =>
      if |buffer| % 4 != 0 { return -1, []; }
      events := CallFixed(env, f, buffer, 4);
      n := |buffer| / 4;
    case Varying =>
      n, events := CallVarints(env, f, buffer);
    case Unpackable =>
      return -1, [];
  }

  lemma NoElements(env: Env, f: Field)
    ensures ElementEvents(env, f, []) == []
  {
  }

  lemma OneElement(env: Env, f: Field, v: Longlong, vs: seq<Longlong>)
    ensures ElementEvents(env, f, [v] + vs) == [ElementEvent(env, f, v)] + ElementEvents(env, f, vs)
  {
    hide ElementEvent;
  }

  method CallFixed(env: Env, f: Field, buffer: seq<byte>, width: nat) returns (events: seq<Event>)
    requires (width == 4 || width == 8) && |buffer| % width == 0
    ensures events == ElementEvents(env, f, Packed.Fixed(width, buffer))
  {
    hide OfLe32, ElementEvents, ElementEvent, Packed.Fixed;
    events := [];
    ghost var all := ElementEvents(env, f, Packed.Fixed(width, buffer));
    var i := 0;
    NoElements(env, f);
    assert buffer[0..] == buffer;
    while i < |buffer|
      invariant 0 <= i <= |buffer| && (|buffer| - i) % width == 0
      invariant all == events + ElementEvents(env, f, Packed.Fixed(width, buffer[i..]))
    {
      assert buffer[i..][width..] == buffer[i + width..];
      Packed.WidthLeft(|buffer| - i, width);
      Packed.FirstFixed(width, buffer[i..]);
      var v := Longlong(OfLe32(buffer[i..]), if width == 8 then OfLe32(buffer[i..][4..]) else 0);
      OneElement(env, f, v, Packed.Fixed(width, buffer[i + width..]));
      events := events + [ElementEvent(env, f, v)];
      i := i + width;
    }
    Packed.FirstFixed(width, buffer[i..]);
  }

  method CallVarints(env: Env, f: Field, buffer: seq<byte>) returns (n: int, events: seq<Event>)
    ensures n == Packed.Varints(f.ftype, buffer).n
    ensures events == ElementEvents(env, f, Packed.Varints(f.ftype, buffer).vs)
  {
    hide Packed.Undo, Varint.Read, ElementEvents;
    ghost var all := Packed.Varints(f.ftype, buffer);
    var rest := buffer;
    events, n := [], 0;
    NoElements(env, f);
    while rest != []
      invariant n >= 0 && |rest| <= |buffer|
      invariant ElementEvents(env, f, all.vs) == events + ElementEvents(env, f, Packed.Varints(f.ftype, rest).vs)
      invariant all.n == if Packed.Varints(f.ftype, rest).n < 0 then -1 else n + Packed.Varints(f.ftype, rest).n
      decreases |rest|
    {
      var len, v := Context.ReadTail(rest);
      if len > |rest| {
        return -1, events;
      }
      var w := Packed.Undo(f.ftype, v);
      OneElement(env, f, w, Packed.Varints(f.ftype, rest[len..]).vs);
      events := events + [ElementEvent(env, f, w)];
      rest := rest[len..];
      n := n + 1;
    }
  }

  /** The call of `call_array` on the bytes of a record. */
  method CallSlice(env: Env, f: Field, buffer: seq<byte>, a: Context.Atom) returns (n: int, events: seq<Event>)
    requires !f.ftype.GROUP?
    ensures Calls(events, n >= 0) == ArrayCalls(env, f, Packed.UnpackAtom(f.ftype, buffer, a))
  {
    hide Packed.Unpack, ElementEvents;
    if a.first <= a.second <= |buffer| {
      n, events := CallArray(env, f, buffer[a.first..a.second]);
    } else {
      NoElements(env, f);
      n, events := if Packed.SizeOf(a) <= 0 then Packed.NoBytes(f.ftype, Packed.SizeOf(a)).n else -1, [];
    }
  }

  /** `pbc_decode`: the number of records on success. A buffer the tokeniser rejects gives
      minus the records read before the fault, less one, and no calls; a record that is
      refused gives minus its position, less one, after the calls of those before it. */
  method PbcDecode(env: Env, typeName: Name, buffer: seq<byte>) returns (r: int, events: seq<Event>)
    requires typeName in env.msgs ==> forall i | i in env.msgs[typeName].id :: !env.msgs[typeName].id[i].ftype.GROUP?
    ensures typeName !in env.msgs ==> r == -1 && events == []
    ensures typeName in env.msgs ==>
              var s := Context.Tokens(buffer, 0);
              if !s.ok then r == -|s.atoms| - 1 && events == []
              else
                var run := RunOf(env, env.msgs[typeName], buffer, s.atoms);
                events == run.events && r == if run.ok then |s.atoms| else -(run.n as int) - 1
  {
    hide Context.Tokens, AtomCalls, RunOf;
    if typeName !in env.msgs {
      return -1, [];
    }
    var t := env.msgs[typeName];
    ghost var s := Context.Tokens(buffer, 0);
    RunNone(env, t, buffer, s.atoms);
    if buffer == [] {
      return 0, [];
    }
    var ctx := new Context.Ctx();
    var count := ctx.Open(buffer);
    if count <= 0 {
      RMessage.ReadIs(env, t, buffer);
      return count - 1, [];
    }
    events := [];
    var i := 0;
    while i < ctx.number
      invariant 0 <= i <= ctx.number == |s.atoms| && s.ok && ctx.a != null && ctx.number <= ctx.a.Length
      invariant ctx.a[..ctx.number] == s.atoms
      invariant RunOf(env, t, buffer, s.atoms[..i]) == Run(events, true, i)
    {
      assert ctx.a[i] == ctx.a[..ctx.number][i] == s.atoms[i];
      RMessage.AtomInBounds(buffer, i);
      RunStep(env, t, buffer, s.atoms, i);
      var ok, calls := CallAtom(env, t, buffer, ctx.a[i]);
      events := events + calls;
      if !ok {
        RunStopped(env, t, buffer, s.atoms, i + 1, |s.atoms|);
        assert s.atoms[..|s.atoms|] == s.atoms;
        return -(i as int) - 1, events;
      }
      i := i + 1;
    }
    assert s.atoms[..i] == s.atoms;
    return ctx.number, events;
  }

  /** The body of the loop. */
  method CallAtom(env: Env, t: Message, buffer: seq<byte>, a: Context.Atom) returns (ok: bool, events: seq<Event>)
    requires RMessage.InBounds(buffer, a) && forall i | i in t.id :: !t.id[i].ftype.GROUP?
    ensures Calls(events, ok) == AtomCalls(env, t, buffer, a)
  {
    hide ArrayCalls, UnknownCalls, TypeCalls, Packed.Unpack;
    var id := a.FieldId();
    if id !in t.id {
      var c := UnknownCalls(a, buffer);
      return c.ok, c.events;
    }
    var f := t.id[id];
    if f.flabel.PACKED? {
      var n, calls := CallSlice(env, f, buffer, a);
      return n >= 0, calls;
    }
    var c := TypeCalls(env, f, a, buffer);
    return c.ok, c.events;
  }

  lemma RunNone(env: Env, t: Message, buffer: seq<byte>, atoms: seq<Context.Atom>)
    ensures RunOf(env, t, buffer, []) == Run([], true, 0) && atoms[..0] == []
    ensures buffer == [] ==> Context.Tokens(buffer, 0) == Context.Scan([], true)
  {
  }

  lemma RunStep(env: Env, t: Message, buffer: seq<byte>, atoms: seq<Context.Atom>, i: nat)
    requires i < |atoms|
    ensures var r, c := RunOf(env, t, buffer, atoms[..i]), AtomCalls(env, t, buffer, atoms[i]);
            RunOf(env, t, buffer, atoms[..i + 1]) ==
              if r.ok then Run(r.events + c.events, c.ok, if c.ok then r.n + 1 else r.n) else r
  {
    hide AtomCalls;
    assert atoms[..i + 1][..i] == atoms[..i];
  }

  lemma {:induction false} RunStopped(env: Env, t: Message, buffer: seq<byte>, atoms: seq<Context.Atom>, i: nat, j: nat)
    requires i <= j <= |atoms| && !RunOf(env, t, buffer, atoms[..i]).ok
    ensures RunOf(env, t, buffer, atoms[..j]) == RunOf(env, t, buffer, atoms[..i])
  {
    hide AtomCalls, RunOf;
    if i < j {
      RunStopped(env, t, buffer, atoms, i, j - 1);
      RunStep(env, t, buffer, atoms, j - 1);
    }
  }

  // ---- which records are accepted

  /** A record of an unknown field is accepted if and only if its field id is 0. */
  lemma UnknownExactly(buffer: seq<byte>)
    ensures forall a | a in Context.Tokens(buffer, 0).atoms :: UnknownCalls(a, buffer).ok <==> a.FieldId() == 0
  {
    hide Context.Tokens;
    var atoms := Context.Tokens(buffer, 0).atoms;
    forall a | a in atoms ensures UnknownCalls(a, buffer).ok <==> a.FieldId() == 0 {
      var k :| 0 <= k < |atoms| && atoms[k] == a;
      Context.WireTypes(buffer, k);
    }
  }

  /** One record of a type that does not know field 1: the scan accepts it, and the decoder
      refuses it without a call. */
  lemma UnknownRefused(env: Env, t: Message)
    requires 1 !in t.id
    ensures var buffer := [0x08, 0x00];
            && Context.Tokens(buffer, 0) == Context.Scan([Context.Atom(8, 0, 0)], true)
            && RunOf(env, t, buffer, Context.Tokens(buffer, 0).atoms) == Run([], false, 0)
  {
    var one := Context.Rec(8, Context.VarintBody(0));
    var buffer: seq<byte> := [0x08, 0x00];
    assert Varint.Bytes(8) == [8] && Varint.Bytes(0) == [0];
    assert [one][1..] == [];
    assert Context.Serialise([one]) == one.Bytes() + Context.Serialise([]) == buffer;
    assert one.AtomAt(0) == Context.Atom(8, 0, 0) by { Varint.SeenExact(0); }
    assert Context.AtomsAt([one], 0) == [Context.Atom(8, 0, 0)];
    Context.TokensOfRecords([one], 0);
    var atoms := [Context.Atom(8, 0, 0)];
    RunNone(env, t, buffer, atoms);
    RunStep(env, t, buffer, atoms, 0);
    assert atoms[..1] == atoms;
  }

  /** What a caller can see of a record before it is decoded. */
  predicate Accepted(t: Message, buffer: seq<byte>, a: Context.Atom) {
    if a.FieldId() !in t.id then a.FieldId() == 0
    else
      var f := t.id[a.FieldId()];
      if f.flabel.PACKED? then Packed.UnpackAtom(f.ftype, buffer, a).n >= 0
      else !f.ftype.GROUP? && (f.ftype in {STRING, BYTES, MESSAGE} ==> a.Delimited())
  }

  lemma AtomExactly(env: Env, t: Message, buffer: seq<byte>, k: nat)
    requires k < |Context.Tokens(buffer, 0).atoms|
    ensures var a := Context.Tokens(buffer, 0).atoms[k];
            AtomCalls(env, t, buffer, a).ok <==> Accepted(t, buffer, a)
  {
    hide Context.Tokens, UnknownCalls, Packed.Unpack, Varint.DeZigZag32, Varint.DeZigZag64, Context.SliceOf;
    UnknownExactly(buffer);
    assert Context.Tokens(buffer, 0).atoms[k] in Context.Tokens(buffer, 0).atoms;
  }

  /** The decoder succeeds if and only if it can accept every record. */
  lemma RunExactly(env: Env, t: Message, buffer: seq<byte>)
    ensures var atoms := Context.Tokens(buffer, 0).atoms;
            RunOf(env, t, buffer, atoms).ok <==> forall a | a in atoms :: Accepted(t, buffer, a)
  {
    hide Context.Tokens, RunOf, Accepted;
    var atoms := Context.Tokens(buffer, 0).atoms;
    PrefixExactly(env, t, buffer, |atoms|);
    assert atoms[..|atoms|] == atoms;
  }

  lemma {:induction false} PrefixExactly(env: Env, t: Message, buffer: seq<byte>, n: nat)
    requires n <= |Context.Tokens(buffer, 0).atoms|
    ensures var atoms := Context.Tokens(buffer, 0).atoms[..n];
            RunOf(env, t, buffer, atoms).ok <==> forall a | a in atoms :: Accepted(t, buffer, a)
  {
    hide Context.Tokens, RunOf, AtomCalls, Accepted;
    var atoms := Context.Tokens(buffer, 0).atoms;
    RunNone(env, t, buffer, atoms);
    if n > 0 {
      PrefixExactly(env, t, buffer, n - 1);
      RunStep(env, t, buffer, atoms, n - 1);
      AtomExactly(env, t, buffer, n - 1);
      assert atoms[..n] == atoms[..n - 1] + [atoms[n - 1]];
      assert forall a | a in atoms[..n] :: a in atoms[..n - 1] || a == atoms[n - 1];
    }
  }

  // ---- the two decoders

  /** What the message reader stores for the value of a call: strings with a terminator,
      sub-messages decoded. A sub-message that cannot be decoded is no element of a
      repeated field. */
  function VarOf(env: Env, f: Field, v: PbcValue): Option<RMessage.Var> {
    match v
    case Num(n) => Some(RMessage.Num(Narrowed(f.ftype, n)))
    case EnumValue(id, name) => Some(RMessage.EnumVal(id, name))
    case Slice(bs) =>
      if f.ftype.STRING? then Some(RMessage.TextOf(bs, f.flabel.REPEATED?))
      else if f.ftype.MESSAGE? && f.typeName in env.msgs then
        var sub := RMessage.Read(env, env.msgs[f.typeName], bs);
        if f.flabel.REPEATED? && sub.None? then None else Some(RMessage.Sub(sub))
      else Some(RMessage.Text(bs, |bs|))
  }

  function ToSeq(v: Option<RMessage.Var>): seq<RMessage.Var> {
    if v.Some? then [v.value] else []
  }

  /** The values of the calls made for field f, in order. */
  function VarsOf(env: Env, f: Field, events: seq<Event>): seq<RMessage.Var> {
    if events == [] then []
    else
      var first := if events[0].key == Some(f.name) then ToSeq(VarOf(env, f, events[0].value)) else [];
      first + VarsOf(env, f, events[1..])
  }

  /** A stored value, with the upper word of a 32-bit type left out of account. */
  function NormOne(t: Type, v: RMessage.Var): RMessage.Var {
    if v.Num? then RMessage.Num(Narrowed(t, v.v)) else v
  }

  function Norm(t: Type, vs: seq<RMessage.Var>): (ws: seq<RMessage.Var>)
    ensures |ws| == |vs| && forall i | 0 <= i < |vs| :: ws[i] == NormOne(t, vs[i])
  {
    seq(|vs|, i requires 0 <= i < |vs| => NormOne(t, vs[i]))
  }

  lemma {:induction false} VarsSplit(env: Env, f: Field, a: seq<Event>, b: seq<Event>)
    ensures VarsOf(env, f, a + b) == VarsOf(env, f, a) + VarsOf(env, f, b)
  {
    hide VarOf;
    if a == [] {
      assert a + b == b;
    } else {
      assert (a + b)[1..] == a[1..] + b;
      VarsSplit(env, f, a[1..], b);
    }
  }

  lemma {:induction false} VarsOthers(env: Env, f: Field, es: seq<Event>)
    requires forall e | e in es :: e.key != Some(f.name)
    ensures VarsOf(env, f, es) == []
  {
    hide VarOf;
    if es != [] { VarsOthers(env, f, es[1..]); }
  }

  lemma VarsOne(env: Env, f: Field, v: PbcValue)
    ensures VarsOf(env, f, [EventOf(f, v)]) == ToSeq(VarOf(env, f, v))
  {
    hide VarOf;
    assert [EventOf(f, v)][1..] == [];
  }

  /** The values a packed payload's calls stand for. */
  function ElementVars(env: Env, f: Field, vs: seq<Longlong>): seq<RMessage.Var> {
    seq(|vs|, i requires 0 <= i < |vs| =>
      if f.ftype.ENUM? then RMessage.EnumVal(ToInt32(vs[i].low), env.EnumName(f, vs[i].low))
        else RMessage.Num(Narrowed(f.ftype, vs[i])))
  }

  lemma {:induction false} VarsElements(env: Env, f: Field, vs: seq<Longlong>)
    ensures VarsOf(env, f, ElementEvents(env, f, vs)) == ElementVars(env, f, vs)
  {
    if vs == [] {
      NoElements(env, f);
    } else {
      hide ElementEvents, VarsOf;
      assert vs == [vs[0]] + vs[1..];
      OneElement(env, f, vs[0], vs[1..]);
      VarsSplit(env, f, [ElementEvent(env, f, vs[0])], ElementEvents(env, f, vs[1..]));
      VarsOne(env, f, ElementEvent(env, f, vs[0]).value);
      VarsElements(env, f, vs[1..]);
      assert ElementVars(env, f, vs) == ElementVars(env, f, [vs[0]]) + ElementVars(env, f, vs[1..]);
    }
  }

  /** One record of an unpacked field: the same value from both. */
  lemma TypeAgrees(env: Env, f: Field, a: Context.Atom, buffer: seq<byte>)
    requires RMessage.InBounds(buffer, a) && env.Resolves(f) && !f.flabel.PACKED? && TypeCalls(env, f, a, buffer).ok
    ensures var v := RMessage.ValueOf(env, f, a, buffer, f.flabel.REPEATED?);
            VarsOf(env, f, TypeCalls(env, f, a, buffer).events) == if v.Some? then [NormOne(f.ftype, v.value)] else []
  {
    hide RMessage.Read, VarsOf, Varint.DeZigZag32, Varint.DeZigZag64, RMessage.TextOf;
    VarsOne(env, f, TypeCalls(env, f, a, buffer).events[0].value);
  }

  /** A packed payload appends the same values, unless it is a further non-empty one of an
      enum field: the reader then names the first elements of its array instead of the last. */
  lemma PackedAgrees(env: Env, f: Field, was: seq<RMessage.Var>, buffer: seq<byte>, a: Context.Atom)
    requires Packed.UnpackAtom(f.ftype, buffer, a).n >= 0
    ensures (var u := Packed.UnpackAtom(f.ftype, buffer, a);
             Norm(f.ftype, RMessage.AddPacked(env, f, was, u))
               == Norm(f.ftype, was) + VarsOf(env, f, ArrayCalls(env, f, u).events))
       <==> !(f.ftype.ENUM? && was != [] && a.first < a.second <= |buffer|)
  {
    hide Packed.UnpackAtom, VarsOf, ElementEvents;
    var u := Packed.UnpackAtom(f.ftype, buffer, a);
    Packed.AtomCount(f.ftype, buffer, a);
    VarsElements(env, f, u.vs);
    var all := RMessage.AddPacked(env, f, was, u);
    var vars := ElementVars(env, f, u.vs);
    if f.ftype.ENUM? {
      SomeElements(f.ftype, buffer, a);
      if u.vs != [] && was != [] {
        assert all[|all| - 1].Num?;
        assert (Norm(f.ftype, was) + vars)[|all| - 1] == vars[|vars| - 1];
      }
    }
  }

  /** A second payload of one value: the reader leaves it a number, without its name. */
  lemma SecondPayload(env: Env, f: Field, first: Option<Name>)
    requires f.ftype.ENUM?
    ensures var u := Packed.UnpackAtom(ENUM, [0x01], Context.Atom(2, 0, 1));
            && u == Packed.Unpacked(1, [Longlong(1, 0)])
            && RMessage.AddPacked(env, f, [RMessage.EnumVal(5, first)], u)
               == [RMessage.EnumVal(5, env.EnumName(f, 5)), RMessage.Num(Longlong(1, 0))]
            && VarsOf(env, f, ArrayCalls(env, f, u).events) == [RMessage.EnumVal(1, env.EnumName(f, 1))]
  {
    var u := Packed.UnpackAtom(ENUM, [0x01], Context.Atom(2, 0, 1));
    OneValue();
    hide Packed.UnpackAtom, Varint.Read;
    VarsElements(env, f, u.vs);
  }

  lemma OneValue()
    ensures Packed.UnpackAtom(ENUM, [0x01], Context.Atom(2, 0, 1)) == Packed.Unpacked(1, [Longlong(1, 0)])
  {
    var one: seq<byte> := [0x01];
    assert Varint.Bytes(1) == one && one + [] == one && one[0..1] == one && one[1..] == [];
    hide Varint.Bytes, Varint.Read, Varint.Seen;
    Varint.ReadEncoded(1, []);
    Varint.SeenExact(1);
    assert Packed.Varints(ENUM, []) == Packed.Unpacked(0, []);
  }

  lemma SomeElements(t: Type, buffer: seq<byte>, a: Context.Atom)
    requires t.ENUM? && Packed.UnpackAtom(t, buffer, a).n >= 0
    ensures Packed.UnpackAtom(t, buffer, a).vs != [] <==> a.first < a.second <= |buffer|
  {
    hide Packed.Undo, Varint.Read;
  }

  /** A packed enum field has at most one record. */
  ghost predicate Once(f: Field, atoms: seq<Context.Atom>) {
    f.ftype.ENUM? && f.flabel.PACKED? ==>
      forall i, j | 0 <= i < j < |atoms| :: !(atoms[i].FieldId() == f.id == atoms[j].FieldId())
  }

  /** A field of the type. */
  ghost predicate FieldOf(env: Env, t: Message, f: Field) {
    t.InStep() && (forall i | i in t.id :: env.Resolves(t.id[i])) && f.id in t.id && t.id[f.id] == f
  }

  lemma {:induction false} NothingStored(env: Env, t: Message, buffer: seq<byte>, atoms: seq<Context.Atom>, f: Field)
    requires FieldOf(env, t, f) && forall a | a in atoms :: a.FieldId() != f.id
    ensures RMessage.At(RMessage.Gather(env, t, buffer, atoms), f.name) == []
    decreases |atoms|
  {
    hide RMessage.Gather, RMessage.AddPacked, RMessage.ValueOf;
    RMessage.GatherStep(env, t, buffer, atoms, 0);
    if atoms != [] {
      var n := |atoms| - 1;
      NothingStored(env, t, buffer, atoms[..n], f);
      RMessage.GatherStep(env, t, buffer, atoms, n);
      assert atoms[..n + 1] == atoms;
      assert atoms[n] in atoms;
    }
  }

  /** One more record, with respect to field f. */
  lemma AtomAgrees(env: Env, t: Message, buffer: seq<byte>, a: Context.Atom, m: map<Name, seq<RMessage.Var>>, f: Field)
    requires FieldOf(env, t, f) && RMessage.InBounds(buffer, a) && AtomCalls(env, t, buffer, a).ok
    requires f.ftype.ENUM? && f.flabel.PACKED? && a.FieldId() == f.id ==> RMessage.At(m, f.name) == []
    ensures Norm(f.ftype, RMessage.At(RMessage.Add(env, t, buffer, a, m), f.name))
         == Norm(f.ftype, RMessage.At(m, f.name)) + VarsOf(env, f, AtomCalls(env, t, buffer, a).events)
  {
    hide RMessage.AddPacked, RMessage.ValueOf, VarsOf, TypeCalls, Packed.UnpackAtom, ElementEvents;
    var id, c := a.FieldId(), AtomCalls(env, t, buffer, a);
    if id == f.id {
      if f.flabel.PACKED? {
        PackedAgrees(env, f, RMessage.At(m, f.name), buffer, a);
      } else {
        TypeAgrees(env, f, a, buffer);
      }
    } else {
      if id in t.id { OthersKey(env, t.id[id], a, buffer); }
      assert forall e | e in c.events :: e.key != Some(f.name);
      VarsOthers(env, f, c.events);
    }
  }

  /** Calls for a field carry its name. */
  lemma OthersKey(env: Env, g: Field, a: Context.Atom, buffer: seq<byte>)
    ensures forall e | e in TypeCalls(env, g, a, buffer).events :: e.key == Some(g.name)
    ensures forall e | e in ArrayCalls(env, g, Packed.UnpackAtom(g.ftype, buffer, a)).events :: e.key == Some(g.name)
  {
    hide Packed.UnpackAtom, Varint.DeZigZag32, Varint.DeZigZag64, Context.SliceOf;
  }

  /** When the callback decoder accepts a run of records, the values it passes for a field,
      in order, are those the message reader stores under the field's name: both words of
      the 64-bit types, the lower word of the 32-bit types. */
  lemma {:induction false} RecordsAgree(env: Env, t: Message, buffer: seq<byte>, atoms: seq<Context.Atom>, f: Field)
    requires FieldOf(env, t, f) && Once(f, atoms) && RunOf(env, t, buffer, atoms).ok
    requires forall a | a in atoms :: RMessage.InBounds(buffer, a)
    ensures Norm(f.ftype, RMessage.At(RMessage.Gather(env, t, buffer, atoms), f.name))
            == VarsOf(env, f, RunOf(env, t, buffer, atoms).events)
    decreases |atoms|
  {
    hide RMessage.Gather, RMessage.Add, AtomCalls, VarsOf, RunOf, FieldOf, RMessage.InBounds;
    RMessage.GatherStep(env, t, buffer, atoms, 0);
    RunNone(env, t, buffer, atoms);
    if atoms == [] {
      VarsOthers(env, f, []);
    } else {
      var n := |atoms| - 1;
      RunStep(env, t, buffer, atoms, n);
      assert atoms[..n + 1] == atoms && atoms[n] in atoms;
      RecordsAgree(env, t, buffer, atoms[..n], f);
      RMessage.GatherStep(env, t, buffer, atoms, n);
      var m := RMessage.Gather(env, t, buffer, atoms[..n]);
      if f.ftype.ENUM? && f.flabel.PACKED? && atoms[n].FieldId() == f.id {
        NothingStored(env, t, buffer, atoms[..n], f);
      }
      AtomAgrees(env, t, buffer, atoms[n], m, f);
      VarsSplit(env, f, RunOf(env, t, buffer, atoms[..n]).events, AtomCalls(env, t, buffer, atoms[n]).events);
    }
  }

  /** The two entry points on one buffer. */
  method DecodeBoth(env: Env, typeName: Name, buffer: seq<byte>)
    returns (r: int, events: seq<Event>, m: Option<RMessage.RMsg>)
    requires env.Closed() && typeName in env.msgs
    requires forall i | i in env.msgs[typeName].id :: !env.msgs[typeName].id[i].ftype.GROUP?
    ensures m.None? ==> r < 0 && events == []
    ensures r >= 0 ==>
              m.Some? &&
              forall i | i in env.msgs[typeName].id
                && Once(env.msgs[typeName].id[i], Context.Tokens(buffer, 0).atoms) ::
              var f := env.msgs[typeName].id[i];
              VarsOf(env, f, events) == Norm(f.ftype, RMessage.At(m.value.index, f.name))
  {
    hide Context.Tokens, RunOf, RMessage.Gather, VarsOf, Once, RMessage.Read, RMessage.InBounds;
    var t := env.msgs[typeName];
    ghost var s := Context.Tokens(buffer, 0);
    RMessage.ReadIs(env, t, buffer);
    r, events := PbcDecode(env, typeName, buffer);
    m := RMessage.New(env, t, buffer);
    RMessage.GatherStep(env, t, buffer, [], 0);
    RunNone(env, t, buffer, s.atoms);
    forall i | i in t.id && s.ok && RunOf(env, t, buffer, s.atoms).ok && Once(t.id[i], s.atoms)
      ensures var f, stored := t.id[i], RMessage.Gather(env, t, buffer, s.atoms);
              VarsOf(env, f, RunOf(env, t, buffer, s.atoms).events) == Norm(f.ftype, RMessage.At(stored, f.name))
    {
      forall a | a in s.atoms ensures RMessage.InBounds(buffer, a) {
        var k :| 0 <= k < |s.atoms| && s.atoms[k] == a;
        RMessage.AtomInBounds(buffer, k);
      }
      RecordsAgree(env, t, buffer, s.atoms, t.id[i]);
    }
  }
}
