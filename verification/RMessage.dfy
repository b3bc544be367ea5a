/** The message reader (ext/pbc/src/rmessage.c): what a buffer means as a message of a
    given type, and the recursive code that builds it. */
module RMessage {
  import opened Words
  import opened Wrappers
  import opened Proto
  import Context
  import Packed
  import Varint

  /** `union _var`. Text holds the bytes its pointer addresses, including a terminator
      the reader added, and the recorded length, which is negative for a copied array
      element. A sub-message that could not be decoded is a zeroed message. */
  datatype Var =
    | Num(v: Longlong)
    | EnumVal(id: int, name: Option<Name>)
    | Text(str: seq<byte>, len: int)
    | Sub(m: Option<RMsg>)

  /** `struct pbc_rmessage`. The index keeps, for each field name, the values stored
      under it in order: the elements of a repeated or packed field, or every value
      inserted for a singular field (`_pbcM_sp_insert` does not replace). */
  datatype RMsg = RMsg(typeKey: Name, index: map<Name, seq<Var>>)

  function At(m: map<Name, seq<Var>>, n: Name): seq<Var> {
    if n in m then m[n] else []
  }

  // ---- what a record means

  /** `read_string` and `read_string_var`: bytes that do not end in a terminator are
      copied and given one. */
  function TextOf(bs: seq<byte>, element: bool): Var {
    if element && bs == [] then Text([0], 0)
    else if bs != [] && bs[|bs| - 1] == 0 then Text(bs, |bs|)
    else Text(bs + [0], if element then -|bs| else |bs|)
  }

  /** Values that do not depend on the buffer. */
  function Scalar(env: Env, f: Field, a: Context.Atom): Var {
    match f.ftype
    case ENUM => EnumVal(ToInt32(a.Number().low), env.EnumName(f, a.Number().low))
    case SINT32 => Num(Varint.DeZigZag32(a.Number()))
    case SINT64 => Num(Varint.DeZigZag64(a.Number()))
    case _ => Num(a.Number())
  }

  /** `read_value` (element == false) and the switch of `push_value_array`. An element
      that is an undecodable sub-message is dropped. */
  function ValueOf(env: Env, f: Field, a: Context.Atom, buffer: seq<byte>, element: bool): Option<Var>
    decreases |buffer|, 0
  {
    match f.ftype
    case GROUP => None
    case STRING => if a.Delimited() then Some(TextOf(Context.SliceOf(buffer, a), element)) else None
    case BYTES => if a.Delimited() then Some(Text(Context.SliceOf(buffer, a), |Context.SliceOf(buffer, a)|)) else None
    case MESSAGE =>
      if a.Delimited() && |Context.SliceOf(buffer, a)| < |buffer| && f.typeName in env.msgs then
        var sub := Read(env, env.msgs[f.typeName], Context.SliceOf(buffer, a));
        if element && sub.None? then None else Some(Sub(sub))
      else None
    case _ => Some(Scalar(env, f, a))
  }

  /** `push_value_packed`: the payload's values are appended and, for an enum field, the
      first n elements of the array get their names. */
  function AddPacked(env: Env, f: Field, vs: seq<Var>, u: Packed.Unpacked): seq<Var> {
    var all := vs + seq(|u.vs|, i requires 0 <= i < |u.vs| => Num(u.vs[i]));
    if f.ftype.ENUM? && u.n > 0 then
      seq(|all|, i requires 0 <= i < |all| => if i < u.n then Named(env, f, all[i]) else all[i])
    else all
  }

  function Named(env: Env, f: Field, v: Var): Var {
    match v
    case Num(n) => EnumVal(ToInt32(n.low), env.EnumName(f, n.low))
    case EnumVal(id, _) => EnumVal(id, env.EnumName(f, FromInt(id)))
    case _ => v
  }

  /** One round of the loop of `_pbc_rmessage_new`. A name whose array is empty has its
      pointer reset to null and counts as absent. */
  function Add(env: Env, t: Message, buffer: seq<byte>, a: Context.Atom, m: map<Name, seq<Var>>): map<Name, seq<Var>>
    decreases |buffer|, 1
  {
    if a.FieldId() !in t.id then m
    else
      var f := t.id[a.FieldId()];
      if f.flabel == PACKED then
        var vs := AddPacked(env, f, At(m, f.name), Packed.UnpackAtom(f.ftype, buffer, a));
        if vs == [] then m else m[f.name := vs]
      else
        var v := ValueOf(env, f, a, buffer, f.flabel == REPEATED);
        if v.None? then m else m[f.name := At(m, f.name) + [v.value]]
  }

  function Gather(env: Env, t: Message, buffer: seq<byte>, atoms: seq<Context.Atom>): map<Name, seq<Var>>
    decreases |buffer|, 2, |atoms|
  {
    if atoms == [] then map[]
    else Add(env, t, buffer, atoms[|atoms| - 1], Gather(env, t, buffer, atoms[..|atoms| - 1]))
  }

  /** What a buffer means as a message of type t, if it is one. */
  function Read(env: Env, t: Message, buffer: seq<byte>): Option<RMsg>
    decreases |buffer|, 3
  {
    if buffer == [] then Some(RMsg(t.key, map[]))
    else
      var s := Context.Tokens(buffer, 0);
      if s.ok then Some(RMsg(t.key, Gather(env, t, buffer, s.atoms))) else None
  }

  // ---- the code

  /** An atom of a successful scan: a delimited one is a proper slice of the buffer. */
  ghost predicate InBounds(buffer: seq<byte>, a: Context.Atom) {
    a.Delimited() ==> 2 <= a.first <= a.second <= |buffer|
  }

  method ReadValue(env: Env, f: Field, a: Context.Atom, buffer: seq<byte>, element: bool) returns (v: Option<Var>)
    requires InBounds(buffer, a)
    requires env.Closed() && env.Resolves(f)
    ensures v == ValueOf(env, f, a, buffer, element)
    decreases |buffer|, 0
  {
    hide Read;
    match f.ftype
    case GROUP => return None;
    case STRING =>
      if !a.Delimited() { return None; }
      return Some(TextOf(buffer[a.first..a.second], element));
    case BYTES =>
      if !a.Delimited() { return None; }
      return Some(Text(buffer[a.first..a.second], a.second - a.first));
    case MESSAGE =>
      if !a.Delimited() { return None; }
      var sub := New(env, env.msgs[f.typeName], buffer[a.first..a.second]);
      if element && sub.None? { return None; }
      return Some(Sub(sub));
    case _ =>
      return Some(Scalar(env, f, a));
  }

  method PushPacked(env: Env, f: Field, arr: seq<Var>, a: Context.Atom, buffer: seq<byte>) returns (vs: seq<Var>)
    ensures vs == AddPacked(env, f, arr, Packed.UnpackAtom(f.ftype, buffer, a))
  {
    hide Packed.UnpackAtom, Named;
    var n, pushed := Packed.UnpackSlice(buffer, a, f.ftype);
    vs := arr + seq(|pushed|, i requires 0 <= i < |pushed| => Num(pushed[i]));
    if n <= 0 { return; }
    if f.ftype.ENUM? {
      Packed.AtomCount(f.ftype, buffer, a);
      ghost var all := vs;
      var i := 0;
      while i < n
        invariant 0 <= i <= n <= |all| == |vs|
        invariant forall k | 0 <= k < |vs| :: vs[k] == if k < i then Named(env, f, all[k]) else all[k]
      {
        vs := vs[i := Named(env, f, vs[i])];
        i := i + 1;
      }
    }
  }

  /** `_pbc_rmessage_new`; None is the zeroed message. */
  method New(env: Env, t: Message, buffer: seq<byte>) returns (r: Option<RMsg>)
    requires env.Closed() && (forall i | i in t.id :: env.Resolves(t.id[i]))
    ensures r == Read(env, t, buffer)
    decreases |buffer|, 2
  {
    if buffer == [] {
      return Some(RMsg(t.key, map[]));
    }
    hide Gather, Add, Read, Context.Tokens;
    ghost var s := Context.Tokens(buffer, 0);
    ReadIs(env, t, buffer);
    var ctx := new Context.Ctx();
    var count := ctx.Open(buffer);
    if count <= 0 {
      return None;
    }
    var index: map<Name, seq<Var>> := map[];
    GatherStep(env, t, buffer, s.atoms, 0);
    var i := 0;
    while i < ctx.number
      invariant 0 <= i <= ctx.number == |s.atoms| && ctx.a != null && ctx.number <= ctx.a.Length
      invariant ctx.a[..ctx.number] == s.atoms
      invariant index == Gather(env, t, buffer, s.atoms[..i])
    {
      assert ctx.a[i] == ctx.a[..ctx.number][i] == s.atoms[i];
      AtomInBounds(buffer, i);
      GatherStep(env, t, buffer, s.atoms, i);
      index := AddAtom(env, t, buffer, ctx.a[i], index);
      i := i + 1;
    }
    assert s.atoms[..i] == s.atoms;
    return Some(RMsg(t.key, index));
  }

  /** The body of the loop. */
  method AddAtom(env: Env, t: Message, buffer: seq<byte>, a: Context.Atom, index: map<Name, seq<Var>>)
    returns (index': map<Name, seq<Var>>)
    requires env.Closed() && (forall i | i in t.id :: env.Resolves(t.id[i]))
    requires InBounds(buffer, a)
    ensures index' == Add(env, t, buffer, a, index)
    decreases |buffer|, 1
  {
    hide ValueOf, AddPacked;
    index' := index;
    var id := a.FieldId();
    if id in t.id {
      var f := t.id[id];
      var was := At(index, f.name);
      if f.flabel == PACKED {
        var vs := PushPacked(env, f, was, a, buffer);
        if vs != [] { index' := index[f.name := vs]; }
      } else {
        var v := ReadValue(env, f, a, buffer, f.flabel == REPEATED);
        if v.Some? { index' := index[f.name := was + [v.value]]; }
      }
    }
  }

  lemma ReadIs(env: Env, t: Message, buffer: seq<byte>)
    ensures var s := Context.Tokens(buffer, 0);
            if buffer == [] then Read(env, t, buffer) == Some(RMsg(t.key, map[]))
            else if s.ok then s.atoms != []
              && Read(env, t, buffer) == Some(RMsg(t.key, Gather(env, t, buffer, s.atoms)))
            else Read(env, t, buffer) == None
  {
    hide Gather, Context.Record;
  }

  lemma GatherStep(env: Env, t: Message, buffer: seq<byte>, atoms: seq<Context.Atom>, i: nat)
    requires i <= |atoms|
    ensures Gather(env, t, buffer, []) == map[] && atoms[..0] == []
    ensures i < |atoms| ==>
            Gather(env, t, buffer, atoms[..i + 1]) == Add(env, t, buffer, atoms[i], Gather(env, t, buffer, atoms[..i]))
  {
    hide Add;
    if i < |atoms| { assert atoms[..i + 1][..i] == atoms[..i]; }
  }

  lemma AtomInBounds(buffer: seq<byte>, i: nat)
    requires Context.Tokens(buffer, 0).ok && i < |Context.Tokens(buffer, 0).atoms|
    ensures InBounds(buffer, Context.Tokens(buffer, 0).atoms[i])
  {
    hide Context.Tokens;
    Context.SliceSound(buffer);
    assert Context.Tokens(buffer, 0).atoms[i] in Context.Tokens(buffer, 0).atoms;
  }

  // ---- accessors, for a field that is not repeated

  /** The lower word of a stored value, or the id of an enum value. */
  function LowWord(v: Var): word {
    match v
    case Num(n) => n.low
    case EnumVal(id, _) => FromInt(id)
    case Text(_, _) | Sub(_) => 0
  }

  /** `pbc_rmessage_integer`: a field that was not on the wire has its default. Of a field that
      was there more than once a lookup finds the first value or, under the names in `last`,
      the last one: Duplicates says which. */
  function Integer(m: RMsg, key: Name, defaultLow: word, last: set<Name>): word {
    var vs := At(m.index, key);
    if vs == [] then defaultLow else LowWord(if key in last then vs[|vs| - 1] else vs[0])
  }
}
