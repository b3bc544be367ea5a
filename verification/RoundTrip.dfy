/** Reading a message back: what the reader makes of the bytes of any tree of values. */
module RoundTrip {
  import opened Words
  import opened Wrappers
  import opened Proto
  import opened RMessage
  import Context
  import Packed
  import Varint

  /** How a written value reads, stated per type and without the wire. */
  function ReadsAs(env: Env, f: Field, v: Value): Var
    requires Fits(f, v)
  {
    match f.ftype
    case ENUM => EnumVal(ToInt32(v.v.low), env.EnumName(f, v.v.low))
    case STRING => TextOf(v.bs, f.flabel == REPEATED)
    case BYTES => Text(v.bs, |v.bs|)
    case _ => Num(Packed.Wire(f.ftype, v.v))
  }

  /** The message a tree reads back as: under each field name, the values written to the
      field in the order written, at every depth. */
  function ReadBack(env: Env, t: Tree): RMsg
    decreases t, 2
  {
    RMsg(t.mtype.key, Grouped(env, t, |t.entries|))
  }

  function Grouped(env: Env, t: Tree, n: nat): map<Name, seq<Var>>
    requires n <= |t.entries|
    decreases t, 1, n
  {
    if n == 0 then map[]
    else
      var e, m := t.entries[n - 1], Grouped(env, t, n - 1);
      m[e.field.name := At(m, e.field.name) + [EntryReadsAs(env, t, e)]]
  }

  function EntryReadsAs(env: Env, t: Tree, e: Entry): Var
    requires e in t.entries
    decreases t, 0
  {
    match e
    case Scalar(f, v) => if Fits(f, v) then ReadsAs(env, f, v) else Num(Longlong(0, 0))
    case Child(_, sub) => Sub(Some(ReadBack(env, sub)))
  }

  /** A type whose fields the environment resolves. */
  ghost predicate Usable(env: Env, t: Message) {
    env.Closed() && t.InStep() && t.IdsInRange() && forall i | i in t.id :: env.Resolves(t.id[i])
  }

  // ---- the theorem

  /** One written value. */
  lemma ScalarReads(env: Env, f: Field, v: Value, a: Context.Atom, buffer: seq<byte>)
    requires Fits(f, v) && 1 <= f.id < 0x1000_0000
    requires Context.Shows(buffer, a, RecOf(f, v))
    ensures a.FieldId() == f.id
    ensures ValueOf(env, f, a, buffer, f.flabel == REPEATED) == Some(ReadsAs(env, f, v))
  {
    hide Varint.Seen, Varint.DeZigZag32, Varint.DeZigZag64, Varint.ZigZag32;
    hide Varint.ZigZag64, Context.SliceOf, Read, TextOf;
    TagRoundTrip(f.id, 0);
    TagRoundTrip(f.id, 1);
    TagRoundTrip(f.id, 2);
    TagRoundTrip(f.id, 5);
    if v.Number? {
      Varint.SeenExact(v.v.low);
      Varint.SeenExact(Varint.ZigZag32(v.v.low));
    }
  }

  /** One sub-message, given that its own bytes read back. */
  lemma ChildReads(env: Env, f: Field, sub: Tree, a: Context.Atom, buffer: seq<byte>)
    requires f.ftype.MESSAGE? && f.typeName in env.msgs && sub.mtype == env.msgs[f.typeName] && 1 <= f.id < 0x1000_0000
    requires a.wireId == ToInt32(Tag(f.id, 2)) && InBounds(buffer, a) && Context.SliceOf(buffer, a) == Encode(sub)
    requires Read(env, sub.mtype, Encode(sub)) == Some(ReadBack(env, sub))
    ensures a.FieldId() == f.id
    ensures ValueOf(env, f, a, buffer, f.flabel == REPEATED) == Some(Sub(Some(ReadBack(env, sub))))
  {
    hide Read, ReadBack, Encode;
    TagRoundTrip(f.id, 2);
    assert a.Delimited();
    assert |Context.SliceOf(buffer, a)| < |buffer|;
  }

  /** One entry of a tree: the reader's loop appends its value under its field's name. */
  lemma {:induction false} EntryAdds(env: Env, t: Tree, k: nat, m: map<Name, seq<Var>>)
    requires Usable(env, t.mtype) && Written(env, t) && k < |t.entries|
    ensures var e, recs := t.entries[k], Recs(t, |t.entries|);
            Add(env, t.mtype, Encode(t), Context.AtomsAt(recs, 0)[k], m)
            == m[e.field.name := At(m, e.field.name) + [EntryReadsAs(env, t, e)]]
    decreases t, 0
  {
    hide ValueOf, Read, ReadBack, Encode, Recs, Varint.Seen;
    hide RecOf, ReadsAs, Context.AtomsAt, Context.Serialise, Fits, Tag;
    var e, recs, buffer := t.entries[k], Recs(t, |t.entries|), Encode(t);
    var a := Context.AtomsAt(recs, 0)[k];
    assert WrittenEntry(env, t, e);
    EncodeIs(t);
    RecsAt(t, |t.entries|, k);
    Context.AtomShows(recs, k);
    match e {
      case Scalar(f, v) =>
        ScalarReads(env, f, v, a, buffer);
      case Child(f, sub) =>
        ReadEncoded(env, sub);
        TreeTokens(env, t);
        AtomInBounds(buffer, k);
        ChildReads(env, f, sub, a, buffer);
    }
  }

  lemma EncodeIs(t: Tree)
    ensures Encode(t) == Context.Serialise(Recs(t, |t.entries|))
  {
  }

  lemma TreeTokens(env: Env, t: Tree)
    requires Written(env, t)
    ensures Context.Tokens(Encode(t), 0) == Context.Scan(Context.AtomsAt(Recs(t, |t.entries|), 0), true)
    ensures t.entries != [] <==> Encode(t) != []
  {
    hide Varint.Bytes;
    var recs := Recs(t, |t.entries|);
    forall r | r in recs ensures r.Valid() {
      var k :| 0 <= k < |recs| && recs[k] == r;
      RecsAt(t, |t.entries|, k);
      var e := t.entries[k];
      assert WrittenEntry(env, t, e);
      if e.Scalar? { RecOfValid(e.field, e.value); } else { TagRoundTrip(e.field.id, 2); }
    }
    Context.TokensOfRecords(recs, 0);
    if recs != [] { assert Context.Serialise(recs) == recs[0].Bytes() + Context.Serialise(recs[1..]); }
  }

  lemma {:induction false} GathersGroups(env: Env, t: Tree, n: nat)
    requires Usable(env, t.mtype) && Written(env, t) && n <= |t.entries|
    ensures Gather(env, t.mtype, Encode(t), Context.AtomsAt(Recs(t, |t.entries|), 0)[..n]) == Grouped(env, t, n)
    decreases t, 1, n
  {
    hide Add, Encode, Recs, Context.AtomsAt, EntryReadsAs;
    var atoms := Context.AtomsAt(Recs(t, |t.entries|), 0);
    if n > 0 {
      GathersGroups(env, t, n - 1);
      GatherStep(env, t.mtype, Encode(t), atoms, n - 1);
      EntryAdds(env, t, n - 1, Grouped(env, t, n - 1));
    } else {
      GatherStep(env, t.mtype, Encode(t), atoms, 0);
    }
  }

  /** The reader, given the bytes of any tree of values, returns that tree's values: for
      each field those written, in the order written, at every nesting depth. */
  lemma {:induction false} ReadEncoded(env: Env, t: Tree)
    requires env.Closed() && t.mtype.key in env.msgs && env.msgs[t.mtype.key] == t.mtype && Written(env, t)
    ensures Read(env, t.mtype, Encode(t)) == Some(ReadBack(env, t))
    decreases t, 2
  {
    hide Gather, Encode, Recs, Grouped, Context.Tokens, Context.AtomsAt;
    var atoms := Context.AtomsAt(Recs(t, |t.entries|), 0);
    assert Usable(env, t.mtype);
    TreeTokens(env, t);
    ReadIs(env, t.mtype, Encode(t));
    GathersGroups(env, t, |t.entries|);
    assert atoms[..|t.entries|] == atoms;
    if t.entries == [] { GroupedNone(env, t); }
  }

  lemma GroupedNone(env: Env, t: Tree)
    ensures Grouped(env, t, 0) == map[]
  {
  }

  /** The values of the entries under one name, in order. */
  function Selected(env: Env, t: Tree, n: nat, name: Name): seq<Var>
    requires n <= |t.entries|
  {
    if n == 0 then []
    else
      var e := t.entries[n - 1];
      Selected(env, t, n - 1, name) + (if e.field.name == name then [EntryReadsAs(env, t, e)] else [])
  }

  /** What a lookup in the message read back finds. */
  lemma {:induction false} GroupedIs(env: Env, t: Tree, n: nat, name: Name)
    requires n <= |t.entries|
    ensures At(Grouped(env, t, n), name) == Selected(env, t, n, name)
    ensures name in Grouped(env, t, n) <==> Selected(env, t, n, name) != []
  {
    hide EntryReadsAs, Grouped;
    if n == 0 {
      GroupedNone(env, t);
    } else {
      GroupedIs(env, t, n - 1, name);
      GroupedLast(env, t, n);
    }
  }

  lemma GroupedLast(env: Env, t: Tree, n: nat)
    requires 0 < n <= |t.entries|
    ensures var k, m, v := t.entries[n - 1].field.name, Grouped(env, t, n - 1), EntryReadsAs(env, t, t.entries[n - 1]);
            Grouped(env, t, n) == m[k := At(m, k) + [v]]
  {
  }

  // ---- how faithful one value is

  /** A number comes back exactly when its type's wire form keeps it; an enum value is its
      low word and that value's name. */
  lemma Faithful(env: Env, f: Field, v: Longlong)
    requires Numeric(f.ftype)
    ensures !f.ftype.ENUM? ==> (ReadsAs(env, f, Number(v)) == Num(v) <==> Packed.Kept(f.ftype, v))
    ensures f.ftype.ENUM? ==> ReadsAs(env, f, Number(v)) == EnumVal(ToInt32(v.low), env.EnumName(f, v.low))
  {
    hide Packed.Wire, Packed.Kept;
    Packed.WireKeeps(f.ftype, v);
  }

  /** Text comes back as written, whatever terminator the reader keeps or adds. */
  lemma TextFaithful(env: Env, f: Field, bs: seq<byte>)
    requires Fits(f, Chars(bs))
    ensures var r := ReadsAs(env, f, Chars(bs));
            r.Text? && (if r.len < 0 then -r.len else r.len) == |bs| && |r.str| >= |bs| && r.str[..|bs|] == bs
            && (f.ftype.STRING? ==> r.str[|r.str| - 1] == 0)
  {
  }
}
