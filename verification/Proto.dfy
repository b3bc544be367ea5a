/** Message types as the encoders and decoders see them (ext/pbc/src/proto.h). */
module Proto {
  import opened Words
  import opened Wrappers
  import SpMap
  import Context
  import Varint

  type Name = SpMap.Name

  /** The PTYPE constants. */
  datatype Type =
    | DOUBLE | FLOAT | INT64 | UINT64 | INT32 | FIXED64 | FIXED32 | BOOL | STRING
    | GROUP | MESSAGE | BYTES | UINT32 | ENUM | SFIXED32 | SFIXED64 | SINT32 | SINT64

  datatype Label = OPTIONAL | REQUIRED | REPEATED | PACKED

  /** `struct _field`; typeName is the key of the message or enum a field refers to. */
  datatype Field = Field(id: int, name: Name, ftype: Type, flabel: Label, typeName: Name)

  /** `struct _message`: its fields by id and by name. */
  datatype Message = Message(key: Name, id: map<int, Field>, name: map<Name, Field>) {
    /** The two indexes hold the same fields, under their own ids and names. */
    ghost predicate InStep() {
      && (forall i | i in id :: id[i].id == i && id[i].name in name && name[id[i].name] == id[i])
      && (forall n | n in name :: name[n].name == n && name[n].id in id && id[name[n].id] == name[n])
    }

    /** Field ids the tag arithmetic can carry. */
    ghost predicate IdsInRange() {
      forall i | i in id :: 1 <= i < 0x1000_0000
    }
  }

  /** `struct _enum`: its two tables. */
  datatype Enum = Enum(id: map<int, Name>, name: map<Name, int>)

  datatype Env = Env(msgs: map<Name, Message>, enums: map<Name, Enum>) {
    /** Indexes are in step and every message or enum reference resolves. */
    ghost predicate Closed() {
      forall k | k in msgs ::
        && msgs[k].key == k && msgs[k].InStep() && msgs[k].IdsInRange()
        && forall i | i in msgs[k].id :: Resolves(msgs[k].id[i])
    }

    predicate Resolves(f: Field) {
      && (f.ftype.MESSAGE? ==> f.typeName in msgs)
      && (f.ftype.ENUM? ==> f.typeName in enums)
    }

    /** The name of an enum value, if it has one. */
    function EnumName(f: Field, v: word): Option<Name> {
      if f.typeName in enums && ToInt32(v) in enums[f.typeName].id then Some(enums[f.typeName].id[ToInt32(v)]) else None
    }
  }

  /** `id << 3 | wiretype` as an unsigned word. */
  function Tag(id: int, wiretype: nat): word
    requires wiretype < 8
  {
    FromInt(id * 8) / 8 * 8 + wiretype
  }

  /** The wire type survives, and the decoder's signed `wire_id >> 3` gives the id back
      exactly for ids whose shift stays inside an int. */
  lemma TagRoundTrip(id: int, wiretype: nat)
    requires wiretype < 8
    ensures Tag(id, wiretype) % 8 == wiretype
    ensures ToInt32(Tag(id, wiretype)) % 8 == wiretype
    ensures ToInt32(Tag(id, wiretype)) / 8 == id <==> -0x1000_0000 <= id < 0x1000_0000
  {
    var t := FromInt(id * 8);
    assert t % 8 == 0 by { assert id * 8 == id * 8 / 0x1_0000_0000 * 0x1_0000_0000 + t; }
    assert Tag(id, wiretype) == t + wiretype;
  }

  /** What the application writes to a field: a number as two words, or bytes. */
  datatype Value = Number(v: Longlong) | Chars(bs: seq<byte>)

  /** The types `pbc_wmessage_real` encodes. */
  predicate Real(t: Type) {
    t.DOUBLE? || t.FLOAT?
  }

  /** The types `pbc_wmessage_integer` encodes. */
  predicate Integral(t: Type) {
    !t.STRING? && !t.BYTES? && !t.MESSAGE? && !t.GROUP? && !Real(t)
  }

  predicate Numeric(t: Type) {
    Integral(t) || Real(t)
  }

  /** The bits of a real as its field stores them, given as a double and as a float. */
  function RealNumber(f: Field, v: Longlong, single: word): Value {
    Number(if f.ftype.FLOAT? then Longlong(single, 0) else v)
  }

  predicate Fits(f: Field, v: Value) {
    match v
    case Number(_) => Numeric(f.ftype)
    case Chars(bs) => (f.ftype.STRING? || f.ftype.BYTES?) && |bs| < 0x8000_0000
  }

  /** The wire type a field type is written with, outside packed fields. */
  function WireType(t: Type): (w: nat)
    ensures w < 8
  {
    match t
    case INT64 | UINT64 | INT32 | UINT32 | ENUM | BOOL | SINT32 | SINT64 => Context.WT_VARINT
    case FIXED64 | SFIXED64 | DOUBLE => Context.WT_BIT64
    case FIXED32 | SFIXED32 | FLOAT => Context.WT_BIT32
    case STRING | BYTES | MESSAGE | GROUP => Context.WT_LEND
  }

  /** The record a field and a value are written as. */
  function RecOf(f: Field, v: Value): (r: Context.Rec)
    requires Fits(f, v)
  {
    Context.Rec(Tag(f.id, WireType(f.ftype)), if v.Number? then NumberBody(f.ftype, v.v) else Context.LendBody(v.bs))
  }

  /** How a number is written; a float is its 32 bits. */
  function NumberBody(t: Type, v: Longlong): Context.Body {
    match t
    case INT64 | UINT64 | INT32 => Context.VarintBody(Join(v))
    case UINT32 | ENUM | BOOL => Context.VarintBody(v.low)
    case SINT32 => Context.VarintBody(Varint.ZigZag32(v.low))
    case SINT64 => Context.VarintBody(Varint.ZigZag64(Join(v)))
    case FIXED64 | SFIXED64 | DOUBLE => Context.Bit64Body(v)
    case FIXED32 | SFIXED32 | FLOAT => Context.Bit32Body(v.low)
    case STRING | BYTES | MESSAGE | GROUP => Context.LendBody([])
  }

  lemma RecTag(f: Field, v: Value)
    requires Fits(f, v)
    ensures RecOf(f, v).tag == Tag(f.id, WireType(f.ftype))
  {
  }

  lemma RecOfValid(f: Field, v: Value)
    requires Fits(f, v)
    ensures RecOf(f, v).Valid()
    ensures RecOf(f, v).body.LendBody? <==> v.Chars?
  {
    TagRoundTrip(f.id, 0);
    TagRoundTrip(f.id, 1);
    TagRoundTrip(f.id, 2);
    TagRoundTrip(f.id, 5);
  }

  /** A message as the application built it: entries in the order they reach the wire,
      plain values first and then sub-messages. */
  datatype Entry = Scalar(field: Field, value: Value) | Child(field: Field, tree: Tree)
  datatype Tree = Tree(mtype: Message, entries: seq<Entry>)

  /** Fields belong to the type, values fit, sub-messages have the type their field names
      and are short enough for a length prefix. */
  ghost predicate Written(env: Env, t: Tree) {
    forall e | e in t.entries :: WrittenEntry(env, t, e)
  }

  ghost predicate WrittenEntry(env: Env, t: Tree, e: Entry)
    requires e in t.entries
  {
    && e.field.name in t.mtype.name && t.mtype.name[e.field.name] == e.field && e.field.flabel != PACKED
    && match e
       case Scalar(f, v) => Fits(f, v)
       case Child(f, sub) =>
         && f.ftype.MESSAGE? && f.typeName in env.msgs && sub.mtype == env.msgs[f.typeName]
         && Written(env, sub) && |Encode(sub)| < 0x8000_0000
  }

  function EntryRec(t: Tree, e: Entry): Context.Rec
    requires e in t.entries
    decreases t, 0
  {
    match e
    case Scalar(f, v) => if Fits(f, v) then RecOf(f, v) else Context.Rec(0, Context.LendBody([]))
    case Child(f, sub) => Context.Rec(Tag(f.id, 2), Context.LendBody(Encode(sub)))
  }

  function Recs(t: Tree, n: nat): (rs: seq<Context.Rec>)
    requires n <= |t.entries|
    ensures |rs| == n
    decreases t, 1, n
  {
    if n == 0 then [] else Recs(t, n - 1) + [EntryRec(t, t.entries[n - 1])]
  }

  /** The bytes of a message. */
  function Encode(t: Tree): seq<byte>
    decreases t, 2
  {
    Context.Serialise(Recs(t, |t.entries|))
  }

  lemma RecsAt(t: Tree, n: nat, k: nat)
    requires k < n <= |t.entries|
    ensures Recs(t, n)[k] == EntryRec(t, t.entries[k])
  {
    if k < n - 1 { RecsAt(t, n - 1, k); }
  }

  lemma ChildRecIs(t: Tree, e: Entry)
    requires e in t.entries && e.Child?
    ensures EntryRec(t, e) == Context.Rec(Tag(e.field.id, 2), Context.LendBody(Encode(e.tree)))
  {
  }

  /** The bytes of the first n entries. */
  function Prefix(t: Tree, n: nat): seq<byte>
    requires n <= |t.entries|
  {
    Context.Serialise(Recs(t, n))
  }

  lemma {:induction false} SerialiseAppend(rs: seq<Context.Rec>, r: Context.Rec)
    ensures Context.Serialise(rs + [r]) == Context.Serialise(rs) + r.Bytes()
  {
    hide Context.Rec.Bytes;
    if rs == [] {
      assert rs + [r] == [r] && [r][1..] == [];
      assert Context.Serialise([r]) == r.Bytes() + Context.Serialise([]);
    } else {
      assert (rs + [r])[1..] == rs[1..] + [r];
      SerialiseAppend(rs[1..], r);
    }
  }

  lemma PrefixStep(t: Tree, n: nat)
    requires n < |t.entries|
    ensures Prefix(t, n + 1) == Prefix(t, n) + EntryRec(t, t.entries[n]).Bytes()
  {
    hide Context.Serialise, EntryRec;
    SerialiseAppend(Recs(t, n), EntryRec(t, t.entries[n]));
  }

  lemma {:induction false} PrefixLength(t: Tree, n: nat)
    requires n <= |t.entries|
    ensures |Prefix(t, n)| <= |Encode(t)|
    decreases |t.entries| - n
  {
    hide Context.Rec.Bytes, Prefix;
    if n < |t.entries| {
      PrefixStep(t, n);
      PrefixLength(t, n + 1);
    } else {
      PrefixAll(t);
    }
  }

  lemma PrefixAll(t: Tree)
    ensures Prefix(t, |t.entries|) == Encode(t) && Prefix(t, 0) == []
  {
  }

  /** A sub-message's bytes are fewer than its parent's. */
  lemma ChildShorter(t: Tree, n: nat)
    requires n < |t.entries| && t.entries[n].Child?
    ensures |Encode(t.entries[n].tree)| < |Encode(t)|
  {
    hide Encode, Prefix, Context.Serialise, Varint.Bytes;
    PrefixStep(t, n);
    PrefixLength(t, n + 1);
    var sub := t.entries[n].tree;
    assert EntryRec(t, t.entries[n]).body == Context.LendBody(Encode(sub));
  }
}
