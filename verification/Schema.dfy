/** Loading one descriptor file into the environment: its enums, messages and extensions
    are entered first, then the type references of its fields are resolved
    (ext/pbc/src/register.c, ext/pbc/src/proto.c, ext/pbc/src/bootstrap.c). */
module Schema {
  import opened Wrappers
  import opened Proto
  import IdMaps

  // ---- decoded descriptors

  /** A field descriptor; typeName and extendee carry a leading '.'. */
  datatype FieldDesc = FieldDesc(name: Name, id: int, ftype: Type, flabel: Label, typeName: Name, defaultName: Name)
  datatype ExtDesc = ExtDesc(extendee: Name, field: FieldDesc)
  datatype EnumDesc = EnumDesc(name: Name, values: seq<IdMaps.Kv<Name>>)
  datatype MsgDesc = MsgDesc(name: Name, fields: seq<FieldDesc>, extensions: seq<ExtDesc>, enums: seq<EnumDesc>,
                             nested: seq<MsgDesc>)
  datatype File = File(name: Name, deps: seq<Name>, package: Name, enums: seq<EnumDesc>, messages: seq<MsgDesc>,
                       extensions: seq<ExtDesc>)

  /** `_concat_name` */
  function Concat(prefix: Name, name: Name): Name {
    if prefix == [] then name else prefix + ['.' as int] + name
  }

  /** `name + 1`: the leading '.' abandoned. */
  function Unprefixed(name: Name): Name {
    if name == [] then [] else name[1..]
  }

  /** The field a descriptor describes, under its final name. */
  function AsField(d: FieldDesc, name: Name): Field {
    Field(d.id, name, d.ftype, d.flabel, Unprefixed(d.typeName))
  }

  // ---- what a file does to the tables, in the order the code does it

  datatype Effect =
    | AddEnum(key: Name, table: seq<IdMaps.Kv<Name>>)
    | AddField(key: Name, field: Field)
    | Touch(key: Name)

  function EnumEffects(prefix: Name, enums: seq<EnumDesc>): seq<Effect> {
    if enums == [] then []
      else [AddEnum(Concat(prefix, enums[0].name), enums[0].values)] + EnumEffects(prefix, enums[1..])
  }

  function FieldEffects(key: Name, fields: seq<FieldDesc>): seq<Effect> {
    if fields == [] then [] else [AddField(key, AsField(fields[0], fields[0].name))] + FieldEffects(key, fields[1..])
  }

  function ExtEffect(prefix: Name, e: ExtDesc): Effect {
    AddField(Unprefixed(e.extendee), AsField(e.field, Concat(prefix, e.field.name)))
  }

  function ExtEffects(prefix: Name, exts: seq<ExtDesc>): seq<Effect> {
    if exts == [] then [] else [ExtEffect(prefix, exts[0])] + ExtEffects(prefix, exts[1..])
  }

  function MsgEffects(prefix: Name, m: MsgDesc): seq<Effect>
    decreases m, |m.nested| + 1
  {
    var key := Concat(prefix, m.name);
    var rest := EnumEffects(key, m.enums) + NestedEffects(key, m, 0);
    FieldEffects(key, m.fields) + ([Touch(key)] + (ExtEffects(key, m.extensions) + rest))
  }

  function NestedEffects(key: Name, m: MsgDesc, i: nat): seq<Effect>
    requires i <= |m.nested|
    decreases m, |m.nested| - i
  {
    if i == |m.nested| then [] else MsgEffects(key, m.nested[i]) + NestedEffects(key, m, i + 1)
  }

  function MsgsEffects(prefix: Name, ms: seq<MsgDesc>): seq<Effect> {
    if ms == [] then [] else MsgEffects(prefix, ms[0]) + MsgsEffects(prefix, ms[1..])
  }

  function FileEffects(f: File): seq<Effect> {
    EnumEffects(f.package, f.enums) + (MsgsEffects(f.package, f.messages) + ExtEffects(f.package, f.extensions))
  }

  /** `struct _enum`, which never changes once built; IdMaps proves its two tables. */
  datatype EnumV = EnumV(tables: Proto.Enum, defaultId: int, defaultName: Name)

  function EnumOf(table: seq<IdMaps.Kv<Name>>): EnumV
    requires table != []
  {
    EnumV(Proto.Enum(IdMaps.ById(table), IdMaps.ByName(table)), table[0].id, table[0].pointer)
  }

  /** The contents of the environment: for each message its fields by name. */
  datatype Tables = Tables(msgs: map<Name, map<Name, Field>>, enums: map<Name, EnumV>)

  function FieldsOf(t: Tables, key: Name): map<Name, Field> {
    if key in t.msgs then t.msgs[key] else map[]
  }

  /** An enum already there is kept; a message is created by its first field or, if it has
      none, by its initialisation. */
  function Apply(t: Tables, e: Effect): Tables {
    match e
    case AddEnum(key, table) => if key in t.enums || table == [] then t else t.(enums := t.enums[key := EnumOf(table)])
    case AddField(key, f) => t.(msgs := t.msgs[key := FieldsOf(t, key)[f.name := f]])
    case Touch(key) => if key in t.msgs then t else t.(msgs := t.msgs[key := map[]])
  }

  function ApplyAll(t: Tables, es: seq<Effect>): Tables
    decreases |es|
  {
    if es == [] then t else ApplyAll(Apply(t, es[0]), es[1..])
  }

  /** What the code takes for granted of a descriptor: the names and ids within a message
      are new, ids are in range, a new enum has values with distinct ids and names, and a
      message is not initialised without fields once it exists. */
  predicate Addable(t: Tables, e: Effect) {
    match e
    case AddEnum(key, table) => key !in t.enums ==>
      table != [] && IdMaps.DistinctIds(table) && IdMaps.DistinctNames(table)
    case AddField(key, f) =>
      && 1 <= f.id < 0x1000_0000 && f.name !in FieldsOf(t, key)
      && forall n | n in FieldsOf(t, key) :: FieldsOf(t, key)[n].id != f.id
    case Touch(key) => key in t.msgs ==> t.msgs[key] != map[]
  }

  predicate AddableAll(t: Tables, es: seq<Effect>)
    decreases |es|
  {
    es == [] || (Addable(t, es[0]) && AddableAll(Apply(t, es[0]), es[1..]))
  }

  lemma {:induction false} AppliesSplit(t: Tables, a: seq<Effect>, b: seq<Effect>)
    ensures ApplyAll(t, a + b) == ApplyAll(ApplyAll(t, a), b)
    ensures AddableAll(t, a + b) <==> AddableAll(t, a) && AddableAll(ApplyAll(t, a), b)
    decreases |a|
  {
    hide Apply, Addable;
    if a == [] {
      assert a + b == b;
    } else {
      assert (a + b)[1..] == a[1..] + b;
      AppliesSplit(Apply(t, a[0]), a[1..], b);
    }
  }

  /** The environment holds field f of message key. */
  predicate Has(t: Tables, key: Name, f: Field) {
    key in t.msgs && f.name in t.msgs[key] && t.msgs[key][f.name] == f
  }

  /** Loading adds exactly the fields described and loses none, in whatever order they come. */
  lemma {:induction false} AppliedHas(t: Tables, es: seq<Effect>, key: Name, f: Field)
    requires AddableAll(t, es)
    ensures Has(ApplyAll(t, es), key, f) <==> Has(t, key, f) || AddField(key, f) in es
    decreases |es|
  {
    hide IdMaps.ById, IdMaps.ByName, EnumOf;
    if es != [] {
      AppliedHas(Apply(t, es[0]), es[1..], key, f);
      assert es == [es[0]] + es[1..];
    }
  }

  // ---- the environment

  /** `struct _field`'s type reference: a name until it is resolved, then a pointer to the
      message of that key (None for NULL) or to the enum. */
  datatype Ref = Unresolved | ToMessage(key: Option<Name>) | ToEnum(e: EnumV)

  /** The union `default_v` of an enum field. At first it holds the pointer to the text of the
      descriptor; `address` is the lower word of that pointer, which `e.id` shares. Then it
      holds an id and what was looked up as its name. */
  datatype DefaultV = Raw(text: Name, address: IdMaps.int32) | Value(id: int, name: Option<Name>)

  /** `struct _field`, shared by the two indexes of its message. `raw` keeps what the default
      was before it was resolved. */
  class FieldObj {
    const f: Field
    const raw: DefaultV
    var ref: Ref
    var defaultV: DefaultV

    constructor (f: Field, text: Name)
      ensures this.f == f && raw.Raw? && raw.text == text && ref == Unresolved && defaultV == raw
    {
      var address: IdMaps.int32 :| -0x8000_0000 <= address;
      this.f, ref := f, Unresolved;
      raw, defaultV := Raw(text, address), Raw(text, address);
    }
  }

  /** The enum branch of `set_field_one`. The jump to the enum's own default is taken on a
      negative result of `_pbcM_si_query`, which is 0 or 1: for a text that names no value
      the id stays what the pointer left there. */
  function DefaultOf(raw: DefaultV, e: EnumV): DefaultV
    requires raw.Raw?
  {
    if raw.text == [] then Value(e.defaultId, Some(e.defaultName))
    else if raw.text in e.tables.name then
      var id := e.tables.name[raw.text];
      Value(id, NameOf(e, id))
    else Value(raw.address, NameOf(e, raw.address))
  }

  function NameOf(e: EnumV, id: int): Option<Name> {
    if id in e.tables.id then Some(e.tables.id[id]) else None
  }

  /** A value of the enum, under its name. */
  predicate IsValue(d: DefaultV, e: EnumV) {
    d.Value? && d.id in e.tables.id && d.name == Some(e.tables.id[d.id])
  }

  /** A resolved default is a value of its enum if and only if the text is empty or names a
      value, or the lower word of the text's address happens to be the id of one. It is the
      value named, or for the empty text the first value. */
  lemma DefaultExactly(raw: DefaultV, e: EnumV)
    requires raw.Raw? && EnumOk(e)
    ensures IsValue(DefaultOf(raw, e), e) <==> raw.text == [] || raw.text in e.tables.name || raw.address in e.tables.id
    ensures raw.text in e.tables.name && raw.text != [] ==>
              DefaultOf(raw, e) == Value(e.tables.name[raw.text], Some(raw.text))
    ensures raw.text == [] ==> DefaultOf(raw, e) == Value(e.defaultId, Some(e.defaultName))
  {
  }

  /** A descriptor whose default is no value: an enum of the one value A = 0, and the default
      text B at an address whose lower word is 4. The id 4 has no name. */
  lemma UnknownDefault()
    ensures var e := EnumOf([IdMaps.Kv(0, [65])]);
            && EnumOk(e) && DefaultOf(Raw([66], 4), e) == Value(4, None)
            && !IsValue(DefaultOf(Raw([66], 4), e), e)
  {
    var table := [IdMaps.Kv(0, [65])];
    EnumOfOk(table);
    IdMaps.ByIdAt(table);
    IdMaps.ByNameAt(table);
  }

  /** The default of an enum field is a value of its enum if and only if its text gives none
      or names one, or the address happens to be an id. */
  ghost predicate DefaultAsText(f: FieldObj, enums: map<Name, EnumV>)
    reads f
  {
    f.f.typeName in enums && f.raw.Raw? &&
    var e, text := enums[f.f.typeName], f.raw.text;
    IsValue(f.defaultV, e) <==> text == [] || text in e.tables.name || f.raw.address in e.tables.id
  }

  /** `struct _message`: its key and its two indexes. */
  datatype MessageV = MessageV(key: Name, id: map<int, FieldObj>, name: map<Name, FieldObj>) {
    /** The two indexes hold the same fields. */
    ghost predicate Indexed() {
      && (forall n | n in name :: name[n].f.id in id && id[name[n].f.id] == name[n])
      && (forall i | i in id :: id[i].f.id == i && id[i].f.name in name && name[id[i].f.name] == id[i])
    }

    /** Fields stand under their own names, with ids of their own. */
    ghost predicate Named() {
      && (forall n | n in name :: name[n].f.name == n && 1 <= name[n].f.id < 0x1000_0000)
      && (forall a, b | a in name && b in name && name[a].f.id == name[b].f.id :: a == b)
    }

    ghost function View(): Proto.Message {
      Proto.Message(key, map i | i in id :: id[i].f, map n | n in name :: name[n].f)
    }

    lemma ViewInStep()
      requires Indexed() && Named()
      ensures View().InStep() && View().IdsInRange()
    {
    }

    lemma IdIsName(i: int)
      requires Indexed() && i in id
      ensures id[i].f.name in name && name[id[i].f.name] == id[i]
    {
    }

    function Fields(): (m: map<Name, Field>)
      ensures m.Keys == name.Keys && forall n | n in name :: m[n] == name[n].f
    {
      map n | n in name :: name[n].f
    }

    /** The rebuilding of the id index in `_pbcP_init_message`: the fields are counted, put
        in a table in whatever order the name index gives them, and the table is made an
        index. */
    method Reindexed() returns (m: MessageV)
      requires Named()
      ensures m.key == key && m.name == name && m.Indexed()
    {
      var left := name.Keys;
      var table: seq<IdMaps.Kv<FieldObj>> := [];
      while left != {}
        invariant left <= name.Keys && Listed(table, name.Keys - left)
        decreases |left|
      {
        var n :| n in left;
        ListOne(table, name.Keys - left, n);
        assert name.Keys - left + {n} == name.Keys - (left - {n});
        table := table + [IdMaps.Kv(name[n].f.id, name[n])];
        left := left - {n};
      }
      m := MessageV(key, IdMaps.ById(table), name);
      IdMaps.ByIdAt(table);
      assert name.Keys - left == name.Keys;
      hide IdMaps.ById, Named;
      ListedAll(table, m.id);
    }

    /** A table of the fields named in `done`. */
    ghost predicate Listed(table: seq<IdMaps.Kv<FieldObj>>, done: set<Name>) {
      && IdMaps.DistinctIds(table)
      && (forall i | 0 <= i < |table| ::
            && table[i].pointer.f.name in done * name.Keys && name[table[i].pointer.f.name] == table[i].pointer
            && table[i].id == table[i].pointer.f.id)
      && (forall n | n in done * name.Keys :: IdMaps.HasId(table, name[n].f.id))
    }

    lemma ListOne(table: seq<IdMaps.Kv<FieldObj>>, done: set<Name>, n: Name)
      requires Named() && Listed(table, done) && n in name && n !in done
      ensures Listed(table + [IdMaps.Kv(name[n].f.id, name[n])], done + {n})
    {
      var more := table + [IdMaps.Kv(name[n].f.id, name[n])];
      assert more[|table|].id == name[n].f.id;
      assert IdMaps.HasId(more, name[n].f.id);
      forall k | k in done * name.Keys ensures IdMaps.HasId(more, name[k].f.id) {
        var i :| 0 <= i < |table| && table[i].id == name[k].f.id;
        assert more[i].id == name[k].f.id;
      }
    }

    lemma ListedAll(table: seq<IdMaps.Kv<FieldObj>>, id': map<int, FieldObj>)
      requires Named() && Listed(table, name.Keys)
      requires forall i | 0 <= i < |table| :: table[i].id in id' && id'[table[i].id] == table[i].pointer
      requires forall i | i in id' :: IdMaps.HasId(table, i)
      ensures MessageV(key, id', name).Indexed()
    {
      forall n | n in name ensures name[n].f.id in id' && id'[name[n].f.id] == name[n] {
        assert n in name.Keys * name.Keys;
        var i :| 0 <= i < |table| && table[i].id == name[n].f.id;
        assert table[i].pointer.f.name == n;
      }
    }
  }

  /** The message whose extensions are being entered. */
  ghost function Open(last: Option<Name>): set<Name> {
    if last.None? then {} else {Unprefixed(last.value)}
  }

  predicate NeedsType(f: Field) {
    f.ftype.MESSAGE? || f.ftype.ENUM?
  }

  ghost predicate EnumOk(e: EnumV) {
    e.defaultId in e.tables.id && e.tables.id[e.defaultId] == e.defaultName
    && forall n | n in e.tables.name :: e.tables.name[n] in e.tables.id && e.tables.id[e.tables.name[n]] == n
  }

  lemma EnumOfOk(table: seq<IdMaps.Kv<Name>>)
    requires table != [] && IdMaps.DistinctIds(table) && IdMaps.DistinctNames(table)
    ensures EnumOk(EnumOf(table))
  {
    IdMaps.TablesInverse(table);
    IdMaps.ByIdAt(table);
  }

  /** Every message stands under its key, its fields under their names, and outside `dirty`
      its two indexes are in step. */
  ghost predicate Linked(msgs: map<Name, MessageV>, dirty: set<Name>) {
    forall k | k in msgs :: msgs[k].key == k && msgs[k].Named() && (k in dirty || msgs[k].Indexed())
  }

  function Content(msgs: map<Name, MessageV>, enums: map<Name, EnumV>): (t: Tables)
    ensures t.msgs.Keys == msgs.Keys && t.enums == enums && forall k | k in msgs :: t.msgs[k] == msgs[k].Fields()
  {
    Tables(map k | k in msgs :: msgs[k].Fields(), enums)
  }

  /** The fields of all messages. */
  ghost function AllFields(msgs: map<Name, MessageV>): set<FieldObj> {
    set k, n | k in msgs && n in msgs[k].name :: msgs[k].name[n]
  }

  /** A reference that points to what its name names, with the default resolved. */
  ghost predicate Resolved(f: FieldObj, keys: set<Name>, enums: map<Name, EnumV>)
    reads f
  {
    && (f.f.ftype.MESSAGE? ==> f.f.typeName in keys && f.ref == ToMessage(Some(f.f.typeName)))
    && (f.f.ftype.ENUM? ==>
          && f.f.typeName in enums && f.ref == ToEnum(enums[f.f.typeName])
          && f.raw.Raw? && f.defaultV == DefaultOf(f.raw, enums[f.f.typeName]))
  }

  ghost predicate Settled(all: set<FieldObj>, queue: seq<FieldObj>, keys: set<Name>, enums: map<Name, EnumV>)
    reads all
  {
    forall f | f in all :: f in queue || Resolved(f, keys, enums)
  }

  /** Message fields whose type was not there when their file had been entered. */
  ghost predicate Nulls(dangling: set<FieldObj>)
    reads dangling
  {
    forall f | f in dangling :: f.f.ftype.MESSAGE? && f.ref == ToMessage(None)
  }

  ghost predicate AllIn(queue: seq<FieldObj>, all: set<FieldObj>) {
    forall i | 0 <= i < |queue| :: queue[i] in all
  }

  /** Distinct fields that need a type and have not been touched. */
  ghost predicate Waiting(queue: seq<FieldObj>)
    reads queue
  {
    && (forall i | 0 <= i < |queue| ::
         NeedsType(queue[i].f) && queue[i].ref.Unresolved? && queue[i].defaultV == queue[i].raw && queue[i].raw.Raw?)
    && (forall i, j | 0 <= i < j < |queue| :: queue[i] != queue[j])
  }

  ghost predicate EnumsOk(enums: map<Name, EnumV>) {
    forall k | k in enums :: EnumOk(enums[k])
  }

  /** `struct pbc_env`: messages and enums by full name. */
  class Env {
    var msgs: map<Name, MessageV>
    var enums: map<Name, EnumV>
    ghost var dangling: set<FieldObj>

    constructor ()
      ensures Valid({}, []) && Content(msgs, enums) == Tables(map[], map[]) && dangling == {}
    {
      msgs, enums, dangling := map[], map[], {};
      new;
      assert AllFields(msgs) == {};
    }

    /** Between two calls: names and indexes are in order, every field is resolved, in the
        queue or left with a null pointer, and the queue's fields are distinct and not yet
        touched. */
    ghost predicate Valid(dirty: set<Name>, queue: seq<FieldObj>)
      reads this, queue, AllFields(msgs)
    {
      && Linked(msgs, dirty) && EnumsOk(enums) && Waiting(queue)
      && Settled(AllFields(msgs) - dangling, queue, msgs.Keys, enums) && AllIn(queue, AllFields(msgs))
      && dangling <= AllFields(msgs) && Nulls(dangling)
    }

    // ---- proto.c

    /** `_pbcP_push_enum` */
    method PushEnum(key: Name, table: seq<IdMaps.Kv<Name>>, ghost dirty: set<Name>, ghost queue: seq<FieldObj>)
      requires Valid(dirty, queue) && Addable(Content(msgs, enums), AddEnum(key, table))
      modifies this`enums
      ensures Valid(dirty, queue) && Content(msgs, enums) == old(Apply(Content(msgs, enums), AddEnum(key, table)))
    {
      hide Linked, AllFields, EnumOk, Waiting;
      if key in enums {
        return;
      }
      EnumOfOk(table);
      enums := enums[key := EnumOf(table)];
    }

    /** `_pbcP_push_message` */
    method PushMessage(key: Name, f: Field, s: Name, queue: seq<FieldObj>, ghost dirty: set<Name>)
      returns (queue': seq<FieldObj>)
      requires Valid(dirty, queue) && Addable(Content(msgs, enums), AddField(key, f))
      modifies this`msgs
      ensures Valid(dirty + {key}, queue') && Content(msgs, enums) == old(Apply(Content(msgs, enums), AddField(key, f)))
      ensures Grown(queue, queue')
    {
      hide Linked, AllFields, EnumsOk, Content, Apply, Addable;
      FieldsAllocated(msgs);
      ghost var all, keys := AllFields(msgs) - dangling, msgs.Keys;
      assert Settled(all, queue, keys, enums);
      var m := if key in msgs then msgs[key] else MessageV(key, map[], map[]);
      var field := new FieldObj(f, s);
      PushLinked(msgs, enums, key, m, field, dirty);
      PushContent(msgs, enums, key, m, field);
      PushAll(msgs, enums, key, m, field);
      msgs := msgs[key := m.(name := m.name[f.name := field])];
      queue' := if f.ftype.MESSAGE? || f.ftype.ENUM? then queue + [field] else queue;
      assert Linked(msgs, dirty + {key});
      assert Waiting(queue');
      assert msgs.Keys == keys + {key};
      SettledStays(all, queue, keys, msgs.Keys, enums);
      assert AllFields(msgs) - dangling == all + {field};
      assert Settled(AllFields(msgs) - dangling, queue', msgs.Keys, enums);
    }

    /** `_pbcP_init_message` */
    method InitMessage(key: Name, ghost dirty: set<Name>, ghost queue: seq<FieldObj>)
      requires Valid(dirty, queue) && Addable(Content(msgs, enums), Touch(key))
      modifies this`msgs
      ensures Valid(dirty - {key}, queue) && Content(msgs, enums) == old(Apply(Content(msgs, enums), Touch(key)))
    {
      FieldsAllocated(msgs);
      hide Linked, AllFields, EnumsOk, Content, MessageV.Indexed, MessageV.Named, Waiting;
      ContentKeys(msgs, enums);
      ghost var all, keys := AllFields(msgs) - dangling, msgs.Keys;
      if key !in msgs {
        TouchLinked(msgs, enums, key, dirty);
        msgs := msgs[key := MessageV(key, map[], map[])];
        assert msgs.Keys == keys + {key};
        SettledStays(all, queue, keys, msgs.Keys, enums);
        return;
      }
      LinkedAt(msgs, dirty, key);
      var m := msgs[key].Reindexed();
      ReindexLinked(msgs, enums, key, m, dirty);
      msgs := msgs[key := m];
      assert msgs.Keys == keys;
      SettledStays(all, queue, keys, keys, enums);
    }

    // ---- register.c

    /** `_register_enum` for each of a list. */
    method RegisterEnums(prefix: Name, es: seq<EnumDesc>, ghost dirty: set<Name>, ghost queue: seq<FieldObj>)
      requires Valid(dirty, queue) && AddableAll(Content(msgs, enums), EnumEffects(prefix, es))
      modifies this`enums
      ensures Valid(dirty, queue)
      ensures Content(msgs, enums) == old(ApplyAll(Content(msgs, enums), EnumEffects(prefix, es)))
    {
      hide Valid, Content, Addable, Apply;
      ghost var end := ApplyAll(Content(msgs, enums), EnumEffects(prefix, es));
      var i := 0;
      while i < |es|
        invariant 0 <= i <= |es| && Valid(dirty, queue)
        invariant AddableAll(Content(msgs, enums), EnumEffects(prefix, es[i..]))
        invariant ApplyAll(Content(msgs, enums), EnumEffects(prefix, es[i..])) == end
      {
        assert es[i..][1..] == es[i + 1..];
        FirstEffect(Content(msgs, enums), EnumEffects(prefix, es[i..]));
        PushEnum(Concat(prefix, es[i].name), es[i].values, dirty, queue);
        i := i + 1;
      }
    }

    /** The field loop of `_register_message`. */
    method RegisterFieldList(key: Name, fs: seq<FieldDesc>, queue: seq<FieldObj>, ghost dirty: set<Name>)
      returns (queue': seq<FieldObj>)
      requires Valid(dirty, queue) && AddableAll(Content(msgs, enums), FieldEffects(key, fs))
      modifies this`msgs
      ensures Valid(dirty + {key}, queue')
      ensures Content(msgs, enums) == old(ApplyAll(Content(msgs, enums), FieldEffects(key, fs)))
      ensures Grown(queue, queue')
    {
      hide Valid, Content, Addable, Apply;
      ghost var end := ApplyAll(Content(msgs, enums), FieldEffects(key, fs));
      queue' := queue;
      MoreDirty(dirty, dirty + {key}, queue);
      var i := 0;
      while i < |fs|
        invariant 0 <= i <= |fs| && Valid(dirty + {key}, queue') && Grown(queue, queue')
        invariant AddableAll(Content(msgs, enums), FieldEffects(key, fs[i..]))
        invariant ApplyAll(Content(msgs, enums), FieldEffects(key, fs[i..])) == end
      {
        assert fs[i..][1..] == fs[i + 1..];
        FirstEffect(Content(msgs, enums), FieldEffects(key, fs[i..]));
        queue' := PushMessage(key, AsField(fs[i], fs[i].name), fs[i].defaultName, queue', dirty + {key});
        assert dirty + {key} + {key} == dirty + {key};
        i := i + 1;
      }
    }

    /** `_register_extension`: a message is initialised again when the next extension is of
        another one, and the last one at the end, so extensions may come in any order. */
    method RegisterExtensions(prefix: Name, exts: seq<ExtDesc>, queue: seq<FieldObj>) returns (queue': seq<FieldObj>)
      requires Valid({}, queue) && AddableAll(Content(msgs, enums), ExtEffects(prefix, exts))
      modifies this`msgs
      ensures Valid({}, queue') && Content(msgs, enums) == old(ApplyAll(Content(msgs, enums), ExtEffects(prefix, exts)))
      ensures Grown(queue, queue')
    {
      hide Valid, Content, Addable, Apply, Concat, FieldsOf;
      ghost var end := ApplyAll(Content(msgs, enums), ExtEffects(prefix, exts));
      queue' := queue;
      if exts == [] {
        return;
      }
      var last: Option<Name> := None;
      var i := 0;
      while i < |exts|
        invariant 0 <= i <= |exts| && (i > 0 ==> last.Some?) && Grown(queue, queue')
        invariant Valid(Open(last), queue')
        invariant last.Some? ==> FieldsOf(Content(msgs, enums), Unprefixed(last.value)) != map[]
        invariant AddableAll(Content(msgs, enums), ExtEffects(prefix, exts[i..]))
        invariant ApplyAll(Content(msgs, enums), ExtEffects(prefix, exts[i..])) == end
      {
        assert exts[i..][1..] == exts[i + 1..];
        FirstEffect(Content(msgs, enums), ExtEffects(prefix, exts[i..]));
        last, queue' := ExtendOne(prefix, exts[i], last, queue');
        i := i + 1;
      }
      ghost var was := Content(msgs, enums);
      TouchedThere(was, Unprefixed(last.value));
      InitMessage(Unprefixed(last.value), {Unprefixed(last.value)}, queue');
      assert {Unprefixed(last.value)} - {Unprefixed(last.value)} == {};
    }

    /** One round of its loop. */
    method ExtendOne(prefix: Name, e: ExtDesc, last: Option<Name>, queue: seq<FieldObj>)
      returns (last': Option<Name>, queue': seq<FieldObj>)
      requires Valid(Open(last), queue) && Addable(Content(msgs, enums), ExtEffect(prefix, e))
      requires last.Some? ==> FieldsOf(Content(msgs, enums), Unprefixed(last.value)) != map[]
      modifies this`msgs
      ensures last'.Some? && Valid(Open(last'), queue') && Grown(queue, queue')
      ensures FieldsOf(Content(msgs, enums), Unprefixed(last'.value)) != map[]
      ensures Content(msgs, enums) == old(Apply(Content(msgs, enums), ExtEffect(prefix, e)))
    {
      hide Valid, Content, Addable, Apply, Concat, FieldsOf;
      var key := Unprefixed(e.extendee);
      var f := AsField(e.field, Concat(prefix, e.field.name));
      AddedIsThere(Content(msgs, enums), key, f);
      queue' := PushMessage(key, f, e.field.defaultName, queue, Open(last));
      last' := Some(e.extendee);
      if last.None? {
        assert Open(last) + {key} == {key};
      } else if e.extendee != last.value {
        TouchedThere(Content(msgs, enums), Unprefixed(last.value));
        InitMessage(Unprefixed(last.value), Open(last) + {key}, queue');
        MoreDirty(Open(last) + {key} - {Unprefixed(last.value)}, {key}, queue');
      } else {
        assert Open(last) + {key} == {key};
      }
    }

    /** `_register_message` */
    method RegisterMessage(prefix: Name, m: MsgDesc, queue: seq<FieldObj>) returns (queue': seq<FieldObj>)
      requires Valid({}, queue) && AddableAll(Content(msgs, enums), MsgEffects(prefix, m))
      modifies this`msgs, this`enums
      ensures Valid({}, queue') && Content(msgs, enums) == old(ApplyAll(Content(msgs, enums), MsgEffects(prefix, m)))
      ensures Grown(queue, queue')
      decreases m, 1
    {
      hide Valid, Content, Addable, Apply, NestedEffects, ExtEffects, EnumEffects, FieldEffects, AddableAll, ApplyAll;
      var key := Concat(prefix, m.name);
      ghost var t := Content(msgs, enums);
      MsgParts(t, key, m);
      queue' := RegisterFieldList(key, m.fields, queue, {});
      InitMessage(key, {} + {key}, queue');
      assert {} + {key} - {key} == {};
      queue' := RegisterExtensions(key, m.extensions, queue');
      RegisterEnums(key, m.enums, {}, queue');
      queue' := RegisterNested(key, m, queue');
    }

    /** Its last loop. */
    method RegisterNested(key: Name, m: MsgDesc, queue: seq<FieldObj>) returns (queue': seq<FieldObj>)
      requires Valid({}, queue) && AddableAll(Content(msgs, enums), NestedEffects(key, m, 0))
      modifies this`msgs, this`enums
      ensures Valid({}, queue') && Content(msgs, enums) == old(ApplyAll(Content(msgs, enums), NestedEffects(key, m, 0)))
      ensures Grown(queue, queue')
      decreases m, 0
    {
      hide Valid, Content, AddableAll, ApplyAll, MsgEffects;
      ghost var end := ApplyAll(Content(msgs, enums), NestedEffects(key, m, 0));
      queue' := queue;
      var i := 0;
      while i < |m.nested|
        invariant 0 <= i <= |m.nested| && Valid({}, queue') && Grown(queue, queue')
        invariant AddableAll(Content(msgs, enums), NestedEffects(key, m, i))
        invariant ApplyAll(Content(msgs, enums), NestedEffects(key, m, i)) == end
      {
        AppliesSplit(Content(msgs, enums), MsgEffects(key, m.nested[i]), NestedEffects(key, m, i + 1));
        queue' := RegisterMessage(key, m.nested[i], queue');
        i := i + 1;
      }
      NoEffects(Content(msgs, enums));
    }

    /** `set_field_one` */
    method SetFieldOne(field: FieldObj)
      requires NeedsType(field.f) && field.raw.Raw? && field.defaultV == field.raw
      requires field.f.ftype.ENUM? ==> field.f.typeName in enums
      modifies field
      ensures if field.f.ftype.MESSAGE? && field.f.typeName !in msgs then field.ref == ToMessage(None)
              else Resolved(field, msgs.Keys, enums)
    {
      var typeName := field.f.typeName;
      if field.f.ftype.MESSAGE? {
        field.ref := ToMessage(if typeName in msgs then Some(typeName) else None);
      } else if field.f.ftype.ENUM? {
        var e := enums[typeName];
        field.ref := ToEnum(e);
        var str := field.defaultV.text;
        if str != [] {
          var id: int := field.defaultV.address;
          var err := 1;
          if str in e.tables.name {
            id, err := e.tables.name[str], 0;
          }
          assert err >= 0;
          field.defaultV := Value(id, NameOf(e, id));
        } else {
          field.defaultV := Value(e.defaultId, Some(e.defaultName));
        }
      }
    }

    /** `_pbcB_register_fields`: the fields of the queue whose message is not there get a null
        pointer. */
    method RegisterFields(queue: seq<FieldObj>)
      requires Valid({}, queue) && EnumsKnown(Content(msgs, enums))
      modifies queue, this`dangling
      ensures Valid({}, []) && old(dangling) <= dangling
      ensures forall f | f in dangling && f !in old(dangling) :: f.f.typeName !in msgs
    {
      hide Linked, AllFields, EnumOk, Content, EnumsKnown;
      ghost var all, nulls := AllFields(msgs), dangling;
      FieldsAllocated(msgs);
      var i := 0;
      while i < |queue|
        invariant 0 <= i <= |queue|
        invariant Waiting(queue[i..]) && AllIn(queue, all) && Settled(all - dangling, queue[i..], msgs.Keys, enums)
        invariant Nulls(dangling) && nulls <= dangling <= all
        invariant forall f | f in dangling && f !in nulls :: f.f.typeName !in msgs
      {
        ResolveOne(queue[i..], all, nulls);
        assert queue[i..][1..] == queue[i + 1..];
        i := i + 1;
      }
    }

    /** The body of its loop. */
    method ResolveOne(queue: seq<FieldObj>, ghost all: set<FieldObj>, ghost nulls: set<FieldObj>)
      requires queue != [] && EnumsKnown(Content(msgs, enums)) && all == AllFields(msgs)
      requires Waiting(queue) && AllIn(queue, all) && Settled(all - dangling, queue, msgs.Keys, enums)
      requires Nulls(dangling) && nulls <= dangling <= all && forall f | f in dangling && f !in nulls ::
                 f.f.typeName !in msgs
      modifies queue[0], this`dangling
      ensures Waiting(queue[1..]) && AllIn(queue[1..], all) && Settled(all - dangling, queue[1..], msgs.Keys, enums)
      ensures Nulls(dangling) && nulls <= dangling <= all && forall f | f in dangling && f !in nulls ::
                f.f.typeName !in msgs
    {
      FieldsAllocated(msgs);
      hide AllFields, EnumOk, Content, EnumsKnown;
      var field := queue[0];
      assert field in all && field !in dangling;
      KnownOne(msgs, enums, field);
      label Before:
      SetFieldOne(field);
      if field.f.ftype.MESSAGE? && field.f.typeName !in msgs { dangling := dangling + {field}; }
      OneSettled@Before(all - dangling, queue, msgs.Keys, enums);
    }

    /** The message loop of `_register`. */
    method RegisterMessages(prefix: Name, ms: seq<MsgDesc>, queue: seq<FieldObj>) returns (queue': seq<FieldObj>)
      requires Valid({}, queue) && AddableAll(Content(msgs, enums), MsgsEffects(prefix, ms))
      modifies this`msgs, this`enums
      ensures Valid({}, queue') && Content(msgs, enums) == old(ApplyAll(Content(msgs, enums), MsgsEffects(prefix, ms)))
      ensures Grown(queue, queue')
    {
      hide Valid, Content, AddableAll, ApplyAll, MsgEffects;
      ghost var end := ApplyAll(Content(msgs, enums), MsgsEffects(prefix, ms));
      queue' := queue;
      var i := 0;
      while i < |ms|
        invariant 0 <= i <= |ms| && Valid({}, queue') && Grown(queue, queue')
        invariant AddableAll(Content(msgs, enums), MsgsEffects(prefix, ms[i..]))
        invariant ApplyAll(Content(msgs, enums), MsgsEffects(prefix, ms[i..])) == end
      {
        assert ms[i..][1..] == ms[i + 1..];
        AppliesSplit(Content(msgs, enums), MsgEffects(prefix, ms[i]), MsgsEffects(prefix, ms[i + 1..]));
        queue' := RegisterMessage(prefix, ms[i], queue');
        i := i + 1;
      }
      NoEffects(Content(msgs, enums));
    }

    /** `_register`: enums, messages and extensions in that order, then the references of
        every field that was added; references may point forwards and into nested types. */
    method Register(file: File)
      requires Valid({}, []) && Loadable(Content(msgs, enums), file)
      modifies this
      ensures Valid({}, []) && Content(msgs, enums) == old(Loaded(Content(msgs, enums), file))
      ensures old(dangling) <= dangling && forall f | f in dangling && f !in old(dangling) :: f.f.typeName !in msgs
      ensures TypesKnown(Content(msgs, enums)) ==> dangling == old(dangling)
    {
      hide Valid, Content, AddableAll, ApplyAll, MsgsEffects, ExtEffects, EnumEffects, EnumsKnown;
      ghost var t := Content(msgs, enums);
      var es, ms := EnumEffects(file.package, file.enums), MsgsEffects(file.package, file.messages);
      var xs := ExtEffects(file.package, file.extensions);
      AppliesSplit(t, es, ms + xs);
      AppliesSplit(ApplyAll(t, es), ms, xs);
      RegisterEnums(file.package, file.enums, {}, []);
      var queue := RegisterMessages(file.package, file.messages, []);
      queue := RegisterExtensions(file.package, file.extensions, queue);
      RegisterFields(queue);
      NoNewNulls(old(dangling));
    }

    lemma NoNewNulls(nulls: set<FieldObj>)
      requires Valid({}, []) && nulls <= dangling && forall f | f in dangling && f !in nulls :: f.f.typeName !in msgs
      ensures TypesKnown(Content(msgs, enums)) ==> dangling == nulls
    {
      hide AllFields, Content, TypesKnown, EnumsOk, Linked;
      forall f | TypesKnown(Content(msgs, enums)) && f in dangling ensures f in nulls { KnownOne(msgs, enums, f); }
    }

    /** The environment as readers and writers use it. */
    ghost function View(): Proto.Env
      reads this
    {
      Proto.Env(map k | k in msgs :: msgs[k].View(), map k | k in enums :: enums[k].tables)
    }

    /** What registration keeps is what the encoders and decoders ask for: every index in
        step, every reference resolved. */
    lemma ViewClosed()
      requires Valid({}, []) && dangling == {}
      ensures View().Closed()
    {
      hide EnumsOk, Waiting, MessageV.Indexed, MessageV.Named;
      forall k | k in msgs
        ensures View().msgs[k].key == k && View().msgs[k].InStep() && View().msgs[k].IdsInRange()
        ensures forall i | i in View().msgs[k].id :: View().Resolves(View().msgs[k].id[i])
      {
        msgs[k].ViewInStep();
        forall i | i in msgs[k].id ensures View().Resolves(msgs[k].id[i].f) {
          msgs[k].IdIsName(i);
          var f := msgs[k].id[i];
          assert msgs[k].name[f.f.name] == f;
          assert f in AllFields(msgs) - dangling;
        }
      }
    }

    /** Of all enum fields registered, exactly those end up with a value of their enum as
        default whose descriptor gives none or names one, unless an address happens to be an
        id. */
    lemma DefaultsExactly()
      requires Valid({}, [])
      ensures forall f | f in AllFields(msgs) && f.f.ftype.ENUM? :: DefaultAsText(f, enums)
    {
      hide AllFields, Linked, EnumOk;
      forall f | f in AllFields(msgs) && f.f.ftype.ENUM? ensures DefaultAsText(f, enums) {
        assert f in AllFields(msgs) - dangling && Resolved(f, msgs.Keys, enums);
        DefaultExactly(f.raw, enums[f.f.typeName]);
      }
    }

    lemma ContentAt(k: Name, n: Name)
      requires k in Content(msgs, enums).msgs && n in Content(msgs, enums).msgs[k]
      ensures k in msgs && n in msgs[k].name && msgs[k].name[n].f == Content(msgs, enums).msgs[k][n]
    {
    }

    /** A field's reference leads to the message or enum it names, unless it is a null pointer. */
    lemma RefersTo(k: Name, n: Name)
      requires Valid({}, []) && k in msgs && n in msgs[k].name
      ensures var x := msgs[k].name[n];
              && (x.f.ftype.MESSAGE? && x !in dangling ==>
                   x.f.typeName in msgs && x.ref == ToMessage(Some(x.f.typeName)))
              && (x.f.ftype.MESSAGE? && x in dangling ==> x.ref == ToMessage(None))
              && (x.f.ftype.ENUM? ==> x.f.typeName in enums && x.ref == ToEnum(enums[x.f.typeName]))
    {
      hide Linked, EnumsOk;
      var x := msgs[k].name[n];
      assert x in AllFields(msgs);
      assert x in dangling || x in AllFields(msgs) - dangling;
    }

    /** The null pointers among the references to messages; a message that is not there is
        always one of them. */
    lemma DanglingIs()
      requires Valid({}, [])
      ensures forall f | f in AllFields(msgs) && f.f.ftype.MESSAGE? ::
                (f in dangling <==> f.ref == ToMessage(None)) && (f.f.typeName !in msgs ==> f in dangling)
    {
      hide AllFields, Linked, EnumOk;
      assert forall f | f in AllFields(msgs) :: f in dangling || f in AllFields(msgs) - dangling;
    }

    /** Writing to other objects changes nothing here. */
    twostate lemma ValidStays()
      requires old(Valid({}, [])) && unchanged(this)
      requires forall f: FieldObj | old(allocated(f)) :: f.ref == old(f.ref) && f.defaultV == old(f.defaultV)
      ensures Valid({}, [])
    {
    }

    lemma MoreDirty(a: set<Name>, b: set<Name>, queue: seq<FieldObj>)
      requires Valid(a, queue) && a <= b
      ensures Valid(b, queue)
    {
      hide AllFields, EnumsOk, Waiting, Settled, MessageV.Indexed, MessageV.Named;
    }
  }

  lemma FirstEffect(t: Tables, es: seq<Effect>)
    ensures es != [] ==> ApplyAll(t, es) == ApplyAll(Apply(t, es[0]), es[1..])
    ensures es != [] && AddableAll(t, es) ==> Addable(t, es[0]) && AddableAll(Apply(t, es[0]), es[1..])
  {
  }

  /** A file the code may load: names and ids are new, and when all of it is entered every
      enum named by a field is there. */
  predicate Loadable(t: Tables, file: File) {
    AddableAll(t, FileEffects(file)) && EnumsKnown(Loaded(t, file))
  }

  function Loaded(t: Tables, file: File): Tables {
    ApplyAll(t, FileEffects(file))
  }

  lemma NoEffects(t: Tables)
    ensures ApplyAll(t, []) == t
  {
  }

  /** The five parts of a message's effects, one after the other. */
  lemma MsgParts(t: Tables, key: Name, m: MsgDesc)
    ensures var rest := EnumEffects(key, m.enums) + NestedEffects(key, m, 0);
            var es := FieldEffects(key, m.fields) + ([Touch(key)] + (ExtEffects(key, m.extensions) + rest));
            var a := ApplyAll(t, FieldEffects(key, m.fields));
            var b := Apply(a, Touch(key));
            var c := ApplyAll(b, ExtEffects(key, m.extensions));
            var d := ApplyAll(c, EnumEffects(key, m.enums));
            && ApplyAll(t, es) == ApplyAll(d, NestedEffects(key, m, 0))
            && (AddableAll(t, es) ==>
                  && AddableAll(t, FieldEffects(key, m.fields)) && Addable(a, Touch(key))
                     && AddableAll(b, ExtEffects(key, m.extensions))
                  && AddableAll(c, EnumEffects(key, m.enums)) && AddableAll(d, NestedEffects(key, m, 0)))
  {
    hide Apply, Addable, ApplyAll, AddableAll, NestedEffects, ExtEffects, EnumEffects, FieldEffects;
    var fs, xs := FieldEffects(key, m.fields), ExtEffects(key, m.extensions);
    var es, ns := EnumEffects(key, m.enums), NestedEffects(key, m, 0);
    var a := ApplyAll(t, fs);
    var b := Apply(a, Touch(key));
    AppliesSplit(t, fs, [Touch(key)] + (xs + (es + ns)));
    FirstEffect(a, [Touch(key)] + (xs + (es + ns)));
    assert ([Touch(key)] + (xs + (es + ns)))[1..] == xs + (es + ns);
    AppliesSplit(b, xs, es + ns);
    AppliesSplit(ApplyAll(b, xs), es, ns);
  }

  /** Every type a field names is there. */
  predicate TypesKnown(t: Tables) {
    forall k, n | k in t.msgs && n in t.msgs[k] ::
      && (t.msgs[k][n].ftype.MESSAGE? ==> t.msgs[k][n].typeName in t.msgs)
      && (t.msgs[k][n].ftype.ENUM? ==> t.msgs[k][n].typeName in t.enums)
  }

  /** Every enum named by a field is there. */
  predicate EnumsKnown(t: Tables) {
    forall k, n | k in t.msgs && n in t.msgs[k] && t.msgs[k][n].ftype.ENUM? :: t.msgs[k][n].typeName in t.enums
  }

  lemma KnownOne(msgs: map<Name, MessageV>, enums: map<Name, EnumV>, f: FieldObj)
    requires f in AllFields(msgs)
    ensures EnumsKnown(Content(msgs, enums)) && f.f.ftype.ENUM? ==> f.f.typeName in enums
    ensures TypesKnown(Content(msgs, enums)) && f.f.ftype.MESSAGE? ==> f.f.typeName in msgs
  {
    var k, n :| k in msgs && n in msgs[k].name && msgs[k].name[n] == f;
    assert Content(msgs, enums).msgs[k][n] == f.f;
  }

  lemma AddedIsThere(t: Tables, key: Name, f: Field)
    ensures FieldsOf(Apply(t, AddField(key, f)), key) != map[]
    ensures forall k | FieldsOf(t, k) != map[] :: FieldsOf(Apply(t, AddField(key, f)), k) != map[]
  {
    assert f.name in FieldsOf(Apply(t, AddField(key, f)), key);
  }

  /** A message with fields may be initialised again, which does not change the tables. */
  lemma TouchedThere(t: Tables, key: Name)
    requires FieldsOf(t, key) != map[]
    ensures Addable(t, Touch(key)) && Apply(t, Touch(key)) == t
  {
  }

  /** At most fresh fields were added to the queue. */
  twostate predicate Grown(queue: seq<FieldObj>, new queue': seq<FieldObj>) {
    queue <= queue' && forall i | |queue| <= i < |queue'| :: fresh(queue'[i])
  }

  /** The first field in the queue was resolved and nothing else changed. */
  twostate lemma OneSettled(new all: set<FieldObj>, new queue: seq<FieldObj>, new keys: set<Name>,
                            new enums: map<Name, EnumV>)
    requires queue != [] && (queue[0] in all ==> Resolved(queue[0], keys, enums))
    requires forall f | f in all :: old(allocated(f)) && (f != queue[0] ==> unchanged(f))
    requires forall f | f in all :: old(f in queue || Resolved(f, keys, enums))
    ensures Settled(all, queue[1..], keys, enums)
  {
    assert queue == [queue[0]] + queue[1..];
  }

  /** Messages only come in, so what was settled stays settled. */
  twostate lemma SettledStays(new all: set<FieldObj>, new queue: seq<FieldObj>, new keys: set<Name>,
                              new keys': set<Name>,
                              new enums: map<Name, EnumV>)
    requires forall f | f in all :: allocated(f) && old(allocated(f)) && unchanged(f)
    requires forall f | f in all :: old(f in queue || Resolved(f, keys, enums))
    requires keys <= keys'
    ensures Settled(all, queue, keys', enums)
  {
  }

  lemma FieldsAllocated(msgs: map<Name, MessageV>)
    ensures forall f | f in AllFields(msgs) :: allocated(f)
  {
  }

  lemma ContentKeys(msgs: map<Name, MessageV>, enums: map<Name, EnumV>)
    ensures Content(msgs, enums).msgs.Keys == msgs.Keys
  {
  }

  lemma LinkedAt(msgs: map<Name, MessageV>, dirty: set<Name>, key: Name)
    requires Linked(msgs, dirty) && key in msgs
    ensures msgs[key].Named() && msgs[key].key == key
  {
  }

  /** A message with one more field. */
  function WithField(msgs: map<Name, MessageV>, key: Name, m: MessageV, field: FieldObj): map<Name, MessageV> {
    msgs[key := m.(name := m.name[field.f.name := field])]
  }

  predicate IsMessage(msgs: map<Name, MessageV>, key: Name, m: MessageV) {
    m == if key in msgs then msgs[key] else MessageV(key, map[], map[])
  }

  lemma PushLinked(msgs: map<Name, MessageV>, enums: map<Name, EnumV>, key: Name, m: MessageV, field: FieldObj,
                   dirty: set<Name>)
    requires Linked(msgs, dirty) && IsMessage(msgs, key, m) && Addable(Content(msgs, enums), AddField(key, field.f))
    ensures Linked(WithField(msgs, key, m, field), dirty + {key})
  {
    hide MessageV.Indexed;
    var t := Content(msgs, enums);
    assert FieldsOf(t, key).Keys == m.name.Keys;
    forall n | n in m.name ensures m.name[n].f.id != field.f.id && n != field.f.name {
      assert FieldsOf(t, key)[n] == m.name[n].f;
    }
    assert m.Named();
    assert m.(name := m.name[field.f.name := field]).Named();
  }

  lemma PushContent(msgs: map<Name, MessageV>, enums: map<Name, EnumV>, key: Name, m: MessageV, field: FieldObj)
    requires IsMessage(msgs, key, m)
    ensures Content(WithField(msgs, key, m, field), enums) == Apply(Content(msgs, enums), AddField(key, field.f))
  {
    var m' := m.(name := m.name[field.f.name := field]);
    assert m'.Fields() == FieldsOf(Content(msgs, enums), key)[field.f.name := field.f];
  }

  lemma PushAll(msgs: map<Name, MessageV>, enums: map<Name, EnumV>, key: Name, m: MessageV, field: FieldObj)
    requires IsMessage(msgs, key, m) && Addable(Content(msgs, enums), AddField(key, field.f))
    ensures AllFields(WithField(msgs, key, m, field)) == AllFields(msgs) + {field}
  {
    var msgs' := WithField(msgs, key, m, field);
    assert FieldsOf(Content(msgs, enums), key).Keys == m.name.Keys;
    assert msgs'[key].name[field.f.name] == field;
    forall f | f in AllFields(msgs) ensures f in AllFields(msgs') {
      var k, n :| k in msgs && n in msgs[k].name && msgs[k].name[n] == f;
      assert msgs'[k].name[n] == f;
    }
    forall f | f in AllFields(msgs') ensures f in AllFields(msgs) + {field} {
      var k, n :| k in msgs' && n in msgs'[k].name && msgs'[k].name[n] == f;
      if k != key || n != field.f.name { assert k in msgs && msgs[k].name[n] == f; }
    }
  }

  lemma TouchLinked(msgs: map<Name, MessageV>, enums: map<Name, EnumV>, key: Name, dirty: set<Name>)
    requires Linked(msgs, dirty) && key !in msgs
    ensures var msgs' := msgs[key := MessageV(key, map[], map[])];
            && Linked(msgs', dirty - {key}) && AllFields(msgs') == AllFields(msgs)
            && Content(msgs', enums) == Apply(Content(msgs, enums), Touch(key))
  {
    hide AllFields, Content, Apply, MessageV.Indexed, MessageV.Named;
    var m := MessageV(key, map[], map[]);
    NewInOrder(m);
    SameFields(msgs, msgs[key := m]);
    TouchContent(msgs, enums, key, m);
  }

  lemma NewInOrder(m: MessageV)
    requires m.id == map[] && m.name == map[]
    ensures m.Indexed() && m.Named()
  {
  }

  lemma TouchContent(msgs: map<Name, MessageV>, enums: map<Name, EnumV>, key: Name, m: MessageV)
    requires key !in msgs && m.name == map[]
    ensures Content(msgs[key := m], enums) == Apply(Content(msgs, enums), Touch(key))
  {
    assert m.Fields() == map[];
  }

  lemma ReindexLinked(msgs: map<Name, MessageV>, enums: map<Name, EnumV>, key: Name, m: MessageV, dirty: set<Name>)
    requires Linked(msgs, dirty) && key in msgs && m.key == key && m.name == msgs[key].name && m.Indexed()
    ensures var msgs' := msgs[key := m];
            Linked(msgs', dirty - {key}) && AllFields(msgs') == AllFields(msgs)
              && Content(msgs', enums) == Content(msgs, enums)
  {
    hide MessageV.Indexed, AllFields, Content;
    assert m.Named() by { assert msgs[key].Named(); }
    SameFields(msgs, msgs[key := m]);
    SameContent(msgs, msgs[key := m], enums);
  }

  lemma SameContent(a: map<Name, MessageV>, b: map<Name, MessageV>, enums: map<Name, EnumV>)
    requires a.Keys == b.Keys && forall k | k in a :: b[k].name == a[k].name
    ensures Content(a, enums) == Content(b, enums)
  {
    forall k | k in a ensures a[k].Fields() == b[k].Fields() {
    }
  }

  lemma SameFields(a: map<Name, MessageV>, b: map<Name, MessageV>)
    requires a.Keys <= b.Keys && forall k | k in b :: if k in a then b[k].name == a[k].name else b[k].name == map[]
    ensures AllFields(a) == AllFields(b)
  {
    forall f | f in AllFields(a) ensures f in AllFields(b) {
      var k, n :| k in a && n in a[k].name && a[k].name[n] == f;
      assert b[k].name[n] == f;
    }
    forall f | f in AllFields(b) ensures f in AllFields(a) {
      var k, n :| k in b && n in b[k].name && b[k].name[n] == f;
      assert a[k].name[n] == f;
    }
  }
}
