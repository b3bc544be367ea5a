/** What a descriptor file says and what the tables hold once it is loaded, stated without the
    steps of the loader (ext/pbc/src/register.c): dotted names, fields and references. */
module Described {
  import opened Wrappers
  import opened Proto
  import opened Schema
  import IdMaps

  const DOT := 46

  // ---- what a file says

  /** The full name of what is called `name` in a scope. */
  predicate FullName(scope: Name, name: Name, full: Name) {
    if scope == [] then full == name else full == scope + [DOT] + name
  }

  /** A name that starts with a dot, without it. */
  predicate AfterDot(dotted: Name, name: Name) {
    if dotted == [] then name == [] else |dotted| == |name| + 1 && dotted[1..] == name
  }

  /** Message n stands under key k in message m of key `outer`, at some depth. */
  ghost predicate Within(outer: Name, m: MsgDesc, k: Name, n: MsgDesc)
    decreases m
  {
    (k == outer && n == m) ||
    exists i, inner: Name ::
      0 <= i < |m.nested| && FullName(outer, m.nested[i].name, inner) && Within(inner, m.nested[i], k, n)
  }

  /** The file defines message m under key k. */
  ghost predicate Defined(f: File, k: Name, m: MsgDesc) {
    exists top, outer: Name :: top in f.messages && FullName(f.package, top.name, outer) && Within(outer, top, k, m)
  }

  /** The scopes of a file: the package, and the key of each message. */
  ghost predicate ExtensionIn(f: File, scope: Name, e: ExtDesc) {
    (scope == f.package && e in f.extensions) || exists m :: Defined(f, scope, m) && e in m.extensions
  }

  ghost predicate EnumIn(f: File, scope: Name, e: EnumDesc) {
    (scope == f.package && e in f.enums) || exists m :: Defined(f, scope, m) && e in m.enums
  }

  /** x is the field d describes, under the name given. */
  predicate FieldFrom(d: FieldDesc, name: Name, x: Field) {
    && x.name == name && x.id == d.id && x.ftype == d.ftype && x.flabel == d.flabel
    && AfterDot(d.typeName, x.typeName)
  }

  /** The file gives message `key` field x: its own fields keep their names, an extension's is
      the full name in the scope it is written in. */
  ghost predicate GivesField(f: File, key: Name, x: Field) {
    || (exists m, d :: Defined(f, key, m) && d in m.fields && FieldFrom(d, d.name, x))
    || (exists scope, e :: ExtensionIn(f, scope, e) && AfterDot(e.extendee, key)
                           && FullName(scope, e.field.name, x.name) && FieldFrom(e.field, x.name, x))
  }

  ghost predicate GivesMessage(f: File, key: Name) {
    || (exists m :: Defined(f, key, m))
    || (exists scope, e :: ExtensionIn(f, scope, e) && AfterDot(e.extendee, key))
  }

  ghost predicate GivesEnum(f: File, key: Name, e: EnumDesc) {
    exists scope :: EnumIn(f, scope, e) && FullName(scope, e.name, key)
  }

  /** The two tables and the default of an enum. */
  ghost predicate EnumFrom(e: EnumDesc, v: EnumV) {
    && e.values != []
    && (forall id :: id in v.tables.id <==> exists i :: 0 <= i < |e.values| && e.values[i].id == id)
    && (forall n :: n in v.tables.name <==> exists i :: 0 <= i < |e.values| && e.values[i].pointer == n)
    && (forall i | 0 <= i < |e.values| ::
          e.values[i].id in v.tables.id && v.tables.id[e.values[i].id] == e.values[i].pointer
          && e.values[i].pointer in v.tables.name && v.tables.name[e.values[i].pointer] == e.values[i].id)
    && v.defaultId == e.values[0].id && v.defaultName == e.values[0].pointer
  }

  // ---- what the loader does

  lemma {:induction false} ConcatIs(scope: Name, name: Name, full: Name)
    ensures FullName(scope, name, full) <==> full == Concat(scope, name)
  {
  }

  lemma {:induction false} TailIs(dotted: Name, name: Name)
    ensures AfterDot(dotted, name) <==> name == Unprefixed(dotted)
  {
  }

  lemma {:induction false} FieldIs(d: FieldDesc, name: Name, x: Field)
    ensures FieldFrom(d, name, x) <==> x == AsField(d, name)
  {
    TailIs(d.typeName, x.typeName);
  }

  ghost predicate EnumEffect(scope: Name, enums: seq<EnumDesc>, x: Effect) {
    x.AddEnum? && exists e :: e in enums && FullName(scope, e.name, x.key) && x.table == e.values
  }

  ghost predicate FieldEffect(key: Name, fields: seq<FieldDesc>, x: Effect) {
    x.AddField? && x.key == key && exists d :: d in fields && FieldFrom(d, d.name, x.field)
  }

  ghost predicate ExtensionEffect(scope: Name, exts: seq<ExtDesc>, x: Effect) {
    x.AddField? && exists e :: e in exts && AfterDot(e.extendee, x.key)
                               && FullName(scope, e.field.name, x.field.name)
                                  && FieldFrom(e.field, x.field.name, x.field)
  }

  lemma {:induction false} InEnums(scope: Name, enums: seq<EnumDesc>, x: Effect)
    ensures x in EnumEffects(scope, enums) <==> EnumEffect(scope, enums, x)
  {
    if enums != [] {
      var e, rest := enums[0], enums[1..];
      InEnums(scope, rest, x);
      assert enums == [e] + rest;
      if x.AddEnum? { ConcatIs(scope, e.name, x.key); }
      assert x == AddEnum(Concat(scope, e.name), e.values) <==>
        x.AddEnum? && FullName(scope, e.name, x.key) && x.table == e.values;
    }
  }

  lemma {:induction false} InFields(key: Name, fields: seq<FieldDesc>, x: Effect)
    ensures x in FieldEffects(key, fields) <==> FieldEffect(key, fields, x)
  {
    hide FieldFrom, AsField;
    if fields != [] {
      var d, rest := fields[0], fields[1..];
      InFields(key, rest, x);
      assert fields == [d] + rest;
      if x.AddField? { FieldIs(d, d.name, x.field); }
    }
  }

  lemma {:induction false} OneExtension(scope: Name, e: ExtDesc, x: Effect)
    ensures x == ExtEffect(scope, e) <==>
              x.AddField? && AfterDot(e.extendee, x.key) && FullName(scope, e.field.name, x.field.name)
              && FieldFrom(e.field, x.field.name, x.field)
  {
    if x.AddField? {
      ConcatIs(scope, e.field.name, x.field.name);
      TailIs(e.extendee, x.key);
      FieldIs(e.field, x.field.name, x.field);
    }
  }

  lemma {:induction false} InExtensions(scope: Name, exts: seq<ExtDesc>, x: Effect)
    ensures x in ExtEffects(scope, exts) <==> ExtensionEffect(scope, exts, x)
  {
    hide FieldFrom, ExtEffect, AfterDot, FullName;
    if exts != [] {
      var e, rest := exts[0], exts[1..];
      InExtensions(scope, rest, x);
      assert exts == [e] + rest;
      OneExtension(scope, e, x);
    }
  }

  /** What one message itself does, under its key. */
  ghost predicate OwnEffect(k: Name, m: MsgDesc, x: Effect) {
    || x == Touch(k) || FieldEffect(k, m.fields, x)
    || ExtensionEffect(k, m.extensions, x) || EnumEffect(k, m.enums, x)
  }

  lemma {:induction false} InMessage(scope: Name, m: MsgDesc, outer: Name, x: Effect)
    requires FullName(scope, m.name, outer)
    ensures x in MsgEffects(scope, m) <==> exists k, n :: Within(outer, m, k, n) && OwnEffect(k, n, x)
    decreases m, |m.nested| + 1
  {
    hide OwnEffect, Within;
    ConcatIs(scope, m.name, outer);
    OwnIn(scope, m, outer, x);
    InNested(outer, m, 0, x);
    if x in MsgEffects(scope, m) {
      if OwnEffect(outer, m, x) {
        WithinSelf(outer, m);
      } else {
        var i, inner: Name, k, n :| 0 <= i < |m.nested| && FullName(outer, m.nested[i].name, inner)
          && Within(inner, m.nested[i], k, n) && OwnEffect(k, n, x);
        WithinNested(outer, m, i, inner, k, n);
      }
    }
    forall k, n | Within(outer, m, k, n) && OwnEffect(k, n, x) ensures x in MsgEffects(scope, m) {
      WithinSplit(outer, m, k, n);
    }
  }

  lemma {:induction false} WithinSelf(outer: Name, m: MsgDesc)
    ensures Within(outer, m, outer, m)
  {
  }

  lemma {:induction false} WithinNested(outer: Name, m: MsgDesc, i: nat, inner: Name, k: Name, n: MsgDesc)
    requires i < |m.nested| && FullName(outer, m.nested[i].name, inner) && Within(inner, m.nested[i], k, n)
    ensures Within(outer, m, k, n)
  {
  }

  lemma {:induction false} WithinSplit(outer: Name, m: MsgDesc, k: Name, n: MsgDesc)
    requires Within(outer, m, k, n)
    ensures (k == outer && n == m) ||
            exists i, inner: Name ::
              0 <= i < |m.nested| && FullName(outer, m.nested[i].name, inner) && Within(inner, m.nested[i], k, n)
  {
  }

  /** The effects of a message are its own and those of its nested messages. */
  lemma {:induction false} OwnIn(scope: Name, m: MsgDesc, outer: Name, x: Effect)
    requires outer == Concat(scope, m.name)
    ensures x in MsgEffects(scope, m) <==> OwnEffect(outer, m, x) || x in NestedEffects(outer, m, 0)
  {
    hide FieldEffect, ExtensionEffect, EnumEffect, FieldEffects, ExtEffects, EnumEffects, NestedEffects;
    InFields(outer, m.fields, x);
    InExtensions(outer, m.extensions, x);
    InEnums(outer, m.enums, x);
  }

  lemma {:induction false} InNested(outer: Name, m: MsgDesc, from: nat, x: Effect)
    requires from <= |m.nested|
    ensures x in NestedEffects(outer, m, from) <==>
              exists i, inner: Name, k, n ::
                from <= i < |m.nested| && FullName(outer, m.nested[i].name, inner)
                && Within(inner, m.nested[i], k, n) && OwnEffect(k, n, x)
    decreases m, |m.nested| - from
  {
    hide OwnEffect, Within, MsgEffects;
    if from < |m.nested| {
      var inner := Concat(outer, m.nested[from].name);
      ConcatIs(outer, m.nested[from].name, inner);
      InMessage(outer, m.nested[from], inner, x);
      InNested(outer, m, from + 1, x);
      forall full: Name | FullName(outer, m.nested[from].name, full) ensures full == inner {
        ConcatIs(outer, m.nested[from].name, full);
      }
    }
  }

  lemma {:induction false} InMessages(scope: Name, ms: seq<MsgDesc>, x: Effect)
    ensures x in MsgsEffects(scope, ms) <==>
              exists top, outer: Name, k, n ::
                top in ms && FullName(scope, top.name, outer) && Within(outer, top, k, n) && OwnEffect(k, n, x)
  {
    hide OwnEffect, Within, MsgEffects;
    if ms != [] {
      var top, rest := ms[0], ms[1..];
      var outer := Concat(scope, top.name);
      ConcatIs(scope, top.name, outer);
      InMessage(scope, top, outer, x);
      InMessages(scope, rest, x);
      assert ms == [top] + rest;
      forall full: Name | FullName(scope, top.name, full) ensures full == outer {
        ConcatIs(scope, top.name, full);
      }
    }
  }

  /** The effects of a file: those of its own scope, and of each message it defines. */
  lemma {:induction false} InFile(f: File, x: Effect)
    ensures x in FileEffects(f) <==>
              || EnumEffect(f.package, f.enums, x) || ExtensionEffect(f.package, f.extensions, x)
              || exists k, m :: Defined(f, k, m) && OwnEffect(k, m, x)
  {
    hide OwnEffect, EnumEffect, ExtensionEffect, EnumEffects, ExtEffects, MsgsEffects;
    InEnums(f.package, f.enums, x);
    InMessages(f.package, f.messages, x);
    InExtensions(f.package, f.extensions, x);
    DefinedIs(f, x);
  }

  lemma {:induction false} DefinedIs(f: File, x: Effect)
    ensures (exists k, m :: Defined(f, k, m) && OwnEffect(k, m, x)) <==>
              exists top, outer: Name, k, n ::
                top in f.messages && FullName(f.package, top.name, outer) && Within(outer, top, k, n)
                  && OwnEffect(k, n, x)
  {
    hide OwnEffect, Within, FullName;
    forall k, m | Defined(f, k, m) && OwnEffect(k, m, x)
      ensures exists top, outer: Name, k, n ::
                top in f.messages && FullName(f.package, top.name, outer) && Within(outer, top, k, n)
                  && OwnEffect(k, n, x)
    {
      var top, outer: Name :| top in f.messages && FullName(f.package, top.name, outer) && Within(outer, top, k, m);
    }
    forall top, outer: Name, k, n | top in f.messages && FullName(f.package, top.name, outer)
                                    && Within(outer, top, k, n) && OwnEffect(k, n, x)
      ensures exists k, m :: Defined(f, k, m) && OwnEffect(k, m, x)
    {
      assert Defined(f, k, n);
    }
  }

  lemma {:induction false} FieldGiven(f: File, key: Name, x: Field)
    ensures AddField(key, x) in FileEffects(f) <==> GivesField(f, key, x)
  {
    hide Defined, FieldFrom, AfterDot, FullName, FileEffects;
    InFile(f, AddField(key, x));
  }

  lemma {:induction false} MessageGiven(f: File, key: Name)
    ensures (exists e :: e in FileEffects(f) && !e.AddEnum? && e.key == key) <==> GivesMessage(f, key)
  {
    hide Defined, FieldFrom, AfterDot, FullName, FileEffects;
    forall e | e in FileEffects(f) && !e.AddEnum? && e.key == key ensures GivesMessage(f, key) {
      InFile(f, e);
      if ExtensionEffect(f.package, f.extensions, e) {
        var x :| x in f.extensions && AfterDot(x.extendee, key);
        assert ExtensionIn(f, f.package, x);
      } else {
        var k, m :| Defined(f, k, m) && OwnEffect(k, m, e);
        if ExtensionEffect(k, m.extensions, e) {
          var x :| x in m.extensions && AfterDot(x.extendee, key);
          assert ExtensionIn(f, k, x);
        }
      }
    }
    if m :| Defined(f, key, m) {
      InFile(f, Touch(key));
      assert OwnEffect(key, m, Touch(key));
    } else if scope, e :| ExtensionIn(f, scope, e) && AfterDot(e.extendee, key) {
      ExtensionGiven(f, scope, e, key);
    }
  }

  lemma {:induction false} ExtensionGiven(f: File, scope: Name, e: ExtDesc, key: Name)
    requires ExtensionIn(f, scope, e) && AfterDot(e.extendee, key)
    ensures exists x :: x in FileEffects(f) && !x.AddEnum? && x.key == key
  {
    hide Defined, FileEffects;
    var full := Concat(scope, e.field.name);
    var x := AddField(key, AsField(e.field, full));
    ConcatIs(scope, e.field.name, full);
    FieldIs(e.field, full, x.field);
    InFile(f, x);
    if scope == f.package && e in f.extensions {
      assert ExtensionEffect(f.package, f.extensions, x);
    } else {
      var m :| Defined(f, scope, m) && e in m.extensions;
      assert OwnEffect(scope, m, x);
    }
  }

  lemma {:induction false} EnumGiven(f: File, key: Name, table: seq<IdMaps.Kv<Name>>)
    ensures AddEnum(key, table) in FileEffects(f) <==> exists e :: GivesEnum(f, key, e) && e.values == table
  {
    hide Defined, FieldFrom, AfterDot, FullName, FileEffects;
    InFile(f, AddEnum(key, table));
  }

  // ---- what the tables hold

  lemma {:induction false} AppliedKeys(t: Tables, es: seq<Effect>, key: Name)
    ensures key in ApplyAll(t, es).msgs <==> key in t.msgs || exists e :: e in es && !e.AddEnum? && e.key == key
    decreases |es|
  {
    hide EnumOf;
    if es != [] {
      AppliedKeys(Apply(t, es[0]), es[1..], key);
      assert es == [es[0]] + es[1..];
    }
  }

  lemma {:induction false} AppliedEnums(t: Tables, es: seq<Effect>, key: Name)
    requires AddableAll(t, es)
    ensures var u := ApplyAll(t, es);
            && (key in u.enums <==> key in t.enums || exists table :: AddEnum(key, table) in es)
            && (key in t.enums ==> u.enums[key] == t.enums[key])
            && (key in u.enums && key !in t.enums ==>
                 exists table :: AddEnum(key, table) in es && Sound(table) && u.enums[key] == EnumOf(table))
    decreases |es|
  {
    hide EnumOf, IdMaps.DistinctIds, IdMaps.DistinctNames;
    if es != [] {
      var v := Apply(t, es[0]);
      AppliedEnums(v, es[1..], key);
      assert es == [es[0]] + es[1..];
      if es[0].AddEnum? && es[0].key == key && key !in t.enums {
        assert AddEnum(key, es[0].table) in es && Sound(es[0].table) && v.enums[key] == EnumOf(es[0].table);
      } else {
        assert key in v.enums <==> key in t.enums;
        if key in ApplyAll(v, es[1..]).enums && key !in t.enums {
          var table :| AddEnum(key, table) in es[1..] && Sound(table)
            && ApplyAll(v, es[1..]).enums[key] == EnumOf(table);
          assert AddEnum(key, table) in es;
        }
      }
    }
  }

  predicate Sound(table: seq<IdMaps.Kv<Name>>) {
    table != [] && IdMaps.DistinctIds(table) && IdMaps.DistinctNames(table)
  }

  lemma {:induction false} EnumIs(e: EnumDesc)
    requires Sound(e.values)
    ensures EnumFrom(e, EnumOf(e.values))
  {
    IdMaps.ByIdAt(e.values);
    IdMaps.ByNameAt(e.values);
  }

  /** The fields after loading are those from before and those the file gives, and no others. */
  lemma {:induction false} FieldsExactly(t: Tables, f: File, key: Name, x: Field)
    requires Loadable(t, f)
    ensures Has(Loaded(t, f), key, x) <==> Has(t, key, x) || GivesField(f, key, x)
  {
    hide FileEffects, GivesField, AddableAll, ApplyAll, Has, EnumsKnown;
    AppliedHas(t, FileEffects(f), key, x);
    FieldGiven(f, key, x);
  }

  /** The messages after loading. */
  lemma {:induction false} MessagesExactly(t: Tables, f: File, key: Name)
    ensures key in Loaded(t, f).msgs <==> key in t.msgs || GivesMessage(f, key)
  {
    hide FileEffects, GivesMessage, ApplyAll;
    AppliedKeys(t, FileEffects(f), key);
    MessageGiven(f, key);
  }

  /** The enums after loading: old ones stay, and a new one has the values of an enum the file
      gives under its key. */
  lemma {:induction false} EnumsExactly(t: Tables, f: File, key: Name)
    requires Loadable(t, f)
    ensures var u := Loaded(t, f);
            && (key in u.enums <==> key in t.enums || exists e :: GivesEnum(f, key, e))
            && (key in t.enums ==> u.enums[key] == t.enums[key])
            && (key in u.enums && key !in t.enums ==> exists e :: GivesEnum(f, key, e) && EnumFrom(e, u.enums[key]))
  {
    hide FileEffects, GivesEnum, AddableAll, ApplyAll, EnumFrom, EnumOf, EnumsKnown;
    var u, es := Loaded(t, f), FileEffects(f);
    AppliedEnums(t, es, key);
    forall table ensures AddEnum(key, table) in es <==> exists e :: GivesEnum(f, key, e) && e.values == table {
      EnumGiven(f, key, table);
    }
    forall e | GivesEnum(f, key, e) ensures AddEnum(key, e.values) in es {
      EnumGiven(f, key, e.values);
    }
    if key in u.enums && key !in t.enums {
      var table :| AddEnum(key, table) in es && Sound(table) && u.enums[key] == EnumOf(table);
      var e :| GivesEnum(f, key, e) && e.values == table;
      EnumIs(e);
    }
  }

  // ---- by name

  /** A message of a package is defined under its dotted name. */
  lemma {:induction false} TopDefined(f: File, m: MsgDesc)
    requires m in f.messages
    ensures f.package != [] ==> Defined(f, f.package + [DOT] + m.name, m)
    ensures f.package == [] ==> Defined(f, m.name, m)
  {
    var k := if f.package == [] then m.name else f.package + [DOT] + m.name;
    WithinSelf(k, m);
    assert FullName(f.package, m.name, k);
  }

  /** A message within another has the other's name before its own, at every depth. */
  lemma {:induction false} NestedDefined(f: File, k: Name, m: MsgDesc, n: MsgDesc)
    requires Defined(f, k, m) && n in m.nested && k != []
    ensures Defined(f, k + [DOT] + n.name, n)
  {
    var top, outer: Name :| top in f.messages && FullName(f.package, top.name, outer) && Within(outer, top, k, m);
    WithinDeeper(outer, top, k, m, n);
  }

  lemma {:induction false} WithinDeeper(outer: Name, top: MsgDesc, k: Name, m: MsgDesc, n: MsgDesc)
    requires Within(outer, top, k, m) && n in m.nested && k != []
    ensures Within(outer, top, k + [DOT] + n.name, n)
    decreases top
  {
    var key := k + [DOT] + n.name;
    WithinSplit(outer, top, k, m);
    if k == outer && m == top {
      var i :| 0 <= i < |m.nested| && m.nested[i] == n;
      WithinSelf(key, n);
      assert FullName(outer, m.nested[i].name, key);
      WithinNested(outer, top, i, key, key, n);
    } else {
      var i, inner: Name :| 0 <= i < |top.nested| && FullName(outer, top.nested[i].name, inner)
        && Within(inner, top.nested[i], k, m);
      WithinDeeper(inner, top.nested[i], k, m, n);
      WithinNested(outer, top, i, inner, key, n);
    }
  }

  /** Under the key of a defined message stand its fields as they are described. */
  lemma {:induction false} FieldStands(t: Tables, f: File, k: Name, m: MsgDesc, d: FieldDesc)
    requires Loadable(t, f) && Defined(f, k, m) && d in m.fields
    ensures var u := Loaded(t, f);
            && k in u.msgs && d.name in u.msgs[k]
            && u.msgs[k][d.name]
               == Field(d.id, d.name, d.ftype, d.flabel, if d.typeName == [] then [] else d.typeName[1..])
  {
    hide Loadable, Loaded, Defined;
    var x := Field(d.id, d.name, d.ftype, d.flabel, if d.typeName == [] then [] else d.typeName[1..]);
    assert FieldFrom(d, d.name, x);
    assert GivesField(f, k, x);
    FieldsExactly(t, f, k, x);
  }

  /** An extension stands in the message it names, under the name of its scope and its own. */
  lemma {:induction false} ExtensionStands(t: Tables, f: File, scope: Name, e: ExtDesc)
    requires Loadable(t, f) && ExtensionIn(f, scope, e) && scope != [] && e.extendee != []
    ensures var u, d, key, name := Loaded(t, f), e.field, e.extendee[1..], scope + [DOT] + e.field.name;
            && key in u.msgs && name in u.msgs[key]
            && u.msgs[key][name]
               == Field(d.id, name, d.ftype, d.flabel, if d.typeName == [] then [] else d.typeName[1..])
  {
    hide Loadable, Loaded, ExtensionIn;
    var d, key, name := e.field, e.extendee[1..], scope + [DOT] + e.field.name;
    var x := Field(d.id, name, d.ftype, d.flabel, if d.typeName == [] then [] else d.typeName[1..]);
    assert AfterDot(e.extendee, key) && FullName(scope, e.field.name, x.name) && FieldFrom(e.field, x.name, x);
    assert GivesField(f, key, x);
    FieldsExactly(t, f, key, x);
  }

  /** An enum stands under the name of its scope and its own. */
  lemma {:induction false} EnumStands(t: Tables, f: File, scope: Name, e: EnumDesc)
    requires Loadable(t, f) && EnumIn(f, scope, e)
    ensures scope != [] ==> scope + [DOT] + e.name in Loaded(t, f).enums
    ensures scope == [] ==> e.name in Loaded(t, f).enums
  {
    hide Loadable, Loaded, EnumIn;
    var key := if scope == [] then e.name else scope + [DOT] + e.name;
    assert GivesEnum(f, key, e);
    EnumsExactly(t, f, key);
  }

  /** A file registered in an environment without null references: every field of its messages
      is there under its names, and one whose type is written as a dot and the key of a
      message points to that message. */
  method RegisterFile(env: Schema.Env, file: File)
    requires env.Valid({}, []) && env.dangling == {} && Loadable(Content(env.msgs, env.enums), file)
    modifies env
    ensures env.Valid({}, [])
    ensures forall k, m, d | Defined(file, k, m) && d in m.fields :: FieldRefers(env.msgs, env.enums, k, d)
  {
    ghost var t := Content(env.msgs, env.enums);
    hide Loadable, Defined, Loaded;
    env.Register(file);
    hide FieldRefers;
    forall k, m, d | Defined(file, k, m) && d in m.fields ensures FieldRefers(env.msgs, env.enums, k, d) {
      FieldIsThere(env, t, file, k, m, d);
    }
  }

  lemma {:induction false} FieldIsThere(env: Schema.Env, t: Tables, file: File, k: Name, m: MsgDesc, d: FieldDesc)
    requires env.Valid({}, []) && Loadable(t, file) && Content(env.msgs, env.enums) == Loaded(t, file)
    requires forall x | x in env.dangling :: x.f.typeName !in env.msgs
    requires Defined(file, k, m) && d in m.fields
    ensures FieldRefers(env.msgs, env.enums, k, d)
  {
    hide Loadable, Defined, Loaded, Content;
    FieldStands(t, file, k, m, d);
    env.ContentAt(k, d.name);
    env.RefersTo(k, d.name);
  }

  ghost predicate FieldRefers(msgs: map<Name, MessageV>, enums: map<Name, EnumV>, k: Name, d: FieldDesc)
    reads if k in msgs && d.name in msgs[k].name then {msgs[k].name[d.name]} else {}
  {
    && k in msgs && d.name in msgs[k].name
    && var x := msgs[k].name[d.name];
       && FieldFrom(d, d.name, x.f)
       && (d.ftype.MESSAGE? ==>
             forall key: Name | d.typeName == [DOT] + key ::
               x.ref == ToMessage(if key in msgs then Some(key) else None))
       && (d.ftype.ENUM? ==>
             forall key: Name | d.typeName == [DOT] + key :: key in enums && x.ref == ToEnum(enums[key]))
  }
}
