/** When a set of descriptor files can be loaded in any order that respects dependencies:
    a condition on the files alone. */
module Compatible {
  import opened Proto
  import opened Schema
  import opened Register

  predicate Adds(f: File, key: Name, x: Field) {
    AddField(key, x) in FileEffects(f)
  }

  predicate AddsMessage(f: File, key: Name) {
    exists e :: e in FileEffects(f) && !e.AddEnum? && e.key == key
  }

  predicate AddsEnum(f: File, key: Name) {
    exists e :: e in FileEffects(f) && e.AddEnum? && e.table != [] && e.key == key
  }

  /** The file defines the message, and does not only extend it. */
  predicate Defines(f: File, key: Name) {
    Touch(key) in FileEffects(f)
  }

  /** No two files define one message, or give one message fields of the same name or id. */
  ghost predicate Disjoint(f: File, g: File) {
    && (forall key | Defines(f, key) :: !Defines(g, key))
    && (forall key, x, y | Adds(f, key, x) && Adds(g, key, y) :: x.name != y.name && x.id != y.id)
  }

  /** A file the listed file f depends on and that is still to be loaded. */
  predicate Behind(list: seq<File>, base: set<Name>, f: File, g: File) {
    g in list && g.name in f.deps && g.name !in base
  }

  /** A type named in f is already there, defined in f, or defined in a file f depends on. */
  ghost predicate TypeAtHand(t: Tables, list: seq<File>, base: set<Name>, f: File, x: Field) {
    && (x.ftype.MESSAGE? ==>
          (x.typeName in t.msgs || AddsMessage(f, x.typeName)
           || exists g :: Behind(list, base, f, g) && AddsMessage(g, x.typeName)))
    && (x.ftype.ENUM? ==>
          (x.typeName in t.enums || AddsEnum(f, x.typeName)
           || exists g :: Behind(list, base, f, g) && AddsEnum(g, x.typeName)))
  }

  /** The condition: file names are distinct, each file is sound on its own, no two clash,
      and every type is at hand. */
  ghost predicate Wellformed(t: Tables, list: seq<File>, base: set<Name>) {
    && TypesKnown(t)
    && (forall f, g | f in list && g in list && f.name == g.name :: f == g)
    && (forall f | f in list :: AddableAll(t, FileEffects(f)))
    && (forall f, g | f in list && g in list && f != g :: Disjoint(f, g))
    && (forall f, key, x | f in list && Adds(f, key, x) :: TypeAtHand(t, list, base, f, x))
  }

  // ---- more tables, the same effects

  /** u holds what t holds, and what it holds besides does not clash with the effects. */
  ghost predicate Roomy(t: Tables, u: Tables, es: seq<Effect>) {
    && t.msgs.Keys <= u.msgs.Keys && t.enums.Keys <= u.enums.Keys
    && (forall key | key in u.msgs && u.msgs[key] == map[] ::
         NoneThere(t, key) || (key !in t.msgs && Touch(key) !in es))
    && (forall key, n | n in FieldsOf(u, key) ::
          (n in FieldsOf(t, key) && FieldsOf(t, key)[n] == FieldsOf(u, key)[n])
            || NoClash(es, key, FieldsOf(u, key)[n], n))
  }

  /** A message without fields. */
  predicate NoneThere(t: Tables, key: Name) {
    key in t.msgs && t.msgs[key] == map[]
  }

  ghost predicate NoClash(es: seq<Effect>, key: Name, y: Field, n: Name) {
    forall e | e in es && e.AddField? && e.key == key :: e.field.name != n && e.field.id != y.id
  }

  lemma {:induction false} AddableMore(t: Tables, u: Tables, es: seq<Effect>)
    requires AddableAll(t, es) && Roomy(t, u, es)
    ensures AddableAll(u, es)
    decreases |es|
  {
    hide EnumOf;
    if es != [] {
      var e := es[0];
      assert e in es;
      assert Addable(u, e);
      RoomyStep(t, u, es);
      AddableMore(Apply(t, e), Apply(u, e), es[1..]);
    }
  }

  lemma RoomyStep(t: Tables, u: Tables, es: seq<Effect>)
    requires es != [] && Roomy(t, u, es)
    ensures Roomy(Apply(t, es[0]), Apply(u, es[0]), es[1..])
  {
    hide EnumOf, FieldsOf, NoClash, Apply;
    var t', u' := Apply(t, es[0]), Apply(u, es[0]);
    KeysStep(t, u, es[0]);
    forall key | key in u'.msgs && u'.msgs[key] == map[]
      ensures NoneThere(t', key) || (key !in t'.msgs && Touch(key) !in es[1..])
    {
      EmptyStep(t, u, es, key);
    }
    forall key, n | n in FieldsOf(u', key)
      ensures var y := FieldsOf(u', key)[n];
              (n in FieldsOf(t', key) && FieldsOf(t', key)[n] == y) || NoClash(es[1..], key, y, n)
    {
      FieldStep(t, u, es, key, n);
    }
  }

  lemma KeysStep(t: Tables, u: Tables, e: Effect)
    requires t.msgs.Keys <= u.msgs.Keys && t.enums.Keys <= u.enums.Keys
    ensures Apply(t, e).msgs.Keys <= Apply(u, e).msgs.Keys && Apply(t, e).enums.Keys <= Apply(u, e).enums.Keys
  {
    hide EnumOf, FieldsOf;
  }

  lemma EmptyStep(t: Tables, u: Tables, es: seq<Effect>, key: Name)
    requires es != [] && Roomy(t, u, es) && NoneThere(Apply(u, es[0]), key)
    ensures NoneThere(Apply(t, es[0]), key) || (key !in Apply(t, es[0]).msgs && Touch(key) !in es[1..])
  {
    hide EnumOf, NoClash;
    var e := es[0];
    if e.AddField? {
      AddedIsThere(t, e.key, e.field);
      AddedIsThere(u, e.key, e.field);
    }
    if key in u.msgs { assert Touch(key) in es[1..] ==> Touch(key) in es; }
  }

  lemma FieldStep(t: Tables, u: Tables, es: seq<Effect>, key: Name, n: Name)
    requires es != [] && Roomy(t, u, es) && n in FieldsOf(Apply(u, es[0]), key)
    ensures var y := FieldsOf(Apply(u, es[0]), key)[n];
            (n in FieldsOf(Apply(t, es[0]), key) && FieldsOf(Apply(t, es[0]), key)[n] == y)
              || NoClash(es[1..], key, y, n)
  {
    hide EnumOf, NoneThere;
    var e, t', u' := es[0], Apply(t, es[0]), Apply(u, es[0]);
    if e.AddField? && e.key == key && e.field.name == n {
      assert FieldsOf(t', key)[n] == e.field == FieldsOf(u', key)[n];
    } else {
      assert n in FieldsOf(u, key) && FieldsOf(u, key)[n] == FieldsOf(u', key)[n];
      if NoClash(es, key, FieldsOf(u, key)[n], n) {
        forall d | d in es[1..] && d.AddField? && d.key == key
          ensures d.field.name != n && d.field.id != FieldsOf(u', key)[n].id
        {
          assert d in es;
        }
      } else {
        assert n in FieldsOf(t', key) && FieldsOf(t', key)[n] == FieldsOf(t, key)[n];
      }
    }
  }

  // ---- what a log has loaded

  /** A message without fields is an old one, or was defined without any. */
  lemma {:induction false} AppliedEmpty(t: Tables, es: seq<Effect>, key: Name)
    requires NoneThere(ApplyAll(t, es), key)
    ensures NoneThere(t, key) || (key !in t.msgs && Touch(key) in es)
    decreases |es|
  {
    hide EnumOf;
    if es != [] {
      if es[0].AddField? { AddedIsThere(t, es[0].key, es[0].field); }
      AppliedEmpty(Apply(t, es[0]), es[1..], key);
      assert es == [es[0]] + es[1..];
    }
  }

  lemma {:induction false} LoadedEmpty(t: Tables, log: seq<File>, key: Name)
    requires NoneThere(LoadedAll(t, log), key)
    ensures NoneThere(t, key) || (key !in t.msgs && exists f :: f in log && Defines(f, key))
    decreases |log|
  {
    hide FileEffects, ApplyAll;
    if log != [] {
      var n := |log| - 1;
      AppliedEmpty(LoadedAll(t, log[..n]), FileEffects(log[n]), key);
      assert log == log[..n] + [log[n]];
      if NoneThere(LoadedAll(t, log[..n]), key) {
        LoadedEmpty(t, log[..n], key);
      } else {
        LoadedKeys(t, log[..n], log[n]);
        assert log[n] in log && Defines(log[n], key);
      }
    }
  }

  ghost predicate InLog(log: seq<File>, key: Name, x: Field) {
    exists f :: f in log && Adds(f, key, x)
  }

  lemma {:induction false} LoadedHas(t: Tables, log: seq<File>, key: Name, x: Field)
    requires LoadableAll(t, log)
    ensures Has(LoadedAll(t, log), key, x) <==> Has(t, key, x) || InLog(log, key, x)
    decreases |log|
  {
    hide FileEffects, ApplyAll, AddableAll, TypesKnown, Has;
    if log != [] {
      var n := |log| - 1;
      LoadedHas(t, log[..n], key, x);
      AppliedHas(LoadedAll(t, log[..n]), FileEffects(log[n]), key, x);
      InLogStep(log, key, x);
    }
  }

  lemma InLogStep(log: seq<File>, key: Name, x: Field)
    requires log != []
    ensures InLog(log, key, x) <==> InLog(log[..|log| - 1], key, x) || AddField(key, x) in FileEffects(log[|log| - 1])
  {
    hide FileEffects;
    var n := |log| - 1;
    assert log == log[..n] + [log[n]];
    if InLog(log[..n], key, x) {
      var f :| f in log[..n] && Adds(f, key, x);
      assert f in log;
    }
    if AddField(key, x) in FileEffects(log[n]) { assert log[n] in log && Adds(log[n], key, x); }
  }

  lemma {:induction false} AppliedKeys(t: Tables, es: seq<Effect>)
    ensures t.msgs.Keys <= ApplyAll(t, es).msgs.Keys && t.enums.Keys <= ApplyAll(t, es).enums.Keys
    ensures forall e | e in es :: if e.AddEnum? then e.table == [] || e.key in ApplyAll(t, es).enums
            else e.key in ApplyAll(t, es).msgs
    decreases |es|
  {
    hide EnumOf;
    if es != [] {
      AppliedKeys(Apply(t, es[0]), es[1..]);
      assert es == [es[0]] + es[1..];
    }
  }

  /** The messages and enums of a file are there. */
  ghost predicate Present(t: Tables, f: File) {
    forall key :: (AddsMessage(f, key) ==> key in t.msgs) && (AddsEnum(f, key) ==> key in t.enums)
  }

  lemma {:induction false} LoadedKeys(t: Tables, log: seq<File>, f: File)
    ensures t.msgs.Keys <= LoadedAll(t, log).msgs.Keys && t.enums.Keys <= LoadedAll(t, log).enums.Keys
    ensures f in log ==> Present(LoadedAll(t, log), f)
    decreases |log|
  {
    hide FileEffects, ApplyAll;
    if log != [] {
      var n := |log| - 1;
      LoadedKeys(t, log[..n], f);
      AppliedKeys(LoadedAll(t, log[..n]), FileEffects(log[n]));
      assert log == log[..n] + [log[n]];
    }
  }

  /** Every file in a log is listed, and every dependency is in the base or in the log. */
  lemma {:induction false} LogHolds(list: seq<File>, base: set<Name>, log: seq<File>, f: File, d: Name)
    requires LogOk(list, base, log) && f in log && d in f.deps
    ensures f in list && d in base + Names(log)
    decreases |log|
  {
    var n := |log| - 1;
    assert log == log[..n] + [log[n]];
    if f in log[..n] { LogHolds(list, base, log[..n], f, d); }
  }

  lemma {:induction false} LogListed(list: seq<File>, base: set<Name>, log: seq<File>)
    requires LogOk(list, base, log)
    ensures forall f | f in log :: f in list
    decreases |log|
  {
    if log != [] {
      var n := |log| - 1;
      LogListed(list, base, log[..n]);
      assert log == log[..n] + [log[n]];
    }
  }

  /** A type at hand is there once the log has been loaded. */
  lemma TypeLoaded(t: Tables, list: seq<File>, base: set<Name>, log: seq<File>, f: File, x: Field)
    requires LogOk(list, base, log) && f in log && TypeAtHand(t, list, base, f, x)
    requires forall f, g | f in list && g in list && f.name == g.name :: f == g
    ensures x.ftype.MESSAGE? ==> x.typeName in LoadedAll(t, log).msgs
    ensures x.ftype.ENUM? ==> x.typeName in LoadedAll(t, log).enums
  {
    hide LoadedAll, AddsMessage, AddsEnum, LogOk;
    LoadedKeys(t, log, f);
    LogListed(list, base, log);
    forall g | Behind(list, base, f, g) ensures g in log {
      LogHolds(list, base, log, f, g.name);
    }
    forall g | g in log
      ensures Present(LoadedAll(t, log), g)
    {
      LoadedKeys(t, log, g);
    }
  }

  /** One more file can be loaded. */
  lemma NextLoads(t: Tables, list: seq<File>, base: set<Name>, log: seq<File>)
    requires Wellformed(t, list, base) && LogOk(list, base, log) && log != [] && LoadableAll(t, log[..|log| - 1])
    ensures AddableAll(LoadedAll(t, log[..|log| - 1]), FileEffects(log[|log| - 1]))
  {
    var n := |log| - 1;
    var f, u := log[n], LoadedAll(t, log[..n]);
    LogListed(list, base, log[..n]);
    hide FileEffects, LoadedAll, LoadableAll, AddableAll, LogOk;
    LoadedKeys(t, log[..n], f);
    forall key, k | k in FieldsOf(u, key)
      ensures var y := FieldsOf(u, key)[k];
              (k in FieldsOf(t, key) && FieldsOf(t, key)[k] == y) || NoClash(FileEffects(f), key, y, k)
    {
      var y := FieldsOf(u, key)[k];
      NamedRight(t, log[..n], key, k);
      LoadedHas(t, log[..n], key, y);
      if InLog(log[..n], key, y) {
        var g :| g in log[..n] && Adds(g, key, y);
        assert g.name in Names(log[..n]);
        assert Disjoint(f, g);
        assert forall e | e in FileEffects(f) && e.AddField? && e.key == key :: Adds(f, key, e.field);
      }
    }
    forall key | NoneThere(u, key) ensures NoneThere(t, key) || (key !in t.msgs && Touch(key) !in FileEffects(f)) {
      LoadedEmpty(t, log[..n], key);
      if !NoneThere(t, key) {
        var g :| g in log[..n] && Defines(g, key);
        assert g.name in Names(log[..n]);
        assert Disjoint(f, g);
        assert Defines(f, key) <==> Touch(key) in FileEffects(f);
      }
    }
    AddableMore(t, u, FileEffects(f));
  }

  /** Loaded fields stand under their own names, or where they stood before. */
  lemma {:induction false} NamedRight(t: Tables, log: seq<File>, key: Name, k: Name)
    requires k in FieldsOf(LoadedAll(t, log), key)
    ensures var y := FieldsOf(LoadedAll(t, log), key)[k];
            y.name == k || (k in FieldsOf(t, key) && FieldsOf(t, key)[k] == y)
    decreases |log|
  {
    hide FileEffects, ApplyAll;
    if log != [] {
      var n := |log| - 1;
      AppliedNames(LoadedAll(t, log[..n]), FileEffects(log[n]), key, k);
      if k in FieldsOf(LoadedAll(t, log[..n]), key) { NamedRight(t, log[..n], key, k); }
    }
  }

  lemma {:induction false} AppliedNames(t: Tables, es: seq<Effect>, key: Name, k: Name)
    requires k in FieldsOf(ApplyAll(t, es), key)
    ensures var y := FieldsOf(ApplyAll(t, es), key)[k];
            y.name == k || (k in FieldsOf(t, key) && FieldsOf(t, key)[k] == y)
    decreases |es|
  {
    hide EnumOf;
    if es != [] { AppliedNames(Apply(t, es[0]), es[1..], key, k); }
  }

  /** A well-formed set is consistent: whatever order the passes register its files in,
      each can be loaded when its turn comes. */
  lemma {:induction false} WellformedLoads(t: Tables, list: seq<File>, base: set<Name>, log: seq<File>)
    requires Wellformed(t, list, base) && LogOk(list, base, log)
    ensures LoadableAll(t, log) && KnownAll(t, log)
    decreases |log|
  {
    if log != [] {
      var n := |log| - 1;
      WellformedLoads(t, list, base, log[..n]);
      NextLoads(t, list, base, log);
      KnownAfter(t, list, base, log);
      AllKnownEnums(LoadedAll(t, log));
    }
  }

  lemma AllKnownEnums(t: Tables)
    ensures TypesKnown(t) ==> EnumsKnown(t)
  {
  }

  lemma KnownAfter(t: Tables, list: seq<File>, base: set<Name>, log: seq<File>)
    requires Wellformed(t, list, base) && LogOk(list, base, log) && log != [] && LoadableAll(t, log[..|log| - 1])
    requires AddableAll(LoadedAll(t, log[..|log| - 1]), FileEffects(log[|log| - 1]))
    ensures TypesKnown(Loaded(LoadedAll(t, log[..|log| - 1]), log[|log| - 1]))
  {
    hide FileEffects, ApplyAll, AddableAll, LoadableAll, Adds, TypeAtHand;
    var n := |log| - 1;
    var u := LoadedAll(t, log);
    LogListed(list, base, log);
    LoadedKeys(t, log, log[n]);
    forall key, k | key in u.msgs && k in u.msgs[key]
      ensures u.msgs[key][k].ftype.MESSAGE? ==> u.msgs[key][k].typeName in u.msgs
      ensures u.msgs[key][k].ftype.ENUM? ==> u.msgs[key][k].typeName in u.enums
    {
      var y := u.msgs[key][k];
      NamedRight(t, log, key, k);
      if !(k in FieldsOf(t, key) && FieldsOf(t, key)[k] == y) {
        AppliedHas(LoadedAll(t, log[..n]), FileEffects(log[n]), key, y);
        LoadedHas(t, log[..n], key, y);
        InLogStep(log, key, y);
        assert Has(u, key, y);
        FieldFrom(t, list, base, log, key, y);
      }
    }
  }

  lemma FieldFrom(t: Tables, list: seq<File>, base: set<Name>, log: seq<File>, key: Name, y: Field)
    requires Wellformed(t, list, base) && LogOk(list, base, log)
    requires Has(t, key, y) || InLog(log, key, y)
    ensures y.ftype.MESSAGE? ==> y.typeName in LoadedAll(t, log).msgs
    ensures y.ftype.ENUM? ==> y.typeName in LoadedAll(t, log).enums
  {
    hide FileEffects, LoadedAll, LogOk, Adds, TypeAtHand;
    if Has(t, key, y) {
      if log != [] { LoadedKeys(t, log, log[0]); } else { NothingLoaded(t); }
    } else {
      var f :| f in log && Adds(f, key, y);
      LogListed(list, base, log);
      TypeLoaded(t, list, base, log, f, y);
    }
  }

  lemma NothingLoaded(t: Tables)
    ensures LoadedAll(t, []) == t
  {
  }

  lemma WellformedConsistent(t: Tables, list: seq<File>, base: set<Name>)
    requires Wellformed(t, list, base)
    ensures Consistent(t, list, base)
  {
    hide LogOk, LoadableAll, KnownAll, Wellformed;
    forall log: seq<File> | LogOk(list, base, log) ensures LoadableAll(t, log) && KnownAll(t, log) {
      WellformedLoads(t, list, base, log);
    }
  }
}
