/** Loading a set of descriptor files: passes over the list register whatever has its
    dependencies, until none is left or a pass makes no progress (ext/pbc/src/register.c). */
module Register {
  import opened Wrappers
  import opened Proto
  import opened Schema

  function Names(log: seq<File>): set<Name> {
    set f | f in log :: f.name
  }

  predicate Ready(f: File, done: set<Name>) {
    forall d | d in f.deps :: d in done
  }

  /** Nothing is left to register: a file whose dependencies are all there is there. */
  ghost predicate Closed(list: seq<File>, done: set<Name>) {
    forall f | f in list :: Ready(f, done) ==> f.name in done
  }

  /** A possible order of registration: each file is listed, new, and comes after its
      dependencies. */
  ghost predicate LogOk(list: seq<File>, base: set<Name>, log: seq<File>)
    decreases |log|
  {
    log == [] ||
    (var n := |log| - 1;
     LogOk(list, base, log[..n]) && log[n] in list && log[n].name !in base + Names(log[..n])
       && Ready(log[n], base + Names(log[..n])))
  }

  /** The files in the order of the log, loaded one after the other. */
  function LoadedAll(t: Tables, log: seq<File>): Tables
    decreases |log|
  {
    if log == [] then t else Loaded(LoadedAll(t, log[..|log| - 1]), log[|log| - 1])
  }

  ghost predicate LoadableAll(t: Tables, log: seq<File>)
    decreases |log|
  {
    log == [] || (LoadableAll(t, log[..|log| - 1]) && Loadable(LoadedAll(t, log[..|log| - 1]), log[|log| - 1]))
  }

  /** After each file every type named by a field is there. */
  ghost predicate KnownAll(t: Tables, log: seq<File>)
    decreases |log|
  {
    log == [] || (KnownAll(t, log[..|log| - 1]) && TypesKnown(LoadedAll(t, log)))
  }

  /** A listed set of files that can be loaded in any order that respects dependencies, with
      every type at hand. */
  ghost predicate Consistent(t: Tables, list: seq<File>, base: set<Name>) {
    forall log: seq<File> | LogOk(list, base, log) :: LoadableAll(t, log) && KnownAll(t, log)
  }

  /** Whatever a registration order reaches lies in every set that holds the base and is
      closed: with `Closed`, the set reached is the least one. */
  lemma {:induction false} LogIsLeast(list: seq<File>, base: set<Name>, log: seq<File>, s: set<Name>)
    requires LogOk(list, base, log) && base <= s && Closed(list, s)
    ensures base + Names(log) <= s
    decreases |log|
  {
    if log != [] {
      var n := |log| - 1;
      LogIsLeast(list, base, log[..n], s);
      assert forall d | d in log[n].deps :: d in s;
      assert log == log[..n] + [log[n]];
    }
  }

  /** A file that may be entered next: its name is new, and each dependency was there from
      the start or stands in the log. */
  ghost predicate MayFollow(list: seq<File>, base: set<Name>, log: seq<File>, f: File) {
    && f in list && f.name !in base
    && (forall j | 0 <= j < |log| :: log[j].name != f.name)
    && (forall d | d in f.deps :: d in base || exists j :: 0 <= j < |log| && log[j].name == d)
  }

  /** A possible order, read position by position. */
  lemma {:induction false} LogExactly(list: seq<File>, base: set<Name>, log: seq<File>)
    ensures LogOk(list, base, log) <==> forall k | 0 <= k < |log| :: MayFollow(list, base, log[..k], log[k])
    decreases |log|
  {
    if log != [] {
      var n := |log| - 1;
      LogExactly(list, base, log[..n]);
      NamesAt(log[..n]);
      assert LogOk(list, base, log) <==> LogOk(list, base, log[..n]) && MayFollow(list, base, log[..n], log[n]);
      hide MayFollow, LogOk;
      forall k | 0 <= k < n ensures log[..n][..k] == log[..k] && log[..n][k] == log[k] {}
    }
  }

  /** What is left out waits for a dependency. */
  lemma WaitsForOne(list: seq<File>, done: set<Name>)
    requires Closed(list, done)
    ensures forall f | f in list && f.name !in done :: exists d :: d in f.deps && d !in done
  {
  }

  lemma {:induction false} NamesAt(log: seq<File>)
    ensures forall n :: n in Names(log) <==> exists j :: 0 <= j < |log| && log[j].name == n
  {
    forall j | 0 <= j < |log| ensures log[j].name in Names(log) {
      assert log[j] in log;
    }
  }

  /** n lies in every set that holds the base and is closed. */
  ghost predicate InLeast(list: seq<File>, base: set<Name>, n: Name) {
    forall s: set<Name> | base <= s && Closed(list, s) :: n in s
  }

  lemma ReachedIsLeast(list: seq<File>, base: set<Name>, log: seq<File>)
    requires LogOk(list, base, log) && Closed(list, base + Names(log))
    ensures forall n :: n in base + Names(log) <==> InLeast(list, base, n)
  {
    hide LogOk, Closed;
    forall n | n in base + Names(log) ensures InLeast(list, base, n) {
      forall s: set<Name> | base <= s && Closed(list, s) ensures n in s { LogIsLeast(list, base, log, s); }
    }
  }

  lemma LogGrows(list: seq<File>, base: set<Name>, log: seq<File>, f: File)
    requires LogOk(list, base, log) && f in list && f.name !in base + Names(log) && Ready(f, base + Names(log))
    ensures LogOk(list, base, log + [f]) && Names(log + [f]) == Names(log) + {f.name}
    ensures forall t :: LoadedAll(t, log + [f]) == Loaded(LoadedAll(t, log), f)
  {
    assert (log + [f])[..|log|] == log;
  }

  lemma LoadGrows(t: Tables, log: seq<File>, f: File)
    ensures LoadableAll(t, log + [f]) <==> LoadableAll(t, log) && Loadable(LoadedAll(t, log), f)
    ensures KnownAll(t, log + [f]) <==> KnownAll(t, log) && TypesKnown(LoadedAll(t, log + [f]))
  {
    hide Loadable;
    assert (log + [f])[..|log|] == log;
  }

  /** What is left of the list: a file, or nothing once it was registered. */
  ghost predicate Listed(cells: seq<Option<File>>, list: seq<File>, done: set<Name>) {
    |cells| == |list| && forall i | 0 <= i < |list| ::
      cells[i] == Some(list[i]) || (cells[i].None? && list[i].name in done)
  }

  /** What there was before a set of files: the list, the names registered, the tables, whether
      they are described by this model, and the null pointers in them. */
  datatype Start = Start(list: seq<File>, base: set<Name>, t: Tables, sound: bool, nulls: set<FieldObj>)

  datatype Check = CheckOk | CheckExist | CheckDependency

  /** `struct pbc_env` with its table of files: true for one with a string pool, false for
      the NULL the built-in descriptor is entered with. The passes look at names only. A file
      that is not `Loadable` leaves tables that this model does not describe: `sound` is
      false from then on. */
  class Registry {
    const env: Schema.Env
    var files: map<Name, bool>
    var sound: bool
    ghost var log: seq<File>

    constructor (env: Schema.Env)
      ensures this.env == env && files == map[] && log == [] && sound
    {
      this.env, files, log, sound := env, map[], [], true;
    }

    ghost function Done(): set<Name>
      reads this
    {
      set n | n in files && files[n]
    }

    /** The tables are described. */
    ghost predicate Sound()
      reads this, env, AllFields(env.msgs)
    {
      sound ==> env.Valid({}, [])
    }

    /** The state on the way: what is registered is what was and what the log says, and if all
        of its files could be loaded, the environment has loaded exactly these, in its order. */
    ghost predicate Running(b: Start)
      reads this, env, AllFields(env.msgs)
    {
      && LogOk(b.list, b.base, log) && Done() == b.base + Names(log)
      && (sound <==> b.sound && LoadableAll(b.t, log)) && Sound()
      && (sound ==> Content(env.msgs, env.enums) == LoadedAll(b.t, log))
      && (sound && KnownAll(b.t, log) ==> env.dangling == b.nulls)
    }

    /** No listed file has the name of one entered with NULL. */
    ghost predicate NoneNull(list: seq<File>)
      reads this
    {
      forall f | f in list && f.name in files :: files[f.name]
    }

    /** `_check_file_name`: `_pbcM_sp_query` finds no pointer for a name entered with NULL. */
    method CheckFileName(file: File) returns (c: Check)
      ensures c == if file.name in Done() then CheckExist else if Ready(file, Done()) then CheckOk else CheckDependency
      ensures c == CheckDependency <==> file.name !in Done() && exists d :: d in file.deps && d !in Done()
    {
      if file.name in files && files[file.name] {
        return CheckExist;
      }
      var i := 0;
      while i < |file.deps|
        invariant 0 <= i <= |file.deps|
        invariant forall k | 0 <= k < i :: file.deps[k] in Done()
      {
        if !(file.deps[i] in files && files[file.deps[i]]) {
          assert file.deps[i] in file.deps;
          return CheckDependency;
        }
        i := i + 1;
      }
      return CheckOk;
    }

    /** One file: entered in the table, then loaded. */
    method RegisterOne(file: File, ghost b: Start)
      requires Running(b) && file in b.list && file.name !in files && Ready(file, Done())
      modifies this`files, this`log, this`sound, env
      ensures Running(b) && log == old(log) + [file] && files == old(files)[file.name := true]
    {
      hide LogOk, Ready, Content, LoadedAll, LoadableAll, KnownAll, Loaded, Loadable, Names, TypesKnown;
      hide Schema.Env.Valid;
      LogGrows(b.list, b.base, log, file);
      LoadGrows(b.t, log, file);
      files := files[file.name := true];
      log := log + [file];
      assert Done() == old(Done()) + {file.name};
      if sound { env.ValidStays(); }
      if sound && Loadable(Content(env.msgs, env.enums), file) {
        env.Register(file);
      } else {
        sound := false;
      }
    }

    /** The switch of `_register_no_dependency` on the file at position i. */
    method Visit(cells: array<Option<File>>, i: nat, ghost b: Start) returns (err: Check)
      requires Running(b) && Listed(cells[..], b.list, Done()) && NoneNull(b.list)
      requires i < cells.Length && cells[i].Some?
      modifies this`files, this`log, this`sound, env, cells
      ensures Running(b) && Listed(cells[..], b.list, Done()) && NoneNull(b.list)
      ensures var f := b.list[i];
              err == if f.name in old(Done()) then CheckExist else if Ready(f, old(Done())) then CheckOk
                else CheckDependency
      ensures Done() == if err == CheckOk then old(Done()) + {b.list[i].name} else old(Done())
    {
      hide Ready, LogOk, LoadedAll, LoadableAll, KnownAll, Content, Names, Schema.Env.Valid;
      assert cells[i] == cells[..][i] == Some(b.list[i]);
      err := CheckFileName(cells[i].value);
      if sound { env.ValidStays(); }
      if err == CheckOk {
        assert b.list[i] in b.list;
        RegisterOne(cells[i].value, b);
        assert Done() == old(Done()) + {b.list[i].name};
        label Before:
        cells[i] := None;
        if sound { env.ValidStays@Before(); }
      }
    }

    /** `_register_no_dependency`: one pass. The positions counted lie among those counted
        by the pass before (`was`). If nothing was registered they are still blocked; if
        something was, one fewer position, at least, is counted. */
    method Pass(cells: array<Option<File>>, ghost b: Start, ghost was: set<nat>)
      returns (r: nat, ghost blocked: set<nat>)
      requires Running(b) && Listed(cells[..], b.list, Done()) && NoneNull(b.list)
      requires forall i | 0 <= i < |b.list| && i !in was :: b.list[i].name in Done()
      modifies this`files, this`log, this`sound, env, cells
      ensures Running(b) && Listed(cells[..], b.list, Done()) && NoneNull(b.list)
      ensures r == |blocked| && blocked <= was
      ensures forall i | 0 <= i < |b.list| && i !in blocked :: b.list[i].name in Done()
      ensures blocked < was
              || (Closed(b.list, Done()) && forall i | i in blocked :: i < |b.list| && b.list[i].name !in Done())
    {
      hide Running, Ready, NoneNull, Done;
      ghost var start, list := Done(), b.list;
      ghost var moved, first := false, 0;
      r, blocked := 0, {};
      var i := 0;
      while i < cells.Length
        invariant 0 <= i <= cells.Length == |list| && r == |blocked|
        invariant Running(b) && Listed(cells[..], list, Done()) && NoneNull(list)
        invariant start <= Done() && blocked <= was && forall k | k in blocked :: k < i
        invariant forall k | 0 <= k < i && k !in blocked :: list[k].name in Done()
        invariant if moved then first in was && first !in blocked && first < i
                  else Done() == start && forall k | 0 <= k < i && k in blocked ::
                    list[k].name !in start && !Ready(list[k], start)
      {
        if cells[i].Some? {
          var err := Visit(cells, i, b);
          if err == CheckDependency {
            r, blocked := r + 1, blocked + {i};
          } else if err == CheckOk {
            moved, first := true, i;
          }
        } else {
          assert cells[..][i].None?;
        }
        i := i + 1;
      }
      if !moved { NothingMoved(list, start, blocked); }
    }

    /** `pbc_register` of a decoded descriptor set: 0 if and only if all files get
        registered. Either way, what is registered in the end is the least set that holds
        what was registered before and every listed file whose dependencies it holds, and the
        files were entered one by one, each after its dependencies. If each could be loaded,
        the tables hold what they describe, and if every type was at hand, every reference
        is resolved. An empty set, or one that could not be decoded, changes nothing. */
    method RegisterSet(message: Option<seq<File>>) returns (r: int)
      requires Sound() && (message.Some? ==> NoneNull(message.value))
      modifies this`files, this`log, this`sound, env
      ensures Sound() && r in {0, 1}
      ensures message.None? || message.value == [] ==>
                r == 1 && Done() == old(Done()) && sound == old(sound)
                && Content(env.msgs, env.enums) == old(Content(env.msgs, env.enums))
      ensures message.Some? && message.value != [] ==>
                && (r == 0 <==> forall f | f in message.value :: InLeast(message.value, old(Done()), f.name))
                && Done() == old(Done()) + Names(log) && Closed(message.value, Done())
                && LogOk(message.value, old(Done()), log)
                && (forall f | f in message.value && f.name !in Done() :: exists d :: d in f.deps && d !in Done())
      ensures message.Some? && message.value != [] ==>
                var t := old(Content(env.msgs, env.enums));
                && (sound <==> old(sound) && LoadableAll(t, log))
                && (sound ==> Content(env.msgs, env.enums) == LoadedAll(t, log))
                && (sound && KnownAll(t, log) && old(env.dangling) == {} ==> env.dangling == {} && env.View().Closed())
                && (Consistent(t, message.value, old(Done())) ==> (sound <==> old(sound)) && KnownAll(t, log))
    {
      hide LogOk, LoadedAll, LoadableAll, KnownAll, Content, Schema.Env.Valid;
      hide Ready, Schema.Env.View, Proto.Env.Closed, InLeast, Closed, Names;
      if message.None? {
        return 1;
      }
      var list := message.value;
      var n := |list|;
      if n == 0 {
        return 1;
      }
      ghost var b := Start(list, Done(), Content(env.msgs, env.enums), sound, env.dangling);
      log := [];
      var cells := new Option<File>[n](i requires 0 <= i < n => Some(list[i]));
      if sound { env.ValidStays(); }
      NothingYet(list, b.base, b.t);
      r := Passes(cells, list, b);
      if sound && env.dangling == {} { env.ViewClosed(); }
      ReachedIsLeast(list, b.base, log);
      WaitsForOne(list, Done());
    }

    /** The loop of `pbc_register`: the count of blocked files falls strictly in each pass
        that is followed by another. */
    method Passes(cells: array<Option<File>>, list: seq<File>, ghost b: Start) returns (result: int)
      requires Running(b) && Listed(cells[..], list, Done()) && NoneNull(list) && list == b.list != []
      modifies this`files, this`log, this`sound, env, cells
      ensures Running(b) && Closed(list, Done()) && result in {0, 1}
      ensures result == 0 <==> forall f | f in list :: f.name in Done()
    {
      hide Running, NoneNull, Done, Closed;
      var r: nat := |list|;
      ghost var was := UpTo(|list|);
      while true
        invariant Running(b) && Listed(cells[..], list, Done()) && NoneNull(list)
        invariant r == |was| > 0
        invariant forall i | 0 <= i < |list| && i !in was :: list[i].name in Done()
        decreases r
      {
        ghost var blocked;
        var rr;
        rr, blocked := Pass(cells, b, was);
        Fewer(blocked, was);
        if rr == r {
          ghost var i :| i in blocked;
          assert list[i] in list;
          return 1;
        }
        r, was := rr, blocked;
        if r <= 0 { break; }
      }
      NoneLeft(list, Done(), was);
      return 0;
    }
  }

  lemma NothingYet(list: seq<File>, base: set<Name>, t: Tables)
    ensures LogOk(list, base, []) && base + Names([]) == base
    ensures LoadedAll(t, []) == t && LoadableAll(t, []) && KnownAll(t, [])
  {
  }

  ghost function UpTo(n: nat): (s: set<nat>)
    ensures |s| == n && forall i: nat :: i in s <==> i < n
  {
    if n == 0 then {} else UpTo(n - 1) + {n - 1}
  }

  lemma Fewer(a: set<nat>, b: set<nat>)
    requires a <= b
    ensures |a| <= |b| && (a < b ==> |a| < |b|)
  {
    var rest := b - a;
    assert b == a + rest;
    if a < b { var x :| x in rest; assert rest == rest - {x} + {x}; }
  }

  lemma NoneLeft(list: seq<File>, done: set<Name>, blocked: set<nat>)
    requires |blocked| == 0 && forall i | 0 <= i < |list| && i !in blocked :: list[i].name in done
    ensures (forall f | f in list :: f.name in done) && Closed(list, done)
  {
    assert blocked == {};
  }

  lemma NothingMoved(list: seq<File>, done: set<Name>, blocked: set<nat>)
    requires forall k | 0 <= k < |list| && k !in blocked :: list[k].name in done
    requires forall k | 0 <= k < |list| && k in blocked :: !Ready(list[k], done)
    ensures Closed(list, done)
  {
  }
}
