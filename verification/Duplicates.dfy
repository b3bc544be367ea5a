/** `map_sp` with keys inserted again (ext/pbc/src/map.c): `_pbcM_sp_insert` does not look for
    the key, so that the message reader may enter one name several times. Which of the entries
    a lookup finds then depends on whether the first one got its home slot. */
module Duplicates {
  import opened Words
  import opened Wrappers
  import opened Chains
  import opened Index
  import opened SpMap

  // ---- which slots are taken, and which entry is found, from the insertions alone

  /** One entry made, in order. */
  type Log<V> = seq<(Name, V)>

  /** The first slot that is free, probing from slot i. */
  function FreeFrom(taken: set<nat>, cap: nat, i: nat, steps: nat): nat
    requires cap > 0
    decreases steps
  {
    if steps == 0 || i !in taken then i else FreeFrom(taken, cap, (i + 1) % cap, steps - 1)
  }

  function HomeOf(cap: nat, n: Name): nat
    requires cap > 0
  {
    Hash(n) % cap
  }

  function SlotFor(taken: set<nat>, cap: nat, n: Name): nat
    requires cap > 0
  {
    if HomeOf(cap, n) !in taken then HomeOf(cap, n) else FreeFrom(taken, cap, (HomeOf(cap, n) + 1) % cap, cap)
  }

  /** The slots taken by the entries of a log. */
  function Taken<V>(cap: nat, log: Log<V>): set<nat>
    requires cap > 0
  {
    if log == [] then {}
    else
      var before := Taken(cap, log[..|log| - 1]);
      before + {SlotFor(before, cap, log[|log| - 1].0)}
  }

  /** The values entered under a name, in order. */
  function ValuesOf<V>(log: Log<V>, n: Name): seq<V> {
    if log == [] then []
    else ValuesOf(log[..|log| - 1], n) + if log[|log| - 1].0 == n then [log[|log| - 1].1] else []
  }

  /** The home slot of the name was free when its first entry was made. */
  predicate GotHome<V>(cap: nat, log: Log<V>, n: Name)
    requires cap > 0
  {
    log != [] &&
    var before := log[..|log| - 1];
    if ValuesOf(before, n) != [] then GotHome(cap, before, n)
    else log[|log| - 1].0 == n && HomeOf(cap, n) !in Taken(cap, before)
  }

  /** What a lookup finds: the first value entered if that has the home slot, and otherwise
      the last one. */
  function Answer<V>(cap: nat, log: Log<V>, n: Name): Option<V>
    requires cap > 0
  {
    var vs := ValuesOf(log, n);
    if vs == [] then None else if GotHome(cap, log, n) then Some(vs[0]) else Some(vs[|vs| - 1])
  }

  lemma {:induction false} LogStep<V>(cap: nat, log: Log<V>, n: Name, v: V)
    requires cap > 0
    ensures Taken(cap, log + [(n, v)]) == Taken(cap, log) + {SlotFor(Taken(cap, log), cap, n)}
    ensures forall k :: ValuesOf(log + [(n, v)], k) == ValuesOf(log, k) + if k == n then [v] else []
    ensures forall k :: GotHome(cap, log + [(n, v)], k) ==
                        if ValuesOf(log, k) != [] then GotHome(cap, log, k)
                          else k == n && HomeOf(cap, n) !in Taken(cap, log)
  {
    assert (log + [(n, v)])[..|log|] == log;
  }

  // ---- the entry a walk meets first

  function FirstOn<V>(slots: seq<Slot<V>>, walk: seq<nat>, n: Name): Option<V> {
    if walk == [] then None
    else if walk[0] < |slots| && slots[walk[0]].key == Some(n) then slots[walk[0]].pointer
    else FirstOn(slots, walk[1..], n)
  }

  /** Slots the walk does not meet, and links, do not matter. */
  lemma {:induction false} FirstSame<V>(a: seq<Slot<V>>, b: seq<Slot<V>>, walk: seq<nat>, n: Name)
    requires |a| == |b| && forall x | x in walk && x < |a| :: a[x].key == b[x].key && a[x].pointer == b[x].pointer
    ensures FirstOn(a, walk, n) == FirstOn(b, walk, n)
  {
    if walk != [] { FirstSame(a, b, walk[1..], n); }
  }

  /** Nor does another name's slot put into the walk. */
  lemma {:induction false} FirstAfter<V>(slots: seq<Slot<V>>, walk: seq<nat>, s: nat, e: nat, n: Name)
    requires e < |slots| && slots[e].key != Some(n)
    ensures FirstOn(slots, After(walk, s, e), n) == FirstOn(slots, walk, n)
  {
    if walk != [] {
      if walk[0] == s {
        assert ([s, e] + walk[1..])[1..] == [e] + walk[1..];
        assert ([e] + walk[1..])[1..] == walk[1..];
      } else {
        FirstAfter(slots, walk[1..], s, e, n);
        assert ([walk[0]] + After(walk[1..], s, e))[1..] == After(walk[1..], s, e);
      }
    }
  }

  lemma {:induction false} FirstNone<V>(slots: seq<Slot<V>>, walk: seq<nat>, n: Name)
    requires forall i | 0 <= i < |slots| :: slots[i].key != Some(n)
    ensures FirstOn(slots, walk, n) == None
  {
    if walk != [] { FirstNone(slots, walk[1..], n); }
  }

  /** A new entry put behind a slot s of the walk is the first of its name, unless there is
      one up to s. */
  lemma {:induction false} FirstBehind<V>(slots: seq<Slot<V>>, walk: seq<nat>, s: nat, e: nat, n: Name)
    requires e < |slots| && slots[e].key == Some(n) && s in walk
    requires walk[0] == s || FirstOn(slots, walk, n) == None
    requires forall i | 0 <= i < |slots| && slots[i].key == Some(n) :: slots[i].pointer.Some?
    ensures FirstOn(slots, After(walk, s, e), n)
         == if walk[0] == s && s < |slots| && slots[s].key == Some(n) then slots[s].pointer else slots[e].pointer
  {
    if walk[0] == s {
      assert ([s, e] + walk[1..])[1..] == [e] + walk[1..];
    } else {
      FirstBehind(slots, walk[1..], s, e, n);
      assert ([walk[0]] + After(walk[1..], s, e))[1..] == After(walk[1..], s, e);
    }
  }

  // ---- the table as a value

  /** The slots taken are those of the log, in chains, and every name is found as the log
      says. */
  ghost predicate Holds<V>(slots: seq<Slot<V>>, tail: seq<seq<nat>>, log: Log<V>) {
    && |slots| > 0 && Chained(Links(Cells(slots)), tail)
    && (forall i | 0 <= i < |slots| :: Fields(slots[i]) && (slots[i].key.Some? <==> i in Taken(|slots|, log)))
    && (forall i | 0 <= i < |slots| && slots[i].key.Some? ::
         slots[i].pointer.Some? && ValuesOf(log, slots[i].key.value) != [])
    && (forall n: Name :: FoundAs(slots, tail, log, n))
  }

  ghost predicate FoundAs<V>(slots: seq<Slot<V>>, tail: seq<seq<nat>>, log: Log<V>, n: Name)
    requires |slots| == |tail| > 0
  {
    ValuesOf(log, n) != [] ==>
      var h := HomeOf(|slots|, n);
      FirstOn(slots, tail[h], n) == Answer(|slots|, log, n) && (slots[h].key == Some(n) <==> GotHome(|slots|, log, n))
  }

  lemma {:induction false} NothingHeld<V>(slots: seq<Slot<V>>)
    requires |slots| > 0 && forall i | 0 <= i < |slots| :: slots[i] == Empty()
    ensures Holds(slots, seq(|slots|, _ => []), [])
  {
    NonePlaced(Cells(slots), Home(|slots|));
  }

  lemma {:induction false} UsedOrNot<V>(slots: seq<Slot<V>>, tail: seq<seq<nat>>, log: Log<V>, i: nat)
    requires Holds(slots, tail, log) && i < |slots|
    ensures |tail| == |slots| && Links(Cells(slots))[i] == Link(slots[i].key.Some?, slots[i].next)
    ensures slots[i].key.None? ==> tail[i] == [] && slots[i].next == 0
    ensures slots[i].key.Some? ==> tail[i] != [] && tail[i][0] == i
    ensures slots[i].next != 0 ==>
              slots[i].next <= |slots| && slots[slots[i].next - 1].key.Some? && tail[i] == [i] + tail[slots[i].next - 1]
    ensures slots[i].key.Some? && slots[i].next == 0 ==> tail[i] == [i]
  {
    assert WalkFrom(Links(Cells(slots)), tail, i);
  }

  /** A name none of whose entries can be met has no entries. */
  lemma {:induction false} NoEntry<V>(slots: seq<Slot<V>>, tail: seq<seq<nat>>, log: Log<V>, n: Name)
    requires Holds(slots, tail, log) && FirstOn(slots, tail[HomeOf(|slots|, n)], n) == None
    ensures ValuesOf(log, n) == [] && forall i | 0 <= i < |slots| :: slots[i].key != Some(n)
  {
    hide Hash, Fields, Taken, GotHome, WalkFrom;
    assert FoundAs(slots, tail, log, n);
  }

  lemma {:induction false} OthersKept<V>(slots: seq<Slot<V>>, tail: seq<seq<nat>>, log: Log<V>, slots': seq<Slot<V>>,
                                         tail': seq<seq<nat>>,
                      log': Log<V>, n: Name)
    requires Holds(slots, tail, log) && |slots'| == |tail'| == |slots|
    requires ValuesOf(log', n) == ValuesOf(log, n)
    requires ValuesOf(log, n) != [] ==> GotHome(|slots|, log', n) == GotHome(|slots|, log, n)
    requires var h := HomeOf(|slots|, n);
             ValuesOf(log, n) != [] ==>
               FirstOn(slots', tail'[h], n) == FirstOn(slots, tail[h], n) && slots'[h].key == slots[h].key
    ensures FoundAs(slots', tail', log', n)
  {
    hide Hash, Fields, Taken, WalkFrom;
    assert FoundAs(slots, tail, log, n);
  }

  /** An entry in its own free home slot. */
  lemma {:induction false} PutInHome<V>(slots: seq<Slot<V>>, tail: seq<seq<nat>>, log: Log<V>, key: Name, v: V)
    requires Holds(slots, tail, log) && slots[HomeOf(|slots|, key)].key.None?
    ensures var h := HomeOf(|slots|, key);
            var slots' := slots[h := Slot(Some(key), Hash(key), Some(v), slots[h].next)];
            && |tail| == |slots|
            && Holds(slots', tail[h := [h]], log + [(key, v)])
            && Count(Links(Cells(slots'))) == Count(Links(Cells(slots))) + 1
  {
    hide Hash, Taken, GotHome, FreeFrom, ValuesOf, WalkFrom;
    var cap, h := |slots|, HomeOf(|slots|, key);
    var slots' := slots[h := Slot(Some(key), Hash(key), Some(v), slots[h].next)];
    var tail', log' := tail[h := [h]], log + [(key, v)];
    UsedOrNot(slots, tail, log, h);
    LogStep(cap, log, key, v);
    OccupyKeeps(Links(Cells(slots)), tail, h);
    CountUpdate(Links(Cells(slots)), h, Link(true, 0));
    assert Links(Cells(slots')) == Links(Cells(slots))[h := Link(true, 0)];
    NoEntry(slots, tail, log, key);
    forall n: Name ensures FoundAs(slots', tail', log', n) {
      if n == key {
        assert [h][1..] == [];
      } else if ValuesOf(log, n) != [] {
        var g := HomeOf(cap, n);
        assert FoundAs(slots, tail, log, n);
        if g == h { FirstNoneEmpty(slots, n); }
        Untouched(slots, tail, log, g, h);
        FirstSame(slots, slots', tail[g], n);
        OthersKept(slots, tail, log, slots', tail', log', n);
      }
    }
  }

  lemma {:induction false} FirstNoneEmpty<V>(slots: seq<Slot<V>>, n: Name)
    ensures FirstOn(slots, [], n) == None
  {
  }

  /** No walk meets a free slot. */
  lemma {:induction false} Untouched<V>(slots: seq<Slot<V>>, tail: seq<seq<nat>>, log: Log<V>, g: nat, e: nat)
    requires Holds(slots, tail, log) && g < |slots| && e < |slots| && slots[e].key.None?
    ensures |tail| == |slots| && e !in tail[g]
  {
    hide Hash, Fields, Taken, FoundAs;
    if e in tail[g] { WalkMeets(Links(Cells(slots)), tail, g, e); }
  }

  /** The slots after an entry goes to the free slot e behind slot s. */
  function Behind<V>(slots: seq<Slot<V>>, s: nat, e: nat, key: Name, v: V): (r: seq<Slot<V>>)
    requires s < |slots| && e < |slots|
    ensures |r| == |slots|
  {
    slots[e := Slot(Some(key), Hash(key), Some(v), slots[s].next)][s := slots[s].(next := e + 1)]
  }

  lemma {:induction false} ChainsKept<V>(slots: seq<Slot<V>>, tail: seq<seq<nat>>, log: Log<V>, s: nat, e: nat,
                                         key: Name, v: V)
    requires Holds(slots, tail, log) && s < |slots| && e < |slots| && slots[s].key.Some? && slots[e].key.None?
    ensures |tail| == |slots| && tail[s] != []
    ensures Chained(Links(Cells(Behind(slots, s, e, key, v))), SplicedTail(tail, s, e))
    ensures Count(Links(Cells(Behind(slots, s, e, key, v)))) == Count(Links(Cells(slots))) + 1
  {
    hide Hash, Taken, FoundAs, ValuesOf, WalkFrom, After, Fields, Count;
    var links := Links(Cells(slots));
    SpliceKeeps(links, tail, s, e);
    CountUpdate(links, e, Link(true, links[s].next));
    CountUpdate(links[e := Link(true, links[s].next)], s, Link(true, e + 1));
    assert Links(Cells(Behind(slots, s, e, key, v))) == Spliced(links, s, e);
  }

  /** An entry in a free slot e, spliced in behind a slot s of the chain of its home slot: the
      home slot itself, or for a name without entries any slot. */
  lemma {:induction false} PutInChain<V>(slots: seq<Slot<V>>, tail: seq<seq<nat>>, log: Log<V>, s: nat, e: nat,
                                         key: Name, v: V)
    requires Holds(slots, tail, log) && s < |slots| && e < |slots|
    requires var h := HomeOf(|slots|, key);
             slots[h].key.Some? && s in tail[h] && (s == h || ValuesOf(log, key) == [])
    requires slots[s].key.Some? && slots[e].key.None? && e == SlotFor(Taken(|slots|, log), |slots|, key)
    ensures |tail| == |slots| && tail[s] != []
    ensures var slots' := Behind(slots, s, e, key, v);
            && Holds(slots', SplicedTail(tail, s, e), log + [(key, v)])
            && Count(Links(Cells(slots'))) == Count(Links(Cells(slots))) + 1
  {
    hide Hash, Taken, GotHome, FreeFrom, ValuesOf, WalkFrom, After, Count;
    var slots' := Behind(slots, s, e, key, v);
    ChainsKept(slots, tail, log, s, e, key, v);
    var tail', log' := SplicedTail(tail, s, e), log + [(key, v)];
    assert |tail'| == |slots'|;
    LogStep(|slots|, log, key, v);
    forall n: Name ensures FoundAs(slots', tail', log', n) {
      if n == key {
        FoundKey(slots, tail, log, s, e, key, v);
      } else if ValuesOf(log, n) != [] {
        FoundOther(slots, tail, log, s, e, key, v, n);
      }
    }
  }

  lemma {:induction false} FoundOther<V>(slots: seq<Slot<V>>, tail: seq<seq<nat>>, log: Log<V>, s: nat, e: nat,
                                         key: Name, v: V, n: Name)
    requires Holds(slots, tail, log) && s < |slots| == |tail| && e < |slots| && tail[s] != []
    requires slots[s].key.Some? && slots[e].key.None? && n != key && ValuesOf(log, n) != []
    ensures var slots' := Behind(slots, s, e, key, v);
            FoundAs(slots', SplicedTail(tail, s, e), log + [(key, v)], n)
  {
    hide Hash, Taken, GotHome, FreeFrom, ValuesOf, WalkFrom, After, Fields;
    var slots' := Behind(slots, s, e, key, v);
    var g := HomeOf(|slots|, n);
    LogStep(|slots|, log, key, v);
    UsedOrNot(slots, tail, log, g);
    FirstNoneEmpty(slots, n);
    assert FoundAs(slots, tail, log, n);
    Untouched(slots, tail, log, g, e);
    FirstSame(slots, slots', tail[g], n);
    FirstAfter(slots', tail[g], s, e, n);
    OthersKept(slots, tail, log, slots', SplicedTail(tail, s, e), log + [(key, v)], n);
  }

  lemma {:induction false} FoundKey<V>(slots: seq<Slot<V>>, tail: seq<seq<nat>>, log: Log<V>, s: nat, e: nat,
                                       key: Name, v: V)
    requires Holds(slots, tail, log) && s < |slots| == |tail| && e < |slots| && tail[s] != []
    requires var h := HomeOf(|slots|, key);
             slots[h].key.Some? && s in tail[h] && (s == h || ValuesOf(log, key) == [])
    requires slots[s].key.Some? && slots[e].key.None?
    ensures var slots' := Behind(slots, s, e, key, v);
            FoundAs(slots', SplicedTail(tail, s, e), log + [(key, v)], key)
  {
    hide Hash, Taken, GotHome, FreeFrom, WalkFrom, After, Fields, FirstOn;
    var slots' := Behind(slots, s, e, key, v);
    var h := HomeOf(|slots|, key);
    LogStep(|slots|, log, key, v);
    UsedOrNot(slots, tail, log, h);
    assert FoundAs(slots, tail, log, key);
    Untouched(slots, tail, log, h, e);
    FirstSame(slots, slots', tail[h], key);
    if ValuesOf(log, key) == [] {
      FirstNone(slots, tail[h], key);
    } else if slots[h].key == Some(key) {
      FirstHere(slots, tail[h], key);
    }
    FirstBehind(slots', tail[h], s, e, key);
  }

  lemma {:induction false} FirstHere<V>(slots: seq<Slot<V>>, walk: seq<nat>, n: Name)
    requires walk != [] && walk[0] < |slots| && slots[walk[0]].key == Some(n)
    ensures FirstOn(slots, walk, n) == slots[walk[0]].pointer
  {
  }

  // ---- the code

  /** `struct map_sp`, in a table that is never full: the reader makes it as large as the number
      of its records. */
  class DupMap<V> {
    var cap: nat
    var size: nat
    var slot: array<Slot<V>>
    ghost var tail: seq<seq<nat>>
    ghost var log: Log<V>

    ghost predicate Valid()
      reads this, slot
    {
      && slot.Length == cap && PowerOfTwo(cap)
      && Holds(slot[..], tail, log)
      && size == Count(Links(Cells(slot[..]))) == |log|
    }

    /** `_pbcM_sp_new` */
    constructor (max: nat)
      ensures Valid() && log == [] && max <= cap && fresh(slot)
    {
      var c := Capacity(max);
      cap, size := c, 0;
      slot := new Slot<V>[c](_ => Empty());
      tail, log := seq(c, _ => []), [];
      new;
      hide Hash, Holds, PowerOfTwo;
      NothingHeld(slot[..]);
      NoneUsed(Links(Cells(slot[..])));
    }

    /** Linear probing from behind slot h. */
    method Probe(h: nat) returns (empty: nat)
      requires Valid() && h < cap && size < cap
      ensures empty < cap && slot[empty].key.None? && empty == FreeFrom(Taken(cap, log), cap, (h + 1) % cap, cap)
    {
      hide Hash, Holds, Taken, Count, And, PowerOfTwo;
      ghost var taken, steps := Taken(cap, log), cap;
      ghost var free := SomeFree();
      empty := And(h + 1, cap - 1);
      AndMask(h + 1, cap);
      TakenIs(empty);
      while slot[empty].key.Some?
        invariant empty < cap && steps >= Left(empty, free) && !slot[free].key.Some? && free < cap
        invariant FreeFrom(taken, cap, (h + 1) % cap, cap) == FreeFrom(taken, cap, empty, steps)
        invariant slot[empty].key.Some? <==> empty in taken
        decreases Left(empty, free)
      {
        AndMask(empty + 1, cap);
        Wraps(empty, cap);
        empty := And(empty + 1, cap - 1);
        steps := steps - 1;
        TakenIs(empty);
      }
    }

    lemma {:induction false} SomeFree() returns (free: nat)
      requires Valid() && size < cap
      ensures free < cap && slot[free].key.None?
    {
      hide Hash, Holds;
      free := FreeSlot(Links(Cells(slot[..])));
    }

    function Left(i: nat, free: nat): nat
      requires i < cap && free < cap
      reads this
    {
      if i <= free then free - i else free - i + cap
    }

    /** A free slot e for a key: its home slot, or spliced in behind slot s. */
    method Enter(key: Name, hashFull: nat, s: nat, e: nat, value: V)
      requires Valid() && size < cap && hashFull == Hash(key) && s < cap && e < cap && slot[e].key.None?
      requires var h := HomeOf(cap, key);
               if slot[h].key.None? then e == s == h
               else
                 && s in tail[h] && slot[s].key.Some? && (s == h || ValuesOf(log, key) == [])
                 && e == SlotFor(Taken(cap, log), cap, key)
      modifies this, slot
      ensures Valid() && slot == old(slot) && cap == old(cap) && log == old(log) + [(key, value)]
    {
      hide Hash, Holds, SlotFor, Taken;
      ghost var was := slot[..];
      if slot[e].key.None? && e == s {
        PutInHome(was, tail, log, key, value);
        slot[e] := Slot(Some(key), hashFull, Some(value), slot[e].next);
        tail := tail[e := [e]];
      } else {
        PutInChain(was, tail, log, s, e, key, value);
        slot[e] := Slot(Some(key), hashFull, Some(value), slot[s].next);
        slot[s] := slot[s].(next := e + 1);
        tail := SplicedTail(tail, s, e);
        assert slot[..] == Behind(was, s, e, key, value);
      }
      log := log + [(key, value)];
      size := size + 1;
    }

    /** `_pbcM_sp_insert`: an entry is made whether the key is there or not. */
    method Insert(key: Name, value: V)
      requires Valid() && size < cap
      modifies this, slot
      ensures Valid() && slot == old(slot) && cap == old(cap) && log == old(log) + [(key, value)]
    {
      hide Hash, Holds, Taken, FreeFrom;
      var hashFull := CalcHash(key);
      var hash := And(hashFull, cap - 1);
      AndMask(hashFull, cap);
      UsedOrNot(slot[..], tail, log, hash);
      TakenIs(hash);
      if slot[hash].key.None? {
        Enter(key, hashFull, hash, hash, value);
      } else {
        var empty := Probe(hash);
        Enter(key, hashFull, hash, empty, value);
      }
    }

    lemma {:induction false} TakenIs(i: nat)
      requires Valid() && i < cap
      ensures slot[i].key.Some? <==> i in Taken(cap, log)
    {
      hide Hash, Taken, FoundAs, Fields, WalkFrom;
      assert slot[..][i] == slot[i];
    }

    /** The walk of a lookup: whether it meets the key, and where it ends. */
    method Walk(key: Name, hashFull: nat) returns (there: bool, last: nat)
      requires Valid() && hashFull == Hash(key)
      requires hashFull == 0 ==> slot[HomeOf(cap, key)].key.Some?
      ensures last < cap && there == (ValuesOf(log, key) != [])
      ensures there ==> slot[last].pointer == Answer(cap, log, key)
      ensures !there && slot[HomeOf(cap, key)].key.Some? ==> last in tail[HomeOf(cap, key)] && slot[last].key.Some?
    {
      hide Hash, Holds, Taken, GotHome, Fields;
      var i := And(hashFull, cap - 1);
      AndMask(hashFull, cap);
      ghost var home := i;
      ghost var view := slot[..];
      Starts(home, key);
      while true
        invariant 0 <= i < cap && slot[..] == view
        invariant FirstOn(view, tail[home], key) == FirstOn(view, tail[i], key)
        invariant slot[home].key.Some? ==> i in tail[home] && slot[i].key.Some?
        decreases |tail[i]|, slot[i].next
      {
        WalkStep(i, key);
        if slot[i].hash == hashFull && slot[i].key == Some(key) {
          Meets(key);
          return true, i;
        }
        if slot[i].next == 0 {
          Meets(key);
          return false, i;
        }
        if slot[home].key.Some? { Onward(home, i); }
        i := slot[i].next - 1;
      }
    }

    lemma {:induction false} Starts(home: nat, key: Name)
      requires Valid() && home < cap
      ensures |tail| == cap && (slot[home].key.Some? ==> home in tail[home])
    {
      hide Hash, Holds;
      UsedOrNot(slot[..], tail, log, home);
    }

    lemma {:induction false} Onward(home: nat, i: nat)
      requires Valid() && home < cap && i < cap && |tail| == cap && i in tail[home] && slot[i].next != 0
      ensures slot[i].next <= cap && slot[i].next - 1 in tail[home] && slot[slot[i].next - 1].key.Some?
    {
      hide Hash, Fields, Taken, FoundAs, WalkFrom;
      UsedOrNot(slot[..], tail, log, i);
      var n := slot[i].next - 1;
      UsedOrNot(slot[..], tail, log, n);
      WalkContains(Links(Cells(slot[..])), tail, home, i, n);
    }

    /** One slot of a walk. */
    lemma {:induction false} WalkStep(i: nat, key: Name)
      requires Valid() && i < cap
      ensures |tail| == cap
      ensures slot[i].key.Some? ==> slot[i].hash == Hash(slot[i].key.value) && slot[i].pointer.Some?
      ensures slot[i].key == Some(key) ==> FirstOn(slot[..], tail[i], key) == slot[i].pointer
      ensures slot[i].key != Some(key) && slot[i].next == 0 ==> FirstOn(slot[..], tail[i], key) == None
      ensures slot[i].next != 0 ==> slot[i].next <= cap && slot[i].key.Some? && |tail[i]| > |tail[slot[i].next - 1]|
      ensures slot[i].key != Some(key) && slot[i].next != 0 ==>
                FirstOn(slot[..], tail[i], key) == FirstOn(slot[..], tail[slot[i].next - 1], key)
    {
      hide Hash, Taken, FoundAs;
      var view := slot[..];
      UsedOrNot(view, tail, log, i);
      assert Fields(view[i]);
      if slot[i].next != 0 {
        var n := slot[i].next - 1;
        assert ([i] + tail[n])[1..] == tail[n];
      } else if slot[i].key.Some? {
        assert [i][1..] == [];
      }
    }

    /** What the walk from the home slot meets first is the answer. */
    lemma {:induction false} Meets(key: Name)
      requires Valid()
      ensures |tail| == cap
      ensures var f := FirstOn(slot[..], tail[HomeOf(cap, key)], key);
              f == Answer(cap, log, key) && (f.None? <==> ValuesOf(log, key) == [])
    {
      hide Hash, Taken, GotHome, Fields, WalkFrom;
      var view := slot[..];
      assert FoundAs(view, tail, log, key);
      if ValuesOf(log, key) == [] {
        FirstNone(view, tail[HomeOf(cap, key)], key);
      }
    }

    /** `_pbcM_sp_query` */
    method Query(key: Name) returns (r: Option<V>)
      requires Valid()
      requires Hash(key) == 0 ==> slot[HomeOf(cap, key)].key.Some?
      ensures r == Answer(cap, log, key)
    {
      hide Hash, Holds, Taken, GotHome;
      var h := CalcHash(key);
      var there, i := Walk(key, h);
      r := if there then slot[i].pointer else None;
    }

    /** `_pbcM_sp_query_insert` and a store if the pointer is new, as the reader has it for
        repeated fields: one entry per name. */
    method QueryInsert(key: Name, value: V)
      requires Valid() && size < cap
      modifies this, slot
      ensures Valid() && slot == old(slot) && cap == old(cap)
      ensures log == if ValuesOf(old(log), key) == [] then old(log) + [(key, value)] else old(log)
    {
      hide Hash, Holds, Taken, FreeFrom;
      var hashFull := CalcHash(key);
      var hash := And(hashFull, cap - 1);
      AndMask(hashFull, cap);
      TakenIs(hash);
      if slot[hash].key.None? {
        HomeFree(key);
        Enter(key, hashFull, hash, hash, value);
        return;
      }
      var there, last := Walk(key, hashFull);
      if there {
        return;
      }
      var empty := Probe(hash);
      Enter(key, hashFull, last, empty, value);
    }

    lemma {:induction false} HomeFree(key: Name)
      requires Valid() && slot[HomeOf(cap, key)].key.None?
      ensures ValuesOf(log, key) == []
    {
      hide Hash, Holds, Taken, GotHome;
      var h := HomeOf(cap, key);
      UsedOrNot(slot[..], tail, log, h);
      FirstNoneEmpty(slot[..], key);
      NoEntry(slot[..], tail, log, key);
    }
  }

  /** A value to enter: once per name, as for repeated fields, or always. */
  datatype Enters<V> = Enters(name: Name, value: V, once: bool)

  /** The entries these make. */
  function Made<V>(es: seq<Enters<V>>): (log: Log<V>)
    ensures |log| <= |es|
  {
    if es == [] then []
    else
      var before, e := Made(es[..|es| - 1]), es[|es| - 1];
      if e.once && ValuesOf(before, e.name) != [] then before else before + [(e.name, e.value)]
  }

  /** A table filled as the reader fills it, and a lookup in it. */
  method FillAndFind<V>(es: seq<Enters<V>>, key: Name) returns (cap: nat, r: Option<V>)
    requires Hash(key) != 0
    ensures |es| <= cap && cap > 0 && r == Answer(cap, Made(es), key)
  {
    hide Hash, Holds, Answer;
    var m := new DupMap(|es|);
    var i := 0;
    while i < |es|
      invariant 0 <= i <= |es| <= m.cap && m.Valid() && m.log == Made(es[..i]) && fresh(m) && fresh(m.slot)
    {
      assert es[..i + 1][..i] == es[..i];
      if es[i].once {
        m.QueryInsert(es[i].name, es[i].value);
      } else {
        m.Insert(es[i].name, es[i].value);
      }
      i := i + 1;
    }
    assert es[..i] == es;
    cap := m.cap;
    r := m.Query(key);
  }

  /** Two values under one name: the first is found if it got the home slot, the second if
      another name had it before. */
  lemma {:induction false} FirstOrLast<V>(cap: nat, a: Name, x: V, n: Name, v: V, w: V)
    requires cap > 0 && a != n
    ensures Answer(cap, [(n, v), (n, w)], n) == Some(v)
    ensures HomeOf(cap, a) == HomeOf(cap, n) ==> Answer(cap, [(a, x), (n, v), (n, w)], n) == Some(w)
  {
    hide Hash, FreeFrom, Taken, ValuesOf, GotHome;
    NoLog<V>(cap, a, n);
    LogStep(cap, [], n, v);
    LogStep(cap, [(n, v)], n, w);
    assert [] + [(n, v)] == [(n, v)] && [(n, v)] + [(n, w)] == [(n, v), (n, w)];
    LogStep(cap, [], a, x);
    LogStep(cap, [(a, x)], n, v);
    LogStep(cap, [(a, x), (n, v)], n, w);
    assert [] + [(a, x)] == [(a, x)] && [(a, x)] + [(n, v)] == [(a, x), (n, v)];
    assert [(a, x), (n, v)] + [(n, w)] == [(a, x), (n, v), (n, w)];
  }

  lemma {:induction false} NoLog<V>(cap: nat, a: Name, n: Name)
    requires cap > 0
    ensures Taken<V>(cap, []) == {} && ValuesOf<V>([], n) == ValuesOf<V>([], a) == []
  {
  }

  /** One value under a name is the one that is found. */
  lemma {:induction false} OneFound<V>(cap: nat, log: Log<V>, n: Name)
    requires cap > 0 && |ValuesOf(log, n)| == 1
    ensures Answer(cap, log, n) == Some(ValuesOf(log, n)[0])
  {
  }
}
