/** Keys placed in coalesced chains: what `map_sp`, `map_ip` and `map_si` have in
    common, whatever their keys and hash functions are. */
module Index {
  import opened Wrappers
  import opened Chains

  /** The key of a slot, if it is taken, and its link. */
  datatype Cell<+K> = Cell(key: Option<K>, next: nat)

  function Links<K>(cells: seq<Cell<K>>): (links: seq<Link>)
    ensures |links| == |cells|
    ensures forall i | 0 <= i < |cells| :: links[i] == Link(cells[i].key.Some?, cells[i].next)
  {
    seq(|cells|, i requires 0 <= i < |cells| => Link(cells[i].key.Some?, cells[i].next))
  }

  /** `at` locates every key, and every entry is met by the walk from its home slot. */
  ghost predicate Placed<K>(cells: seq<Cell<K>>, tail: seq<seq<nat>>, at: map<K, nat>, home: K -> nat) {
    && Chained(Links(cells), tail)
    && (forall i | 0 <= i < |cells| :: Entry(cells, tail, at, home, i))
    && (forall k | k in at :: at[k] < |cells| && cells[at[k]].key == Some(k))
  }

  ghost predicate Entry<K>(cells: seq<Cell<K>>, tail: seq<seq<nat>>, at: map<K, nat>, home: K -> nat, i: nat)
    requires i < |cells| == |tail|
  {
    if cells[i].key.None? then cells[i].next == 0 && tail[i] == []
    else
      var k := cells[i].key.value;
      k in at && at[k] == i && home(k) < |cells| && i in tail[home(k)]
  }

  lemma NonePlaced<K>(cells: seq<Cell<K>>, home: K -> nat)
    requires forall i | 0 <= i < |cells| :: cells[i] == Cell(None, 0)
    ensures Placed(cells, seq(|cells|, _ => []), map[], home)
    ensures Count(Links(cells)) == 0
  {
    NoneUsed(Links(cells));
  }

  lemma {:induction false} NoneUsed(links: seq<Link>)
    requires forall i | 0 <= i < |links| :: !links[i].used
    ensures Count(links) == 0
  {
    if links != [] { NoneUsed(links[1..]); }
  }

  /** A new key in its own free home slot. */
  lemma PutHome<K>(cells: seq<Cell<K>>, tail: seq<seq<nat>>, at: map<K, nat>, home: K -> nat, h: nat, key: K)
    requires Placed(cells, tail, at, home) && h < |cells| && h == home(key)
    requires cells[h].key.None? && key !in at
    ensures Placed(cells[h := Cell(Some(key), 0)], tail[h := [h]], at[key := h], home)
    ensures Count(Links(cells[h := Cell(Some(key), 0)])) == Count(Links(cells)) + 1
    ensures cells[h].next == 0
  {
    hide WalkFrom;
    var cells', tail', at' := cells[h := Cell(Some(key), 0)], tail[h := [h]], at[key := h];
    assert Entry(cells, tail, at, home, h);
    assert Links(cells') == Links(cells)[h := Link(true, 0)];
    CountUpdate(Links(cells), h, Link(true, 0));
    OccupyKeeps(Links(cells), tail, h);
    forall i | 0 <= i < |cells| ensures Entry(cells', tail', at', home, i) {
      assert Entry(cells, tail, at, home, i);
    }
  }

  /** The cells after a new key goes to the free slot e behind the taken slot s. */
  function Linked<K>(cells: seq<Cell<K>>, s: nat, e: nat, key: K): seq<Cell<K>>
    requires s < |cells| && e < |cells|
  {
    cells[e := Cell(Some(key), cells[s].next)][s := cells[s].(next := e + 1)]
  }

  /** A new key behind any slot that the walk from its home slot meets. */
  lemma PutLinked<K>(cells: seq<Cell<K>>, tail: seq<seq<nat>>, at: map<K, nat>, home: K -> nat, s: nat, e: nat, key: K)
    requires Placed(cells, tail, at, home) && s < |cells| == |tail| && e < |cells|
    requires home(key) < |cells| && s in tail[home(key)]
    requires cells[s].key.Some? && cells[e].key.None? && key !in at
    ensures tail[s] != []
    ensures Placed(Linked(cells, s, e, key), SplicedTail(tail, s, e), at[key := e], home)
    ensures Count(Links(Linked(cells, s, e, key))) == Count(Links(cells)) + 1
  {
    hide WalkFrom, After;
    var cells', links := Linked(cells, s, e, key), Links(cells);
    SpliceKeeps(links, tail, s, e);
    assert Links(cells') == Spliced(links, s, e);
    CountUpdate(links, e, Link(true, links[s].next));
    CountUpdate(links[e := Link(true, links[s].next)], s, Link(true, e + 1));
    var tail', at' := SplicedTail(tail, s, e), at[key := e];
    forall i | 0 <= i < |cells| ensures Entry(cells', tail', at', home, i) {
      assert Entry(cells, tail, at, home, i);
      if cells'[i].key.None? {
        Unused(Links(cells'), tail', i);
      }
    }
  }

  /** A taken slot is the first its own walk meets. */
  lemma MeetsItself<K>(cells: seq<Cell<K>>, tail: seq<seq<nat>>, at: map<K, nat>, home: K -> nat, i: nat)
    requires Placed(cells, tail, at, home) && i < |cells| && cells[i].key.Some?
    ensures |tail| == |cells| && i in tail[i]
  {
    assert WalkFrom(Links(cells), tail, i);
  }

  lemma Unused(links: seq<Link>, tail: seq<seq<nat>>, i: nat)
    requires Chained(links, tail) && i < |links| && !links[i].used
    ensures links[i].next == 0 && tail[i] == []
  {
    assert WalkFrom(links, tail, i);
  }

  /** Following a walk: where a key can still be found after one slot. */
  lemma Step<K>(cells: seq<Cell<K>>, tail: seq<seq<nat>>, at: map<K, nat>, home: K -> nat, i: nat)
    requires Placed(cells, tail, at, home) && i < |cells|
    ensures |tail| == |cells|
    ensures cells[i].key.None? ==> tail[i] == [] && cells[i].next == 0
    ensures cells[i].key.Some? ==> cells[i].key.value in at && at[cells[i].key.value] == i
    ensures cells[i].next != 0 ==> cells[i].next <= |cells| && tail[i] == [i] + tail[cells[i].next - 1]
    ensures cells[i].key.Some? && cells[i].next == 0 ==> tail[i] == [i]
  {
    assert Entry(cells, tail, at, home, i) && WalkFrom(Links(cells), tail, i);
  }

  /** Every key is on the walk from its home slot, which is therefore taken. */
  lemma FromHome<K>(cells: seq<Cell<K>>, tail: seq<seq<nat>>, at: map<K, nat>, home: K -> nat, key: K)
    requires Placed(cells, tail, at, home) && key in at
    ensures at[key] < |cells| == |tail| && cells[at[key]].key == Some(key)
    ensures home(key) < |cells| && at[key] in tail[home(key)] && cells[home(key)].key.Some?
  {
    assert Entry(cells, tail, at, home, at[key]);
    assert Entry(cells, tail, at, home, home(key));
  }
}
