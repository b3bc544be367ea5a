/** The coalesced chains all three tables of ext/pbc/src/map.c are made of. A slot is
    free or used and carries a link, 0 for none or the next slot's index plus one. An
    entry whose home slot is taken goes to a free slot spliced in behind a slot of the
    chain: the home slot, or for `_pbcM_sp_query_insert` the last one. Chains with
    different homes may share a tail. */
module Chains {
  datatype Link = Link(used: bool, next: nat)

  /** tail[i] lists the slots met by following the links from slot i. That every walk
      has a finite list is what makes the chains acyclic. */
  ghost predicate Chained(links: seq<Link>, tail: seq<seq<nat>>) {
    |tail| == |links| && forall i | 0 <= i < |links| :: WalkFrom(links, tail, i)
  }

  ghost predicate WalkFrom(links: seq<Link>, tail: seq<seq<nat>>, i: nat)
    requires |tail| == |links| && i < |links|
  {
    if !links[i].used then links[i].next == 0 && tail[i] == []
    else if links[i].next == 0 then tail[i] == [i]
    else links[i].next <= |links| && links[links[i].next - 1].used && tail[i] == [i] + tail[links[i].next - 1]
  }

  /** A walk meets used slots only, and each leads to a walk no longer than the first. */
  lemma {:induction false} WalkMeets(links: seq<Link>, tail: seq<seq<nat>>, i: nat, x: nat)
    requires Chained(links, tail) && i < |links| && x in tail[i]
    ensures x < |links| && links[x].used && tail[x] != [] && |tail[x]| <= |tail[i]|
    ensures x != i ==> |tail[x]| < |tail[i]|
    decreases |tail[i]|
  {
    assert WalkFrom(links, tail, i);
    if x != i {
      WalkMeets(links, tail, links[i].next - 1, x);
    }
  }

  /** A walk goes on as the walk of any slot it meets. */
  lemma {:induction false} WalkContains(links: seq<Link>, tail: seq<seq<nat>>, i: nat, x: nat, y: nat)
    requires Chained(links, tail) && i < |links| && x in tail[i] && x < |links| && y in tail[x]
    ensures y in tail[i]
    decreases |tail[i]|
  {
    assert WalkFrom(links, tail, i);
    if x != i { WalkContains(links, tail, links[i].next - 1, x, y); }
  }

  /** No walk meets a slot twice. */
  lemma {:induction false} WalkAcyclic(links: seq<Link>, tail: seq<seq<nat>>, i: nat)
    requires Chained(links, tail) && i < |links|
    ensures forall a, b | 0 <= a < b < |tail[i]| :: tail[i][a] != tail[i][b]
    decreases |tail[i]|
  {
    assert WalkFrom(links, tail, i);
    if links[i].used && links[i].next != 0 {
      var n := links[i].next - 1;
      WalkAcyclic(links, tail, n);
      if i in tail[n] { WalkMeets(links, tail, n, i); }
    }
  }

  /** t with e put behind s. */
  ghost function After(t: seq<nat>, s: nat, e: nat): seq<nat> {
    if t == [] then []
    else if t[0] == s then [s, e] + t[1..]
    else [t[0]] + After(t[1..], s, e)
  }

  lemma {:induction false} AfterMembers(t: seq<nat>, s: nat, e: nat)
    ensures forall x :: x in After(t, s, e) <==> x in t || (x == e && s in t)
    ensures s !in t ==> After(t, s, e) == t
  {
    if t != [] && t[0] != s { AfterMembers(t[1..], s, e); }
  }

  /** Taking a free slot as a chain of its own. */
  lemma OccupyKeeps(links: seq<Link>, tail: seq<seq<nat>>, h: nat)
    requires Chained(links, tail) && h < |links| && !links[h].used
    ensures tail[h] == []
    ensures Chained(links[h := Link(true, 0)], tail[h := [h]])
  {
    assert WalkFrom(links, tail, h);
    var links', tail' := links[h := Link(true, 0)], tail[h := [h]];
    forall i | 0 <= i < |links| ensures WalkFrom(links', tail', i) {
      assert WalkFrom(links, tail, i);
    }
  }

  /** Splicing the free slot e in behind the used slot s. */
  function Spliced(links: seq<Link>, s: nat, e: nat): seq<Link>
    requires s < |links| && e < |links|
  {
    links[e := Link(true, links[s].next)][s := Link(true, e + 1)]
  }

  ghost function SplicedTail(tail: seq<seq<nat>>, s: nat, e: nat): seq<seq<nat>>
    requires s < |tail| && e < |tail| && tail[s] != []
  {
    seq(|tail|, i requires 0 <= i < |tail| => if i == e then [e] + tail[s][1..] else After(tail[i], s, e))
  }

  lemma SpliceKeeps(links: seq<Link>, tail: seq<seq<nat>>, s: nat, e: nat)
    requires Chained(links, tail) && s < |links| && e < |links| && links[s].used && !links[e].used
    ensures tail[s] != [] && s in tail[s]
    ensures Chained(Spliced(links, s, e), SplicedTail(tail, s, e))
    ensures forall i, x | 0 <= i < |links| && x in tail[i] :: x in SplicedTail(tail, s, e)[i]
    ensures forall i | 0 <= i < |links| && s in tail[i] :: e in SplicedTail(tail, s, e)[i]
  {
    assert WalkFrom(links, tail, s) && WalkFrom(links, tail, e);
    var links', tail' := Spliced(links, s, e), SplicedTail(tail, s, e);
    forall i | 0 <= i < |links| ensures (forall x | x in tail[i] :: x in tail'[i]) && (s in tail[i] ==> e in tail'[i]) {
      AfterMembers(tail[i], s, e);
    }
    forall i | 0 <= i < |links| ensures WalkFrom(links', tail', i) {
      SpliceKeepsAt(links, tail, s, e, i);
    }
  }

  lemma AfterCons(x: nat, t: seq<nat>, s: nat, e: nat)
    ensures After([x] + t, s, e) == if x == s then [s, e] + t else [x] + After(t, s, e)
  {
    assert ([x] + t)[1..] == t;
  }

  /** What follows s does not come back to s. */
  lemma RestUnchanged(links: seq<Link>, tail: seq<seq<nat>>, s: nat, e: nat)
    requires Chained(links, tail) && s < |links| && links[s].used
    ensures tail[s] != [] && tail[s] == [s] + tail[s][1..]
    ensures links[s].next == 0 ==> tail[s][1..] == []
    ensures links[s].next != 0 ==> links[s].next <= |links| && links[links[s].next - 1].used
                                   && After(tail[links[s].next - 1], s, e) == tail[s][1..]
  {
    hide After;
    assert WalkFrom(links, tail, s);
    if links[s].next != 0 {
      var n := links[s].next - 1;
      assert tail[s][1..] == tail[n];
      if s in tail[n] { WalkMeets(links, tail, n, s); }
      AfterMembers(tail[n], s, e);
    }
  }

  lemma SpliceKeepsAt(links: seq<Link>, tail: seq<seq<nat>>, s: nat, e: nat, i: nat)
    requires Chained(links, tail) && s < |links| && e < |links| && links[s].used && !links[e].used
    requires i < |links| && tail[s] != []
    ensures WalkFrom(Spliced(links, s, e), SplicedTail(tail, s, e), i)
  {
    assert |tail| == |links|;
    hide After, Chained;
    var tail' := SplicedTail(tail, s, e);
    RestUnchanged(links, tail, s, e);
    AfterCons(s, tail[s][1..], s, e);
    assert tail'[e] == [e] + tail[s][1..];
    assert tail'[s] == [s, e] + tail[s][1..] == [s] + tail'[e];
    if i != s && i != e {
      OthersUnchanged(links, tail, s, e, i);
    }
  }

  lemma OthersUnchanged(links: seq<Link>, tail: seq<seq<nat>>, s: nat, e: nat, i: nat)
    requires Chained(links, tail) && s < |links| && e < |links| && links[s].used && !links[e].used
    requires i < |links| && i != s && i != e && tail[s] != []
    ensures WalkFrom(Spliced(links, s, e), SplicedTail(tail, s, e), i)
  {
    assert WalkFrom(links, tail, i);
    hide After, Chained;
    var tail' := SplicedTail(tail, s, e);
    assert tail'[i] == After(tail[i], s, e);
    if links[i].used {
      if links[i].next == 0 {
        assert tail[i] == [i];
        AfterMembers([i], s, e);
      } else {
        var n := links[i].next - 1;
        AfterCons(i, tail[n], s, e);
        assert tail'[n] == After(tail[n], s, e);
      }
    } else {
      AfterMembers([], s, e);
    }
  }

  // ---- counting

  function Count(links: seq<Link>): (n: nat)
    ensures n <= |links|
  {
    if links == [] then 0 else (if links[0].used then 1 else 0) + Count(links[1..])
  }

  lemma {:induction false} CountUpdate(links: seq<Link>, i: nat, l: Link)
    requires i < |links|
    ensures Count(links[i := l]) == Count(links) - (if links[i].used then 1 else 0) + (if l.used then 1 else 0)
  {
    if i > 0 {
      assert links[i := l][1..] == links[1..][i - 1 := l];
      CountUpdate(links[1..], i - 1, l);
    } else {
      assert links[i := l][1..] == links[1..];
    }
  }

  /** A table that is not full has a free slot. */
  lemma {:induction false} FreeSlot(links: seq<Link>) returns (i: nat)
    requires Count(links) < |links|
    ensures i < |links| && !links[i].used
  {
    if links[0].used {
      i := FreeSlot(links[1..]);
      i := i + 1;
    } else {
      i := 0;
    }
  }

  lemma {:induction false} FullTable(links: seq<Link>)
    ensures Count(links) == |links| <==> forall i | 0 <= i < |links| :: links[i].used
  {
    if links != [] {
      FullTable(links[1..]);
      assert forall i | 1 <= i < |links| :: links[i] == links[1..][i - 1];
      assert forall i | 0 <= i < |links| - 1 :: links[1..][i] == links[i + 1];
    }
  }
}
