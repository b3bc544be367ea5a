/** Hash values and runs of table operations (ext/pbc/src/map.c), stated without the loop and
    without the abstract map. */
module TableRuns {
  import opened Words
  import opened Wrappers
  import opened SpMap
  import Duplicates

  // ---- calc_hash

  /** Mixing in characters one after the other, for a signed char and a 64-bit size_t. */
  function MixedIn(h: nat, cs: seq<byte>): nat
    decreases |cs|
  {
    if cs == [] then h
    else
      var c := if cs[0] < 0x80 then cs[0] as int else cs[0] as int - 0x100;
      MixedIn(Xor(h, (32 * h + h / 4 + c) % 0x1_0000_0000_0000_0000), cs[1..])
  }

  lemma {:induction false} MixIs(h: nat, c: byte)
    ensures Mix(h, c) == Xor(h,
            (32 * h + h / 4 + (if c < 0x80 then c as int else c as int - 0x100)) % 0x1_0000_0000_0000_0000)
  {
    if c >= 0x80 {
      var m := 32 * h + h / 4 + c as int - 0x100;
      assert h * 0x20 + h / 4 + (c as int + 0xFFFF_FFFF_FFFF_FF00) == m + 0x1_0000_0000_0000_0000;
      WrapsOnce(m, 0x1_0000_0000_0000_0000);
    }
  }

  lemma {:induction false} WrapsOnce(m: int, n: nat)
    requires n > 0
    ensures (m + n) % n == m % n
  {
    RemainderIs(m + n, n, m / n + 1, m % n);
  }

  /** Every step-th character of the first i, from the last on. */
  ghost predicate Picked(name: Name, i: nat, step: nat, cs: seq<byte>)
    requires i <= |name| && step > 0
  {
    && step * |cs| <= i < step * |cs| + step
    && forall k | 0 <= k < |cs| :: 0 <= i - 1 - k * step < |name| && cs[k] == name[i - 1 - k * step]
  }

  lemma {:induction false} HashFromIs(name: Name, i: nat, step: nat, h: nat) returns (cs: seq<byte>)
    requires i <= |name| && step > 0
    ensures Picked(name, i, step, cs) && HashFrom(name, i, step, h) == MixedIn(h, cs)
    decreases i
  {
    hide Xor, Picked;
    if i < step {
      cs := [];
      PickedNone(name, i, step);
    } else {
      MixIs(h, name[i - 1]);
      var rest := HashFromIs(name, i - step, step, Mix(h, name[i - 1]));
      cs := [name[i - 1]] + rest;
      assert cs[1..] == rest;
      PickedMore(name, i, step, rest);
    }
  }

  lemma {:induction false} PickedNone(name: Name, i: nat, step: nat)
    requires i <= |name| && i < step
    ensures Picked(name, i, step, [])
  {
  }

  lemma {:induction false} PickedMore(name: Name, i: nat, step: nat, rest: seq<byte>)
    requires step <= i <= |name| && step > 0 && Picked(name, i - step, step, rest)
    ensures Picked(name, i, step, [name[i - 1]] + rest)
  {
    var cs := [name[i - 1]] + rest;
    forall k | 0 <= k < |cs| ensures 0 <= i - 1 - k * step < |name| && cs[k] == name[i - 1 - k * step] {
      if k > 0 {
        StepBack(i, k, step);
        assert cs[k] == rest[k - 1];
      }
    }
    Longer(step, |rest|);
  }

  lemma {:induction false} StepBack(i: nat, k: nat, step: nat)
    requires k > 0
    ensures i - step - 1 - (k - 1) * step == i - 1 - k * step
  {
  }

  lemma {:induction false} Longer(step: nat, n: nat)
    ensures step * (1 + n) == step + step * n
  {
  }

  /** The hash of a name begins with its length and mixes in, from the last character on, every
      character of a short name and every (|name| / 32 + 1)-th of a longer one. */
  lemma {:induction false} HashExactly(name: Name) returns (cs: seq<byte>)
    ensures Picked(name, |name|, |name| / 32 + 1, cs) && Hash(name) == MixedIn(|name|, cs)
  {
    cs := HashFromIs(name, |name|, |name| / 32 + 1, |name|);
  }

  /** The hash of "a". */
  lemma {:induction false} HashOfA()
    ensures Hash([97]) == 128
  {
    assert HashFrom([97], 0, 1, Mix(1, 97)) == Mix(1, 97);
    assert (1 * 0x20 + 1 / 4 + 97) % 0x1_0000_0000_0000_0000 == 129;
    assert Xor(0, 64) == 64;
    assert Xor(1, 129) == 128;
  }

  // ---- the slot a new entry gets

  /** Going round from behind slot h, every slot before e is taken. */
  predicate TakenUpTo(taken: set<nat>, cap: nat, h: nat, e: nat) {
    if h < e then forall j | h < j < e :: j in taken
    else (forall j | h < j < cap :: j in taken) && forall j | 0 <= j < e :: j in taken
  }

  /** Where probing stops, every slot before was taken. */
  lemma {:induction false} FirstFree(taken: set<nat>, cap: nat, h: nat, i: nat, steps: nat)
    requires h < cap && i < cap && TakenUpTo(taken, cap, h, i)
    ensures Duplicates.FreeFrom(taken, cap, i, steps) < cap
    ensures TakenUpTo(taken, cap, h, Duplicates.FreeFrom(taken, cap, i, steps))
    decreases steps
  {
    if steps > 0 && i in taken {
      Wraps(i, cap);
      FirstFree(taken, cap, h, (i + 1) % cap, steps - 1);
    }
  }

  /** An entry gets its home slot if that is free, and otherwise the first free one behind it. */
  lemma {:induction false} SlotExactly(taken: set<nat>, cap: nat, n: Name)
    requires cap > 0
    ensures var h, e := Hash(n) % cap, Duplicates.SlotFor(taken, cap, n);
            if h !in taken then e == h else e < cap && TakenUpTo(taken, cap, h, e)
  {
    hide Hash, Duplicates.FreeFrom;
    var h := Hash(n) % cap;
    Wraps(h, cap);
    FirstFree(taken, cap, h, (h + 1) % cap, cap);
  }

  // ---- runs

  /** What was stored last under a key. */
  function LastStored<V>(ops: seq<Op<V>>, key: Name): Option<Option<V>> {
    if ops == [] then None
    else
      var op := ops[|ops| - 1];
      if !op.Query? && op.key == key then Some(op.value) else LastStored(ops[..|ops| - 1], key)
  }

  function AllOf<V>(ops: seq<Op<V>>): Abstract<V> {
    AfterOps(Abstract(map[], []), ops)
  }

  lemma {:induction false} OneMoreOp<V>(a: Abstract<V>, ops: seq<Op<V>>, op: Op<V>)
    ensures AfterOps(a, ops + [op]) == Does(AfterOps(a, ops), op)
    decreases |ops|
  {
    hide Does;
    if ops == [] {
      assert ops + [op] == [op] && [op][1..] == [];
      NoOps(Does(a, op));
    } else {
      assert (ops + [op])[1..] == ops[1..] + [op];
      OneMoreOp(Does(a, ops[0]), ops[1..], op);
    }
  }

  /** After any run a key is bound to what was stored last under it. */
  lemma {:induction false} BoundExactly<V>(ops: seq<Op<V>>, key: Name)
    ensures var m, last := AllOf(ops).m, LastStored(ops, key);
            (key in m <==> last.Some?) && (last.Some? ==> m[key] == last.value)
    decreases |ops|
  {
    if ops != [] {
      var n := |ops| - 1;
      assert ops == ops[..n] + [ops[n]];
      BoundExactly(ops[..n], key);
      OneMoreOp(Abstract(map[], []), ops[..n], ops[n]);
    }
  }

  /** A query, and a query that inserts, answers with what was stored last, or nothing; other
      operations do not answer. */
  lemma {:induction false} AnswersExactly<V>(ops: seq<Op<V>>, op: Op<V>)
    ensures var was, now, last := AllOf(ops).answers, AllOf(ops + [op]).answers, LastStored(ops, op.key);
            if op.Insert? then now == was
            else now == was + [if last.Some? then last.value else None]
  {
    BoundExactly(ops, op.key);
    OneMoreOp(Abstract(map[], []), ops, op);
  }
}
